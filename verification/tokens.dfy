/**
 * Space-separated token lists, as the control reads and writes the
 * `aria-describedby` attribute: `split(" ")`, `join(" ")`, `includes`,
 * `indexOf` and `splice(i, 1)` on JavaScript arrays of strings.
 */
module Tokens {

  /** No token contains the separator. */
  ghost predicate SpaceFree(ts: seq<string>)
  {
    forall i :: 0 <= i < |ts| ==> ' ' !in ts[i]
  }

  /** Number of occurrences of `c` in `s`. */
  function CharCount(s: string, c: char): nat
  {
    if |s| == 0 then 0 else (if s[0] == c then 1 else 0) + CharCount(s[1..], c)
  }

  /**
   * `s.split(" ")`: cuts at every single space and keeps empty tokens, so
   * `""` gives `[""]` and `"a  b"` gives `["a", "", "b"]`.
   */
  function Split(s: string): (r: seq<string>)
    ensures |r| == CharCount(s, ' ') + 1
    decreases |s|
  {
    if |s| == 0 then [""]
    else
      var rest := Split(s[1..]);
      if s[0] == ' ' then [""] + rest
      else [[s[0]] + rest[0]] + rest[1..]
  }

  /** `ts.join(" ")`: the empty list gives the empty string. */
  function Join(ts: seq<string>): (r: string)
    ensures |ts| == 0 ==> r == ""
    ensures |ts| > 0 ==> |ts[0]| <= |r| && r[..|ts[0]|] == ts[0]
  {
    if |ts| == 0 then ""
    else if |ts| == 1 then ts[0]
    else ts[0] + " " + Join(ts[1..])
  }

  /** Number of occurrences of `x` in `ts`. */
  function Count(ts: seq<string>, x: string): nat
  {
    if |ts| == 0 then 0 else (if ts[0] == x then 1 else 0) + Count(ts[1..], x)
  }

  /** `ts.indexOf(x)`: the first index holding `x`, or -1. */
  function IndexOf(ts: seq<string>, x: string): (r: int)
    ensures -1 <= r < |ts|
    ensures r == -1 <==> x !in ts
  {
    if |ts| == 0 then -1
    else if ts[0] == x then 0
    else
      var k := IndexOf(ts[1..], x);
      if k == -1 then -1 else k + 1
  }

  /** `ts.splice(i, 1)`: the list without its entry at `i`. */
  function RemoveAt(ts: seq<string>, i: nat): (r: seq<string>)
    requires i < |ts|
    ensures |r| == |ts| - 1
  {
    ts[..i] + ts[i + 1..]
  }

  /** The tokens of `ts` other than `x`, in their original order. */
  function Without(ts: seq<string>, x: string): seq<string>
  {
    if |ts| == 0 then []
    else if ts[0] == x then Without(ts[1..], x)
    else [ts[0]] + Without(ts[1..], x)
  }

  /** No token `Split` produces contains a space. */
  lemma {:induction false} SplitSpaceFree(s: string)
    ensures SpaceFree(Split(s))
    decreases |s|
  {
    if |s| > 0 {
      var rest := Split(s[1..]);
      SplitSpaceFree(s[1..]);
      if s[0] != ' ' {
        assert ' ' !in rest[0];
        assert ' ' !in [s[0]] + rest[0];
      }
    }
  }

  /** The index found holds `x`, and no earlier entry does. */
  lemma {:induction false} IndexOfSpec(ts: seq<string>, x: string)
    requires x in ts
    ensures ts[IndexOf(ts, x)] == x && x !in ts[..IndexOf(ts, x)]
    decreases |ts|
  {
    if ts[0] != x {
      IndexOfSpec(ts[1..], x);
      var k := IndexOf(ts[1..], x);
      assert ts[..k + 1] == [ts[0]] + ts[1..][..k];
    }
  }

  /** Pushed onto a list without it, `x` is found at the end. */
  lemma {:induction false} IndexOfPushed(ts: seq<string>, x: string)
    requires x !in ts
    ensures IndexOf(ts + [x], x) == |ts|
    decreases |ts|
  {
    if |ts| > 0 {
      assert (ts + [x])[1..] == ts[1..] + [x];
      IndexOfPushed(ts[1..], x);
    }
  }

  /** `splice(i, 1)` keeps the entries before `i` and shifts the ones after it down by one. */
  lemma RemoveAtSpec(ts: seq<string>, i: nat)
    requires i < |ts|
    ensures forall j :: 0 <= j < i ==> RemoveAt(ts, i)[j] == ts[j]
    ensures forall j :: i <= j < |ts| - 1 ==> RemoveAt(ts, i)[j] == ts[j + 1]
  {
  }

  /**
   * `Without(ts, x)` holds exactly the tokens of `ts` other than `x`: the
   * meaning of the reference function the token properties are stated in.
   */
  lemma {:induction false} WithoutSpec(ts: seq<string>, x: string, t: string)
    ensures t in Without(ts, x) <==> t in ts && t != x
    decreases |ts|
  {
    if |ts| > 0 {
      WithoutSpec(ts[1..], x, t);
      assert ts == [ts[0]] + ts[1..];
    }
  }

  /** Splitting and joining again gives back the attribute text unchanged. */
  lemma {:induction false} JoinSplit(s: string)
    ensures Join(Split(s)) == s
    decreases |s|
  {
    if |s| > 0 {
      var rest := Split(s[1..]);
      JoinSplit(s[1..]);
      if s[0] == ' ' {
        assert Split(s) == [""] + rest;
        assert ([""] + rest)[1..] == rest;
        assert Join(Split(s)) == "" + " " + Join(rest);
        assert s == [s[0]] + s[1..];
      } else {
        var tokens := [[s[0]] + rest[0]] + rest[1..];
        assert Split(s) == tokens;
        if |rest| == 1 {
          assert Join(tokens) == [s[0]] + rest[0];
        } else {
          assert tokens[1..] == rest[1..];
          assert Join(tokens) == [s[0]] + rest[0] + " " + Join(rest[1..]);
          assert Join(rest) == rest[0] + " " + Join(rest[1..]);
        }
        assert s == [s[0]] + s[1..];
      }
    }
  }

  /** A text without spaces is a single token. */
  lemma {:induction false} SplitSingle(a: string)
    requires ' ' !in a
    ensures Split(a) == [a]
    decreases |a|
  {
    if |a| > 0 {
      assert ' ' !in a[1..];
      SplitSingle(a[1..]);
      assert a == [a[0]] + a[1..];
    }
  }

  /** A space-free token followed by a space splits off as the first token. */
  lemma {:induction false} SplitCons(a: string, b: string)
    requires ' ' !in a
    ensures Split(a + " " + b) == [a] + Split(b)
    decreases |a|
  {
    var s := a + " " + b;
    if |a| == 0 {
      assert s[1..] == b;
    } else {
      assert s[1..] == a[1..] + " " + b;
      assert ' ' !in a[1..];
      SplitCons(a[1..], b);
      assert a == [a[0]] + a[1..];
    }
  }

  /** Joining a non-empty list of space-free tokens and splitting again gives the list back. */
  lemma {:induction false} SplitJoin(ts: seq<string>)
    requires |ts| >= 1 && SpaceFree(ts)
    ensures Split(Join(ts)) == ts
    decreases |ts|
  {
    if |ts| == 1 {
      SplitSingle(ts[0]);
    } else {
      assert ' ' !in ts[0];
      SplitCons(ts[0], Join(ts[1..]));
      SplitJoin(ts[1..]);
      assert ts == [ts[0]] + ts[1..];
    }
  }

  /** The empty list is written as "" and read back as one empty token. */
  lemma SplitJoinEmpty()
    ensures Split(Join([])) == [""]
  {
  }

  lemma {:induction false} CountAppend(a: seq<string>, b: seq<string>, x: string)
    ensures Count(a + b, x) == Count(a, x) + Count(b, x)
    decreases |a|
  {
    if |a| > 0 {
      assert (a + b)[1..] == a[1..] + b;
      CountAppend(a[1..], b, x);
    } else {
      assert a + b == b;
    }
  }

  lemma {:induction false} WithoutAppend(a: seq<string>, b: seq<string>, x: string)
    ensures Without(a + b, x) == Without(a, x) + Without(b, x)
    decreases |a|
  {
    if |a| > 0 {
      assert (a + b)[1..] == a[1..] + b;
      WithoutAppend(a[1..], b, x);
    } else {
      assert a + b == b;
    }
  }

  lemma {:induction false} CountZero(ts: seq<string>, x: string)
    ensures Count(ts, x) == 0 <==> x !in ts
    decreases |ts|
  {
    if |ts| > 0 {
      CountZero(ts[1..], x);
      assert ts == [ts[0]] + ts[1..];
    }
  }

  /** A list that does not hold `x` is its own `Without(_, x)`. */
  lemma {:induction false} WithoutAbsent(ts: seq<string>, x: string)
    requires x !in ts
    ensures Without(ts, x) == ts
    decreases |ts|
  {
    if |ts| > 0 {
      assert x !in ts[1..];
      WithoutAbsent(ts[1..], x);
      assert ts == [ts[0]] + ts[1..];
    }
  }

  /**
   * `splice(indexOf(x), 1)` removes exactly one `x` (the first) and keeps
   * every other token in its order.
   */
  lemma RemoveFirstOccurrence(ts: seq<string>, x: string)
    requires x in ts
    ensures Without(RemoveAt(ts, IndexOf(ts, x)), x) == Without(ts, x)
    ensures Count(RemoveAt(ts, IndexOf(ts, x)), x) == Count(ts, x) - 1
    ensures SpaceFree(ts) ==> SpaceFree(RemoveAt(ts, IndexOf(ts, x)))
  {
    var i := IndexOf(ts, x);
    IndexOfSpec(ts, x);
    var pre, post := ts[..i], ts[i + 1..];
    assert ts == pre + ([x] + post);
    assert RemoveAt(ts, i) == pre + post;
    SkipOccurrence(pre, post, x);
    if SpaceFree(ts) {
      RemoveAtSpaceFree(ts, i);
    }
  }

  /** Dropping one `x` from between two runs keeps the other tokens and one `x` fewer. */
  lemma SkipOccurrence(pre: seq<string>, post: seq<string>, x: string)
    ensures Without(pre + ([x] + post), x) == Without(pre + post, x)
    ensures Count(pre + ([x] + post), x) == Count(pre + post, x) + 1
  {
    assert ([x] + post)[1..] == post;
    WithoutAppend(pre, [x] + post, x);
    WithoutAppend(pre, post, x);
    CountAppend(pre, [x] + post, x);
    CountAppend(pre, post, x);
  }

  /** Removing an entry from space-free tokens leaves them space-free. */
  lemma RemoveAtSpaceFree(ts: seq<string>, i: nat)
    requires i < |ts| && SpaceFree(ts)
    ensures SpaceFree(RemoveAt(ts, i))
  {
    RemoveAtSpec(ts, i);
    forall j | 0 <= j < |ts| - 1
      ensures ' ' !in RemoveAt(ts, i)[j]
    {
      if j >= i { assert RemoveAt(ts, i)[j] == ts[j + 1]; }
    }
  }

  /** Pushing `x` adds one occurrence and leaves the other tokens as they were. */
  lemma PushOccurrence(ts: seq<string>, x: string)
    ensures Without(ts + [x], x) == Without(ts, x)
    ensures Count(ts + [x], x) == Count(ts, x) + 1
  {
    WithoutAppend(ts, [x], x);
    CountAppend(ts, [x], x);
  }
}
