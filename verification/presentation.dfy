/**
 * The error presentation of the radio-list control, as a value: the CSS
 * classes of the form group, the children of the fieldset, the fieldset's
 * `aria-describedby` attribute and the last message shown. `Hide` and
 * `Show` say what `HideError` and `ShowError` do to it; the lemmas below
 * state what the two promise.
 */
module Presentation {
  import opened Wrappers
  import opened Tokens

  /** Id given to the error span and listed in `aria-describedby`. */
  const ErrorId := "errorMessage"
  /** Class that gives the form group its error styling. */
  const ErrorClass := "govuk-form-group--error"
  /** Visually hidden lead-in placed before every error text. */
  const HiddenPrefix := "<span class=\"govuk-visually-hidden\">Error:</span> "

  /**
   * Children of the fieldset. `ErrorSpan(html)` is the
   * `<span class="govuk-error-message" id="errorMessage">` the control
   * creates, with `html` as its inner HTML; the others come from the
   * rendered template.
   */
  datatype Node = Legend | HintDiv | RadiosDiv | ErrorSpan(html: string) | Other(name: string)

  datatype ErrorView = ErrorView(
    formGroupClasses: set<string>,
    children: seq<Node>,
    describedBy: Option<string>,  // None: the attribute is absent
    message: Option<string>       // None: no error was ever shown
  )

  /** Number of error spans. */
  function ErrorCount(ns: seq<Node>): nat
  {
    if |ns| == 0 then 0 else (if ns[0].ErrorSpan? then 1 else 0) + ErrorCount(ns[1..])
  }

  /** The children other than error spans, in order. */
  function NonErrors(ns: seq<Node>): seq<Node>
  {
    if |ns| == 0 then []
    else if ns[0].ErrorSpan? then NonErrors(ns[1..])
    else [ns[0]] + NonErrors(ns[1..])
  }

  /**
   * `document.getElementById("errorMessage")?.remove()`: the first error
   * span goes, and with none there nothing changes.
   */
  function RemoveFirstError(ns: seq<Node>): (r: seq<Node>)
    ensures RadiosDiv in ns ==> RadiosDiv in r
  {
    if |ns| == 0 then []
    else if ns[0].ErrorSpan? then ns[1..]
    else [ns[0]] + RemoveFirstError(ns[1..])
  }

  /** Position of the first radios div. */
  function RadiosIndex(ns: seq<Node>): (k: nat)
    requires RadiosDiv in ns
    ensures k < |ns| && ns[k] == RadiosDiv && RadiosDiv !in ns[..k]
  {
    if ns[0] == RadiosDiv then 0
    else
      var k := RadiosIndex(ns[1..]) + 1;
      assert ns[..k] == [ns[0]] + ns[1..][..k - 1];
      k
  }

  /** `radiosDiv.before(x)`: `x` becomes the sibling just before the radios div. */
  function InsertBeforeRadios(ns: seq<Node>, x: Node): (r: seq<Node>)
    requires RadiosDiv in ns
    ensures |r| == |ns| + 1
  {
    var k := RadiosIndex(ns);
    ns[..k] + [x] + ns[k..]
  }

  /**
   * The first error span goes, and only it: one error span fewer (none
   * stays none), the other children in their order, and without error
   * spans nothing changes.
   */
  lemma {:induction false} RemoveFirstErrorSpec(ns: seq<Node>)
    ensures ErrorCount(RemoveFirstError(ns)) == if ErrorCount(ns) == 0 then 0 else ErrorCount(ns) - 1
    ensures NonErrors(RemoveFirstError(ns)) == NonErrors(ns)
    ensures ErrorCount(ns) == 0 ==> RemoveFirstError(ns) == ns
    decreases |ns|
  {
    if |ns| > 0 && !ns[0].ErrorSpan? {
      RemoveFirstErrorSpec(ns[1..]);
      var r := [ns[0]] + RemoveFirstError(ns[1..]);
      assert r[1..] == RemoveFirstError(ns[1..]);
      assert ns == [ns[0]] + ns[1..];
    }
  }

  /** The inserted node sits just before the radios div; the rest is shifted by one. */
  lemma InsertBeforeRadiosSpec(ns: seq<Node>, x: Node)
    requires RadiosDiv in ns
    ensures var r, k := InsertBeforeRadios(ns, x), RadiosIndex(ns);
      && |r| == |ns| + 1
      && r[k] == x && r[k + 1] == RadiosDiv
      && r[..k] == ns[..k]
      && r[k + 1..] == ns[k..]
  {
  }

  /** The tokens of an attribute; an absent one has none. */
  function TokensOf(attr: Option<string>): seq<string>
  {
    match attr
    case None => []
    case Some(s) => Split(s)
  }

  /** The list `HideError` writes back: the first `errorMessage` token spliced out. */
  function HiddenList(attr: Option<string>): (r: seq<string>)
    ensures |r| == if ErrorId in TokensOf(attr) then |TokensOf(attr)| - 1 else |TokensOf(attr)|
  {
    var ts := TokensOf(attr);
    var i := IndexOf(ts, ErrorId);
    if i != -1 then RemoveAt(ts, i) else ts
  }

  /** The list `ShowError` writes back: `errorMessage` pushed unless it is already there. */
  function ShownList(s: string): (r: seq<string>)
    ensures ErrorId in r
    ensures |Split(s)| <= |r| <= |Split(s)| + 1 && r[..|Split(s)|] == Split(s)
  {
    var ts := Split(s);
    if ErrorId in ts then ts else ts + [ErrorId]
  }

  /** `HideError` on the presentation. */
  function Hide(v: ErrorView): (r: ErrorView)
    ensures !Shown(r) && r.describedBy.Some? && r.message == v.message
  {
    ErrorView(
      v.formGroupClasses - {ErrorClass},
      RemoveFirstError(v.children),
      Some(Join(HiddenList(v.describedBy))),
      v.message)
  }

  /** `ShowError(text)` on the presentation: it hides first, then shows. */
  function Show(v: ErrorView, text: string): (r: ErrorView)
    requires RadiosDiv in v.children
    ensures Shown(r) && r.describedBy.Some? && r.message == Some(text)
  {
    var h := Hide(v);
    ErrorView(
      h.formGroupClasses + {ErrorClass},
      InsertBeforeRadios(h.children, ErrorSpan(HiddenPrefix + text)),
      Some(Join(ShownList(h.describedBy.value))),
      Some(text))
  }

  /** Whether the form group carries the error styling. */
  predicate Shown(v: ErrorView)
  {
    ErrorClass in v.formGroupClasses
  }

  /**
   * The presentation the control keeps: a radios div to anchor errors to,
   * at most one error span and one `errorMessage` token, and the styling,
   * the span and the token present together, the span carrying the message.
   */
  ghost predicate Consistent(v: ErrorView)
  {
    && RadiosDiv in v.children
    && ErrorCount(v.children) <= 1
    && Count(TokensOf(v.describedBy), ErrorId) <= 1
    && (Shown(v) <==> ErrorCount(v.children) == 1)
    && (Shown(v) <==> ErrorId in TokensOf(v.describedBy))
    && (Shown(v) ==> v.message.Some? && ErrorSpan(HiddenPrefix + v.message.value) in v.children)
  }

  lemma ErrorIdHasNoSpace()
    ensures ' ' !in ErrorId
  {
    assert ErrorId == ['e', 'r', 'r', 'o', 'r', 'M', 'e', 's', 's', 'a', 'g', 'e'];
  }

  /**
   * `ErrorCount` counts error spans: it is zero exactly when no child is
   * one. This is what the span counts in the contracts below mean.
   */
  lemma {:induction false} ErrorCountZero(ns: seq<Node>)
    ensures ErrorCount(ns) == 0 <==> forall n :: n in ns ==> !n.ErrorSpan?
    decreases |ns|
  {
    if |ns| > 0 {
      ErrorCountZero(ns[1..]);
      assert ns == [ns[0]] + ns[1..];
    }
  }

  lemma {:induction false} ErrorCountAppend(a: seq<Node>, b: seq<Node>)
    ensures ErrorCount(a + b) == ErrorCount(a) + ErrorCount(b)
    decreases |a|
  {
    if |a| > 0 {
      assert (a + b)[1..] == a[1..] + b;
      ErrorCountAppend(a[1..], b);
    } else {
      assert a + b == b;
    }
  }

  lemma {:induction false} NonErrorsAppend(a: seq<Node>, b: seq<Node>)
    ensures NonErrors(a + b) == NonErrors(a) + NonErrors(b)
    decreases |a|
  {
    if |a| > 0 {
      assert (a + b)[1..] == a[1..] + b;
      NonErrorsAppend(a[1..], b);
    } else {
      assert a + b == b;
    }
  }

  /**
   * The non-error children are exactly the children that are not error
   * spans: what "every other child is kept" in the contracts below means.
   */
  lemma {:induction false} NonErrorsMember(ns: seq<Node>, n: Node)
    ensures n in NonErrors(ns) <==> n in ns && !n.ErrorSpan?
    decreases |ns|
  {
    if |ns| > 0 {
      NonErrorsMember(ns[1..], n);
      assert ns == [ns[0]] + ns[1..];
    }
  }

  /** With no error span before it, the first error span removed is the one inserted. */
  lemma {:induction false} RemoveFirstErrorAfter(a: seq<Node>, b: seq<Node>, html: string)
    requires ErrorCount(a) == 0
    ensures RemoveFirstError(a + [ErrorSpan(html)] + b) == a + b
  {
    assert a + [ErrorSpan(html)] + b == a + ([ErrorSpan(html)] + b);
    RemoveFirstErrorSkip(a, [ErrorSpan(html)] + b);
  }

  /** `RemoveFirstError` passes over a prefix without error spans. */
  lemma {:induction false} RemoveFirstErrorSkip(a: seq<Node>, rest: seq<Node>)
    requires ErrorCount(a) == 0 && |rest| > 0 && rest[0].ErrorSpan?
    ensures RemoveFirstError(a + rest) == a + rest[1..]
    decreases |a|
  {
    if |a| > 0 {
      assert (a + rest)[1..] == a[1..] + rest;
      RemoveFirstErrorSkip(a[1..], rest);
      assert a + rest[1..] == [a[0]] + (a[1..] + rest[1..]);
    }
  }

  /**
   * What `HideError` does to the token list: the first `errorMessage` is
   * removed, every other token is kept in its order, and an attribute
   * without the token is written back unchanged.
   */
  lemma HiddenListSpec(attr: Option<string>)
    ensures Without(HiddenList(attr), ErrorId) == Without(TokensOf(attr), ErrorId)
    ensures Count(HiddenList(attr), ErrorId) ==
      if Count(TokensOf(attr), ErrorId) == 0 then 0 else Count(TokensOf(attr), ErrorId) - 1
    ensures SpaceFree(HiddenList(attr))
    ensures attr.Some? && ErrorId !in TokensOf(attr) ==> Join(HiddenList(attr)) == attr.value
    ensures attr.None? ==> Join(HiddenList(attr)) == ""
  {
    var ts := TokensOf(attr);
    if attr.Some? {
      SplitSpaceFree(attr.value);
    }
    if ErrorId in ts {
      RemoveFirstOccurrence(ts, ErrorId);
    } else {
      CountZero(ts, ErrorId);
      if attr.Some? {
        JoinSplit(attr.value);
      }
    }
  }

  /** After `HideError`, reading the attribute again finds no `errorMessage` token. */
  lemma HiddenTokensGone(attr: Option<string>)
    requires Count(TokensOf(attr), ErrorId) <= 1
    ensures ErrorId !in Split(Join(HiddenList(attr)))
  {
    var l := HiddenList(attr);
    HiddenListSpec(attr);
    CountZero(l, ErrorId);
    if |l| > 0 {
      SplitJoin(l);
    } else {
      SplitJoinEmpty();
    }
  }

  /**
   * `HideError` clears the styling and removes one error span and one
   * token, keeping every other child and token in its order.
   */
  lemma HideSpec(v: ErrorView)
    ensures !Shown(Hide(v))
    ensures Hide(v).formGroupClasses == v.formGroupClasses - {ErrorClass}
    ensures ErrorCount(Hide(v).children) ==
      if ErrorCount(v.children) == 0 then 0 else ErrorCount(v.children) - 1
    ensures NonErrors(Hide(v).children) == NonErrors(v.children)
    ensures Hide(v).describedBy == Some(Join(HiddenList(v.describedBy)))
    ensures Without(HiddenList(v.describedBy), ErrorId) == Without(TokensOf(v.describedBy), ErrorId)
    ensures Hide(v).message == v.message
  {
    HiddenListSpec(v.describedBy);
    RemoveFirstErrorSpec(v.children);
  }

  /** With no error present (and the attribute set), `HideError` changes nothing. */
  lemma HideNoOp(v: ErrorView)
    requires !Shown(v) && ErrorCount(v.children) == 0
    requires v.describedBy.Some? && ErrorId !in TokensOf(v.describedBy)
    ensures Hide(v) == v
  {
    HiddenListSpec(v.describedBy);
    RemoveFirstErrorSpec(v.children);
  }

  /** From at most one error span and token, hiding twice is hiding once. */
  lemma HideIdempotent(v: ErrorView)
    requires ErrorCount(v.children) <= 1 && Count(TokensOf(v.describedBy), ErrorId) <= 1
    ensures Hide(Hide(v)) == Hide(v)
  {
    HiddenTokensGone(v.describedBy);
    RemoveFirstErrorSpec(v.children);
    HideNoOp(Hide(v));
  }

  /** A consistent presentation stays consistent, and error-free, under `HideError`. */
  lemma HideConsistent(v: ErrorView)
    requires Consistent(v)
    ensures Consistent(Hide(v)) && !Shown(Hide(v))
    ensures ErrorCount(Hide(v).children) == 0
  {
    HiddenTokensGone(v.describedBy);
    RemoveFirstErrorSpec(v.children);
    CountZero(Split(Join(HiddenList(v.describedBy))), ErrorId);
  }

  /** The list `ShowError` writes when the hidden attribute holds no token. */
  lemma ShownListAppends(s: string)
    requires ErrorId !in Split(s)
    ensures ShownList(s) == Split(s) + [ErrorId]
    ensures Split(Join(ShownList(s))) == ShownList(s)
  {
    ErrorIdHasNoSpace();
    SplitSpaceFree(s);
    SplitJoin(Split(s) + [ErrorId]);
  }

  /**
   * Inserting an error span into children without one: it becomes the only
   * error span, the other children are untouched, and removing the first
   * error span takes exactly it away again.
   */
  lemma InsertSpanSpec(ns: seq<Node>, html: string)
    requires RadiosDiv in ns && ErrorCount(ns) == 0
    ensures ErrorCount(InsertBeforeRadios(ns, ErrorSpan(html))) == 1
    ensures NonErrors(InsertBeforeRadios(ns, ErrorSpan(html))) == NonErrors(ns)
    ensures RemoveFirstError(InsertBeforeRadios(ns, ErrorSpan(html))) == ns
  {
    var k := RadiosIndex(ns);
    var pre, post := ns[..k], ns[k..];
    assert InsertBeforeRadios(ns, ErrorSpan(html)) == pre + [ErrorSpan(html)] + post;
    assert ns == pre + post;
    ErrorCountAppend(pre, post);
    SpanBetweenCount(pre, post, html);
    SpanBetweenNonErrors(pre, post, html);
    RemoveFirstErrorAfter(pre, post, html);
  }

  /** An error span placed between two runs of children without one is the only one. */
  lemma SpanBetweenCount(pre: seq<Node>, post: seq<Node>, html: string)
    requires ErrorCount(pre) == 0 && ErrorCount(post) == 0
    ensures ErrorCount(pre + [ErrorSpan(html)] + post) == 1
  {
    ErrorCountAppend(pre + [ErrorSpan(html)], post);
    ErrorCountAppend(pre, [ErrorSpan(html)]);
  }

  /** An error span placed between two runs of children leaves the other children as they were. */
  lemma SpanBetweenNonErrors(pre: seq<Node>, post: seq<Node>, html: string)
    ensures NonErrors(pre + [ErrorSpan(html)] + post) == NonErrors(pre + post)
  {
    NonErrorsAppend(pre + [ErrorSpan(html)], post);
    NonErrorsAppend(pre, [ErrorSpan(html)]);
    NonErrorsAppend(pre, post);
  }

  /**
   * The attribute `ShowError` writes, from at most one token: exactly one
   * `errorMessage`, the other tokens as the hide wrote them back, and a
   * later hide restores what the first hide wrote.
   */
  lemma ShownTokensSpec(attr: Option<string>)
    requires Count(TokensOf(attr), ErrorId) <= 1
    ensures var shown := Split(Join(ShownList(Join(HiddenList(attr)))));
      && Count(shown, ErrorId) == 1
      && Without(shown, ErrorId) == Split(Join(Without(TokensOf(attr), ErrorId)))
      && Join(HiddenList(Some(Join(ShownList(Join(HiddenList(attr))))))) == Join(HiddenList(attr))
  {
    var hidden := HiddenList(attr);
    HiddenListSpec(attr);
    HiddenTokensGone(attr);
    CountZero(hidden, ErrorId);
    WithoutAbsent(hidden, ErrorId);
    ShownStringSpec(Join(hidden));
  }

  /** `ShowError`'s write, then `HideError`'s, on an attribute text without the token. */
  lemma ShownStringSpec(s: string)
    requires ErrorId !in Split(s)
    ensures Count(Split(Join(ShownList(s))), ErrorId) == 1
    ensures Without(Split(Join(ShownList(s))), ErrorId) == Split(s)
    ensures Join(HiddenList(Some(Join(ShownList(s))))) == s
  {
    ShownListAppends(s);
    var shown := Split(s) + [ErrorId];
    PushOccurrence(Split(s), ErrorId);
    CountZero(Split(s), ErrorId);
    WithoutAbsent(Split(s), ErrorId);
    IndexOfPushed(Split(s), ErrorId);
    assert RemoveAt(shown, |Split(s)|) == Split(s);
    JoinSplit(s);
  }

  /**
   * `ShowError(text)`, from at most one error span: the styling is on;
   * exactly one error span, holding the hidden lead-in and `text`, sits
   * just before the radios div; every other child keeps its order; the
   * message is `text`.
   */
  lemma ShowSpec(v: ErrorView, text: string)
    requires RadiosDiv in v.children && ErrorCount(v.children) <= 1
    ensures Shown(Show(v, text))
    ensures Show(v, text).formGroupClasses == v.formGroupClasses + {ErrorClass}
    ensures ErrorCount(Show(v, text).children) == 1
    ensures exists k :: (0 <= k < |Show(v, text).children| - 1 &&
      Show(v, text).children[k] == ErrorSpan(HiddenPrefix + text) &&
      Show(v, text).children[k + 1] == RadiosDiv)
    ensures NonErrors(Show(v, text).children) == NonErrors(v.children)
    ensures Show(v, text).message == Some(text)
  {
    assert Show(v, text).children ==
      InsertBeforeRadios(RemoveFirstError(v.children), ErrorSpan(HiddenPrefix + text));
    ReplaceSpanSpec(v.children, ErrorSpan(HiddenPrefix + text));
  }

  /** The children `ShowError` leaves: the old span replaced by the new one, just before the radios div. */
  lemma ReplaceSpanSpec(ns: seq<Node>, span: Node)
    requires RadiosDiv in ns && ErrorCount(ns) <= 1 && span.ErrorSpan?
    ensures var r := InsertBeforeRadios(RemoveFirstError(ns), span);
      && ErrorCount(r) == 1
      && NonErrors(r) == NonErrors(ns)
      && exists k :: 0 <= k < |r| - 1 && r[k] == span && r[k + 1] == RadiosDiv
  {
    var h := RemoveFirstError(ns);
    RemoveFirstErrorSpec(ns);
    InsertSpanSpec(h, span.html);
    InsertBeforeRadiosSpec(h, span);
    var k := RadiosIndex(h);
    var r := InsertBeforeRadios(h, span);
    assert r[k] == span && r[k + 1] == RadiosDiv;
  }

  /**
   * `ShowError`'s `aria-describedby`, from at most one `errorMessage`
   * token: the attribute is set and holds exactly one `errorMessage`, and
   * its other tokens are the old ones as the hide wrote them back.
   */
  lemma ShowTokensSpec(v: ErrorView, text: string)
    requires RadiosDiv in v.children && Count(TokensOf(v.describedBy), ErrorId) <= 1
    ensures Show(v, text).describedBy.Some?
    ensures Count(TokensOf(Show(v, text).describedBy), ErrorId) == 1
    ensures Without(TokensOf(Show(v, text).describedBy), ErrorId) ==
      Split(Join(Without(TokensOf(v.describedBy), ErrorId)))
  {
    assert Show(v, text).describedBy == Some(Join(ShownList(Join(HiddenList(v.describedBy)))));
    ShownTokensSpec(v.describedBy);
  }

  /** A consistent presentation stays consistent under `ShowError`, with the error shown. */
  lemma ShowConsistent(v: ErrorView, text: string)
    requires Consistent(v)
    ensures Consistent(Show(v, text)) && Shown(Show(v, text))
  {
    ShowSpec(v, text);
    ShowTokensSpec(v, text);
    var w := Show(v, text);
    CountZero(TokensOf(w.describedBy), ErrorId);
    var k :| 0 <= k < |w.children| - 1 && w.children[k] == ErrorSpan(HiddenPrefix + text) && w.children[k + 1] == RadiosDiv;
    assert RadiosDiv in w.children;
  }

  /**
   * Hiding after showing gives what hiding alone gives, except that the
   * message is remembered: the span and the token `ShowError` added are
   * exactly the ones `HideError` removes.
   */
  lemma HideAfterShow(v: ErrorView, text: string)
    requires RadiosDiv in v.children
    requires ErrorCount(v.children) <= 1 && Count(TokensOf(v.describedBy), ErrorId) <= 1
    ensures Hide(Show(v, text)) == Hide(v).(message := Some(text))
  {
    var h := Hide(v);
    HideSpec(v);
    InsertSpanSpec(h.children, HiddenPrefix + text);
    ShownTokensSpec(v.describedBy);
  }

  /** Showing the same text twice gives the same presentation as showing it once. */
  lemma ShowIdempotent(v: ErrorView, text: string)
    requires RadiosDiv in v.children
    requires ErrorCount(v.children) <= 1 && Count(TokensOf(v.describedBy), ErrorId) <= 1
    ensures Show(Show(v, text), text) == Show(v, text)
  {
    HideAfterShow(v, text);
  }

  /** Showing after hiding is showing: `ShowError` hides first anyway. */
  lemma ShowAfterHide(v: ErrorView, text: string)
    requires RadiosDiv in v.children
    requires ErrorCount(v.children) <= 1 && Count(TokensOf(v.describedBy), ErrorId) <= 1
    ensures RadiosDiv in Hide(v).children
    ensures Show(Hide(v), text) == Show(v, text)
  {
    HideIdempotent(v);
  }

  /**
   * On an attribute that is absent, `HideError` writes the empty string,
   * so `ShowError` then reads one empty token and writes " errorMessage".
   */
  lemma ShowOnAbsentAttribute(v: ErrorView, text: string)
    requires RadiosDiv in v.children && v.describedBy.None?
    ensures Hide(v).describedBy == Some("")
    ensures Show(v, text).describedBy == Some(" errorMessage")
  {
    assert Hide(v).describedBy == Some(Join(HiddenList(None)));
    assert HiddenList(None) == [];
    assert Show(v, text).describedBy == Some(Join(ShownList("")));
    ShownEmptyAttribute();
  }

  /** On the empty attribute text `ShowError` reads one empty token and writes " errorMessage". */
  lemma ShownEmptyAttribute()
    ensures Join(ShownList("")) == " errorMessage"
  {
    assert Split("") == [""];
    assert ShownList("") == ["", ErrorId];
    assert ["", ErrorId][1..] == [ErrorId];
    assert Join(["", ErrorId]) == "" + " " + ErrorId;
    assert "" + " " + ErrorId == " errorMessage";
  }
}
