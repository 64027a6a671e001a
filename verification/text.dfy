/** Lower-casing the first character of a label before it is put into an error message. */
module Text {

  predicate IsUpper(c: char)
  {
    'A' <= c <= 'Z'
  }

  /** `toLowerCase` on one character, over the ASCII letters. */
  function LowerChar(c: char): (r: char)
    ensures !IsUpper(r)
    ensures IsUpper(c) ==> r as int == c as int + 32
    ensures !IsUpper(c) ==> r == c
  {
    if IsUpper(c) then (c as int + 32) as char else c
  }

  /**
   * `s.charAt(0).toLowerCase() + s.slice(1)`: the empty string maps to
   * itself, otherwise only the first character changes.
   */
  function FirstCharLowerCase(s: string): (r: string)
    ensures |r| == |s|
  {
    if |s| == 0 then "" else [LowerChar(s[0])] + s[1..]
  }

  /** Only the first character changes, and it comes out lower-case. */
  lemma FirstCharLowerCaseSpec(s: string)
    ensures |s| > 0 ==> !IsUpper(FirstCharLowerCase(s)[0]) && FirstCharLowerCase(s)[0] == LowerChar(s[0])
    ensures forall i :: 1 <= i < |s| ==> FirstCharLowerCase(s)[i] == s[i]
  {
  }

  /** Applying the conversion twice is the same as applying it once. */
  lemma FirstCharLowerCaseIdempotent(s: string)
    ensures FirstCharLowerCase(FirstCharLowerCase(s)) == FirstCharLowerCase(s)
  {
    if |s| > 0 {
      var r := FirstCharLowerCase(s);
      assert r[1..] == s[1..];
      assert FirstCharLowerCase(r) == [LowerChar(r[0])] + r[1..];
    }
  }

  /** A label that already starts with a lower-case letter (or is empty) is left as it is. */
  lemma FirstCharLowerCaseFixed(s: string)
    requires |s| == 0 || !IsUpper(s[0])
    ensures FirstCharLowerCase(s) == s
  {
    if |s| > 0 {
      assert s == [s[0]] + s[1..];
    }
  }
}
