/**
 * The three JavaScript string operations the reply pipeline relies on:
 * `String.prototype.includes`, `toLowerCase` and `trim`.
 *
 * `toLowerCase` is modelled on ASCII letters only; `trim` removes exactly the
 * characters ECMAScript classifies as WhiteSpace or LineTerminator.
 */
module Text {

  // ---------------------------------------------------------------------------
  // Substrings
  // ---------------------------------------------------------------------------

  /** `sub` occurs in `s` starting at index `i`. */
  ghost predicate OccursAt(s: string, sub: string, i: int) {
    0 <= i && i + |sub| <= |s| && s[i..i + |sub|] == sub
  }

  /** The reference meaning of "s contains sub". */
  ghost predicate Contains(s: string, sub: string) {
    exists i :: OccursAt(s, sub, i)
  }

  /** When `s` does not start with `sub`, an occurrence of `sub` in `s` is one in `s[1..]`. */
  lemma ContainsSkipHead(s: string, sub: string)
    requires |s| >= |sub| && s[..|sub|] != sub
    ensures Contains(s, sub) <==> Contains(s[1..], sub)
  {
    if Contains(s, sub) {
      var i :| OccursAt(s, sub, i);
      assert i != 0;
      assert s[1..][i - 1..i - 1 + |sub|] == s[i..i + |sub|];
      assert OccursAt(s[1..], sub, i - 1);
    }
    if Contains(s[1..], sub) {
      var i :| OccursAt(s[1..], sub, i);
      assert s[i + 1..i + 1 + |sub|] == s[1..][i..i + |sub|];
      assert OccursAt(s, sub, i + 1);
    }
  }

  /** `s.includes(sub)`: a left-to-right scan for `sub`. */
  function Includes(s: string, sub: string): (r: bool)
    ensures r <==> Contains(s, sub)
    decreases |s|
  {
    if |s| < |sub| then
      false
    else if s[..|sub|] == sub then
      assert OccursAt(s, sub, 0);
      true
    else
      ContainsSkipHead(s, sub);
      Includes(s[1..], sub)
  }

  /** A string lacking one character of `sub` cannot contain `sub`. */
  lemma MissingCharNotContained(s: string, sub: string, k: nat)
    requires k < |sub| && sub[k] !in s
    ensures !Contains(s, sub)
  {
    forall i | 0 <= i && i + |sub| <= |s|
      ensures !OccursAt(s, sub, i)
    {
      assert s[i + k] in s;
      assert s[i..i + |sub|][k] != sub[k];
    }
  }

  /**
   * If `sub[k1]` occurs only in the right part `b` and the later `sub[k2]`
   * only in the left part `a`, no occurrence of `sub` fits in `a + b`.
   */
  lemma OutOfOrderNotContained(a: string, b: string, sub: string, k1: nat, k2: nat)
    requires k1 < k2 < |sub|
    requires sub[k1] !in a && sub[k2] !in b
    ensures !Contains(a + b, sub)
  {
    var s := a + b;
    forall i | 0 <= i && i + |sub| <= |s|
      ensures !OccursAt(s, sub, i)
    {
      if i + k1 < |a| {
        assert s[i + k1] == a[i + k1];
        assert s[i..i + |sub|][k1] != sub[k1];
      } else {
        assert s[i + k2] == b[i + k2 - |a|];
        assert s[i..i + |sub|][k2] != sub[k2];
      }
    }
  }

  // ---------------------------------------------------------------------------
  // Lower-casing
  // ---------------------------------------------------------------------------

  predicate IsUpper(c: char) {
    'A' <= c <= 'Z'
  }

  function LowerChar(c: char): char {
    if IsUpper(c) then (c as int - 'A' as int + 'a' as int) as char else c
  }

  /** `s.toLowerCase()`, restricted to ASCII letters. */
  function ToLower(s: string): string {
    seq(|s|, i requires 0 <= i < |s| => LowerChar(s[i]))
  }

  predicate HasNoUpper(s: string) {
    forall i :: 0 <= i < |s| ==> !IsUpper(s[i])
  }

  lemma ToLowerHasNoUpper(s: string)
    ensures HasNoUpper(ToLower(s))
    ensures |ToLower(s)| == |s|
  {
  }

  /** Lower-casing changes nothing in a string without capitals. */
  lemma ToLowerKeepsLower(s: string)
    requires HasNoUpper(s)
    ensures ToLower(s) == s
  {
  }

  lemma ToLowerConcat(a: string, b: string)
    ensures ToLower(a + b) == ToLower(a) + ToLower(b)
  {
  }

  function Capital(c: char): char
    requires 'a' <= c <= 'z'
  {
    (c as int - 'a' as int + 'A' as int) as char
  }

  /** Neither `c` nor its capital occurs in `s`. */
  predicate LacksLetter(s: string, c: char)
    requires 'a' <= c <= 'z'
  {
    c !in s && Capital(c) !in s
  }

  /** No character of `s` is one of `cs`. */
  predicate Avoids(s: string, cs: string) {
    forall i :: 0 <= i < |s| ==> s[i] !in cs
  }

  lemma AvoidsLacksLetter(s: string, cs: string, c: char)
    requires 'a' <= c <= 'z' && c in cs && Capital(c) in cs && Avoids(s, cs)
    ensures LacksLetter(s, c)
  {
  }

  /** A lower-case letter appears after lower-casing only where it or its capital stood. */
  lemma ToLowerLacksLetter(s: string, c: char)
    requires 'a' <= c <= 'z'
    requires LacksLetter(s, c)
    ensures c !in ToLower(s)
  {
    forall i | 0 <= i < |s|
      ensures ToLower(s)[i] != c
    {
      assert s[i] in s;
    }
  }

  /** A lower-case word surrounded by any text is found after lower-casing. */
  lemma LowerContainsInfix(a: string, k: string, b: string)
    requires HasNoUpper(k)
    ensures Contains(ToLower(a + k + b), k)
  {
    ToLowerConcat(a + k, b);
    ToLowerConcat(a, k);
    ToLowerKeepsLower(k);
    var t := ToLower(a + k + b);
    assert t == ToLower(a) + k + ToLower(b);
    assert t[|a|..|a| + |k|] == k;
    assert OccursAt(t, k, |a|);
  }

  /** A lower-case string cannot contain `sub` if `s` lacks one letter of `sub` in both cases. */
  lemma LowerMissingLetter(s: string, sub: string, k: nat)
    requires k < |sub| && 'a' <= sub[k] <= 'z'
    requires LacksLetter(s, sub[k])
    ensures !Contains(ToLower(s), sub)
  {
    ToLowerLacksLetter(s, sub[k]);
    MissingCharNotContained(ToLower(s), sub, k);
  }

  /** `OutOfOrderNotContained` for the lower-cased form of `a + b`. */
  lemma LowerOutOfOrder(a: string, b: string, sub: string, k1: nat, k2: nat)
    requires k1 < k2 < |sub| && 'a' <= sub[k1] <= 'z' && 'a' <= sub[k2] <= 'z'
    requires LacksLetter(a, sub[k1]) && LacksLetter(b, sub[k2])
    ensures !Contains(ToLower(a + b), sub)
  {
    ToLowerLacksLetter(a, sub[k1]);
    ToLowerLacksLetter(b, sub[k2]);
    ToLowerConcat(a, b);
    OutOfOrderNotContained(ToLower(a), ToLower(b), sub, k1, k2);
  }

  lemma ToLowerIdempotent(s: string)
    ensures ToLower(ToLower(s)) == ToLower(s)
  {
    ToLowerHasNoUpper(s);
    ToLowerKeepsLower(ToLower(s));
  }

  // ---------------------------------------------------------------------------
  // Trimming
  // ---------------------------------------------------------------------------

  /**
   * ECMAScript WhiteSpace (TAB, VT, FF, ZWNBSP and the Unicode space
   * separators) and LineTerminator (LF, CR, LS, PS).
   */
  predicate IsWhitespace(c: char) {
    || c == '\t' || c == '\n' || c == '\U{000B}' || c == '\U{000C}' || c == '\r'
    || c == ' ' || c == '\U{00A0}' || c == '\U{1680}' || ('\U{2000}' <= c <= '\U{200A}')
    || c == '\U{2028}' || c == '\U{2029}' || c == '\U{202F}' || c == '\U{205F}'
    || c == '\U{3000}' || c == '\U{FEFF}'
  }

  predicate AllWhitespace(s: string) {
    forall i :: 0 <= i < |s| ==> IsWhitespace(s[i])
  }

  /** Neither end of `s` is whitespace. */
  predicate IsTrimmed(s: string) {
    s == [] || (!IsWhitespace(s[0]) && !IsWhitespace(s[|s| - 1]))
  }

  /** `r` is `s` with whitespace-only pieces removed at index `i` and after `r`. */
  ghost predicate StripsAt(s: string, r: string, i: int) {
    && 0 <= i && i + |r| <= |s|
    && s[i..i + |r|] == r
    && AllWhitespace(s[..i])
    && AllWhitespace(s[i + |r|..])
  }

  /** Length of the whitespace run that starts `s`. */
  function LeadingWhitespace(s: string): (n: nat)
    ensures n <= |s|
    ensures AllWhitespace(s[..n])
    ensures n < |s| ==> !IsWhitespace(s[n])
  {
    if s == [] || !IsWhitespace(s[0]) then 0
    else
      var m := LeadingWhitespace(s[1..]);
      assert s[..m + 1] == [s[0]] + s[1..][..m];
      m + 1
  }

  /** Length of the whitespace run that ends `s`. */
  function TrailingWhitespace(s: string): (n: nat)
    ensures n <= |s|
    ensures AllWhitespace(s[|s| - n..])
    ensures n < |s| ==> !IsWhitespace(s[|s| - n - 1])
  {
    if s == [] || !IsWhitespace(s[|s| - 1]) then 0
    else
      var p := s[..|s| - 1];
      var m := TrailingWhitespace(p);
      assert s[|s| - (m + 1)..] == p[|p| - m..] + [s[|s| - 1]];
      m + 1
  }

  /** `s.trim()`. */
  function Trim(s: string): (r: string)
    ensures IsTrimmed(r)
    ensures exists i :: StripsAt(s, r, i)
  {
    var lead := LeadingWhitespace(s);
    var rest := s[lead..];
    var trail := TrailingWhitespace(rest);
    var r := rest[..|rest| - trail];
    assert s[lead..lead + |r|] == r;
    assert s[lead + |r|..] == rest[|rest| - trail..];
    assert r != [] ==> r[0] == s[lead];
    assert StripsAt(s, r, lead);
    r
  }

  /** `s.trim()` is empty exactly when `s` is whitespace only. */
  lemma TrimEmptyIffAllWhitespace(s: string)
    ensures Trim(s) == [] <==> AllWhitespace(s)
  {
    var r := Trim(s);
    var i :| StripsAt(s, r, i);
    if r == [] {
      assert s == s[..i] + s[i..];
    } else {
      assert !IsWhitespace(s[i]);
    }
  }

  /** Trimming a string whose ends are not whitespace gives it back. */
  lemma TrimKeepsTrimmed(s: string)
    requires IsTrimmed(s)
    ensures Trim(s) == s
  {
    var r := Trim(s);
    var i :| StripsAt(s, r, i);
    if s != [] {
      assert AllWhitespace(s[..i]) && !IsWhitespace(s[0]) ==> i == 0;
      assert AllWhitespace(s[i + |r|..]) && !IsWhitespace(s[|s| - 1]) ==> i + |r| == |s|;
    }
  }

  lemma TrimIdempotent(s: string)
    ensures Trim(Trim(s)) == Trim(s)
  {
    TrimKeepsTrimmed(Trim(s));
  }
}
