/**
 * Identifier ("WISH") normalisation and validation, and the tokenising of
 * the free-text "Same As" field.
 */
module Identifiers {

  /** An ASCII decimal digit, the class `[0-9]`. */
  predicate IsDigit(c: char) {
    '0' <= c <= '9'
  }

  predicate AllDigits(s: string) {
    forall i :: 0 <= i < |s| ==> IsDigit(s[i])
  }

  /**
   * A Unicode white-space character, as the regular-expression class `\s`
   * and `str.strip()` understand it for text.
   */
  predicate IsSpace(c: char) {
    || '\t' <= c <= '\r'
    || '\U{1c}' <= c <= '\U{1f}'
    || c == ' ' || c == '\U{85}' || c == '\U{a0}' || c == '\U{1680}'
    || '\U{2000}' <= c <= '\U{200a}'
    || c == '\U{2028}' || c == '\U{2029}' || c == '\U{202f}' || c == '\U{205f}'
    || c == '\U{3000}'
  }

  /** A character of the separator class `[,\s;]` of the "Same As" field. */
  predicate IsSeparator(c: char) {
    c == ',' || c == ';' || IsSpace(c)
  }

  /** Removes every character that is not a digit (`re.sub(r"[^0-9]", "", s)`). */
  function NormDigits(s: string): (r: string)
    ensures AllDigits(r)
    ensures |r| <= |s|
  {
    if s == [] then []
    else (if IsDigit(s[0]) then [s[0]] else []) + NormDigits(s[1..])
  }

  /**
   * A valid identifier: nonempty, all digits, 5 to 7 characters long and
   * not starting with `0`.
   */
  predicate IsWish(s: string) {
    |s| > 0 && AllDigits(s) && 5 <= |s| <= 7 && s[0] != '0'
  }

  /** `s` is a subsequence of `t`: `t` with some characters deleted. */
  predicate IsSubsequence(s: string, t: string) {
    if s == [] then true
    else if t == [] then false
    else if s[0] == t[0] then IsSubsequence(s[1..], t[1..])
    else IsSubsequence(s, t[1..])
  }

  /** Counts the digits of `s`. */
  function DigitCount(s: string): nat {
    if s == [] then 0 else (if IsDigit(s[0]) then 1 else 0) + DigitCount(s[1..])
  }

  /**
   * NormDigits keeps exactly the digits of `s`: its result is a subsequence
   * of `s` made of digits only, and it keeps as many characters as `s` has
   * digits, so no digit is lost.
   */
  lemma {:induction false} NormDigitsIsDigitSubsequence(s: string)
    ensures IsSubsequence(NormDigits(s), s)
    ensures |NormDigits(s)| == DigitCount(s)
  {
    if s != [] {
      NormDigitsIsDigitSubsequence(s[1..]);
      if IsDigit(s[0]) {
        assert NormDigits(s) == [s[0]] + NormDigits(s[1..]);
        assert NormDigits(s)[1..] == NormDigits(s[1..]);
      } else {
        assert NormDigits(s) == NormDigits(s[1..]);
        if NormDigits(s) != [] {
          assert NormDigits(s)[0] != s[0] by {
            assert IsDigit(NormDigits(s)[0]);
          }
        }
      }
    }
  }

  /** A string made of digits only is left unchanged by NormDigits. */
  lemma {:induction false} NormDigitsKeepsDigits(s: string)
    requires AllDigits(s)
    ensures NormDigits(s) == s
  {
    if s != [] {
      assert AllDigits(s[1..]);
      NormDigitsKeepsDigits(s[1..]);
    }
  }

  /** Normalising twice is the same as normalising once. */
  lemma NormDigitsIdempotent(s: string)
    ensures NormDigits(NormDigits(s)) == NormDigits(s)
  {
    NormDigitsKeepsDigits(NormDigits(s));
  }

  /** The accepted and rejected examples of the identifier rule. */
  lemma IsWishExamples()
    ensures IsWish("12345") && IsWish("1234567")
    ensures !IsWish("01234") && !IsWish("1234") && !IsWish("12a45") && !IsWish("12345678")
  {
    assert !IsDigit("12a45"[2]);
  }

  /**
   * Splits on runs of separators, as `re.split(r"[,\s;]+", s)` does: the
   * pieces between maximal separator runs, with an empty first (last) piece
   * when `s` starts (ends) with a separator, and `[""]` for empty `s`.
   */
  function Split(s: string): (r: seq<string>)
    ensures |r| >= 1
    ensures forall k, i :: 0 <= k < |r| && 0 <= i < |r[k]| ==> !IsSeparator(r[k][i])
  {
    if s == [] then [[]]
    else
      var rest := Split(s[1..]);
      if !IsSeparator(s[0]) then [[s[0]] + rest[0]] + rest[1..]
      else if |s| > 1 && IsSeparator(s[1]) then rest
      else [[]] + rest
  }

  /** Removes every separator character. */
  function DropSeparators(s: string): string {
    if s == [] then [] else (if IsSeparator(s[0]) then [] else [s[0]]) + DropSeparators(s[1..])
  }

  function Concat(ts: seq<string>): string {
    if ts == [] then [] else ts[0] + Concat(ts[1..])
  }

  /** `s` holds no separator character. */
  predicate NoSeparator(s: string) {
    forall i :: 0 <= i < |s| ==> !IsSeparator(s[i])
  }

  /** Text without a separator in front extends the first piece. */
  lemma {:induction false} SplitPrefix(a: string, t: string)
    requires NoSeparator(a)
    ensures Split(a + t) == [a + Split(t)[0]] + Split(t)[1..]
  {
    if a != [] {
      var s, r := a + t, Split(t);
      assert s[1..] == a[1..] + t;
      assert NoSeparator(a[1..]);
      SplitPrefix(a[1..], t);
      var rest := Split(s[1..]);
      assert rest[0] == a[1..] + r[0] && rest[1..] == r[1..];
      assert s[0] == a[0] && !IsSeparator(s[0]);
      assert Split(s) == [[s[0]] + rest[0]] + rest[1..];
      assert [a[0]] + (a[1..] + r[0]) == a + r[0];
    } else {
      assert a + t == t && a + Split(t)[0] == Split(t)[0];
    }
  }

  /** Text without a separator is a single piece. */
  lemma SplitNoSeparator(s: string)
    requires NoSeparator(s)
    ensures Split(s) == [s]
  {
    SplitPrefix(s, []);
    assert s + [] == s;
  }

  /** A maximal run of separators at the front cuts off an empty piece. */
  lemma {:induction false} SplitRun(run: string, t: string)
    requires |run| >= 1 && forall i :: 0 <= i < |run| ==> IsSeparator(run[i])
    requires t == [] || !IsSeparator(t[0])
    ensures Split(run + t) == [[]] + Split(t)
  {
    var s := run + t;
    if |run| == 1 {
      assert s[1..] == t;
    } else {
      assert s[1..] == run[1..] + t;
      assert IsSeparator(s[1]);
      SplitRun(run[1..], t);
    }
  }

  /**
   * A piece, a maximal run of separators and the rest: the cut falls exactly
   * at the run, which is dropped.
   */
  lemma SplitAtRun(a: string, run: string, t: string)
    requires NoSeparator(a)
    requires |run| >= 1 && forall i :: 0 <= i < |run| ==> IsSeparator(run[i])
    requires t == [] || !IsSeparator(t[0])
    ensures Split(a + run + t) == [a] + Split(t)
  {
    SplitRun(run, t);
    SplitPrefix(a, run + t);
    assert a + run + t == a + (run + t);
    assert a + [] == a;
  }

  /** Splitting loses only separators: the pieces, joined, are `s` without them. */
  lemma {:induction false} SplitKeepsText(s: string)
    ensures Concat(Split(s)) == DropSeparators(s)
  {
    if s != [] {
      var rest := Split(s[1..]);
      SplitKeepsText(s[1..]);
      if !IsSeparator(s[0]) {
        calc {
          Concat(Split(s));
          ([s[0]] + rest[0]) + Concat(rest[1..]);
          [s[0]] + (rest[0] + Concat(rest[1..]));
          [s[0]] + Concat(rest);
        }
      } else if |s| > 1 && IsSeparator(s[1]) {
        assert DropSeparators(s) == DropSeparators(s[1..]);
      } else {
        assert Concat([[]] + rest) == Concat(rest) by {
          assert ([[]] + rest)[1..] == rest;
        }
      }
    }
  }
}
