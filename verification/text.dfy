/**
 * The two JavaScript string built-ins the registry relies on to normalise
 * form input: `String.prototype.trim` and `String.prototype.toUpperCase`.
 */
module Text {

  /** ECMAScript WhiteSpace and LineTerminator code points: what `trim` removes. */
  predicate IsWhitespace(c: char) {
    var n := c as int;
    n == 0x09 || n == 0x0A || n == 0x0B || n == 0x0C || n == 0x0D || n == 0x20 ||
    n == 0xA0 || n == 0x1680 || (0x2000 <= n <= 0x200A) || n == 0x2028 || n == 0x2029 ||
    n == 0x202F || n == 0x205F || n == 0x3000 || n == 0xFEFF
  }

  /** Every character of `s` is whitespace (the empty string included). */
  predicate IsBlank(s: string) {
    forall i :: 0 <= i < |s| ==> IsWhitespace(s[i])
  }

  /** The index of the first character at or after `i` that is not whitespace, or `|s|`. */
  function LeadingEnd(s: string, i: nat): (k: nat)
    requires i <= |s|
    ensures i <= k <= |s|
    ensures forall j :: i <= j < k ==> IsWhitespace(s[j])
    ensures k < |s| ==> !IsWhitespace(s[k])
    decreases |s| - i
  {
    if i < |s| && IsWhitespace(s[i]) then LeadingEnd(s, i + 1) else i
  }

  /** The index just past the last character before `k` that is not whitespace, but not below `lo`. */
  function TrailingStart(s: string, lo: nat, k: nat): (e: nat)
    requires lo <= k <= |s|
    ensures lo <= e <= k
    ensures forall j :: e <= j < k ==> IsWhitespace(s[j])
    ensures e > lo ==> !IsWhitespace(s[e - 1])
  {
    if k > lo && IsWhitespace(s[k - 1]) then TrailingStart(s, lo, k - 1) else k
  }

  /** `r` is the slice of `s` starting at `a`, with only whitespace before and after it. */
  ghost predicate TrimmedAt(s: string, a: int, r: string) {
    && 0 <= a <= |s| - |r| && r == s[a..a + |r|]
    && (forall i :: 0 <= i < a ==> IsWhitespace(s[i]))
    && (forall i :: a + |r| <= i < |s| ==> IsWhitespace(s[i]))
  }

  /** `s.trim()`: the slice of `s` between its leading and its trailing whitespace. */
  function Trim(s: string): (r: string)
    ensures exists a :: TrimmedAt(s, a, r)
    ensures r != [] ==> !IsWhitespace(r[0]) && !IsWhitespace(r[|r| - 1])
    ensures r == [] <==> IsBlank(s)
  {
    var a := LeadingEnd(s, 0);
    var e := TrailingStart(s, a, |s|);
    assert TrimmedAt(s, a, s[a..e]);
    assert e == a ==> a == |s|;
    s[a..e]
  }

  /** A string is trimmed when it neither starts nor ends with whitespace. */
  predicate IsTrimmed(s: string) {
    s == [] || (!IsWhitespace(s[0]) && !IsWhitespace(s[|s| - 1]))
  }

  lemma TrimOfTrimmed(s: string)
    requires IsTrimmed(s)
    ensures Trim(s) == s
  {
  }

  lemma {:induction false} TrimIsTrimmed(s: string)
    ensures IsTrimmed(Trim(s))
    ensures Trim(Trim(s)) == Trim(s)
  {
    TrimOfTrimmed(Trim(s));
  }

  predicate IsAsciiLower(c: char) {
    'a' <= c <= 'z'
  }

  /** No ASCII lower-case letter anywhere in `s`. */
  predicate NoAsciiLower(s: string) {
    forall i :: 0 <= i < |s| ==> !IsAsciiLower(s[i])
  }

  /** The ASCII case fold: 'a'..'z' to 'A'..'Z', every other character kept. */
  function AsciiUpper(c: char): char {
    if IsAsciiLower(c) then (c as int - 32) as char else c
  }

  /** `a` and `b` differ at most in the case of ASCII letters. */
  ghost predicate SameIgnoringAsciiCase(a: string, b: string) {
    |a| == |b| && forall i :: 0 <= i < |a| ==> AsciiUpper(a[i]) == AsciiUpper(b[i])
  }

  /**
   * Upper-case mapping of one character, as `toUpperCase` does it for the
   * Basic Latin and Latin-1 Supplement blocks; 'ß' becomes "SS".
   */
  function UpperChar(c: char): (r: string)
    ensures 1 <= |r| <= 2
    ensures c as int >= 0x100 ==> r == [c]
    ensures c as int < 0x80 ==> r == [AsciiUpper(c)]
    ensures 'a' <= c <= 'z' ==> r == [AsciiUpper(c)] && 'A' <= r[0] <= 'Z'
    ensures 'A' <= c <= 'Z' ==> r == [c]
    ensures NoAsciiLower(r)
  {
    var n := c as int;
    if 'a' <= c <= 'z' then [(n - 32) as char]
    else if 0xE0 <= n <= 0xFE && n != 0xF7 then [(n - 32) as char]
    else if n == 0xB5 then ['Μ']
    else if n == 0xFF then ['Ÿ']
    else if n == 0xDF then "SS"
    else [c]
  }

  /** `s.toUpperCase()`, character by character. */
  function ToUpper(s: string): (r: string)
    ensures |s| <= |r| <= 2 * |s|
    ensures NoAsciiLower(r)
  {
    if s == [] then [] else UpperChar(s[0]) + ToUpper(s[1..])
  }

  /** Upper-casing one character is `UpperChar`: the string is mapped character by character. */
  lemma ToUpperSingle(c: char)
    ensures ToUpper([c]) == UpperChar(c)
  {
    assert [c][1..] == [];
  }

  /**
   * On ASCII text, upper-casing keeps the length and changes only the
   * letters 'a'..'z'; digits, punctuation and 'A'..'Z' stay where they are.
   */
  lemma {:induction false} ToUpperAscii(s: string)
    requires forall i :: 0 <= i < |s| ==> s[i] as int < 0x80
    ensures |ToUpper(s)| == |s|
    ensures forall i :: 0 <= i < |s| ==> ToUpper(s)[i] == AsciiUpper(s[i])
  {
    if s != [] {
      ToUpperAscii(s[1..]);
      assert forall i :: 1 <= i < |s| ==> s[1..][i - 1] == s[i];
    }
  }

  /** A letter and its ASCII lower-case form upper-case alike. */
  lemma UpperCharIgnoresAsciiCase(c: char, d: char)
    requires AsciiUpper(c) == AsciiUpper(d)
    ensures UpperChar(c) == UpperChar(d)
  {
  }

  /** Strings that differ only in the case of ASCII letters upper-case alike. */
  lemma {:induction false} ToUpperIgnoresAsciiCase(a: string, b: string)
    requires SameIgnoringAsciiCase(a, b)
    ensures ToUpper(a) == ToUpper(b)
  {
    if a != [] {
      UpperCharIgnoresAsciiCase(a[0], b[0]);
      assert SameIgnoringAsciiCase(a[1..], b[1..]) by {
        forall i | 0 <= i < |a| - 1 ensures AsciiUpper(a[1..][i]) == AsciiUpper(b[1..][i]) {
          assert a[1..][i] == a[i + 1] && b[1..][i] == b[i + 1];
        }
      }
      ToUpperIgnoresAsciiCase(a[1..], b[1..]);
    }
  }

  lemma {:induction false} ToUpperAppend(a: string, b: string)
    ensures ToUpper(a + b) == ToUpper(a) + ToUpper(b)
  {
    if a != [] {
      assert (a + b)[0] == a[0] && (a + b)[1..] == a[1..] + b;
      ToUpperAppend(a[1..], b);
      calc {
        ToUpper(a + b);
        UpperChar(a[0]) + ToUpper(a[1..] + b);
        UpperChar(a[0]) + (ToUpper(a[1..]) + ToUpper(b));
        (UpperChar(a[0]) + ToUpper(a[1..])) + ToUpper(b);
      }
    } else {
      assert a + b == b;
    }
  }

  lemma UpperCharKeepsKind(c: char)
    ensures IsWhitespace(c) ==> UpperChar(c) == [c]
    ensures !IsWhitespace(c) ==> forall i :: 0 <= i < |UpperChar(c)| ==> !IsWhitespace(UpperChar(c)[i])
  {
  }

  lemma UpperCharIdempotent(c: char)
    ensures ToUpper(UpperChar(c)) == UpperChar(c)
  {
    var u := UpperChar(c);
    if |u| == 1 {
      assert ToUpper(u) == UpperChar(u[0]) + ToUpper([]);
    } else {
      assert u == "SS";
      assert ToUpper(u) == UpperChar('S') + ToUpper("S");
    }
  }

  /** Upper-casing twice is upper-casing once. */
  lemma {:induction false} ToUpperIdempotent(s: string)
    ensures ToUpper(ToUpper(s)) == ToUpper(s)
  {
    if s != [] {
      ToUpperAppend(UpperChar(s[0]), ToUpper(s[1..]));
      UpperCharIdempotent(s[0]);
      ToUpperIdempotent(s[1..]);
    }
  }

  /** Upper-casing keeps a trimmed string trimmed. */
  lemma {:induction false} ToUpperKeepsTrimmed(s: string)
    requires IsTrimmed(s)
    ensures IsTrimmed(ToUpper(s))
  {
    if s != [] {
      UpperCharKeepsKind(s[0]);
      var n := |s|;
      UpperCharKeepsKind(s[n - 1]);
      assert s == s[..n - 1] + [s[n - 1]];
      ToUpperAppend(s[..n - 1], [s[n - 1]]);
      assert ToUpper([s[n - 1]]) == UpperChar(s[n - 1]) + ToUpper([]);
    }
  }

  /** The locker-number normalisation of the create form: trim, then upper-case. */
  function NormaliseLocker(s: string): (r: string)
    ensures r == [] <==> IsBlank(s)
    ensures IsTrimmed(r)
    ensures NoAsciiLower(r)
  {
    TrimIsTrimmed(s);
    ToUpperKeepsTrimmed(Trim(s));
    ToUpper(Trim(s))
  }

  /** Normalisation is idempotent: a stored locker number is already in normal form. */
  lemma NormaliseLockerIdempotent(s: string)
    ensures NormaliseLocker(NormaliseLocker(s)) == NormaliseLocker(s)
  {
    var t := Trim(s);
    TrimOfTrimmed(NormaliseLocker(s));
    ToUpperIdempotent(t);
  }

  /** Case folding never turns whitespace into something else or the reverse. */
  lemma {:induction false} LeadingEndIgnoresAsciiCase(a: string, b: string, i: nat)
    requires SameIgnoringAsciiCase(a, b) && i <= |a|
    ensures LeadingEnd(a, i) == LeadingEnd(b, i)
    decreases |a| - i
  {
    if i < |a| {
      assert AsciiUpper(a[i]) == AsciiUpper(b[i]);
      assert IsWhitespace(a[i]) == IsWhitespace(b[i]);
      if IsWhitespace(a[i]) {
        LeadingEndIgnoresAsciiCase(a, b, i + 1);
      }
    }
  }

  lemma {:induction false} TrailingStartIgnoresAsciiCase(a: string, b: string, lo: nat, k: nat)
    requires SameIgnoringAsciiCase(a, b) && lo <= k <= |a|
    ensures TrailingStart(a, lo, k) == TrailingStart(b, lo, k)
  {
    if k > lo {
      assert AsciiUpper(a[k - 1]) == AsciiUpper(b[k - 1]);
      assert IsWhitespace(a[k - 1]) == IsWhitespace(b[k - 1]);
      if IsWhitespace(a[k - 1]) {
        TrailingStartIgnoresAsciiCase(a, b, lo, k - 1);
      }
    }
  }

  /** Trimming cuts two strings that differ only in ASCII letter case at the same places. */
  lemma TrimIgnoresAsciiCase(a: string, b: string)
    requires SameIgnoringAsciiCase(a, b)
    ensures SameIgnoringAsciiCase(Trim(a), Trim(b))
  {
    var i := LeadingEnd(a, 0);
    LeadingEndIgnoresAsciiCase(a, b, 0);
    TrailingStartIgnoresAsciiCase(a, b, i, |a|);
    var e := TrailingStart(a, i, |a|);
    assert Trim(a) == a[i..e] && Trim(b) == b[i..e];
    SliceIgnoresAsciiCase(a, b, i, e);
  }

  lemma SliceIgnoresAsciiCase(a: string, b: string, i: nat, e: nat)
    requires SameIgnoringAsciiCase(a, b) && i <= e <= |a|
    ensures SameIgnoringAsciiCase(a[i..e], b[i..e])
  {
    forall j | 0 <= j < e - i ensures AsciiUpper(a[i..e][j]) == AsciiUpper(b[i..e][j]) {
      assert a[i..e][j] == a[i + j] && b[i..e][j] == b[i + j];
    }
  }

  /**
   * Locker inputs that differ only in the case of ASCII letters, such as
   * "a1" and "A1", normalise to the same locker number.
   */
  lemma NormaliseLockerIgnoresAsciiCase(a: string, b: string)
    requires SameIgnoringAsciiCase(a, b)
    ensures NormaliseLocker(a) == NormaliseLocker(b)
  {
    TrimIgnoresAsciiCase(a, b);
    ToUpperIgnoresAsciiCase(Trim(a), Trim(b));
  }

  /**
   * For ASCII input the locker number is the trimmed input with 'a'..'z'
   * upper-cased and every other character kept, so "A1" and "A2" stay
   * different lockers.
   */
  lemma NormaliseLockerAscii(s: string)
    requires forall i :: 0 <= i < |s| ==> s[i] as int < 0x80
    ensures |NormaliseLocker(s)| == |Trim(s)|
    ensures forall i :: 0 <= i < |Trim(s)| ==> NormaliseLocker(s)[i] == AsciiUpper(Trim(s)[i])
  {
    var t := Trim(s);
    var a :| TrimmedAt(s, a, t);
    assert forall i :: 0 <= i < |t| ==> t[i] == s[a + i];
    ToUpperAscii(t);
  }
}
