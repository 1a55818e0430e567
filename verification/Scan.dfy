/**
 * The parts of printf and scanf that event definition files rely on: decimal
 * integers, blank-separated words, and the first and last place of a character.
 */
module Scan {
  import opened EventTable

  const NEWLINE := '\n'

  predicate IsDigit(c: char) { '0' <= c <= '9' }

  predicate IsSpace(c: char) { c == ' ' || c == '\t' || c == '\n' || c == '\r' || c == 11 as char || c == 12 as char }

  predicate AllDigits(s: string) { forall k :: 0 <= k < |s| ==> IsDigit(s[k]) }

  predicate NoSpaces(s: string) { forall k :: 0 <= k < |s| ==> !IsSpace(s[k]) }

  // ---------- decimal integers ----------

  function Digit(n: nat): char
    requires n < 10
  {
    (n + '0' as int) as char
  }

  function Digits(n: nat): string {
    if n < 10 then [Digit(n)] else Digits(n / 10) + [Digit(n % 10)]
  }

  /** %d */
  function PrintInt(n: int): string {
    if n < 0 then ['-'] + Digits(-n) else Digits(n)
  }

  function ValueOf(digits: string): int {
    if digits == [] then 0
    else ValueOf(digits[..|digits| - 1]) * 10 + (digits[|digits| - 1] as int - '0' as int)
  }

  lemma {:induction false} DigitsValue(n: nat)
    ensures Digits(n) != [] && AllDigits(Digits(n)) && ValueOf(Digits(n)) == n
    decreases n
  {
    if n >= 10 {
      DigitsValue(n / 10);
      assert Digits(n)[..|Digits(n)| - 1] == Digits(n / 10);
    } else {
      assert Digits(n)[..0] == [];
    }
  }

  /** A printed number has a first character, and only digits and perhaps a sign. */
  lemma PrintIntIsPlain(n: int, c: char)
    requires !IsDigit(c) && c != '-'
    ensures PrintInt(n) != [] && c !in PrintInt(n)
  {
    DigitsValue(if n < 0 then -n else n);
  }

  // ---------- scanning ----------

  /** Length of the longest prefix of digits, or of non-blanks. */
  function DigitSpan(s: string): (n: nat)
    ensures n <= |s|
  {
    if s != [] && IsDigit(s[0]) then 1 + DigitSpan(s[1..]) else 0
  }

  function WordSpan(s: string): (n: nat)
    ensures n <= |s|
  {
    if s != [] && !IsSpace(s[0]) then 1 + WordSpan(s[1..]) else 0
  }

  function SkipSpace(s: string): (r: string)
    ensures |r| <= |s|
  {
    if s != [] && IsSpace(s[0]) then SkipSpace(s[1..]) else s
  }

  function ScanNumber(s: string): Option<(int, string)> {
    var n := DigitSpan(s);
    if n == 0 then None else Some((ValueOf(s[..n]), s[n..]))
  }

  function Negated(r: Option<(int, string)>): Option<(int, string)> {
    match r
    case None => None
    case Some((n, rest)) => Some((-n, rest))
  }

  /** An optional sign and digits; the value and what is left. */
  function ScanSigned(t: string): Option<(int, string)> {
    if t != [] && t[0] == '-' then Negated(ScanNumber(t[1..]))
    else if t != [] && t[0] == '+' then ScanNumber(t[1..])
    else ScanNumber(t)
  }

  /** sscanf's %d */
  function ScanInt(s: string): Option<(int, string)> { ScanSigned(SkipSpace(s)) }

  /** sscanf's %s: blanks, then a non-empty run of other characters. */
  function ScanWord(s: string): Option<(string, string)> {
    var t := SkipSpace(s);
    var n := WordSpan(t);
    if n == 0 then None else Some((t[..n], t[n..]))
  }

  // ---------- scanning what was printed ----------

  lemma {:induction false} DigitSpanOf(d: string, rest: string)
    requires AllDigits(d) && (rest != [] ==> !IsDigit(rest[0]))
    ensures DigitSpan(d + rest) == |d|
    decreases |d|
  {
    if d == [] {
      assert d + rest == rest;
    } else {
      assert (d + rest)[1..] == d[1..] + rest;
      DigitSpanOf(d[1..], rest);
    }
  }

  lemma {:induction false} WordSpanOf(w: string, rest: string)
    requires NoSpaces(w) && (rest != [] ==> IsSpace(rest[0]))
    ensures WordSpan(w + rest) == |w|
    decreases |w|
  {
    if w == [] {
      assert w + rest == rest;
    } else {
      assert (w + rest)[1..] == w[1..] + rest;
      WordSpanOf(w[1..], rest);
    }
  }

  lemma SkipOneBlank(s: string)
    requires s != [] && !IsSpace(s[0])
    ensures SkipSpace(s) == s && SkipSpace([' '] + s) == s
  {
    assert ([' '] + s)[1..] == s;
  }

  lemma Concat(a: string, b: string)
    ensures (a + b)[..|a|] == a && (a + b)[|a|..] == b
  {
  }

  lemma ScanNumberOf(d: string, rest: string)
    requires d != [] && AllDigits(d) && (rest != [] ==> !IsDigit(rest[0]))
    ensures ScanNumber(d + rest) == Some((ValueOf(d), rest))
  {
    DigitSpanOf(d, rest);
    Concat(d, rest);
  }

  lemma SignedNumber(d: string, rest: string)
    requires d != [] && AllDigits(d) && (rest != [] ==> !IsDigit(rest[0]))
    ensures ScanSigned(d + rest) == Some((ValueOf(d), rest))
    ensures ScanSigned(['-'] + (d + rest)) == Some((-ValueOf(d), rest))
  {
    ScanNumberOf(d, rest);
    assert (['-'] + (d + rest))[1..] == d + rest;
    assert IsDigit((d + rest)[0]);
  }

  lemma ScanSignedOf(n: int, rest: string)
    requires rest != [] ==> !IsDigit(rest[0])
    ensures ScanSigned(PrintInt(n) + rest) == Some((n, rest))
    ensures PrintInt(n) != [] && !IsSpace((PrintInt(n) + rest)[0])
  {
    var m := if n < 0 then -n else n;
    DigitsValue(m);
    SignedNumber(Digits(m), rest);
    SignedText(n, Digits(m), rest);
  }

  lemma SignedText(n: int, d: string, rest: string)
    requires d == Digits(if n < 0 then -n else n) && d != [] && AllDigits(d)
    ensures PrintInt(n) + rest == if n < 0 then ['-'] + (d + rest) else d + rest
    ensures !IsSpace((PrintInt(n) + rest)[0])
  {
  }

  /** A printed number is read back, with or without a blank in front. */
  lemma ScanPrintedInt(n: int, rest: string)
    requires rest != [] ==> !IsDigit(rest[0])
    ensures ScanInt(PrintInt(n) + rest) == Some((n, rest))
    ensures ScanInt([' '] + (PrintInt(n) + rest)) == Some((n, rest))
  {
    ScanSignedOf(n, rest);
    SkipOneBlank(PrintInt(n) + rest);
  }

  lemma ScanPrintedWord(w: string, rest: string)
    requires w != [] && NoSpaces(w) && (rest != [] ==> IsSpace(rest[0]))
    ensures ScanWord([' '] + (w + rest)) == Some((w, rest))
  {
    SkipOneBlank(w + rest);
    WordSpanOf(w, rest);
    Concat(w, rest);
  }

  // ---------- what scanning gives in general ----------

  lemma {:induction false} WordSpanWord(s: string)
    ensures NoSpaces(s[..WordSpan(s)])
    decreases |s|
  {
    if s != [] && !IsSpace(s[0]) {
      WordSpanWord(s[1..]);
      forall k | 0 <= k < WordSpan(s)
        ensures !IsSpace(s[k])
      {
        assert k > 0 ==> s[k] == s[1..][..WordSpan(s[1..])][k - 1];
      }
    }
  }

  lemma ScannedWord(s: string)
    requires ScanWord(s).Some?
    ensures ScanWord(s).value.0 != [] && NoSpaces(ScanWord(s).value.0)
  {
    WordSpanWord(SkipSpace(s));
  }

  lemma {:induction false} SkipSpaceKeeps(s: string, c: char)
    requires c in s && !IsSpace(c)
    ensures c in SkipSpace(s) && SkipSpace(s) != [] && !IsSpace(SkipSpace(s)[0])
    decreases |s|
  {
    if IsSpace(s[0]) {
      assert s == [s[0]] + s[1..];
      SkipSpaceKeeps(s[1..], c);
    }
  }

  lemma {:induction false} DigitSpanKeeps(s: string, c: char)
    requires c in s && !IsDigit(c)
    ensures c in s[DigitSpan(s)..]
    decreases |s|
  {
    if IsDigit(s[0]) {
      assert s == [s[0]] + s[1..];
      DigitSpanKeeps(s[1..], c);
      assert s[DigitSpan(s)..] == s[1..][DigitSpan(s[1..])..];
    } else {
      assert s[0..] == s;
    }
  }

  /** A number does not use up other characters, so there is a word behind it. */
  lemma WordBehindNumber(s: string, c: char)
    requires c in s && !IsSpace(c) && !IsDigit(c) && c != '-' && c != '+' && ScanInt(s).Some?
    ensures ScanWord(ScanInt(s).value.1).Some?
  {
    var t := SkipSpace(s);
    SkipSpaceKeeps(s, c);
    var digits := if t[0] == '-' || t[0] == '+' then t[1..] else t;
    assert c in digits by {
      assert t == [t[0]] + t[1..];
    }
    DigitSpanKeeps(digits, c);
    SkipSpaceKeeps(ScanInt(s).value.1, c);
  }

  // ---------- places of a character ----------

  /** find_first_of: index of the first occurrence, or the length. */
  function First(s: string, c: char): (k: nat)
    ensures k <= |s|
  {
    if s == [] || s[0] == c then 0 else 1 + First(s[1..], c)
  }

  /** find_last_of: index of the last occurrence, or the length. */
  function Last(s: string, c: char): (k: nat)
    ensures k <= |s|
  {
    if s == [] then 0
    else if s[|s| - 1] == c then |s| - 1
    else
      var k := Last(s[..|s| - 1], c);
      if k == |s| - 1 then |s| else k
  }

  lemma {:induction false} FirstIs(s: string, c: char, k: nat)
    requires k <= |s| && (k < |s| ==> s[k] == c) && forall j :: 0 <= j < k ==> s[j] != c
    ensures First(s, c) == k
    decreases k
  {
    if k > 0 {
      FirstIs(s[1..], c, k - 1);
    }
  }

  lemma {:induction false} LastIs(s: string, c: char, k: nat)
    requires k < |s| && s[k] == c && forall j :: k < j < |s| ==> s[j] != c
    ensures Last(s, c) == k
    decreases |s|
  {
    if k < |s| - 1 {
      LastIs(s[..|s| - 1], c, k);
    }
  }

  lemma {:induction false} FirstPlace(s: string, c: char)
    ensures First(s, c) < |s| ==> s[First(s, c)] == c
    ensures forall j :: 0 <= j < First(s, c) ==> s[j] != c
    decreases |s|
  {
    if s != [] && s[0] != c {
      FirstPlace(s[1..], c);
      forall j | 0 <= j < First(s, c)
        ensures s[j] != c
      {
        assert j > 0 ==> s[j] == s[1..][j - 1];
      }
    }
  }

  lemma {:induction false} LastPlace(s: string, c: char)
    ensures Last(s, c) < |s| ==> s[Last(s, c)] == c
    ensures forall j :: 0 <= j < |s| && (j > Last(s, c) || Last(s, c) == |s|) ==> s[j] != c
    decreases |s|
  {
    if s != [] && s[|s| - 1] != c {
      var front := s[..|s| - 1];
      LastPlace(front, c);
      forall j | 0 <= j < |s| && (j > Last(s, c) || Last(s, c) == |s|)
        ensures s[j] != c
      {
        assert j < |s| - 1 ==> s[j] == front[j];
      }
    }
  }
}
