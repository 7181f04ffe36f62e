/**
 * The parts of Go's `strings` and `strconv` packages that the modelled code
 * relies on: `strings.Fields`, `strings.Split`, `strings.SplitN` (with a
 * one-character separator), `strings.ToLower` (ASCII letters only),
 * `strconv.Atoi` and `strconv.Itoa`.
 */
module GoStrings {
  import opened Base

  /** unicode.IsSpace: the white-space runes strings.Fields splits on. */
  predicate IsSpace(c: char) {
    || c == ' ' || c == '\t' || c == '\n' || c == '\r' || c == '\U{0B}' || c == '\U{0C}'
    || c == '\U{85}' || c == '\U{A0}' || c == '\U{1680}'
    || ('\U{2000}' <= c <= '\U{200A}')
    || c == '\U{2028}' || c == '\U{2029}' || c == '\U{202F}' || c == '\U{205F}' || c == '\U{3000}'
  }

  /** A field as strings.Fields returns it: non-empty and free of white space. */
  predicate IsWord(w: string) {
    w != [] && forall i :: 0 <= i < |w| ==> !IsSpace(w[i])
  }

  /** Drops the leading white space of s. */
  function SkipSpaces(s: string): (r: string)
    ensures |r| <= |s| && r == s[|s| - |r|..]
    ensures r != [] ==> !IsSpace(r[0])
  {
    if s != [] && IsSpace(s[0]) then SkipSpaces(s[1..]) else s
  }

  /** The length of the longest space-free prefix of s. */
  function WordLength(s: string): (n: nat)
    ensures n <= |s|
    ensures forall i :: 0 <= i < n ==> !IsSpace(s[i])
    ensures n < |s| ==> IsSpace(s[n])
  {
    if s == [] || IsSpace(s[0]) then 0 else 1 + WordLength(s[1..])
  }

  /** strings.Fields: the maximal runs of non-space characters, in order. */
  function Fields(s: string): seq<string>
    decreases |s|
  {
    var t := SkipSpaces(s);
    if t == [] then []
    else
      var n := WordLength(t);
      [t[..n]] + Fields(t[n..])
  }

  /** The inverse direction of Fields: words joined by single blanks. */
  function Unwords(ws: seq<string>): string {
    if ws == [] then ""
    else if |ws| == 1 then ws[0]
    else ws[0] + " " + Unwords(ws[1..])
  }

  lemma {:induction false} FieldsAreWords(s: string)
    ensures forall i :: 0 <= i < |Fields(s)| ==> IsWord(Fields(s)[i])
    decreases |s|
  {
    var t := SkipSpaces(s);
    if t != [] {
      var n := WordLength(t);
      var rest := Fields(t[n..]);
      FieldsAreWords(t[n..]);
      assert Fields(s) == [t[..n]] + rest;
      assert IsWord(t[..n]);
      forall i | 0 <= i < |Fields(s)| ensures IsWord(Fields(s)[i]) {
        if i > 0 {
          assert Fields(s)[i] == rest[i - 1];
        }
      }
    }
  }

  lemma WordLengthOfWord(w: string, rest: string)
    requires IsWord(w)
    requires rest == [] || IsSpace(rest[0])
    ensures WordLength(w + rest) == |w|
    decreases |w|
  {
    if |w| > 1 {
      assert (w + rest)[1..] == w[1..] + rest;
      WordLengthOfWord(w[1..], rest);
    } else {
      assert (w + rest)[1..] == rest;
    }
  }

  /** A word followed by white space (or nothing) is the next field. */
  lemma FieldsOfWordThen(w: string, rest: string)
    requires IsWord(w)
    requires rest == [] || IsSpace(rest[0])
    ensures Fields(w + rest) == [w] + Fields(rest)
  {
    WordLengthOfWord(w, rest);
    assert SkipSpaces(w + rest) == w + rest;
    assert (w + rest)[..|w|] == w;
    assert (w + rest)[|w|..] == rest;
  }

  /** Leading white space never changes the fields. */
  lemma FieldsOfSpaceThen(c: char, s: string)
    requires IsSpace(c)
    ensures Fields([c] + s) == Fields(s)
  {
    assert ([c] + s)[1..] == s;
  }

  /** Fields undoes Unwords: splitting blank-joined words gives the words back. */
  lemma {:induction false} FieldsOfUnwords(ws: seq<string>)
    requires forall i :: 0 <= i < |ws| ==> IsWord(ws[i])
    ensures Fields(Unwords(ws)) == ws
  {
    if ws == [] {
      assert Unwords(ws) == [];
    } else if |ws| == 1 {
      FieldsOfWordThen(ws[0], "");
      assert Unwords(ws) == ws[0] + "";
    } else {
      var tail := ws[1..];
      assert forall i :: 0 <= i < |tail| ==> IsWord(tail[i]) by {
        forall i | 0 <= i < |tail| ensures IsWord(tail[i]) {
          assert tail[i] == ws[i + 1];
        }
      }
      FieldsOfUnwords(tail);
      UnwordsCons(ws);
      FieldsOfWordBlank(ws[0], Unwords(tail));
      assert Fields(Unwords(ws)) == [ws[0]] + tail;
      assert [ws[0]] + tail == ws;
    }
  }

  lemma UnwordsCons(ws: seq<string>)
    requires |ws| > 1
    ensures Unwords(ws) == ws[0] + ([' '] + Unwords(ws[1..]))
  {
  }

  lemma FieldsOfWordBlank(w: string, rest: string)
    requires IsWord(w)
    ensures Fields(w + ([' '] + rest)) == [w] + Fields(rest)
  {
    FieldsOfWordThen(w, [' '] + rest);
    FieldsOfSpaceThen(' ', rest);
  }

  /** The position of the first sep in s, if any. */
  function IndexOf(s: string, sep: char): (r: Option<nat>)
    ensures r.None? <==> sep !in s
    ensures r.Some? ==> r.value < |s| && s[r.value] == sep && sep !in s[..r.value]
  {
    if s == [] then None
    else if s[0] == sep then Some(0)
    else
      match IndexOf(s[1..], sep)
      case None => None
      case Some(i) =>
        assert s[..i + 1] == [s[0]] + s[1..][..i];
        Some(i + 1)
  }

  /** strings.Split(s, sep) for a one-character separator. */
  function Split(s: string, sep: char): (parts: seq<string>)
    ensures |parts| >= 1
    decreases |s|
  {
    match IndexOf(s, sep)
    case None => [s]
    case Some(i) => [s[..i]] + Split(s[i + 1..], sep)
  }

  /** strings.SplitN(s, sep, n) for n >= 1: at most n parts, the last holding the rest. */
  function SplitN(s: string, sep: char, n: nat): (parts: seq<string>)
    requires n >= 1
    ensures 1 <= |parts| <= n
    decreases n
  {
    if n == 1 then [s]
    else
      match IndexOf(s, sep)
      case None => [s]
      case Some(i) => [s[..i]] + SplitN(s[i + 1..], sep, n - 1)
  }

  /** strings.Join(parts, sep) for a one-character separator. */
  function Join(parts: seq<string>, sep: char): string {
    if parts == [] then ""
    else if |parts| == 1 then parts[0]
    else parts[0] + [sep] + Join(parts[1..], sep)
  }

  /** strings.Join with a separator string. */
  function JoinWith(parts: seq<string>, sep: string): (r: string)
    ensures |parts| == 1 ==> r == parts[0]
  {
    if parts == [] then ""
    else if |parts| == 1 then parts[0]
    else parts[0] + sep + JoinWith(parts[1..], sep)
  }

  /** Joining the parts of a Split gives back the original string. */
  lemma {:induction false} JoinSplit(s: string, sep: char)
    ensures Join(Split(s, sep), sep) == s
    decreases |s|
  {
    var idx := IndexOf(s, sep);
    if idx.Some? {
      var i := idx.value;
      var head, tail := s[..i], s[i + 1..];
      var rest := Split(tail, sep);
      SplitCons(s, sep, i);
      var parts := [head] + rest;
      JoinCons(parts, sep);
      assert parts[0] == head && parts[1..] == rest;
      JoinSplit(tail, sep);
      assert s == head + [sep] + tail;
    }
  }

  lemma SplitCons(s: string, sep: char, i: nat)
    requires IndexOf(s, sep) == Some(i)
    ensures Split(s, sep) == [s[..i]] + Split(s[i + 1..], sep)
  {
  }

  /** No part of a Split holds the separator. */
  lemma {:induction false} SplitPartsFree(s: string, sep: char)
    ensures forall k :: 0 <= k < |Split(s, sep)| ==> sep !in Split(s, sep)[k]
    decreases |s|
  {
    match IndexOf(s, sep)
    case None =>
    case Some(i) =>
      SplitPartsFree(s[i + 1..], sep);
  }

  lemma JoinCons(parts: seq<string>, sep: char)
    requires |parts| > 1
    ensures Join(parts, sep) == parts[0] + [sep] + Join(parts[1..], sep)
  {
  }

  /** Splitting joined separator-free parts gives back the parts. */
  lemma {:induction false} SplitJoin(parts: seq<string>, sep: char)
    requires parts != []
    requires forall k :: 0 <= k < |parts| ==> sep !in parts[k]
    ensures Split(Join(parts, sep), sep) == parts
  {
    if |parts| > 1 {
      var s := Join(parts, sep);
      var rest := Join(parts[1..], sep);
      assert s == parts[0] + ([sep] + rest);
      assert s[|parts[0]|] == sep;
      assert s[..|parts[0]|] == parts[0];
      assert IndexOf(s, sep) == Some(|parts[0]|);
      assert s[|parts[0]| + 1..] == rest;
      SplitJoin(parts[1..], sep);
    }
  }

  /** What the Go code reads out of a `key=value` token. */
  lemma SplitOfToken(s: string, sep: char)
    ensures |Split(s, sep)| == 1 <==> sep !in s
    ensures sep !in s ==> Split(s, sep)[0] == s
    ensures sep in s ==> Split(s, sep)[0] == s[..IndexOf(s, sep).value]
    ensures sep in s ==>
              var i := IndexOf(s, sep).value;
              SplitN(s, sep, 2) == [s[..i], s[i + 1..]]
    ensures |Split(s, sep)| == 2 ==> Split(s, sep)[1] == s[IndexOf(s, sep).value + 1..]
  {
    SplitSingle(s, sep);
    var idx := IndexOf(s, sep);
    if idx.Some? {
      var i := idx.value;
      var rest := s[i + 1..];
      SplitCons(s, sep, i);
      SplitSingle(rest, sep);
      SplitNTwo(s, sep, i);
    }
  }

  lemma SplitNTwo(s: string, sep: char, i: nat)
    requires IndexOf(s, sep) == Some(i)
    ensures SplitN(s, sep, 2) == [s[..i], s[i + 1..]]
  {
    assert SplitN(s[i + 1..], sep, 1) == [s[i + 1..]];
  }

  /** Split gives one part exactly when the separator is missing, and then that part is s. */
  lemma SplitSingle(s: string, sep: char)
    ensures |Split(s, sep)| == 1 <==> IndexOf(s, sep).None?
    ensures IndexOf(s, sep).None? ==> Split(s, sep) == [s]
  {
    var idx := IndexOf(s, sep);
    if idx.Some? {
      SplitCons(s, sep, idx.value);
    }
  }

  /** strings.ToLower, for the ASCII letters. */
  function ToLowerChar(c: char): char {
    if 'A' <= c <= 'Z' then (c as int + 32) as char else c
  }

  function ToLower(s: string): (r: string)
    ensures |r| == |s|
  {
    seq(|s|, i requires 0 <= i < |s| => ToLowerChar(s[i]))
  }

  predicate IsDigit(c: char) {
    '0' <= c <= '9'
  }

  predicate AllDigits(s: string) {
    forall i :: 0 <= i < |s| ==> IsDigit(s[i])
  }

  function DigitValue(c: char): nat
    requires IsDigit(c)
  {
    c as int - '0' as int
  }

  function DigitChar(d: nat): (c: char)
    requires d < 10
    ensures IsDigit(c) && DigitValue(c) == d
  {
    ('0' as int + d) as char
  }

  /** The value of a string of decimal digits. */
  function DecimalValue(s: string): nat
    requires AllDigits(s)
  {
    if s == [] then 0 else DecimalValue(s[..|s| - 1]) * 10 + DigitValue(s[|s| - 1])
  }

  /** The range of Go's 64-bit `int`. */
  const MinInt: int := -0x8000_0000_0000_0000
  const MaxInt: int := 0x7FFF_FFFF_FFFF_FFFF

  predicate InIntRange(n: int) {
    MinInt <= n <= MaxInt
  }

  /**
   * strconv.Atoi: an optional sign followed by at least one decimal digit,
   * whose value fits Go's 64-bit int; None stands for the returned error.
   */
  function Atoi(s: string): (r: Option<int>)
    ensures r.Some? ==> InIntRange(r.value)
  {
    var signed := |s| > 0 && (s[0] == '+' || s[0] == '-');
    var digits := if signed then s[1..] else s;
    if digits == [] || !AllDigits(digits) then None
    else
      var magnitude: int := DecimalValue(digits);
      var n: int := if signed && s[0] == '-' then -magnitude else magnitude;
      if InIntRange(n) then Some(n) else None
  }

  /** The largest value of Go's uint64. */
  const MaxUint64: nat := 0xFFFF_FFFF_FFFF_FFFF

  /** The error kinds of strconv: none, a malformed number, or one out of range. */
  datatype NumError = NoError | SyntaxError | RangeError

  /**
   * The digit loop of strconv.ParseUint(s, 10, 64), continuing from the
   * value `n` of the digits read so far. A non-digit ends the scan with a
   * syntax error and 0. A digit that would take the value past the uint64
   * range ends it at once with a range error and the largest uint64,
   * whatever follows.
   */
  function ScanUint(s: string, n: nat): (r: (nat, NumError))
    requires n <= MaxUint64
    ensures r.0 <= MaxUint64
    ensures r.1 == SyntaxError ==> r.0 == 0
    ensures r.1 == RangeError ==> r.0 == MaxUint64
    decreases |s|
  {
    if s == [] then (n, NoError)
    else if !IsDigit(s[0]) then (0, SyntaxError)
    else if n * 10 + DigitValue(s[0]) > MaxUint64 then (MaxUint64, RangeError)
    else ScanUint(s[1..], n * 10 + DigitValue(s[0]))
  }

  /**
   * strconv.ParseInt(s, 10, 64), which strconv.Atoi calls: an optional
   * sign, then ParseUint on the rest. A syntax error gives 0. A magnitude
   * beyond the int64 range, including one ParseUint already refused as
   * too large, gives the nearest end of the range with a range error.
   */
  function ParseInt(s: string): (int, NumError) {
    var signed := |s| > 0 && (s[0] == '+' || s[0] == '-');
    var neg := signed && s[0] == '-';
    var digits := if signed then s[1..] else s;
    if digits == [] then (0, SyntaxError)
    else
      var u := ScanUint(digits, 0);
      if u.1 == SyntaxError then (0, SyntaxError)
      else if !neg && u.0 > MaxInt then (MaxInt, RangeError)
      else if neg && u.0 > -MinInt then (MinInt, RangeError)
      else
        var v: int := if neg then -(u.0 as int) else u.0;
        (v, u.1)
  }

  /** The value of p + [c] is the value of p, shifted one decimal place, plus c. */
  lemma DecimalSnoc(p: string, c: char)
    requires AllDigits(p) && IsDigit(c)
    ensures AllDigits(p + [c]) && DecimalValue(p + [c]) == DecimalValue(p) * 10 + DigitValue(c)
  {
    assert (p + [c])[..|p|] == p;
  }

  /** On digits only, the scan yields their value when it fits a uint64 and a range error otherwise. */
  lemma {:induction false} ScanDigits(p: string, t: string, n: nat)
    requires AllDigits(p) && AllDigits(t) && n == DecimalValue(p) && n <= MaxUint64
    ensures AllDigits(p + t)
    ensures ScanUint(t, n) == if DecimalValue(p + t) <= MaxUint64 then (DecimalValue(p + t), NoError) else (MaxUint64, RangeError)
    decreases |t|
  {
    if t == [] {
      assert p + t == p;
    } else {
      DecimalSnoc(p, t[0]);
      assert p + t == (p + [t[0]]) + t[1..];
      var n' := n * 10 + DigitValue(t[0]);
      if n' > MaxUint64 {
        DecimalGrows(p + [t[0]], t[1..]);
      } else {
        ScanDigits(p + [t[0]], t[1..], n');
      }
    }
  }

  /** Appending digits never lowers the value. */
  lemma {:induction false} DecimalGrows(p: string, t: string)
    requires AllDigits(p) && AllDigits(t)
    ensures AllDigits(p + t) && DecimalValue(p + t) >= DecimalValue(p)
    decreases |t|
  {
    if t == [] {
      assert p + t == p;
    } else {
      var q := p + t[..|t| - 1];
      assert p + t == q + [t[|t| - 1]];
      DecimalGrows(p, t[..|t| - 1]);
      DecimalSnoc(q, t[|t| - 1]);
    }
  }

  /** Digits whose value passes the uint64 range end the scan with a range error, whatever follows them. */
  lemma {:induction false} ScanOverflows(p: string, d: string, rest: string, n: nat)
    requires AllDigits(p) && AllDigits(d) && n == DecimalValue(p) && n <= MaxUint64
    requires d != [] && AllDigits(p + d) && DecimalValue(p + d) > MaxUint64
    ensures ScanUint(d + rest, n) == (MaxUint64, RangeError)
    decreases |d|
  {
    {
      DecimalSnoc(p, d[0]);
      assert (d + rest)[0] == d[0] && (d + rest)[1..] == d[1..] + rest;
      assert p + d == (p + [d[0]]) + d[1..];
      if n * 10 + DigitValue(d[0]) <= MaxUint64 {
        assert d[1..] != [];
        ScanOverflows(p + [d[0]], d[1..], rest, n * 10 + DigitValue(d[0]));
      }
    }
  }

  /** A non-digit reached before the value passes the uint64 range ends the scan with a syntax error. */
  lemma {:induction false} ScanStopsAtNonDigit(p: string, d: string, c: char, rest: string, n: nat)
    requires AllDigits(p) && AllDigits(d) && n == DecimalValue(p) && n <= MaxUint64
    requires AllDigits(p + d) && DecimalValue(p + d) <= MaxUint64 && !IsDigit(c)
    ensures ScanUint(d + [c] + rest, n) == (0, SyntaxError)
    decreases |d|
  {
    if d == [] {
      assert d + [c] + rest == [c] + rest;
    } else {
      DecimalSnoc(p, d[0]);
      assert (d + [c] + rest)[0] == d[0] && (d + [c] + rest)[1..] == d[1..] + [c] + rest;
      assert p + d == (p + [d[0]]) + d[1..];
      DecimalGrows(p + [d[0]], d[1..]);
      ScanStopsAtNonDigit(p + [d[0]], d[1..], c, rest, n * 10 + DigitValue(d[0]));
    }
  }

  /**
   * The scan from zero succeeds exactly on digits whose value fits a
   * uint64, and then yields that value; digits past the range give a
   * range error.
   */
  lemma ScanFromZero(digits: string)
    ensures ScanUint(digits, 0).1 == NoError <==> AllDigits(digits) && DecimalValue(digits) <= MaxUint64
    ensures ScanUint(digits, 0).1 == NoError ==> ScanUint(digits, 0).0 == DecimalValue(digits)
    ensures AllDigits(digits) && DecimalValue(digits) > MaxUint64 ==> ScanUint(digits, 0) == (MaxUint64, RangeError)
  {
    if AllDigits(digits) {
      assert [] + digits == digits;
      ScanDigits([], digits, 0);
    } else {
      ScanNotDigits(digits);
    }
  }

  /** Text that is not all digits never scans without an error. */
  lemma ScanNotDigits(digits: string)
    requires !AllDigits(digits)
    ensures ScanUint(digits, 0).1 != NoError
  {
    var k := FirstNonDigit(digits);
    var d := digits[..k];
    assert [] + d == d;
    if DecimalValue(d) <= MaxUint64 {
      assert digits == d + [digits[k]] + digits[k + 1..];
      ScanStopsAtNonDigit([], d, digits[k], digits[k + 1..], 0);
    } else {
      assert d + digits[k..] == digits;
      ScanOverflows([], d, digits[k..], 0);
    }
  }

  /** The position of the first non-digit of a string that is not all digits. */
  function FirstNonDigit(s: string): (k: nat)
    requires !AllDigits(s)
    ensures k < |s| && !IsDigit(s[k]) && AllDigits(s[..k])
  {
    if !IsDigit(s[0]) then 0
    else
      var k := 1 + FirstNonDigit(s[1..]);
      assert s[..k] == [s[0]] + s[1..][..k - 1];
      k
  }

  /** ParseInt succeeds exactly where Atoi does, with the same value, and always yields a value of Go's int. */
  lemma ParseIntAgrees(s: string)
    ensures InIntRange(ParseInt(s).0)
    ensures ParseInt(s).1 == NoError <==> Atoi(s).Some?
    ensures Atoi(s).Some? ==> ParseInt(s).0 == Atoi(s).value
  {
    var signed := |s| > 0 && (s[0] == '+' || s[0] == '-');
    var digits := if signed then s[1..] else s;
    ScanFromZero(digits);
  }

  /**
   * The number strconv.Atoi returns beside its error: the parsed value
   * when there is no error, 0 for a malformed number, and the nearest end
   * of the range when the number does not fit.
   */
  function AtoiValue(s: string): (r: int)
    ensures InIntRange(r)
    ensures Atoi(s).Some? ==> r == Atoi(s).value
    ensures Atoi(s).None? && r != 0 ==> r == MinInt || r == MaxInt
  {
    ParseIntAgrees(s);
    ParseInt(s).0
  }

  /**
   * A run of digits that passes the uint64 range gives the end of the int
   * range its sign points to, even when a non-digit follows: ParseUint
   * reports the overflow before it reaches that character.
   */
  lemma AtoiValueOverflows(sign: string, d: string, rest: string)
    requires sign == "" || sign == "-" || sign == "+"
    requires AllDigits(d) && DecimalValue(d) > MaxUint64
    ensures AtoiValue(sign + d + rest) == if sign == "-" then MinInt else MaxInt
  {
    var s := sign + d + rest;
    assert [] + d == d;
    ScanOverflows([], d, rest, 0);
    if sign == "" {
      assert s == d + rest;
      assert d != [] && IsDigit(d[0]);
    } else {
      assert s[1..] == d + rest;
    }
  }

  /** A non-digit reached while the value still fits a uint64 makes the text malformed, so the value is 0. */
  lemma AtoiValueMalformed(sign: string, d: string, c: char, rest: string)
    requires sign == "" || sign == "-" || sign == "+"
    requires AllDigits(d) && DecimalValue(d) <= MaxUint64 && !IsDigit(c)
    requires sign == "" && d == [] ==> c != '+' && c != '-'
    ensures AtoiValue(sign + d + [c] + rest) == 0
  {
    var s := sign + d + [c] + rest;
    assert [] + d == d;
    ScanStopsAtNonDigit([], d, c, rest, 0);
    if sign == "" {
      assert s == d + [c] + rest;
    } else {
      assert s[1..] == d + [c] + rest;
    }
  }

  /** The concrete case: twenty nines and an `x` give the largest int, not 0. */
  lemma AtoiValueOverflowExample()
    ensures AtoiValue("99999999999999999999x") == MaxInt
  {
    var d := "99999999999999999999";
    assert d == Nines(20);
    NinesValue(20);
    TenTwenty();
    assert DecimalValue(d) > MaxUint64;
    AtoiValueOverflows("", d, "x");
    assert "" + d + "x" == "99999999999999999999x";
  }

  /** A string of k nines. */
  function Nines(k: nat): (s: string)
    ensures |s| == k && forall i :: 0 <= i < k ==> s[i] == '9'
  {
    if k == 0 then [] else Nines(k - 1) + ['9']
  }

  /** Ten to the power k. */
  function Ten(k: nat): nat {
    if k == 0 then 1 else 10 * Ten(k - 1)
  }

  lemma TenTwenty()
    ensures Ten(20) == 100000000000000000000
  {
    assert Ten(10) == 10000000000;
  }

  /** k nines are worth one less than ten to the power k. */
  lemma {:induction false} NinesValue(k: nat)
    ensures AllDigits(Nines(k)) && DecimalValue(Nines(k)) + 1 == Ten(k)
  {
    if k > 0 {
      NinesValue(k - 1);
      assert Nines(k)[..k - 1] == Nines(k - 1);
    }
  }

  /** The decimal digits of a natural number, without leading zeros. */
  function NatToDecimal(n: nat): (s: string)
    ensures s != [] && AllDigits(s)
  {
    if n < 10 then [DigitChar(n)] else NatToDecimal(n / 10) + [DigitChar(n % 10)]
  }

  /** strconv.Itoa. */
  function Itoa(n: int): string {
    if n < 0 then "-" + NatToDecimal(-n) else NatToDecimal(n)
  }

  lemma {:induction false} DecimalValueOfNat(n: nat)
    ensures DecimalValue(NatToDecimal(n)) == n
  {
    if n >= 10 {
      var s := NatToDecimal(n);
      assert s[..|s| - 1] == NatToDecimal(n / 10);
      DecimalValueOfNat(n / 10);
    }
  }

  /** Atoi parses back what Itoa prints, for every value of Go's int. */
  lemma AtoiItoa(n: int)
    requires InIntRange(n)
    ensures Atoi(Itoa(n)) == Some(n)
  {
    var s := Itoa(n);
    if n < 0 {
      var d := NatToDecimal(-n);
      assert s == ['-'] + d;
      assert s[1..] == d;
      DecimalValueOfNat(-n);
      assert DecimalValue(d) == -n;
    } else {
      var d := NatToDecimal(n);
      DecimalValueOfNat(n);
      assert s[0] != '+' && s[0] != '-';
    }
  }
}

/**
 * regexp.MatchString(pattern, s), which the model does not interpret: callers
 * pass it in as a function, and it answers with one of the three outcomes
 * the Go code distinguishes.
 */
module Regexp {
  datatype MatchOutcome =
    | Matched     // (true, nil)
    | NotMatched  // (false, nil)
    | BadPattern  // (false, err): the pattern does not compile

  type Matcher = (string, string) -> MatchOutcome
}
