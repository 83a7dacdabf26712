/** The string handling the handlers rely on: Java's `String.trim()`, the
    store's case-insensitive comparison of user names, and the conversion of
    the age field between text and `int` (`Integer.parseInt`,
    `String.valueOf(int)`). */
module Text {
  import opened Basics

  // ---------------------------------------------------------------------
  // String.trim()
  // ---------------------------------------------------------------------

  /** `trim()` removes every leading and trailing character whose code is at
      most U+0020 (space and the control characters). */
  predicate IsSpace(c: char) {
    c <= ' '
  }

  /** `r` is `s` with `i` characters cut from the front and `|s| - j` from
      the back, every one of them a space character. */
  predicate StripsTo(s: string, r: string, i: int, j: int) {
    && 0 <= i <= j <= |s| && r == s[i..j]
    && (forall k :: 0 <= k < i ==> IsSpace(s[k]))
    && (forall k :: j <= k < |s| ==> IsSpace(s[k]))
  }

  /** `s.trim()`: strips every leading and trailing space character; the
      result neither starts nor ends with one, and is empty exactly when `s`
      is blank (this is what the handlers' `isEmpty()` checks on trimmed
      fields test). `TrimStrips` states what is cut. */
  function Trim(s: string): (r: string)
    ensures |r| <= |s|
    ensures r != [] ==> !IsSpace(r[0]) && !IsSpace(r[|r| - 1])
    ensures r == [] <==> forall i :: 0 <= i < |s| ==> IsSpace(s[i])
  {
    if s == [] then s
    else if IsSpace(s[0]) then
      assert forall i :: 1 <= i < |s| ==> s[i] == s[1..][i - 1];
      Trim(s[1..])
    else if IsSpace(s[|s| - 1]) then
      assert forall i :: 0 <= i < |s| - 1 ==> s[i] == s[..|s| - 1][i];
      Trim(s[..|s| - 1])
    else s
  }

  /** `trim()` returns a slice of `s`: what it cuts from either end is only
      space characters. */
  lemma {:induction false} TrimStrips(s: string)
    ensures exists i, j :: StripsTo(s, Trim(s), i, j)
  {
    if s == [] {
      assert StripsTo(s, Trim(s), 0, 0);
    } else if IsSpace(s[0]) {
      TrimStrips(s[1..]);
      var i, j :| StripsTo(s[1..], Trim(s[1..]), i, j);
      StripsFront(s, Trim(s), i, j);
    } else if IsSpace(s[|s| - 1]) {
      TrimStrips(s[..|s| - 1]);
      var i, j :| StripsTo(s[..|s| - 1], Trim(s[..|s| - 1]), i, j);
      StripsBack(s, Trim(s), i, j);
    } else {
      assert StripsTo(s, Trim(s), 0, |s|);
    }
  }

  /** A space in front of a stripped text is stripped too. */
  lemma StripsFront(s: string, r: string, i: int, j: int)
    requires s != [] && IsSpace(s[0]) && StripsTo(s[1..], r, i, j)
    ensures StripsTo(s, r, i + 1, j + 1)
  {
    assert r == s[i + 1..j + 1];
    assert forall k :: 1 <= k < |s| ==> s[k] == s[1..][k - 1];
  }

  /** A space behind a stripped text is stripped too. */
  lemma StripsBack(s: string, r: string, i: int, j: int)
    requires s != [] && IsSpace(s[|s| - 1]) && StripsTo(s[..|s| - 1], r, i, j)
    ensures StripsTo(s, r, i, j)
  {
    assert r == s[i..j];
    assert forall k :: 0 <= k < |s| - 1 ==> s[k] == s[..|s| - 1][k];
  }

  /** A value with no space at either end is left alone by `trim()`, so
      trimming twice is the same as trimming once. */
  lemma TrimFixed(s: string)
    requires s == [] || (!IsSpace(s[0]) && !IsSpace(s[|s| - 1]))
    ensures Trim(s) == s
  {
  }

  lemma TrimIdempotent(s: string)
    ensures Trim(Trim(s)) == Trim(s)
  {
    TrimFixed(Trim(s));
  }

  // ---------------------------------------------------------------------
  // The store's collation for user names
  // ---------------------------------------------------------------------

  /** The case folding of the store's default (case-insensitive) collation,
      restricted to ASCII letters. */
  function Fold(c: char): (d: char)
    ensures 'A' <= c <= 'Z' ==> d as int == c as int + 32
    ensures !('A' <= c <= 'Z') ==> d == c
  {
    if 'A' <= c <= 'Z' then (c as int + 32) as char else c
  }

  function FoldAll(s: string): (r: string)
    ensures |r| == |s|
    ensures forall i :: 0 <= i < |s| ==> r[i] == Fold(s[i])
  {
    if s == [] then [] else [Fold(s[0])] + FoldAll(s[1..])
  }

  /** `username = ?` as the store evaluates it: equal up to letter case. */
  predicate NameEq(a: string, b: string) {
    FoldAll(a) == FoldAll(b)
  }

  // ---------------------------------------------------------------------
  // Integer.parseInt and String.valueOf(int)
  // ---------------------------------------------------------------------

  const MinInt: int := -0x8000_0000
  const MaxInt: int := 0x7fff_ffff

  predicate IsDigit(c: char) {
    '0' <= c <= '9'
  }

  predicate AllDigits(s: string) {
    forall i :: 0 <= i < |s| ==> IsDigit(s[i])
  }

  /** The value of a string of decimal digits, most significant first. */
  function DigitsValue(s: string): nat
    requires AllDigits(s)
  {
    if s == [] then 0
    else DigitsValue(s[..|s| - 1]) * 10 + (s[|s| - 1] as int - '0' as int)
  }

  /** The text after an optional leading sign. */
  function Unsigned(s: string): (d: string)
    ensures s != [] && (s[0] == '-' || s[0] == '+') ==> s == [s[0]] + d
    ensures s == [] || (s[0] != '-' && s[0] != '+') ==> d == s
  {
    if s != [] && (s[0] == '-' || s[0] == '+') then s[1..] else s
  }

  /** The value of a signed decimal numeral. */
  function SignedValue(s: string): int
    requires AllDigits(Unsigned(s))
  {
    if s != [] && s[0] == '-' then -(DigitsValue(Unsigned(s)) as int) else DigitsValue(Unsigned(s))
  }

  /** `Integer.parseInt(s)`: an optional sign, then at least one decimal
      digit, and a value that fits in a 32-bit `int`; anything else throws
      `NumberFormatException`, modelled as `None`. Leading zeros and a `+`
      sign are accepted. */
  function ParseInt(s: string): (r: Option<int>)
    ensures r.Some? <==>
              Unsigned(s) != [] && AllDigits(Unsigned(s)) && MinInt <= SignedValue(s) <= MaxInt
    ensures r.Some? ==> r.value == SignedValue(s)
    ensures r.Some? ==> s != [] && (IsDigit(s[0]) || s[0] == '-' || s[0] == '+')
    ensures r.Some? && s[0] != '-' ==> r.value >= 0
  {
    if s == [] then None
    else
      var digits := if s[0] == '-' || s[0] == '+' then s[1..] else s;
      if digits == [] || !AllDigits(digits) then None
      else
        var v: int := if s[0] == '-' then -(DigitsValue(digits) as int) else DigitsValue(digits);
        if MinInt <= v <= MaxInt then Some(v) else None
  }

  function DigitChar(d: nat): (c: char)
    requires d < 10
    ensures IsDigit(c) && c as int - '0' as int == d
  {
    ('0' as int + d) as char
  }

  function NatDecimal(n: nat): (s: string)
    ensures s != [] && IsDigit(s[0])
  {
    if n < 10 then [DigitChar(n)] else NatDecimal(n / 10) + [DigitChar(n % 10)]
  }

  /** `String.valueOf(n)`: a minus sign for negative values, then the digits
      without leading zeros. */
  function Decimal(n: int): (s: string)
    ensures s != [] && (s[0] == '-' <==> n < 0)
  {
    if n < 0 then "-" + NatDecimal(-n) else NatDecimal(n)
  }

  lemma {:induction false} NatDecimalDigits(n: nat)
    ensures AllDigits(NatDecimal(n)) && DigitsValue(NatDecimal(n)) == n
  {
    if n >= 10 {
      NatDecimalDigits(n / 10);
      var s := NatDecimal(n);
      assert s[..|s| - 1] == NatDecimal(n / 10);
    }
  }

  /** Reading back a printed `int` gives the same `int`: the age that
      `loadApplicationData` writes into the form parses to the stored age. */
  lemma ParseDecimal(n: int)
    requires MinInt <= n <= MaxInt
    ensures ParseInt(Decimal(n)) == Some(n)
  {
    var s := Decimal(n);
    if n < 0 {
      var d := NatDecimal(-n);
      NatDecimalDigits(-n);
      assert s[0] == '-' && s[1..] == d;
      assert DigitsValue(d) == -n;
    } else {
      NatDecimalDigits(n);
      assert IsDigit(s[0]);
      assert DigitsValue(s) == n;
    }
  }

  /** A printed `int` is its own `trim()`, so the handler's trimming of the
      prefilled age changes nothing. */
  lemma DecimalTrimmed(n: int)
    ensures Trim(Decimal(n)) == Decimal(n)
  {
    var s := Decimal(n);
    if n < 0 {
      NatDecimalDigits(-n);
      assert s[|s| - 1] == NatDecimal(-n)[|NatDecimal(-n)| - 1];
    } else {
      NatDecimalDigits(n);
    }
    TrimFixed(s);
  }
}
