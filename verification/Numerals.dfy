/**
  Decimal text: what it denotes, how it is printed, and the two range-checked scanners
  asn_strtoimax_lim and asn_strtoumax_lim.
 */
module Numerals {
  import opened Integer

  predicate IsDigit(c: char) {
    '0' <= c <= '9'
  }

  predicate IsSign(c: char) {
    c == '+' || c == '-'
  }

  function DigitValue(c: char): (d: nat)
    requires IsDigit(c)
    ensures d <= 9
  {
    (c as int) - ('0' as int)
  }

  predicate AllDigits(s: string) {
    forall i :: 0 <= i < |s| ==> IsDigit(s[i])
  }

  /** The number a string of digits denotes. */
  function Num(s: string): nat
    requires AllDigits(s)
  {
    if s == [] then 0 else 10 * Num(s[..|s| - 1]) + DigitValue(s[|s| - 1])
  }

  /** The length of the longest prefix of digits. */
  function Span(s: string): (n: nat)
    ensures n <= |s| && AllDigits(s[..n]) && (n < |s| ==> !IsDigit(s[n]))
  {
    if s == [] || !IsDigit(s[0]) then 0 else 1 + Span(s[1..])
  }

  /** The decimal digits of a number, as printf writes them. */
  function Digits(n: nat): (s: string)
    ensures s != [] && AllDigits(s)
  {
    if n < 10 then [('0' as int + n) as char] else Digits(n / 10) + [('0' as int + n % 10) as char]
  }

  function Print(v: int): string {
    if v < 0 then "-" + Digits(-v) else Digits(v)
  }

  lemma {:induction false} NumSnoc(s: string, c: char)
    requires AllDigits(s) && IsDigit(c)
    ensures AllDigits(s + [c]) && Num(s + [c]) == 10 * Num(s) + DigitValue(c)
  {
    assert (s + [c])[..|s|] == s;
  }

  lemma {:induction false} NumDigits(n: nat)
    ensures Num(Digits(n)) == n
  {
    hide Num;
    if n < 10 {
      NumSnoc([], ('0' as int + n) as char);
      assert [] + [('0' as int + n) as char] == Digits(n);
      assert Num([]) == 0 by { NumEmpty(); }
    } else {
      NumDigits(n / 10);
      NumSnoc(Digits(n / 10), ('0' as int + n % 10) as char);
    }
  }

  lemma {:induction false} NumEmpty()
    ensures Num([]) == 0
  {
  }

  lemma {:induction false} NumPrefix(s: string, i: nat, j: nat)
    requires AllDigits(s) && i <= j <= |s|
    ensures Num(s[..i]) <= Num(s[..j])
    decreases j - i
  {
    if i < j {
      NumPrefix(s, i, j - 1);
      assert s[..j][..j - 1] == s[..j - 1];
    }
  }

  lemma {:induction false} NumStep(s: string, i: nat)
    requires i < |s| && AllDigits(s[..i]) && IsDigit(s[i])
    ensures AllDigits(s[..i + 1]) && Num(s[..i + 1]) == 10 * Num(s[..i]) + DigitValue(s[i])
  {
    assert s[..i + 1] == s[..i] + [s[i]];
    NumSnoc(s[..i], s[i]);
  }

  /** How many digits it takes to exceed a limit; all of them and one more when they do not. */
  function Exceeding(s: string, limit: nat): (k: nat)
    requires AllDigits(s)
    ensures k <= |s| + 1
    ensures k <= |s| ==> k > 0 && Num(s[..k]) > limit && Num(s[..k - 1]) <= limit
    ensures k == |s| + 1 ==> Num(s) <= limit
  {
    if s == [] then 1
    else
      var k := Exceeding(s[..|s| - 1], limit);
      assert forall i {:trigger s[..i]} :: 0 <= i <= |s| - 1 ==> s[..|s| - 1][..i] == s[..i];
      assert s[..|s|] == s;
      if k < |s| then k else if Num(s) > limit then |s| else |s| + 1
  }

  lemma {:induction false} ExceedingIs(s: string, limit: nat, k: nat)
    requires AllDigits(s) && 0 < k <= |s| && Num(s[..k]) > limit && Num(s[..k - 1]) <= limit
    ensures Exceeding(s, limit) == k
  {
    hide Num;
    var e := Exceeding(s, limit);
    assert s[..|s|] == s;
    if e < k {
      NumPrefix(s, e, k - 1);
    } else if k < e {
      NumPrefix(s, k, if e <= |s| then e - 1 else |s|);
    }
  }

  // ---- Scanners ----

  datatype Scanned =
    | Okay(value: int)
    | RangeError(at: nat)
    | Invalid
    | ExpectMore
    | ExtraData(at: nat, value: int)
    | Overflow          // signed overflow, which C leaves undefined

  const UPPER: nat := 922337203685477580

  /** What a scanner makes of digits after a sign of `skip` characters; `flips` is where the signed one loses count. */
  function ScanDigits(s: string, skip: nat, limit: nat, sign: int, flips: bool): Scanned
    requires skip <= |s|
  {
    var ds := s[skip..];
    var n := Span(ds);
    var k := Exceeding(ds[..n], limit);
    if k <= n then
      if flips && Num(ds[..n][..k - 1]) >= 10 * UPPER then Overflow else RangeError(skip + k - 1)
    else if n < |ds| then ExtraData(skip + n, sign * Num(ds[..n]))
    else Okay(sign * Num(ds[..n]))
  }

  function SignLength(s: string): (n: nat)
    ensures n <= 1 && n <= |s|
  {
    if s != [] && IsSign(s[0]) then 1 else 0
  }

  /**
    asn_strtoimax_lim by its results.  A negative number whose magnitude reaches 9223372036854775800
    is negated on the spot; one more digit then overflows the signed word.
   */
  function Strtoimax(s: string): Scanned {
    if s == [] then Invalid
    else
      var neg := s[0] == '-';
      if SignLength(s) == |s| then ExpectMore
      else ScanDigits(s, SignLength(s), if neg then TWO63 else TWO63 - 1, if neg then -1 else 1, neg)
  }

  function Strtoumax(s: string): Scanned {
    if s == [] || s[0] == '-' then Invalid
    else if SignLength(s) == |s| then ExpectMore
    else ScanDigits(s, SignLength(s), TWO64 - 1, 1, false)
  }

  lemma {:induction false} SpanIs(s: string, i: nat)
    requires i <= |s| && AllDigits(s[..i]) && (i < |s| ==> !IsDigit(s[i]))
    ensures Span(s) == i
  {
    if s != [] && IsDigit(s[0]) {
      assert i > 0;
      assert s[1..][..i - 1] == s[..i][1..];
      SpanIs(s[1..], i - 1);
    }
  }

  lemma {:induction false} SpanAtLeast(s: string, i: nat)
    requires i <= |s| && forall k :: 0 <= k < i ==> IsDigit(s[k])
    ensures Span(s) >= i
  {
    if i > 0 {
      SpanAtLeast(s[1..], i - 1);
    }
  }

  /** The scan ends at a character that is no digit, or at the end. */
  lemma {:induction false} ScanEnds(s: string, skip: nat, i: nat, limit: nat, sign: int, flips: bool)
    requires skip <= i <= |s| && AllDigits(s[skip..i]) && Num(s[skip..i]) <= limit
    requires i < |s| ==> !IsDigit(s[i])
    ensures ScanDigits(s, skip, limit, sign, flips)
         == if i < |s| then ExtraData(i, sign * Num(s[skip..i])) else Okay(sign * Num(s[skip..i]))
  {
    hide Num, Exceeding;
    var ds := s[skip..];
    assert ds[..i - skip] == s[skip..i];
    SpanIs(ds, i - skip);
    NoneExceeds(ds[..i - skip], limit);
  }

  lemma {:induction false} NoneExceeds(s: string, limit: nat)
    requires AllDigits(s) && Num(s) <= limit
    ensures Exceeding(s, limit) == |s| + 1
  {
    hide Num;
    var e := Exceeding(s, limit);
    assert s[..|s|] == s;
    if e <= |s| {
      NumPrefix(s, e, |s|);
    }
  }

  /** The scan stops at the digit that takes the number over the limit. */
  lemma {:induction false} ScanStops(s: string, skip: nat, i: nat, limit: nat, sign: int, flips: bool)
    requires skip <= i < |s| && AllDigits(s[skip..i]) && IsDigit(s[i])
    requires Num(s[skip..i]) <= limit < 10 * Num(s[skip..i]) + DigitValue(s[i])
    ensures ScanDigits(s, skip, limit, sign, flips)
         == if flips && Num(s[skip..i]) >= 10 * UPPER then Overflow else RangeError(i)
  {
    hide Num, Exceeding, Span;
    var ds := s[skip..];
    var n := Span(ds);
    var d := i - skip;
    assert s[skip..i] == ds[..d] && s[i] == ds[d];
    assert forall k :: 0 <= k < d ==> ds[k] == s[skip..i][k];
    SpanAtLeast(ds, d + 1);
    assert ds[..n][..d] == ds[..d] && ds[..n][..d + 1] == ds[..d + 1];
    NumStep(ds, d);
    ExceedingIs(ds[..n], limit, d + 1);
  }

  method StrtoimaxLim(s: string) returns (r: Scanned)
    ensures r == Strtoimax(s)
  {
    hide ScanDigits, Num;
    if s == [] {
      return Invalid;
    }
    var lastDigitMax, sign, at := 7, 1, 0;
    ghost var neg := s[0] == '-';
    if IsSign(s[0]) {
      if s[0] == '-' {
        lastDigitMax, sign := 8, -1;
      }
      at := 1;
      if at >= |s| {
        return ExpectMore;
      }
    }
    r := ScanSigned(s, at, sign, lastDigitMax);
  }

  /** The digits, with the value counted as a signed word. */
  method ScanSigned(s: string, skip: nat, sgn: int, lastDigitMax: nat) returns (r: Scanned)
    requires skip <= |s| && ((sgn == 1 && lastDigitMax == 7) || (sgn == -1 && lastDigitMax == 8))
    ensures r == ScanDigits(s, skip, if sgn < 0 then TWO63 else TWO63 - 1, sgn, sgn < 0)
  {
    hide ScanDigits, Num;
    ghost var limit := if sgn < 0 then TWO63 else TWO63 - 1;
    var value, sign, at := 0, sgn, skip;
    assert s[skip..skip] == [] && Num([]) == 0 by { NumEmpty(); }
    while at < |s|
      invariant skip <= at <= |s| && AllDigits(s[skip..at]) && Num(s[skip..at]) <= limit
      invariant sign * value == sgn * Num(s[skip..at])
      invariant sign == sgn ==> value == Num(s[skip..at]) && (sgn < 0 ==> value < 10 * UPPER)
      invariant sign != sgn ==> sgn < 0 && sign == 1 && value <= -10 * UPPER
    {
      if !IsDigit(s[at]) {
        ScanEnds(s, skip, at, limit, sgn, sgn < 0);
        return ExtraData(at, sign * value);
      }
      var d := DigitValue(s[at]);
      assert AllDigits(s[skip..at + 1]) && Num(s[skip..at + 1]) == 10 * Num(s[skip..at]) + d by {
        NumNext(s, skip, at);
      }
      if value < 0 {
        ScanStops(s, skip, at, limit, sgn, sgn < 0);
        return Overflow;
      }
      if value > UPPER || (value == UPPER && d > lastDigitMax) {
        ScanStops(s, skip, at, limit, sgn, sgn < 0);
        return RangeError(at);
      }
      if value < UPPER || sign > 0 {
        value := value * 10 + d;
      } else {
        sign := 1;
        value := -value * 10 - d;
      }
      assert FitsSigned(value);
      at := at + 1;
    }
    ScanEnds(s, skip, at, limit, sgn, sgn < 0);
    r := Okay(sign * value);
  }

  lemma {:induction false} NumNext(s: string, skip: nat, at: nat)
    requires skip <= at < |s| && AllDigits(s[skip..at]) && IsDigit(s[at])
    ensures AllDigits(s[skip..at + 1]) && Num(s[skip..at + 1]) == 10 * Num(s[skip..at]) + DigitValue(s[at])
  {
    assert s[skip..at + 1] == s[skip..at] + [s[at]];
    NumSnoc(s[skip..at], s[at]);
  }

  method StrtoumaxLim(s: string) returns (r: Scanned)
    ensures r == Strtoumax(s)
  {
    hide ScanDigits, Num;
    if s == [] || s[0] == '-' {
      return Invalid;
    }
    ghost var skip := SignLength(s);
    var at := 0;
    if s[0] == '+' {
      at := 1;
      if at >= |s| {
        return ExpectMore;
      }
    }
    var value := 0;
    var upper, last := (TWO64 - 1) / 10, (TWO64 - 1) % 10;
    assert s[skip..skip] == [] && Num([]) == 0 by { NumEmpty(); }
    while at < |s|
      invariant skip <= at <= |s| && AllDigits(s[skip..at]) && value == Num(s[skip..at]) < TWO64
    {
      if !IsDigit(s[at]) {
        ScanEnds(s, skip, at, TWO64 - 1, 1, false);
        return ExtraData(at, value);
      }
      var d := DigitValue(s[at]);
      NumNext(s, skip, at);
      if value > upper || (value == upper && d > last) {
        ScanStops(s, skip, at, TWO64 - 1, 1, false);
        return RangeError(at);
      }
      value := value * 10 + d;
      at := at + 1;
    }
    ScanEnds(s, skip, at, TWO64 - 1, 1, false);
    r := Okay(value);
  }

  /** A string of digits after an optional sign. */
  predicate Numeral(s: string) {
    SignLength(s) < |s| && AllDigits(s[SignLength(s)..])
  }

  function NumeralValue(s: string): int
    requires Numeral(s)
  {
    (if s[0] == '-' then -1 else 1) * Num(s[SignLength(s)..])
  }

  /** Exact on everything that fits: no numeral within range is refused or misread. */
  lemma {:induction false} StrtoimaxExact(s: string)
    requires Numeral(s) && FitsSigned(NumeralValue(s))
    ensures Strtoimax(s) == Okay(NumeralValue(s))
  {
    hide Num, ScanDigits;
    var skip := SignLength(s);
    assert s[skip..|s|] == s[skip..];
    ScanEnds(s, skip, |s|, if s[0] == '-' then TWO63 else TWO63 - 1, if s[0] == '-' then -1 else 1, s[0] == '-');
  }

  /** The unsigned scanner accepts a numeral exactly when it fits. */
  lemma {:induction false} StrtoumaxExact(s: string)
    requires Numeral(s) && s[0] != '-'
    ensures Strtoumax(s) == Okay(NumeralValue(s)) <==> NumeralValue(s) < TWO64
    ensures Strtoumax(s).RangeError? <==> NumeralValue(s) >= TWO64
  {
    hide Num, Exceeding;
    var ds := s[SignLength(s)..];
    assert ds[..|ds|] == ds;
    SpanIs(ds, |ds|);
    var e := Exceeding(ds, TWO64 - 1);
    if NumeralValue(s) < TWO64 {
      NoneExceeds(ds, TWO64 - 1);
    }
  }

  /** A text: a sign or none, digits or none, and what follows them. */
  ghost predicate Scannable(sign: string, ds: string, rest: string) {
    && (sign == "" || sign == "+" || sign == "-") && (forall i :: 0 <= i < |ds| ==> '0' <= ds[i] <= '9')
    && (rest != "" ==> !('0' <= rest[0] <= '9'))
    && (sign == "" && ds == "" && rest != "" ==> rest[0] != '+' && rest[0] != '-')
  }

  /** At the `k`-th digit the number goes beyond the limit. */
  ghost predicate Passes(ds: string, k: nat, limit: nat)
    requires AllDigits(ds)
  {
    k < |ds| && Num(ds[..k]) <= limit < Num(ds[..k + 1])
  }

  lemma {:induction false} Skipped(sign: string, ds: string, rest: string)
    requires Scannable(sign, ds, rest)
    ensures AllDigits(ds) && SignLength(sign + ds + rest) == |sign|
    ensures var s := sign + ds + rest;
            s[|sign|..|sign| + |ds|] == ds && (rest != "" ==> s[|sign| + |ds|] == rest[0] && !IsDigit(rest[0]))
  {
  }

  lemma {:induction false} TextFits(sign: string, ds: string, rest: string, limit: nat, factor: int, flips: bool)
    requires Scannable(sign, ds, rest) && AllDigits(ds) && Num(ds) <= limit
    ensures ScanDigits(sign + ds + rest, |sign|, limit, factor, flips)
            == if rest == "" then Okay(factor * Num(ds)) else ExtraData(|sign| + |ds|, factor * Num(ds))
  {
    hide Num, ScanDigits, Scannable, SignLength;
    Skipped(sign, ds, rest);
    ScanEnds(sign + ds + rest, |sign|, |sign| + |ds|, limit, factor, flips);
  }

  lemma {:induction false} TextPasses(sign: string, ds: string, rest: string, limit: nat, factor: int, flips: bool,
                                      k: nat)
    requires Scannable(sign, ds, rest) && AllDigits(ds) && Passes(ds, k, limit)
    ensures ScanDigits(sign + ds + rest, |sign|, limit, factor, flips)
            == if flips && Num(ds[..k]) >= 10 * UPPER then Overflow else RangeError(|sign| + k)
  {
    hide Num, ScanDigits, Scannable, SignLength;
    Skipped(sign, ds, rest);
    var s, skip := sign + ds + rest, |sign|;
    assert s[skip..skip + k] == s[skip..skip + |ds|][..k];
    assert s[skip + k] == ds[k];
    NumStep(ds, k);
    ScanStops(s, skip, skip + k, limit, factor, flips);
  }

  lemma {:induction false} TextScanned(sign: string, ds: string, rest: string, limit: nat, factor: int, flips: bool)
    requires Scannable(sign, ds, rest)
    ensures AllDigits(ds)
    ensures var r := ScanDigits(sign + ds + rest, |sign|, limit, factor, flips);
            && (Num(ds) <= limit ==>
                  r == if rest == "" then Okay(factor * Num(ds)) else ExtraData(|sign| + |ds|, factor * Num(ds)))
            && (forall k: nat :: Passes(ds, k, limit) ==>
                  r == if flips && Num(ds[..k]) >= 10 * UPPER then Overflow else RangeError(|sign| + k))
  {
    hide Num, ScanDigits, Passes;
    if Num(ds) <= limit {
      TextFits(sign, ds, rest, limit, factor, flips);
    }
    forall k: nat | Passes(ds, k, limit)
      ensures k < |ds|
      ensures ScanDigits(sign + ds + rest, |sign|, limit, factor, flips)
              == if flips && Num(ds[..k]) >= 10 * UPPER then Overflow else RangeError(|sign| + k)
    {
      PassesInside(ds, k, limit);
      TextPasses(sign, ds, rest, limit, factor, flips, k);
    }
  }

  lemma {:induction false} PassesInside(ds: string, k: nat, limit: nat)
    requires AllDigits(ds) && Passes(ds, k, limit)
    ensures k < |ds|
  {
  }

  /**
    The signed scanner on any text: the number and where it ends; the digit that takes it out of range; or the
    overflow, when the digits before that one reach 9223372036854775800 behind a minus sign.
   */
  lemma {:induction false} SignedReads(sign: string, ds: string, rest: string)
    requires Scannable(sign, ds, rest)
    ensures AllDigits(ds)
    ensures var r, n := Strtoimax(sign + ds + rest), (if sign == "-" then -1 else 1) * Num(ds);
            var limit := if sign == "-" then 0x8000_0000_0000_0000 else 0x7FFF_FFFF_FFFF_FFFF;
            if ds + rest == "" then r == if sign == "" then Invalid else ExpectMore
            else
              && (-0x8000_0000_0000_0000 <= n < 0x8000_0000_0000_0000 ==>
                    r == if rest == "" then Okay(n) else ExtraData(|sign| + |ds|, n))
              && (forall k: nat :: Passes(ds, k, limit) ==>
                    r == if sign == "-" && Num(ds[..k]) >= 9223372036854775800 then Overflow
                         else RangeError(|sign| + k))
  {
    hide Num, ScanDigits;
    var neg := sign == "-";
    TextScanned(sign, ds, rest, if neg then TWO63 else TWO63 - 1, if neg then -1 else 1, neg);
    var s := sign + ds + rest;
    assert s != [] ==> (s[0] == '-' <==> neg);
  }

  /** The unsigned scanner on any text. */
  lemma {:induction false} UnsignedReads(sign: string, ds: string, rest: string)
    requires Scannable(sign, ds, rest)
    ensures AllDigits(ds)
    ensures var r := Strtoumax(sign + ds + rest);
            if sign == "-" then r == Invalid
            else if ds + rest == "" then r == if sign == "" then Invalid else ExpectMore
            else
              && (Num(ds) < 0x1_0000_0000_0000_0000 ==>
                    r == if rest == "" then Okay(Num(ds)) else ExtraData(|sign| + |ds|, Num(ds)))
              && (forall k: nat :: Passes(ds, k, 0xFFFF_FFFF_FFFF_FFFF) ==> r == RangeError(|sign| + k))
  {
    hide Num, ScanDigits;
    TextScanned(sign, ds, rest, TWO64 - 1, 1, false);
    var s := sign + ds + rest;
    assert s != [] ==> (s[0] == '-' <==> sign == "-");
  }

  /** One of the two cases: the number fits, or some digit takes it beyond the limit. */
  lemma {:induction false} FitsOrPasses(ds: string, limit: nat)
    requires AllDigits(ds)
    ensures Num(ds) <= limit <==> !exists k: nat :: Passes(ds, k, limit)
  {
    hide Num;
    var e := Exceeding(ds, limit);
    assert ds[..|ds|] == ds;
    if e <= |ds| {
      assert Passes(ds, e - 1, limit);
    }
    if k: nat :| Passes(ds, k, limit) {
      NumPrefix(ds, k + 1, |ds|);
    }
  }

  /**
    Out of range, the signed scanner refuses unless the numeral is negative and some proper prefix of
    its digits already reaches 9223372036854775800 without passing 9223372036854775808.
   */
  lemma {:induction false} StrtoimaxBeyond(s: string)
    requires Numeral(s) && !FitsSigned(NumeralValue(s))
    ensures var ds := s[SignLength(s)..];
            var early := s[0] == '-' && exists k :: 0 <= k < |ds| && 10 * UPPER <= Num(ds[..k]) <= TWO63;
            && (Strtoimax(s).Overflow? <==> early) && (Strtoimax(s).RangeError? <==> !early)
  {
    hide Num, Exceeding;
    var ds := s[SignLength(s)..];
    var neg := s[0] == '-';
    var limit := if neg then TWO63 else TWO63 - 1;
    assert ds[..|ds|] == ds;
    SpanIs(ds, |ds|);
    var e := Exceeding(ds, limit);
    if neg {
      forall k | 0 <= k < |ds| && 10 * UPPER <= Num(ds[..k]) <= TWO63
        ensures 10 * UPPER <= Num(ds[..e - 1])
      {
        if k > e - 1 {
          NumPrefix(ds, e, k);
        } else {
          NumPrefix(ds, k, e - 1);
        }
      }
    }
  }

  /** The digits of 2^63 and one more, behind a minus sign. */
  const TOO_LOW: int := -92233720368547758080

  lemma {:induction false} OverflowExample()
    ensures Strtoimax(Print(TOO_LOW)).Overflow?
  {
    hide Digits, Strtoimax, Print;
    OverflowAfter(TWO63);
  }

  /** One more digit behind a number from which the scanner has already lost its way. */
  lemma {:induction false} OverflowAfter(m: nat)
    requires 10 * UPPER <= m <= TWO63
    ensures Strtoimax(Print(-10 * m)).Overflow?
  {
    hide Num, Digits, Strtoimax;
    var s, ds := Print(-10 * m), Digits(10 * m);
    ZeroBehind(m);
    NumDigits(10 * m);
    NumDigits(m);
    assert s[1..] == ds && s[0] == '-';
    var k := |Digits(m)|;
    assert ds[..k] == Digits(m);
    StrtoimaxBeyond(s);
  }

  lemma {:induction false} ZeroBehind(m: nat)
    requires m > 0
    ensures Digits(10 * m) == Digits(m) + "0"
  {
  }
}
