/**
  INTEGER values as two's-complement octet strings: conversion from and to 64-bit words, and
  the shortest form that DER demands (section 8.3.2 of X.690).
 */
module Integer {
  import opened Bits
  import opened Options

  const TWO63: nat := 0x8000_0000_0000_0000
  const TWO64: nat := 0x1_0000_0000_0000_0000

  predicate FitsSigned(v: int) {
    0 - TWO63 <= v < TWO63
  }

  /** Two's complement: the leading bit counts negatively.  The empty string is 0. */
  function SignedVal(b: seq<byte>): int {
    BigEndian(b) - (if b != [] && b[0] >= 0x80 then Pow2(8 * |b|) else 0)
  }

  /** The first nine bits are all equal, so the first octet says nothing. */
  predicate Superfluous(b: seq<byte>) {
    |b| >= 2 && ((b[0] == 0x00 && b[1] < 0x80) || (b[0] == 0xFF && b[1] >= 0x80))
  }

  /** Without superfluous leading octets. */
  function Strip(b: seq<byte>): (r: seq<byte>)
    ensures !Superfluous(r) && |r| <= |b| && (b != [] ==> r != [])
  {
    if Superfluous(b) then Strip(b[1..]) else b
  }

  ghost predicate Minimal(b: seq<byte>) {
    b != [] && !Superfluous(b)
  }

  /** The loop that looks for the first octet that matters, as it stands in three places of the source. */
  method SkipSuperfluous(b: seq<byte>) returns (at: nat)
    ensures at <= |b| && b[at..] == Strip(b)
  {
    at := 0;
    while at + 1 < |b|
      invariant at <= |b| && Strip(b[at..]) == Strip(b)
      decreases |b| - at
    {
      if b[at] == 0x00 && b[at + 1] < 0x80 {
      } else if b[at] == 0xFF && b[at + 1] >= 0x80 {
      } else {
        break;
      }
      assert b[at..][1..] == b[at + 1..];
      at := at + 1;
    }
  }

  // ---- Values ----

  lemma {:induction false} BigEndianBound(b: seq<byte>)
    ensures BigEndian(b) < Pow2(8 * |b|)
  {
    hide *;
    BytesToBitsVal(b);
    ValBound(BytesToBits(b));
  }

  lemma {:induction false} BigEndianFront(b: seq<byte>)
    requires b != []
    ensures BigEndian(b) == (b[0] as int) * Pow2(8 * |b| - 8) + BigEndian(b[1..])
  {
    hide *;
    var rest := b[1..];
    assert b == [b[0]] + rest;
    BytesToBitsConcat([b[0]], rest);
    ValConcat(BytesToBits([b[0]]), BytesToBits(rest));
    BytesToBitsVal(b);
    BytesToBitsVal(rest);
    BytesToBitsVal([b[0]]);
    OneOctet(b[0]);
  }

  lemma {:induction false} OneOctet(b: byte)
    ensures BigEndian([b]) == b
  {
    assert [b][..0] == [];
  }

  lemma {:induction false} SignedFront(b: seq<byte>)
    requires b != []
    ensures var s := if b[0] >= 0x80 then (b[0] as int) - 0x100 else b[0] as int;
            SignedVal(b) == s * Pow2(8 * |b| - 8) + BigEndian(b[1..])
  {
    hide BigEndian, Pow2;
    BigEndianFront(b);
    var p := Pow2(8 * |b| - 8);
    Pow2Add(8, 8 * |b| - 8);
    Pow2Values();
    assert ((b[0] as int) - 0x100) * p == (b[0] as int) * p - 0x100 * p;
  }

  /** Dropping a superfluous octet keeps the value. */
  lemma {:induction false} DropKeeps(b: seq<byte>)
    requires Superfluous(b)
    ensures SignedVal(b[1..]) == SignedVal(b)
  {
    hide BigEndian, Pow2;
    SignedFront(b);
  }

  lemma {:induction false} StripKeeps(b: seq<byte>)
    ensures SignedVal(Strip(b)) == SignedVal(b)
  {
    hide SignedVal;
    if Superfluous(b) {
      DropKeeps(b);
      StripKeeps(b[1..]);
    }
  }

  lemma {:induction false} SignedRange(b: seq<byte>)
    requires b != []
    ensures 0 - Pow2(8 * |b| - 1) <= SignedVal(b) < Pow2(8 * |b| - 1)
  {
    hide BigEndian, Pow2, SignedVal;
    SignedFront(b);
    BigEndianBound(b[1..]);
    var p := Pow2(8 * |b| - 8);
    Pow2Add(7, 8 * |b| - 8);
    assert Pow2(7) == 0x80 by { Pow2Small(); Pow2Add(3, 4); }
    var s := if b[0] >= 0x80 then (b[0] as int) - 0x100 else b[0] as int;
    MulMono(-0x80, s, p);
    MulMono(s, 0x7F, p);
  }

  // ---- The shortest form is unique ----

  lemma {:induction false} Pow2Seven(n: nat)
    ensures Pow2(7 + n) == 0x80 * Pow2(n) && Pow2(8 + n) == 0x100 * Pow2(n)
  {
    hide *;
    Pow2Small();
    Pow2Add(3, 4);
    Pow2Values();
    Pow2Add(7, n);
    Pow2Add(8, n);
  }

  /** The octets after the first, bounded by the sign bit of the second. */
  lemma {:induction false} SecondOctet(b: seq<byte>)
    requires |b| >= 2
    ensures b[1] >= 0x80 <==> BigEndian(b[1..]) >= Pow2(8 * |b| - 9)
  {
    hide *;
    var t := b[1..];
    var p := Pow2(8 * |b| - 16);
    BigEndianFront(t);
    BigEndianBound(t[1..]);
    Pow2Seven(8 * |b| - 16);
    if b[1] >= 0x80 {
      MulMono(0x80, t[0], p);
    } else {
      MulMono(t[0], 0x7F, p);
    }
  }

  /** A form that has no superfluous octet is out of reach of every shorter form. */
  lemma {:induction false} MinimalRange(b: seq<byte>)
    requires Minimal(b) && |b| >= 2
    ensures SignedVal(b) >= Pow2(8 * |b| - 9) || SignedVal(b) < 0 - Pow2(8 * |b| - 9)
  {
    hide BigEndian, Pow2, SignedVal;
    SignedFront(b);
    SecondOctet(b);
    BigEndianBound(b[1..]);
    var p := Pow2(8 * |b| - 8);
    Pow2Succ(8 * |b| - 9);
    if 0 < b[0] < 0x80 {
      MulMono(1, b[0], p);
    } else if 0x80 <= b[0] < 0xFF {
      MulMono((b[0] as int) - 0x100, 0 - 2, p);
    }
  }

  /** Section 8.3.2 of X.690: no form of the same value is shorter. */
  lemma {:induction false} MinimalShortest(a: seq<byte>, b: seq<byte>)
    requires Minimal(a) && b != [] && SignedVal(a) == SignedVal(b)
    ensures |a| <= |b|
  {
    hide BigEndian, Pow2, SignedVal;
    if |a| > |b| {
      MinimalRange(a);
      SignedRange(b);
      Pow2Mono(8 * |b| - 1, 8 * |a| - 9);
      assert false;
    }
  }

  lemma {:induction false} SameLength(a: seq<byte>, b: seq<byte>)
    requires |a| == |b| && a != [] && SignedVal(a) == SignedVal(b)
    ensures a == b
  {
    hide BigEndian, Pow2;
    BigEndianBound(a);
    BigEndianBound(b);
    assert BigEndian(a) == BigEndian(b);
    BytesToBitsVal(a);
    BytesToBitsVal(b);
    ValInjective(BytesToBits(a), BytesToBits(b));
    BytesToBitsInjective(a, b);
  }

  lemma {:induction false} MinimalUnique(a: seq<byte>, b: seq<byte>)
    requires Minimal(a) && Minimal(b) && SignedVal(a) == SignedVal(b)
    ensures a == b
  {
    hide SignedVal, Superfluous;
    MinimalShortest(a, b);
    MinimalShortest(b, a);
    SameLength(a, b);
  }

  // ---- To an octet string ----

  /** The 64-bit word that holds `v`. */
  function Word(v: int): (w: nat)
    requires FitsSigned(v)
    ensures w < TWO64
  {
    if v < 0 then TWO64 + v else v
  }

  /** The signed reading of a 64-bit word. */
  function Signed(w: nat): (v: int)
    requires w < TWO64
    ensures FitsSigned(v) && Word(v) == w
  {
    if w >= TWO63 then w - TWO64 else w
  }

  lemma {:induction false} BigEndianOctets(v: nat, k: nat)
    ensures BigEndian(Octets(v, k)) == v % Pow2(8 * k)
  {
    hide *;
    OctetsBits(v, k);
    BytesToBitsVal(Octets(v, k));
    ValToBits(v, 8 * k);
  }

  lemma {:induction false} WordOctets(v: int)
    requires FitsSigned(v)
    ensures SignedVal(Octets(Word(v), 8)) == v
  {
    hide Octets, BigEndian, Pow2;
    var b := Octets(Word(v), 8);
    BigEndianOctets(Word(v), 8);
    Pow2Wide();
    SignedRange(b);
  }

  /** The octets a native integer is turned into before it is encoded. */
  function Contents(v: int): seq<byte>
    requires FitsSigned(v)
  {
    Strip(Octets(Word(v), 8))
  }

  lemma {:induction false} ContentsBack(v: int)
    requires FitsSigned(v)
    ensures Contents(v) != [] && SignedVal(Contents(v)) == v
  {
    hide Octets, SignedVal, Word;
    WordOctets(v);
    StripKeeps(Octets(Word(v), 8));
  }

  lemma {:induction false} ContentsMinimal(v: int)
    requires FitsSigned(v)
    ensures Minimal(Contents(v))
  {
    hide Octets;
  }

  /** The eight octets of the word, most significant first, from the first that matters. */
  method Imax2Integer(v: int) returns (b: seq<byte>)
    requires FitsSigned(v)
    ensures Minimal(b) && SignedVal(b) == v && |b| <= 8
  {
    hide Octets, SignedVal, Superfluous;
    var word := Octets(Word(v), 8);
    var p := SkipSuperfluous(word);
    b := [];
    ghost var from := p;
    while p < 8
      invariant from <= p <= 8 && b == word[from..p]
    {
      b := b + [word[p]];
      p := p + 1;
    }
    assert b == word[from..];
    WordOctets(v);
    StripKeeps(word);
  }

  method Umax2Integer(v: nat) returns (b: seq<byte>)
    requires v < TWO64
    ensures Minimal(b) && SignedVal(b) == v
  {
    hide Octets, Shr, SignedVal;
    if v < TWO63 {
      b := Imax2Integer(v);
      return;
    }
    b := [0];
    var shr := 56;
    NoneYet(Shr(v, 64));
    while |b| < 9
      invariant 1 <= |b| <= 9 && shr == 64 - 8 * |b| && b == [0] + Octets(Shr(v, 72 - 8 * |b|), |b| - 1)
    {
      OctetsStep(v, shr, |b|);
      b := b + [Shr(v, shr) % 256];
      shr := shr - 8;
    }
    NoneYet(v);
    LargeUnsigned(v);
  }

  lemma {:induction false} OctetsStep(v: nat, shr: nat, k: nat)
    requires k >= 1
    ensures Octets(Shr(v, shr), k) == Octets(Shr(v, shr + 8), k - 1) + [Shr(v, shr) % 256]
  {
    hide Shr, Pow2;
    ShrIsDiv(v, shr);
    ShrIsDiv(v, shr + 8);
    DivDiv(v, Pow2(shr), 256);
    Pow2Seven(shr);
  }

  lemma {:induction false} DivDiv(v: nat, p: nat, q: nat)
    requires p > 0 && q > 0
    ensures p * q > 0 && v / p / q == v / (p * q)
  {
    hide *;
    var h, m, l := v / p / q, v / p % q, v % p;
    assert v == (h * q + m) * p + l;
    assert (h * q + m) * p == h * (p * q) + m * p;
    assert m * p + p <= p * q by {
      MulMono(m + 1, q, p);
      assert (m + 1) * p == m * p + p;
    }
    MulMono(0, m, p);
    DivModUnique(h, m * p + l, p * q, v);
  }

  lemma {:induction false} LargeUnsigned(v: nat)
    requires TWO63 <= v < TWO64
    ensures var b := [0] + Octets(v, 8); Minimal(b) && SignedVal(b) == v
  {
    hide Octets, BigEndian, Pow2, SignedVal;
    var b := [0] + Octets(v, 8);
    assert b[1..] == Octets(v, 8);
    BigEndianOctets(v, 8);
    Pow2Wide();
    SignedFront(b);
    SecondOctet(b);
  }

  /** The unsigned conversion that goes through the signed one: right exactly below 2^63. */
  method Ulong2Integer(v: nat) returns (b: seq<byte>)
    requires v < TWO64
    ensures Minimal(b)
    ensures SignedVal(b) == v <==> v < TWO63
    ensures v >= TWO63 ==> SignedVal(b) == v - TWO64
  {
    b := Imax2Integer(Signed(v));
  }

  // ---- Back to a word ----

  /** The value of the first `i` octets when the sign of the first octet extends to the left. */
  ghost function Extended(b: seq<byte>, i: nat): int
    requires b != [] && i <= |b|
  {
    BigEndian(b[..i]) - (if b[0] >= 0x80 then Pow2(8 * i) else 0)
  }

  lemma {:induction false} ExtendedStep(b: seq<byte>, i: nat)
    requires i < |b|
    ensures Extended(b, i + 1) == 256 * Extended(b, i) + b[i]
  {
    hide Pow2;
    assert b[..i + 1][..i] == b[..i];
    Pow2Seven(8 * i);
  }

  /** Shifting a word left and putting an octet in is the same on the number the word stands for. */
  lemma {:induction false} ShiftIn(x: int, c: byte)
    ensures 256 * (x % TWO64) % TWO64 + c == (256 * x + c) % TWO64
  {
    var q, r := x / TWO64, x % TWO64;
    var h, l := r / (TWO64 / 256), r % (TWO64 / 256);
    assert x == q * TWO64 + r;
    DivModUnique(h, 256 * l, TWO64, 256 * r);
    DivModUnique(256 * q + h, 256 * l + c, TWO64, 256 * x + c);
  }

  method Convert(b: seq<byte>) returns (v: int)
    requires 1 <= |b| <= 8
    ensures v == SignedVal(b)
  {
    hide BigEndian, Pow2, SignedVal;
    var value: nat := if b[0] >= 0x80 then TWO64 - 1 else 0;
    var i := 0;
    ExtendedStart(b);
    while i < |b|
      invariant i <= |b| && value < TWO64 && value == Extended(b, i) % TWO64
    {
      ExtendedStep(b, i);
      ShiftIn(Extended(b, i), b[i]);
      value := value * 256 % TWO64 + b[i];
      i := i + 1;
    }
    SmallFits(b);
    assert Extended(b, |b|) == SignedVal(b) by { WholeExtended(b); }
    v := Signed(value);
    assert SignedVal(b) % TWO64 == Word(SignedVal(b));
  }

  lemma {:induction false} ExtendedStart(b: seq<byte>)
    requires b != []
    ensures (if b[0] >= 0x80 then TWO64 - 1 else 0) == Extended(b, 0) % TWO64
  {
    assert BigEndian(b[..0]) == 0;
    assert Pow2(8 * 0) == 1;
  }

  lemma {:induction false} WholeExtended(b: seq<byte>)
    requires b != []
    ensures Extended(b, |b|) == SignedVal(b)
  {
    hide BigEndian, Pow2;
    assert b[..|b|] == b;
  }

  lemma {:induction false} SmallFits(b: seq<byte>)
    requires 1 <= |b| <= 8
    ensures FitsSigned(SignedVal(b))
  {
    hide Pow2, SignedVal;
    SignedRange(b);
    Pow2Mono(8 * |b| - 1, 63);
    Pow2Wide();
  }

  lemma {:induction false} LargeDoesNotFit(b: seq<byte>)
    requires Minimal(b) && |b| > 8
    ensures !FitsSigned(SignedVal(b))
  {
    hide Pow2, SignedVal, Superfluous;
    MinimalRange(b);
    Pow2Mono(63, 8 * |b| - 9);
    Pow2Wide();
  }

  /** Succeeds exactly when the value fits a signed 64-bit word, whatever the buffer's size. */
  method Integer2Imax(b: seq<byte>) returns (r: Option<int>)
    ensures r == if FitsSigned(SignedVal(b)) then Some(SignedVal(b)) else None
  {
    hide SignedVal, Superfluous, Strip, FitsSigned;
    var c := b;
    if |b| > 8 {
      var at := SkipSuperfluous(b);
      c := b[at..];
      StripKeeps(b);
      if |c| > 8 {
        LargeDoesNotFit(c);
        return None;
      }
    }
    if c == [] {
      EmptyIsZero();
      return Some(0);
    }
    SmallFits(c);
    var v := Convert(c);
    r := Some(v);
  }

  lemma {:induction false} EmptyIsZero()
    ensures SignedVal([]) == 0 && FitsSigned(0)
  {
  }

  lemma {:induction false} BigEndianStep(b: seq<byte>, i: nat)
    requires i < |b|
    ensures BigEndian(b[..i + 1]) == 256 * BigEndian(b[..i]) + b[i]
  {
    assert b[..i + 1][..i] == b[..i];
  }

  lemma {:induction false} LeadingOctet(b: seq<byte>)
    requires b != []
    ensures b[0] == 0 ==> BigEndian(b) == BigEndian(b[1..])
    ensures b[0] != 0 && |b| > 8 ==> BigEndian(b) >= TWO64
  {
    hide BigEndian, Pow2;
    BigEndianFront(b);
    var p := Pow2(8 * |b| - 8);
    if b[0] != 0 {
      MulMono(1, b[0], p);
      if |b| > 8 {
        Pow2Mono(64, 8 * |b| - 8);
        Pow2Wide();
      }
    }
  }

  lemma {:induction false} PrefixFits(b: seq<byte>, i: nat)
    requires i < |b| <= 8
    ensures BigEndian(b[..i]) < TWO64 / 256 && BigEndian(b) < TWO64
  {
    hide BigEndian, Pow2;
    BigEndianBound(b[..i]);
    Pow2Mono(8 * i, 56);
    BigEndianBound(b);
    Pow2Mono(8 * |b|, 64);
    Pow2Wide();
    Pow2Seven(56);
  }

  /** Succeeds exactly when the octets, read without a sign, fit an unsigned 64-bit word. */
  method Integer2Umax(b: seq<byte>) returns (r: Option<nat>)
    ensures r == if BigEndian(b) < TWO64 then Some(BigEndian(b)) else None
  {
    hide BigEndian;
    var at := 0;
    while |b| - at > 8
      invariant 0 <= at <= |b| && BigEndian(b[at..]) == BigEndian(b)
    {
      LeadingOctet(b[at..]);
      if b[at] != 0 {
        return None;
      }
      assert b[at..][1..] == b[at + 1..];
      at := at + 1;
    }
    var c := b[at..];
    var value, i := 0, 0;
    assert BigEndian(c[..0]) == 0 by { NoDigits(c); }
    while i < |c|
      invariant 0 <= i <= |c| && value == BigEndian(c[..i])
    {
      PrefixFits(c, i);
      BigEndianStep(c, i);
      value := value * 256 % TWO64 + c[i];
      i := i + 1;
    }
    assert c[..|c|] == c;
    assert BigEndian(c) < TWO64 by { AllFit(c); }
    r := Some(value);
  }

  lemma {:induction false} NoDigits(b: seq<byte>)
    ensures BigEndian(b[..0]) == 0
  {
  }

  lemma {:induction false} AllFit(b: seq<byte>)
    requires |b| <= 8
    ensures BigEndian(b) < TWO64
  {
    hide BigEndian, Pow2;
    BigEndianBound(b);
    Pow2Mono(8 * |b|, 64);
    Pow2Wide();
  }

  // ---- DER contents ----

  /** The contents octets DER writes for an INTEGER that is kept as an octet string. */
  method EncodeDer(b: seq<byte>) returns (contents: seq<byte>)
    ensures SignedVal(contents) == SignedVal(b) && !Superfluous(contents)
    ensures b == [] <==> contents == []
    ensures Minimal(b) ==> contents == b
  {
    hide SignedVal;
    var shift := SkipSuperfluous(b);
    StripKeeps(b);
    contents := b[shift..];
  }

  /** The contents octets DER writes for an INTEGER that is kept as a native word. */
  method EncodeNativeDer(v: int) returns (contents: seq<byte>)
    requires FitsSigned(v)
    ensures Minimal(contents) && SignedVal(contents) == v
  {
    hide SignedVal, Superfluous;
    var buf := FillWord(Word(v));
    WordOctets(v);
    contents := EncodeDer(buf[..]);
  }

  /** The eight octets of a word, stored from the last to the first. */
  method FillWord(w: nat) returns (buf: array<byte>)
    ensures fresh(buf) && buf[..] == Octets(w, 8)
  {
    hide *;
    buf := new byte[8];
    var native, p := w, 8;
    NoneYet(w);
    while p > 0
      invariant 0 <= p <= 8
      invariant native == Shr(w, 64 - 8 * p)
      invariant buf[p..] == Octets(w, 8 - p)
    {
      p := p - 1;
      OctetsGrow(w, 7 - p);
      native := StoreLow(buf, p, native);
    }
    assert buf[..] == buf[0..];
  }

  method StoreLow(buf: array<byte>, p: nat, native: nat) returns (rest: nat)
    requires p < buf.Length
    modifies buf
    ensures rest == native / 256 && buf[p..] == [native % 256] + old(buf[p + 1..])
  {
    buf[p] := native % 256;
    rest := native / 256;
  }

  /** One more octet on the left. */
  lemma {:induction false} OctetsGrow(v: nat, k: nat)
    ensures Octets(v, k + 1) == [Shr(v, 8 * k) % 256] + Octets(v, k)
    ensures Shr(v, 8 * k) / 256 == Shr(v, 8 * (k + 1))
  {
    hide Shr, Pow2;
    if k > 0 {
      OctetsGrow(v / 256, k - 1);
      ShrOctet(v, k);
      ShrOctet(v, k + 1);
    } else {
      ShrZeroOne(v);
    }
  }

  lemma {:induction false} ShrOctet(v: nat, k: nat)
    requires k >= 1
    ensures Shr(v, 8 * k) == Shr(v / 256, 8 * (k - 1))
  {
    hide *;
    ShrIsDiv(v, 8 * k);
    ShrIsDiv(v / 256, 8 * (k - 1));
    DivDiv(v, 256, Pow2(8 * (k - 1)));
    Pow2Seven(8 * (k - 1));
  }

  lemma {:induction false} ShrZeroOne(v: nat)
    ensures Shr(v, 0) == v && Shr(v, 8) == v / 256
  {
    hide Pow2;
    ShrIsDiv(v, 8);
    Pow2Values();
  }

  lemma {:induction false} NoneYet(v: nat)
    ensures Octets(v, 0) == [] && Shr(v, 0) == v
  {
  }

  /** Both representations of a value that fits a word have the same DER contents. */
  method NativeAgrees(b: seq<byte>, v: int) returns (same: bool)
    requires FitsSigned(v) && b != []
    ensures same <==> SignedVal(b) == v
  {
    hide SignedVal, Superfluous;
    var x := EncodeDer(b);
    var y := EncodeNativeDer(v);
    if SignedVal(b) == v {
      MinimalUnique(x, y);
    }
    same := x == y;
  }
}
