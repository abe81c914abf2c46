/**
  INTEGER in aligned PER.  The range decides between four forms: a plain bit field, one
  octet, two octets, or a length and as many octets as the number needs, the last three on
  octet boundaries.  `p` is the number of bits before the field, which alignment depends on.
 */
module IntegerAper {
  import opened Bits
  import opened Options
  import opened Integer
  import opened BitOutput
  import opened BitInput
  import opened PerSupport
  import opened Uper
  import opened IntegerUper
  import UperRoundTrip

  /** A 64-bit signed result, wrapped around. */
  function Wrap(x: int): (v: int)
    ensures FitsSigned(v) && (FitsSigned(x) ==> v == x)
  {
    Signed(x % TWO64)
  }

  /** The number of the highest octet that is not zero. */
  function High(u: nat): nat {
    if u < 0x100 then 0 else 1 + High(u / 0x100)
  }

  /** The bits that hold an octet count: the fewest, but at least one, with which 0 to n - 1 can be told apart. */
  function Width(n: nat): nat
    requires n <= 8
  {
    if n <= 2 then 1 else if n <= 4 then 2 else 3
  }

  function EncField(rangeBits: nat, u: nat, p: nat): seq<bool>
    requires rangeBits <= 64
  {
    if rangeBits < 8 then ToBits(u, rangeBits)
    else if rangeBits == 8 then Zeros(Padding(p)) + ToBits(u, 8)
    else if rangeBits <= 16 then Zeros(Padding(p)) + ToBits(u, 16)
    else
      var i := Width((rangeBits + 7) / 8);
      ToBits(High(u), i) + Zeros(Padding(p + i)) + BytesToBits(Octets(u, High(u) + 1))
  }

  function DecField(rangeBits: nat, s: seq<bool>, p: nat): Got<nat>
    requires rangeBits <= 64
  {
    if rangeBits < 8 then Take(s, rangeBits)
    else if rangeBits <= 16 then
      var pad := Take(s, Padding(p));
      if !pad.Ok? then Failed else Take(pad.rest, if rangeBits == 8 then 8 else 16)
    else
      var i := Width((rangeBits + 7) / 8);
      var length := Take(s, i);
      if !length.Ok? then Failed
      else
        var pad := Take(length.rest, Padding(p + i));
        if !pad.Ok? || pad.value != 0 then Failed
        else
          var u := Take(pad.rest, 8 * (length.value + 1));
          if u.Ok? then u else Failed
  }

  /** Octets behind length determinants as aligned PER puts them: no end mark after a last full fragment. */
  function PutUnended(b: seq<byte>): seq<bool>
    decreases |b|
  {
    if b == [] then []
    else
      var k := Covered(|b|);
      LengthBits(|b|) + BytesToBits(b[..k]) + PutUnended(b[k..])
  }

  function EncAper(ct: Constraint, b: seq<byte>, p: nat): Encoded {
    if b == [] then Refused
    else if ct == Unconstrained(false) then Bits(Zeros(Padding(p)) + PutUnended(b))
    else if !FitsSigned(SignedVal(b)) then Refused
    else if ct.Unconstrained? then Bits(Zeros(Padding(p)) + PutUnended(b))
    else if ct.rangeBits > 64 then Refused
    else
      var v := SignedVal(b);
      var inext := v < ct.lb || v > ct.ub;
      if inext && !ct.extensible then Refused
      else
        var mark := if ct.extensible then [inext] else [];
        Bits(mark + if inext then Zeros(Padding(p + |mark|)) + PutUnended(b)
                    else EncField(ct.rangeBits, v - ct.lb, p + |mark|))
  }

  function DecAligned(s: seq<bool>, p: nat): Got<seq<byte>> {
    var pad := Take(s, Padding(p));
    if !pad.Ok? then Starved else GetOctets(pad.rest)
  }

  function DecAper(ct: Constraint, s: seq<bool>, p: nat): Got<seq<byte>> {
    if ct.Unconstrained? then DecAligned(s, p)
    else if ct.extensible && s == [] then Starved
    else if ct.extensible && s[0] then DecAligned(s[1..], p + 1)
    else if ct.rangeBits > 64 then Failed
    else
      var u := if ct.extensible then DecField(ct.rangeBits, s[1..], p + 1) else DecField(ct.rangeBits, s, p);
      if u.Ok? then Ok(Contents(Wrap(Wrap(u.value) + ct.lb)), u.rest) else Failure(u)
  }

  // ---- Octet counts ----

  /** What the highest octet means: that many octets and no fewer hold the number. */
  lemma {:induction false} HighBounds(u: nat)
    ensures u < Pow2(8 * (High(u) + 1))
    ensures High(u) > 0 ==> u >= Pow2(8 * High(u))
  {
    hide Pow2;
    Pow2Values();
    if u >= 0x100 {
      HighBounds(u / 0x100);
      Pow2Add(8, 8 * High(u));
      if High(u) > 1 {
        Pow2Add(8, 8 * (High(u) - 1));
      }
    }
  }

  lemma {:induction false} HighBelow(u: nat, k: nat)
    requires k >= 1 && u < Pow2(8 * k)
    ensures High(u) < k
  {
    hide Pow2, High;
    if High(u) >= k {
      HighBounds(u);
      Pow2Mono(8 * k, 8 * High(u));
    }
  }

  /** The octet count of every number in the range fits the bits set aside for it. */
  lemma {:induction false} CountFits(rangeBits: nat, u: nat)
    requires 16 < rangeBits <= 64 && u < Pow2(rangeBits)
    ensures High(u) < Pow2(Width((rangeBits + 7) / 8)) && High(u) < 8
  {
    hide Pow2, High;
    var n := (rangeBits + 7) / 8;
    Pow2Mono(rangeBits, 8 * n);
    HighBelow(u, n);
    Pow2Small();
  }

  // ---- Round trips ----

  lemma {:induction false} PadBack(n: nat, rest: seq<bool>)
    ensures Take(Zeros(n) + rest, n) == Ok(0, rest)
  {
    hide Val;
    assert (Zeros(n) + rest)[..n] == Zeros(n);
    ZerosVal(n);
  }

  lemma {:induction false} OctetsBack(u: nat, rest: seq<bool>)
    ensures Take(BytesToBits(Octets(u, High(u) + 1)) + rest, 8 * (High(u) + 1)) == Ok(u, rest)
  {
    hide BytesToBits, Octets, High, ToBits, Take;
    OctetsBits(u, High(u) + 1);
    HighBounds(u);
    TakeBack(u, 8 * (High(u) + 1), rest);
  }

  lemma {:induction false} LongFieldBack(rangeBits: nat, u: nat, p: nat, rest: seq<bool>)
    requires 16 < rangeBits <= 64 && u < Pow2(rangeBits)
    ensures DecField(rangeBits, EncField(rangeBits, u, p) + rest, p) == Ok(u, rest)
  {
    hide BytesToBits, Octets, High, ToBits, Take, Zeros, Pow2, Width, Padding;
    var i := Width((rangeBits + 7) / 8);
    var octets := BytesToBits(Octets(u, High(u) + 1));
    var pad := Zeros(Padding(p + i));
    CountFits(rangeBits, u);
    Associate(ToBits(High(u), i) + pad, octets, rest);
    Associate(ToBits(High(u), i), pad, octets + rest);
    TakeBack(High(u), i, pad + (octets + rest));
    PadBack(Padding(p + i), octets + rest);
    OctetsBack(u, rest);
  }

  lemma {:induction false} FieldBack(rangeBits: nat, u: nat, p: nat, rest: seq<bool>)
    requires rangeBits <= 64 && u < Pow2(rangeBits)
    ensures DecField(rangeBits, EncField(rangeBits, u, p) + rest, p) == Ok(u, rest)
  {
    hide ToBits, Take, Zeros, Pow2, Padding;
    if rangeBits > 16 {
      LongFieldBack(rangeBits, u, p, rest);
    } else {
      var n := if rangeBits <= 8 then rangeBits else 16;
      Pow2Mono(rangeBits, n);
      TakeBack(u, n, rest);
      Associate(Zeros(Padding(p)), ToBits(u, n), rest);
      PadBack(Padding(p), ToBits(u, n) + rest);
    }
  }

  /** After a last full fragment the reader takes what follows for another one. */
  lemma {:induction false} UnendedBack(b: seq<byte>, rest: seq<bool>)
    requires b != []
    ensures GetOctets(PutUnended(b) + rest)
         == if |b| % FRAGMENT != 0 then Ok(b, rest) else Prepend(b, GetOctets(rest))
    decreases |b|
  {
    hide GetOctets, GetLength, LengthBits, BytesToBits, FromBits, Prepend, PutUnended;
    var k := Covered(|b|);
    var tail := PutUnended(b[k..]);
    UnendedStep(b, rest);
    if |b| >= FRAGMENT && k < |b| {
      UnendedBack(b[k..], rest);
      MoreFragments(b, k, rest);
    } else {
      assert b[..k] == b && tail + rest == rest by { EmptyTail(b[k..], rest); }
    }
  }

  lemma {:induction false} EmptyTail(none: seq<byte>, rest: seq<bool>)
    requires none == []
    ensures PutUnended(none) + rest == rest
  {
  }

  /** Reading the first determinant and its octets. */
  lemma {:induction false} UnendedStep(b: seq<byte>, rest: seq<bool>)
    requires b != []
    ensures var k := Covered(|b|); var tail := PutUnended(b[k..]) + rest;
            GetOctets(PutUnended(b) + rest)
            == if |b| < FRAGMENT then Ok(b[..k], tail) else Prepend(b[..k], GetOctets(tail))
  {
    hide GetOctets, GetLength, LengthBits, BytesToBits, FromBits, Covered;
    var k := Covered(|b|);
    var tail := PutUnended(b[k..]) + rest;
    var s := PutUnended(b) + rest;
    Associate(LengthBits(|b|) + BytesToBits(b[..k]), PutUnended(b[k..]), rest);
    FragmentBack(|b|, b[..k], tail);
    GetStep([], s, k, |b| >= FRAGMENT, BytesToBits(b[..k]) + tail);
    PrependNothing(GetOctets(s));
    assert [] + b[..k] == b[..k];
  }

  lemma {:induction false} MoreFragments(b: seq<byte>, k: nat, rest: seq<bool>)
    requires |b| >= FRAGMENT && k == Covered(|b|)
    ensures (|b| - k) % FRAGMENT == |b| % FRAGMENT
    ensures Prepend(b[..k], Ok(b[k..], rest)) == Ok(b, rest)
    ensures Prepend(b[..k], Prepend(b[k..], GetOctets(rest))) == Prepend(b, GetOctets(rest))
  {
    hide GetOctets, Covered;
    SameRemainder(|b|, k);
    assert b[..k] + b[k..] == b;
    if GetOctets(rest).Ok? {
      assert b[..k] + (b[k..] + GetOctets(rest).value) == b + GetOctets(rest).value;
    }
  }

  lemma {:induction false} SameRemainder(n: nat, k: nat)
    requires k <= n && k % FRAGMENT == 0
    ensures (n - k) % FRAGMENT == n % FRAGMENT
  {
    DivModUnique(n / FRAGMENT - k / FRAGMENT, n % FRAGMENT, FRAGMENT, n - k);
  }

  /** Unconstrained octets come back exactly when their number is not a multiple of 16384. */
  lemma {:induction false} UnendedRoundTrip(b: seq<byte>, rest: seq<bool>)
    requires b != []
    ensures GetOctets(PutUnended(b) + rest) == Ok(b, rest) <==> |b| % FRAGMENT != 0
  {
    hide GetOctets, PutUnended;
    UnendedBack(b, rest);
  }

  /** Decoding undoes encoding, at every bit position and across all four forms. */
  lemma {:induction false} AperRoundTrip(ct: Constraint, b: seq<byte>, p: nat, rest: seq<bool>)
    requires ct.Range? && WellFormed(Number(ct)) && b != [] && ct.lb <= SignedVal(b) <= ct.ub
    ensures EncAper(ct, b, p).Bits?
    ensures DecAper(ct, EncAper(ct, b, p).bits + rest, p) == Ok(Contents(SignedVal(b)), rest)
  {
    hide SignedVal, Pow2, EncField, DecField, Contents, PutUnended, Wrap;
    var v := SignedVal(b);
    WrapSum(v - ct.lb, ct.lb);
    var q := if ct.extensible then p + 1 else p;
    var field := EncField(ct.rangeBits, v - ct.lb, q);
    FieldBack(ct.rangeBits, v - ct.lb, q, rest);
    if ct.extensible {
      UperRoundTrip.FrontBit(false, field, rest);
    } else {
      assert [] + field == field;
    }
  }

  /** Outside the root of an extensible range, and without a range, the octets themselves come back or do not. */
  lemma {:induction false} AperWhole(ct: Constraint, b: seq<byte>, p: nat, rest: seq<bool>)
    requires EncAper(ct, b, p).Bits? && (ct.Unconstrained? || !(ct.lb <= SignedVal(b) <= ct.ub))
    ensures DecAper(ct, EncAper(ct, b, p).bits + rest, p) == Ok(b, rest) <==> |b| % FRAGMENT != 0
  {
    hide SignedVal, PutUnended, GetOctets, Take, Zeros, Padding, FitsSigned;
    var q := if ct.Range? then p + 1 else p;
    var octets := PutUnended(b);
    Associate(Zeros(Padding(q)), octets, rest);
    PadBack(Padding(q), octets + rest);
    UnendedRoundTrip(b, rest);
    if ct.Range? {
      UperRoundTrip.FrontBit(true, Zeros(Padding(q)) + octets, rest);
    }
  }

  // ---- The encoder ----

  /** aper_put_align. */
  method PutAlign(po: BitWriter) returns (rc: int)
    requires po.Valid()
    modifies po, po.tmpspace
    ensures po.Valid()
    ensures rc == 0 ==> po.Written() == old(po.Written()) + Zeros(Padding(|old(po.Written())|))
    ensures rc != 0 ==> rc == -1 && po.refused
    ensures old(po.answers) == [] ==> po.answers == [] && rc == 0
  {
    hide ToBits, BytesToBits, Zeros;
    ghost var n := |po.Written()|;
    Fractions(po.flushedBytes + po.buffer, po.nboff);
    if po.nboff % 8 != 0 {
      ToBitsZero(8 - po.nboff % 8);
      rc := Put(po, 0, 8 - po.nboff % 8);
    } else {
      assert po.Written() + Zeros(0) == po.Written();
      rc := 0;
    }
  }

  lemma {:induction false} Fractions(octets: nat, n: nat)
    ensures Padding(8 * octets + n) == if n % 8 == 0 then 0 else 8 - n % 8
  {
    SameInOctet(octets, n);
  }

  /** The loops that find the octet count and the bits that hold it. */
  method CountWidth(rangeBits: nat) returns (i: nat)
    requires 16 < rangeBits <= 64
    ensures i == Width((rangeBits + 7) / 8)
  {
    var max := rangeBits / 8 + if rangeBits % 8 > 0 then 1 else 0;
    i := 1;
    var upper := 2;
    while upper < max
      invariant 1 <= i <= 3 && (i == 1 ==> upper == 2)
      invariant (i == 2 ==> upper == 4 && max > 2) && (i == 3 ==> upper == 8 && max > 4)
      decreases 4 - i
    {
      i := i + 1;
      upper := upper * 2;
    }
  }

  /** An arithmetic shift to the right. */
  function Asr(v: int, n: nat): int {
    v / Pow2(n)
  }

  /** A number with its highest bit set becomes negative, and its octets stay what they were. */
  lemma {:induction false} AsrOctet(u: nat, n: nat)
    requires u < TWO64 && n <= 56
    ensures Asr(Signed(u), n) % 0x100 == Shr(u, n) % 0x100
  {
    hide Pow2, Shr;
    ShrIsDiv(u, n);
    if u >= TWO63 {
      var d, m := Pow2(n), Pow2(56 - n);
      assert TWO64 == 0x100 * m * d by { WordSplit(n); }
      DivModUnique(u / d - 0x100 * m, u % d, d, u - TWO64);
      DropMultiple(u / d, m);
    }
  }

  lemma {:induction false} WordSplit(n: nat)
    requires n <= 56
    ensures TWO64 == 0x100 * Pow2(56 - n) * Pow2(n)
  {
    hide Pow2;
    Pow2Values();
    Pow2Wide();
    Pow2Add(56 - n, n);
    Pow2Add(8, 56);
    assert 0x100 * Pow2(56 - n) * Pow2(n) == 0x100 * (Pow2(56 - n) * Pow2(n));
  }

  lemma {:induction false} DropMultiple(x: nat, m: nat)
    ensures (x - 0x100 * m) % 0x100 == x % 0x100
  {
    DivModUnique(x / 0x100 - m, x % 0x100, 0x100, x - 0x100 * m);
  }

  lemma {:induction false} AsrHigh(u: nat, j: nat)
    requires u < TWO64 && High(u) <= j && 0 < j <= 7
    ensures Asr(Signed(u), 8 * j) != 0 <==> j <= High(u)
  {
    hide Pow2, Shr, High;
    HighShift(u, j);
    ShrIsDiv(u, 8 * j);
    if u >= TWO63 {
      assert High(u) == 7 by {
        HighBounds(u);
        Pow2Wide();
        Pow2Mono(8 * (High(u) + 1), 64);
        if High(u) < 7 {
          Pow2Mono(8 * (High(u) + 1), 63);
        }
      }
      assert (u - TWO64) / Pow2(8 * j) < 0 by { NegativeQuotient(u - TWO64, Pow2(8 * j)); }
    }
  }

  lemma {:induction false} NegativeQuotient(x: int, d: nat)
    requires x < 0 < d
    ensures x / d < 0
  {
    assert x == d * (x / d) + x % d;
  }

  method HighestOctet(u: nat) returns (j: nat)
    requires u < TWO64
    ensures j == High(u) && j <= 7
  {
    hide Asr, High;
    var v64 := Signed(u);
    j := 7;
    assert High(u) <= 7 by {
      Pow2Wide();
      HighBelow(u, 8);
    }
    while j != 0
      invariant High(u) <= j <= 7
    {
      AsrHigh(u, j);
      if Asr(v64, 8 * j) != 0 {
        break;
      }
      j := j - 1;
    }
  }

  lemma {:induction false} HighShift(u: nat, j: nat)
    requires j > 0
    ensures Shr(u, 8 * j) != 0 <==> j <= High(u)
  {
    hide Shr, High, Pow2;
    ShrIsDiv(u, 8 * j);
    HighBounds(u);
    var d := Pow2(8 * j);
    if j <= High(u) {
      Pow2Mono(8 * j, 8 * High(u));
    } else {
      Pow2Mono(8 * (High(u) + 1), 8 * j);
      DivModUnique(0, u, d, u);
    }
  }

  /** The octets of a number, highest first. */
  method PutOctetLoop(po: BitWriter, u: nat, j: nat) returns (rc: int)
    requires po.Valid() && u < TWO64 && j <= 7
    modifies po, po.tmpspace
    ensures po.Valid()
    ensures rc == 0 ==> po.Written() == old(po.Written()) + BytesToBits(Octets(u, j + 1))
    ensures rc != 0 ==> rc == -1 && po.refused
    ensures old(po.answers) == [] ==> po.answers == [] && rc == 0
  {
    hide BitWriter.Written, Shr, Asr, Octets, BytesToBits, ToBits;
    ghost var before := po.Written();
    var v64 := Signed(u);
    NoneYet(Shr(u, 8 * (j + 1)));
    assert BytesToBits([]) == [] by { NoOctets([]); }
    var i := 0;
    rc := 0;
    while i <= j
      invariant 0 <= i <= j + 1 && po.Valid()
      invariant po.Written() == before + BytesToBits(Octets(Shr(u, 8 * (j + 1 - i)), i))
      invariant old(po.answers) == [] ==> po.answers == []
    {
      NextOctet(before, Shr(u, 8 * (j - i)), Shr(u, 8 * (j + 1 - i)), u, 8 * (j - i), i);
      AsrOctet(u, 8 * (j - i));
      rc := Put(po, Asr(v64, 8 * (j - i)) % 0x100, 8);
      if rc != 0 {
        return;
      }
      i := i + 1;
    }
    NoneYet(u);
  }

  lemma {:induction false} NextOctet(before: seq<bool>, w: nat, w': nat, u: nat, shr: nat, k: nat)
    requires w == Shr(u, shr) && w' == Shr(u, shr + 8)
    ensures before + BytesToBits(Octets(w, k + 1)) == before + BytesToBits(Octets(w', k)) + ToBits(w % 0x100, 8)
  {
    hide Shr, Octets, BytesToBits, ToBits;
    OctetsStep(u, shr, k + 1);
    BytesToBitsConcat(Octets(w', k), [w % 0x100]);
    BytesToBitsOne(w % 0x100);
    Associate(before, BytesToBits(Octets(w', k)), ToBits(w % 0x100, 8));
  }

  /** A constrained number at the writer's position. */
  method EncodeField(po: BitWriter, rangeBits: nat, u: nat) returns (rc: int)
    requires po.Valid() && rangeBits <= 64 && u < TWO64
    modifies po, po.tmpspace
    ensures po.Valid()
    ensures rc == 0 ==> po.Written() == old(po.Written()) + EncField(rangeBits, u, |old(po.Written())|)
    ensures rc != 0 ==> rc == -1 && po.refused
    ensures old(po.answers) == [] ==> po.answers == [] && rc == 0
  {
    hide BitWriter.Written, ToBits, Zeros, Padding, High, Octets, BytesToBits;
    ghost var before := po.Written();
    if rangeBits < 8 {
      rc := Put(po, u, rangeBits);
    } else if rangeBits <= 16 {
      rc := PutAlign(po);
      if rc != 0 {
        return;
      }
      var n := if rangeBits == 8 then 8 else 16;
      rc := Put(po, u, n);
      Associate(before, Zeros(Padding(|before|)), ToBits(u, n));
    } else {
      rc := EncodeLongField(po, rangeBits, u);
    }
  }

  method EncodeLongField(po: BitWriter, rangeBits: nat, u: nat) returns (rc: int)
    requires po.Valid() && 16 < rangeBits <= 64 && u < TWO64
    modifies po, po.tmpspace
    ensures po.Valid()
    ensures rc == 0 ==> po.Written() == old(po.Written()) + EncField(rangeBits, u, |old(po.Written())|)
    ensures rc != 0 ==> rc == -1 && po.refused
    ensures old(po.answers) == [] ==> po.answers == [] && rc == 0
  {
    hide BitWriter.Written, ToBits, Zeros, Padding, High, Octets, BytesToBits;
    ghost var before := po.Written();
    var i := CountWidth(rangeBits);
    var j := HighestOctet(u);
    rc := Put(po, j, i);
    if rc != 0 {
      return;
    }
    rc := PutAlign(po);
    if rc != 0 {
      return;
    }
    ghost var count, pad, octets := ToBits(j, i), Zeros(Padding(|before| + i)), BytesToBits(Octets(u, j + 1));
    Associate(before, count, pad);
    Associate(before, count + pad, octets);
    rc := PutOctetLoop(po, u, j);
  }

  /** The loop that puts octets in fragments, each aligned, without an end mark. */
  method PutUnendedString(po: BitWriter, b: seq<byte>) returns (rc: int)
    requires po.Valid() && b != []
    modifies po, po.tmpspace
    ensures po.Valid()
    ensures rc == 0 ==> po.Written() == old(po.Written()) + Zeros(Padding(|old(po.Written())|)) + PutUnended(b)
    ensures rc != 0 ==> rc == -1 && po.refused
    ensures old(po.answers) == [] ==> po.answers == [] && rc == 0
  {
    hide BitWriter.Written, PutUnended, Zeros, Padding;
    ghost var before := po.Written();
    ghost var goal := before + Zeros(Padding(|before|)) + PutUnended(b);
    var at := 0;
    assert b[0..] == b;
    rc := 0;
    while at < |b|
      invariant 0 <= at <= |b| && po.Valid()
      invariant po.Written() + Zeros(Padding(|po.Written()|)) + PutUnended(b[at..]) == goal
      invariant at == |b| ==> po.Written() == goal
      invariant old(po.answers) == [] ==> po.answers == []
    {
      rc := PutUnendedFragment(po, b[at..], goal);
      if rc < 0 {
        return;
      }
      assert b[at..][rc..] == b[at + rc..];
      at := at + rc;
      rc := 0;
    }
  }

  method PutUnendedFragment(po: BitWriter, b: seq<byte>, ghost goal: seq<bool>) returns (rc: int)
    requires po.Valid() && b != []
    requires po.Written() + Zeros(Padding(|po.Written()|)) + PutUnended(b) == goal
    modifies po, po.tmpspace
    ensures po.Valid() && rc <= |b|
    ensures rc >= 0 ==> rc > 0 && po.Written() + PutUnended(b[rc..]) == goal
    ensures rc >= 0 ==> po.Written() + Zeros(Padding(|po.Written()|)) + PutUnended(b[rc..]) == goal
    ensures rc == |b| ==> po.Written() == goal
    ensures rc < 0 ==> rc == -1 && po.refused
    ensures old(po.answers) == [] ==> po.answers == [] && rc >= 0
  {
    hide BitWriter.Written, Zeros, Padding, LengthBits, BytesToBits, NeedsEnd, PutUnended;
    ghost var start := po.Written();
    rc := PutAlign(po);
    if rc != 0 {
      return;
    }
    var may, _ := PutLength(po, |b|);
    if may < 0 {
      return -1;
    }
    var src := b[..may];
    rc := po.PutManyBits(src, 8 * may);
    if rc != 0 {
      return -1;
    }
    assert BytesToBits(src)[..8 * may] == BytesToBits(src);
    FragmentPut(start, b, goal);
    rc := may;
  }

  /** Where a fragment leaves the stream: aligned, with the rest still to come. */
  lemma {:induction false} FragmentPut(start: seq<bool>, b: seq<byte>, goal: seq<bool>)
    requires b != [] && start + Zeros(Padding(|start|)) + PutUnended(b) == goal
    ensures var k := Covered(|b|);
            var end := start + Zeros(Padding(|start|)) + LengthBits(|b|) + BytesToBits(b[..k]);
            && end + PutUnended(b[k..]) == goal && end + Zeros(Padding(|end|)) + PutUnended(b[k..]) == goal
            && (k == |b| ==> end == goal)
  {
    hide Zeros, Padding, LengthBits, BytesToBits, PutUnended, Covered;
    var k := Covered(|b|);
    var src := BytesToBits(b[..k]);
    UnendedPart(start + Zeros(Padding(|start|)), b);
    StillAligned(start, LengthBits(|b|), src, |b|);
    var end := start + Zeros(Padding(|start|)) + LengthBits(|b|) + src;
    assert k == |b| ==> end + [] == end;
  }

  lemma {:induction false} UnendedPart(done: seq<bool>, b: seq<byte>)
    requires b != []
    ensures var k := Covered(|b|);
            && done + PutUnended(b) == done + LengthBits(|b|) + BytesToBits(b[..k]) + PutUnended(b[k..])
            && (k == |b| ==> PutUnended(b[k..]) == [])
  {
    hide LengthBits, BytesToBits, Covered;
    var k := Covered(|b|);
    Associate(done, LengthBits(|b|) + BytesToBits(b[..k]), PutUnended(b[k..]));
    Associate(done, LengthBits(|b|), BytesToBits(b[..k]));
  }

  /** Whole octets after an aligned position leave it aligned. */
  lemma {:induction false} StillAligned(start: seq<bool>, length: seq<bool>, octets: seq<bool>, n: nat)
    requires length == LengthBits(n) && |octets| % 8 == 0
    ensures var end := start + Zeros(Padding(|start|)) + length + octets; end + Zeros(Padding(|end|)) == end
  {
    hide ToBits, Padding;
    assert |length| == 8 || |length| == 16;
    PaddingDone(|start|, |length| + |octets|);
  }

  lemma {:induction false} PaddingDone(n: nat, more: nat)
    requires more % 8 == 0
    ensures Padding(n + Padding(n) + more) == 0
  {
    assert (n + Padding(n)) % 8 == 0;
  }

  /** INTEGER_encode_aper. */
  method EncodeAper(po: BitWriter, ct: Constraint, b: seq<byte>) returns (rc: int)
    requires po.Valid() && WellFormed(Number(ct))
    modifies po, po.tmpspace
    ensures po.Valid() && (rc == 0 || rc == -1)
    ensures rc == 0 ==> EncAper(ct, b, |old(po.Written())|).Bits?
    ensures rc == 0 ==> po.Written() == old(po.Written()) + EncAper(ct, b, |old(po.Written())|).bits
    ensures rc == -1 ==> po.refused || EncAper(ct, b, |old(po.Written())|).Refused?
    ensures old(po.answers) == [] ==> po.answers == [] && (rc == 0 <==> EncAper(ct, b, |old(po.Written())|).Bits?)
  {
    hide BitWriter.Written, PutUnended, ToBits, SignedVal, FitsSigned, Pow2, Zeros, Padding, EncField;
    if b == [] {
      return -1;
    }
    ghost var before := po.Written();
    Associate(before, Zeros(Padding(|before|)), PutUnended(b));
    if ct == Unconstrained(false) {
      rc := PutUnendedString(po, b);
      return;
    }
    var value := Integer2Imax(b);
    if value.None? {
      return -1;
    }
    if ct.Unconstrained? {
      rc := PutUnendedString(po, b);
    } else {
      rc := EncodeAperRange(po, ct, b, value.value);
    }
  }

  method EncodeAperRange(po: BitWriter, ct: Constraint, b: seq<byte>, value: int) returns (rc: int)
    requires po.Valid() && ct.Range? && WellFormed(Number(ct))
    requires b != [] && value == SignedVal(b) && FitsSigned(value)
    modifies po, po.tmpspace
    ensures po.Valid() && (rc == 0 || rc == -1)
    ensures rc == 0 ==> EncAper(ct, b, |old(po.Written())|).Bits?
    ensures rc == 0 ==> po.Written() == old(po.Written()) + EncAper(ct, b, |old(po.Written())|).bits
    ensures rc == -1 ==> po.refused || EncAper(ct, b, |old(po.Written())|).Refused?
    ensures old(po.answers) == [] ==> po.answers == [] && (rc == 0 <==> EncAper(ct, b, |old(po.Written())|).Bits?)
  {
    hide BitWriter.Written, PutUnended, ToBits, SignedVal, FitsSigned, Pow2, Zeros, Padding, EncField;
    ghost var before := po.Written();
    var inext := value < ct.lb || value > ct.ub;
    rc := 0;
    if ct.extensible {
      OneBit(if inext then 1 else 0);
      rc := Put(po, if inext then 1 else 0, 1);
      if rc != 0 {
        return;
      }
    } else if inext {
      return -1;
    }
    ghost var mark := if ct.extensible then [inext] else [];
    ghost var q := |before| + |mark|;
    assert po.Written() == before + mark;
    if inext {
      rc := PutUnendedString(po, b);
      Associate(before + mark, Zeros(Padding(q)), PutUnended(b));
      Associate(before, mark, Zeros(Padding(q)) + PutUnended(b));
    } else {
      // The subtraction is one of 64-bit words: it may wrap around, and the conversion undoes that.
      var v := (value - ct.lb) % TWO64;
      assert v == value - ct.lb by { InRangeOffset(ct, value); }
      rc := EncodeField(po, ct.rangeBits, v);
      Associate(before, mark, EncField(ct.rangeBits, v, q));
    }
  }

  lemma {:induction false} InRangeOffset(ct: Constraint, v: int)
    requires ct.Range? && WellFormed(Number(ct)) && ct.lb <= v <= ct.ub
    ensures v - ct.lb == (v - ct.lb) % TWO64
  {
    hide Pow2;
  }

  // ---- The decoder ----

  /** A reader `p` bits into its stream; a stream that is refilled comes in whole octets. */
  ghost predicate At(pd: BitReader, p: nat)
    requires pd.Valid()
    reads pd
  {
    (pd.refillable ==> pd.octets) && (p + |pd.All()|) % 8 == pd.End()
  }

  method FetchAt(pd: BitReader, n: nat, ghost p: nat) returns (v: int)
    requires pd.Valid() && At(pd, p) && n <= 31
    modifies pd
    ensures pd.Valid()
    ensures v >= 0 ==> Take(old(pd.All()), n) == Ok(v, pd.All()) && At(pd, p + n)
    ensures v < 0 ==> v == -1 && Take(old(pd.All()), n) == Starved
  {
    hide BitReader.All, Val;
    v := Fetch(pd, n);
  }

  /** aper_get_align: the bits passed over, as a number, or -1. */
  method GetAlign(pd: BitReader, ghost p: nat) returns (v: int)
    requires pd.Valid() && At(pd, p)
    modifies pd
    ensures pd.Valid()
    ensures v >= 0 ==> Take(old(pd.All()), Padding(p)) == Ok(v, pd.All()) && At(pd, p + Padding(p))
    ensures v < 0 ==> v == -1 && Take(old(pd.All()), Padding(p)) == Starved
  {
    hide BitReader.All, Take;
    pd.PositionInOctet();
    PaddingAt(p, pd.nboff, |pd.All()|);
    if pd.nboff % 8 != 0 {
      v := FetchAt(pd, 8 - pd.nboff % 8, p);
    } else {
      NoBits(pd.All());
      v := 0;
    }
  }

  lemma {:induction false} PaddingAt(p: nat, nboff: nat, left: nat)
    requires (p + left) % 8 == (nboff + left) % 8
    ensures Padding(p) == if nboff % 8 == 0 then 0 else 8 - nboff % 8
  {
    var k := (p + left) / 8 - (nboff + left) / 8;
    assert p == 8 * k + nboff;
    SameInOctet(k, nboff);
  }

  lemma {:induction false} SameInOctet(k: int, n: nat)
    requires 8 * k + n >= 0
    ensures (8 * k + n) % 8 == n % 8
  {
    DivModUnique(k + n / 8, n % 8, 8, 8 * k + n);
  }

  lemma {:induction false} NoBits(s: seq<bool>)
    ensures Take(s, 0) == Ok(0, s)
  {
    assert s[..0] == [] && s[0..] == s;
  }

  lemma {:induction false} WrapShift(x: int, k: int)
    ensures Wrap(x + k * TWO64) == Wrap(x)
  {
    DivModUnique(x / TWO64 + k, x % TWO64, TWO64, x + k * TWO64);
  }

  lemma {:induction false} WrapSum(x: int, y: int)
    ensures Wrap(Wrap(x) + y) == Wrap(x + y)
  {
    var k := if x % TWO64 >= TWO63 then x / TWO64 + 1 else x / TWO64;
    assert x == Wrap(x) + k * TWO64;
    WrapShift(Wrap(x) + y, k);
  }

  /** The octets of a number, highest first. */
  method FetchOctetLoop(pd: BitReader, count: nat) returns (r: Option<int>)
    requires pd.Valid()
    modifies pd
    ensures pd.Valid()
    ensures var g := Take(old(pd.All()), 8 * count);
            if g.Ok? then r == Some(Wrap(g.value)) && pd.All() == g.rest else r == None
  {
    hide BitReader.All, Val, Pow2, Wrap, Partial, Take;
    ghost var all, total, done := pd.All(), 8 * count, 0;
    var value, length := 0, count;
    NoneRead(all, count);
    while length > 0
      invariant 0 <= length <= count && pd.Valid() && done <= |all| && done + 8 * length == total
      invariant pd.All() == all[done..] && value == Partial(all, done, length)
    {
      length := length - 1;
      var buf := Fetch(pd, 8);
      NextOctetThere(all, done, total);
      if buf < 0 {
        return None;
      }
      OctetAdded(all, done, buf, length);
      value := Wrap(value + buf * Pow2(8 * length));
      done := done + 8;
    }
    AllRead(all, total);
    r := Some(value);
  }

  /** Reading an octet on the way to `total` bits. */
  lemma {:induction false} NextOctetThere(s: seq<bool>, done: nat, total: nat)
    requires done <= |s| && done + 8 <= total
    ensures var g := Take(s[done..], 8);
            && (g.Starved? ==> Take(s, total).Starved?)
            && (g.Ok? ==> done + 8 <= |s| && g.value == Val(s[done..][..8]) && g.rest == s[done..][8..])
  {
    hide Val;
  }

  /** The number the first `done` bits amount to when `length` octets are to follow. */
  ghost function Partial(s: seq<bool>, done: nat, length: nat): int
    requires done <= |s|
  {
    Wrap(Val(s[..done]) * Pow2(8 * length))
  }

  lemma {:induction false} NoneRead(s: seq<bool>, count: nat)
    ensures Partial(s, 0, count) == 0 && s[0..] == s
  {
    assert s[..0] == [];
  }

  lemma {:induction false} AllRead(s: seq<bool>, done: nat)
    requires done <= |s|
    ensures Take(s, done) == Ok(Val(s[..done]), s[done..]) && Partial(s, done, 0) == Wrap(Val(s[..done]))
  {
    hide Wrap, Val;
    Pow2Small();
  }

  lemma {:induction false} OctetAdded(s: seq<bool>, done: nat, buf: nat, length: nat)
    requires done + 8 <= |s| && buf == Val(s[done..][..8])
    ensures Wrap(Partial(s, done, length + 1) + buf * Pow2(8 * length)) == Partial(s, done + 8, length)
    ensures s[done..][8..] == s[done + 8..]
  {
    hide Val, Pow2, Wrap;
    ValTake(s, done, 8);
    Pow2Add(8, 8 * length);
    var v, q, p := Val(s[..done]), Pow2(8), Pow2(8 * length);
    assert (v * q + buf) * p == v * (q * p) + buf * p;
    WrapSum(v * (q * p), buf * p);
  }

  /** A constrained number at the reader's position. */
  method DecodeField(pd: BitReader, rangeBits: nat, ghost p: nat) returns (r: Decoded<int>)
    requires pd.Valid() && At(pd, p) && rangeBits <= 64
    modifies pd
    ensures pd.Valid()
    ensures var g := DecField(rangeBits, old(pd.All()), p);
            Agrees(r, if g.Ok? then Ok(Wrap(g.value), g.rest) else Failure(g), pd.All())
  {
    hide BitReader.All, Take, Padding, Wrap, At;
    if rangeBits > 16 {
      r := DecodeLongField(pd, rangeBits, p);
      return;
    }
    var n := rangeBits;
    if rangeBits >= 8 {
      var pad := GetAlign(pd, p);
      if pad < 0 {
        return Fail;
      }
      n := if rangeBits == 8 then 8 else 16;
    }
    ghost var s := pd.All();
    var value := Fetch(pd, n);
    if value < 0 {
      return WantMore;
    }
    assert Wrap(value) == value by { SmallField(s, n); }
    r := Done(value);
  }

  lemma {:induction false} SmallField(s: seq<bool>, n: nat)
    requires n <= 16 && Take(s, n).Ok?
    ensures FitsSigned(Take(s, n).value)
  {
    hide Val, Pow2;
    ValBound(s[..n]);
    Pow2Mono(n, 16);
    Pow2Values();
  }

  method DecodeLongField(pd: BitReader, rangeBits: nat, ghost p: nat) returns (r: Decoded<int>)
    requires pd.Valid() && At(pd, p) && 16 < rangeBits <= 64
    modifies pd
    ensures pd.Valid()
    ensures var g := DecField(rangeBits, old(pd.All()), p);
            Agrees(r, if g.Ok? then Ok(Wrap(g.value), g.rest) else Failure(g), pd.All())
  {
    hide BitReader.All, Take, Padding, Wrap, At;
    var i := CountWidth(rangeBits);
    var length := FetchAt(pd, i, p);
    if length < 0 {
      return Fail;
    }
    var pad := GetAlign(pd, p + i);
    if pad != 0 {
      return Fail;
    }
    var value := FetchOctetLoop(pd, length + 1);
    r := if value.None? then Fail else Done(value.value);
  }

  /** One aligned fragment, and whether another one follows; None for any failure. */
  method FetchFragment(pd: BitReader, buf: seq<byte>, ghost q: nat) returns (r: Option<seq<byte>>, repeat: bool)
    requires pd.Valid() && At(pd, q)
    modifies pd
    ensures pd.Valid()
    ensures var goal := Prepend(buf, DecAligned(old(pd.All()), q));
            && (r.None? ==> goal == Starved)
            && (r.Some? && repeat ==> At(pd, 0) && goal == Prepend(r.value, DecAligned(pd.All(), 0)))
            && (r.Some? && !repeat ==> goal == Ok(r.value, pd.All()))
    ensures |pd.All()| < |old(pd.All())| || r.None?
  {
    hide BitReader.All, GetOctets, GetLength, FromBits, DecAligned, Prepend, Padding, Take, At, LengthBits;
    ghost var s := pd.All();
    repeat := false;
    var pad := GetAlign(pd, q);
    AlignedStep(buf, s, q);
    if pad < 0 {
      return None, false;
    }
    ghost var all := pd.All();
    AlignedLeft(pd, q);
    var n;
    n, repeat := FetchLength(pd);
    if n < 0 {
      NoLength(all);
      PrependStarved(buf);
      return None, false;
    }
    GetStep(buf, all, n, repeat, pd.All());
    LengthWhole(all);
    var part := FetchOctets(pd, n);
    if part.None? {
      return None, false;
    }
    r := Some(buf + part.value);
    Realigned(pd.All());
    AtOctet(pd, |all|, |GetLength(all).rest|, n);
  }

  lemma {:induction false} AlignedLeft(pd: BitReader, q: nat)
    requires pd.Valid() && At(pd, q + Padding(q))
    ensures (pd.refillable ==> pd.octets) && |pd.All()| % 8 == pd.End()
  {
    hide BitReader.All, Padding;
    WholeLeft(q, |pd.All()|);
  }

  /** Whole octets behind an aligned position the reader is aligned again. */
  lemma {:induction false} AtOctet(pd: BitReader, all: nat, behind: nat, n: nat)
    requires pd.Valid() && (pd.refillable ==> pd.octets) && all % 8 == pd.End()
    requires (all - behind) % 8 == 0 && |pd.All()| == behind - 8 * n
    ensures At(pd, 0)
  {
    hide BitReader.All, BitReader.End;
    var k := (all - behind) / 8 + n;
    assert all == 8 * k + |pd.All()|;
    SameInOctet(k, |pd.All()|);
  }

  /** The loop that collects aligned fragments. */
  method FetchAligned(pd: BitReader, ghost p: nat) returns (r: Option<seq<byte>>)
    requires pd.Valid() && At(pd, p)
    modifies pd
    ensures pd.Valid()
    ensures r.Some? ==> DecAligned(old(pd.All()), p) == Ok(r.value, pd.All())
    ensures r.None? ==> DecAligned(old(pd.All()), p) == Starved
  {
    hide BitReader.All, DecAligned, Prepend, At;
    ghost var goal, q: nat := DecAligned(pd.All(), p), p;
    var buf: seq<byte>, repeat := [], true;
    PrependNothing(goal);
    while repeat
      invariant pd.Valid()
      invariant repeat ==> At(pd, q) && goal == Prepend(buf, DecAligned(pd.All(), q))
      invariant !repeat ==> goal == Ok(buf, pd.All())
      decreases repeat, |pd.All()|
    {
      var longer;
      longer, repeat := FetchFragment(pd, buf, q);
      if longer.None? {
        return None;
      }
      q := 0;
      buf := longer.value;
    }
    r := Some(buf);
  }

  lemma {:induction false} PrependStarved(b: seq<byte>)
    ensures Prepend(b, Starved) == Starved
  {
  }

  lemma {:induction false} AlignedStep(b: seq<byte>, s: seq<bool>, q: nat)
    ensures var pad := Take(s, Padding(q));
            Prepend(b, DecAligned(s, q)) == if pad.Ok? then Prepend(b, GetOctets(pad.rest)) else Starved
    ensures Take(s, Padding(q)).Ok? ==> |Take(s, Padding(q)).rest| <= |s|
  {
    hide GetOctets;
  }

  lemma {:induction false} LengthWhole(s: seq<bool>)
    requires GetLength(s).Ok?
    ensures (|s| - |GetLength(s).rest|) % 8 == 0
  {
    hide Val;
  }

  lemma {:induction false} WholeLeft(q: nat, n: nat)
    ensures n % 8 == (q + Padding(q) + n) % 8
  {
    var k := (q + Padding(q)) / 8;
    assert q + Padding(q) == 8 * k by { PaddingEnds(q); }
    DivModUnique(n / 8 + k, n % 8, 8, q + Padding(q) + n);
  }

  lemma {:induction false} PaddingEnds(q: nat)
    ensures (q + Padding(q)) % 8 == 0
  {
    var r := q % 8;
    DivModUnique(q / 8 + (if r == 0 then 0 else 1), 0, 8, q + Padding(q));
  }

  lemma {:induction false} Realigned(s: seq<bool>)
    ensures DecAligned(s, 0) == GetOctets(s)
  {
    hide GetOctets;
    NoBits(s);
  }

  /** INTEGER_decode_aper. */
  method DecodeAper(pd: BitReader, ct: Constraint, ghost p: nat) returns (r: Decoded<seq<byte>>)
    requires pd.Valid() && At(pd, p) && WellFormed(Number(ct))
    modifies pd
    ensures pd.Valid()
    ensures Agrees(r, DecAper(ct, old(pd.All()), p), pd.All())
  {
    hide BitReader.All, DecAligned, DecField, Wrap, Contents, Pow2, SignedVal, Superfluous, FitsSigned, At;
    ghost var s := pd.All();
    ghost var q := p;
    var whole := ct.Unconstrained?;
    if ct.Range? && ct.extensible {
      FirstBit(s);
      var inext := FetchAt(pd, 1, p);
      if inext < 0 {
        return WantMore;
      }
      whole := inext == 1;
      q := p + 1;
    }
    if whole {
      var b := FetchAligned(pd, q);
      r := if b.None? then WantMore else Done(b.value);
    } else {
      var value := DecodeField(pd, ct.rangeBits, q);
      if !value.Done? {
        return Undone(value);
      }
      var v := Wrap(value.value + ct.lb);
      var b := Imax2Integer(v);
      assert b == Contents(v) by {
        ContentsBack(v);
        ContentsMinimal(v);
        MinimalUnique(b, Contents(v));
      }
      r := Done(b);
    }
  }
}
