/**
  Where aligned PER puts an INTEGER, bit for bit, without its encoder: the four forms of a constrained
  whole number, and the octets of one that has no range or lies outside it.
 */
module AperLayout {
  import opened Bits
  import opened Options
  import opened Integer
  import opened BitInput
  import opened PerSupport
  import opened PerLengths
  import opened Uper
  import opened IntegerAper
  import opened UperReads
  import UperRoundTrip

  /** At bit position `p`: clear bits up to the next octet, and `n` bits behind them that hold `u`. */
  ghost predicate AlignedField(p: nat, n: nat, u: nat, s: seq<bool>) {
    var pad := |s| - n;
    && 0 <= pad < 8 && (p + pad) % 8 == 0 && (forall i :: 0 <= i < pad ==> !s[i]) && Val(s[pad..]) == u
  }

  /** The bits it takes to number `n` things. */
  ghost predicate FewestBits(w: nat, n: nat) {
    n <= Pow2(w) && (w > 0 ==> Pow2(w - 1) < n)
  }

  /** The octets it takes to hold `u`, less one. */
  ghost predicate FewestOctets(c: nat, u: nat) {
    u < Pow2(8 * (c + 1)) && (c > 0 ==> Pow2(8 * c) <= u)
  }

  /**
    The offset `u` in a range of `r` bits, at position `p`: a field of just that size below 8 bits, one octet,
    two octets, or as few octets as hold it behind their number.
   */
  ghost predicate FieldSpelled(r: nat, u: nat, p: nat, s: seq<bool>) {
    if r < 8 then |s| == r && Val(s) == u
    else if r <= 16 then AlignedField(p, if r == 8 then 8 else 16, u, s)
    else
      exists w: nat, c: nat :: FewestBits(w, (r + 7) / 8) && FewestOctets(c, u)
        && w <= |s| && Val(s[..w]) == c && AlignedField(p + w, 8 * (c + 1), u, s[w..])
  }

  lemma {:induction false} OnePadding(p: nat, pad: int)
    ensures 0 <= pad < 8 && (p + pad) % 8 == 0 <==> pad == Padding(p)
  {
  }

  /** Clear bits up to the next octet, and something behind them. */
  lemma {:induction false} BehindPadding(p: nat, x: seq<bool>, s: seq<bool>)
    ensures var pad := |s| - |x|;
            0 <= pad < 8 && (p + pad) % 8 == 0 && (forall i :: 0 <= i < pad ==> !s[i]) && s[pad..] == x
            <==> s == Zeros(Padding(p)) + x
  {
    var pad := |s| - |x|;
    OnePadding(p, pad);
    hide Padding;
    if pad == Padding(p) && (forall i :: 0 <= i < pad ==> !s[i]) && s[pad..] == x {
      assert s == s[..pad] + s[pad..];
      assert s[..pad] == Zeros(pad);
    }
  }

  lemma {:induction false} AlignedIs(p: nat, n: nat, u: nat, s: seq<bool>)
    requires u < Pow2(n)
    ensures AlignedField(p, n, u, s) <==> s == Zeros(Padding(p)) + ToBits(u, n)
  {
    hide Val, ToBits, Pow2, Padding, Zeros;
    BehindPadding(p, ToBits(u, n), s);
    ValToBitsExact(u, n);
    if 0 <= |s| - n {
      ToBitsVal(s[|s| - n..]);
    }
  }

  lemma {:induction false} WidthIs(r: nat, w: nat)
    requires 16 < r <= 64
    ensures FewestBits(w, (r + 7) / 8) <==> w == Width((r + 7) / 8)
  {
    hide Pow2;
    var n := (r + 7) / 8;
    assert 3 <= n <= 8;
    assert Pow2(0) == 1 && Pow2(1) == 2 && Pow2(2) == 4 && Pow2(3) == 8 by { Pow2Small(); }
    if w >= 4 {
      Pow2Mono(3, w - 1);
    }
  }

  lemma {:induction false} HighIs(c: nat, u: nat)
    ensures FewestOctets(c, u) <==> c == High(u)
  {
    hide Pow2, High;
    HighBounds(u);
    if c < High(u) {
      Pow2Mono(8 * (c + 1), 8 * High(u));
    } else if c > High(u) {
      Pow2Mono(8 * (High(u) + 1), 8 * c);
    }
  }

  /** A count and the octets it counts, behind one another. */
  lemma {:induction false} CountedIs(w: nat, c: nat, u: nat, p: nat, s: seq<bool>)
    requires c < Pow2(w) && u < Pow2(8 * (c + 1))
    ensures w <= |s| && Val(s[..w]) == c && AlignedField(p + w, 8 * (c + 1), u, s[w..]) <==>
              s == ToBits(c, w) + (Zeros(Padding(p + w)) + ToBits(u, 8 * (c + 1)))
  {
    hide Val, ToBits, Pow2, AlignedField;
    var tail := Zeros(Padding(p + w)) + ToBits(u, 8 * (c + 1));
    var put := ToBits(c, w) + tail;
    assert put[..w] == ToBits(c, w) && put[w..] == tail;
    ValToBitsExact(c, w);
    if w <= |s| {
      AlignedIs(p + w, 8 * (c + 1), u, s[w..]);
      ToBitsVal(s[..w]);
      assert s == s[..w] + s[w..];
    }
  }

  /** The encoder's field is the one spelled out. */
  lemma {:induction false} FieldExactly(r: nat, u: nat, p: nat, s: seq<bool>)
    requires r <= 64 && u < Pow2(r)
    ensures FieldSpelled(r, u, p, s) <==> s == EncField(r, u, p)
  {
    hide Val, ToBits, Pow2, AlignedField, High, Width, FewestBits, FewestOctets, BytesToBits, Octets;
    if r < 8 {
      ValToBitsExact(u, r);
      if |s| == r {
        ToBitsVal(s);
      }
    } else if r <= 16 {
      var n := if r == 8 then 8 else 16;
      assert u < Pow2(n) by { Pow2Mono(r, n); }
      AlignedIs(p, n, u, s);
    } else {
      var w, c := Width((r + 7) / 8), High(u);
      CountFits(r, u);
      HighBounds(u);
      OctetsBits(u, c + 1);
      Associate(ToBits(c, w), Zeros(Padding(p + w)), ToBits(u, 8 * (c + 1)));
      CountedIs(w, c, u, p, s);
      var n := (r + 7) / 8;
      forall w': nat ensures FewestBits(w', n) <==> w' == w {
        WidthIs(r, w');
      }
      forall c': nat ensures FewestOctets(c', u) <==> c' == c {
        HighIs(c', u);
      }
      if s == EncField(r, u, p) {
        assert FewestBits(w, (r + 7) / 8) && FewestOctets(c, u);
      }
    }
  }

  // ---- Octets without a range ----

  /** Fragments without an end mark: the same octets as in unaligned PER but for the empty fragment at the end. */
  lemma {:induction false} UnendedLayout(b: seq<byte>)
    ensures b == [] ==> PutUnended(b) == []
    ensures 0 < |b| < 128 ==> PutUnended(b) == BytesToBits([|b|] + b)
    ensures 128 <= |b| < 16384 ==> PutUnended(b) == BytesToBits([128 + |b| / 256, |b| % 256] + b)
    ensures |b| >= 16384 ==>
              var n := 16384 * Blocks(|b|);
              PutUnended(b) == BytesToBits([192 + Blocks(|b|)] + b[..n]) + PutUnended(b[n..])
  {
    hide BytesToBits, LengthBits, Covered, PutUnended;
    var n := |b|;
    Determinant(n);
    UnendedStep(b);
    if 0 < n < 16384 {
      assert b[..n] == b && b[n..] == [];
      UnendedStep([]);
      BytesToBitsConcat(if n < 128 then [n] else [128 + n / 256, n % 256], b);
    } else if n >= 16384 {
      BytesToBitsConcat([192 + Blocks(n)], b[..16384 * Blocks(n)]);
    }
  }

  lemma {:induction false} UnendedStep(b: seq<byte>)
    ensures b == [] ==> PutUnended(b) == []
    ensures b != [] ==>
              var k := Covered(|b|);
              PutUnended(b) == LengthBits(|b|) + BytesToBits(b[..k]) + PutUnended(b[k..])
  {
    hide LengthBits, Covered, BytesToBits;
  }

  /** At position `p`: clear bits up to the next octet, and then the octets. */
  ghost predicate AlignedOctets(p: nat, b: seq<byte>, s: seq<bool>) {
    var pad := |s| - |PutUnended(b)|;
    0 <= pad < 8 && (p + pad) % 8 == 0 && (forall i :: 0 <= i < pad ==> !s[i]) && s[pad..] == PutUnended(b)
  }

  lemma {:induction false} AlignedOctetsIs(p: nat, b: seq<byte>, s: seq<bool>)
    ensures AlignedOctets(p, b, s) <==> s == Zeros(Padding(p)) + PutUnended(b)
  {
    BehindPadding(p, PutUnended(b), s);
  }

  // ---- The whole field ----

  /** The octets `b` of an INTEGER at bit position `p`. */
  ghost predicate AperSpelled(ct: Constraint, b: seq<byte>, p: nat, s: seq<bool>) {
    var v := SignedVal(b);
    && b != [] && (ct != Unconstrained(false) ==> -0x8000_0000_0000_0000 <= v < 0x8000_0000_0000_0000)
    && if ct.Unconstrained? then AlignedOctets(p, b, s)
       else if ct.lb <= v <= ct.ub then
         if ct.extensible then s != [] && !s[0] && FieldSpelled(ct.rangeBits, v - ct.lb, p + 1, s[1..])
         else FieldSpelled(ct.rangeBits, v - ct.lb, p, s)
       else ct.extensible && s != [] && s[0] && AlignedOctets(p + 1, b, s[1..])
  }

  /** The encoder yields some bits exactly when they are the ones spelled out. */
  lemma {:induction false} AperExactly(ct: Constraint, b: seq<byte>, p: nat, s: seq<bool>)
    requires WellFormed(Number(ct))
    ensures EncAper(ct, b, p) == Bits(s) <==> AperSpelled(ct, b, p, s)
  {
    hide FieldSpelled, EncField, AlignedOctets, PutUnended, Pow2, SignedVal, Padding, Zeros;
    AlignedOctetsIs(p, b, s);
    var v := SignedVal(b);
    if s != [] {
      assert s == [s[0]] + s[1..];
      AlignedOctetsIs(p + 1, b, s[1..]);
    }
    if ct.Range? && ct.lb <= v <= ct.ub {
      FieldExactly(ct.rangeBits, v - ct.lb, p, s);
      if s != [] {
        FieldExactly(ct.rangeBits, v - ct.lb, p + 1, s[1..]);
      }
    }
  }

  // ---- What the decoder takes ----

  /** At position `p`: bits up to the next octet, whatever they are, and a field. */
  ghost predicate AfterPadding(p: nat, n: nat, u: nat, s: seq<bool>) {
    var pad := |s| - n;
    0 <= pad < 8 && (p + pad) % 8 == 0 && Val(s[pad..]) == u
  }

  /** The padding is looked at only behind a count of octets, and that count may be more than it takes. */
  ghost predicate FieldRead(r: nat, u: nat, p: nat, s: seq<bool>) {
    if r < 8 then |s| == r && Val(s) == u
    else if r <= 16 then AfterPadding(p, if r == 8 then 8 else 16, u, s)
    else exists w :: FewestBits(w, (r + 7) / 8) && CountedRead(w, u, p, s)
  }

  ghost predicate CountedRead(w: nat, u: nat, p: nat, s: seq<bool>) {
    w <= |s| && AlignedField(p + w, 8 * (Val(s[..w]) + 1), u, s[w..])
  }

  /** The sum in a word of 64 bits. */
  ghost predicate Wrapped(v: int, u: int, lb: int) {
    -0x8000_0000_0000_0000 <= v < 0x8000_0000_0000_0000 && (v - u - lb) % 0x1_0000_0000_0000_0000 == 0
  }

  ghost predicate OctetsAfterPadding(p: nat, b: seq<byte>, s: seq<bool>) {
    exists pad: seq<bool>, t :: |pad| < 8 && (p + |pad|) % 8 == 0 && OctetsRead(b, t) && s == pad + t
  }

  /** The texts of bits the decoder takes for the octets `b` at position `p`. */
  ghost predicate AperRead(ct: Constraint, b: seq<byte>, p: nat, s: seq<bool>) {
    if ct.Unconstrained? then OctetsAfterPadding(p, b, s)
    else if !ct.extensible then OffsetRead(ct, b, p, s)
    else s != [] && if s[0] then OctetsAfterPadding(p + 1, b, s[1..]) else OffsetRead(ct, b, p + 1, s[1..])
  }

  /** Any offset that fits the field, also beyond the range, is added to the lower bound in a word of 64 bits. */
  ghost predicate OffsetRead(ct: Constraint, b: seq<byte>, p: nat, s: seq<bool>)
    requires ct.Range?
  {
    ct.rangeBits <= 64 && exists u: nat, v ::
      FieldRead(ct.rangeBits, u, p, s) && Wrapped(v, u, ct.lb) && b == Contents(v)
  }

  lemma {:induction false} SplitOff(n: nat, s: seq<bool>, rest: seq<bool>)
    ensures n <= |s| ==> (s + rest)[..n] == s[..n] && (s + rest)[n..] == s[n..] + rest
  {
  }

  lemma {:induction false} PlainExactly(n: nat, u: nat, s: seq<bool>, rest: seq<bool>)
    ensures Take(s + rest, n) == Ok(u, rest) <==> |s| == n && Val(s) == u
  {
    hide Val;
    if |s| == n {
      SplitOff(n, s, rest);
      assert s[..n] == s && [] + rest == rest;
    }
  }

  lemma {:induction false} PaddedExactly(p: nat, n: nat, u: nat, s: seq<bool>, rest: seq<bool>)
    ensures var k := Padding(p); var pad := Take(s + rest, k);
            pad.Ok? && Take(pad.rest, n) == Ok(u, rest) <==> AfterPadding(p, n, u, s)
  {
    hide Val;
    var k := Padding(p);
    OnePadding(p, |s| - n);
    hide Padding;
    if k <= |s| {
      SplitOff(k, s, rest);
      PlainExactly(n, u, s[k..], rest);
    }
  }

  /** Clear padding and a field behind it. */
  lemma {:induction false} AlignedExactly(p: nat, n: nat, u: nat, s: seq<bool>, rest: seq<bool>)
    ensures var k := Padding(p); var pad := Take(s + rest, k);
            pad.Ok? && pad.value == 0 && Take(pad.rest, n) == Ok(u, rest) <==> AlignedField(p, n, u, s)
  {
    hide Val;
    var k := Padding(p);
    OnePadding(p, |s| - n);
    hide Padding;
    if k <= |s| {
      SplitOff(k, s, rest);
      PlainExactly(n, u, s[k..], rest);
      UperRoundTrip.AllClear(s[..k]);
    }
  }

  lemma {:induction false} CountedExactly(w: nat, u: nat, p: nat, s: seq<bool>, rest: seq<bool>)
    ensures var length := Take(s + rest, w);
            (length.Ok? &&
             var pad := Take(length.rest, Padding(p + w));
             pad.Ok? && pad.value == 0 && Take(pad.rest, 8 * (length.value + 1)) == Ok(u, rest))
            <==> CountedRead(w, u, p, s)
  {
    hide Val, AlignedField, Padding;
    if w <= |s| {
      SplitOff(w, s, rest);
      AlignedExactly(p + w, 8 * (Val(s[..w]) + 1), u, s[w..], rest);
    }
  }

  lemma {:induction false} FieldReadExactly(r: nat, u: nat, p: nat, s: seq<bool>, rest: seq<bool>)
    requires r <= 64
    ensures DecField(r, s + rest, p) == Ok(u, rest) <==> FieldRead(r, u, p, s)
  {
    hide Val, Take, AlignedField, Padding, Width, FewestBits, AfterPadding, CountedRead;
    if r < 8 {
      PlainExactly(r, u, s, rest);
    } else if r <= 16 {
      PaddedExactly(p, if r == 8 then 8 else 16, u, s, rest);
    } else {
      var w, n := Width((r + 7) / 8), (r + 7) / 8;
      CountedExactly(w, u, p, s, rest);
      forall w': nat ensures FewestBits(w', n) <==> w' == w {
        WidthIs(r, w');
      }
      if CountedRead(w, u, p, s) {
        assert FewestBits(w, n);
      }
    }
  }

  lemma {:induction false} WrapIs(v: int, u: int, lb: int)
    ensures Wrapped(v, u, lb) <==> v == Wrap(u + lb)
  {
  }

  lemma {:induction false} AlignedReadExactly(p: nat, b: seq<byte>, s: seq<bool>, rest: seq<bool>)
    ensures DecAligned(s + rest, p) == Ok(b, rest) <==> OctetsAfterPadding(p, b, s)
  {
    hide Padding, OctetsRead, GetOctets, Val;
    var k := Padding(p);
    if DecAligned(s + rest, p) == Ok(b, rest) {
      var tail := (s + rest)[k..];
      var t := OctetsThere(tail);
      var pad := (s + rest)[..k];
      assert s + rest == pad + t + rest by { assert s + rest == pad + tail; }
      UperRoundTrip.PrefixSame(s, pad + t, rest);
      OnePadding(p, k);
      assert OctetsRead(b, t) && s == pad + t;
    }
    if pad: seq<bool>, t :| |pad| < 8 && (p + |pad|) % 8 == 0 && OctetsRead(b, t) && s == pad + t {
      OnePadding(p, |pad|);
      assert s + rest == pad + (t + rest);
      assert (s + rest)[..k] == pad && (s + rest)[k..] == t + rest;
      OctetsTaken(b, t, rest);
    }
  }

  lemma {:induction false} OffsetReadExactly(ct: Constraint, b: seq<byte>, p: nat, s: seq<bool>, rest: seq<bool>)
    requires ct.Range? && !ct.extensible
    ensures DecAper(ct, s + rest, p) == Ok(b, rest) <==> OffsetRead(ct, b, p, s)
  {
    hide FieldRead, DecField, Contents, Wrap, Wrapped;
    if ct.rangeBits <= 64 {
      var r := DecField(ct.rangeBits, s + rest, p);
      if r.Ok? && r.rest == rest {
        FieldReadExactly(ct.rangeBits, r.value, p, s, rest);
        WrapTwice(r.value, ct.lb);
        WrapIs(Wrap(r.value + ct.lb), r.value, ct.lb);
      }
      forall u: nat, v | FieldRead(ct.rangeBits, u, p, s) && Wrapped(v, u, ct.lb)
        ensures r == Ok(u, rest) && v == Wrap(Wrap(u) + ct.lb)
      {
        FieldReadExactly(ct.rangeBits, u, p, s, rest);
        WrapIs(v, u, ct.lb);
        WrapTwice(u, ct.lb);
      }
    }
  }

  lemma {:induction false} WrapTwice(u: int, lb: int)
    ensures Wrap(Wrap(u) + lb) == Wrap(u + lb)
  {
  }

  /** On any input the decoder yields the octets `b` and leaves the rest exactly for the texts told here. */
  lemma {:induction false} AperReadExactly(ct: Constraint, b: seq<byte>, p: nat, s: seq<bool>, rest: seq<bool>)
    ensures DecAper(ct, s + rest, p) == Ok(b, rest) <==> AperRead(ct, b, p, s)
  {
    hide DecField, Contents, Wrap, OctetsAfterPadding, OffsetRead, DecAligned;
    if ct.Unconstrained? {
      AlignedReadExactly(p, b, s, rest);
    } else if !ct.extensible {
      OffsetReadExactly(ct, b, p, s, rest);
    } else if s != [] {
      Behind(s, rest);
      if s[0] {
        AlignedReadExactly(p + 1, b, s[1..], rest);
      } else {
        OffsetReadExactly(ct.(extensible := false), b, p + 1, s[1..], rest);
        SameOffset(ct, b, p + 1, s[1..]);
      }
    } else {
      NothingTaken(ct, b, p, rest);
    }
  }

  lemma {:induction false} SameOffset(ct: Constraint, b: seq<byte>, p: nat, s: seq<bool>)
    requires ct.Range?
    ensures OffsetRead(ct.(extensible := false), b, p, s) <==> OffsetRead(ct, b, p, s)
  {
    hide FieldRead, Contents;
  }

  /** An extension bit is always consumed. */
  lemma {:induction false} NothingTaken(ct: Constraint, b: seq<byte>, p: nat, rest: seq<bool>)
    requires ct.Range? && ct.extensible
    ensures DecAper(ct, [] + rest, p) != Ok(b, rest)
  {
    hide Wrap, Contents, Padding, GetOctets, Val, Width;
    assert [] + rest == rest;
  }
}
