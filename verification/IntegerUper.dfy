/**
  The INTEGER codecs of unaligned PER over the bit streams: constrained numbers as bit fields,
  everything else as octets behind length determinants.
 */
module IntegerUper {
  import opened Bits
  import opened Options
  import opened Integer
  import opened BitOutput
  import opened BitInput
  import opened PerSupport
  import opened Uper
  import UperRoundTrip

  /** What the encoder writes for an INTEGER kept as octets: of any size when there is no record of constraints. */
  function EncInteger(ct: Constraint, b: seq<byte>): Encoded {
    if b == [] then Refused
    else if ct == Unconstrained(false) then Bits(PutOctets(b))
    else if !FitsSigned(SignedVal(b)) then Refused
    else if ct.Unconstrained? then Bits(PutOctets(b))
    else
      var v := SignedVal(b);
      var inext := v < ct.lb || v > ct.ub;
      if inext && !ct.extensible then Refused
      else
        var mark := if ct.extensible then [inext] else [];
        Bits(mark + if inext then PutOctets(b) else ToBits(v - ct.lb, ct.rangeBits))
  }

  /** What the decoder makes of it; numbers in range are rebuilt, others keep their octets. */
  function DecInteger(ct: Constraint, s: seq<bool>): Got<seq<byte>> {
    if ct.Unconstrained? then GetOctets(s)
    else if ct.extensible && s == [] then Starved
    else if ct.extensible && s[0] then GetOctets(s[1..])
    else
      var u := DecRange(ct, if ct.extensible then s[1..] else s);
      if !u.Ok? then Failure(u)
      else if u.value.Native? && FitsSigned(u.value.v) then Ok(Contents(u.value.v), u.rest)
      else Failed
  }

  /** The value survives; the octets do too, unless the number is rebuilt from a bit field. */
  lemma {:induction false} IntegerRoundTrip(ct: Constraint, b: seq<byte>, rest: seq<bool>)
    requires WellFormed(Number(ct)) && EncInteger(ct, b).Bits?
    ensures var r := DecInteger(ct, EncInteger(ct, b).bits + rest);
            && r.Ok? && r.rest == rest && SignedVal(r.value) == SignedVal(b)
            && (ct.Range? && ct.lb <= SignedVal(b) <= ct.ub ==> Minimal(r.value))
            && (ct.Unconstrained? || !(ct.lb <= SignedVal(b) <= ct.ub) ==> r.value == b)
  {
    hide SignedVal, PutOctets, GetOctets, ToBits, Pow2, DecRange, Contents;
    var v := SignedVal(b);
    OctetsRoundTrip(b, rest);
    if ct.Range? {
      if ct.lb <= v <= ct.ub {
        UperRoundTrip.RangeBack(ct, v, rest);
        UperRoundTrip.FrontBit(false, ToBits(v - ct.lb, ct.rangeBits), rest);
        ContentsBack(v);
        ContentsMinimal(v);
        assert [] + ToBits(v - ct.lb, ct.rangeBits) == ToBits(v - ct.lb, ct.rangeBits);
      } else {
        UperRoundTrip.FrontBit(true, PutOctets(b), rest);
      }
    }
  }

  /** A native integer is encoded as the octets made of it would be. */
  lemma {:induction false} NativeIsInteger(ct: Constraint, v: int)
    requires FitsSigned(v)
    ensures EncInteger(ct, Contents(v)) == EncNumber(ct, v)
  {
    hide SignedVal, PutOctets, ToBits, Contents, FitsSigned;
    ContentsBack(v);
    if ct.Range? && !ct.extensible && ct.lb <= v <= ct.ub {
      assert [] + ToBits(v - ct.lb, ct.rangeBits) == ToBits(v - ct.lb, ct.rangeBits);
    }
  }

  // ---- Writing ----

  /** A field of at most 31 bits. */
  method Put(po: BitWriter, v: nat, n: nat) returns (rc: int)
    requires po.Valid() && n <= 31
    modifies po, po.tmpspace
    ensures po.Valid()
    ensures rc == 0 ==> po.Written() == old(po.Written()) + ToBits(v, n) && po.refused == old(po.refused)
    ensures rc != 0 ==> rc == -1 && po.refused
    ensures old(po.answers) == [] ==> po.answers == [] && rc == 0
  {
    hide BitWriter.Written, ToBits;
    rc := po.PutFewBits(v, n);
  }

  method PutLength(po: BitWriter, n: nat) returns (rc: int, eom: bool)
    requires po.Valid()
    modifies po, po.tmpspace
    ensures po.Valid()
    ensures rc >= 0 ==> rc == Covered(n) && eom == NeedsEnd(n)
    ensures rc >= 0 ==> po.Written() == old(po.Written()) + LengthBits(n) && po.refused == old(po.refused)
    ensures rc < 0 ==> po.refused
    ensures old(po.answers) == [] ==> po.answers == [] && rc >= 0
  {
    hide BitWriter.Written, ToBits;
    eom := false;
    if n <= 127 {
      rc := Put(po, n, 8);
      return if rc != 0 then -1 else n, eom;
    } else if n < FRAGMENT {
      rc := Put(po, n + 0x8000, 16);
      return if rc != 0 then -1 else n, eom;
    }
    eom := n % FRAGMENT == 0;
    var m := n / FRAGMENT;
    if m > 4 {
      eom := false;
      m := 4;
    }
    rc := Put(po, 0xC0 + m, 8);
    rc := if rc != 0 then -1 else m * FRAGMENT;
  }

  /** What the loop below has still to write. */
  ghost function Remaining(b: seq<byte>, at: nat): seq<bool> {
    if at <= |b| then PutOctets(b[at..]) else []
  }

  lemma {:induction false} RemainingStep(done: seq<bool>, b: seq<byte>, at: nat)
    requires at < |b|
    ensures var n := |b| - at; var k := Covered(n);
            done + Remaining(b, at)
            == done + LengthBits(n) + BytesToBits(b[at..][..k]) + (if NeedsEnd(n) then LengthBits(0) else [])
               + Remaining(b, at + k)
  {
    hide LengthBits, BytesToBits, Covered, NeedsEnd;
    var n := |b| - at;
    var k := Covered(n);
    assert b[at..][k..] == b[at + k..];
  }

  /** The loop that puts octets in as many fragments as they need. */
  method PutOctetString(po: BitWriter, b: seq<byte>) returns (rc: int)
    requires po.Valid()
    modifies po, po.tmpspace
    ensures po.Valid() && (rc == 0 || rc == -1)
    ensures rc == 0 ==> po.Written() == old(po.Written()) + PutOctets(b) && po.refused == old(po.refused)
    ensures rc == -1 ==> po.refused
    ensures old(po.answers) == [] ==> po.answers == [] && rc == 0
  {
    hide BitWriter.Written, PutOctets, LengthBits, BytesToBits, Covered, NeedsEnd, Remaining;
    ghost var goal := po.Written() + PutOctets(b);
    var at := 0;
    assert po.Written() + Remaining(b, 0) == goal by { WholeRemaining(b); }
    while at < |b|
      invariant at <= |b| && po.Valid() && po.refused == old(po.refused)
      invariant po.Written() + Remaining(b, at) == goal
      invariant old(po.answers) == [] ==> po.answers == []
    {
      RemainingStep(po.Written(), b, at);
      rc := PutFragment(po, b, at);
      if rc < 0 {
        return -1;
      }
      at := at + rc;
    }
    assert po.Written() == goal by { NothingRemains(po.Written(), b); }
    rc := 0;
  }

  lemma {:induction false} WholeRemaining(b: seq<byte>)
    ensures Remaining(b, 0) == PutOctets(b)
  {
    hide PutOctets;
    assert b[0..] == b;
  }

  lemma {:induction false} NothingRemains(done: seq<bool>, b: seq<byte>)
    ensures done + Remaining(b, |b|) == done
  {
    assert PutOctets([]) == [];
  }

  /** One determinant, the octets it covers, and the end mark when they are the last. */
  method PutFragment(po: BitWriter, b: seq<byte>, at: nat) returns (rc: int)
    requires po.Valid() && at < |b|
    modifies po, po.tmpspace
    ensures po.Valid()
    ensures rc >= 0 ==> rc == Covered(|b| - at) && po.refused == old(po.refused)
    ensures rc >= 0 ==> po.Written() == old(po.Written()) + LengthBits(|b| - at)
                        + BytesToBits(b[at..][..Covered(|b| - at)]) + (if NeedsEnd(|b| - at) then LengthBits(0) else [])
    ensures rc < 0 ==> po.refused
    ensures old(po.answers) == [] ==> po.answers == [] && rc >= 0
  {
    hide BitWriter.Written, LengthBits, BytesToBits, NeedsEnd;
    var may, eom := PutLength(po, |b| - at);
    if may < 0 {
      return -1;
    }
    var src := b[at..][..may];
    rc := po.PutManyBits(src, 8 * may);
    if rc != 0 {
      return -1;
    }
    assert BytesToBits(src)[..8 * may] == BytesToBits(src);
    if eom {
      var end, _ := PutLength(po, 0);
      if end != 0 {
        return -1;
      }
    }
    rc := may;
  }

  /** INTEGER_encode_uper. */
  method EncodeInteger(po: BitWriter, ct: Constraint, b: seq<byte>) returns (rc: int)
    requires po.Valid() && WellFormed(Number(ct))
    modifies po, po.tmpspace
    ensures po.Valid() && (rc == 0 || rc == -1)
    ensures rc == 0 ==> EncInteger(ct, b).Bits? && po.Written() == old(po.Written()) + EncInteger(ct, b).bits
    ensures rc == 0 ==> po.refused == old(po.refused)
    ensures rc == -1 ==> po.refused || EncInteger(ct, b).Refused?
    ensures old(po.answers) == [] ==> po.answers == [] && (rc == 0 <==> EncInteger(ct, b).Bits?)
  {
    hide BitWriter.Written, PutOctets, ToBits, SignedVal, FitsSigned;
    if b == [] {
      return -1;
    }
    if ct == Unconstrained(false) {
      rc := PutOctetString(po, b);
      return;
    }
    var value := Integer2Imax(b);
    if value.None? {
      return -1;
    }
    if ct.Unconstrained? {
      rc := PutOctetString(po, b);
    } else {
      rc := EncodeInRange(po, ct, b, value.value);
    }
  }

  method EncodeInRange(po: BitWriter, ct: Constraint, b: seq<byte>, value: int) returns (rc: int)
    requires po.Valid() && ct.Range? && WellFormed(Number(ct)) && b != [] && value == SignedVal(b) && FitsSigned(value)
    modifies po, po.tmpspace
    ensures po.Valid() && (rc == 0 || rc == -1)
    ensures rc == 0 ==> EncInteger(ct, b).Bits? && po.Written() == old(po.Written()) + EncInteger(ct, b).bits
    ensures rc == 0 ==> po.refused == old(po.refused)
    ensures rc == -1 ==> po.refused || EncInteger(ct, b).Refused?
    ensures old(po.answers) == [] ==> po.answers == [] && (rc == 0 <==> EncInteger(ct, b).Bits?)
  {
    hide BitWriter.Written, PutOctets, ToBits, SignedVal, Pow2;
    ghost var before := po.Written();
    var inext := value < ct.lb || value > ct.ub;
    if ct.extensible {
      OneBit(if inext then 1 else 0);
      rc := Put(po, if inext then 1 else 0, 1);
      if rc != 0 {
        return;
      }
    } else if inext {
      return -1;
    }
    ghost var mark := if ct.extensible then [inext] else [];
    assert po.Written() == before + mark;
    if inext {
      rc := PutOctetString(po, b);
      Associate(before, mark, PutOctets(b));
    } else {
      var v := Rebase(value, ct.lb, ct.ub);
      rc := PutConstrained(po, v.value, ct.rangeBits);
      Associate(before, mark, ToBits(v.value, ct.rangeBits));
    }
  }

  /** NativeInteger_encode_uper. */
  method EncodeNative(po: BitWriter, ct: Constraint, v: int) returns (rc: int)
    requires po.Valid() && WellFormed(Number(ct)) && FitsSigned(v)
    modifies po, po.tmpspace
    ensures po.Valid() && (rc == 0 || rc == -1)
    ensures rc == 0 ==> EncNumber(ct, v).Bits? && po.Written() == old(po.Written()) + EncNumber(ct, v).bits
    ensures rc == 0 ==> po.refused == old(po.refused)
    ensures rc == -1 ==> po.refused || EncNumber(ct, v).Refused?
    ensures old(po.answers) == [] ==> po.answers == [] && (rc == 0 <==> EncNumber(ct, v).Bits?)
  {
    hide BitWriter.Written, EncInteger, EncNumber, SignedVal, WellFormed;
    var b := Imax2Integer(v);
    assert b == Contents(v) by {
      ContentsBack(v);
      ContentsMinimal(v);
      MinimalUnique(b, Contents(v));
    }
    NativeIsInteger(ct, v);
    rc := EncodeInteger(po, ct, b);
  }

  // ---- Reading ----

  /** A field of at most 31 bits, or -1. */
  method Fetch(pd: BitReader, n: nat) returns (v: int)
    requires pd.Valid() && n <= 31
    modifies pd
    ensures pd.Valid()
    ensures v >= 0 ==> Take(old(pd.All()), n) == Ok(v, pd.All())
    ensures v < 0 ==> v == -1 && Take(old(pd.All()), n) == Starved
  {
    hide Val, BitReader.All, Crosses;
    v := pd.GetFewBits(n);
  }

  /** uper_get_length of an unconstrained length; every failure is -1. */
  method FetchLength(pd: BitReader) returns (n: int, repeat: bool)
    requires pd.Valid()
    modifies pd
    ensures pd.Valid()
    ensures n >= 0 ==> GetLength(old(pd.All())) == Ok((n, repeat), pd.All())
    ensures n < 0 ==> GetLength(old(pd.All())) == Starved
  {
    hide BitReader.All, Take;
    repeat := false;
    var value := Fetch(pd, 8);
    if value < 0 {
      return -1, false;
    }
    if value < 0x80 {
      return value, false;
    } else if value < 0xC0 {
      var low := Fetch(pd, 8);
      return if low < 0 then -1 else (value - 0x80) * 0x100 + low, false;
    }
    value := value - 0xC0;
    if value < 1 || value > 4 {
      return -1, false;
    }
    return FRAGMENT * value, true;
  }

  /** Octets of one fragment. */
  method FetchOctets(pd: BitReader, n: nat) returns (r: Option<seq<byte>>)
    requires pd.Valid()
    modifies pd
    ensures pd.Valid()
    ensures r.Some? <==> 8 * n <= |old(pd.All())|
    ensures r.Some? ==> r.value == FromBits(old(pd.All())[..8 * n]) && pd.All() == old(pd.All())[8 * n..]
  {
    hide BitReader.All, BytesToBits, FromBits, Zeros;
    ghost var all := pd.All();
    var dst := new byte[n];
    var rc := pd.GetManyBits(dst, false, 8 * n);
    if rc != 0 {
      return None;
    }
    assert dst[..(8 * n + 7) / 8] == dst[..];
    assert BytesToBits(dst[..]) == all[..8 * n] by { NoPadding(all[..8 * n]); }
    FromBitsOf(dst[..]);
    r := Some(dst[..]);
  }

  lemma {:induction false} NoPadding(s: seq<bool>)
    requires |s| % 8 == 0
    ensures Aligned(false, s) == s
  {
  }

  /** What has been read so far, in front of what the rest of the stream gives. */
  ghost function Prepend(b: seq<byte>, r: Got<seq<byte>>): Got<seq<byte>> {
    if r.Ok? then Ok(b + r.value, r.rest) else r
  }

  lemma {:induction false} GetStep(b: seq<byte>, s: seq<bool>, n: nat, repeat: bool, after: seq<bool>)
    requires GetLength(s) == Ok((n, repeat), after)
    ensures 8 * n > |after| ==> Prepend(b, GetOctets(s)) == Starved
    ensures 8 * n <= |after| && repeat ==>
              Prepend(b, GetOctets(s)) == Prepend(b + FromBits(after[..8 * n]), GetOctets(after[8 * n..]))
    ensures 8 * n <= |after| && !repeat ==> Prepend(b, GetOctets(s)) == Ok(b + FromBits(after[..8 * n]), after[8 * n..])
  {
    hide GetLength, FromBits;
    if 8 * n <= |after| && repeat {
      var more := GetOctets(after[8 * n..]);
      if more.Ok? {
        assert b + (FromBits(after[..8 * n]) + more.value) == b + FromBits(after[..8 * n]) + more.value;
      }
    }
  }

  /** The loop that collects fragments. */
  method FetchOctetString(pd: BitReader) returns (r: Option<seq<byte>>)
    requires pd.Valid()
    modifies pd
    ensures pd.Valid()
    ensures r.Some? ==> GetOctets(old(pd.All())) == Ok(r.value, pd.All())
    ensures r.None? ==> GetOctets(old(pd.All())) == Starved
  {
    hide BitReader.All, GetOctets, GetLength, FromBits;
    ghost var goal := GetOctets(pd.All());
    var buf: seq<byte>, repeat := [], true;
    assert goal == Prepend([], goal) by { PrependNothing(goal); }
    while repeat
      invariant pd.Valid()
      invariant repeat ==> goal == Prepend(buf, GetOctets(pd.All()))
      invariant !repeat ==> goal == Ok(buf, pd.All())
      decreases repeat, |pd.All()|
    {
      ghost var all := pd.All();
      var n;
      n, repeat := FetchLength(pd);
      if n < 0 {
        assert GetOctets(all) == Starved by { NoLength(all); }
        return None;
      }
      GetStep(buf, all, n, repeat, pd.All());
      var part := FetchOctets(pd, n);
      if part.None? {
        return None;
      }
      buf := buf + part.value;
    }
    r := Some(buf);
  }

  lemma {:induction false} PrependNothing(r: Got<seq<byte>>)
    ensures r == Prepend([], r)
  {
    if r.Ok? {
      assert [] + r.value == r.value;
    }
  }

  lemma {:induction false} NoLength(s: seq<bool>)
    requires GetLength(s) == Starved
    ensures GetOctets(s) == Starved
  {
    hide GetLength;
  }

  /** The outcome of a decoder. */
  datatype Decoded<T> = Done(value: T) | WantMore | Fail

  /** A failure handed on. */
  function Undone<T, U>(r: Decoded<T>): Decoded<U>
    requires !r.Done?
  {
    match r
    case WantMore => WantMore
    case Fail => Fail
  }

  /** A decoder's outcome and the position it leaves, against what reading the stream comes to. */
  ghost predicate Agrees<T>(r: Decoded<T>, g: Got<T>, left: seq<bool>) {
    match g
    case Ok(v, rest) => r == Done(v) && left == rest
    case Starved => r == WantMore
    case Failed => r == Fail
  }

  /** The bit field of a constrained number. */
  method DecodeRange(pd: BitReader, ct: Constraint) returns (r: Decoded<int>)
    requires pd.Valid() && ct.Range? && WellFormed(Number(ct))
    modifies pd
    ensures pd.Valid()
    ensures var g := DecRange(ct, old(pd.All()));
            Agrees(r, if g.Ok? then Ok(g.value.v, g.rest) else Failure(g), pd.All())
    ensures r.Done? ==> ct.lb <= r.value <= ct.ub
  {
    hide BitReader.All, Val, Pow2;
    var u := GetConstrained(pd, ct.rangeBits);
    if u.None? {
      return WantMore;
    }
    assert u.value < TWO64 by { FieldFits(old(pd.All())[..ct.rangeBits]); }
    var v := Unrebase(u.value, ct.lb, ct.ub);
    r := if v.None? then Fail else Done(v.value);
  }

  lemma {:induction false} FieldFits(s: seq<bool>)
    requires |s| <= 64
    ensures Val(s) < TWO64
  {
    hide Val, Pow2;
    ValBound(s);
    Pow2Mono(|s|, 64);
    Pow2Wide();
  }

  /** INTEGER_decode_uper. */
  method DecodeInteger(pd: BitReader, ct: Constraint) returns (r: Decoded<seq<byte>>)
    requires pd.Valid() && WellFormed(Number(ct))
    modifies pd
    ensures pd.Valid()
    ensures Agrees(r, DecInteger(ct, old(pd.All())), pd.All())
  {
    hide BitReader.All, GetOctets, DecRange, Pow2, Contents, SignedVal, Superfluous;
    var whole := ct.Unconstrained?;
    if ct.Range? && ct.extensible {
      var inext := Fetch(pd, 1);
      assert inext >= 0 ==> inext == (if old(pd.All())[0] then 1 else 0) by { FirstBit(old(pd.All())); }
      if inext < 0 {
        return WantMore;
      }
      whole := inext == 1;
    }
    if whole {
      var b := FetchOctetString(pd);
      r := if b.None? then WantMore else Done(b.value);
    } else {
      var v := DecodeRange(pd, ct);
      if !v.Done? {
        return Undone(v);
      }
      var b := Imax2Integer(v.value);
      assert b == Contents(v.value) by {
        ContentsBack(v.value);
        ContentsMinimal(v.value);
        MinimalUnique(b, Contents(v.value));
      }
      r := Done(b);
    }
  }

  lemma {:induction false} FirstBit(s: seq<bool>)
    ensures Take(s, 1) == if s == [] then Starved else Ok(if s[0] then 1 else 0, s[1..])
  {
    if s != [] {
      assert s[..1] == [s[0]] && [s[0]][..0] == [];
      assert Val([]) == 0;
    }
  }

  /** Decoding a native integer is decoding the octets and converting them. */
  lemma {:induction false} NativeDecodes(ct: Constraint, s: seq<bool>)
    requires WellFormed(Number(ct))
    ensures var g := DecInteger(ct, s);
            DecNumber(ct, s)
            == if !g.Ok? then Failure(g)
               else if FitsSigned(SignedVal(g.value)) then Ok(Native(SignedVal(g.value)), g.rest) else Failed
  {
    hide GetOctets, Pow2, SignedVal, FitsSigned, Contents, Take;
    if ct.Range? && !(ct.extensible && s != [] && s[0]) && !(ct.extensible && s == []) {
      var s' := if ct.extensible then s[1..] else s;
      var u := DecRange(ct, s');
      if u.Ok? {
        InRangeFits(ct, u.value.v);
        ContentsBack(u.value.v);
      }
    }
  }

  lemma {:induction false} InRangeFits(ct: Constraint, v: int)
    requires ct.Range? && WellFormed(Number(ct)) && ct.lb <= v <= ct.ub
    ensures FitsSigned(v)
  {
    hide Pow2;
  }

  /** NativeInteger_decode_uper. */
  method DecodeNative(pd: BitReader, ct: Constraint) returns (r: Decoded<Value>)
    requires pd.Valid() && WellFormed(Number(ct))
    modifies pd
    ensures pd.Valid()
    ensures Agrees(r, DecNumber(ct, old(pd.All())), pd.All())
  {
    hide BitReader.All, DecInteger, DecNumber, SignedVal, FitsSigned, WellFormed;
    NativeDecodes(ct, pd.All());
    var b := DecodeInteger(pd, ct);
    if !b.Done? {
      return Undone(b);
    }
    var v := Integer2Imax(b.value);
    r := if v.None? then Fail else Done(Native(v.value));
  }
}
