/**
  BIT STRING in unaligned PER: without a size constraint in fragments, with one as a length field
  and the bits, filled up with zero bits to the least size.
 */
module BitStringUper {
  import opened Bits
  import opened Options
  import opened BitOutput
  import opened BitInput
  import opened PerSupport
  import opened Uper
  import opened IntegerUper
  import opened BitString
  import UperRoundTrip

  datatype Size =
    | Unlimited
    | Sized(lb: nat, ub: nat, effectiveBits: nat, extensible: bool)

  ghost predicate GoodSize(z: Size) {
    z.Sized? ==> z.lb <= z.ub && z.ub - z.lb < Pow2(z.effectiveBits) && z.effectiveBits <= 16
  }

  /** Bits behind length determinants that count bits. */
  function Fragments(s: seq<bool>): seq<bool>
    decreases |s|
  {
    if s == [] then []
    else
      var k := Covered(|s|);
      LengthBits(|s|) + s[..k] + (if NeedsEnd(|s|) then LengthBits(0) else []) + Fragments(s[k..])
  }

  function PutBits(s: seq<bool>): seq<bool> {
    if s == [] then LengthBits(0) else Fragments(s)
  }

  function GetBits(t: seq<bool>): (r: Got<seq<bool>>)
    ensures if r.Ok? then |r.rest| < |t| else r.Starved?
    decreases |t|
  {
    var a := GetLength(t);
    if !a.Ok? then Starved
    else
      var (n, repeat) := a.value;
      if n > |a.rest| then Starved
      else if !repeat then Ok(a.rest[..n], a.rest[n..])
      else
        var more := GetBits(a.rest[n..]);
        if more.Ok? then Ok(a.rest[..n] + more.value, more.rest) else more
  }

  /** What the encoder writes once the trailing zero bits of a value are gone. */
  function EncBits(z: Size, s: seq<bool>): Encoded {
    if z.Unlimited? then Bits(PutBits(s))
    else
      var inext := |s| > z.ub;
      if inext && !z.extensible then Refused
      else
        var mark := if z.extensible then [inext] else [];
        Bits(mark + if inext then PutBits(s) else Field(z, s))
  }

  function Field(z: Size, s: seq<bool>): seq<bool>
    requires z.Sized?
  {
    if |s| < z.lb then ToBits(0, z.effectiveBits) + s + Zeros(z.lb - |s|)
    else ToBits(|s| - z.lb, z.effectiveBits) + s
  }

  function GetField(z: Size, t: seq<bool>): Got<seq<bool>>
    requires z.Sized?
  {
    if z.effectiveBits == 0 then
      if z.ub > |t| then Starved else Ok(t[..z.ub], t[z.ub..])
    else
      var length := Take(t, z.effectiveBits);
      if !length.Ok? || length.value + z.lb > |length.rest| then Starved
      else Ok(length.rest[..length.value + z.lb], length.rest[length.value + z.lb..])
  }

  function DecBits(z: Size, t: seq<bool>): Got<seq<bool>> {
    if z.Unlimited? then GetBits(t)
    else if !z.extensible then GetField(z, t)
    else if t == [] then Starved
    else if t[0] then GetBits(t[1..])
    else GetField(z, t[1..])
  }

  /** The bits a value of size constraint `z` comes back with. */
  function Refilled(z: Size, s: seq<bool>): seq<bool> {
    if z.Sized? && |s| < z.lb then s + Zeros(z.lb - |s|) else s
  }

  // ---- Round trips ----

  lemma {:induction false} BitsStep(n: nat, s: seq<bool>, rest: seq<bool>)
    requires |s| == Covered(n)
    ensures var t := LengthBits(n) + s + rest; var a := GetLength(t);
            a == Ok((|s|, n >= FRAGMENT), s + rest) && a.rest[..|s|] == s && a.rest[|s|..] == rest
  {
    hide GetLength, LengthBits, Covered;
    Associate(LengthBits(n), s, rest);
    LengthBack(n, s + rest);
  }

  lemma {:induction false} BitsRepeated(t: seq<bool>, s: seq<bool>, tail: seq<bool>)
    requires GetLength(t) == Ok((|s|, true), s + tail) && (s + tail)[..|s|] == s && (s + tail)[|s|..] == tail
    requires GetBits(tail).Ok?
    ensures GetBits(t) == Ok(s + GetBits(tail).value, GetBits(tail).rest)
  {
    hide GetLength;
  }

  lemma {:induction false} NoMoreBits(rest: seq<bool>)
    ensures GetBits(LengthBits(0) + rest) == Ok([], rest)
  {
    hide GetLength, LengthBits;
    LengthBack(0, rest);
    assert rest[..0] == [] && rest[0..] == rest;
  }

  lemma {:induction false} FragmentsLast(s: seq<bool>)
    requires s != [] && Covered(|s|) == |s|
    ensures Fragments(s) == LengthBits(|s|) + s + (if NeedsEnd(|s|) then LengthBits(0) else [])
  {
    hide LengthBits, Covered, NeedsEnd;
    assert s[..|s|] == s && s[|s|..] == [];
    assert Fragments(s[|s|..]) == [];
  }

  lemma {:induction false} FragmentsBack(s: seq<bool>, rest: seq<bool>)
    requires s != []
    ensures GetBits(Fragments(s) + rest) == Ok(s, rest)
    decreases |s|
  {
    hide GetLength, LengthBits, GetBits, Fragments;
    if |s| < FRAGMENT {
      LastBack(s, rest);
    } else if NeedsEnd(|s|) {
      EndBack(s, rest);
    } else {
      FragmentsBack(s[Covered(|s|)..], rest);
      MiddleBack(s, rest);
    }
  }

  lemma {:induction false} LastBack(s: seq<bool>, rest: seq<bool>)
    requires 0 < |s| < FRAGMENT
    ensures GetBits(Fragments(s) + rest) == Ok(s, rest)
  {
    hide GetLength, LengthBits, Fragments;
    FragmentsLast(s);
    assert Fragments(s) == LengthBits(|s|) + s;
    BitsStep(|s|, s, rest);
  }

  lemma {:induction false} EndBack(s: seq<bool>, rest: seq<bool>)
    requires NeedsEnd(|s|)
    ensures GetBits(Fragments(s) + rest) == Ok(s, rest)
  {
    hide GetLength, LengthBits, Fragments, GetBits;
    FragmentsLast(s);
    var end := LengthBits(0);
    Associate(LengthBits(|s|) + s, end, rest);
    BitsStep(|s|, s, end + rest);
    NoMoreBits(rest);
    BitsRepeated(Fragments(s) + rest, s, end + rest);
    assert s + [] == s;
  }

  lemma {:induction false} MiddleBack(s: seq<bool>, rest: seq<bool>)
    requires |s| >= FRAGMENT && !NeedsEnd(|s|)
    requires GetBits(Fragments(s[Covered(|s|)..]) + rest) == Ok(s[Covered(|s|)..], rest)
    ensures GetBits(Fragments(s) + rest) == Ok(s, rest)
  {
    hide GetLength, LengthBits, GetBits, Covered, NeedsEnd;
    var k := Covered(|s|);
    var tail := Fragments(s[k..]);
    assert Fragments(s) == LengthBits(|s|) + s[..k] + tail;
    Associate(LengthBits(|s|) + s[..k], tail, rest);
    BitsStep(|s|, s[..k], tail + rest);
    BitsRepeated(Fragments(s) + rest, s[..k], tail + rest);
    assert s == s[..k] + s[k..];
  }

  lemma {:induction false} PutBitsBack(s: seq<bool>, rest: seq<bool>)
    ensures GetBits(PutBits(s) + rest) == Ok(s, rest)
  {
    hide GetBits, Fragments, LengthBits;
    if s == [] {
      NoMoreBits(rest);
    } else {
      FragmentsBack(s, rest);
    }
  }

  /** The field is the length of the refilled string, then that string. */
  lemma {:induction false} FieldForm(z: Size, s: seq<bool>)
    requires z.Sized?
    ensures |Refilled(z, s)| >= z.lb
    ensures Field(z, s) == ToBits(|Refilled(z, s)| - z.lb, z.effectiveBits) + Refilled(z, s)
  {
    hide ToBits;
    if |s| < z.lb {
      Associate(ToBits(0, z.effectiveBits), s, Zeros(z.lb - |s|));
    }
  }

  lemma {:induction false} FieldBack(z: Size, s: seq<bool>, rest: seq<bool>)
    requires GoodSize(z) && z.Sized? && |s| <= z.ub
    ensures GetField(z, Field(z, s) + rest) == Ok(Refilled(z, s), rest)
  {
    hide ToBits, Take, Pow2, Field;
    var r := Refilled(z, s);
    var length := ToBits(|r| - z.lb, z.effectiveBits);
    FieldForm(z, s);
    Associate(length, r, rest);
    if z.effectiveBits == 0 {
      Pow2Small();
      assert length == [] && [] + (r + rest) == r + rest;
    } else {
      TakeBack(|r| - z.lb, z.effectiveBits, r + rest);
    }
    assert (r + rest)[..|r|] == r && (r + rest)[|r|..] == rest;
  }

  lemma {:induction false} BitsBack(z: Size, s: seq<bool>, rest: seq<bool>)
    requires GoodSize(z) && EncBits(z, s).Bits?
    ensures DecBits(z, EncBits(z, s).bits + rest) == Ok(if z.Sized? && |s| <= z.ub then Refilled(z, s) else s, rest)
  {
    hide GetBits, PutBits, Field, GetField, Refilled, Pow2;
    PutBitsBack(s, rest);
    if z.Sized? {
      if |s| <= z.ub {
        FieldBack(z, s, rest);
        UperRoundTrip.FrontBit(false, Field(z, s), rest);
        assert [] + Field(z, s) == Field(z, s);
      } else {
        UperRoundTrip.FrontBit(true, PutBits(s), rest);
      }
    }
  }

  /**
    What comes back differs from what was sent in trailing zero bits only: a string of a fixed size
    comes back bit for bit, any other without its trailing zero bits unless they make up the least size.
   */
  lemma {:induction false} BitStringRoundTrip(z: Size, s: seq<bool>, rest: seq<bool>)
    requires GoodSize(z) && EncBits(z, Trim(s)).Bits?
    ensures var r := DecBits(z, EncBits(z, Trim(s)).bits + rest);
            && r.Ok? && r.rest == rest && Trim(r.value) == Trim(s)
            && (z.Sized? && z.lb == z.ub == |s| ==> r.value == s)
            && (z.Unlimited? || |Trim(s)| >= z.lb ==> r.value == Trim(s))
  {
    hide EncBits, DecBits, Trim, Pow2;
    var t := Trim(s);
    BitsBack(z, t, rest);
    TrimTwice(s);
    TrimPrefix(s);
    if z.Sized? && |t| < z.lb {
      TrimZeros(t, z.lb - |t|);
    } else {
      assert t + Zeros(0) == t;
    }
  }

  lemma {:induction false} TrimTwice(s: seq<bool>)
    ensures Trim(Trim(s)) == Trim(s)
  {
    if s != [] && !s[|s| - 1] {
      TrimTwice(s[..|s| - 1]);
    }
  }

  // ---- The encoder ----

  /** Zero bits up to the least size, sixteen octets at a time. */
  method PutTrailer(po: BitWriter, n: nat) returns (rc: int)
    requires po.Valid()
    modifies po, po.tmpspace
    ensures po.Valid()
    ensures rc == 0 ==> po.Written() == old(po.Written()) + Zeros(n)
    ensures rc != 0 ==> rc == -1 && po.refused
    ensures old(po.answers) == [] ==> po.answers == [] && rc == 0
  {
    hide BitWriter.Written, BytesToBits;
    var zeros: seq<byte> := [0, 0, 0, 0, 0, 0, 0, 0, 0, 0, 0, 0, 0, 0, 0, 0];
    ghost var before := po.Written();
    var left := n;
    rc := 0;
    assert before + Zeros(0) == before;
    while left > 0
      invariant 0 <= left <= n && po.Valid() && po.Written() == before + Zeros(n - left)
      invariant old(po.answers) == [] ==> po.answers == []
    {
      var some := if left > 128 then 128 else left;
      assert BytesToBits(zeros)[..some] == Zeros(some) by { ZeroOctets(zeros); }
      assert before + Zeros(n - left) + Zeros(some) == before + Zeros(n - left + some);
      rc := po.PutManyBits(zeros, some);
      if rc != 0 {
        return;
      }
      left := left - some;
    }
  }

  lemma {:induction false} ZeroOctets(b: seq<byte>)
    requires forall i :: 0 <= i < |b| ==> b[i] == 0
    ensures BytesToBits(b) == Zeros(8 * |b|)
  {
    hide ToBits;
    if b != [] {
      ZeroOctets(b[1..]);
      ToBitsZero(8);
    }
  }

  /** The length field, the bits and the trailer. */
  method EncodeSized(po: BitWriter, z: Size, st: BitStr) returns (rc: int)
    requires po.Valid() && st.Valid() && z.Sized? && GoodSize(z)
    modifies po, po.tmpspace
    ensures po.Valid()
    ensures rc == 0 ==> po.Written() == old(po.Written()) + Field(z, st.Bits())
    ensures rc != 0 ==> rc == -1 && po.refused
    ensures old(po.answers) == [] ==> po.answers == [] && rc == 0
  {
    hide BitWriter.Written, BytesToBits, ToBits, Zeros, Pow2;
    ghost var before, s := po.Written(), st.Bits();
    var n := 8 * |st.buf| - st.unused;
    var trailer := n < z.lb;
    var length := if trailer then 0 else n - z.lb;
    rc := Put(po, length, z.effectiveBits);
    if rc != 0 {
      return;
    }
    rc := po.PutManyBits(st.buf, n);
    if rc != 0 {
      return;
    }
    ghost var field := ToBits(length, z.effectiveBits);
    Associate(before, field, s);
    if trailer {
      rc := PutTrailer(po, z.lb - n);
      Associate(before, field + s, Zeros(z.lb - n));
    }
  }

  lemma {:induction false} FragmentsStep(done: seq<bool>, s: seq<bool>)
    requires s != []
    ensures var k := Covered(|s|);
            done + Fragments(s)
            == done + LengthBits(|s|) + s[..k] + (if NeedsEnd(|s|) then LengthBits(0) else []) + Fragments(s[k..])
    ensures Covered(|s|) < |s| ==> Covered(|s|) % 8 == 0
  {
    hide LengthBits, NeedsEnd;
    assert FRAGMENT % 8 == 0;
  }

  /** One determinant, the bits it covers, and the end mark when they are the last. */
  method PutBitFragment(po: BitWriter, b: seq<byte>, n: nat) returns (rc: int)
    requires po.Valid() && n <= 8 * |b|
    modifies po, po.tmpspace
    ensures po.Valid()
    ensures rc >= 0 ==> rc == Covered(n)
    ensures rc >= 0 ==> po.Written() == old(po.Written()) + LengthBits(n) + BytesToBits(b)[..Covered(n)]
                                        + (if NeedsEnd(n) then LengthBits(0) else [])
    ensures rc < 0 ==> rc == -1 && po.refused
    ensures old(po.answers) == [] ==> po.answers == [] && rc >= 0
  {
    hide BitWriter.Written, LengthBits, BytesToBits, NeedsEnd;
    var may, eom := PutLength(po, n);
    if may < 0 {
      return -1;
    }
    rc := po.PutManyBits(b, may);
    if rc != 0 {
      return -1;
    }
    if eom {
      var end, _ := PutLength(po, 0);
      if end != 0 {
        return -1;
      }
    }
    rc := may;
  }

  /** The loop that puts bits in as many fragments as they need, at least one. */
  method PutBitString(po: BitWriter, st: BitStr) returns (rc: int)
    requires po.Valid() && st.Valid()
    modifies po, po.tmpspace
    ensures po.Valid()
    ensures rc == 0 ==> po.Written() == old(po.Written()) + PutBits(st.Bits())
    ensures rc != 0 ==> rc == -1 && po.refused
    ensures old(po.answers) == [] ==> po.answers == [] && rc == 0
  {
    hide BitWriter.Written, LengthBits, BytesToBits, NeedsEnd, Fragments, Covered;
    ghost var before, s := po.Written(), st.Bits();
    ghost var goal := before + PutBits(s);
    var buf, left := st.buf, 8 * |st.buf| - st.unused;
    if left == 0 {
      rc := PutBitFragment(po, buf, 0);
      assert Covered(0) == 0 && !NeedsEnd(0) by { NothingCovered(); }
      assert po.Written() == goal || rc < 0;
      return;
    }
    while left > 0
      invariant 0 <= left <= 8 * |buf| && po.Valid()
      invariant po.Written() + Fragments(BytesToBits(buf)[..left]) == goal
      invariant old(po.answers) == [] ==> po.answers == []
    {
      ghost var rest := BytesToBits(buf)[..left];
      FragmentsStep(po.Written(), rest);
      assert rest[..Covered(left)] == BytesToBits(buf)[..Covered(left)];
      rc := PutBitFragment(po, buf, left);
      if rc < 0 {
        return;
      }
      OctetsOn(buf, rc, left);
      if rc < left {
        buf := buf[rc / 8..];
      }
      left := left - rc;
    }
    assert Fragments([]) == [] by { NoFragments(); }
    rc := 0;
  }

  lemma {:induction false} NothingCovered()
    ensures Covered(0) == 0 && !NeedsEnd(0)
  {
  }

  lemma {:induction false} NoFragments()
    ensures Fragments([]) == []
  {
  }

  /** Moving on by whole octets. */
  lemma {:induction false} OctetsOn(b: seq<byte>, k: nat, n: nat)
    requires k <= n <= 8 * |b| && (k < n ==> k % 8 == 0)
    ensures k < n ==> n - k <= 8 * |b[k / 8..]| && BytesToBits(b)[..n][k..] == BytesToBits(b[k / 8..])[..n - k]
    ensures k == n ==> BytesToBits(b)[..n][k..] == []
  {
    hide BytesToBits;
    if k < n {
      BytesToBitsTake(b, k / 8);
      assert BytesToBits(b)[..n][k..] == BytesToBits(b)[k..][..n - k];
    }
  }

  /** Compaction goes by the octets: bits beyond the end that are not zero would be sent as well. */
  function EncString(z: Size, st: BitStr): Encoded {
    if !st.Valid() then Refused else EncBits(z, Trim(BytesToBits(st.buf)))
  }

  /** When the bits beyond the end are zero, what is sent is the string without its trailing zero bits. */
  lemma {:induction false} CleanString(z: Size, st: BitStr)
    requires st.Clean()
    ensures EncString(z, st) == EncBits(z, Trim(st.Bits()))
  {
    hide BytesToBits, Trim, EncBits;
    TrimZeros(st.Bits(), st.unused);
  }

  /** BIT_STRING_encode_uper. */
  method EncodeBitString(po: BitWriter, z: Size, st: BitStr) returns (rc: int)
    requires po.Valid() && GoodSize(z)
    modifies po, po.tmpspace
    ensures po.Valid() && (rc == 0 || rc == -1)
    ensures rc == 0 ==> EncString(z, st).Bits? && po.Written() == old(po.Written()) + EncString(z, st).bits
    ensures rc == -1 ==> po.refused || EncString(z, st).Refused?
    ensures old(po.answers) == [] ==> po.answers == [] && (rc == 0 <==> EncString(z, st).Bits?)
  {
    hide BitWriter.Written, BytesToBits, PutBits, Field, Trim, Compact, Pow2, Zeros;
    if (st.buf == [] && st.unused != 0) || st.unused > 7 {
      return -1;
    }
    ghost var before := po.Written();
    var c := Compactify(st);
    CompactTrims(st.buf);
    ghost var s := Trim(BytesToBits(st.buf));
    var n := 8 * |c.buf| - c.unused;
    if z.Unlimited? {
      rc := PutBitString(po, c);
      return;
    }
    var inext := n > z.ub;
    if inext && !z.extensible {
      return -1;
    }
    rc := 0;
    if z.extensible {
      OneBit(if inext then 1 else 0);
      rc := Put(po, if inext then 1 else 0, 1);
      if rc != 0 {
        return;
      }
    }
    ghost var mark := if z.extensible then [inext] else [];
    assert po.Written() == before + mark;
    if inext {
      rc := PutBitString(po, c);
      Associate(before, mark, PutBits(s));
    } else {
      rc := EncodeSized(po, z, c);
      Associate(before, mark, Field(z, s));
    }
  }

  // ---- The decoder ----

  /** The octets that hold `s`, the last filled up with zero bits. */
  function Pack(s: seq<bool>): BitStr {
    BitStr(FromBits(s + Zeros(Padding(|s|))), Padding(|s|))
  }

  lemma {:induction false} PackBits(s: seq<bool>)
    ensures Pack(s).Clean() && Pack(s).Bits() == s
  {
    hide FromBits, BytesToBits;
    var t := s + Zeros(Padding(|s|));
    FromBitsBack(t);
    assert t[..|s|] == s;
  }

  /** `n` bits as octets. */
  method FetchBits(pd: BitReader, n: nat) returns (r: Option<seq<byte>>)
    requires pd.Valid()
    modifies pd
    ensures pd.Valid()
    ensures r.Some? <==> n <= |old(pd.All())|
    ensures r.Some? ==> r.value == Pack(old(pd.All())[..n]).buf && pd.All() == old(pd.All())[n..]
  {
    hide BitReader.All, BytesToBits, FromBits, Zeros;
    ghost var all := pd.All();
    var size := (n + 7) / 8;
    var dst := new byte[size + 1];
    var rc := pd.GetManyBits(dst, false, n);
    if rc != 0 {
      return None;
    }
    FromBitsOf(dst[..size]);
    r := Some(dst[..size]);
  }

  /** A string read so far, in front of what the rest of the stream gives. */
  ghost function Prefixed(s: seq<bool>, g: Got<seq<bool>>): Got<seq<bool>> {
    if g.Ok? then Ok(s + g.value, g.rest) else g
  }

  lemma {:induction false} GetBitsStep(s: seq<bool>, t: seq<bool>, n: nat, repeat: bool, after: seq<bool>)
    requires GetLength(t) == Ok((n, repeat), after)
    ensures n > |after| ==> Prefixed(s, GetBits(t)) == Starved
    ensures n <= |after| && repeat ==> Prefixed(s, GetBits(t)) == Prefixed(s + after[..n], GetBits(after[n..]))
    ensures n <= |after| && !repeat ==> Prefixed(s, GetBits(t)) == Ok(s + after[..n], after[n..])
  {
    hide GetLength;
    if n <= |after| && repeat && GetBits(after[n..]).Ok? {
      Associate(s, after[..n], GetBits(after[n..]).value);
    }
  }

  /** Whole octets followed by the octets of more bits. */
  lemma {:induction false} PackMore(s: seq<bool>, more: seq<bool>)
    requires |s| % 8 == 0
    ensures Pack(s).buf + Pack(more).buf == Pack(s + more).buf && Pack(s + more).unused == Pack(more).unused
  {
    hide FromBits, BytesToBits, Zeros, Padding;
    assert Padding(|s + more|) == Padding(|more|) && Padding(|s|) == 0 by { SamePadding(|s|, |more|); }
    var pad := Zeros(Padding(|more|));
    assert s + Zeros(0) == s by { NoZeros(s); }
    Associate(s, more, pad);
    assert |more + pad| % 8 == 0 by { SamePadding(|s|, |more|); }
    FromBitsBack(s);
    FromBitsBack(more + pad);
    FromBitsBack(s + (more + pad));
    BytesToBitsConcat(FromBits(s), FromBits(more + pad));
    BytesToBitsInjective(FromBits(s) + FromBits(more + pad), FromBits(s + (more + pad)));
  }

  lemma {:induction false} SamePadding(m: nat, n: nat)
    requires m % 8 == 0
    ensures Padding(m + n) == Padding(n) && Padding(m) == 0 && (n + Padding(n)) % 8 == 0
    ensures (m + n + Padding(n)) % 8 == 0
  {
    PaddingWhole(n);
    assert m == 8 * (m / 8);
    SameFraction(m / 8, n);
    SameFraction(m / 8, n + Padding(n));
  }

  lemma {:induction false} PaddingWhole(n: nat)
    ensures (n + Padding(n)) % 8 == 0
  {
  }

  lemma {:induction false} NoZeros(s: seq<bool>)
    ensures s + Zeros(0) == s
  {
  }

  lemma {:induction false} RepeatsWhole(t: seq<bool>)
    requires GetLength(t).Ok? && GetLength(t).value.1
    ensures GetLength(t).value.0 % 8 == 0
  {
    hide Take;
  }

  /** The loop that collects fragments of bits. */
  method FetchBitString(pd: BitReader) returns (r: Option<BitStr>)
    requires pd.Valid()
    modifies pd
    ensures pd.Valid()
    ensures var g := GetBits(old(pd.All()));
            if g.Ok? then r == Some(Pack(g.value)) && pd.All() == g.rest else r == None
  {
    hide BitReader.All, GetBits, GetLength, Pack, Padding;
    ghost var goal, s: seq<bool> := GetBits(pd.All()), [];
    var buf: seq<byte>, unused, repeat := [], 0, true;
    assert Prefixed([], goal) == goal by { PrefixNothing(goal); }
    assert Pack([]).buf == [] by { PackNothing(); }
    while repeat
      invariant pd.Valid() && buf == Pack(s).buf
      invariant repeat ==> goal == Prefixed(s, GetBits(pd.All())) && |s| % 8 == 0 && unused == 0
      invariant !repeat ==> goal == Ok(s, pd.All()) && unused == Pack(s).unused
      decreases repeat, |pd.All()|
    {
      ghost var all := pd.All();
      var n;
      n, repeat := FetchLength(pd);
      if n < 0 {
        NoBitLength(s, all);
        return None;
      }
      GetBitsStep(s, all, n, repeat, pd.All());
      ghost var part := pd.All();
      if n % 8 != 0 {
        unused := 8 - n % 8;
      }
      var octets := FetchBits(pd, n);
      if octets.None? {
        return None;
      }
      PackMore(s, part[..n]);
      PackUnused(part[..n]);
      if repeat {
        RepeatsWhole(all);
        WholeSum(|s|, n);
      }
      s := s + part[..n];
      buf := buf + octets.value;
    }
    r := Some(BitStr(buf, unused));
  }

  lemma {:induction false} WholeSum(m: nat, n: nat)
    requires m % 8 == 0 && n % 8 == 0
    ensures (m + n) % 8 == 0
  {
  }

  lemma {:induction false} PrefixNothing(g: Got<seq<bool>>)
    ensures Prefixed([], g) == g
  {
    if g.Ok? {
      assert [] + g.value == g.value;
    }
  }

  lemma {:induction false} PackNothing()
    ensures Pack([]).buf == []
  {
    assert |[] + Zeros(0)| == 0;
  }

  lemma {:induction false} PackUnused(s: seq<bool>)
    ensures Pack(s).unused == if |s| % 8 == 0 then 0 else 8 - |s| % 8
  {
    hide FromBits;
  }

  lemma {:induction false} NoBitLength(s: seq<bool>, t: seq<bool>)
    requires GetLength(t) == Starved
    ensures GetBits(t) == Starved && Prefixed(s, GetBits(t)) == Starved
  {
    hide GetLength;
  }

  /** BIT_STRING_decode_uper. */
  method DecodeBitString(pd: BitReader, z: Size) returns (r: Decoded<BitStr>)
    requires pd.Valid() && GoodSize(z)
    modifies pd
    ensures pd.Valid()
    ensures var g := DecBits(z, old(pd.All()));
            Agrees(r, if g.Ok? then Ok(Pack(g.value), g.rest) else Failure(g), pd.All())
  {
    hide BitReader.All, GetBits, GetField, Pack, Pow2;
    var whole := z.Unlimited?;
    if z.Sized? && z.extensible {
      FirstBit(pd.All());
      var inext := Fetch(pd, 1);
      if inext < 0 {
        return WantMore;
      }
      whole := inext == 1;
    }
    if whole {
      var st := FetchBitString(pd);
      r := if st.None? then WantMore else Done(st.value);
    } else {
      r := DecodeSized(pd, z);
    }
  }

  method DecodeSized(pd: BitReader, z: Size) returns (r: Decoded<BitStr>)
    requires pd.Valid() && z.Sized? && GoodSize(z)
    modifies pd
    ensures pd.Valid()
    ensures var g := GetField(z, old(pd.All()));
            Agrees(r, if g.Ok? then Ok(Pack(g.value), g.rest) else Failure(g), pd.All())
  {
    hide BitReader.All, Pow2, Take, FromBits, Zeros;
    var n := z.ub;
    if z.effectiveBits != 0 {
      n := Fetch(pd, z.effectiveBits);
      if n < 0 {
        return WantMore;
      }
      n := n + z.lb;
    }
    var octets := FetchBits(pd, n);
    r := if octets.None? then WantMore else Done(BitStr(octets.value, (8 - n % 8) % 8));
  }

  // ---- End to end ----

  /** Encode, flush to octets and decode: the same string up to trailing zero bits, of a fixed size bit for bit. */
  method TransferBits(z: Size, st: BitStr) returns (r: Decoded<BitStr>)
    requires GoodSize(z) && st.Clean()
    ensures EncBits(z, Trim(st.Bits())).Refused? ==> r == Fail
    ensures EncBits(z, Trim(st.Bits())).Bits? ==>
              r.Done? && r.value.Clean() && Trim(r.value.Bits()) == Trim(st.Bits())
    ensures EncBits(z, Trim(st.Bits())).Bits? && z.Sized? && z.lb == z.ub == |st.Bits()| ==> r == Done(st)
  {
    hide BitWriter.Written, BitReader.All, EncBits, DecBits, Trim, BytesToBits, Zeros, Pack, Pow2;
    var po := new BitWriter([]);
    CleanString(z, st);
    var rc := EncodeBitString(po, z, st);
    if rc != 0 {
      return Fail;
    }
    rc := po.AlignedFlush();
    var octets := po.sink;
    var pd := new BitReader(octets, 8 * |octets|, false, []);
    ghost var bits := EncBits(z, Trim(st.Bits())).bits;
    ghost var pad := Zeros((8 - |bits| % 8) % 8);
    assert [] + bits == bits;
    assert pd.All() == bits + pad by {
      assert BytesToBits(octets)[..8 * |octets|] + [] == BytesToBits(octets);
    }
    BitStringRoundTrip(z, st.Bits(), pad);
    ghost var back := DecBits(z, pd.All()).value;
    PackBits(back);
    r := DecodeBitString(pd, z);
    if back == st.Bits() {
      SameBits(Pack(back), st);
    }
  }
}
