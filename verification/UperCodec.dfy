/**
  The unaligned PER codecs of SEQUENCE, CHOICE and ENUMERATED over the bit streams, each
  proved to do what the functions of module Uper say.
 */
module UperCodec {
  import opened Bits
  import opened Options
  import opened Integer
  import opened BitOutput
  import opened BitInput
  import opened PerSupport
  import opened Uper
  import opened IntegerUper
  import UperOrder
  import UperRoundTrip
  import UperReencode

  // ---- Encoding ----

  /**
    An encoder's return code against what it should have written: 0 when all of it is there, -1 when
    there is no encoding or when the sink refused.
   */
  ghost predicate Sent(rc: int, e: Encoded, before: seq<bool>, after: seq<bool>, refused: bool) {
    match e
    case Bits(bits) => (rc == 0 && after == before + bits) || (rc == -1 && refused)
    case Refused => rc == -1
  }

  /** The return code when no sink refuses. */
  ghost function Code(e: Encoded): int {
    match e
    case Bits(_) => 0
    case Refused => -1
  }

  /** uper_put_nsnnwn. */
  method PutSmallNumber(po: BitWriter, n: nat) returns (rc: int)
    requires po.Valid()
    modifies po, po.tmpspace
    ensures po.Valid() && (rc == 0 || rc == -1)
    ensures rc == 0 ==> PutSmall(n).Some? && po.Written() == old(po.Written()) + PutSmall(n).value
    ensures rc == -1 ==> po.refused || PutSmall(n).None?
    ensures old(po.answers) == [] ==> po.answers == [] && (rc == 0 <==> PutSmall(n).Some?)
  {
    hide BitWriter.Written, ToBits;
    if n <= 63 {
      rc := Put(po, n, 7);
      return;
    }
    var bytes := 0;
    if n < 0x100 {
      bytes := 1;
    } else if n < 0x1_0000 {
      bytes := 2;
    } else if n < 0x100_0000 {
      bytes := 3;
    } else {
      return -1;
    }
    ghost var before := po.Written();
    rc := Put(po, bytes, 8);
    if rc != 0 {
      return;
    }
    rc := Put(po, n, 8 * bytes);
    Associate(before, ToBits(bytes, 8), ToBits(n, 8 * bytes));
  }

  /** uper_put_nslength. */
  method PutNsLength(po: BitWriter, n: nat) returns (rc: int)
    requires po.Valid()
    modifies po, po.tmpspace
    ensures po.Valid() && (rc == 0 || rc == -1)
    ensures rc == 0 ==> PutSmallLength(n).Some? && po.Written() == old(po.Written()) + PutSmallLength(n).value
    ensures rc == -1 ==> po.refused || PutSmallLength(n).None?
    ensures old(po.answers) == [] ==> po.answers == [] && (rc == 0 <==> PutSmallLength(n).Some?)
  {
    hide BitWriter.Written, ToBits;
    if n <= 64 {
      if n == 0 {
        return -1;
      }
      rc := Put(po, n - 1, 7);
      return;
    }
    var covered, eom := PutLength(po, n);
    rc := if covered != n || eom then -1 else 0;
  }

  /** A single bit, when the descriptor calls for one. */
  method PutMark(po: BitWriter, wanted: bool, mark: bool) returns (rc: int)
    requires po.Valid()
    modifies po, po.tmpspace
    ensures po.Valid()
    ensures rc == 0 ==> po.Written() == old(po.Written()) + (if wanted then [mark] else [])
    ensures rc != 0 ==> rc == -1 && po.refused
    ensures old(po.answers) == [] ==> po.answers == [] && rc == 0
  {
    hide BitWriter.Written, ToBits;
    if !wanted {
      return 0;
    }
    OneBit(if mark then 1 else 0);
    rc := Put(po, if mark then 1 else 0, 1);
  }

  /** NativeEnumerated_encode_uper. */
  method EncodeEnum(po: BitWriter, t: Type, v: int) returns (rc: int)
    requires po.Valid() && t.Enumerated? && WellFormed(t)
    modifies po, po.tmpspace
    ensures po.Valid() && Sent(rc, EncEnum(t, v), old(po.Written()), po.Written(), po.refused)
    ensures old(po.answers) == [] ==> po.answers == [] && rc == Code(EncEnum(t, v))
  {
    hide BitWriter.Written, ToBits, PutSmall, Pow2, Increasing;
    var at := Find(t.values, v);
    if at.None? {
      return -1;
    }
    ghost var before := po.Written();
    var inext := at.value >= Roots(t);
    if inext && !t.extensible {
      return -1;
    }
    rc := PutMark(po, t.extensible, inext);
    if rc != 0 {
      return;
    }
    ghost var mark := if t.extensible then [inext] else [];
    if !inext {
      rc := Put(po, at.value, t.rangeBits);
      Associate(before, mark, ToBits(at.value, t.rangeBits));
    } else {
      rc := EncodeEnumExtension(po, t, at.value);
      if rc == 0 {
        Associate(before, mark, PutSmall(at.value - (t.extension - 1)).value);
      }
    }
  }

  method EncodeEnumExtension(po: BitWriter, t: Type, at: nat) returns (rc: int)
    requires po.Valid() && t.Enumerated? && Roots(t) <= at < |t.values|
    modifies po, po.tmpspace
    ensures po.Valid() && (rc == 0 || rc == -1)
    ensures var n := at - (t.extension - 1);
            rc == 0 ==> t.extension > 0 && PutSmall(n).Some? && po.Written() == old(po.Written()) + PutSmall(n).value
    ensures rc == -1 ==> po.refused || t.extension == 0 || PutSmall(at - (t.extension - 1)).None?
    ensures old(po.answers) == [] ==>
              po.answers == [] && (rc == 0 <==> t.extension > 0 && PutSmall(at - (t.extension - 1)).Some?)
  {
    hide BitWriter.Written, PutSmall;
    if t.extension == 0 {
      return -1;
    }
    rc := PutSmallNumber(po, at - (t.extension - 1));
  }

  /** The mark and index that precede an alternative. */
  method EncodeIndex(po: BitWriter, t: Type, present: nat) returns (rc: int)
    requires po.Valid() && t.Choice? && WellFormed(t)
    modifies po, po.tmpspace
    ensures po.Valid() && Sent(rc, EncIndex(t, present), old(po.Written()), po.Written(), po.refused)
    ensures old(po.answers) == [] ==> po.answers == [] && rc == Code(EncIndex(t, present))
  {
    hide BitWriter.Written, ToBits, Reorder, GoodOrder, PutSmall;
    if present == 0 || present > |t.elements| {
      return -1;
    }
    ghost var before := po.Written();
    var at := Reorder(t.toCanonical, present - 1);
    if at < t.lb || at > t.ub {
      if !t.extensible {
        return -1;
      }
      rc := EncodeExtensionIndex(po, t, at);
      return;
    }
    rc := PutMark(po, t.extensible, false);
    if rc != 0 {
      return;
    }
    rc := Put(po, at, t.rangeBits);
    Associate(before, if t.extensible then [false] else [], ToBits(at, t.rangeBits));
  }

  /** The number of an alternative outside the root, counted from where extensions start. */
  method EncodeExtensionIndex(po: BitWriter, t: Type, at: nat) returns (rc: int)
    requires po.Valid() && t.Choice? && -1 <= t.extStart
    modifies po, po.tmpspace
    ensures po.Valid() && (rc == 0 || rc == -1)
    ensures rc == 0 ==> t.extStart != -1 && at >= t.extStart && PutSmall(at - t.extStart).Some?
                        && po.Written() == old(po.Written()) + ([true] + PutSmall(at - t.extStart).value)
    ensures rc == -1 ==> po.refused || t.extStart == -1 || at < t.extStart || PutSmall(at - t.extStart).None?
    ensures old(po.answers) == [] ==>
              po.answers == [] && (rc == 0 <==> t.extStart != -1 && at >= t.extStart && PutSmall(at - t.extStart).Some?)
  {
    hide BitWriter.Written, PutSmall;
    ghost var before := po.Written();
    rc := PutMark(po, true, true);
    if rc != 0 {
      return;
    }
    if t.extStart == -1 || at < t.extStart {
      return -1;
    }
    rc := PutSmallNumber(po, at - t.extStart);
    if rc == 0 {
      Associate(before, [true], PutSmall(at - t.extStart).value);
    }
  }

  /** uper_open_type_put: encode into a buffer of its own, then put the buffer. */
  method EncodeOpen(po: BitWriter, t: Type, v: Value) returns (rc: int)
    requires po.Valid() && WellFormed(t)
    modifies po, po.tmpspace
    ensures po.Valid() && Sent(rc, Opened(Enc(t, v)), old(po.Written()), po.Written(), po.refused)
    ensures old(po.answers) == [] ==> po.answers == [] && rc == Code(Enc(t, v))
    decreases t, 5
  {
    hide BitWriter.Written, Enc, WellFormed, OpenOctets, PutOctets;
    var buffer := EncodeToBuffer(t, v);
    if buffer.None? {
      return -1;
    }
    rc := PutOctetString(po, buffer.value);
  }

  ghost function Opened(e: Encoded): Encoded {
    if e.Bits? then Bits(Open(e.bits)) else e
  }

  /** uper_encode_to_new_buffer: whole octets, and one zero octet for an encoding without bits. */
  method EncodeToBuffer(t: Type, v: Value) returns (r: Option<seq<byte>>)
    requires WellFormed(t)
    ensures r == if Enc(t, v).Bits? then Some(OpenOctets(Enc(t, v).bits)) else None
    decreases t, 4
  {
    hide BitWriter.Written, Enc, WellFormed, OpenOctets, BytesToBits, Zeros;
    var po := new BitWriter([]);
    var rc := Encode(po, t, v);
    if rc != 0 {
      return None;
    }
    ghost var bits := Enc(t, v).bits;
    assert [] + bits == bits;
    rc := po.AlignedFlush();
    FlushedOctets(bits, po.sink);
    r := Some(if po.sink == [] then [0] else po.sink);
  }

  lemma {:induction false} FlushedOctets(bits: seq<bool>, b: seq<byte>)
    requires BytesToBits(b) == bits + Zeros(Padding(|bits|))
    ensures OpenOctets(bits) == if b == [] then [0] else b
  {
    hide FromBits, BytesToBits;
    if bits != [] {
      FromBitsOf(b);
    }
  }

  /** CHOICE_encode_uper. */
  method EncodeChoice(po: BitWriter, t: Type, v: Value) returns (rc: int)
    requires po.Valid() && t.Choice? && WellFormed(t)
    modifies po, po.tmpspace
    ensures po.Valid() && Sent(rc, Enc(t, v), old(po.Written()), po.Written(), po.refused)
    ensures old(po.answers) == [] ==> po.answers == [] && rc == Code(Enc(t, v))
    decreases t, 0
  {
    hide BitWriter.Written, EncNumber, EncEnum, EncMembers, EncPreamble, EncAdditions, GoodOrder, PutSmall, ToBits,
      Reorder, Open;
    if !v.Chosen? {
      return -1;
    }
    ghost var before := po.Written();
    rc := EncodeIndex(po, t, v.present);
    if rc != 0 {
      return;
    }
    if v.member.None? {
      return -1;
    }
    ghost var index := EncIndex(t, v.present).bits;
    ghost var body := Enc(t.elements[v.present - 1].ty, v.member.value);
    if Outside(t, v.present) {
      rc := EncodeOpen(po, t.elements[v.present - 1].ty, v.member.value);
      if body.Bits? {
        Associate(before, index, Open(body.bits));
      }
    } else {
      rc := Encode(po, t.elements[v.present - 1].ty, v.member.value);
      if body.Bits? {
        Associate(before, index, body.bits);
      }
    }
  }

  /** SEQUENCE__handle_extensions as it counts: the number of additions if any is present. */
  method HandleExtensions(t: Type, f: seq<Option<Value>>) returns (n: nat)
    requires t.Sequence? && |f| == |t.elements|
    ensures n > 0 <==> AnyAddition(t, f)
    ensures n == 0 || n == |f| - Root(t)
  {
    if t.firstExtension < 0 {
      return 0;
    }
    var present, count, edx := 0, 0, Root(t);
    while edx < |t.elements|
      invariant Root(t) <= edx <= |f| && count == edx - Root(t)
      invariant present > 0 <==> exists i :: Root(t) <= i < edx && f[i].Some?
    {
      count := count + 1;
      present := present + if f[edx].Some? then 1 else 0;
      edx := edx + 1;
    }
    n := if present > 0 then count else 0;
  }

  lemma {:induction false} BitmapStep(t: Type, f: seq<Option<Value>>, oms: seq<nat>, i: nat)
    requires t.Sequence? && |f| == |t.elements| && i < |oms|
    ensures Bitmap(t, f, oms[i..])
         == [oms[i] < |f| && Present(t.elements[oms[i]], f[oms[i]])] + Bitmap(t, f, oms[i + 1..])
  {
    hide Present;
    assert oms[i..][1..] == oms[i + 1..];
  }

  /** The extension bit and the presence bitmap. */
  method EncodePreamble(po: BitWriter, t: Type, f: seq<Option<Value>>, extended: bool) returns (rc: int)
    requires po.Valid() && t.Sequence? && |f| == |t.elements| && t.roms <= |t.oms| && extended == AnyAddition(t, f)
    requires forall i :: 0 <= i < t.roms ==> t.oms[i] < |f|
    modifies po, po.tmpspace
    ensures po.Valid()
    ensures rc == 0 ==> po.Written() == old(po.Written()) + EncPreamble(t, f)
    ensures rc != 0 ==> rc == -1 && po.refused
    ensures old(po.answers) == [] ==> po.answers == [] && rc == 0
  {
    hide BitWriter.Written, Bitmap, Present, AnyAddition;
    var oms := t.oms[..t.roms];
    ghost var before := po.Written();
    rc := PutMark(po, t.firstExtension >= 0, extended);
    if rc != 0 {
      return;
    }
    ghost var goal := po.Written() + Bitmap(t, f, oms);
    Associate(before, if t.firstExtension >= 0 then [extended] else [], Bitmap(t, f, oms));
    assert oms[0..] == oms;
    var i := 0;
    while i < |oms|
      invariant 0 <= i <= |oms| && po.Valid()
      invariant po.Written() + Bitmap(t, f, oms[i..]) == goal
      invariant old(po.answers) == [] ==> po.answers == []
    {
      var edx := oms[i];
      var present := Present(t.elements[edx], f[edx]);
      BitmapStep(t, f, oms, i);
      Associate(po.Written(), [present], Bitmap(t, f, oms[i + 1..]));
      rc := PutMark(po, true, present);
      if rc != 0 {
        return;
      }
      i := i + 1;
    }
    assert Bitmap(t, f, oms[i..]) == [] by { EmptyBitmap(t, f, oms[i..]); }
    rc := 0;
  }

  lemma {:induction false} EmptyBitmap(t: Type, f: seq<Option<Value>>, none: seq<nat>)
    requires t.Sequence? && |f| == |t.elements| && none == []
    ensures Bitmap(t, f, none) == []
  {
  }

  lemma {:induction false} OptionalsInRange(t: Type, i: nat)
    requires t.Sequence?
    ensures forall k :: 0 <= k < |Optionals(t, i)| ==> Optionals(t, i)[k] < Root(t)
    decreases |t.elements| - i
  {
    if i < Root(t) {
      OptionalsInRange(t, i + 1);
    }
  }

  lemma {:induction false} OmsInRange(t: Type)
    requires t.Sequence? && WellFormed(t)
    ensures t.roms <= |t.oms| && forall i :: 0 <= i < t.roms ==> t.oms[i] < |t.elements|
  {
    hide Optionals, GoodMember;
    OptionalsInRange(t, 0);
    forall i | 0 <= i < t.roms ensures t.oms[i] < |t.elements| {
      assert t.oms[i] == t.oms[..t.roms][i];
    }
  }

  /** What is written, in front of what is still to come. */
  ghost function Joined(done: seq<bool>, e: Encoded): Encoded {
    if e.Bits? then Bits(done + e.bits) else e
  }

  lemma {:induction false} MembersStep(done: seq<bool>, t: Type, f: seq<Option<Value>>, i: nat)
    requires t.Sequence? && |f| == |t.elements| && i < Root(t)
    ensures var m := t.elements[i]; var whole := Joined(done, EncMembers(t, f, i));
            && (f[i].None? && !m.optional ==> whole == Refused)
            && ((f[i].Some? || m.optional) && !Present(m, f[i]) ==> whole == Joined(done, EncMembers(t, f, i + 1)))
            && (f[i].Some? && Present(m, f[i]) && !Enc(m.ty, f[i].value).Bits? ==> whole == Enc(m.ty, f[i].value))
            && (f[i].Some? && Present(m, f[i]) && Enc(m.ty, f[i].value).Bits? ==>
                  whole == Joined(done + Enc(m.ty, f[i].value).bits, EncMembers(t, f, i + 1)))
  {
    hide Enc, Present;
    var m := t.elements[i];
    UperRoundTrip.PresentIsThere(m, f[i]);
    if f[i].Some? && Present(m, f[i]) && Enc(m.ty, f[i].value).Bits? && EncMembers(t, f, i + 1).Bits? {
      Associate(done, Enc(m.ty, f[i].value).bits, EncMembers(t, f, i + 1).bits);
    }
  }

  /** The loop over the root members. */
  method EncodeMembers(po: BitWriter, t: Type, f: seq<Option<Value>>) returns (rc: int)
    requires po.Valid() && t.Sequence? && WellFormed(t) && |f| == |t.elements|
    modifies po, po.tmpspace
    ensures po.Valid() && Sent(rc, EncMembers(t, f, 0), old(po.Written()), po.Written(), po.refused)
    ensures old(po.answers) == [] ==> po.answers == [] && rc == Code(EncMembers(t, f, 0))
    decreases t, 0
  {
    hide BitWriter.Written, Enc, EncMembers, Present, Optionals, GoodMember;
    ghost var before := po.Written();
    ghost var goal := Joined(before, EncMembers(t, f, 0));
    var edx := 0;
    while edx < Root(t)
      invariant 0 <= edx <= Root(t) && po.Valid()
      invariant Joined(po.Written(), EncMembers(t, f, edx)) == goal
      invariant old(po.answers) == [] ==> po.answers == []
    {
      var m := t.elements[edx];
      MembersStep(po.Written(), t, f, edx);
      UperRoundTrip.PresentIsThere(m, f[edx]);
      if f[edx].None? && !m.optional {
        return -1;
      }
      if Present(m, f[edx]) {
        rc := Encode(po, m.ty, f[edx].value);
        if rc != 0 {
          return;
        }
      }
      edx := edx + 1;
    }
    assert EncMembers(t, f, edx) == Bits([]) by { NoMembers(t, f, edx); }
    rc := 0;
  }

  lemma {:induction false} NoMembers(t: Type, f: seq<Option<Value>>, i: nat)
    requires t.Sequence? && |f| == |t.elements| && i >= Root(t)
    ensures EncMembers(t, f, i) == Bits([])
  {
  }

  /** SEQUENCE__handle_extensions as it puts the presence of each addition. */
  method PutExtensionMarks(po: BitWriter, t: Type, f: seq<Option<Value>>) returns (rc: int)
    requires po.Valid() && t.Sequence? && |f| == |t.elements|
    modifies po, po.tmpspace
    ensures po.Valid()
    ensures rc == 0 ==> po.Written() == old(po.Written()) + AdditionMarks(t, f, Root(t))
    ensures rc != 0 ==> rc == -1 && po.refused
    ensures old(po.answers) == [] ==> po.answers == [] && rc == 0
  {
    hide BitWriter.Written, Root;
    ghost var goal := po.Written() + AdditionMarks(t, f, Root(t));
    var edx := Root(t);
    rc := 0;
    while edx < |f|
      invariant Root(t) <= edx <= |f| && po.Valid() && rc == 0
      invariant po.Written() + AdditionMarks(t, f, edx) == goal
      invariant old(po.answers) == [] ==> po.answers == []
    {
      Associate(po.Written(), [f[edx].Some?], AdditionMarks(t, f, edx + 1));
      rc := PutMark(po, true, f[edx].Some?);
      if rc != 0 {
        return;
      }
      edx := edx + 1;
    }
  }

  lemma {:induction false} OpenStep(done: seq<bool>, t: Type, f: seq<Option<Value>>, i: nat)
    requires t.Sequence? && |f| == |t.elements| && i < |f|
    ensures var m := t.elements[i].ty; var whole := Joined(done, EncOpen(t, f, i));
            && (f[i].None? ==> whole == Joined(done, EncOpen(t, f, i + 1)))
            && (f[i].Some? && Enc(m, f[i].value).Refused? ==> whole == Refused)
            && (f[i].Some? && Enc(m, f[i].value).Bits? ==>
                  whole == Joined(done + Open(Enc(m, f[i].value).bits), EncOpen(t, f, i + 1)))
  {
    hide Enc, Open;
    var m := t.elements[i].ty;
    if f[i].Some? && Enc(m, f[i].value).Bits? && EncOpen(t, f, i + 1).Bits? {
      Associate(done, Open(Enc(m, f[i].value).bits), EncOpen(t, f, i + 1).bits);
    }
  }

  /** SEQUENCE__handle_extensions as it puts the additions that are present. */
  method PutExtensions(po: BitWriter, t: Type, f: seq<Option<Value>>) returns (rc: int)
    requires po.Valid() && t.Sequence? && WellFormed(t) && |f| == |t.elements|
    modifies po, po.tmpspace
    ensures po.Valid() && Sent(rc, EncOpen(t, f, Root(t)), old(po.Written()), po.Written(), po.refused)
    ensures old(po.answers) == [] ==> po.answers == [] && rc == Code(EncOpen(t, f, Root(t)))
    decreases t, 0
  {
    hide BitWriter.Written, Enc, EncOpen, Optionals, GoodMember, Open;
    ghost var goal := Joined(po.Written(), EncOpen(t, f, Root(t)));
    var edx := Root(t);
    while edx < |f|
      invariant Root(t) <= edx <= |f| && po.Valid()
      invariant Joined(po.Written(), EncOpen(t, f, edx)) == goal
      invariant old(po.answers) == [] ==> po.answers == []
    {
      OpenStep(po.Written(), t, f, edx);
      if f[edx].Some? {
        rc := EncodeOpen(po, t.elements[edx].ty, f[edx].value);
        if rc != 0 {
          return;
        }
      }
      edx := edx + 1;
    }
    assert EncOpen(t, f, edx) == Bits([]) by { NoAdditions(t, f, edx); }
    rc := 0;
  }

  lemma {:induction false} NoAdditions(t: Type, f: seq<Option<Value>>, i: nat)
    requires t.Sequence? && |f| == |t.elements| && i >= |f|
    ensures EncOpen(t, f, i) == Bits([])
  {
  }

  /** The length of the bitmap of additions, the bitmap, and the additions. */
  method EncodeExtensions(po: BitWriter, t: Type, f: seq<Option<Value>>) returns (rc: int)
    requires po.Valid() && t.Sequence? && WellFormed(t) && |f| == |t.elements|
    modifies po, po.tmpspace
    ensures po.Valid() && Sent(rc, EncAdditions(t, f), old(po.Written()), po.Written(), po.refused)
    ensures old(po.answers) == [] ==> po.answers == [] && rc == Code(EncAdditions(t, f))
    decreases t, 1
  {
    hide BitWriter.Written, EncOpen, AdditionMarks, PutSmallLength, Optionals, GoodMember;
    ghost var before := po.Written();
    rc := PutNsLength(po, |f| - Root(t));
    if rc != 0 {
      return;
    }
    ghost var length, marks := PutSmallLength(|f| - Root(t)).value, AdditionMarks(t, f, Root(t));
    rc := PutExtensionMarks(po, t, f);
    if rc != 0 {
      return;
    }
    Associate(before, length, marks);
    rc := PutExtensions(po, t, f);
    if EncOpen(t, f, Root(t)).Bits? {
      Associate(before, length + marks, EncOpen(t, f, Root(t)).bits);
    }
  }

  /** SEQUENCE_encode_uper. */
  method EncodeSequence(po: BitWriter, t: Type, v: Value) returns (rc: int)
    requires po.Valid() && t.Sequence? && WellFormed(t)
    modifies po, po.tmpspace
    ensures po.Valid() && Sent(rc, Enc(t, v), old(po.Written()), po.Written(), po.refused)
    ensures old(po.answers) == [] ==> po.answers == [] && rc == Code(Enc(t, v))
    decreases t, 2
  {
    hide BitWriter.Written, EncMembers, EncPreamble, EncAdditions, AnyAddition, Optionals, GoodMember;
    if !v.Fields? || |v.fields| != |t.elements| {
      return -1;
    }
    var f := v.fields;
    var n := HandleExtensions(t, f);
    ghost var before := po.Written();
    OmsInRange(t);
    rc := EncodePreamble(po, t, f, n > 0);
    if rc != 0 {
      return;
    }
    ghost var pre, body := EncPreamble(t, f), EncMembers(t, f, 0);
    rc := EncodeMembers(po, t, f);
    if rc != 0 {
      return;
    }
    Associate(before, pre, body.bits);
    if n == 0 {
      assert pre + body.bits + [] == pre + body.bits;
      return;
    }
    rc := EncodeExtensions(po, t, f);
    if EncAdditions(t, f).Bits? {
      Associate(before, pre + body.bits, EncAdditions(t, f).bits);
    }
  }

  /** The encoder a descriptor names. */
  method Encode(po: BitWriter, t: Type, v: Value) returns (rc: int)
    requires po.Valid() && WellFormed(t)
    modifies po, po.tmpspace
    ensures po.Valid() && Sent(rc, Enc(t, v), old(po.Written()), po.Written(), po.refused)
    ensures old(po.answers) == [] ==> po.answers == [] && rc == Code(Enc(t, v))
    decreases t, 3
  {
    hide BitWriter.Written, EncMembers, EncPreamble, EncAdditions, EncIndex, EncEnum, WellFormed;
    match t
    case Number(ct) =>
      if !v.Native? || !FitsSigned(v.v) {
        return -1;
      }
      rc := EncodeNative(po, ct, v.v);
    case Enumerated(_, _, _, _) =>
      if !v.Native? {
        return -1;
      }
      rc := EncodeEnum(po, t, v.v);
    case Choice(_, _, _, _, _, _, _, _) => rc := EncodeChoice(po, t, v);
    case Sequence(_, _, _, _) => rc := EncodeSequence(po, t, v);
  }

  // ---- Decoding ----

  /** uper_get_nsnnwn; every failure is -1. */
  method FetchSmallNumber(pd: BitReader) returns (v: int)
    requires pd.Valid()
    modifies pd
    ensures pd.Valid()
    ensures v >= 0 ==> GetSmall(old(pd.All())) == Ok(v, pd.All())
    ensures v < 0 ==> GetSmall(old(pd.All())) == Starved
  {
    hide BitReader.All, Take;
    var value := Fetch(pd, 7);
    if value < 64 {
      return value;
    }
    var low := Fetch(pd, 2);
    if low < 0 {
      return -1;
    }
    value := 4 * (value - 64) + low;
    if value >= 128 {
      return -1;
    }
    if value == 0 {
      return 0;
    }
    if value >= 3 {
      return -1;
    }
    v := Fetch(pd, 8 * value);
  }

  /** uper_get_nslength; every failure is -1. */
  method FetchNsLength(pd: BitReader) returns (n: int)
    requires pd.Valid()
    modifies pd
    ensures pd.Valid()
    ensures n >= 0 ==> GetSmallLength(old(pd.All())) == Ok(n, pd.All())
    ensures n < 0 ==> GetSmallLength(old(pd.All())) == Starved
  {
    hide BitReader.All, Take, GetLength;
    FirstBit(pd.All());
    ghost var all := pd.All();
    var long := Fetch(pd, 1);
    if long == 0 {
      var low := Fetch(pd, 6);
      return if low < 0 then -1 else low + 1;
    }
    if long < 0 {
      return -1;
    }
    var repeat;
    n, repeat := FetchLength(pd);
    if repeat {
      n := -1;
    }
  }

  /** The extension bit of an extensible type: 0 or 1, or -1 at the end of the stream. */
  method FetchMark(pd: BitReader, wanted: bool) returns (mark: int)
    requires pd.Valid()
    modifies pd
    ensures pd.Valid() && -1 <= mark <= 1
    ensures !wanted ==> mark == 0 && pd.All() == old(pd.All())
    ensures wanted ==> (mark < 0 <==> old(pd.All()) == [])
    ensures wanted && mark >= 0 ==> (mark == 1 <==> old(pd.All())[0]) && pd.All() == old(pd.All())[1..]
  {
    hide BitReader.All, Take;
    if !wanted {
      return 0;
    }
    FirstBit(pd.All());
    mark := Fetch(pd, 1);
  }

  /** NativeEnumerated_decode_uper. */
  method DecodeEnum(pd: BitReader, t: Type) returns (r: Decoded<Value>)
    requires pd.Valid() && t.Enumerated? && WellFormed(t)
    modifies pd
    ensures pd.Valid() && Agrees(r, DecEnum(t, old(pd.All())), pd.All())
  {
    hide BitReader.All, Take, GetSmall, Pow2, Increasing;
    var inext := FetchMark(pd, t.extensible);
    if inext < 0 {
      return WantMore;
    }
    if inext == 0 {
      var value := Fetch(pd, t.rangeBits);
      if value < 0 {
        return WantMore;
      }
      if value >= Roots(t) {
        return Fail;
      }
      return Done(Native(t.values[value]));
    }
    if t.extension == 0 {
      return Fail;
    }
    var value := FetchSmallNumber(pd);
    if value < 0 {
      return WantMore;
    }
    value := value + t.extension - 1;
    if value >= |t.values| {
      return Fail;
    }
    return Done(Native(t.values[value]));
  }

  /** The mark and index in front of an alternative. */
  method DecodeIndex(pd: BitReader, t: Type) returns (r: Decoded<(nat, bool)>)
    requires pd.Valid() && t.Choice? && WellFormed(t)
    modifies pd
    ensures pd.Valid() && Agrees(r, DecIndex(t, old(pd.All())), pd.All())
  {
    hide BitReader.All, Take, Reorder, GoodOrder, GetSmall;
    var mark := FetchMark(pd, t.extensible);
    if mark < 0 {
      return WantMore;
    }
    if mark == 0 {
      var value := Fetch(pd, t.rangeBits);
      if value < 0 {
        return WantMore;
      }
      if value > t.ub {
        return Fail;
      }
      return Done((Reorder(t.fromCanonical, value), false));
    }
    if t.extStart == -1 {
      return Fail;
    }
    var value := FetchSmallNumber(pd);
    if value < 0 {
      return WantMore;
    }
    value := value + t.extStart;
    if value >= |t.elements| {
      return Fail;
    }
    return Done((Reorder(t.fromCanonical, value), true));
  }

  /** The test of what an open type's decoder has left unread. */
  method Leftover(spd: BitReader, octets: seq<byte>) returns (fine: bool)
    requires spd.Valid() && !spd.refillable && spd.size == 8 * |octets|
    modifies spd
    ensures fine == MayRemain(octets, old(spd.All()))
  {
    hide BytesToBits, ChunkBits, Val;
    var padding := spd.nbits - spd.nboff;
    ghost var left := spd.All();
    if 0 < padding < 8 || (spd.nboff == 0 && spd.nbits == 8 && spd.buffer == 0) {
      var v := spd.GetFewBits(padding);
      assert left[..padding] == left;
      if v == 0 {
        return true;
      }
    }
    return padding < 8;
  }

  /** uper_open_type_get_simple. */
  method DecodeOpen(pd: BitReader, t: Type) returns (r: Decoded<Value>)
    requires pd.Valid() && WellFormed(t)
    modifies pd
    ensures pd.Valid() && Agrees(r, DecOpen(t, old(pd.All())), pd.All())
    decreases t, 4
  {
    hide BitReader.All, Dec, GetOctets, BytesToBits, WellFormed, MayRemain, ChunkBits;
    var o := FetchOctetString(pd);
    if o.None? {
      return WantMore;
    }
    var spd := new BitReader(o.value, 8 * |o.value|, false, []);
    assert spd.All() == BytesToBits(o.value) by {
      assert BytesToBits(o.value)[..8 * |o.value|] + [] == BytesToBits(o.value);
    }
    r := Decode(spd, t);
    if !r.Done? {
      return Fail;
    }
    var fine := Leftover(spd, o.value);
    if !fine {
      return Fail;
    }
  }

  /** uper_open_type_skip: the contents are read bit by bit and thrown away. */
  method SkipOpen(pd: BitReader) returns (rc: int)
    requires pd.Valid()
    modifies pd
    ensures pd.Valid() && (rc == 0 || rc == -1)
    ensures var g := GetOctets(old(pd.All())); if g.Ok? then rc == 0 && pd.All() == g.rest else rc == -1
  {
    hide BitReader.All, GetOctets, BytesToBits, MayRemain, Val;
    var o := FetchOctetString(pd);
    if o.None? {
      return -1;
    }
    var spd := new BitReader(o.value, 8 * |o.value|, false, []);
    var v := 0;
    while v >= 0
      invariant spd.Valid() && pd.Valid() && pd.All() == GetOctets(old(pd.All())).rest
      invariant v < 0 ==> spd.All() == []
      decreases v >= 0, |spd.All()|
    {
      v := spd.GetFewBits(1);
    }
    var fine := Leftover(spd, o.value);
    assert fine by { NothingRemaining(o.value); }
    rc := if fine then 0 else -1;
  }

  lemma {:induction false} NothingRemaining(octets: seq<byte>)
    ensures MayRemain(octets, [])
  {
  }

  /** CHOICE_decode_uper. */
  method DecodeChoice(pd: BitReader, t: Type) returns (r: Decoded<Value>)
    requires pd.Valid() && t.Choice? && WellFormed(t)
    modifies pd
    ensures pd.Valid() && Agrees(r, Dec(t, old(pd.All())), pd.All())
    decreases t, 0
  {
    hide BitReader.All, DecIndex, DecNumber, DecEnum, DecPreamble, DecMembers, DecAdditions, DecOpen, GoodOrder;
    var index := DecodeIndex(pd, t);
    if !index.Done? {
      return Undone(index);
    }
    var (at, open) := index.value;
    if at >= |t.elements| {
      return Fail;
    }
    var body;
    if open {
      body := DecodeOpen(pd, t.elements[at].ty);
    } else {
      body := Decode(pd, t.elements[at].ty);
    }
    r := if body.Done? then Done(Chosen(at + 1, Some(body.value))) else body;
  }

  /** The presence bitmap, as a stream of its own. */
  method ReadBitmap(pd: BitReader, roms: nat) returns (opmd: BitReader?)
    requires pd.Valid()
    modifies pd
    ensures pd.Valid()
    ensures opmd != null <==> roms <= |old(pd.All())|
    ensures opmd != null ==> fresh(opmd) && opmd.Valid() && opmd.All() == old(pd.All())[..roms]
    ensures opmd != null ==> pd.All() == old(pd.All())[roms..]
  {
    hide BitReader.All, BytesToBits, Zeros;
    ghost var all := pd.All();
    if roms == 0 {
      opmd := new BitReader([], 0, false, []);
      assert opmd.All() == all[..0];
      return;
    }
    var size := (roms + 7) / 8;
    var opres := new byte[size + 1];
    var rc := pd.GetManyBits(opres, false, roms);
    if rc != 0 {
      return null;
    }
    opmd := new BitReader(opres[..size], roms, false, []);
    assert opmd.All() == all[..roms];
  }

  /** The extension bit and the presence bitmap. */
  method DecodePreamble(pd: BitReader, t: Type) returns (r: Decoded<bool>, opmd: BitReader?)
    requires pd.Valid() && t.Sequence?
    modifies pd
    ensures pd.Valid() && (r.Done? <==> opmd != null)
    ensures opmd != null ==> fresh(opmd) && opmd.Valid()
    ensures var g := DecPreamble(t, old(pd.All()));
            && (g.Ok? ==> opmd != null && r == Done(g.value.0) && opmd.All() == g.value.1 && pd.All() == g.rest)
            && (g.Starved? ==> r == WantMore) && !g.Failed?
  {
    hide BitReader.All;
    var mark := FetchMark(pd, t.firstExtension >= 0);
    if mark < 0 {
      return WantMore, null;
    }
    opmd := ReadBitmap(pd, t.roms);
    if opmd == null {
      return WantMore, null;
    }
    r := Done(mark == 1);
  }

  /** The fields read so far, in front of what the rest of the stream gives. */
  ghost function Before(done: seq<Option<Value>>, g: Got<seq<Option<Value>>>): Got<seq<Option<Value>>> {
    if g.Ok? then Ok(done + g.value, g.rest) else g
  }

  lemma {:induction false} ReadStep(done: seq<Option<Value>>, t: Type, i: nat, marks: seq<bool>, s: seq<bool>)
    requires t.Sequence? && i < Root(t)
    ensures var m := t.elements[i];
            var whole := Before(done, DecMembers(t, i, marks, s));
            var marks' := if m.optional && marks != [] then marks[1..] else marks;
            var head := Dec(m.ty, s);
            if m.optional && marks != [] && !marks[0]
            then whole == Before(done + [m.default], DecMembers(t, i + 1, marks', s))
            else if head.Ok?
            then whole == Before(done + [Some(head.value)], DecMembers(t, i + 1, marks', head.rest))
            else whole == Failure(head)
  {
    hide Dec;
    var m := t.elements[i];
    var marks' := if m.optional && marks != [] then marks[1..] else marks;
    var head := Dec(m.ty, s);
    if m.optional && marks != [] && !marks[0] {
      JoinFields(done, m.default, DecMembers(t, i + 1, marks', s));
    } else if head.Ok? {
      JoinFields(done, Some(head.value), DecMembers(t, i + 1, marks', head.rest));
    }
  }

  lemma {:induction false} JoinFields(done: seq<Option<Value>>, f: Option<Value>, g: Got<seq<Option<Value>>>)
    ensures g.Ok? ==> done + ([f] + g.value) == done + [f] + g.value
  {
  }

  /** Whether the next optional member is there; a bitmap that has run out reads as present. */
  method NextPresent(opmd: BitReader, optional: bool) returns (present: bool)
    requires opmd.Valid()
    modifies opmd
    ensures opmd.Valid()
    ensures var marks := old(opmd.All());
            && (present <==> !(optional && marks != [] && !marks[0]))
            && opmd.All() == if optional && marks != [] then marks[1..] else marks
  {
    hide BitReader.All, Val, Crosses;
    if !optional {
      return true;
    }
    FirstBit(opmd.All());
    var v := opmd.GetFewBits(1);
    present := v != 0;
  }

  /** The loop over the root members. */
  method DecodeMembers(pd: BitReader, opmd: BitReader, t: Type) returns (r: Decoded<seq<Option<Value>>>)
    requires pd.Valid() && opmd.Valid() && pd != opmd && t.Sequence? && WellFormed(t)
    modifies pd, opmd
    ensures pd.Valid() && Agrees(r, DecMembers(t, 0, old(opmd.All()), old(pd.All())), pd.All())
    decreases t, 0
  {
    hide BitReader.All, Dec, DecMembers, Optionals, GoodMember;
    ghost var goal := DecMembers(t, 0, opmd.All(), pd.All());
    var fields: seq<Option<Value>>, edx := [], 0;
    assert goal == Before([], goal) by { NothingBefore(goal); }
    while edx < Root(t)
      invariant 0 <= edx <= Root(t) && pd.Valid() && opmd.Valid()
      invariant Before(fields, DecMembers(t, edx, opmd.All(), pd.All())) == goal
    {
      var m := t.elements[edx];
      ReadStep(fields, t, edx, opmd.All(), pd.All());
      var present := NextPresent(opmd, m.optional);
      if !present {
        fields := fields + [m.default];
      } else {
        var head := Decode(pd, m.ty);
        if !head.Done? {
          return Undone(head);
        }
        fields := fields + [Some(head.value)];
      }
      edx := edx + 1;
    }
    assert DecMembers(t, edx, opmd.All(), pd.All()) == Ok([], pd.All()) by { NoneLeft(t, edx, opmd.All(), pd.All()); }
    assert fields + [] == fields;
    r := Done(fields);
  }

  lemma {:induction false} NothingBefore(g: Got<seq<Option<Value>>>)
    ensures g == Before([], g)
  {
    if g.Ok? {
      assert [] + g.value == g.value;
    }
  }

  lemma {:induction false} NoneLeft(t: Type, i: nat, marks: seq<bool>, s: seq<bool>)
    requires t.Sequence? && i >= Root(t)
    ensures DecMembers(t, i, marks, s) == Ok([], s)
  {
  }

  lemma {:induction false} ReadOpenStep(done: seq<Option<Value>>, t: Type, i: nat, marks: seq<bool>, s: seq<bool>)
    requires t.Sequence? && i < |t.elements|
    ensures var whole := Before(done, DecOpenMembers(t, i, marks, s));
            var head := DecOpen(t.elements[i].ty, s);
            if marks == [] then whole == Ok(done + Absent(|t.elements| - i), s)
            else if !marks[0] then whole == Before(done + [None], DecOpenMembers(t, i + 1, marks[1..], s))
            else if head.Ok?
            then whole == Before(done + [Some(head.value)], DecOpenMembers(t, i + 1, marks[1..], head.rest))
            else whole == Failure(head)
  {
    hide DecOpen, SkipUnknown, Absent;
    var head := DecOpen(t.elements[i].ty, s);
    if marks != [] {
      if !marks[0] {
        JoinFields(done, None, DecOpenMembers(t, i + 1, marks[1..], s));
      } else if head.Ok? {
        JoinFields(done, Some(head.value), DecOpenMembers(t, i + 1, marks[1..], head.rest));
      }
    }
  }

  /** The next mark of a bitmap: 0 or 1, or -1 when it has run out. */
  method FetchPresence(epmd: BitReader) returns (present: int)
    requires epmd.Valid()
    modifies epmd
    ensures epmd.Valid() && -1 <= present <= 1
    ensures var marks := old(epmd.All());
            && (present < 0 <==> marks == []) && (marks != [] ==> (present == 1 <==> marks[0]))
            && epmd.All() == if marks == [] then [] else marks[1..]
  {
    hide BitReader.All, Val, Crosses;
    FirstBit(epmd.All());
    present := epmd.GetFewBits(1);
  }

  /** The loop that passes over additions of a later version. */
  method SkipOverflow(pd: BitReader, epmd: BitReader) returns (rc: int)
    requires pd.Valid() && epmd.Valid() && pd != epmd
    modifies pd, epmd
    ensures pd.Valid() && (rc == 0 || rc == -1)
    ensures var g := SkipUnknown(old(epmd.All()), old(pd.All()));
            if g.Ok? then rc == 0 && pd.All() == g.rest else rc == -1
  {
    hide BitReader.All, GetOctets;
    ghost var goal := SkipUnknown(epmd.All(), pd.All());
    while true
      invariant pd.Valid() && epmd.Valid() && SkipUnknown(epmd.All(), pd.All()) == goal
      decreases |epmd.All()|
    {
      var mark := FetchPresence(epmd);
      if mark < 0 {
        return 0;
      }
      if mark == 1 {
        rc := SkipOpen(pd);
        if rc != 0 {
          return -1;
        }
      }
    }
  }

  /** The loop over the extension additions known here, and those beyond. */
  method DecodeAdditions(pd: BitReader, epmd: BitReader, t: Type) returns (r: Decoded<seq<Option<Value>>>)
    requires pd.Valid() && epmd.Valid() && pd != epmd && t.Sequence? && WellFormed(t)
    modifies pd, epmd
    ensures pd.Valid() && Agrees(r, DecOpenMembers(t, Root(t), old(epmd.All()), old(pd.All())), pd.All())
    decreases t, 0
  {
    hide BitReader.All, DecOpen, DecOpenMembers, Optionals, GoodMember, SkipUnknown, Absent;
    ghost var goal := DecOpenMembers(t, Root(t), epmd.All(), pd.All());
    var fields: seq<Option<Value>>, edx := [], Root(t);
    assert goal == Before([], goal) by { NothingBefore(goal); }
    while edx < |t.elements|
      invariant Root(t) <= edx <= |t.elements| && pd.Valid() && epmd.Valid()
      invariant Before(fields, DecOpenMembers(t, edx, epmd.All(), pd.All())) == goal
    {
      ReadOpenStep(fields, t, edx, epmd.All(), pd.All());
      var present := FetchPresence(epmd);
      if present < 0 {
        return Done(fields + Absent(|t.elements| - edx));
      } else if present == 0 {
        fields := fields + [None];
      } else {
        var head := DecodeOpen(pd, t.elements[edx].ty);
        if !head.Done? {
          return Undone(head);
        }
        fields := fields + [Some(head.value)];
      }
      edx := edx + 1;
    }
    Beyond(fields, t, epmd.All(), pd.All());
    var rc := SkipOverflow(pd, epmd);
    r := if rc == 0 then Done(fields) else WantMore;
  }

  lemma {:induction false} Beyond(done: seq<Option<Value>>, t: Type, marks: seq<bool>, s: seq<bool>)
    requires t.Sequence?
    ensures var g := SkipUnknown(marks, s);
            Before(done, DecOpenMembers(t, |t.elements|, marks, s)) == if g.Ok? then Ok(done, g.rest) else Starved
  {
    assert done + [] == done;
  }

  /** What follows the root members when the extension bit is set. */
  method DecodeExtensions(pd: BitReader, t: Type) returns (r: Decoded<seq<Option<Value>>>)
    requires pd.Valid() && t.Sequence? && WellFormed(t)
    modifies pd
    ensures pd.Valid() && Agrees(r, DecAdditions(t, old(pd.All())), pd.All())
    decreases t, 1
  {
    hide BitReader.All, DecOpenMembers, GetSmallLength, Optionals, GoodMember;
    var n := FetchNsLength(pd);
    if n < 0 {
      return WantMore;
    }
    var epmd := ReadBitmap(pd, n);
    if epmd == null {
      return WantMore;
    }
    r := DecodeAdditions(pd, epmd, t);
  }

  lemma {:induction false} OneMoreListed(s: seq<nat>, lo: nat, i: nat)
    requires lo <= i < |s|
    ensures s[lo..i + 1] == s[lo..i] + [s[i]]
  {
  }

  /** What an addition is after some have been given their DEFAULT. */
  function Filled(given: Option<Value>, listed: bool, default: Option<Value>): Option<Value> {
    if given.None? && listed then default else given
  }

  /** The fields of a SEQUENCE when the additions `listed` have been given their DEFAULT. */
  ghost predicate FilledFor(t: Type, root: seq<Option<Value>>, more: seq<Option<Value>>, listed: seq<nat>,
                            fields: seq<Option<Value>>)
    requires t.Sequence? && |root| == Root(t) && |more| == |t.elements| - Root(t)
  {
    && |fields| == |t.elements| && fields[..|root|] == root
    && forall j :: |root| <= j < |fields| ==>
         fields[j] == Filled(more[j - |root|], j in listed, t.elements[j].default)
  }

  lemma {:induction false} NowListed(listed: seq<nat>, edx: nat, j: nat)
    ensures j in listed + [edx] <==> j in listed || j == edx
  {
  }

  lemma {:induction false} PrefixKept(f: seq<Option<Value>>, n: nat, edx: nat, v: Option<Value>)
    requires n <= edx < |f|
    ensures f[edx := v][..n] == f[..n]
  {
  }

  /** One more addition. */
  lemma {:induction false} FillOne(t: Type, root: seq<Option<Value>>, more: seq<Option<Value>>, listed: seq<nat>,
                                   fields: seq<Option<Value>>, edx: nat)
    requires t.Sequence? && |root| == Root(t) && |more| == |t.elements| - Root(t) && Root(t) <= edx < |t.elements|
    requires FilledFor(t, root, more, listed, fields)
    ensures var next := if t.elements[edx].default.Some? && fields[edx].None?
                        then fields[edx := t.elements[edx].default] else fields;
            FilledFor(t, root, more, listed + [edx], next)
  {
    hide Root, Filled;
    var d := t.elements[edx].default;
    var now := if d.Some? && fields[edx].None? then d else fields[edx];
    var next := fields[edx := now];
    assert next == if d.Some? && fields[edx].None? then fields[edx := d] else fields;
    FilledTwice(more[edx - |root|], edx in listed, d);
    NowListed(listed, edx, edx);
    forall j | |root| <= j < |next|
      ensures next[j] == Filled(more[j - |root|], j in listed + [edx], t.elements[j].default)
    {
      NowListed(listed, edx, j);
    }
    PrefixKept(fields, |root|, edx, now);
  }

  lemma {:induction false} FilledTwice(given: Option<Value>, listed: bool, d: Option<Value>)
    ensures var f := Filled(given, listed, d); (if d.Some? && f.None? then d else f) == Filled(given, true, d)
  {
  }

  lemma {:induction false} ListedAdditions(t: Type, i: nat)
    requires t.Sequence? && WellFormed(t) && t.roms <= i < |t.oms|
    ensures Root(t) <= t.oms[i] < |t.elements|
  {
    hide Optionals, GoodMember;
  }

  /** The loop that fills in the DEFAULT of members among the extension additions. */
  method FillAdditions(t: Type, root: seq<Option<Value>>, more: seq<Option<Value>>) returns (fields: seq<Option<Value>>)
    requires t.Sequence? && WellFormed(t) && |root| == Root(t) && |more| == |t.elements| - Root(t)
    ensures fields == root + Completed(t, more, Root(t))
  {
    hide Completed, WellFormed, FilledFor;
    fields := root + more;
    if t.firstExtension < 0 {
      return;
    }
    assert t.roms <= |t.oms| by { ListWithin(t); }
    var i := t.roms;
    assert FilledFor(t, root, more, t.oms[t.roms..i], fields) by { NoneFilled(t, root, more); }
    while i < |t.oms|
      invariant t.roms <= i <= |t.oms| && |fields| == |t.elements|
      invariant FilledFor(t, root, more, t.oms[t.roms..i], fields)
    {
      var edx := t.oms[i];
      ListedAdditions(t, i);
      OneMoreListed(t.oms, t.roms, i);
      FillOne(t, root, more, t.oms[t.roms..i], fields, edx);
      if t.elements[edx].default.Some? && fields[edx].None? {
        fields := fields[edx := t.elements[edx].default];
      }
      i := i + 1;
    }
    assert t.oms[t.roms..i] == t.oms[t.roms..];
    AsCompleted(t, root, more, fields);
  }

  lemma {:induction false} ListWithin(t: Type)
    requires t.Sequence? && WellFormed(t)
    ensures t.roms <= |t.oms|
  {
    hide Optionals, GoodMember;
  }

  lemma {:induction false} NoneFilled(t: Type, root: seq<Option<Value>>, more: seq<Option<Value>>)
    requires t.Sequence? && |root| == Root(t) && |more| == |t.elements| - Root(t)
    requires t.roms <= |t.oms|
    ensures FilledFor(t, root, more, t.oms[t.roms..t.roms], root + more)
  {
    assert (root + more)[..Root(t)] == root;
  }

  lemma {:induction false} AsCompleted(t: Type, root: seq<Option<Value>>, more: seq<Option<Value>>,
                                       fields: seq<Option<Value>>)
    requires t.Sequence? && t.roms <= |t.oms| && |root| == Root(t) && |more| == |t.elements| - Root(t)
    requires FilledFor(t, root, more, t.oms[t.roms..], fields)
    ensures fields == root + Completed(t, more, Root(t))
  {
    hide Completed, Root;
    forall j | Root(t) <= j < |fields| ensures fields[j] == Completed(t, more, Root(t))[j - Root(t)] {
      UperRoundTrip.CompletedAt(t, more, Root(t), j - Root(t));
    }
    assert fields[Root(t)..] == Completed(t, more, Root(t));
  }

  /** SEQUENCE_decode_uper. */
  method DecodeSequence(pd: BitReader, t: Type) returns (r: Decoded<Value>)
    requires pd.Valid() && t.Sequence? && WellFormed(t)
    modifies pd
    ensures pd.Valid() && Agrees(r, Dec(t, old(pd.All())), pd.All())
    decreases t, 2
  {
    hide BitReader.All, DecPreamble, DecMembers, DecAdditions, Completed, Optionals, GoodMember, Absent;
    var pre, opmd := DecodePreamble(pd, t);
    if opmd == null {
      return Undone(pre);
    }
    ghost var marks, s := opmd.All(), pd.All();
    var body := DecodeMembers(pd, opmd, t);
    if !body.Done? {
      return Undone(body);
    }
    UperReencode.MembersCount(t, 0, marks, s);
    var more := Done(Absent(|t.elements| - Root(t)));
    if pre.value {
      s := pd.All();
      more := DecodeExtensions(pd, t);
      if !more.Done? {
        return Undone(more);
      }
      UperReencode.AdditionsCount(t, s);
    }
    var fields := FillAdditions(t, body.value, more.value);
    r := Done(Fields(fields));
  }

  /** The decoder a descriptor names. */
  method Decode(pd: BitReader, t: Type) returns (r: Decoded<Value>)
    requires pd.Valid() && WellFormed(t)
    modifies pd
    ensures pd.Valid() && Agrees(r, Dec(t, old(pd.All())), pd.All())
    decreases t, 3
  {
    hide BitReader.All, DecNumber, DecIndex, DecEnum, DecPreamble, DecMembers, DecAdditions, DecOpen, WellFormed;
    match t
    case Number(ct) => r := DecodeNative(pd, ct);
    case Enumerated(_, _, _, _) => r := DecodeEnum(pd, t);
    case Choice(_, _, _, _, _, _, _, _) => r := DecodeChoice(pd, t);
    case Sequence(_, _, _, _) => r := DecodeSequence(pd, t);
  }

  // ---- Comparison ----

  /** SEQUENCE_compare. */
  method CompareSequence(t: Type, a: seq<Option<Value>>, b: seq<Option<Value>>) returns (ret: int)
    requires t.Sequence? && |a| == |b| == |t.elements|
    ensures ret == CompareMembers(t, a, b, 0) == Compare(t, Fields(a), Fields(b))
    decreases t, 0
  {
    hide Compare;
    UperOrder.ByMembers(t, a, b);
    var edx := 0;
    while edx < |t.elements|
      invariant 0 <= edx <= |a| && CompareMembers(t, a, b, edx) == CompareMembers(t, a, b, 0)
    {
      var m, x, y := t.elements[edx], a[edx], b[edx];
      var skip := false;
      if x.None? {
        if y.None? || (m.default.Some? && Compare(m.ty, y.value, m.default.value) == 0) {
          skip := true;
        } else {
          return -1;
        }
      } else if y.None? {
        if m.default.Some? && Compare(m.ty, x.value, m.default.value) == 0 {
          skip := true;
        } else {
          return 1;
        }
      }
      if !skip {
        ret := Compare(m.ty, x.value, y.value);
        if ret != 0 {
          return;
        }
      }
      edx := edx + 1;
    }
    ret := 0;
  }

  // ---- End to end ----

  /** Encode, flush to octets, and decode the octets: the same value up to absent members and their DEFAULT. */
  method Transfer(t: Type, v: Value) returns (r: Decoded<Value>)
    requires WellFormed(t)
    ensures Enc(t, v).Bits? ==> r == Done(UperRoundTrip.Fill(t, v)) && Compare(t, v, r.value) == 0
    ensures Enc(t, v).Refused? ==> r == Fail
  {
    hide BitWriter.Written, BitReader.All, Enc, Dec, Compare, BytesToBits, Zeros, WellFormed, UperRoundTrip.Fill;
    var po := new BitWriter([]);
    var rc := Encode(po, t, v);
    if rc != 0 {
      return Fail;
    }
    rc := po.AlignedFlush();
    var octets := po.sink;
    var pd := new BitReader(octets, 8 * |octets|, false, []);
    ghost var bits := Enc(t, v).bits;
    assert [] + bits == bits;
    assert pd.All() == bits + Zeros((8 - |bits| % 8) % 8) by {
      assert BytesToBits(octets)[..8 * |octets|] + [] == BytesToBits(octets);
    }
    UperRoundTrip.RoundTrip(t, v, Zeros((8 - |bits| % 8) % 8));
    UperRoundTrip.FillEqual(t, v);
    r := Decode(pd, t);
  }
}
