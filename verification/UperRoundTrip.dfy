/**
  Unaligned PER decoding undoes encoding, over every well-formed type tree; encodings are
  canonical; and a decoder that is given too little says so.
 */
module UperRoundTrip {
  import opened Bits
  import opened Options
  import opened Integer
  import opened BitInput
  import opened PerSupport
  import opened Uper

  /** The value a decoder makes of the encoding of `v`: members left out come back as their DEFAULT. */
  function Fill(t: Type, v: Value): Value
    decreases t, 1, 0
  {
    match t
    case Number(_) => v
    case Enumerated(_, _, _, _) => v
    case Choice(_, _, _, _, _, _, _, _) =>
      if Held(t, v).Some? then Chosen(v.present, Some(Fill(t.elements[v.present - 1].ty, v.member.value))) else v
    case Sequence(_, _, _, _) =>
      if v.Fields? && |v.fields| == |t.elements|
      then Fields(FillMembers(t, v.fields, 0) + Completed(t, FillOpen(t, v.fields, Root(t)), Root(t)))
      else v
  }

  /** The extension additions from number `i` on, as they are sent. */
  function FillOpen(t: Type, f: seq<Option<Value>>, i: nat): (r: seq<Option<Value>>)
    requires t.Sequence? && |f| == |t.elements|
    ensures |r| == if i <= |f| then |f| - i else 0
    decreases t, 0, |f| - i
  {
    if i >= |f| then []
    else [if f[i].Some? then Some(Fill(t.elements[i].ty, f[i].value)) else None] + FillOpen(t, f, i + 1)
  }

  function FillMembers(t: Type, f: seq<Option<Value>>, i: nat): (r: seq<Option<Value>>)
    requires t.Sequence? && |f| == |t.elements|
    ensures |r| == if i <= Root(t) then Root(t) - i else 0
    decreases t, 0, |f| - i
  {
    if i >= Root(t) then []
    else
      var m := t.elements[i];
      [if Present(m, f[i]) then Some(Fill(m.ty, f[i].value)) else m.default] + FillMembers(t, f, i + 1)
  }

  // ---- INTEGER ----

  lemma {:induction false} UnconstrainedBack(v: int, rest: seq<bool>)
    requires FitsSigned(v)
    ensures DecUnconstrained(PutOctets(Contents(v)) + rest) == Ok(Native(v), rest)
  {
    hide PutOctets, GetOctets, Contents, SignedVal;
    ContentsBack(v);
    OctetsRoundTrip(Contents(v), rest);
  }

  lemma {:induction false} RangeBack(ct: Constraint, v: int, rest: seq<bool>)
    requires ct.Range? && ct.lb <= v <= ct.ub && ct.rangeBits <= 64 && ct.ub - ct.lb < Pow2(ct.rangeBits)
    ensures DecRange(ct, ToBits(v - ct.lb, ct.rangeBits) + rest) == Ok(Native(v), rest)
  {
    hide ToBits, Take, Pow2;
    TakeBack(v - ct.lb, ct.rangeBits, rest);
  }

  /** Setting off one bit in front. */
  lemma {:induction false} FrontBit(b: bool, x: seq<bool>, rest: seq<bool>)
    ensures ([b] + x + rest)[0] == b && ([b] + x + rest)[1..] == x + rest
  {
  }

  lemma {:induction false} NumberBack(t: Type, v: int, rest: seq<bool>)
    requires t.Number? && WellFormed(t) && EncNumber(t.ct, v).Bits?
    ensures DecNumber(t.ct, EncNumber(t.ct, v).bits + rest) == Ok(Native(v), rest)
  {
    hide ToBits, Pow2, PutOctets, Contents, DecUnconstrained, DecRange;
    var ct := t.ct;
    UnconstrainedBack(v, rest);
    if ct.Range? {
      if ct.lb <= v <= ct.ub {
        RangeBack(ct, v, rest);
        FrontBit(false, ToBits(v - ct.lb, ct.rangeBits), rest);
      } else {
        FrontBit(true, PutOctets(Contents(v)), rest);
      }
    }
  }

  // ---- ENUMERATED ----

  lemma {:induction false} EnumRootBack(t: Type, at: nat, rest: seq<bool>)
    requires t.Enumerated? && WellFormed(t) && at < |t.values| && at < Roots(t)
    ensures DecEnumRoot(t, ToBits(at, t.rangeBits) + rest) == Ok(Native(t.values[at]), rest)
  {
    hide ToBits, Take, Pow2;
    TakeBack(at, t.rangeBits, rest);
  }

  lemma {:induction false} EnumExtensionBack(t: Type, at: nat, rest: seq<bool>)
    requires t.Enumerated? && WellFormed(t) && Roots(t) <= at < |t.values| && t.extension > 0
    ensures var small := PutSmall(at - (t.extension - 1));
            small.Some? && DecEnumExtension(t, small.value + rest) == Ok(Native(t.values[at]), rest)
  {
    hide GetSmall, PutSmall, Pow2;
    SmallBelow64(at - (t.extension - 1), rest);
  }

  /** Without the limit of 64 on extension values, exactly the first 64 of them come back. */
  lemma {:induction false} EnumExtensionExact(t: Type, at: nat, rest: seq<bool>)
    requires t.Enumerated? && Increasing(t.values) && t.extension > 0
    requires t.extension - 1 <= at < |t.values| && at - (t.extension - 1) < 0x100_0000
    ensures var small := PutSmall(at - (t.extension - 1));
            && small.Some?
            && (DecEnumExtension(t, small.value + rest) == Ok(Native(t.values[at]), rest) <==>
                  at - (t.extension - 1) < 64)
  {
    hide GetSmall, PutSmall;
    var n := at - (t.extension - 1);
    if n < 64 {
      SmallBelow64(n, rest);
    } else {
      SmallFrom64(n, rest);
    }
  }

  lemma {:induction false} EnumBack(t: Type, v: int, rest: seq<bool>)
    requires t.Enumerated? && WellFormed(t) && EncEnum(t, v).Bits?
    ensures DecEnum(t, EncEnum(t, v).bits + rest) == Ok(Native(v), rest)
  {
    hide ToBits, PutSmall, WellFormed, DecEnumRoot, DecEnumExtension, Find;
    var at := Find(t.values, v).value;
    if at < Roots(t) {
      EnumRootBack(t, at, rest);
      FrontBit(false, ToBits(at, t.rangeBits), rest);
      assert [] + ToBits(at, t.rangeBits) == ToBits(at, t.rangeBits);
    } else {
      EnumExtensionBack(t, at, rest);
      FrontBit(true, PutSmall(at - (t.extension - 1)).value, rest);
    }
  }

  // ---- CHOICE ----

  lemma {:induction false} IndexBack(t: Type, present: nat, rest: seq<bool>)
    requires t.Choice? && WellFormed(t) && EncIndex(t, present).Bits?
    ensures DecIndex(t, EncIndex(t, present).bits + rest) == Ok((present - 1, Outside(t, present)), rest)
  {
    hide ToBits, Take, Pow2, Reorder, PutSmall, GetSmall;
    var at := Reorder(t.toCanonical, present - 1);
    if Outside(t, present) {
      SmallBelow64(at - t.extStart, rest);
      FrontBit(true, PutSmall(at - t.extStart).value, rest);
    } else {
      var field := ToBits(at, t.rangeBits);
      TakeBack(at, t.rangeBits, rest);
      if t.extensible {
        FrontBit(false, field, rest);
      } else {
        assert [] + field == field;
      }
    }
  }

  // ---- Open types ----

  /** A field whose contents come back comes back. */
  lemma {:induction false} OpenBack(t: Type, v: Value, bits: seq<bool>, rest: seq<bool>)
    requires var pad := if bits == [] then Zeros(8) else Zeros(Padding(|bits|)); Dec(t, bits + pad) == Ok(v, pad)
    ensures DecOpen(t, Open(bits) + rest) == Ok(v, rest)
  {
    hide Dec, PutOctets, GetOctets, BytesToBits, OpenOctets, MayRemain, Zeros;
    OctetsRoundTrip(OpenOctets(bits), rest);
    OpenOctetsBits(bits);
    OpenRemains(bits);
  }

  /**
    What an open type field of given octets is taken for: less than an octet may be left, whatever its bits, or
    a single octet that is zero.
   */
  lemma {:induction false} OpenExactly(t: Type, b: seq<byte>, rest: seq<bool>)
    requires b != []
    ensures var inner := Dec(t, BytesToBits(b));
            DecOpen(t, PutOctets(b) + rest)
            == if inner.Ok? && (|inner.rest| < 8 || (|b| == 1 && |inner.rest| == 8
                                                     && forall i :: 0 <= i < 8 ==> !inner.rest[i]))
               then Ok(inner.value, rest) else Failed
  {
    hide Dec, PutOctets, GetOctets, BytesToBits;
    OctetsRoundTrip(b, rest);
    if Dec(t, BytesToBits(b)).Ok? {
      AllClear(Dec(t, BytesToBits(b)).rest);
    }
  }

  lemma {:induction false} AllClear(s: seq<bool>)
    ensures Val(s) == 0 <==> forall i :: 0 <= i < |s| ==> !s[i]
  {
    if s != [] {
      AllClear(s[..|s| - 1]);
    }
  }

  const ONE_BIT := Number(Range(0, 1, 1, false))

  /** One bit in an octet whose other bits are not zero. */
  lemma {:induction false} PaddingExample(rest: seq<bool>)
    ensures Enc(ONE_BIT, Native(0)) == Bits([false]) && Open([false]) == PutOctets([0])
    ensures DecOpen(ONE_BIT, PutOctets([0x7F]) + rest) == Ok(Native(0), rest)
  {
    hide PutOctets, BytesToBits, ToBits, FromBits, Pow2, Shr, Val, FitsSigned;
    assert FitsSigned(0) by { EmptyIsZero(); }
    OneBit(0);
    ZeroOctet();
    var s: seq<byte> := [0x7F];
    ToBitsSplit(0x7F, 1, 7);
    assert Shr(0x7F, 7) == 0 && 0 < Pow2(1) by {
      Pow2Small();
      Pow2Add(3, 4);
      ShrIsDiv(0x7F, 7);
    }
    BytesToBitsOne(0x7F);
    TakeBack(0, 1, ToBits(0x7F, 7));
    OpenExactly(ONE_BIT, s, rest);
  }

  lemma {:induction false} ZeroOctet()
    ensures OpenOctets([false]) == [0]
  {
    hide BytesToBits, ToBits, FromBits;
    BytesToBitsOne(0);
    ToBitsZero(8);
    assert [false] + Zeros(7) == Zeros(8);
    FromBitsOf([0]);
  }

  // ---- SEQUENCE ----

  /** The presence bitmap as the decoder will use it up: one mark for each optional member in turn. */
  function Marks(t: Type, f: seq<Option<Value>>, i: nat): seq<bool>
    requires t.Sequence? && |f| == |t.elements|
    decreases |f| - i
  {
    if i >= Root(t) then []
    else (if t.elements[i].optional then [Present(t.elements[i], f[i])] else []) + Marks(t, f, i + 1)
  }

  /** The table of optional members lists them in the order in which the decoder asks. */
  lemma {:induction false} BitmapIsMarks(t: Type, f: seq<Option<Value>>, i: nat)
    requires t.Sequence? && |f| == |t.elements|
    ensures Bitmap(t, f, Optionals(t, i)) == Marks(t, f, i)
    decreases |f| - i
  {
    hide Present;
    if i < Root(t) {
      BitmapIsMarks(t, f, i + 1);
      assert t.elements[i].optional ==> Optionals(t, i)[1..] == Optionals(t, i + 1);
      assert [] + Optionals(t, i + 1) == Optionals(t, i + 1);
      assert [] + Marks(t, f, i + 1) == Marks(t, f, i + 1);
    }
  }

  lemma {:induction false} BitmapLength(t: Type, f: seq<Option<Value>>, oms: seq<nat>)
    requires t.Sequence? && |f| == |t.elements|
    ensures |Bitmap(t, f, oms)| == |oms|
  {
    hide Present;
    if oms != [] {
      BitmapLength(t, f, oms[1..]);
    }
  }

  lemma {:induction false} PreambleBack(t: Type, f: seq<Option<Value>>, rest: seq<bool>)
    requires t.Sequence? && |f| == |t.elements| && t.roms <= |t.oms| && t.oms[..t.roms] == Optionals(t, 0)
    ensures DecPreamble(t, EncPreamble(t, f) + rest)
          == Ok((t.firstExtension >= 0 && AnyAddition(t, f), Marks(t, f, 0)), rest)
  {
    hide Bitmap, Marks, Optionals, AnyAddition;
    var marks := Marks(t, f, 0);
    BitmapIsMarks(t, f, 0);
    BitmapLength(t, f, t.oms[..t.roms]);
    assert (marks + rest)[..t.roms] == marks && (marks + rest)[t.roms..] == rest;
    if t.firstExtension >= 0 {
      FrontBit(AnyAddition(t, f), marks, rest);
    } else {
      assert [] + marks == marks;
    }
  }

  /** A mark that is used up. */
  lemma {:induction false} NextMark(b: bool, marks: seq<bool>)
    ensures ([b] + marks)[0] == b && ([b] + marks)[1..] == marks && [] + marks == marks
  {
  }

  /** Decoding undoes encoding and leaves exactly what followed. */
  lemma {:induction false} RoundTrip(t: Type, v: Value, rest: seq<bool>)
    requires WellFormed(t) && Enc(t, v).Bits?
    ensures Dec(t, Enc(t, v).bits + rest) == Ok(Fill(t, v), rest)
    decreases t, 3, 0
  {
    hide EncNumber, DecNumber, EncEnum, DecEnum, WellFormed;
    match t
    case Number(_) => NumberBack(t, v.v, rest);
    case Enumerated(_, _, _, _) => EnumBack(t, v.v, rest);
    case Choice(_, _, _, _, _, _, _, _) => ChoiceBack(t, v, rest);
    case Sequence(_, _, _, _) => SequenceBack(t, v, rest);
  }

  lemma {:induction false} ChoiceBack(t: Type, v: Value, rest: seq<bool>)
    requires t.Choice? && WellFormed(t) && Enc(t, v).Bits?
    ensures Dec(t, Enc(t, v).bits + rest) == Ok(Fill(t, v), rest)
    decreases t, 2, 0
  {
    hide EncNumber, DecNumber, EncEnum, DecEnum, DecIndex, DecMembers, FillMembers, GoodOrder, Open, DecOpen, Outside;
    var m := t.elements[v.present - 1].ty;
    var index, body := EncIndex(t, v.present).bits, Enc(m, v.member.value).bits;
    var open := Outside(t, v.present);
    var tail := if open then Open(body) else body;
    Associate(index, tail, rest);
    IndexBack(t, v.present, tail + rest);
    if open {
      OpenRoundTrip(m, v.member.value, rest);
    } else {
      RoundTrip(m, v.member.value, rest);
    }
  }

  /** Whatever can be encoded comes back from an open type field. */
  lemma {:induction false} OpenRoundTrip(t: Type, v: Value, rest: seq<bool>)
    requires WellFormed(t) && Enc(t, v).Bits?
    ensures DecOpen(t, Open(Enc(t, v).bits) + rest) == Ok(Fill(t, v), rest)
    decreases t, 4, 0
  {
    hide Enc, Dec, Fill, WellFormed, Open, DecOpen, Zeros;
    var bits := Enc(t, v).bits;
    var pad := if bits == [] then Zeros(8) else Zeros(Padding(|bits|));
    RoundTrip(t, v, pad);
    OpenBack(t, Fill(t, v), bits, rest);
  }

  lemma {:induction false} SequenceBack(t: Type, v: Value, rest: seq<bool>)
    requires t.Sequence? && WellFormed(t) && Enc(t, v).Bits?
    ensures Dec(t, Enc(t, v).bits + rest) == Ok(Fill(t, v), rest)
    decreases t, 2, 0
  {
    hide EncPreamble, DecPreamble, EncMembers, DecMembers, FillMembers, EncAdditions, DecAdditions, FillOpen,
      Completed, AnyAddition, Optionals, GoodMember, Absent;
    var f := v.fields;
    var additions := if AnyAddition(t, f) then EncAdditions(t, f).bits else [];
    var pre, body := EncPreamble(t, f), EncMembers(t, f, 0).bits;
    Associate(pre + body, additions, rest);
    Associate(pre, body, additions + rest);
    PreambleBack(t, f, body + (additions + rest));
    MembersBack(t, f, 0, additions + rest);
    NoAdditionWithoutMark(t, f);
    if AnyAddition(t, f) {
      AdditionsBack(t, f, rest);
    } else {
      assert [] + rest == rest;
      NothingFilled(t, f, Root(t));
    }
  }

  lemma {:induction false} NoAdditionWithoutMark(t: Type, f: seq<Option<Value>>)
    requires t.Sequence? && |f| == |t.elements|
    ensures AnyAddition(t, f) ==> t.firstExtension >= 0 && |f| > Root(t)
    ensures AnyAddition(t, f) || forall i :: Root(t) <= i < |f| ==> f[i].None?
  {
  }

  lemma {:induction false} NothingFilled(t: Type, f: seq<Option<Value>>, i: nat)
    requires t.Sequence? && |f| == |t.elements| && i <= |f| && forall j :: i <= j < |f| ==> f[j].None?
    ensures FillOpen(t, f, i) == Absent(|f| - i)
    decreases |f| - i
  {
    hide Fill;
    if i < |f| {
      NothingFilled(t, f, i + 1);
    }
  }

  lemma {:induction false} AdditionsBack(t: Type, f: seq<Option<Value>>, rest: seq<bool>)
    requires t.Sequence? && WellFormed(t) && |f| == |t.elements| && |f| > Root(t) && EncAdditions(t, f).Bits?
    ensures DecAdditions(t, EncAdditions(t, f).bits + rest) == Ok(FillOpen(t, f, Root(t)), rest)
    decreases t, 1, 0
  {
    hide PutSmallLength, GetSmallLength, EncOpen, DecOpenMembers, FillOpen, AdditionMarks, Optionals, GoodMember;
    var n := |f| - Root(t);
    var length, marks, fields := PutSmallLength(n).value, AdditionMarks(t, f, Root(t)), EncOpen(t, f, Root(t)).bits;
    Associate(length + marks, fields, rest);
    Associate(length, marks, fields + rest);
    SmallLengthUpTo64(n, marks + (fields + rest));
    assert (marks + (fields + rest))[..n] == marks && (marks + (fields + rest))[n..] == fields + rest;
    OpenMembersBack(t, f, Root(t), rest);
  }

  lemma {:induction false} OpenMembersBack(t: Type, f: seq<Option<Value>>, i: nat, rest: seq<bool>)
    requires t.Sequence? && WellFormed(t) && |f| == |t.elements| && EncOpen(t, f, i).Bits?
    ensures DecOpenMembers(t, i, AdditionMarks(t, f, i), EncOpen(t, f, i).bits + rest) == Ok(FillOpen(t, f, i), rest)
    decreases t, 0, |f| - i
  {
    hide Enc, Fill, DecOpen, Open, GoodMember, Optionals;
    if i >= |f| {
      assert [] + rest == rest;
    } else {
      var tail := EncOpen(t, f, i + 1).bits + rest;
      OpenMembersBack(t, f, i + 1, rest);
      NextMark(f[i].Some?, AdditionMarks(t, f, i + 1));
      if f[i].Some? {
        var m := t.elements[i].ty;
        Associate(Open(Enc(m, f[i].value).bits), EncOpen(t, f, i + 1).bits, rest);
        OpenRoundTrip(m, f[i].value, tail);
      }
    }
  }

  lemma {:induction false} MembersBack(t: Type, f: seq<Option<Value>>, i: nat, rest: seq<bool>)
    requires t.Sequence? && GoodMembers(t) && |f| == |t.elements| && EncMembers(t, f, i).Bits?
    ensures DecMembers(t, i, Marks(t, f, i), EncMembers(t, f, i).bits + rest) == Ok(FillMembers(t, f, i), rest)
    decreases t, 0, |f| - i
  {
    hide Enc, Dec, Fill, Present, GoodMember, Optionals;
    if i >= Root(t) {
      assert [] + rest == rest;
    } else {
      var m := t.elements[i];
      MembersBack(t, f, i + 1, rest);
      NextMark(Present(m, f[i]), Marks(t, f, i + 1));
      if Present(m, f[i]) {
        assert f[i].Some? by { PresentIsThere(m, f[i]); }
        RoundTrip(m.ty, f[i].value, EncMembers(t, f, i + 1).bits + rest);
        Associate(Enc(m.ty, f[i].value).bits, EncMembers(t, f, i + 1).bits, rest);
      } else {
        assert m.optional by { SkippedIsOptional(t, f, i); }
      }
    }
  }

  lemma {:induction false} PresentIsThere(m: Member, f: Option<Value>)
    ensures Present(m, f) ==> f.Some?
    ensures f.Some? && m.default.None? ==> Present(m, f)
  {
    hide Compare;
  }

  lemma {:induction false} SkippedIsOptional(t: Type, f: seq<Option<Value>>, i: nat)
    requires t.Sequence? && GoodMembers(t) && |f| == |t.elements| && i < Root(t)
    requires !Present(t.elements[i], f[i]) && EncMembers(t, f, i).Bits?
    ensures t.elements[i].optional
  {
    hide Enc, Present, Optionals;
    PresentIsThere(t.elements[i], f[i]);
  }

  // ---- Input that grows ----

  lemma {:induction false} UnconstrainedMoreInput(s: seq<bool>, more: seq<bool>)
    requires !DecUnconstrained(s).Starved?
    ensures DecUnconstrained(s + more) == DecUnconstrained(s).Before(more)
  {
    hide GetOctets, SignedVal;
    OctetsMoreInput(s, more);
  }

  lemma {:induction false} RangeMoreInput(ct: Constraint, s: seq<bool>, more: seq<bool>)
    requires ct.Range? && !DecRange(ct, s).Starved?
    ensures DecRange(ct, s + more) == DecRange(ct, s).Before(more)
  {
    hide Take;
    if ct.rangeBits <= 64 {
      TakeMoreInput(s, ct.rangeBits, more);
    }
  }

  lemma {:induction false} FrontMoreInput(s: seq<bool>, more: seq<bool>)
    requires s != []
    ensures (s + more)[0] == s[0] && (s + more)[1..] == s[1..] + more
  {
  }

  lemma {:induction false} NumberMoreInput(ct: Constraint, s: seq<bool>, more: seq<bool>)
    requires !DecNumber(ct, s).Starved?
    ensures DecNumber(ct, s + more) == DecNumber(ct, s).Before(more)
  {
    hide DecUnconstrained, DecRange;
    if ct.Unconstrained? {
      UnconstrainedMoreInput(s, more);
    } else if !ct.extensible {
      RangeMoreInput(ct, s, more);
    } else {
      FrontMoreInput(s, more);
      if s[0] {
        UnconstrainedMoreInput(s[1..], more);
      } else {
        RangeMoreInput(ct, s[1..], more);
      }
    }
  }

  lemma {:induction false} EnumRootMoreInput(t: Type, s: seq<bool>, more: seq<bool>)
    requires t.Enumerated? && !DecEnumRoot(t, s).Starved?
    ensures DecEnumRoot(t, s + more) == DecEnumRoot(t, s).Before(more)
  {
    hide Take;
    TakeMoreInput(s, t.rangeBits, more);
  }

  lemma {:induction false} EnumExtensionMoreInput(t: Type, s: seq<bool>, more: seq<bool>)
    requires t.Enumerated? && !DecEnumExtension(t, s).Starved?
    ensures DecEnumExtension(t, s + more) == DecEnumExtension(t, s).Before(more)
  {
    hide GetSmall;
    if t.extension > 0 {
      SmallMoreInput(s, more);
    }
  }

  lemma {:induction false} EnumMoreInput(t: Type, s: seq<bool>, more: seq<bool>)
    requires t.Enumerated? && !DecEnum(t, s).Starved?
    ensures DecEnum(t, s + more) == DecEnum(t, s).Before(more)
  {
    hide DecEnumRoot, DecEnumExtension;
    if !t.extensible {
      EnumRootMoreInput(t, s, more);
    } else {
      FrontMoreInput(s, more);
      if s[0] {
        EnumExtensionMoreInput(t, s[1..], more);
      } else {
        EnumRootMoreInput(t, s[1..], more);
      }
    }
  }

  lemma {:induction false} IndexMoreInput(t: Type, s: seq<bool>, more: seq<bool>)
    requires t.Choice? && !DecIndex(t, s).Starved?
    ensures DecIndex(t, s + more) == DecIndex(t, s).Before(more)
  {
    hide Take, Reorder, GetSmall;
    if t.extensible {
      FrontMoreInput(s, more);
      if !s[0] {
        TakeMoreInput(s[1..], t.rangeBits, more);
      } else if t.extStart != -1 {
        SmallMoreInput(s[1..], more);
      }
    } else {
      TakeMoreInput(s, t.rangeBits, more);
    }
  }

  lemma {:induction false} PreambleMoreInput(t: Type, s: seq<bool>, more: seq<bool>)
    requires t.Sequence? && !DecPreamble(t, s).Starved?
    ensures DecPreamble(t, s + more) == DecPreamble(t, s).Before(more)
  {
    if t.firstExtension >= 0 {
      FrontMoreInput(s, more);
    }
    var s' := if t.firstExtension >= 0 then s[1..] else s;
    assert (s' + more)[..t.roms] == s'[..t.roms];
    assert (s' + more)[t.roms..] == s'[t.roms..] + more;
  }

  /** An open type field that is there is decoded the same whatever follows. */
  lemma {:induction false} OpenMoreInput(t: Type, s: seq<bool>, more: seq<bool>)
    requires !DecOpen(t, s).Starved?
    ensures DecOpen(t, s + more) == DecOpen(t, s).Before(more)
  {
    hide GetOctets, Dec, MayRemain, BytesToBits;
    OctetsMoreInput(s, more);
  }

  /** Any outcome but a demand for more input stands when more input is there. */
  lemma {:induction false} MoreInput(t: Type, s: seq<bool>, more: seq<bool>)
    requires !Dec(t, s).Starved?
    ensures Dec(t, s + more) == Dec(t, s).Before(more)
    decreases t, 1, 0
  {
    hide DecNumber, DecEnum, DecIndex, DecPreamble, DecMembers, DecAdditions, DecOpen, Completed, Absent;
    match t
    case Number(ct) => NumberMoreInput(ct, s, more);
    case Enumerated(_, _, _, _) => EnumMoreInput(t, s, more);
    case Choice(_, _, _, _, _, _, _, _) =>
      IndexMoreInput(t, s, more);
      var index := DecIndex(t, s);
      if index.Ok? && index.value.0 < |t.elements| {
        var m := t.elements[index.value.0].ty;
        if index.value.1 {
          OpenMoreInput(m, index.rest, more);
        } else {
          MoreInput(m, index.rest, more);
        }
      }
    case Sequence(_, _, _, _) =>
      PreambleMoreInput(t, s, more);
      var pre := DecPreamble(t, s);
      if pre.Ok? {
        MembersMoreInput(t, 0, pre.value.1, pre.rest, more);
        var body := DecMembers(t, 0, pre.value.1, pre.rest);
        if body.Ok? && pre.value.0 {
          AdditionsMoreInput(t, body.rest, more);
        }
      }
  }

  lemma {:induction false} AdditionsMoreInput(t: Type, s: seq<bool>, more: seq<bool>)
    requires t.Sequence? && !DecAdditions(t, s).Starved?
    ensures DecAdditions(t, s + more) == DecAdditions(t, s).Before(more)
  {
    hide GetSmallLength, DecOpenMembers;
    SmallLengthMoreInput(s, more);
    var length := GetSmallLength(s);
    var n := length.value;
    assert (length.rest + more)[..n] == length.rest[..n] && (length.rest + more)[n..] == length.rest[n..] + more;
    OpenMembersMoreInput(t, Root(t), length.rest[..n], length.rest[n..], more);
  }

  lemma {:induction false} OpenMembersMoreInput(t: Type, i: nat, marks: seq<bool>, s: seq<bool>, more: seq<bool>)
    requires t.Sequence? && !DecOpenMembers(t, i, marks, s).Starved?
    ensures DecOpenMembers(t, i, marks, s + more) == DecOpenMembers(t, i, marks, s).Before(more)
    decreases |t.elements| - i
  {
    hide DecOpen, SkipUnknown, Absent;
    if i >= |t.elements| {
      SkipMoreInput(marks, s, more);
    } else if marks != [] {
      if !marks[0] {
        OpenMembersMoreInput(t, i + 1, marks[1..], s, more);
      } else {
        OpenMoreInput(t.elements[i].ty, s, more);
        var head := DecOpen(t.elements[i].ty, s);
        if head.Ok? {
          OpenMembersMoreInput(t, i + 1, marks[1..], head.rest, more);
        }
      }
    }
  }

  lemma {:induction false} SkipMoreInput(marks: seq<bool>, s: seq<bool>, more: seq<bool>)
    requires SkipUnknown(marks, s).Ok?
    ensures SkipUnknown(marks, s + more) == SkipUnknown(marks, s).Before(more)
    decreases |marks|
  {
    hide GetOctets;
    if marks != [] {
      if !marks[0] {
        SkipMoreInput(marks[1..], s, more);
      } else {
        OctetsMoreInput(s, more);
        SkipMoreInput(marks[1..], GetOctets(s).rest, more);
      }
    }
  }

  lemma {:induction false} MembersMoreInput(t: Type, i: nat, marks: seq<bool>, s: seq<bool>, more: seq<bool>)
    requires t.Sequence? && !DecMembers(t, i, marks, s).Starved?
    ensures DecMembers(t, i, marks, s + more) == DecMembers(t, i, marks, s).Before(more)
    decreases t, 0, |t.elements| - i
  {
    hide Dec;
    if i < Root(t) {
      var m := t.elements[i];
      var marks' := if m.optional && marks != [] then marks[1..] else marks;
      if m.optional && marks != [] && !marks[0] {
        MembersMoreInput(t, i + 1, marks', s, more);
      } else {
        MoreInput(m.ty, s, more);
        var head := Dec(m.ty, s);
        if head.Ok? {
          MembersMoreInput(t, i + 1, marks', head.rest, more);
        }
      }
    }
  }

  /** An encoding cut short anywhere makes the decoder ask for more; it is never taken for another value. */
  lemma {:induction false} CutShort(t: Type, v: Value, n: nat)
    requires WellFormed(t) && Enc(t, v).Bits? && n < |Enc(t, v).bits|
    ensures Dec(t, Enc(t, v).bits[..n]).Starved?
  {
    hide Enc, Dec, Fill, WellFormed;
    var all := Enc(t, v).bits;
    assert all == all[..n] + all[n..] && all + [] == all;
    if !Dec(t, all[..n]).Starved? {
      MoreInput(t, all[..n], all[n..]);
      RoundTrip(t, v, []);
    }
  }

  // ---- More extension additions than the length codec can carry ----

  /** Additions beyond the bitmap are null, for a start. */
  lemma {:induction false} BeyondBitmap(t: Type, i: nat, marks: seq<bool>, s: seq<bool>, j: nat)
    requires t.Sequence? && i <= j < |t.elements| && i + |marks| <= j && DecOpenMembers(t, i, marks, s).Ok?
    ensures var r := DecOpenMembers(t, i, marks, s).value; |r| == |t.elements| - i && r[j - i].None?
    decreases |t.elements| - i
  {
    hide DecOpen;
    if marks != [] {
      BeyondBitmap(t, i + 1, marks[1..], if marks[0] then DecOpen(t.elements[i].ty, s).rest else s, j);
    }
  }

  /** The length read for a bitmap of more than 64 bits is too small, so the last addition goes missing. */
  lemma {:induction false} LastUnread(t: Type, f: seq<Option<Value>>, rest: seq<bool>)
    requires t.Sequence? && |f| == |t.elements| && 65 <= |f| - Root(t) < FRAGMENT && EncAdditions(t, f).Bits?
    requires DecAdditions(t, EncAdditions(t, f).bits + rest).Ok?
    ensures var r := DecAdditions(t, EncAdditions(t, f).bits + rest).value;
            |r| == |f| - Root(t) && r[|f| - 1 - Root(t)].None?
  {
    hide PutSmallLength, GetSmallLength, EncOpen, DecOpenMembers, AdditionMarks;
    var n := |f| - Root(t);
    var length, tail := PutSmallLength(n).value, AdditionMarks(t, f, Root(t)) + EncOpen(t, f, Root(t)).bits;
    var s := EncAdditions(t, f).bits + rest;
    assert s == length + (tail + rest) by {
      Associate(length, AdditionMarks(t, f, Root(t)), EncOpen(t, f, Root(t)).bits);
      Associate(length, tail, rest);
    }
    SmallLengthFrom65(n, tail + rest);
    var r := GetSmallLength(s);
    BeyondBitmap(t, Root(t), r.rest[..r.value], r.rest[r.value..], |f| - 1);
  }

  /** What the last addition comes back as, if the SEQUENCE is accepted at all. */
  lemma {:induction false} LastAdditionLost(t: Type, f: seq<Option<Value>>, rest: seq<bool>)
    requires t.Sequence? && GoodMembers(t) && |f| == |t.elements| && 65 <= |f| - Root(t) < FRAGMENT
    requires Enc(t, Fields(f)).Bits? && f[|f| - 1].Some?
    ensures var r := Dec(t, Enc(t, Fields(f)).bits + rest);
            r.Ok? ==> && r.value.Fields? && |r.value.fields| >= 1
                      && r.value.fields[|r.value.fields| - 1]
                         == if Listed(t, |f| - 1) then t.elements[|f| - 1].default else None
  {
    hide EncPreamble, DecPreamble, EncMembers, DecMembers, FillMembers, EncAdditions, DecAdditions,
      Completed, AnyAddition, Optionals, GoodMember, Absent, Listed;
    var additions := EncAdditions(t, f);
    assert AnyAddition(t, f) by { LastIsAny(t, f); }
    var pre, body := EncPreamble(t, f), EncMembers(t, f, 0).bits;
    Associate(pre + body, additions.bits, rest);
    Associate(pre, body, additions.bits + rest);
    NoAdditionWithoutMark(t, f);
    PreambleBack(t, f, body + (additions.bits + rest));
    MembersBack(t, f, 0, additions.bits + rest);
    var more := DecAdditions(t, additions.bits + rest);
    if more.Ok? {
      LastUnread(t, f, rest);
      CompletedAt(t, more.value, Root(t), |f| - 1 - Root(t));
    }
  }

  lemma {:induction false} LastIsAny(t: Type, f: seq<Option<Value>>)
    requires t.Sequence? && |f| == |t.elements| && Root(t) < |f| && f[|f| - 1].Some?
    ensures AnyAddition(t, f)
  {
  }

  /** A SEQUENCE whose last extension addition is there and has no DEFAULT comes back exactly up to 64 additions. */
  lemma {:induction false} AdditionsExact(t: Type, f: seq<Option<Value>>, rest: seq<bool>)
    requires t.Sequence? && GoodMembers(t) && |f| == |t.elements| && 1 <= |f| - Root(t) < FRAGMENT
    requires Enc(t, Fields(f)).Bits? && f[|f| - 1].Some? && t.elements[|f| - 1].default.None?
    ensures Dec(t, Enc(t, Fields(f)).bits + rest) == Ok(Fill(t, Fields(f)), rest) <==> |f| - Root(t) <= 64
  {
    hide Enc, Dec, Completed, FillMembers, FillOpen, GoodMembers, Listed;
    if |f| - Root(t) <= 64 {
      RoundTrip(t, Fields(f), rest);
    } else {
      LastAdditionLost(t, f, rest);
      var more := FillOpen(t, f, Root(t));
      FillOpenAt(t, f, Root(t), |f| - 1);
      CompletedAt(t, more, Root(t), |f| - 1 - Root(t));
    }
  }

  // ---- Values that compare equal ----

  lemma {:induction false} Symmetric(t: Type, a: Value, b: Value)
    requires Compare(t, a, b) == 0
    ensures Compare(t, b, a) == 0
    decreases t, 1, 0
  {
    hide CompareMembers;
    match t
    case Number(_) =>
    case Enumerated(_, _, _, _) =>
    case Choice(_, _, _, _, _, _, _, _) =>
      Symmetric(t.elements[a.present - 1].ty, a.member.value, b.member.value);
    case Sequence(_, _, _, _) => SymmetricMembers(t, a.fields, b.fields, 0);
  }

  lemma {:induction false} SymmetricField(m: Member, a: Option<Value>, b: Option<Value>)
    requires CompareField(m, a, b) == 0
    ensures CompareField(m, b, a) == 0
    decreases m.ty, 2, 0
  {
    hide Compare;
    if a.Some? && b.Some? {
      Symmetric(m.ty, a.value, b.value);
    }
  }

  lemma {:induction false} SymmetricMembers(t: Type, a: seq<Option<Value>>, b: seq<Option<Value>>, i: nat)
    requires t.Sequence? && |a| == |b| == |t.elements| && CompareMembers(t, a, b, i) == 0
    ensures CompareMembers(t, b, a, i) == 0
    decreases t, 0, |a| - i
  {
    hide CompareField;
    if i < |a| {
      SymmetricField(t.elements[i], a[i], b[i]);
      SymmetricMembers(t, a, b, i + 1);
    }
  }

  lemma {:induction false} Transitive(t: Type, a: Value, b: Value, c: Value)
    requires Compare(t, a, b) == 0 && Compare(t, b, c) == 0
    ensures Compare(t, a, c) == 0
    decreases t, 1, 0
  {
    hide CompareMembers;
    match t
    case Number(_) =>
    case Enumerated(_, _, _, _) =>
    case Choice(_, _, _, _, _, _, _, _) =>
      Transitive(t.elements[a.present - 1].ty, a.member.value, b.member.value, c.member.value);
    case Sequence(_, _, _, _) => TransitiveMembers(t, a.fields, b.fields, c.fields, 0);
  }

  lemma {:induction false} TransitiveField(m: Member, a: Option<Value>, b: Option<Value>, c: Option<Value>)
    requires CompareField(m, a, b) == 0 && CompareField(m, b, c) == 0
    ensures CompareField(m, a, c) == 0
    decreases m.ty, 2, 0
  {
    hide Compare;
    var d := m.default;
    if a.Some? && b.Some? && c.Some? {
      Transitive(m.ty, a.value, b.value, c.value);
    } else if a.None? && b.Some? && c.Some? {
      Symmetric(m.ty, b.value, c.value);
      Transitive(m.ty, c.value, b.value, d.value);
    } else if a.Some? && b.None? && c.Some? {
      Symmetric(m.ty, c.value, d.value);
      Transitive(m.ty, a.value, d.value, c.value);
    } else if a.Some? && b.Some? && c.None? {
      Transitive(m.ty, a.value, b.value, d.value);
    }
  }

  lemma {:induction false} TransitiveMembers(t: Type, a: seq<Option<Value>>, b: seq<Option<Value>>,
                                             c: seq<Option<Value>>, i: nat)
    requires t.Sequence? && |a| == |b| == |c| == |t.elements|
    requires CompareMembers(t, a, b, i) == 0 && CompareMembers(t, b, c, i) == 0
    ensures CompareMembers(t, a, c, i) == 0
    decreases t, 0, |a| - i
  {
    hide CompareField;
    if i < |a| {
      TransitiveField(t.elements[i], a[i], b[i], c[i]);
      TransitiveMembers(t, a, b, c, i + 1);
    }
  }

  /** What comes back compares equal to what was sent: absent and DEFAULT are the same. */
  lemma {:induction false} FillEqual(t: Type, v: Value)
    requires WellFormed(t) && Enc(t, v).Bits?
    ensures Compare(t, v, Fill(t, v)) == 0
    decreases t, 1, 0
  {
    hide EncNumber, EncEnum, GoodOrder, EncPreamble, EncMembers, EncOpen, FillMembers, FillOpen, CompareMembers,
      Completed, AnyAddition, Open, AdditionMarks, PutSmallLength;
    match t
    case Number(_) =>
    case Enumerated(_, _, _, _) =>
    case Choice(_, _, _, _, _, _, _, _) =>
      FillEqual(t.elements[v.present - 1].ty, v.member.value);
    case Sequence(_, _, _, _) =>
      FillEqualMembers(t, v.fields, Fill(t, v).fields, 0);
  }

  lemma {:induction false} CompletedAt(t: Type, f: seq<Option<Value>>, i: nat, j: nat)
    requires t.Sequence? && j < |f|
    ensures Completed(t, f, i)[j] == if f[j].None? && Listed(t, i + j) then t.elements[i + j].default else f[j]
    decreases j
  {
    hide Listed;
    if j > 0 {
      CompletedAt(t, f[1..], i + 1, j - 1);
    }
  }

  lemma {:induction false} FillOpenAt(t: Type, f: seq<Option<Value>>, i: nat, j: nat)
    requires t.Sequence? && |f| == |t.elements| && i <= j < |f|
    ensures FillOpen(t, f, i)[j - i] == if f[j].Some? then Some(Fill(t.elements[j].ty, f[j].value)) else None
    decreases j - i
  {
    hide Fill;
    if i < j {
      FillOpenAt(t, f, i + 1, j);
    }
  }

  /** Every extension addition that is there has an encoding of its own. */
  lemma {:induction false} AdditionEncodes(t: Type, f: seq<Option<Value>>, i: nat, j: nat)
    requires t.Sequence? && |f| == |t.elements| && i <= j < |f| && EncOpen(t, f, i).Bits?
    ensures f[j].Some? ==> Enc(t.elements[j].ty, f[j].value).Bits?
    ensures EncOpen(t, f, j).Bits?
    decreases j - i
  {
    hide Enc, Open;
    if i < j {
      AdditionEncodes(t, f, i + 1, j);
    }
  }

  /** A DEFAULT compares equal to itself. */
  lemma {:induction false} DefaultEqual(m: Member)
    requires WellFormed(m.ty) && GoodMember(m) && m.default.Some?
    ensures Compare(m.ty, m.default.value, m.default.value) == 0
    decreases m.ty, 2, 0
  {
    hide Enc, Compare, Fill;
    var d := m.default.value;
    FillEqual(m.ty, d);
    Symmetric(m.ty, d, Fill(m.ty, d));
    Transitive(m.ty, d, Fill(m.ty, d), d);
  }

  /** What one root member comes back as. */
  function FillField(m: Member, f: Option<Value>): Option<Value>
    decreases m.ty, 2, 0
  {
    if Present(m, f) then Some(Fill(m.ty, f.value)) else m.default
  }

  lemma {:induction false} FillAt(t: Type, f: seq<Option<Value>>, i: nat, j: nat)
    requires t.Sequence? && |f| == |t.elements| && i <= j < Root(t)
    ensures FillMembers(t, f, i)[j - i] == FillField(t.elements[j], f[j])
    decreases j - i
  {
    hide Fill, Present;
    if i < j {
      FillAt(t, f, i + 1, j);
    }
  }

  /** Every root member that is sent has an encoding of its own. */
  lemma {:induction false} MemberEncodes(t: Type, f: seq<Option<Value>>, i: nat, j: nat)
    requires t.Sequence? && |f| == |t.elements| && i <= j < Root(t) && EncMembers(t, f, i).Bits?
    ensures Present(t.elements[j], f[j]) ==> f[j].Some? && Enc(t.elements[j].ty, f[j].value).Bits?
    ensures EncMembers(t, f, j).Bits?
    decreases j - i
  {
    hide Enc, Present;
    if i < j {
      MemberEncodes(t, f, i + 1, j);
    } else {
      PresentIsThere(t.elements[j], f[j]);
    }
  }

  lemma {:induction false} FieldEqual(m: Member, f: Option<Value>)
    requires WellFormed(m.ty) && GoodMember(m)
    requires Present(m, f) ==> f.Some? && Enc(m.ty, f.value).Bits?
    ensures CompareField(m, f, FillField(m, f)) == 0
    decreases m.ty, 3, 0
  {
    hide Enc, Compare, Fill, GoodMember;
    if Present(m, f) {
      FillEqual(m.ty, f.value);
    } else if m.default.Some? {
      DefaultEqual(m);
    }
  }

  lemma {:induction false} FillEqualMembers(t: Type, f: seq<Option<Value>>, g: seq<Option<Value>>, i: nat)
    requires t.Sequence? && WellFormed(t) && |f| == |g| == |t.elements|
    requires EncMembers(t, f, 0).Bits? && (AnyAddition(t, f) ==> EncOpen(t, f, Root(t)).Bits?)
    requires g == FillMembers(t, f, 0) + Completed(t, FillOpen(t, f, Root(t)), Root(t))
    ensures CompareMembers(t, f, g, i) == 0
    decreases t, 0, |f| - i
  {
    hide Enc, EncMembers, EncOpen, CompareField, Present, Completed, FillMembers, FillOpen, FillField, GoodMember,
      Optionals, AnyAddition;
    if i < |f| {
      if i < Root(t) {
        FillAt(t, f, 0, i);
        MemberEncodes(t, f, 0, i);
        FieldEqual(t.elements[i], f[i]);
      } else {
        AdditionEqual(t, f, g[i], i);
      }
      FillEqualMembers(t, f, g, i + 1);
    }
  }

  lemma {:induction false} AdditionEqual(t: Type, f: seq<Option<Value>>, g: Option<Value>, i: nat)
    requires t.Sequence? && WellFormed(t) && |f| == |t.elements| && Root(t) <= i < |f|
    requires AnyAddition(t, f) ==> EncOpen(t, f, Root(t)).Bits?
    requires g == Completed(t, FillOpen(t, f, Root(t)), Root(t))[i - Root(t)]
    ensures CompareField(t.elements[i], f[i], g) == 0
    decreases t, 0, 0
  {
    hide Enc, EncOpen, Fill, Completed, FillOpen, Compare, GoodMember, Optionals, Listed;
    var m := t.elements[i];
    CompletedAt(t, FillOpen(t, f, Root(t)), Root(t), i - Root(t));
    FillOpenAt(t, f, Root(t), i);
    if f[i].Some? {
      AdditionEncodes(t, f, Root(t), i);
      FillEqual(m.ty, f[i].value);
    } else {
      UnsentEqual(m, g);
    }
  }

  lemma {:induction false} UnsentEqual(m: Member, g: Option<Value>)
    requires WellFormed(m.ty) && GoodMember(m) && g in {None, m.default}
    ensures CompareField(m, None, g) == 0
    decreases m.ty, 3, 0
  {
    hide Compare, GoodMember;
    if g.Some? {
      DefaultEqual(m);
    }
  }

  // ---- Canonical encodings ----

  /** Whether the same extension additions are there, wherever two values that compare equal are sent. */
  predicate SameAdditions(t: Type, a: Value, b: Value)
    decreases t, 1, 0
  {
    match t
    case Number(_) => true
    case Enumerated(_, _, _, _) => true
    case Choice(_, _, _, _, _, _, _, _) =>
      Held(t, a).Some? && Held(t, b).Some? && a.present == b.present ==>
        SameAdditions(t.elements[a.present - 1].ty, Held(t, a).value, Held(t, b).value)
    case Sequence(_, _, _, _) =>
      a.Fields? && b.Fields? && |a.fields| == |b.fields| == |t.elements| ==>
        SameFrom(t, a.fields, b.fields, 0)
  }

  predicate SameFrom(t: Type, a: seq<Option<Value>>, b: seq<Option<Value>>, i: nat)
    requires t.Sequence? && |a| == |b| == |t.elements|
    decreases t, 0, |a| - i
  {
    if i >= |a| then true
    else
      var m := t.elements[i];
      && (i >= Root(t) ==> a[i].Some? == b[i].Some?)
      && (a[i].Some? && b[i].Some? && (i >= Root(t) || (Present(m, a[i]) && Present(m, b[i]))) ==>
            SameAdditions(m.ty, a[i].value, b[i].value))
      && SameFrom(t, a, b, i + 1)
  }

  /** Values that compare equal and have the same extension additions have one encoding. */
  lemma {:induction false} SameEncoding(t: Type, a: Value, b: Value)
    requires Compare(t, a, b) == 0 && SameAdditions(t, a, b) && Enc(t, a).Bits? && Enc(t, b).Bits?
    ensures Enc(t, a) == Enc(t, b)
    decreases t, 1, 0
  {
    hide EncNumber, EncEnum, EncIndex, EncPreamble, EncMembers, EncAdditions, CompareMembers, AnyAddition, Outside,
      Open, SameFrom;
    match t
    case Number(_) =>
    case Enumerated(_, _, _, _) =>
    case Choice(_, _, _, _, _, _, _, _) =>
      SameEncoding(t.elements[a.present - 1].ty, a.member.value, b.member.value);
    case Sequence(_, _, _, _) =>
      SamePreamble(t, a.fields, b.fields);
      SameMembers(t, a.fields, b.fields, 0);
      if AnyAddition(t, a.fields) {
        SameExtensions(t, a.fields, b.fields);
      }
  }

  lemma {:induction false} SamePreamble(t: Type, a: seq<Option<Value>>, b: seq<Option<Value>>)
    requires t.Sequence? && |a| == |b| == |t.elements| && t.roms <= |t.oms|
    requires CompareMembers(t, a, b, 0) == 0 && SameFrom(t, a, b, 0)
    ensures EncPreamble(t, a) == EncPreamble(t, b) && AnyAddition(t, a) == AnyAddition(t, b)
  {
    hide Bitmap, CompareMembers, SameFrom;
    SameBitmap(t, a, b, t.oms[..t.roms]);
    forall i | Root(t) <= i < |a| ensures a[i].Some? == b[i].Some? {
      SameAt(t, a, b, 0, i);
    }
  }

  /** What the recursive definition says of one field. */
  lemma {:induction false} SameAt(t: Type, a: seq<Option<Value>>, b: seq<Option<Value>>, i: nat, j: nat)
    requires t.Sequence? && |a| == |b| == |t.elements| && SameFrom(t, a, b, i) && i <= j < |a|
    ensures j >= Root(t) ==> a[j].Some? == b[j].Some?
    ensures a[j].Some? && b[j].Some?
            && (j >= Root(t) || (Present(t.elements[j], a[j]) && Present(t.elements[j], b[j]))) ==>
              SameAdditions(t.elements[j].ty, a[j].value, b[j].value)
    decreases j - i
  {
    hide SameAdditions, Present;
    if i < j {
      SameAt(t, a, b, i + 1, j);
    }
  }

  lemma {:induction false} FieldsEqual(t: Type, a: seq<Option<Value>>, b: seq<Option<Value>>, i: nat, j: nat)
    requires t.Sequence? && |a| == |b| == |t.elements| && CompareMembers(t, a, b, i) == 0 && i <= j < |a|
    ensures CompareField(t.elements[j], a[j], b[j]) == 0
    decreases j - i
  {
    hide CompareField;
    if i < j {
      FieldsEqual(t, a, b, i + 1, j);
    }
  }

  lemma {:induction false} SamePresent(m: Member, a: Option<Value>, b: Option<Value>)
    requires CompareField(m, a, b) == 0
    ensures Present(m, a) == Present(m, b)
    ensures Present(m, a) ==> a.Some? && b.Some? && Compare(m.ty, a.value, b.value) == 0
  {
    hide Compare;
    if a.Some? && b.Some? && m.default.Some? {
      var d := m.default.value;
      if Compare(m.ty, a.value, d) == 0 {
        Symmetric(m.ty, a.value, b.value);
        Transitive(m.ty, b.value, a.value, d);
      } else if Compare(m.ty, b.value, d) == 0 {
        Transitive(m.ty, a.value, b.value, d);
      }
    }
  }

  lemma {:induction false} SameBitmap(t: Type, a: seq<Option<Value>>, b: seq<Option<Value>>, oms: seq<nat>)
    requires t.Sequence? && |a| == |b| == |t.elements| && CompareMembers(t, a, b, 0) == 0
    ensures Bitmap(t, a, oms) == Bitmap(t, b, oms)
    decreases |oms|
  {
    hide CompareMembers, CompareField, Present;
    if oms != [] {
      if oms[0] < |a| {
        FieldsEqual(t, a, b, 0, oms[0]);
        SamePresent(t.elements[oms[0]], a[oms[0]], b[oms[0]]);
      }
      SameBitmap(t, a, b, oms[1..]);
    }
  }

  lemma {:induction false} SameMembers(t: Type, a: seq<Option<Value>>, b: seq<Option<Value>>, i: nat)
    requires t.Sequence? && |a| == |b| == |t.elements| && CompareMembers(t, a, b, 0) == 0 && SameFrom(t, a, b, 0)
    requires EncMembers(t, a, i).Bits? && EncMembers(t, b, i).Bits?
    ensures EncMembers(t, a, i) == EncMembers(t, b, i)
    decreases t, 0, |a| - i
  {
    hide Enc, CompareMembers, CompareField, Present, SameFrom;
    if i < Root(t) {
      var m := t.elements[i];
      FieldsEqual(t, a, b, 0, i);
      SamePresent(m, a[i], b[i]);
      if Present(m, a[i]) {
        SameAt(t, a, b, 0, i);
        SameEncoding(m.ty, a[i].value, b[i].value);
      }
      SameMembers(t, a, b, i + 1);
    }
  }

  lemma {:induction false} SameExtensions(t: Type, a: seq<Option<Value>>, b: seq<Option<Value>>)
    requires t.Sequence? && |a| == |b| == |t.elements| && CompareMembers(t, a, b, 0) == 0 && SameFrom(t, a, b, 0)
    requires EncAdditions(t, a).Bits? && EncAdditions(t, b).Bits?
    ensures EncAdditions(t, a) == EncAdditions(t, b)
    decreases t, 0, |a| + 1
  {
    hide Enc, EncOpen, CompareMembers, SameFrom, PutSmallLength, AdditionMarks;
    SameOpen(t, a, b, Root(t));
  }

  lemma {:induction false} SameOpen(t: Type, a: seq<Option<Value>>, b: seq<Option<Value>>, i: nat)
    requires t.Sequence? && |a| == |b| == |t.elements| && CompareMembers(t, a, b, 0) == 0 && SameFrom(t, a, b, 0)
    requires Root(t) <= i && EncOpen(t, a, i).Bits? && EncOpen(t, b, i).Bits?
    ensures EncOpen(t, a, i) == EncOpen(t, b, i) && AdditionMarks(t, a, i) == AdditionMarks(t, b, i)
    decreases t, 0, |a| - i
  {
    hide Enc, CompareMembers, Compare, SameFrom, Open;
    if i < |a| {
      var m := t.elements[i];
      FieldsEqual(t, a, b, 0, i);
      SameAt(t, a, b, 0, i);
      if a[i].Some? {
        SameEncoding(m.ty, a[i].value, b[i].value);
      }
      SameOpen(t, a, b, i + 1);
    }
  }

  // ---- One encoding tells everything ----

  /** Where two encodings begin one stream, they are one encoding. */
  lemma {:induction false} Parse(t: Type, a: Value, b: Value, x: seq<bool>, y: seq<bool>)
    requires WellFormed(t) && Enc(t, a).Bits? && Enc(t, b).Bits? && Enc(t, a).bits + x == Enc(t, b).bits + y
    ensures Enc(t, a) == Enc(t, b) && x == y
  {
    hide Enc, Dec, Fill, WellFormed;
    RoundTrip(t, a, x);
    RoundTrip(t, b, y);
    PrefixSame(Enc(t, a).bits, Enc(t, b).bits, x);
  }

  lemma {:induction false} PrefixSame(p: seq<bool>, q: seq<bool>, x: seq<bool>)
    requires p + x == q + x
    ensures p == q
  {
    assert |p| == |q|;
    assert p == (p + x)[..|p|] && q == (q + x)[..|p|];
  }

  lemma {:induction false} ParseOpen(t: Type, a: Value, b: Value, x: seq<bool>, y: seq<bool>)
    requires WellFormed(t) && Enc(t, a).Bits? && Enc(t, b).Bits?
    requires Open(Enc(t, a).bits) + x == Open(Enc(t, b).bits) + y
    ensures Enc(t, a) == Enc(t, b) && x == y
  {
    hide Enc, PutOctets, GetOctets, BytesToBits, OpenOctets, WellFormed;
    var p, q := Enc(t, a).bits, Enc(t, b).bits;
    OctetsRoundTrip(OpenOctets(p), x);
    OctetsRoundTrip(OpenOctets(q), y);
    OpenOctetsBits(p);
    OpenOctetsBits(q);
    Parse(t, a, b, if p == [] then Zeros(8) else Zeros(Padding(|p|)),
          if q == [] then Zeros(8) else Zeros(Padding(|q|)));
  }

  /** Values with one encoding have the same extension additions. */
  lemma {:induction false} OneEncoding(t: Type, a: Value, b: Value)
    requires WellFormed(t) && Enc(t, a).Bits? && Enc(t, a) == Enc(t, b)
    ensures SameAdditions(t, a, b)
    decreases t, 2, 0
  {
    hide EncNumber, EncEnum, EncIndex, EncPreamble, EncMembers, EncAdditions, AnyAddition, Outside, Open, SameFrom,
      GoodOrder, Optionals, GoodMember;
    match t
    case Number(_) =>
    case Enumerated(_, _, _, _) =>
    case Choice(_, _, _, _, _, _, _, _) =>
      if Held(t, a).Some? && Held(t, b).Some? && a.present == b.present {
        OneAlternative(t, a, b);
      }
    case Sequence(_, _, _, _) => OneSequence(t, a.fields, b.fields);
  }

  lemma {:induction false} OneAlternative(t: Type, a: Value, b: Value)
    requires t.Choice? && WellFormed(t) && Enc(t, a).Bits? && Enc(t, a) == Enc(t, b)
    requires Held(t, a).Some? && Held(t, b).Some? && a.present == b.present
    ensures SameAdditions(t.elements[a.present - 1].ty, a.member.value, b.member.value)
    decreases t, 1, 0
  {
    hide Enc, EncIndex, Outside, Open, WellFormed, SameAdditions;
    var m := t.elements[a.present - 1].ty;
    assert WellFormed(m) by { AlternativeFormed(t, a.present); }
    ChoiceParts(t, a);
    ChoiceParts(t, b);
    var index := EncIndex(t, a.present).bits;
    var p, q := Enc(m, a.member.value).bits, Enc(m, b.member.value).bits;
    if Outside(t, a.present) {
      SuffixSame(index, Open(p), Open(q));
      ParseOpen(m, a.member.value, b.member.value, [], []);
    } else {
      SuffixSame(index, p, q);
    }
    OneEncoding(m, a.member.value, b.member.value);
  }

  lemma {:induction false} AlternativeFormed(t: Type, present: nat)
    requires t.Choice? && WellFormed(t) && 1 <= present <= |t.elements|
    ensures WellFormed(t.elements[present - 1].ty)
  {
    hide GoodOrder;
  }

  /** What the encoding of a CHOICE is made of. */
  lemma {:induction false} ChoiceParts(t: Type, v: Value)
    requires t.Choice? && Enc(t, v).Bits? && Held(t, v).Some?
    ensures EncIndex(t, v.present).Bits? && Enc(t.elements[v.present - 1].ty, v.member.value).Bits?
    ensures var body := Enc(t.elements[v.present - 1].ty, v.member.value).bits;
            Enc(t, v).bits == EncIndex(t, v.present).bits + if Outside(t, v.present) then Open(body) else body
  {
    hide EncIndex, Outside, Open;
  }

  lemma {:induction false} SuffixSame(x: seq<bool>, p: seq<bool>, q: seq<bool>)
    requires x + p == x + q
    ensures p == q
  {
    assert p == (x + p)[|x|..] && q == (x + q)[|x|..];
  }

  lemma {:induction false} OneSequence(t: Type, a: seq<Option<Value>>, b: seq<Option<Value>>)
    requires t.Sequence? && WellFormed(t) && |a| == |b| == |t.elements|
    requires Enc(t, Fields(a)).Bits? && Enc(t, Fields(a)) == Enc(t, Fields(b))
    ensures SameFrom(t, a, b, 0)
    decreases t, 1, 0
  {
    hide EncPreamble, DecPreamble, EncMembers, EncAdditions, AnyAddition, Marks, Optionals, GoodMember, SameFrom;
    var p, q := EncPreamble(t, a), EncPreamble(t, b);
    var x, y := EncMembers(t, a, 0).bits, EncMembers(t, b, 0).bits;
    var c := if AnyAddition(t, a) then EncAdditions(t, a).bits else [];
    var d := if AnyAddition(t, b) then EncAdditions(t, b).bits else [];
    Associate(p, x, c);
    Associate(q, y, d);
    PreambleBack(t, a, x + c);
    PreambleBack(t, b, y + d);
    NoAdditionWithoutMark(t, a);
    NoAdditionWithoutMark(t, b);
    if c == d {
      if AnyAddition(t, a) {
        OneExtension(t, a, b);
      } else {
        NothingSame(t, a, b, Root(t));
      }
    }
    OneRest(t, a, b, 0, c, d);
  }

  /** The fields from number `i` on, after equal marks. */
  lemma {:induction false} OneRest(t: Type, a: seq<Option<Value>>, b: seq<Option<Value>>, i: nat, c: seq<bool>,
                                   d: seq<bool>)
    requires t.Sequence? && WellFormed(t) && |a| == |b| == |t.elements| && i <= Root(t)
    requires Marks(t, a, i) == Marks(t, b, i) && EncMembers(t, a, i).Bits? && EncMembers(t, b, i).Bits?
    requires EncMembers(t, a, i).bits + c == EncMembers(t, b, i).bits + d
    requires c == d ==> SameFrom(t, a, b, Root(t))
    ensures SameFrom(t, a, b, i)
    decreases t, 0, |a| - i
  {
    hide Enc, Present, GoodMember, Optionals, SameFrom, SameAdditions;
    if i == Root(t) {
      assert [] + c == c && [] + d == d;
    } else {
      var m := t.elements[i];
      SameMark(t, a, b, i);
      if Present(m, a[i]) && Present(m, b[i]) {
        PresentIsThere(m, a[i]);
        PresentIsThere(m, b[i]);
        var p, q := Enc(m.ty, a[i].value).bits, Enc(m.ty, b[i].value).bits;
        Associate(p, EncMembers(t, a, i + 1).bits, c);
        Associate(q, EncMembers(t, b, i + 1).bits, d);
        Parse(m.ty, a[i].value, b[i].value, EncMembers(t, a, i + 1).bits + c, EncMembers(t, b, i + 1).bits + d);
        OneEncoding(m.ty, a[i].value, b[i].value);
      } else {
        assert m.optional by {
          if Present(m, a[i]) {
            SkippedIsOptional(t, b, i);
          } else {
            SkippedIsOptional(t, a, i);
          }
        }
      }
      OneRest(t, a, b, i + 1, c, d);
      assert SameFrom(t, a, b, i) by { SameFromHere(t, a, b, i); }
    }
  }

  lemma {:induction false} SameFromHere(t: Type, a: seq<Option<Value>>, b: seq<Option<Value>>, i: nat)
    requires t.Sequence? && |a| == |b| == |t.elements| && i < |a| && SameFrom(t, a, b, i + 1)
    requires i >= Root(t) ==> a[i].Some? == b[i].Some?
    requires a[i].Some? && b[i].Some?
             && (i >= Root(t) || (Present(t.elements[i], a[i]) && Present(t.elements[i], b[i]))) ==>
               SameAdditions(t.elements[i].ty, a[i].value, b[i].value)
    ensures SameFrom(t, a, b, i)
  {
    hide SameAdditions, Present;
  }

  /** Equal bitmaps agree on the first member they speak of, and on the others. */
  lemma {:induction false} SameMark(t: Type, a: seq<Option<Value>>, b: seq<Option<Value>>, i: nat)
    requires t.Sequence? && |a| == |b| == |t.elements| && i < Root(t) && Marks(t, a, i) == Marks(t, b, i)
    ensures Marks(t, a, i + 1) == Marks(t, b, i + 1)
    ensures t.elements[i].optional ==> Present(t.elements[i], a[i]) == Present(t.elements[i], b[i])
  {
    hide Present;
    var m := t.elements[i];
    NextMark(Present(m, a[i]), Marks(t, a, i + 1));
    NextMark(Present(m, b[i]), Marks(t, b, i + 1));
  }

  lemma {:induction false} OneExtension(t: Type, a: seq<Option<Value>>, b: seq<Option<Value>>)
    requires t.Sequence? && WellFormed(t) && |a| == |b| == |t.elements|
    requires EncAdditions(t, a).Bits? && EncAdditions(t, a) == EncAdditions(t, b)
    ensures SameFrom(t, a, b, Root(t))
    decreases t, 0, |a| + 1
  {
    hide EncOpen, PutSmallLength, AdditionMarks, GoodMember, Optionals, SameFrom;
    var length := PutSmallLength(|a| - Root(t)).value;
    var p, q := AdditionMarks(t, a, Root(t)), AdditionMarks(t, b, Root(t));
    var x, y := EncOpen(t, a, Root(t)).bits, EncOpen(t, b, Root(t)).bits;
    Associate(length, p, x);
    Associate(length, q, y);
    SuffixSame(length, p + x, q + y);
    assert p == (p + x)[..|p|] && q == (q + y)[..|p|];
    SuffixSame(p, x, y);
    OneOpen(t, a, b, Root(t));
  }

  lemma {:induction false} OneOpen(t: Type, a: seq<Option<Value>>, b: seq<Option<Value>>, i: nat)
    requires t.Sequence? && WellFormed(t) && |a| == |b| == |t.elements| && Root(t) <= i
    requires AdditionMarks(t, a, i) == AdditionMarks(t, b, i)
    requires EncOpen(t, a, i).Bits? && EncOpen(t, a, i) == EncOpen(t, b, i)
    ensures SameFrom(t, a, b, i)
    decreases t, 0, |a| - i
  {
    hide Enc, Open, GoodMember, Optionals, SameAdditions, Present;
    if i < |a| {
      var m := t.elements[i];
      NextMark(a[i].Some?, AdditionMarks(t, a, i + 1));
      NextMark(b[i].Some?, AdditionMarks(t, b, i + 1));
      if a[i].Some? {
        ParseOpen(m.ty, a[i].value, b[i].value, EncOpen(t, a, i + 1).bits, EncOpen(t, b, i + 1).bits);
        OneEncoding(m.ty, a[i].value, b[i].value);
      }
      OneOpen(t, a, b, i + 1);
    }
  }

  lemma {:induction false} NothingSame(t: Type, a: seq<Option<Value>>, b: seq<Option<Value>>, i: nat)
    requires t.Sequence? && |a| == |b| == |t.elements| && Root(t) <= i
    requires forall j :: i <= j < |a| ==> a[j].None? && b[j].None?
    ensures SameFrom(t, a, b, i)
    decreases |a| - i
  {
    hide Present, SameAdditions;
    if i < |a| {
      NothingSame(t, a, b, i + 1);
    }
  }

  /** Two values have one encoding exactly when they compare equal and have the same extension additions. */
  lemma {:induction false} Canonical(t: Type, a: Value, b: Value)
    requires WellFormed(t) && Enc(t, a).Bits? && Enc(t, b).Bits?
    ensures Enc(t, a) == Enc(t, b) <==> Compare(t, a, b) == 0 && SameAdditions(t, a, b)
  {
    hide Enc, Dec, Compare, Fill, WellFormed, SameAdditions;
    if Compare(t, a, b) == 0 && SameAdditions(t, a, b) {
      SameEncoding(t, a, b);
    }
    if Enc(t, a) == Enc(t, b) {
      OneEncoding(t, a, b);
      RoundTrip(t, a, []);
      RoundTrip(t, b, []);
      FillEqual(t, a);
      FillEqual(t, b);
      Symmetric(t, b, Fill(t, b));
      Transitive(t, a, Fill(t, a), b);
    }
  }

  /** A type tree without a DEFAULT among the extension additions of any SEQUENCE. */
  ghost predicate NoDefaultAdditions(t: Type) {
    match t
    case Number(_) => true
    case Enumerated(_, _, _, _) => true
    case Choice(elements, _, _, _, _, _, _, _) =>
      forall i :: 0 <= i < |elements| ==> NoDefaultAdditions(elements[i].ty)
    case Sequence(elements, _, _, _) =>
      && (forall i :: 0 <= i < |elements| ==> NoDefaultAdditions(elements[i].ty))
      && (forall i :: Root(t) <= i < |elements| ==> elements[i].default.None?)
  }

  lemma {:induction false} EqualAdditions(t: Type, a: Value, b: Value)
    requires NoDefaultAdditions(t) && Compare(t, a, b) == 0
    ensures SameAdditions(t, a, b)
    decreases t, 1, 0
  {
    hide CompareMembers, SameFrom;
    match t
    case Number(_) =>
    case Enumerated(_, _, _, _) =>
    case Choice(_, _, _, _, _, _, _, _) =>
      EqualAdditions(t.elements[a.present - 1].ty, a.member.value, b.member.value);
    case Sequence(_, _, _, _) => EqualFrom(t, a.fields, b.fields, 0);
  }

  lemma {:induction false} EqualFrom(t: Type, a: seq<Option<Value>>, b: seq<Option<Value>>, i: nat)
    requires t.Sequence? && NoDefaultAdditions(t) && |a| == |b| == |t.elements| && CompareMembers(t, a, b, i) == 0
    ensures SameFrom(t, a, b, i)
    decreases t, 0, |a| - i
  {
    hide Compare, SameAdditions, Present;
    if i < |a| {
      if a[i].Some? && b[i].Some? {
        EqualAdditions(t.elements[i].ty, a[i].value, b[i].value);
      }
      EqualFrom(t, a, b, i + 1);
    }
  }

  /** Without such a DEFAULT, two values have one encoding exactly when they compare equal. */
  lemma {:induction false} CanonicalOf(t: Type, a: Value, b: Value)
    requires WellFormed(t) && NoDefaultAdditions(t) && Enc(t, a).Bits? && Enc(t, b).Bits?
    ensures Enc(t, a) == Enc(t, b) <==> Compare(t, a, b) == 0
  {
    hide Enc, Compare, WellFormed, SameAdditions, NoDefaultAdditions;
    Canonical(t, a, b);
    if Compare(t, a, b) == 0 {
      EqualAdditions(t, a, b);
    }
  }
}
