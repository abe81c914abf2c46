/**
  What unaligned PER decoding yields can be encoded again: every decoded value obeys the
  constraints of its type, unless a DEFAULT among the extension additions gets in the way.
 */
module UperReencode {
  import opened Bits
  import opened Options
  import opened Integer
  import opened PerSupport
  import opened Uper
  import opened UperRoundTrip

  /** The order tables undo each other starting from the wire as well. */
  ghost predicate FullOrder(t: Type)
    requires t.Choice?
  {
    && t.lb <= 0
    && forall at: nat {:trigger Reorder(t.fromCanonical, at)} :: at <= t.ub || at < |t.elements| ==>
         Reorder(t.fromCanonical, at) < |t.elements| && Reorder(t.toCanonical, Reorder(t.fromCanonical, at)) == at
  }

  /** A type tree in which this holds of every CHOICE. */
  ghost predicate Ordered(t: Type) {
    match t
    case Number(_) => true
    case Enumerated(_, _, _, _) => true
    case Choice(elements, _, _, _, _, _, _, _) =>
      FullOrder(t) && forall i :: 0 <= i < |elements| ==> Ordered(elements[i].ty)
    case Sequence(elements, _, _, _) =>
      forall i :: 0 <= i < |elements| ==> Ordered(elements[i].ty)
  }

  lemma {:induction false} NumberReencodes(t: Type, s: seq<bool>)
    requires t.Number? && WellFormed(t) && DecNumber(t.ct, s).Ok?
    ensures Enc(t, DecNumber(t.ct, s).value).Bits?
  {
    hide GetOctets, PutOctets, SignedVal, Take, ToBits, Pow2, Contents;
  }

  /** In a sorted table every entry is found where it stands. */
  lemma {:induction false} FindAt(values: seq<int>, i: nat)
    requires Increasing(values) && i < |values|
    ensures Find(values, values[i]) == Some(i)
  {
    if i < |values| - 1 {
      FindAt(values[..|values| - 1], i);
    }
  }

  lemma {:induction false} EnumReencodes(t: Type, s: seq<bool>)
    requires t.Enumerated? && WellFormed(t) && DecEnum(t, s).Ok?
    ensures Enc(t, DecEnum(t, s).value).Bits?
  {
    hide Take, GetSmall, ToBits, Pow2, Find;
    var v := DecEnum(t, s).value.v;
    var at :| 0 <= at < |t.values| && t.values[at] == v && (at < Roots(t) || (t.extensible && t.extension > 0));
    FindAt(t.values, at);
  }

  /** A decoded value can be encoded. */
  lemma {:induction false} Reencodes(t: Type, s: seq<bool>)
    requires WellFormed(t) && Ordered(t) && Dec(t, s).Ok?
    ensures Enc(t, Dec(t, s).value).Bits?
    decreases t, 2, 0
  {
    hide DecNumber, EncNumber, DecEnum, EncEnum, DecIndex, EncIndex, DecPreamble, EncPreamble, DecMembers, EncMembers,
      DecAdditions, EncAdditions, Completed, FullOrder, GoodOrder, AnyAddition, Optionals, GoodMember, DecOpen, Open,
      Outside;
    match t
    case Number(_) => NumberReencodes(t, s);
    case Enumerated(_, _, _, _) => EnumReencodes(t, s);
    case Choice(_, _, _, _, _, _, _, _) =>
      var index := DecIndex(t, s);
      IndexReencodes(t, s);
      var m := t.elements[index.value.0].ty;
      if index.value.1 {
        OpenReencodes(m, index.rest);
      } else {
        Reencodes(m, index.rest);
      }
    case Sequence(_, _, _, _) => SequenceReencodes(t, s);
  }

  lemma {:induction false} OpenReencodes(t: Type, s: seq<bool>)
    requires WellFormed(t) && Ordered(t) && DecOpen(t, s).Ok?
    ensures Enc(t, DecOpen(t, s).value).Bits?
    decreases t, 3, 0
  {
    hide Dec, Enc, GetOctets, BytesToBits, MayRemain, WellFormed, Ordered;
    Reencodes(t, BytesToBits(GetOctets(s).value));
  }

  lemma {:induction false} IndexReencodes(t: Type, s: seq<bool>)
    requires t.Choice? && WellFormed(t) && FullOrder(t) && DecIndex(t, s).Ok?
    ensures var at := DecIndex(t, s).value.0; at < |t.elements| && EncIndex(t, at + 1).Bits?
  {
    hide Take, ToBits, Reorder, Pow2, GetSmall;
  }

  /** Without the limit of 64 on extension alternatives, exactly the first 64 of them come back. */
  lemma {:induction false} IndexExact(t: Type, present: nat, rest: seq<bool>)
    requires t.Choice? && FullOrder(t) && t.extensible && 1 <= present <= |t.elements| && Outside(t, present)
    requires var at := Reorder(t.toCanonical, present - 1);
             && 0 <= t.extStart <= at < |t.elements| && at - t.extStart < 0x100_0000
             && Reorder(t.fromCanonical, at) == present - 1
    ensures EncIndex(t, present).Bits?
    ensures DecIndex(t, EncIndex(t, present).bits + rest) == Ok((present - 1, true), rest)
            <==> Reorder(t.toCanonical, present - 1) - t.extStart < 64
  {
    hide Reorder, PutSmall, GetSmall;
    var n := Reorder(t.toCanonical, present - 1) - t.extStart;
    FrontBit(true, if PutSmall(n).Some? then PutSmall(n).value else [], rest);
    if n < 64 {
      SmallBelow64(n, rest);
    } else {
      SmallFrom64(n, rest);
    }
  }

  lemma {:induction false} SequenceReencodes(t: Type, s: seq<bool>)
    requires t.Sequence? && WellFormed(t) && Ordered(t) && Dec(t, s).Ok?
    ensures Enc(t, Dec(t, s).value).Bits?
    decreases t, 1, 0
  {
    hide DecPreamble, EncPreamble, DecMembers, EncMembers, EncOpen, Completed, AnyAddition, Optionals, GoodMember,
      PutSmallLength, DecAdditions, Received, AdditionMarks;
    var f := Dec(t, s).value.fields;
    DecodedFields(t, s);
    var pre := DecPreamble(t, s);
    MembersReencode(t, 0, pre.value.1, pre.rest, f);
    if AnyAddition(t, f) {
      NoAdditionWithoutMark(t, f);
      SmallLengthUpTo64(|f| - Root(t), []);
      AdditionsReencode(t, s, f, Root(t));
    }
  }

  /** The extension additions in the stream, before any DEFAULT is filled in. */
  function Received(t: Type, s: seq<bool>): seq<Option<Value>>
    requires t.Sequence? && Dec(t, s).Ok?
  {
    var pre := DecPreamble(t, s);
    var body := DecMembers(t, 0, pre.value.1, pre.rest);
    if pre.value.0 then DecAdditions(t, body.rest).value else Absent(|t.elements| - Root(t))
  }

  /** A decoded SEQUENCE is its root members followed by the completed additions. */
  lemma {:induction false} DecodedFields(t: Type, s: seq<bool>)
    requires t.Sequence? && Dec(t, s).Ok?
    ensures var f := Dec(t, s).value.fields; var pre := DecPreamble(t, s);
            && |Received(t, s)| == |t.elements| - Root(t) && |f| == |t.elements|
            && f[0..Root(t)] == DecMembers(t, 0, pre.value.1, pre.rest).value
            && f[Root(t)..] == Completed(t, Received(t, s), Root(t))
  {
    hide DecPreamble, DecMembers, Completed, Absent, DecAdditions;
    var pre := DecPreamble(t, s);
    var body := DecMembers(t, 0, pre.value.1, pre.rest);
    MembersCount(t, 0, pre.value.1, pre.rest);
    if pre.value.0 {
      AdditionsCount(t, body.rest);
    }
  }

  lemma {:induction false} OpenMembersCount(t: Type, i: nat, marks: seq<bool>, s: seq<bool>)
    requires t.Sequence? && i <= |t.elements| && DecOpenMembers(t, i, marks, s).Ok?
    ensures |DecOpenMembers(t, i, marks, s).value| == |t.elements| - i
    decreases |t.elements| - i
  {
    hide DecOpen, SkipUnknown;
    if i < |t.elements| && marks != [] {
      OpenMembersCount(t, i + 1, marks[1..], if marks[0] then DecOpen(t.elements[i].ty, s).rest else s);
    }
  }

  lemma {:induction false} AdditionsCount(t: Type, s: seq<bool>)
    requires t.Sequence? && DecAdditions(t, s).Ok?
    ensures |DecAdditions(t, s).value| == |t.elements| - Root(t)
  {
    hide DecOpenMembers, GetSmallLength;
    var length := GetSmallLength(s);
    OpenMembersCount(t, Root(t), length.rest[..length.value], length.rest[length.value..]);
  }

  /** An extension addition that was received. */
  lemma {:induction false} ReceivedReencodes(t: Type, i: nat, marks: seq<bool>, s: seq<bool>, j: nat)
    requires t.Sequence? && WellFormed(t) && Ordered(t) && i <= j < |t.elements| && DecOpenMembers(t, i, marks, s).Ok?
    requires |DecOpenMembers(t, i, marks, s).value| == |t.elements| - i
    ensures var f := DecOpenMembers(t, i, marks, s).value[j - i]; f.Some? ==> Enc(t.elements[j].ty, f.value).Bits?
    decreases t, 0, |t.elements| - i
  {
    hide DecOpen, SkipUnknown, Enc, GoodMember, Optionals;
    if marks != [] {
      var m := t.elements[i].ty;
      var rest := if marks[0] then DecOpen(m, s).rest else s;
      if i == j {
        if marks[0] {
          OpenReencodes(m, s);
        }
      } else {
        OpenMembersCount(t, i + 1, marks[1..], rest);
        ReceivedReencodes(t, i + 1, marks[1..], rest, j);
      }
    }
  }

  lemma {:induction false} AdditionReencodes(t: Type, s: seq<bool>, j: nat)
    requires t.Sequence? && WellFormed(t) && Ordered(t) && Dec(t, s).Ok? && Root(t) <= j < |t.elements|
    ensures |Received(t, s)| == |t.elements| - Root(t)
    ensures var f := Received(t, s)[j - Root(t)]; f.Some? ==> Enc(t.elements[j].ty, f.value).Bits?
    decreases t, 0, |t.elements| + 1
  {
    hide DecPreamble, DecMembers, Completed, DecOpenMembers, GetSmallLength, Enc, GoodMember, Optionals;
    DecodedFields(t, s);
    var pre := DecPreamble(t, s);
    if pre.value.0 {
      var length := GetSmallLength(DecMembers(t, 0, pre.value.1, pre.rest).rest);
      ReceivedReencodes(t, Root(t), length.rest[..length.value], length.rest[length.value..], j);
    }
  }

  /** Extension additions are sent again, and so are the DEFAULTs that were filled in. */
  lemma {:induction false} AdditionsReencode(t: Type, s: seq<bool>, f: seq<Option<Value>>, i: nat)
    requires t.Sequence? && WellFormed(t) && Ordered(t) && Dec(t, s).Ok? && Root(t) <= i && |f| == |t.elements|
    requires f[Root(t)..] == Completed(t, Received(t, s), Root(t))
    ensures EncOpen(t, f, i).Bits?
    decreases t, 0, |f| + 2 + |f| - i
  {
    hide Dec, Enc, Completed, Received, Listed, Optionals, Open;
    if i < |f| {
      AdditionReencodes(t, s, i);
      CompletedAt(t, Received(t, s), Root(t), i - Root(t));
      assert f[i] == f[Root(t)..][i - Root(t)];
      assert GoodMember(t.elements[i]);
      AdditionsReencode(t, s, f, i + 1);
    }
  }

  lemma {:induction false} MembersCount(t: Type, i: nat, marks: seq<bool>, s: seq<bool>)
    requires t.Sequence? && i <= Root(t) && DecMembers(t, i, marks, s).Ok?
    ensures |DecMembers(t, i, marks, s).value| == Root(t) - i
    decreases Root(t) - i
  {
    hide Dec;
    if i < Root(t) {
      var m := t.elements[i];
      var marks' := if m.optional && marks != [] then marks[1..] else marks;
      if m.optional && marks != [] && !marks[0] {
        MembersCount(t, i + 1, marks', s);
      } else {
        MembersCount(t, i + 1, marks', Dec(m.ty, s).rest);
      }
    }
  }

  /** A decoded root member, sent again or left out. */
  lemma {:induction false} MembersReencode(t: Type, i: nat, marks: seq<bool>, s: seq<bool>, f: seq<Option<Value>>)
    requires t.Sequence? && WellFormed(t) && Ordered(t) && i <= Root(t) && |f| == |t.elements|
    requires DecMembers(t, i, marks, s).Ok? && f[i..Root(t)] == DecMembers(t, i, marks, s).value
    ensures EncMembers(t, f, i).Bits?
    decreases t, 0, |t.elements| - i
  {
    hide Enc, Dec, Present, GoodMember, Optionals;
    if i < Root(t) {
      var m := t.elements[i];
      var marks' := if m.optional && marks != [] then marks[1..] else marks;
      var whole := DecMembers(t, i, marks, s).value;
      assert f[i] == whole[0] && f[i + 1..Root(t)] == f[i..Root(t)][1..];
      if m.optional && marks != [] && !marks[0] {
        var tail := DecMembers(t, i + 1, marks', s);
        assert whole[1..] == tail.value;
        MembersReencode(t, i + 1, marks', s, f);
        assert !Present(m, f[i]) by { DefaultNotSent(m); }
      } else {
        var head := Dec(m.ty, s);
        var tail := DecMembers(t, i + 1, marks', head.rest);
        assert whole[1..] == tail.value;
        MembersReencode(t, i + 1, marks', head.rest, f);
        Reencodes(m.ty, s);
      }
    }
  }

  lemma {:induction false} DefaultNotSent(m: Member)
    requires WellFormed(m.ty) && GoodMember(m)
    ensures !Present(m, m.default)
  {
    hide Compare, GoodMember;
    if m.default.Some? {
      DefaultEqual(m);
    }
  }

  /** Decoding, encoding and decoding again gives an equal value and uses up the encoding. */
  lemma {:induction false} DecodeEncodeDecode(t: Type, s: seq<bool>, rest: seq<bool>)
    requires WellFormed(t) && Ordered(t) && Dec(t, s).Ok?
    ensures var v := Dec(t, s).value;
            && Enc(t, v).Bits? && Dec(t, Enc(t, v).bits + rest).Ok?
            && Dec(t, Enc(t, v).bits + rest).rest == rest
            && Compare(t, v, Dec(t, Enc(t, v).bits + rest).value) == 0
  {
    hide Enc, Dec, Compare, WellFormed, Ordered, Fill;
    var v := Dec(t, s).value;
    Reencodes(t, s);
    RoundTrip(t, v, rest);
    FillEqual(t, v);
  }

  /** Whether decoding fills in a DEFAULT among the extension additions when none is received. */
  ghost predicate FillsAddition(t: Type)
    requires t.Sequence?
  {
    exists i :: Root(t) <= i < |t.elements| && Listed(t, i) && t.elements[i].default.Some?
  }

  /**
    A SEQUENCE whose extension additions include a DEFAULT comes back with that member filled in,
    and the encoder does not leave out a DEFAULT among the additions: what was sent without
    additions is sent on with them.  Otherwise a decoded SEQUENCE has additions when it was sent any.
   */
  lemma {:induction false} AdditionAppears(t: Type, s: seq<bool>)
    requires t.Sequence? && Dec(t, s).Ok?
    ensures |Dec(t, s).value.fields| == |t.elements|
    ensures AnyAddition(t, Dec(t, s).value.fields) <==>
            FillsAddition(t) || exists i :: 0 <= i < |Received(t, s)| && Received(t, s)[i].Some?
    ensures !DecPreamble(t, s).value.0 ==> forall i :: 0 <= i < |Received(t, s)| ==> Received(t, s)[i].None?
  {
    hide DecPreamble, DecMembers, Completed, Listed, DecAdditions;
    var f := Dec(t, s).value.fields;
    DecodedFields(t, s);
    forall i | Root(t) <= i < |f|
      ensures f[i].Some? <==> Received(t, s)[i - Root(t)].Some? || (Listed(t, i) && t.elements[i].default.Some?)
    {
      CompletedAt(t, Received(t, s), Root(t), i - Root(t));
      assert f[i] == f[Root(t)..][i - Root(t)];
    }
    forall i | 0 <= i < |Received(t, s)| && Received(t, s)[i].Some? ensures AnyAddition(t, f) {
      assert f[Root(t) + i].Some?;
    }
  }

  const EXAMPLE := Sequence([Member(Number(Unconstrained(false)), true, Some(Native(0)))], [0], 0, 0)

  lemma {:induction false} ExampleWellFormed()
    ensures WellFormed(EXAMPLE)
  {
    hide PutOctets, Contents, FitsSigned;
    var t := EXAMPLE;
    assert FitsSigned(0) by { EmptyIsZero(); }
    assert Optionals(t, 0) == [] && t.oms[..t.roms] == [] && t.oms[t.roms..] == [0];
    assert GoodMember(t.elements[0]);
  }

  lemma {:induction false} ExampleDecoded()
    ensures Dec(EXAMPLE, [false]) == Ok(Fields([Some(Native(0))]), [])
  {
    hide PutOctets, Contents, Enc, EncMembers, DecAdditions;
    var t := EXAMPLE;
    assert t.oms[t.roms..] == [0] && Listed(t, 0);
    var none := Absent(1);
    assert none[1..] == [] && Completed(t, none[1..], 1) == [];
    assert Completed(t, none, 0) == [Some(Native(0))];
    assert DecPreamble(t, [false]) == Ok((false, []), []);
    assert DecMembers(t, 0, [], []) == Ok([], []);
    var f: seq<Option<Value>> := [Some(Native(0))];
    assert [] + Completed(t, none, 0) == f;
  }

  /** One extension addition with DEFAULT 0: sent absent, it comes back present and is then sent. */
  lemma {:induction false} AdditionExample()
    ensures WellFormed(EXAMPLE) && Enc(EXAMPLE, Fields([None])) == Bits([false])
    ensures Dec(EXAMPLE, [false]) == Ok(Fields([Some(Native(0))]), [])
    ensures Compare(EXAMPLE, Fields([None]), Fields([Some(Native(0))])) == 0
    ensures var again := Enc(EXAMPLE, Fields([Some(Native(0))])); again.Bits? && again != Bits([false])
  {
    hide PutOctets, Contents, WellFormed, Dec, Open, AdditionMarks;
    ExampleWellFormed();
    ExampleDecoded();
    var t := EXAMPLE;
    assert !AnyAddition(t, [None]);
    assert t.oms[..t.roms] == [];
    assert EncPreamble(t, [None]) == [false];
    assert EncMembers(t, [None], 0) == Bits([]);
    var f: seq<Option<Value>> := [Some(Native(0))];
    assert f[0].Some? && AnyAddition(t, f);
    Reencodes(t, [false]);
    assert EncPreamble(t, f) == [true];
    assert Enc(t, Fields(f)).bits[0];
    assert CompareMembers(t, [None], f, 1) == 0;
  }
}
