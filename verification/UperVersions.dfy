/**
  Versions of an extensible type in unaligned PER: what a decoder of one version makes of the encoding of another,
  newer or older, at any depth.
 */
module UperVersions {
  import opened Bits
  import opened Options
  import opened BitInput
  import opened PerSupport
  import opened Uper
  import opened UperRoundTrip

  /** Two versions of a type: its SEQUENCEs, at any depth, may differ in how many extension additions they have. */
  ghost predicate Versions(a: Type, b: Type)
    decreases a, 1
  {
    match a
    case Number(_) => a == b
    case Enumerated(_, _, _, _) => a == b
    case Choice(elements, toCanonical, fromCanonical, lb, ub, rangeBits, extensible, extStart) =>
      && b.Choice? && |b.elements| == |elements|
      && b == Choice(b.elements, toCanonical, fromCanonical, lb, ub, rangeBits, extensible, extStart)
      && forall i :: 0 <= i < |elements| ==> Versions(elements[i].ty, b.elements[i].ty)
    case Sequence(elements, _, roms, firstExtension) =>
      && b.Sequence? && b.roms == roms && b.firstExtension == firstExtension
      && (|elements| == |b.elements| || firstExtension >= 0)
      && forall i :: 0 <= i < |elements| && i < |b.elements| ==> SameMember(elements[i], b.elements[i])
  }

  /** A member in two versions; one with a DEFAULT is the same in both. */
  ghost predicate SameMember(m: Member, n: Member)
    decreases m.ty, 2
  {
    m == n || (m.default.None? && n.default.None? && m.optional == n.optional && Versions(m.ty, n.ty))
  }

  /** A value of one version as one of the other: additions it does not know are gone, others are absent. */
  ghost function Adapt(a: Type, b: Type, v: Value): Value
    requires Versions(a, b)
    decreases a, 1, 0
  {
    match a
    case Number(_) => v
    case Enumerated(_, _, _, _) => v
    case Choice(_, _, _, _, _, _, _, _) =>
      if Held(a, v).None? then v
      else
        Chosen(v.present, Some(Adapt(a.elements[v.present - 1].ty, b.elements[v.present - 1].ty, v.member.value)))
    case Sequence(_, _, _, _) =>
      if v.Fields? && |v.fields| == |a.elements| then Fields(AdaptFields(a, b, v.fields, 0)) else v
  }

  ghost function AdaptFields(a: Type, b: Type, f: seq<Option<Value>>, i: nat): (r: seq<Option<Value>>)
    requires a.Sequence? && Versions(a, b) && |f| == |a.elements|
    ensures |r| == if i <= |b.elements| then |b.elements| - i else 0
    decreases a, 0, |b.elements| - i
  {
    if i >= |b.elements| then []
    else
      [if i < |f| then AdaptField(a.elements[i], b.elements[i], f[i]) else None] + AdaptFields(a, b, f, i + 1)
  }

  ghost function AdaptField(m: Member, n: Member, f: Option<Value>): Option<Value>
    requires SameMember(m, n)
    decreases m.ty, 2, 0
  {
    if f.None? || m == n then f else Some(Adapt(m.ty, n.ty, f.value))
  }

  lemma {:induction false} AdaptedAt(a: Type, b: Type, f: seq<Option<Value>>, i: nat, j: nat)
    requires a.Sequence? && Versions(a, b) && |f| == |a.elements| && i <= j < |b.elements|
    ensures AdaptFields(a, b, f, i)[j - i] == if j < |f| then AdaptField(a.elements[j], b.elements[j], f[j]) else None
    decreases j - i
  {
    hide AdaptField, Versions, SameMember;
    if i < j {
      AdaptedAt(a, b, f, i + 1, j);
    }
  }

  lemma {:induction false} SameShape(a: Type, b: Type)
    requires a.Sequence? && Versions(a, b) && WellFormed(a) && WellFormed(b)
    ensures b.Sequence? && a.roms == b.roms && a.firstExtension == b.firstExtension && Root(a) == Root(b)
    ensures |a.elements| - Root(a) <= 64 && |b.elements| - Root(b) <= 64
    ensures forall i :: 0 <= i < |a.elements| && i < |b.elements| ==> SameMember(a.elements[i], b.elements[i])
    ensures forall i :: 0 <= i < |a.elements| ==> WellFormed(a.elements[i].ty)
    ensures forall i :: 0 <= i < |b.elements| ==> WellFormed(b.elements[i].ty)
  {
    hide Optionals, GoodMember, SameMember;
  }

  lemma {:induction false} SamePreamble(a: Type, b: Type, s: seq<bool>)
    requires a.Sequence? && b.Sequence? && a.roms == b.roms && a.firstExtension == b.firstExtension
    ensures DecPreamble(b, s) == DecPreamble(a, s)
  {
  }

  lemma {:induction false} AlsoPresent(m: Member, n: Member, f: Option<Value>)
    requires SameMember(m, n)
    ensures m.optional == n.optional && m.default == n.default && Present(n, AdaptField(m, n, f)) == Present(m, f)
    ensures m != n ==> Versions(m.ty, n.ty)
  {
    hide Compare, Adapt;
  }

  // ---- Across versions ----

  /**
    A decoder of one version takes from an encoding of another exactly the members it knows, those the sender did
    not know absent or their DEFAULT, and leaves exactly what followed.
   */
  lemma {:induction false} AcrossVersions(a: Type, b: Type, v: Value, rest: seq<bool>)
    requires Versions(a, b) && WellFormed(a) && WellFormed(b) && Enc(a, v).Bits?
    ensures Dec(b, Enc(a, v).bits + rest) == Ok(Fill(b, Adapt(a, b, v)), rest)
    decreases a, 3, 0
  {
    hide Enc, Dec, Fill, WellFormed, Adapt, Versions;
    match a
    case Number(_) => SameType(a, b, v); RoundTrip(a, v, rest);
    case Enumerated(_, _, _, _) => SameType(a, b, v); RoundTrip(a, v, rest);
    case Choice(_, _, _, _, _, _, _, _) => ChoiceAcross(a, b, v, rest);
    case Sequence(_, _, _, _) => SequenceAcross(a, b, v, rest);
  }

  lemma {:induction false} SameType(a: Type, b: Type, v: Value)
    requires (a.Number? || a.Enumerated?) && Versions(a, b)
    ensures a == b && Adapt(a, b, v) == v
  {
  }

  lemma {:induction false} ChoiceAcross(a: Type, b: Type, v: Value, rest: seq<bool>)
    requires a.Choice? && Versions(a, b) && WellFormed(a) && WellFormed(b) && Enc(a, v).Bits?
    ensures Dec(b, Enc(a, v).bits + rest) == Ok(Fill(b, Adapt(a, b, v)), rest)
    decreases a, 2, 0
  {
    hide Enc, Dec, Fill, Adapt, Versions, WellFormed, DecIndex, EncIndex, Open, DecOpen, Outside;
    ChosenParts(a, v);
    ChosenTypes(a, b, v.present);
    var i := v.present - 1;
    var m, n := a.elements[i].ty, b.elements[i].ty;
    var index, body := EncIndex(a, v.present).bits, Enc(m, v.member.value).bits;
    var open := Outside(a, v.present);
    var tail := if open then Open(body) else body;
    Associate(index, tail, rest);
    IndexBack(a, v.present, tail + rest);
    SameIndex(a, b, index + (tail + rest));
    if open {
      OpenAcross(m, n, v.member.value, rest);
    } else {
      AcrossVersions(m, n, v.member.value, rest);
    }
    ChosenDecoded(b, i, open, index + (tail + rest), tail + rest);
    ChosenFilled(a, b, v);
  }

  lemma {:induction false} ChosenParts(a: Type, v: Value)
    requires a.Choice? && Enc(a, v).Bits?
    ensures v.Chosen? && 1 <= v.present <= |a.elements| && v.member.Some? && EncIndex(a, v.present).Bits?
    ensures var body := Enc(a.elements[v.present - 1].ty, v.member.value);
            && body.Bits?
            && Enc(a, v).bits
               == EncIndex(a, v.present).bits + if Outside(a, v.present) then Open(body.bits) else body.bits
  {
    hide Open, Outside, PutSmall;
  }

  lemma {:induction false} ChosenTypes(a: Type, b: Type, present: nat)
    requires a.Choice? && Versions(a, b) && WellFormed(a) && WellFormed(b) && 1 <= present <= |a.elements|
    ensures b.Choice? && |b.elements| == |a.elements|
    ensures var m, n := a.elements[present - 1].ty, b.elements[present - 1].ty;
            Versions(m, n) && WellFormed(m) && WellFormed(n)
  {
    hide GoodOrder;
  }

  lemma {:induction false} ChosenDecoded(b: Type, i: nat, open: bool, s: seq<bool>, tail: seq<bool>)
    requires b.Choice? && i < |b.elements| && DecIndex(b, s) == Ok((i, open), tail)
    ensures var n := b.elements[i].ty;
            var body := if open then DecOpen(n, tail) else Dec(n, tail);
            body.Ok? ==> Dec(b, s) == Ok(Chosen(i + 1, Some(body.value)), body.rest)
  {
    hide DecIndex, DecOpen;
  }

  lemma {:induction false} ChosenFilled(a: Type, b: Type, v: Value)
    requires a.Choice? && Versions(a, b) && v.Chosen? && 1 <= v.present <= |a.elements| && v.member.Some?
    ensures b.Choice? && |b.elements| == |a.elements|
    ensures var m, n := a.elements[v.present - 1].ty, b.elements[v.present - 1].ty;
            && Versions(m, n)
            && Fill(b, Adapt(a, b, v)) == Chosen(v.present, Some(Fill(n, Adapt(m, n, v.member.value))))
  {
  }

  lemma {:induction false} SameIndex(a: Type, b: Type, s: seq<bool>)
    requires a.Choice? && b.Choice? && |b.elements| == |a.elements| && Versions(a, b)
    ensures DecIndex(b, s) == DecIndex(a, s)
  {
    hide Take, GetSmall;
  }

  lemma {:induction false} OpenAcross(a: Type, b: Type, v: Value, rest: seq<bool>)
    requires Versions(a, b) && WellFormed(a) && WellFormed(b) && Enc(a, v).Bits?
    ensures DecOpen(b, Open(Enc(a, v).bits) + rest) == Ok(Fill(b, Adapt(a, b, v)), rest)
    decreases a, 4, 0
  {
    hide Enc, Dec, Fill, WellFormed, Open, DecOpen, Zeros, Adapt, Versions;
    var bits := Enc(a, v).bits;
    var pad := if bits == [] then Zeros(8) else Zeros(Padding(|bits|));
    AcrossVersions(a, b, v, pad);
    OpenBack(b, Fill(b, Adapt(a, b, v)), bits, rest);
  }

  lemma {:induction false} MembersAcross(a: Type, b: Type, f: seq<Option<Value>>, g: seq<Option<Value>>, i: nat,
                                         rest: seq<bool>)
    requires a.Sequence? && Versions(a, b) && WellFormed(a) && WellFormed(b) && |f| == |a.elements|
    requires b.Sequence? && g == AdaptFields(a, b, f, 0) && EncMembers(a, f, i).Bits?
    ensures DecMembers(b, i, Marks(a, f, i), EncMembers(a, f, i).bits + rest) == Ok(FillMembers(b, g, i), rest)
    decreases a, 0, |f| - i
  {
    hide Enc, Dec, Fill, Present, WellFormed, Versions, AdaptFields, Adapt, AdaptField;
    SameShape(a, b);
    if i >= Root(a) {
      assert [] + rest == rest;
    } else {
      var m, n := a.elements[i], b.elements[i];
      AdaptedAt(a, b, f, 0, i);
      AlsoPresent(m, n, f[i]);
      MembersAcross(a, b, f, g, i + 1, rest);
      NextMark(Present(m, f[i]), Marks(a, f, i + 1));
      var tail := EncMembers(a, f, i + 1).bits + rest;
      if Present(m, f[i]) {
        assert f[i].Some? by { PresentIsThere(m, f[i]); }
        FieldAcross(m, n, f[i]);
        if m == n {
          RoundTrip(m.ty, f[i].value, tail);
        } else {
          AcrossVersions(m.ty, n.ty, f[i].value, tail);
        }
        Associate(Enc(m.ty, f[i].value).bits, EncMembers(a, f, i + 1).bits, rest);
      } else {
        assert m.optional by { GoodTables(a); SkippedIsOptional(a, f, i); }
      }
    }
  }

  lemma {:induction false} GoodTables(t: Type)
    requires t.Sequence? && WellFormed(t)
    ensures GoodMembers(t)
  {
  }

  /** What becomes of a field that is there. */
  lemma {:induction false} FieldAcross(m: Member, n: Member, f: Option<Value>)
    requires SameMember(m, n) && f.Some?
    ensures AdaptField(m, n, f).Some?
    ensures m == n ==> AdaptField(m, n, f) == f
    ensures m != n ==> Versions(m.ty, n.ty) && AdaptField(m, n, f) == Some(Adapt(m.ty, n.ty, f.value))
  {
  }

  /** Additions the receiver does not know are passed over, whichever of them are there. */
  lemma {:induction false} UnknownSkipped(t: Type, f: seq<Option<Value>>, i: nat, rest: seq<bool>)
    requires t.Sequence? && |f| == |t.elements| && EncOpen(t, f, i).Bits?
    ensures SkipUnknown(AdditionMarks(t, f, i), EncOpen(t, f, i).bits + rest) == Ok((), rest)
    decreases |f| - i
  {
    hide Enc, PutOctets, GetOctets, OpenOctets;
    if i >= |f| {
      assert [] + rest == rest;
    } else {
      var tail := EncOpen(t, f, i + 1).bits;
      UnknownSkipped(t, f, i + 1, rest);
      NextMark(f[i].Some?, AdditionMarks(t, f, i + 1));
      if f[i].Some? {
        var octets := OpenOctets(Enc(t.elements[i].ty, f[i].value).bits);
        Associate(PutOctets(octets), tail, rest);
        OctetsRoundTrip(octets, tail + rest);
      }
    }
  }

  lemma {:induction false} OpenMembersAcross(a: Type, b: Type, f: seq<Option<Value>>, g: seq<Option<Value>>, i: nat,
                                             rest: seq<bool>)
    requires a.Sequence? && Versions(a, b) && WellFormed(a) && WellFormed(b) && |f| == |a.elements|
    requires b.Sequence? && g == AdaptFields(a, b, f, 0) && EncOpen(a, f, i).Bits? && Root(a) <= i
    ensures DecOpenMembers(b, i, AdditionMarks(a, f, i), EncOpen(a, f, i).bits + rest) == Ok(FillOpen(b, g, i), rest)
    decreases a, 0, |b.elements| - i
  {
    hide Enc, Fill, DecOpen, Open, WellFormed, Versions, AdaptFields, Adapt, AdaptField, SkipUnknown;
    SameShape(a, b);
    if i >= |b.elements| {
      UnknownSkipped(a, f, i, rest);
    } else if i >= |f| {
      assert [] + rest == rest;
      forall j | i <= j < |g| ensures g[j].None? {
        AdaptedAt(a, b, f, 0, j);
      }
      NothingFilled(b, g, i);
    } else {
      var m, n := a.elements[i], b.elements[i];
      AdaptedAt(a, b, f, 0, i);
      OpenMembersAcross(a, b, f, g, i + 1, rest);
      NextMark(f[i].Some?, AdditionMarks(a, f, i + 1));
      var tail := EncOpen(a, f, i + 1).bits;
      if f[i].Some? {
        FieldAcross(m, n, f[i]);
        if m == n {
          OpenRoundTrip(m.ty, f[i].value, tail + rest);
        } else {
          OpenAcross(m.ty, n.ty, f[i].value, tail + rest);
        }
        Associate(Open(Enc(m.ty, f[i].value).bits), tail, rest);
      } else {
        NoField(m, n);
      }
    }
  }

  lemma {:induction false} NoField(m: Member, n: Member)
    requires SameMember(m, n)
    ensures AdaptField(m, n, None) == None
  {
  }

  /** What the additions of an encoding start with. */
  lemma {:induction false} LengthRead(t: Type, f: seq<Option<Value>>, rest: seq<bool>)
    requires t.Sequence? && Root(t) < |f| == |t.elements| <= Root(t) + 64 && EncAdditions(t, f).Bits?
    ensures EncOpen(t, f, Root(t)).Bits?
    ensures var s, marks := EncAdditions(t, f).bits + rest, AdditionMarks(t, f, Root(t));
            var length := GetSmallLength(s);
            && length.Ok? && length.value == |marks| <= |length.rest|
            && length.rest[..length.value] == marks
            && length.rest[length.value..] == EncOpen(t, f, Root(t)).bits + rest
  {
    hide PutSmallLength, GetSmallLength, EncOpen, AdditionMarks;
    var n := |f| - Root(t);
    var length, marks, fields := PutSmallLength(n).value, AdditionMarks(t, f, Root(t)), EncOpen(t, f, Root(t)).bits;
    Associate(length + marks, fields, rest);
    Associate(length, marks, fields + rest);
    SmallLengthUpTo64(n, marks + (fields + rest));
    assert (marks + (fields + rest))[..n] == marks && (marks + (fields + rest))[n..] == fields + rest;
  }

  lemma {:induction false} AdditionsAcross(a: Type, b: Type, f: seq<Option<Value>>, g: seq<Option<Value>>,
                                           rest: seq<bool>)
    requires a.Sequence? && Versions(a, b) && WellFormed(a) && WellFormed(b) && |f| == |a.elements| > Root(a)
    requires b.Sequence? && g == AdaptFields(a, b, f, 0) && EncAdditions(a, f).Bits?
    ensures DecAdditions(b, EncAdditions(a, f).bits + rest) == Ok(FillOpen(b, g, Root(b)), rest)
    decreases a, 1, 0
  {
    hide PutSmallLength, GetSmallLength, EncOpen, DecOpenMembers, FillOpen, AdditionMarks, AdaptFields, Versions,
      WellFormed;
    SameShape(a, b);
    LengthRead(a, f, rest);
    OpenMembersAcross(a, b, f, g, Root(a), rest);
  }

  lemma {:induction false} SequenceAcross(a: Type, b: Type, v: Value, rest: seq<bool>)
    requires a.Sequence? && Versions(a, b) && WellFormed(a) && WellFormed(b) && Enc(a, v).Bits?
    ensures Dec(b, Enc(a, v).bits + rest) == Ok(Fill(b, Adapt(a, b, v)), rest)
    decreases a, 2, 0
  {
    hide EncPreamble, DecPreamble, EncMembers, DecMembers, FillMembers, EncAdditions, DecAdditions, FillOpen, Completed,
      AnyAddition, Absent, Versions, AdaptFields, Marks;
    SameShape(a, b);
    var f := v.fields;
    var g := AdaptFields(a, b, f, 0);
    var additions := if AnyAddition(a, f) then EncAdditions(a, f).bits else [];
    var pre, body := EncPreamble(a, f), EncMembers(a, f, 0).bits;
    Associate(pre + body, additions, rest);
    Associate(pre, body, additions + rest);
    GoodTables(a);
    PreambleBack(a, f, body + (additions + rest));
    SamePreamble(a, b, pre + (body + (additions + rest)));
    MembersAcross(a, b, f, g, 0, additions + rest);
    NoAdditionWithoutMark(a, f);
    if AnyAddition(a, f) {
      AdditionsAcross(a, b, f, g, rest);
    } else {
      assert [] + rest == rest;
      NothingAcross(a, b, f, g);
    }
  }

  lemma {:induction false} NothingAcross(a: Type, b: Type, f: seq<Option<Value>>, g: seq<Option<Value>>)
    requires a.Sequence? && b.Sequence? && Versions(a, b) && |f| == |a.elements| && g == AdaptFields(a, b, f, 0)
    requires forall i :: Root(b) <= i < |f| ==> f[i].None?
    ensures FillOpen(b, g, Root(b)) == Absent(|g| - Root(b))
  {
    hide AdaptFields, Versions;
    forall j | Root(b) <= j < |g| ensures g[j].None? {
      AdaptedAt(a, b, f, 0, j);
    }
    NothingFilled(b, g, Root(b));
  }

  // ---- One version behind the other ----

  /** `newer` is `older` with further extension additions behind the ones it has. */
  ghost predicate Extends(newer: Type, older: Type) {
    && newer.Sequence? && older.Sequence? && WellFormed(newer) && WellFormed(older)
    && newer.roms == older.roms && newer.firstExtension == older.firstExtension >= 0
    && older.elements <= newer.elements
  }

  lemma {:induction false} ExtendsVersions(newer: Type, older: Type)
    requires Extends(newer, older)
    ensures Versions(newer, older) && Versions(older, newer)
    ensures forall i :: 0 <= i < |older.elements| ==> newer.elements[i] == older.elements[i]
  {
    hide WellFormed;
    assert forall i :: 0 <= i < |older.elements| ==> newer.elements[i] == newer.elements[..|older.elements|][i];
  }

  /**
    An older decoder takes from a newer encoding exactly the members it knows, and leaves exactly what
    followed the whole, the additions it does not know included.
   */
  lemma {:induction false} NewerSender(newer: Type, older: Type, f: seq<Option<Value>>, rest: seq<bool>)
    requires Extends(newer, older) && |f| == |newer.elements| && Enc(newer, Fields(f)).Bits?
    ensures Dec(older, Enc(newer, Fields(f)).bits + rest) == Ok(Fill(older, Fields(f[..|older.elements|])), rest)
  {
    hide Enc, Dec, Fill, WellFormed, Versions, AdaptFields, AdaptField;
    ExtendsVersions(newer, older);
    AcrossVersions(newer, older, Fields(f), rest);
    var g := AdaptFields(newer, older, f, 0);
    forall j | 0 <= j < |g| ensures g[j] == f[j] {
      AdaptedAt(newer, older, f, 0, j);
      SameField(newer.elements[j], f[j]);
    }
    assert g == f[..|older.elements|];
  }

  lemma {:induction false} SameField(m: Member, f: Option<Value>)
    ensures SameMember(m, m) && AdaptField(m, m, f) == f
  {
  }

  /**
    A newer decoder takes from an older encoding all its members; the additions the sender did not know are
    absent, or their DEFAULT when they have one.
   */
  lemma {:induction false} OlderSender(newer: Type, older: Type, g: seq<Option<Value>>, rest: seq<bool>)
    requires Extends(newer, older) && |g| == |older.elements| && Enc(older, Fields(g)).Bits?
    ensures var f := g + Absent(|newer.elements| - |g|);
            Dec(newer, Enc(older, Fields(g)).bits + rest) == Ok(Fill(newer, Fields(f)), rest)
  {
    hide Enc, Dec, Fill, WellFormed, Versions, AdaptFields, AdaptField;
    ExtendsVersions(newer, older);
    AcrossVersions(older, newer, Fields(g), rest);
    var f := AdaptFields(older, newer, g, 0);
    forall j | 0 <= j < |f| ensures f[j] == if j < |g| then g[j] else None {
      AdaptedAt(older, newer, g, 0, j);
      if j < |g| {
        SameField(older.elements[j], g[j]);
      }
    }
    assert f == g + Absent(|newer.elements| - |g|);
  }

  /** Each of the additions the sender did not know comes back as its DEFAULT or absent. */
  lemma {:induction false} UnsentAddition(newer: Type, g: seq<Option<Value>>, i: nat)
    requires newer.Sequence? && Root(newer) <= |g| <= i < |newer.elements|
    ensures var v := Fill(newer, Fields(g + Absent(|newer.elements| - |g|)));
            && v.Fields? && |v.fields| == |newer.elements|
            && v.fields[i] == if Listed(newer, i) then newer.elements[i].default else None
  {
    hide FillMembers, FillOpen, Completed, Listed;
    var f := g + Absent(|newer.elements| - |g|);
    FillOpenAt(newer, f, Root(newer), i);
    CompletedAt(newer, FillOpen(newer, f, Root(newer)), Root(newer), i - Root(newer));
  }

  const NOTHING_KNOWN := Sequence([], [], 0, 0)

  /** SEQUENCE { ... } takes the second of two additions it does not know out of the stream, whatever is in it. */
  lemma {:induction false} SecondOfTwo(b: seq<byte>, rest: seq<bool>)
    requires b != []
    ensures var bits := [true] + (ToBits(1, 7) + ([false, true] + (PutOctets(b) + rest)));
            Dec(NOTHING_KNOWN, bits) == Ok(Fields([]), rest)
  {
    hide PutOctets, GetOctets, GetSmallLength, ToBits;
    var marks: seq<bool> := [false, true];
    var tail := marks + (PutOctets(b) + rest);
    SmallLengthUpTo64(2, tail);
    OctetsRoundTrip(b, rest);
    assert tail[..2] == marks && tail[2..] == PutOctets(b) + rest;
    assert marks[1..] == [true] && [true][1..] == [];
    assert SkipUnknown([], rest) == Ok((), rest);
    assert SkipUnknown([true], PutOctets(b) + rest) == Ok((), rest);
    assert SkipUnknown(marks, PutOctets(b) + rest) == Ok((), rest);
    var s := [true] + (ToBits(1, 7) + tail);
    assert s[0] && s[1..] == ToBits(1, 7) + tail;
    assert s[1..][..0] == [] && s[1..][0..] == s[1..];
    assert Root(NOTHING_KNOWN) == 0;
    assert DecPreamble(NOTHING_KNOWN, s) == Ok((true, []), s[1..]);
    assert DecMembers(NOTHING_KNOWN, 0, [], s[1..]) == Ok([], s[1..]);
    assert DecAdditions(NOTHING_KNOWN, s[1..]) == Ok([], rest);
    assert Completed(NOTHING_KNOWN, [], 0) == [] && [] + Completed(NOTHING_KNOWN, [], 0) == [];
  }
}
