/**
  What unaligned PER puts on the wire, laid down bit for bit without the encoders, as X.691 words it: which
  values have an encoding, and which bits it is.
 */
module UperLayout {
  import opened Bits
  import opened Options
  import opened Integer
  import opened BitInput
  import opened PerSupport
  import opened Uper
  import opened UperRoundTrip

  // ---- Fields ----

  /** Behind an extension bit that is clear, if the type has one, a field of `n` bits that holds `k`. */
  ghost predicate InRoot(extensible: bool, n: nat, k: int, s: seq<bool>) {
    if extensible then |s| == 1 + n && !s[0] && Val(s[1..]) == k else |s| == n && Val(s) == k
  }

  /** An extension bit that is set, a bit that is clear, and six bits that hold `k`. */
  ghost predicate InExtension(k: int, s: seq<bool>) {
    |s| == 8 && s[0] && !s[1] && Val(s[2..]) == k
  }

  lemma {:induction false} FieldIs(n: nat, k: nat, s: seq<bool>)
    requires k < Pow2(n)
    ensures |s| == n && Val(s) == k <==> s == ToBits(k, n)
  {
    hide ToBits, Val, Pow2;
    ValToBitsExact(k, n);
    if |s| == n {
      ToBitsVal(s);
    }
  }

  lemma {:induction false} InRootIs(extensible: bool, n: nat, k: nat, s: seq<bool>)
    requires k < Pow2(n)
    ensures InRoot(extensible, n, k, s) <==> s == (if extensible then [false] else []) + ToBits(k, n)
  {
    hide ToBits, Val, Pow2;
    FieldIs(n, k, s);
    if extensible && s != [] {
      FieldIs(n, k, s[1..]);
      assert s == [s[0]] + s[1..];
    }
  }

  lemma {:induction false} InExtensionIs(k: nat, s: seq<bool>)
    requires k < 64
    ensures InExtension(k, s) <==> s == [true] + ToBits(k, 7)
  {
    hide ToBits, Val, Pow2;
    assert Pow2(6) == 64 && Pow2(7) == 128 by { Pow2Small(); Pow2Add(2, 4); Pow2Add(3, 4); }
    FirstBitOf(k, 7, []);
    DivModUnique(0, k, 64, k);
    assert ToBits(k, 7) + [] == ToBits(k, 7) && ToBits(k, 6) + [] == ToBits(k, 6);
    assert ToBits(k, 7) == [false] + ToBits(k, 6);
    if |s| == 8 {
      FieldIs(6, k, s[2..]);
      assert s == [s[0]] + ([s[1]] + s[2..]);
    }
  }

  // ---- INTEGER, ENUMERATED, and the index of a CHOICE ----

  /** A number in a signed word: as an offset in its range, or as the octets of an INTEGER without one. */
  ghost predicate NumberSpelled(ct: Constraint, v: int, s: seq<bool>) {
    && -0x8000_0000_0000_0000 <= v < 0x8000_0000_0000_0000
    && if ct.Unconstrained? then s == PutOctets(Contents(v))
       else if ct.lb <= v <= ct.ub then InRoot(ct.extensible, ct.rangeBits, v - ct.lb, s)
       else ct.extensible && s == [true] + PutOctets(Contents(v))
  }

  /** A value at its place in the sorted table: the place in the root, or the number in the extension. */
  ghost predicate EnumSpelled(t: Type, v: int, s: seq<bool>)
    requires t.Enumerated?
  {
    exists at :: 0 <= at < |t.values| && t.values[at] == v &&
      if t.extension == 0 || at < t.extension - 1 then InRoot(t.extensible, t.rangeBits, at, s)
      else t.extensible && InExtension(at - (t.extension - 1), s)
  }

  /** The place of an alternative in the canonical order, which is that of the table when there is no other. */
  function Place(t: Type, present: nat): nat
    requires t.Choice? && present >= 1
  {
    if present <= |t.toCanonical| then t.toCanonical[present - 1] else present - 1
  }

  ghost predicate IndexSpelled(t: Type, present: nat, s: seq<bool>)
    requires t.Choice?
  {
    && 1 <= present <= |t.elements|
    && var at := Place(t, present);
    && if t.lb <= at <= t.ub then InRoot(t.extensible, t.rangeBits, at, s)
       else t.extensible && 0 <= t.extStart <= at && InExtension(at - t.extStart, s)
  }

  lemma {:induction false} NumberExactly(t: Type, v: int, s: seq<bool>)
    requires t.Number? && WellFormed(t)
    ensures EncNumber(t.ct, v) == Bits(s) <==> NumberSpelled(t.ct, v, s)
  {
    hide ToBits, Val, Pow2, PutOctets, Contents;
    if t.ct.Range? && t.ct.lb <= v <= t.ct.ub {
      InRootIs(t.ct.extensible, t.ct.rangeBits, v - t.ct.lb, s);
      assert [] + ToBits(v - t.ct.lb, t.ct.rangeBits) == ToBits(v - t.ct.lb, t.ct.rangeBits);
    }
  }

  lemma {:induction false} EnumExactly(t: Type, v: int, s: seq<bool>)
    requires t.Enumerated? && WellFormed(t)
    ensures EncEnum(t, v) == Bits(s) <==> EnumSpelled(t, v, s)
  {
    hide ToBits, Val, Pow2, InRoot, InExtension, PutSmall;
    forall at | 0 <= at < |t.values| && t.values[at] == v ensures Find(t.values, v) == Some(at) {
      var found := Find(t.values, v).value;
      assert found == at;
    }
    if Find(t.values, v).Some? {
      var at := Find(t.values, v).value;
      if t.extension == 0 || at < t.extension - 1 {
        InRootIs(t.extensible, t.rangeBits, at, s);
      } else {
        SmallForm(at - (t.extension - 1));
        InExtensionIs(at - (t.extension - 1), s);
      }
    }
  }

  lemma {:induction false} SmallForm(k: nat)
    requires k < 64
    ensures PutSmall(k) == Some(ToBits(k, 7))
  {
  }

  lemma {:induction false} IndexExactly(t: Type, present: nat, s: seq<bool>)
    requires t.Choice? && WellFormed(t)
    ensures EncIndex(t, present) == Bits(s) <==> IndexSpelled(t, present, s)
  {
    hide ToBits, Val, Pow2, InRoot, InExtension, PutSmall;
    if 1 <= present <= |t.elements| {
      var at := Reorder(t.toCanonical, present - 1);
      if t.lb <= at <= t.ub {
        InRootIs(t.extensible, t.rangeBits, at, s);
      } else if t.extStart != -1 && t.extStart <= at {
        SmallForm(at - t.extStart);
        InExtensionIs(at - t.extStart, s);
      }
    }
  }

  // ---- Open types ----

  /** The bits of a body, at least one octet of them, filled up with bits that are clear. */
  ghost predicate Padded(body: seq<bool>, octets: seq<byte>) {
    && |octets| == (if body == [] then 1 else (|body| + 7) / 8) && body <= BytesToBits(octets)
    && forall i :: |body| <= i < |BytesToBits(octets)| ==> !BytesToBits(octets)[i]
  }

  lemma {:induction false} PaddedIs(body: seq<bool>, octets: seq<byte>)
    ensures Padded(body, octets) <==> octets == OpenOctets(body)
  {
    hide BytesToBits, OpenOctets;
    OpenOctetsBits(body);
    var pad := if body == [] then Zeros(8) else Zeros(Padding(|body|));
    if Padded(body, octets) {
      assert BytesToBits(octets) == body + pad;
      BytesToBitsInjective(octets, OpenOctets(body));
    }
    if octets == OpenOctets(body) {
      assert 8 * |octets| == |body| + |pad|;
    }
  }

  // ---- The type tree ----

  /** What a value of the type looks like. */
  ghost predicate Spelled(t: Type, v: Value, s: seq<bool>)
    decreases t, 1
  {
    match t
    case Number(ct) => v.Native? && NumberSpelled(ct, v.v, s)
    case Enumerated(_, _, _, _) => v.Native? && EnumSpelled(t, v.v, s)
    case Choice(_, _, _, _, _, _, _, _) =>
      && v.Chosen? && 1 <= v.present <= |t.elements| && v.member.Some?
      && exists index, body :: IndexSpelled(t, v.present, index) && BodySpelled(t, v, body) && s == index + body
    case Sequence(_, _, _, _) =>
      && v.Fields? && |v.fields| == |t.elements|
      && exists parts :: s == Joined(t, v.fields, parts) && |parts| == |v.fields| &&
                         forall i :: 0 <= i < |parts| ==> PartSpelled(t, v.fields, i, parts[i])
  }

  /** The chosen alternative, as an open type when it is outside the root. */
  ghost predicate BodySpelled(t: Type, v: Value, s: seq<bool>)
    requires t.Choice? && v.Chosen? && 1 <= v.present <= |t.elements| && v.member.Some?
    decreases t, 0
  {
    if t.lb <= Place(t, v.present) <= t.ub then Spelled(t.elements[v.present - 1].ty, v.member.value, s)
    else OpenSpelled(t.elements[v.present - 1].ty, v.member.value, s)
  }

  /** What a member contributes: nothing when it is not sent, and an open type when it is an extension addition. */
  ghost predicate PartSpelled(t: Type, f: seq<Option<Value>>, i: nat, part: seq<bool>)
    requires t.Sequence? && i < |f| == |t.elements|
    decreases t, 0
  {
    if i < Rooted(t) then
      if Sent(t.elements[i], f[i]) then Spelled(t.elements[i].ty, f[i].value, part)
      else t.elements[i].optional && part == []
    else if f[i].Some? then OpenSpelled(t.elements[i].ty, f[i].value, part)
    else part == []
  }

  /** What a value looks like where its length must be told: whole octets behind length determinants. */
  ghost predicate OpenSpelled(t: Type, v: Value, s: seq<bool>)
    decreases t, 2
  {
    exists body, octets :: Spelled(t, v, body) && Padded(body, octets) && s == PutOctets(octets)
  }

  /** The number of members in front of the extension additions. */
  function Rooted(t: Type): int
    requires t.Sequence?
  {
    if t.firstExtension >= 0 then t.firstExtension else |t.elements|
  }

  /** A member is sent when it is there and does not compare equal to its DEFAULT. */
  predicate Sent(m: Member, f: Option<Value>) {
    f.Some? && (m.default.None? || Compare(m.ty, f.value, m.default.value) != 0)
  }

  predicate Extended(t: Type, f: seq<Option<Value>>)
    requires t.Sequence?
  {
    exists i :: 0 <= i < |f| && Rooted(t) <= i && f[i].Some?
  }

  /** One bit for each optional member of the root. */
  function Flags(t: Type, f: seq<Option<Value>>, i: nat): seq<bool>
    requires t.Sequence? && |f| == |t.elements|
    decreases |f| - i
  {
    if i >= |f| || i >= Rooted(t) then []
    else (if t.elements[i].optional then [Sent(t.elements[i], f[i])] else []) + Flags(t, f, i + 1)
  }

  /** One bit for each member from number `i` on. */
  function There(f: seq<Option<Value>>, i: nat): seq<bool>
    requires i <= |f|
  {
    seq(|f| - i, k requires 0 <= k < |f| - i => f[i + k].Some?)
  }

  function Concat(parts: seq<seq<bool>>): seq<bool> {
    if parts == [] then [] else parts[0] + Concat(parts[1..])
  }

  /**
    The extension bit, the presence bits, the members of the root in turn; and, when any addition is there, their
    number less one in seven bits, one bit for each, and those that are there in turn.
   */
  ghost function Joined(t: Type, f: seq<Option<Value>>, parts: seq<seq<bool>>): seq<bool>
    requires t.Sequence? && |f| == |t.elements|
  {
    var root := if 0 <= Rooted(t) <= |f| then Rooted(t) else |f|;
    if |parts| != |f| then []
    else
      (if t.firstExtension >= 0 then [Extended(t, f)] else []) + Flags(t, f, 0) + Concat(parts[..root])
      + if !Extended(t, f) then []
        else ToBits(|f| - root - 1, 7) + There(f, root) + Concat(parts[root..])
  }

  // ---- The encoder puts just that ----

  lemma {:induction false} SameRoot(t: Type)
    requires t.Sequence? && WellFormed(t)
    ensures Rooted(t) == Root(t)
  {
    hide Optionals, GoodMember;
  }

  lemma {:induction false} FlagsAreMarks(t: Type, f: seq<Option<Value>>, i: nat)
    requires t.Sequence? && |f| == |t.elements| && Rooted(t) == Root(t)
    ensures Flags(t, f, i) == Marks(t, f, i)
    decreases |f| - i
  {
    hide Compare;
    if i < Root(t) {
      FlagsAreMarks(t, f, i + 1);
    }
  }

  lemma {:induction false} OneBitEach(t: Type, f: seq<Option<Value>>, i: nat)
    requires t.Sequence? && |f| == |t.elements| && i <= |f|
    ensures AdditionMarks(t, f, i) == There(f, i)
    decreases |f| - i
  {
    if i < |f| {
      OneBitEach(t, f, i + 1);
    }
  }

  lemma {:induction false} ConcatNext(parts: seq<seq<bool>>, i: nat, n: nat)
    requires i < n <= |parts|
    ensures Concat(parts[i..n]) == parts[i] + Concat(parts[i + 1..n])
  {
    assert parts[i..n][0] == parts[i] && parts[i..n][1..] == parts[i + 1..n];
  }

  /** Every part is what the encoder makes of its member. */
  ghost predicate Matched(t: Type, f: seq<Option<Value>>, parts: seq<seq<bool>>)
    requires t.Sequence? && |f| == |t.elements|
  {
    |parts| == |f| && forall i :: 0 <= i < |f| ==> PartFits(t, f, i, parts[i])
  }

  ghost predicate PartFits(t: Type, f: seq<Option<Value>>, i: nat, part: seq<bool>)
    requires t.Sequence? && i < |f| == |t.elements|
  {
    var m := t.elements[i];
    if i < Root(t) then
      if Present(m, f[i]) then Enc(m.ty, f[i].value) == Bits(part) else m.optional && part == []
    else if f[i].Some? then Enc(m.ty, f[i].value).Bits? && part == Open(Enc(m.ty, f[i].value).bits)
    else part == []
  }

  lemma {:induction false} MembersAre(t: Type, f: seq<Option<Value>>, parts: seq<seq<bool>>, i: nat)
    requires t.Sequence? && |f| == |t.elements| && Matched(t, f, parts) && i <= Root(t)
    ensures EncMembers(t, f, i) == Bits(Concat(parts[i..Root(t)]))
    decreases |f| - i
  {
    hide Enc, Present;
    if i < Root(t) {
      assert PartFits(t, f, i, parts[i]);
      MembersAre(t, f, parts, i + 1);
      ConcatNext(parts, i, Root(t));
      assert [] + Concat(parts[i + 1..Root(t)]) == Concat(parts[i + 1..Root(t)]);
      AbsentOptional(t.elements[i], f[i]);
    }
  }

  lemma {:induction false} AbsentOptional(m: Member, f: Option<Value>)
    ensures Present(m, f) ==> f.Some?
  {
  }

  lemma {:induction false} AdditionsAre(t: Type, f: seq<Option<Value>>, parts: seq<seq<bool>>, i: nat)
    requires t.Sequence? && |f| == |t.elements| && Matched(t, f, parts) && Root(t) <= i <= |f|
    ensures EncOpen(t, f, i) == Bits(Concat(parts[i..|f|]))
    decreases |f| - i
  {
    hide Enc, Open;
    if i < |f| {
      assert PartFits(t, f, i, parts[i]);
      AdditionsAre(t, f, parts, i + 1);
      ConcatNext(parts, i, |f|);
      assert [] + Concat(parts[i + 1..|f|]) == Concat(parts[i + 1..|f|]);
    }
  }

  /** The parts of an encoding, joined. */
  lemma {:induction false} JoinedIs(t: Type, f: seq<Option<Value>>, parts: seq<seq<bool>>)
    requires t.Sequence? && WellFormed(t) && |f| == |t.elements| && Matched(t, f, parts)
    ensures Enc(t, Fields(f)) == Bits(Joined(t, f, parts))
  {
    hide EncMembers, EncAdditions, Concat, Flags, Marks, Bitmap, There, ToBits, Optionals, Matched, Pow2;
    SameRoot(t);
    SequenceTables(t);
    var root := Root(t);
    MembersAre(t, f, parts, 0);
    FlagsAreMarks(t, f, 0);
    BitmapIsMarks(t, f, 0);
    PartsSize(t, f, parts);
    assert parts[0..root] == parts[..root];
    assert Extended(t, f) == AnyAddition(t, f);
    var pre := (if t.firstExtension >= 0 then [Extended(t, f)] else []) + Flags(t, f, 0);
    assert EncPreamble(t, f) == pre;
    if Extended(t, f) {
      AdditionsJoined(t, f, parts);
      assert Enc(t, Fields(f)) == Bits(pre + Concat(parts[..root]) + EncAdditions(t, f).bits);
    } else {
      assert Enc(t, Fields(f)) == Bits(pre + Concat(parts[..root]) + []);
    }
  }

  lemma {:induction false} AdditionsJoined(t: Type, f: seq<Option<Value>>, parts: seq<seq<bool>>)
    requires t.Sequence? && WellFormed(t) && |f| == |t.elements| && Matched(t, f, parts) && Extended(t, f)
    ensures |parts| == |f|
    ensures var root := Root(t);
            EncAdditions(t, f) == Bits(ToBits(|f| - root - 1, 7)
                                       + There(f, root) + Concat(parts[root..]))
  {
    hide EncOpen, Concat, AdditionMarks, ToBits, Matched, Pow2;
    SameRoot(t);
    SequenceTables(t);
    hide WellFormed;
    PartsSize(t, f, parts);
    var root, n := Root(t), |f|;
    assert n > root;
    AdditionsAre(t, f, parts, root);
    OneBitEach(t, f, root);
    assert parts[root..n] == parts[root..];
    assert PutSmallLength(n - root) == Some(ToBits(n - root - 1, 7));
  }

  lemma {:induction false} PartsSize(t: Type, f: seq<Option<Value>>, parts: seq<seq<bool>>)
    requires t.Sequence? && |f| == |t.elements| && Matched(t, f, parts)
    ensures |parts| == |f|
  {
  }

  lemma {:induction false} SequenceTables(t: Type)
    requires t.Sequence? && WellFormed(t)
    ensures t.roms <= |t.oms| && t.oms[..t.roms] == Optionals(t, 0) && |t.elements| - Root(t) <= 64
    ensures forall i :: 0 <= i < |t.elements| ==> WellFormed(t.elements[i].ty) && GoodMember(t.elements[i])
  {
    hide Optionals, GoodMember;
  }

  /** The parts an encoding is made of. */
  lemma {:induction false} PartsThere(t: Type, f: seq<Option<Value>>) returns (parts: seq<seq<bool>>)
    requires t.Sequence? && WellFormed(t) && |f| == |t.elements| && Enc(t, Fields(f)).Bits?
    ensures Matched(t, f, parts)
  {
    hide Present, Open, WellFormed;
    parts := [];
    while |parts| < |f|
      invariant |parts| <= |f| && forall i :: 0 <= i < |parts| ==> PartFits(t, f, i, parts[i])
    {
      var part := PartThere(t, f, |parts|);
      parts := parts + [part];
    }
  }

  lemma {:induction false} PartThere(t: Type, f: seq<Option<Value>>, i: nat) returns (part: seq<bool>)
    requires t.Sequence? && WellFormed(t) && i < |f| == |t.elements| && Enc(t, Fields(f)).Bits?
    ensures PartFits(t, f, i, part)
  {
    hide Present, Open, WellFormed, EncMembers, EncOpen;
    EncParts(t, f);
    var m := t.elements[i];
    if i < Root(t) {
      MemberEncodes(t, f, 0, i);
      if Present(m, f[i]) {
        part := Enc(m.ty, f[i].value).bits;
      } else {
        GoodTables(t);
        SkippedIsOptional(t, f, i);
        part := [];
      }
    } else if f[i].Some? {
      assert AnyAddition(t, f);
      AdditionEncodes(t, f, Root(t), i);
      part := Open(Enc(m.ty, f[i].value).bits);
    } else {
      part := [];
    }
  }

  lemma {:induction false} GoodTables(t: Type)
    requires t.Sequence? && WellFormed(t)
    ensures GoodMembers(t)
  {
  }

  lemma {:induction false} EncParts(t: Type, f: seq<Option<Value>>)
    requires t.Sequence? && |f| == |t.elements| && Enc(t, Fields(f)).Bits?
    ensures EncMembers(t, f, 0).Bits? && (AnyAddition(t, f) ==> EncOpen(t, f, Root(t)).Bits?)
  {
    hide EncMembers, EncOpen, EncPreamble;
  }

  /** The encoder yields some bits exactly when they are what the value looks like. */
  lemma {:induction false} SpelledExactly(t: Type, v: Value, s: seq<bool>)
    requires WellFormed(t)
    ensures Spelled(t, v, s) <==> Enc(t, v) == Bits(s)
    decreases t, 3
  {
    hide NumberSpelled, EnumSpelled, EncNumber, EncEnum, WellFormed;
    match t
    case Number(_) => if v.Native? { NumberExactly(t, v.v, s); }
    case Enumerated(_, _, _, _) => if v.Native? { EnumExactly(t, v.v, s); }
    case Choice(_, _, _, _, _, _, _, _) => ChoiceExactly(t, v, s);
    case Sequence(_, _, _, _) => SequenceExactly(t, v, s);
  }

  lemma {:induction false} OpenSpelledExactly(t: Type, v: Value, s: seq<bool>)
    requires WellFormed(t)
    ensures OpenSpelled(t, v, s) <==> Enc(t, v).Bits? && s == Open(Enc(t, v).bits)
    decreases t, 4
  {
    hide Spelled, Enc, Padded, PutOctets, OpenOctets, WellFormed;
    if Enc(t, v).Bits? {
      var body := Enc(t, v).bits;
      SpelledExactly(t, v, body);
      PaddedIs(body, OpenOctets(body));
    }
    forall body, octets | Spelled(t, v, body) && Padded(body, octets)
      ensures Enc(t, v) == Bits(body) && octets == OpenOctets(body)
    {
      SpelledExactly(t, v, body);
      PaddedIs(body, octets);
    }
  }

  lemma {:induction false} ChoiceExactly(t: Type, v: Value, s: seq<bool>)
    requires t.Choice? && WellFormed(t)
    ensures Spelled(t, v, s) <==> Enc(t, v) == Bits(s)
    decreases t, 2
  {
    if v.Chosen? && 1 <= v.present <= |t.elements| && v.member.Some? {
      hide IndexSpelled, EncIndex, Open, OpenSpelled, BodySpelled, WellFormed;
      forall index ensures IndexSpelled(t, v.present, index) <==> EncIndex(t, v.present) == Bits(index) {
        IndexExactly(t, v.present, index);
      }
      forall body ensures BodySpelled(t, v, body) <==> BodyBits(t, v) == Bits(body) {
        BodyExactly(t, v, body);
      }
      ChoiceBits(t, v);
      hide Enc, BodyBits, Outside;
      if Spelled(t, v, s) {
        var index, body :| IndexSpelled(t, v.present, index) && BodySpelled(t, v, body) && s == index + body;
        assert EncIndex(t, v.present) == Bits(index) && BodyBits(t, v) == Bits(body);
      }
      if Enc(t, v) == Bits(s) {
        var index, body := EncIndex(t, v.present).bits, BodyBits(t, v).bits;
        assert IndexSpelled(t, v.present, index) && BodySpelled(t, v, body);
      }
    }
  }

  ghost function BodyBits(t: Type, v: Value): Encoded
    requires t.Choice? && v.Chosen? && 1 <= v.present <= |t.elements| && v.member.Some?
  {
    var body := Enc(t.elements[v.present - 1].ty, v.member.value);
    if body.Bits? && Outside(t, v.present) then Bits(Open(body.bits)) else body
  }

  lemma {:induction false} ChoiceBits(t: Type, v: Value)
    requires t.Choice? && v.Chosen? && 1 <= v.present <= |t.elements| && v.member.Some?
    ensures Enc(t, v).Bits? <==> EncIndex(t, v.present).Bits? && BodyBits(t, v).Bits?
    ensures Enc(t, v).Bits? ==> Enc(t, v).bits == EncIndex(t, v.present).bits + BodyBits(t, v).bits
  {
    hide EncIndex, Open;
  }

  lemma {:induction false} BodyExactly(t: Type, v: Value, body: seq<bool>)
    requires t.Choice? && WellFormed(t) && v.Chosen? && 1 <= v.present <= |t.elements| && v.member.Some?
    ensures BodySpelled(t, v, body) <==> BodyBits(t, v) == Bits(body)
    decreases t, 0
  {
    hide Enc, Spelled, OpenSpelled, Open, GoodOrder;
    var ty, m := t.elements[v.present - 1].ty, v.member.value;
    if t.lb <= Place(t, v.present) <= t.ub {
      SpelledExactly(ty, m, body);
    } else {
      OpenSpelledExactly(ty, m, body);
    }
  }

  lemma {:induction false} PartExactly(t: Type, f: seq<Option<Value>>, i: nat, part: seq<bool>)
    requires t.Sequence? && WellFormed(t) && i < |f| == |t.elements|
    ensures PartSpelled(t, f, i, part) <==> PartFits(t, f, i, part)
    decreases t, 0
  {
    hide Spelled, OpenSpelled, Enc, Open, Compare;
    SameRoot(t);
    SequenceTables(t);
    hide WellFormed;
    var m := t.elements[i];
    if f[i].Some? {
      if i < Root(t) {
        SpelledExactly(m.ty, f[i].value, part);
      } else {
        OpenSpelledExactly(m.ty, f[i].value, part);
      }
    }
  }

  lemma {:induction false} SequenceExactly(t: Type, v: Value, s: seq<bool>)
    requires t.Sequence? && WellFormed(t)
    ensures Spelled(t, v, s) <==> Enc(t, v) == Bits(s)
    decreases t, 2
  {
    hide Joined, PartFits, PartSpelled, EncMembers, EncAdditions, EncPreamble, WellFormed;
    if v.Fields? && |v.fields| == |t.elements| {
      var f := v.fields;
      forall i: nat, part | i < |f| ensures PartSpelled(t, f, i, part) <==> PartFits(t, f, i, part) {
        PartExactly(t, f, i, part);
      }
      if Enc(t, v) == Bits(s) {
        var parts := PartsThere(t, f);
        JoinedIs(t, f, parts);
        assert forall i :: 0 <= i < |f| ==> PartSpelled(t, f, i, parts[i]);
        assert s == Joined(t, f, parts);
      }
      if Spelled(t, v, s) {
        var parts :| s == Joined(t, f, parts) && |parts| == |f| &&
                     forall i :: 0 <= i < |parts| ==> PartSpelled(t, f, i, parts[i]);
        assert Matched(t, f, parts);
        JoinedIs(t, f, parts);
      }
    }
  }
}
