/**
  What the decoder of unaligned PER takes for which value, on any input: every text of bits it accepts,
  also those no encoder would have written, told without the decoder.
 */
module UperReads {
  import opened Bits
  import opened Options
  import opened Integer
  import opened PerSupport
  import opened PerLengths
  import opened Uper
  import UperLayout
  import UperRoundTrip

  // ---- Octets and small numbers ----

  /** Fragments that carry the octets `b`. */
  ghost predicate OctetsRead(b: seq<byte>, s: seq<bool>) {
    exists ps :: InTurn(ps) && s == BytesToBits(Wire(ps)) && b == Carried(ps)
  }

  lemma {:induction false} OctetsTaken(b: seq<byte>, s: seq<bool>, rest: seq<bool>)
    requires OctetsRead(b, s)
    ensures GetOctets(s + rest) == Ok(b, rest)
  {
    hide GetOctets, BytesToBits, InTurn, Wire, Carried;
    var ps :| InTurn(ps) && s == BytesToBits(Wire(ps)) && b == Carried(ps);
    FragmentsTaken(ps, rest);
  }

  lemma {:induction false} OctetsThere(s: seq<bool>) returns (p: seq<bool>)
    requires GetOctets(s).Ok?
    ensures s == p + GetOctets(s).rest && OctetsRead(GetOctets(s).value, p)
  {
    hide GetOctets, BytesToBits, InTurn, Wire, Carried;
    var ps := FragmentsRead(s);
    p := BytesToBits(Wire(ps));
  }

  /** Seven bits below 64; or a set bit, an octet that is at most two, and as many octets, none meaning 0. */
  ghost predicate SmallRead(k: nat, s: seq<bool>) {
    || (|s| == 7 && k < 64 && Val(s) == k)
    || (|s| >= 9 && s[0] &&
        var n := Val(s[1..9]); n <= 2 && |s| == 9 + 8 * n && k == if n == 0 then 0 else Val(s[9..]))
  }

  /** The length of a bitmap: a clear bit and six that hold it less one, or a set bit and a determinant. */
  ghost predicate SmallLengthRead(k: nat, s: seq<bool>) {
    || (|s| == 7 && !s[0] && k == Val(s[1..]) + 1)
    || (s != [] && s[0] && exists h :: Says(h, k, false) && s[1..] == BytesToBits(h))
  }

  lemma {:induction false} NineBits(s: seq<bool>)
    requires |s| >= 9
    ensures Val(s[..7]) < 128 && (Val(s[..7]) >= 64 <==> s[0])
    ensures s[0] ==> Val(s[1..9]) == 4 * (Val(s[..7]) - 64) + Val(s[7..9])
  {
    hide Val, Pow2;
    FirstOfSeven(s[..7]);
    assert s[..7][1..] == s[1..7] && s[1..9] == s[1..7] + s[7..9];
    ValConcat(s[1..7], s[7..9]);
    assert Pow2(2) == 4 by { Pow2Small(); }
  }

  lemma {:induction false} FirstOfSeven(s: seq<bool>)
    requires |s| == 7
    ensures Val(s[1..]) < 64 && Val(s) == (if s[0] then 64 else 0) + Val(s[1..])
  {
    hide Val, Pow2;
    assert s == [s[0]] + s[1..];
    ValConcat([s[0]], s[1..]);
    ValBound(s[1..]);
    assert Pow2(6) == 64 by { Pow2Small(); Pow2Add(2, 4); }
    assert Val([s[0]]) == if s[0] then 1 else 0 by { ValSnoc([], s[0]); assert [] + [s[0]] == [s[0]]; ValEmpty(); }
  }

  lemma {:induction false} ValEmpty()
    ensures Val([]) == 0
  {
  }

  lemma {:induction false} SmallTaken(k: nat, s: seq<bool>, rest: seq<bool>)
    requires SmallRead(k, s)
    ensures GetSmall(s + rest) == Ok(k, rest)
  {
    hide Val;
    var t := s + rest;
    assert t[..7] == s[..7] && t[7..] == s[7..] + rest;
    if |s| == 7 {
      assert s[..7] == s && t[7..] == rest;
    } else {
      NineBits(s);
      var n := Val(s[1..9]);
      assert t[7..][..2] == s[7..9] && t[7..][2..] == s[9..] + rest;
      assert (s[9..] + rest)[..8 * n] == s[9..] && (s[9..] + rest)[8 * n..] == rest;
    }
  }

  lemma {:induction false} SmallThere(s: seq<bool>) returns (p: seq<bool>)
    requires GetSmall(s).Ok?
    ensures s == p + GetSmall(s).rest && SmallRead(GetSmall(s).value, p)
  {
    hide Val;
    if Val(s[..7]) < 64 {
      p := s[..7];
    } else {
      NineBits(s);
      var n := Val(s[1..9]);
      assert s[7..][..2] == s[7..9] && s[7..][2..] == s[9..];
      p := s[..9 + 8 * n];
      assert p[1..9] == s[1..9] && p[9..] == s[9..][..8 * n];
    }
  }

  lemma {:induction false} SmallLengthTaken(k: nat, s: seq<bool>, rest: seq<bool>)
    requires SmallLengthRead(k, s)
    ensures GetSmallLength(s + rest) == Ok(k, rest)
  {
    hide Val, GetLength, BytesToBits, Says;
    var t := s + rest;
    assert t[0] == s[0] && t[1..] == s[1..] + rest;
    if s[0] {
      var h :| Says(h, k, false) && s[1..] == BytesToBits(h);
      LengthTaken(h, k, false, rest);
    } else {
      assert t[1..][..6] == s[1..] && t[1..][6..] == rest;
    }
  }

  lemma {:induction false} SmallLengthThere(s: seq<bool>) returns (p: seq<bool>)
    requires GetSmallLength(s).Ok?
    ensures s == p + GetSmallLength(s).rest && SmallLengthRead(GetSmallLength(s).value, p)
  {
    hide Val, GetLength, BytesToBits, Says;
    if s[0] {
      var h := LengthRead(s[1..]);
      p := [true] + BytesToBits(h);
      assert p[1..] == BytesToBits(h);
    } else {
      p := s[..7];
      assert p[1..] == s[1..][..6];
    }
  }

  // ---- INTEGER, ENUMERATED, and the index of a CHOICE ----

  /** Any octets whose number fits a signed word. */
  ghost predicate FreeRead(v: int, s: seq<bool>) {
    -0x8000_0000_0000_0000 <= v < 0x8000_0000_0000_0000 && exists b :: OctetsRead(b, s) && SignedVal(b) == v
  }

  ghost predicate RangeRead(ct: Constraint, v: int, s: seq<bool>)
    requires ct.Range?
  {
    ct.rangeBits <= 64 && |s| == ct.rangeBits && ct.lb <= v <= ct.ub && Val(s) == v - ct.lb
  }

  /** Behind the extension bit any number will do, also one that is in the range. */
  ghost predicate NumberRead(ct: Constraint, v: int, s: seq<bool>) {
    if ct.Unconstrained? then FreeRead(v, s)
    else if !ct.extensible then RangeRead(ct, v, s)
    else s != [] && if s[0] then FreeRead(v, s[1..]) else RangeRead(ct, v, s[1..])
  }

  ghost predicate EnumRootRead(t: Type, v: int, s: seq<bool>)
    requires t.Enumerated?
  {
    && |s| == t.rangeBits && Val(s) < |t.values| && (t.extension > 0 ==> Val(s) < t.extension - 1)
    && v == t.values[Val(s)]
  }

  ghost predicate EnumExtensionRead(t: Type, v: int, s: seq<bool>)
    requires t.Enumerated?
  {
    t.extension > 0 && exists k: nat :: SmallRead(k, s) && EnumExtensionAt(t, v, k)
  }

  ghost predicate EnumExtensionAt(t: Type, v: int, k: nat)
    requires t.Enumerated?
  {
    0 <= k + t.extension - 1 < |t.values| && v == t.values[k + t.extension - 1]
  }

  ghost predicate EnumRead(t: Type, v: int, s: seq<bool>)
    requires t.Enumerated?
  {
    if !t.extensible then EnumRootRead(t, v, s)
    else s != [] && if s[0] then EnumExtensionRead(t, v, s[1..]) else EnumRootRead(t, v, s[1..])
  }

  /** The alternative at a place in the canonical order. */
  function Alternative(t: Type, at: nat): nat
    requires t.Choice?
  {
    if at < |t.fromCanonical| then t.fromCanonical[at] else at
  }

  ghost predicate RootIndexRead(t: Type, i: nat, s: seq<bool>)
    requires t.Choice?
  {
    |s| == t.rangeBits && Val(s) <= t.ub && i == Alternative(t, Val(s))
  }

  ghost predicate ExtensionIndexRead(t: Type, i: nat, s: seq<bool>)
    requires t.Choice?
  {
    t.extStart != -1 && exists k: nat :: SmallRead(k, s) && ExtensionIndexAt(t, i, k)
  }

  ghost predicate ExtensionIndexAt(t: Type, i: nat, k: nat)
    requires t.Choice?
  {
    0 <= k + t.extStart < |t.elements| && i == Alternative(t, k + t.extStart)
  }

  /** The index of an alternative; `open` when it is given by its number in the extension. */
  ghost predicate IndexRead(t: Type, i: nat, open: bool, s: seq<bool>)
    requires t.Choice?
  {
    if !t.extensible then !open && RootIndexRead(t, i, s)
    else s != [] && s[0] == open && if open then ExtensionIndexRead(t, i, s[1..]) else RootIndexRead(t, i, s[1..])
  }

  lemma {:induction false} Behind(s: seq<bool>, rest: seq<bool>)
    requires s != []
    ensures (s + rest)[0] == s[0] && (s + rest)[1..] == s[1..] + rest
  {
  }

  lemma {:induction false} FieldTaken(s: seq<bool>, rest: seq<bool>)
    ensures Take(s + rest, |s|) == Ok(Val(s), rest)
  {
    assert (s + rest)[..|s|] == s && (s + rest)[|s|..] == rest;
  }

  lemma {:induction false} FreeTaken(v: int, s: seq<bool>, rest: seq<bool>)
    requires FreeRead(v, s)
    ensures DecUnconstrained(s + rest) == Ok(Native(v), rest)
  {
    hide OctetsRead, GetOctets, SignedVal;
    var b :| OctetsRead(b, s) && SignedVal(b) == v;
    OctetsTaken(b, s, rest);
  }

  lemma {:induction false} FreeThere(s: seq<bool>) returns (p: seq<bool>)
    requires DecUnconstrained(s).Ok?
    ensures var r := DecUnconstrained(s); s == p + r.rest && r.value.Native? && FreeRead(r.value.v, p)
  {
    hide OctetsRead, GetOctets, SignedVal;
    p := OctetsThere(s);
  }

  lemma {:induction false} NumberTaken(ct: Constraint, v: int, s: seq<bool>, rest: seq<bool>)
    requires NumberRead(ct, v, s)
    ensures DecNumber(ct, s + rest) == Ok(Native(v), rest)
  {
    hide FreeRead, DecUnconstrained, Val, Take;
    if ct.Unconstrained? {
      FreeTaken(v, s, rest);
    } else if !ct.extensible {
      FieldTaken(s, rest);
    } else {
      Behind(s, rest);
      if s[0] {
        FreeTaken(v, s[1..], rest);
      } else {
        FieldTaken(s[1..], rest);
      }
    }
  }

  lemma {:induction false} RangeThere(ct: Constraint, s: seq<bool>) returns (p: seq<bool>)
    requires ct.Range? && DecRange(ct, s).Ok?
    ensures var r := DecRange(ct, s); s == p + r.rest && r.value.Native? && RangeRead(ct, r.value.v, p)
  {
    hide Val;
    p := s[..ct.rangeBits];
  }

  lemma {:induction false} NumberThere(ct: Constraint, s: seq<bool>) returns (p: seq<bool>)
    requires DecNumber(ct, s).Ok?
    ensures var r := DecNumber(ct, s); s == p + r.rest && r.value.Native? && NumberRead(ct, r.value.v, p)
  {
    hide FreeRead, DecUnconstrained, DecRange, RangeRead;
    if ct.Unconstrained? {
      p := FreeThere(s);
    } else if !ct.extensible {
      p := RangeThere(ct, s);
    } else {
      var q;
      if s[0] {
        q := FreeThere(s[1..]);
      } else {
        q := RangeThere(ct, s[1..]);
      }
      p := [s[0]] + q;
      assert p[1..] == q && s == [s[0]] + s[1..];
    }
  }

  lemma {:induction false} EnumTaken(t: Type, v: int, s: seq<bool>, rest: seq<bool>)
    requires t.Enumerated? && EnumRead(t, v, s)
    ensures DecEnum(t, s + rest) == Ok(Native(v), rest)
  {
    hide Val, Take, SmallRead, GetSmall;
    if !t.extensible {
      FieldTaken(s, rest);
    } else {
      Behind(s, rest);
      if s[0] {
        var k: nat :| SmallRead(k, s[1..]) && EnumExtensionAt(t, v, k);
        SmallTaken(k, s[1..], rest);
      } else {
        FieldTaken(s[1..], rest);
      }
    }
  }

  lemma {:induction false} EnumRootThere(t: Type, s: seq<bool>) returns (p: seq<bool>)
    requires t.Enumerated? && DecEnumRoot(t, s).Ok?
    ensures var r := DecEnumRoot(t, s); s == p + r.rest && r.value.Native? && EnumRootRead(t, r.value.v, p)
  {
    hide Val;
    p := s[..t.rangeBits];
  }

  lemma {:induction false} EnumExtensionThere(t: Type, s: seq<bool>) returns (p: seq<bool>)
    requires t.Enumerated? && DecEnumExtension(t, s).Ok?
    ensures var r := DecEnumExtension(t, s); s == p + r.rest && r.value.Native? && EnumExtensionRead(t, r.value.v, p)
  {
    hide SmallRead, GetSmall;
    p := SmallThere(s);
    assert EnumExtensionAt(t, DecEnumExtension(t, s).value.v, GetSmall(s).value);
  }

  lemma {:induction false} EnumThere(t: Type, s: seq<bool>) returns (p: seq<bool>)
    requires t.Enumerated? && DecEnum(t, s).Ok?
    ensures var r := DecEnum(t, s); s == p + r.rest && r.value.Native? && EnumRead(t, r.value.v, p)
  {
    hide EnumRootRead, EnumExtensionRead, DecEnumRoot, DecEnumExtension;
    if !t.extensible {
      p := EnumRootThere(t, s);
    } else {
      var q;
      if s[0] {
        q := EnumExtensionThere(t, s[1..]);
      } else {
        q := EnumRootThere(t, s[1..]);
      }
      p := [s[0]] + q;
      assert p[1..] == q && s == [s[0]] + s[1..];
    }
  }

  lemma {:induction false} IndexTaken(t: Type, i: nat, open: bool, s: seq<bool>, rest: seq<bool>)
    requires t.Choice? && IndexRead(t, i, open, s)
    ensures DecIndex(t, s + rest) == Ok((i, open), rest)
  {
    hide Val, Take, SmallRead, GetSmall;
    if !t.extensible {
      FieldTaken(s, rest);
    } else {
      Behind(s, rest);
      if open {
        var k: nat :| SmallRead(k, s[1..]) && ExtensionIndexAt(t, i, k);
        SmallTaken(k, s[1..], rest);
      } else {
        FieldTaken(s[1..], rest);
      }
    }
  }

  lemma {:induction false} IndexThere(t: Type, s: seq<bool>) returns (p: seq<bool>)
    requires t.Choice? && DecIndex(t, s).Ok?
    ensures var r := DecIndex(t, s); s == p + r.rest && IndexRead(t, r.value.0, r.value.1, p)
  {
    hide SmallRead, GetSmall, Val;
    if !t.extensible {
      p := s[..t.rangeBits];
    } else {
      var q, s' := [], s[1..];
      if s[0] {
        q := SmallThere(s');
        assert ExtensionIndexAt(t, DecIndex(t, s).value.0, GetSmall(s').value);
      } else {
        q := s'[..t.rangeBits];
      }
      p := [s[0]] + q;
      assert p[1..] == q && s == [s[0]] + s[1..];
    }
  }

  // ---- The type tree ----

  /** The texts of bits the decoder takes for a value of the type. */
  ghost predicate Reads(t: Type, v: Value, s: seq<bool>)
    decreases t, 6
  {
    match t
    case Number(ct) => v.Native? && NumberRead(ct, v.v, s)
    case Enumerated(_, _, _, _) => v.Native? && EnumRead(t, v.v, s)
    case Choice(_, _, _, _, _, _, _, _) =>
      && v.Chosen? && 1 <= v.present <= |t.elements| && v.member.Some?
      && ChoiceRead(t, v.present - 1, v.member.value, s)
    case Sequence(_, _, _, _) => v.Fields? && |v.fields| == |t.elements| && SequenceRead(t, v.fields, s)
  }

  ghost predicate ChoiceRead(t: Type, i: nat, v: Value, s: seq<bool>)
    requires t.Choice? && i < |t.elements|
    decreases t, 5
  {
    exists open, index, body ::
      IndexRead(t, i, open, index) && AlternativeRead(t, i, open, v, body) && s == index + body
  }

  ghost predicate AlternativeRead(t: Type, i: nat, open: bool, v: Value, s: seq<bool>)
    requires t.Choice? && i < |t.elements|
    decreases t, 1
  {
    if open then OpenRead(t.elements[i].ty, v, s) else Reads(t.elements[i].ty, v, s)
  }

  /**
    An open type field: octets that begin with the value and leave less than an octet, whatever its bits, or
    hold nothing and are a single octet that is clear.
   */
  ghost predicate OpenRead(t: Type, v: Value, s: seq<bool>)
    decreases t, 7
  {
    exists b, n :: OctetsRead(b, s) && 0 <= n <= |BytesToBits(b)| && Reads(t, v, BytesToBits(b)[..n]) && Left(b, n)
  }

  ghost predicate Left(b: seq<byte>, n: nat) {
    var bits := BytesToBits(b);
    |bits| - n < 8 || (|b| == 1 && n == 0 && forall i :: 0 <= i < |bits| ==> !bits[i])
  }

  /** The number of members in front of the extension additions. */
  function RootSize(t: Type): (n: nat)
    requires t.Sequence?
    ensures n <= |t.elements|
  {
    if 0 <= t.firstExtension <= |t.elements| then t.firstExtension else |t.elements|
  }

  /** The number of optional members from `i` up to `j`. */
  function Optional(t: Type, i: nat, j: nat): nat
    requires t.Sequence? && i <= j <= |t.elements|
    decreases j - i
  {
    if i == j then 0 else (if t.elements[i].optional then 1 else 0) + Optional(t, i + 1, j)
  }

  /** The mark of a member: that of as many optional members as stand in front of it; there may be none. */
  function MarkOf(t: Type, marks: seq<bool>, i: nat, j: nat): Option<bool>
    requires t.Sequence? && i <= j < |t.elements|
  {
    var k := Optional(t, i, j);
    if t.elements[j].optional && k < |marks| then Some(marks[k]) else None
  }

  /** The extension bit, when there is one, the marks, the members of the root, and what follows them. */
  function Whole(t: Type, extended: bool, marks: seq<bool>, parts: seq<seq<bool>>, more: seq<bool>): seq<bool>
    requires t.Sequence?
  {
    (if t.firstExtension >= 0 then [extended] else []) + (marks + (UperLayout.Concat(parts) + more))
  }

  ghost predicate SequenceRead(t: Type, f: seq<Option<Value>>, s: seq<bool>)
    requires t.Sequence? && |f| == |t.elements|
    decreases t, 5
  {
    exists extended, marks, parts, more ::
      && RootRead(t, f, extended, marks, parts) && TailRead(t, f, extended, more)
      && s == Whole(t, extended, marks, parts, more)
  }

  /** What follows the root: additions when there are any, and the fields they give. */
  ghost predicate TailRead(t: Type, f: seq<Option<Value>>, extended: bool, more: seq<bool>)
    requires t.Sequence? && |f| == |t.elements|
    decreases t, 4
  {
    exists sent :: Completes(t, f, sent) && if extended then MoreRead(t, sent, more) else NoneOf(sent) && more == []
  }

  ghost predicate RootRead(t: Type, f: seq<Option<Value>>, extended: bool, marks: seq<bool>, parts: seq<seq<bool>>)
    requires t.Sequence? && |f| == |t.elements|
    decreases t, 3
  {
    && (extended ==> t.firstExtension >= 0) && |marks| == t.roms && |parts| == RootSize(t)
    && forall j :: 0 <= j < |parts| ==> MemberRead(t, j, MarkOf(t, marks, 0, j), f[j], parts[j])
  }

  /** A member whose mark is clear takes its DEFAULT; any other is there. */
  ghost predicate MemberRead(t: Type, j: nat, mark: Option<bool>, f: Option<Value>, part: seq<bool>)
    requires t.Sequence? && j < |t.elements|
    decreases t, 1
  {
    if mark == Some(false) then f == t.elements[j].default && part == []
    else f.Some? && Reads(t.elements[j].ty, f.value, part)
  }

  /** The additions: the length of their bitmap, the bitmap, and a field for each mark that is set, known or not. */
  ghost predicate MoreRead(t: Type, sent: seq<Option<Value>>, s: seq<bool>)
    requires t.Sequence?
    decreases t, 3
  {
    |sent| == |t.elements| - RootSize(t) && exists length, marks, parts ::
      && SmallLengthRead(|marks|, length) && AdditionsRead(t, RootSize(t), marks, sent, parts)
      && s == length + (marks + UperLayout.Concat(parts))
  }

  ghost predicate AdditionsRead(t: Type, i: nat, marks: seq<bool>, sent: seq<Option<Value>>, parts: seq<seq<bool>>)
    requires t.Sequence? && i + |sent| == |t.elements|
    decreases t, 2
  {
    && |parts| == (if |marks| < |sent| then |sent| else |marks|)
    && (forall j :: 0 <= j < |sent| ==> AdditionRead(t, i + j, j < |marks| && marks[j], sent[j], parts[j]))
    && (forall j :: |sent| <= j < |marks| ==> UnknownRead(marks[j], parts[j]))
  }

  ghost predicate AdditionRead(t: Type, j: nat, mark: bool, f: Option<Value>, part: seq<bool>)
    requires t.Sequence? && j < |t.elements|
    decreases t, 1
  {
    if mark then f.Some? && OpenRead(t.elements[j].ty, f.value, part) else f.None? && part == []
  }

  ghost predicate UnknownRead(mark: bool, part: seq<bool>) {
    if mark then exists b :: OctetsRead(b, part) else part == []
  }

  ghost predicate NoneOf(f: seq<Option<Value>>) {
    forall j :: 0 <= j < |f| ==> f[j].None?
  }

  /** An addition that was not sent takes its DEFAULT when it is listed behind the optional members of the root. */
  ghost predicate Completes(t: Type, f: seq<Option<Value>>, sent: seq<Option<Value>>)
    requires t.Sequence? && |f| == |t.elements|
  {
    var n := RootSize(t);
    && |sent| == |f| - n
    && forall j {:trigger sent[j]} :: 0 <= j < |sent| ==>
         f[n + j] == if sent[j].None? && InTable(t, n + j) then t.elements[n + j].default else sent[j]
  }

  ghost predicate InTable(t: Type, i: nat)
    requires t.Sequence?
  {
    exists k :: t.roms <= k < |t.oms| && t.oms[k] == i
  }

  // ---- What the decoder accepts is one of those texts ----

  lemma {:induction false} SameRootSize(t: Type)
    requires t.Sequence?
    ensures RootSize(t) == Root(t)
  {
  }

  /** The text in front of what the decoder leaves. */
  lemma {:induction false} ReadsThere(t: Type, s: seq<bool>) returns (p: seq<bool>)
    requires Dec(t, s).Ok?
    ensures s == p + Dec(t, s).rest && Reads(t, Dec(t, s).value, p)
    decreases t, 3, 0
  {
    hide NumberRead, EnumRead, DecNumber, DecEnum, ChoiceRead, SequenceRead;
    match t
    case Number(ct) => p := NumberThere(ct, s);
    case Enumerated(_, _, _, _) => p := EnumThere(t, s);
    case Choice(_, _, _, _, _, _, _, _) => p := ChoiceThere(t, s);
    case Sequence(_, _, _, _) => p := SequenceThere(t, s);
  }

  lemma {:induction false} ChoiceThere(t: Type, s: seq<bool>) returns (p: seq<bool>)
    requires t.Choice? && Dec(t, s).Ok?
    ensures var r := Dec(t, s);
            && s == p + r.rest && r.value.Chosen? && 1 <= r.value.present <= |t.elements| && r.value.member.Some?
            && ChoiceRead(t, r.value.present - 1, r.value.member.value, p)
    decreases t, 2, 0
  {
    hide IndexRead, DecIndex, DecOpen, OpenRead, Reads;
    var index := IndexThere(t, s);
    var (i, open) := DecIndex(t, s).value;
    var tail := DecIndex(t, s).rest;
    var body;
    if open {
      body := OpenThere(t.elements[i].ty, tail);
    } else {
      body := ReadsThere(t.elements[i].ty, tail);
    }
    p := index + body;
    assert AlternativeRead(t, i, open, Dec(t, s).value.member.value, body);
  }

  lemma {:induction false} OpenThere(t: Type, s: seq<bool>) returns (p: seq<bool>)
    requires DecOpen(t, s).Ok?
    ensures s == p + DecOpen(t, s).rest && OpenRead(t, DecOpen(t, s).value, p)
    decreases t, 4, 0
  {
    hide OctetsRead, GetOctets, Dec, Reads, BytesToBits;
    p := OctetsThere(s);
    var b := GetOctets(s).value;
    var bits := BytesToBits(b);
    var q := ReadsThere(t, bits);
    assert bits[..|q|] == q;
    LeftAgrees(b, Dec(t, bits).rest, |q|);
  }

  lemma {:induction false} LeftAgrees(b: seq<byte>, left: seq<bool>, n: nat)
    requires n <= |BytesToBits(b)| && left == BytesToBits(b)[n..]
    ensures MayRemain(b, left) <==> Left(b, n)
  {
    hide Val, BytesToBits;
    UperRoundTrip.AllClear(left);
    if |b| == 1 && n == 0 {
      assert left == BytesToBits(b);
    }
  }

  // ---- The members of a SEQUENCE ----

  lemma {:induction false} ConcatFirst(part: seq<bool>, parts: seq<seq<bool>>)
    ensures UperLayout.Concat([part] + parts) == part + UperLayout.Concat(parts)
  {
    assert ([part] + parts)[1..] == parts;
  }

  lemma {:induction false} ConcatNone()
    ensures UperLayout.Concat([]) == []
  {
  }

  /** Behind a member the marks go on with the next optional one. */
  lemma {:induction false} NextMarks(t: Type, marks: seq<bool>, i: nat, j: nat)
    requires t.Sequence? && i < j < |t.elements|
    ensures var marks' := if t.elements[i].optional && marks != [] then marks[1..] else marks;
            MarkOf(t, marks', i + 1, j) == MarkOf(t, marks, i, j)
  {
    if t.elements[i].optional && marks != [] {
      var k := Optional(t, i + 1, j);
      assert k < |marks| - 1 ==> marks[1..][k] == marks[k + 1];
    }
  }

  /** What the decoder has made of the members of the root from number `i` on. */
  ghost predicate FromRead(t: Type, i: nat, marks: seq<bool>, f: seq<Option<Value>>, parts: seq<seq<bool>>)
    requires t.Sequence?
  {
    && i + |parts| == RootSize(t) && |f| == |parts|
    && forall j :: 0 <= j < |parts| ==> MemberRead(t, i + j, MarkOf(t, marks, i, i + j), f[j], parts[j])
  }

  lemma {:induction false} FromNext(t: Type, i: nat, marks: seq<bool>, f: seq<Option<Value>>, parts: seq<seq<bool>>)
    requires t.Sequence? && i < RootSize(t) && f != [] && parts != []
    ensures var marks' := if t.elements[i].optional && marks != [] then marks[1..] else marks;
            FromRead(t, i, marks, f, parts) <==>
              && FromRead(t, i + 1, marks', f[1..], parts[1..])
              && MemberRead(t, i, MarkOf(t, marks, i, i), f[0], parts[0])
  {
    hide MemberRead, MarkOf;
    var marks' := if t.elements[i].optional && marks != [] then marks[1..] else marks;
    if FromRead(t, i, marks, f, parts) {
      forall j | 0 <= j < |parts[1..]|
        ensures MemberRead(t, i + 1 + j, MarkOf(t, marks', i + 1, i + 1 + j), f[1..][j], parts[1..][j])
      {
        NextMarks(t, marks, i, i + (j + 1));
        assert MemberRead(t, i + (j + 1), MarkOf(t, marks, i, i + (j + 1)), f[j + 1], parts[j + 1]);
      }
      assert MemberRead(t, i + 0, MarkOf(t, marks, i, i + 0), f[0], parts[0]);
    }
    if FromRead(t, i + 1, marks', f[1..], parts[1..]) && MemberRead(t, i, MarkOf(t, marks, i, i), f[0], parts[0]) {
      forall j | 0 <= j < |parts| ensures MemberRead(t, i + j, MarkOf(t, marks, i, i + j), f[j], parts[j]) {
        if j > 0 {
          NextMarks(t, marks, i, i + j);
          assert MemberRead(t, i + 1 + (j - 1), MarkOf(t, marks', i + 1, i + 1 + (j - 1)), f[1..][j - 1],
                            parts[1..][j - 1]);
        }
      }
    }
  }

  lemma {:induction false} OwnMark(t: Type, marks: seq<bool>, i: nat)
    requires t.Sequence? && i < |t.elements|
    ensures MarkOf(t, marks, i, i) == if t.elements[i].optional && marks != [] then Some(marks[0]) else None
  {
  }

  lemma {:induction false} MembersThere(t: Type, i: nat, marks: seq<bool>, s: seq<bool>)
    returns (parts: seq<seq<bool>>)
    requires t.Sequence? && i <= RootSize(t) && DecMembers(t, i, marks, s).Ok?
    ensures var r := DecMembers(t, i, marks, s);
            && s == UperLayout.Concat(parts) + r.rest && FromRead(t, i, marks, r.value, parts)
            && |r.value| == RootSize(t) - i
    decreases t, 1, |t.elements| - i
  {
    hide Dec, Reads, UperLayout.Concat, FromRead;
    var f := DecMembers(t, i, marks, s).value;
    if i == RootSize(t) {
      parts := [];
      ConcatNone();
      NoneRead(t, i, marks);
    } else {
      var m := t.elements[i];
      var marks' := if m.optional && marks != [] then marks[1..] else marks;
      OwnMark(t, marks, i);
      var part, tail := [], s;
      if !(m.optional && marks != [] && !marks[0]) {
        part := ReadsThere(m.ty, s);
        tail := Dec(m.ty, s).rest;
      }
      assert s == part + tail;
      var rest := MembersThere(t, i + 1, marks', tail);
      parts := [part] + rest;
      ConcatFirst(part, rest);
      assert parts[1..] == rest && f[1..] == DecMembers(t, i + 1, marks', tail).value;
      FromNext(t, i, marks, f, parts);
    }
  }

  lemma {:induction false} NoneRead(t: Type, i: nat, marks: seq<bool>)
    requires t.Sequence? && i == RootSize(t)
    ensures FromRead(t, i, marks, [], [])
  {
  }

  /** Behind an addition the bitmap goes on. */
  lemma {:induction false} AdditionsNext(t: Type, i: nat, marks: seq<bool>, sent: seq<Option<Value>>,
                                         parts: seq<seq<bool>>)
    requires t.Sequence? && i + |sent| == |t.elements| && sent != [] && marks != [] && parts != []
    ensures AdditionsRead(t, i, marks, sent, parts) <==>
              && AdditionsRead(t, i + 1, marks[1..], sent[1..], parts[1..])
              && AdditionRead(t, i, marks[0], sent[0], parts[0])
  {
    hide AdditionRead, UnknownRead;
    var marks', sent', parts' := marks[1..], sent[1..], parts[1..];
    if AdditionsRead(t, i, marks, sent, parts) {
      forall j | 0 <= j < |sent'|
        ensures AdditionRead(t, i + 1 + j, j < |marks'| && marks'[j], sent'[j], parts'[j])
      {
        assert AdditionRead(t, i + (j + 1), j + 1 < |marks| && marks[j + 1], sent[j + 1], parts[j + 1]);
      }
      forall j | |sent'| <= j < |marks'| ensures UnknownRead(marks'[j], parts'[j]) {
        assert UnknownRead(marks[j + 1], parts[j + 1]);
      }
      assert AdditionRead(t, i + 0, marks[0], sent[0], parts[0]);
    }
    if AdditionsRead(t, i + 1, marks', sent', parts') && AdditionRead(t, i, marks[0], sent[0], parts[0]) {
      forall j | 0 <= j < |sent| ensures AdditionRead(t, i + j, j < |marks| && marks[j], sent[j], parts[j]) {
        if j > 0 {
          assert AdditionRead(t, i + 1 + (j - 1), j - 1 < |marks'| && marks'[j - 1], sent'[j - 1], parts'[j - 1]);
        }
      }
      forall j | |sent| <= j < |marks| ensures UnknownRead(marks[j], parts[j]) {
        assert UnknownRead(marks'[j - 1], parts'[j - 1]);
      }
    }
  }

  lemma {:induction false} UnknownThere(marks: seq<bool>, s: seq<bool>) returns (parts: seq<seq<bool>>)
    requires SkipUnknown(marks, s).Ok?
    ensures s == UperLayout.Concat(parts) + SkipUnknown(marks, s).rest && |parts| == |marks|
    ensures forall j :: 0 <= j < |marks| ==> UnknownRead(marks[j], parts[j])
    decreases |marks|
  {
    hide GetOctets, OctetsRead, UperLayout.Concat, UnknownRead;
    if marks == [] {
      parts := [];
      ConcatNone();
    } else {
      var part, tail := FirstUnknown(marks, s);
      var rest := UnknownThere(marks[1..], tail);
      parts := [part] + rest;
      ConcatFirst(part, rest);
      forall j | 0 <= j < |marks| ensures UnknownRead(marks[j], parts[j]) {
        if j > 0 {
          assert UnknownRead(marks[1..][j - 1], rest[j - 1]);
        }
      }
    }
  }

  lemma {:induction false} FirstUnknown(marks: seq<bool>, s: seq<bool>) returns (part: seq<bool>, tail: seq<bool>)
    requires marks != [] && SkipUnknown(marks, s).Ok?
    ensures s == part + tail && UnknownRead(marks[0], part) && SkipUnknown(marks, s) == SkipUnknown(marks[1..], tail)
  {
    hide GetOctets, OctetsRead;
    part, tail := [], s;
    if marks[0] {
      part := OctetsThere(s);
      tail := GetOctets(s).rest;
    }
  }

  lemma {:induction false} AdditionsThere(t: Type, i: nat, marks: seq<bool>, s: seq<bool>)
    returns (parts: seq<seq<bool>>)
    requires t.Sequence? && i <= |t.elements| && DecOpenMembers(t, i, marks, s).Ok?
    ensures var r := DecOpenMembers(t, i, marks, s);
            && s == UperLayout.Concat(parts) + r.rest && i + |r.value| == |t.elements|
            && AdditionsRead(t, i, marks, r.value, parts)
    decreases t, 1, |t.elements| - i
  {
    hide DecOpen, OpenRead, UperLayout.Concat, AdditionsRead, SkipUnknown;
    var f := DecOpenMembers(t, i, marks, s).value;
    if i == |t.elements| {
      parts := UnknownThere(marks, s);
      OnlyUnknown(t, marks, parts);
    } else if marks == [] {
      parts := NothingSent(t, i);
    } else {
      var part, tail := [], s;
      if marks[0] {
        part := OpenThere(t.elements[i].ty, s);
        tail := DecOpen(t.elements[i].ty, s).rest;
      }
      assert s == part + tail;
      var rest := AdditionsThere(t, i + 1, marks[1..], tail);
      parts := [part] + rest;
      ConcatFirst(part, rest);
      assert parts[1..] == rest && f[1..] == DecOpenMembers(t, i + 1, marks[1..], tail).value;
      AdditionsNext(t, i, marks, f, parts);
    }
  }

  lemma {:induction false} OnlyUnknown(t: Type, marks: seq<bool>, parts: seq<seq<bool>>)
    requires t.Sequence? && |parts| == |marks| && forall j :: 0 <= j < |marks| ==> UnknownRead(marks[j], parts[j])
    ensures AdditionsRead(t, |t.elements|, marks, [], parts)
  {
    hide UnknownRead;
  }

  lemma {:induction false} NothingSent(t: Type, i: nat) returns (parts: seq<seq<bool>>)
    requires t.Sequence? && i <= |t.elements|
    ensures UperLayout.Concat(parts) == [] && AdditionsRead(t, i, [], Absent(|t.elements| - i), parts)
  {
    hide OpenRead;
    var n := |t.elements| - i;
    parts := seq(n, _ => []);
    NoBits(parts);
    forall j | 0 <= j < n ensures AdditionRead(t, i + j, false, Absent(n)[j], parts[j]) {
    }
  }

  lemma {:induction false} NoBits(parts: seq<seq<bool>>)
    requires forall j :: 0 <= j < |parts| ==> parts[j] == []
    ensures UperLayout.Concat(parts) == []
  {
    if parts != [] {
      NoBits(parts[1..]);
    }
  }

  lemma {:induction false} MoreThere(t: Type, s: seq<bool>) returns (p: seq<bool>)
    requires t.Sequence? && DecAdditions(t, s).Ok?
    ensures s == p + DecAdditions(t, s).rest && MoreRead(t, DecAdditions(t, s).value, p)
    ensures |DecAdditions(t, s).value| == |t.elements| - RootSize(t)
    decreases t, 2, 0
  {
    hide GetSmallLength, SmallLengthRead, DecOpenMembers, AdditionsRead, UperLayout.Concat;
    var length := SmallLengthThere(s);
    var k, tail := GetSmallLength(s).value, GetSmallLength(s).rest;
    var marks := tail[..k];
    var parts := AdditionsThere(t, RootSize(t), marks, tail[k..]);
    p := length + (marks + UperLayout.Concat(parts));
    assert tail == marks + tail[k..];
  }

  lemma {:induction false} CompletedCompletes(t: Type, root: seq<Option<Value>>, sent: seq<Option<Value>>)
    requires t.Sequence? && |root| == RootSize(t) && |root| + |sent| == |t.elements|
    ensures |Completed(t, sent, Root(t))| == |sent|
    ensures Completes(t, root + Completed(t, sent, Root(t)), sent)
  {
    hide Completed, Listed;
    var f := root + Completed(t, sent, Root(t));
    forall j | 0 <= j < |sent|
      ensures f[|root| + j]
              == if sent[j].None? && InTable(t, |root| + j) then t.elements[|root| + j].default else sent[j]
    {
      UperRoundTrip.CompletedAt(t, sent, Root(t), j);
      ListedIsInTable(t, |root| + j);
    }
  }

  lemma {:induction false} ListedIsInTable(t: Type, i: nat)
    requires t.Sequence? && i < |t.elements|
    ensures Listed(t, i) <==> InTable(t, i)
  {
    if Listed(t, i) {
      var k :| 0 <= k < |t.oms[t.roms..]| && t.oms[t.roms..][k] == i;
      assert t.oms[t.roms + k] == i;
    }
    if k :| t.roms <= k < |t.oms| && t.oms[k] == i {
      assert t.oms[t.roms..][k - t.roms] == i;
    }
  }

  /** The steps of decoding a SEQUENCE: the preamble, the root, and the additions if there are any. */
  lemma {:induction false} Steps(t: Type, s: seq<bool>)
    requires t.Sequence?
    ensures var pre := DecPreamble(t, s);
            if !pre.Ok? then !Dec(t, s).Ok?
            else
              var (extended, marks) := pre.value;
              var body := DecMembers(t, 0, marks, pre.rest);
              if !body.Ok? then !Dec(t, s).Ok?
              else
                var more := if extended then DecAdditions(t, body.rest)
                            else Ok(Absent(|t.elements| - Root(t)), body.rest);
                if more.Ok? then Dec(t, s) == Ok(Fields(body.value + Completed(t, more.value, Root(t))), more.rest)
                else !Dec(t, s).Ok?
  {
    hide DecMembers, DecAdditions, Completed, DecPreamble;
  }

  lemma {:induction false} SequenceThere(t: Type, s: seq<bool>) returns (p: seq<bool>)
    requires t.Sequence? && Dec(t, s).Ok?
    ensures var r := Dec(t, s);
            && s == p + r.rest && r.value.Fields? && |r.value.fields| == |t.elements|
            && SequenceRead(t, r.value.fields, p)
    decreases t, 2, 1
  {
    hide Dec, DecPreamble, DecMembers, DecAdditions, Completed, MoreRead, FromRead, UperLayout.Concat, RootRead,
      TailRead, Whole;
    Steps(t, s);
    PreambleSplit(t, s);
    var (extended, marks) := DecPreamble(t, s).value;
    var s1 := DecPreamble(t, s).rest;
    var root, s2 := DecMembers(t, 0, marks, s1).value, DecMembers(t, 0, marks, s1).rest;
    var parts := MembersThere(t, 0, marks, s1);
    var more, sent := [], Absent(|t.elements| - Root(t));
    if extended {
      more := MoreThere(t, s2);
      sent := DecAdditions(t, s2).value;
    }
    assert s2 == more + Dec(t, s).rest;
    RootFromZero(t, root, extended, marks, parts, sent);
    TailOf(t, root, extended, sent, more);
    p := Whole(t, extended, marks, parts, more);
    WholeAnd(t, extended, marks, parts, more, Dec(t, s).rest);
  }

  lemma {:induction false} WholeAnd(t: Type, extended: bool, marks: seq<bool>, parts: seq<seq<bool>>, more: seq<bool>,
                                    rest: seq<bool>)
    requires t.Sequence?
    ensures Whole(t, extended, marks, parts, more) + rest
            == (if t.firstExtension >= 0 then [extended] else [])
               + (marks + (UperLayout.Concat(parts) + (more + rest)))
  {
  }

  lemma {:induction false} PreambleSplit(t: Type, s: seq<bool>)
    requires t.Sequence? && DecPreamble(t, s).Ok?
    ensures var pre := DecPreamble(t, s);
            && |pre.value.1| == t.roms && (pre.value.0 ==> t.firstExtension >= 0)
            && s == (if t.firstExtension >= 0 then [pre.value.0] else []) + (pre.value.1 + pre.rest)
  {
  }

  lemma {:induction false} RootFromZero(t: Type, root: seq<Option<Value>>, extended: bool, marks: seq<bool>,
                                        parts: seq<seq<bool>>, sent: seq<Option<Value>>)
    requires t.Sequence? && FromRead(t, 0, marks, root, parts) && (extended ==> t.firstExtension >= 0)
    requires |marks| == t.roms && |root| + |sent| == |t.elements|
    ensures var f := root + Completed(t, sent, Root(t));
            |root| == RootSize(t) && |f| == |t.elements| && RootRead(t, f, extended, marks, parts)
  {
    hide MemberRead, MarkOf, Completed;
    var f := root + Completed(t, sent, Root(t));
    forall j | 0 <= j < |parts| ensures MemberRead(t, j, MarkOf(t, marks, 0, j), f[j], parts[j]) {
      assert MemberRead(t, 0 + j, MarkOf(t, marks, 0, 0 + j), root[j], parts[j]);
    }
  }

  lemma {:induction false} TailOf(t: Type, root: seq<Option<Value>>, extended: bool, sent: seq<Option<Value>>,
                                  more: seq<bool>)
    requires t.Sequence? && |root| == RootSize(t) && |root| + |sent| == |t.elements|
    requires if extended then MoreRead(t, sent, more) else NoneOf(sent) && more == []
    ensures var f := root + Completed(t, sent, Root(t)); |f| == |t.elements| && TailRead(t, f, extended, more)
  {
    hide Completed, MoreRead, NoneOf, Completes;
    CompletedCompletes(t, root, sent);
  }

  // ---- Each of those texts is accepted ----

  lemma {:induction false} ReadsTaken(t: Type, v: Value, s: seq<bool>, rest: seq<bool>)
    requires Reads(t, v, s)
    ensures Dec(t, s + rest) == Ok(v, rest)
    decreases t, 6, 0
  {
    hide NumberRead, EnumRead, DecNumber, DecEnum, ChoiceRead, SequenceRead;
    match t
    case Number(ct) => NumberTaken(ct, v.v, s, rest);
    case Enumerated(_, _, _, _) => EnumTaken(t, v.v, s, rest);
    case Choice(_, _, _, _, _, _, _, _) => ChoiceTaken(t, v.present - 1, v.member.value, s, rest);
    case Sequence(_, _, _, _) => SequenceTaken(t, v.fields, s, rest);
  }

  lemma {:induction false} ChoiceTaken(t: Type, i: nat, v: Value, s: seq<bool>, rest: seq<bool>)
    requires t.Choice? && i < |t.elements| && ChoiceRead(t, i, v, s)
    ensures Dec(t, s + rest) == Ok(Chosen(i + 1, Some(v)), rest)
    decreases t, 5, 0
  {
    hide IndexRead, DecIndex, DecOpen, OpenRead, Reads;
    var open, index, body :| IndexRead(t, i, open, index) && AlternativeRead(t, i, open, v, body) && s == index + body;
    IndexTaken(t, i, open, index, body + rest);
    assert s + rest == index + (body + rest);
    if open {
      OpenTaken(t.elements[i].ty, v, body, rest);
    } else {
      ReadsTaken(t.elements[i].ty, v, body, rest);
    }
  }

  lemma {:induction false} OpenTaken(t: Type, v: Value, s: seq<bool>, rest: seq<bool>)
    requires OpenRead(t, v, s)
    ensures DecOpen(t, s + rest) == Ok(v, rest)
    decreases t, 7, 0
  {
    hide OctetsRead, GetOctets, Dec, Reads, BytesToBits, Left, MayRemain;
    var b, n :| OctetsRead(b, s) && 0 <= n <= |BytesToBits(b)| && Reads(t, v, BytesToBits(b)[..n]) && Left(b, n);
    var bits := BytesToBits(b);
    OctetsTaken(b, s, rest);
    ReadsTaken(t, v, bits[..n], bits[n..]);
    assert bits[..n] + bits[n..] == bits;
    LeftAgrees(b, bits[n..], n);
  }

  lemma {:induction false} MembersTaken(t: Type, i: nat, marks: seq<bool>, f: seq<Option<Value>>,
                                        parts: seq<seq<bool>>, rest: seq<bool>)
    requires t.Sequence? && i <= RootSize(t) && FromRead(t, i, marks, f, parts)
    ensures DecMembers(t, i, marks, UperLayout.Concat(parts) + rest) == Ok(f, rest)
    decreases t, 1, |t.elements| - i
  {
    hide Dec, Reads, UperLayout.Concat, FromRead;
    FromSizes(t, i, marks, f, parts);
    if i == RootSize(t) {
      ConcatNone();
      assert parts == [] && [] + rest == rest;
    } else {
      var m := t.elements[i];
      var marks' := if m.optional && marks != [] then marks[1..] else marks;
      OwnMark(t, marks, i);
      FromNext(t, i, marks, f, parts);
      var tail := UperLayout.Concat(parts[1..]) + rest;
      assert parts == [parts[0]] + parts[1..] && f == [f[0]] + f[1..];
      ConcatFirst(parts[0], parts[1..]);
      assert UperLayout.Concat(parts) + rest == parts[0] + tail && [] + tail == tail;
      if !(m.optional && marks != [] && !marks[0]) {
        ReadsTaken(m.ty, f[0].value, parts[0], tail);
      }
      MembersTaken(t, i + 1, marks', f[1..], parts[1..], rest);
    }
  }

  lemma {:induction false} FromSizes(t: Type, i: nat, marks: seq<bool>, f: seq<Option<Value>>, parts: seq<seq<bool>>)
    requires t.Sequence? && FromRead(t, i, marks, f, parts)
    ensures |f| == |parts| == RootSize(t) - i
  {
  }

  lemma {:induction false} UnknownTaken(marks: seq<bool>, parts: seq<seq<bool>>, rest: seq<bool>)
    requires |parts| == |marks| && forall j :: 0 <= j < |marks| ==> UnknownRead(marks[j], parts[j])
    ensures SkipUnknown(marks, UperLayout.Concat(parts) + rest) == Ok((), rest)
    decreases |marks|
  {
    hide GetOctets, OctetsRead, UperLayout.Concat;
    if marks == [] {
      ConcatNone();
      assert parts == [] && [] + rest == rest;
    } else {
      var tail := UperLayout.Concat(parts[1..]) + rest;
      assert parts == [parts[0]] + parts[1..];
      ConcatFirst(parts[0], parts[1..]);
      assert UperLayout.Concat(parts) + rest == parts[0] + tail && [] + tail == tail;
      assert UnknownRead(marks[0], parts[0]);
      assert forall j :: 0 <= j < |marks| - 1 ==> marks[1..][j] == marks[j + 1] && parts[1..][j] == parts[j + 1];
      if marks[0] {
        var b :| OctetsRead(b, parts[0]);
        OctetsTaken(b, parts[0], tail);
      }
      UnknownTaken(marks[1..], parts[1..], rest);
    }
  }

  lemma {:induction false} AdditionsTaken(t: Type, i: nat, marks: seq<bool>, sent: seq<Option<Value>>,
                                          parts: seq<seq<bool>>, rest: seq<bool>)
    requires t.Sequence? && i + |sent| == |t.elements| && AdditionsRead(t, i, marks, sent, parts)
    ensures DecOpenMembers(t, i, marks, UperLayout.Concat(parts) + rest) == Ok(sent, rest)
    decreases t, 1, |t.elements| - i
  {
    hide DecOpen, OpenRead, UperLayout.Concat, AdditionsRead, SkipUnknown;
    AdditionsSizes(t, i, marks, sent, parts);
    if sent == [] {
      AllUnknown(t, i, marks, sent, parts);
      UnknownTaken(marks, parts, rest);
    } else if marks == [] {
      NothingThere(t, i, marks, sent, parts);
      assert UperLayout.Concat(parts) + rest == rest;
    } else {
      AdditionsNext(t, i, marks, sent, parts);
      var tail := UperLayout.Concat(parts[1..]) + rest;
      assert parts == [parts[0]] + parts[1..] && sent == [sent[0]] + sent[1..];
      ConcatFirst(parts[0], parts[1..]);
      assert UperLayout.Concat(parts) + rest == parts[0] + tail && [] + tail == tail;
      if marks[0] {
        OpenTaken(t.elements[i].ty, sent[0].value, parts[0], tail);
      }
      AdditionsTaken(t, i + 1, marks[1..], sent[1..], parts[1..], rest);
    }
  }

  lemma {:induction false} AdditionsSizes(t: Type, i: nat, marks: seq<bool>, sent: seq<Option<Value>>,
                                          parts: seq<seq<bool>>)
    requires t.Sequence? && i + |sent| == |t.elements| && AdditionsRead(t, i, marks, sent, parts)
    ensures |parts| == if |marks| < |sent| then |sent| else |marks|
  {
  }

  lemma {:induction false} AllUnknown(t: Type, i: nat, marks: seq<bool>, sent: seq<Option<Value>>,
                                      parts: seq<seq<bool>>)
    requires t.Sequence? && sent == [] && i == |t.elements| && AdditionsRead(t, i, marks, sent, parts)
    ensures |parts| == |marks| && forall j :: 0 <= j < |marks| ==> UnknownRead(marks[j], parts[j])
  {
    hide UnknownRead;
  }

  lemma {:induction false} NothingThere(t: Type, i: nat, marks: seq<bool>, sent: seq<Option<Value>>,
                                        parts: seq<seq<bool>>)
    requires t.Sequence? && i + |sent| == |t.elements| && marks == [] && AdditionsRead(t, i, marks, sent, parts)
    ensures UperLayout.Concat(parts) == [] && sent == Absent(|sent|)
  {
    hide OpenRead, UperLayout.Concat;
    forall j | 0 <= j < |sent| ensures sent[j].None? && parts[j] == [] {
      assert AdditionRead(t, i + j, false, sent[j], parts[j]);
    }
    NoBits(parts);
  }

  lemma {:induction false} MoreTaken(t: Type, sent: seq<Option<Value>>, s: seq<bool>, rest: seq<bool>)
    requires t.Sequence? && MoreRead(t, sent, s)
    ensures DecAdditions(t, s + rest) == Ok(sent, rest)
    decreases t, 2, 0
  {
    hide GetSmallLength, SmallLengthRead, DecOpenMembers, AdditionsRead, UperLayout.Concat;
    var length, marks, parts :|
      && SmallLengthRead(|marks|, length) && AdditionsRead(t, RootSize(t), marks, sent, parts)
      && s == length + (marks + UperLayout.Concat(parts));
    var fields := UperLayout.Concat(parts) + rest;
    assert s + rest == length + (marks + fields);
    SmallLengthTaken(|marks|, length, marks + fields);
    assert (marks + fields)[..|marks|] == marks && (marks + fields)[|marks|..] == fields;
    AdditionsTaken(t, RootSize(t), marks, sent, parts, rest);
  }

  lemma {:induction false} CompletesCompleted(t: Type, f: seq<Option<Value>>, sent: seq<Option<Value>>)
    requires t.Sequence? && |f| == |t.elements| && Completes(t, f, sent)
    ensures f == f[..RootSize(t)] + Completed(t, sent, Root(t)) && |sent| == |f| - RootSize(t)
  {
    hide Completed, Listed, InTable;
    var n := RootSize(t);
    forall j | 0 <= j < |sent| ensures Completed(t, sent, n)[j] == f[n + j] {
      UperRoundTrip.CompletedAt(t, sent, n, j);
      ListedIsInTable(t, n + j);
    }
    assert f[n..] == Completed(t, sent, n);
  }

  lemma {:induction false} RootTaken(t: Type, f: seq<Option<Value>>, extended: bool, marks: seq<bool>,
                                     parts: seq<seq<bool>>)
    requires t.Sequence? && |f| == |t.elements| && RootRead(t, f, extended, marks, parts)
    ensures FromRead(t, 0, marks, f[..RootSize(t)], parts)
    ensures |marks| == t.roms && (extended ==> t.firstExtension >= 0)
  {
    hide MemberRead, MarkOf;
    forall j | 0 <= j < |parts|
      ensures MemberRead(t, 0 + j, MarkOf(t, marks, 0, 0 + j), f[..RootSize(t)][j], parts[j])
    {
      assert MemberRead(t, j, MarkOf(t, marks, 0, j), f[j], parts[j]);
    }
  }

  lemma {:induction false} PreambleTaken(t: Type, extended: bool, marks: seq<bool>, rest: seq<bool>)
    requires t.Sequence? && |marks| == t.roms && (extended ==> t.firstExtension >= 0)
    ensures DecPreamble(t, (if t.firstExtension >= 0 then [extended] else []) + (marks + rest))
            == Ok((extended, marks), rest)
  {
    var s := (if t.firstExtension >= 0 then [extended] else []) + (marks + rest);
    var s' := if t.firstExtension >= 0 then s[1..] else s;
    assert s' == marks + rest;
    assert s'[..|marks|] == marks && s'[|marks|..] == rest;
  }

  lemma {:induction false} SequenceTaken(t: Type, f: seq<Option<Value>>, s: seq<bool>, rest: seq<bool>)
    requires t.Sequence? && |f| == |t.elements| && SequenceRead(t, f, s)
    ensures Dec(t, s + rest) == Ok(Fields(f), rest)
    decreases t, 5, 0
  {
    hide Dec, DecPreamble, DecMembers, DecAdditions, Completed, MoreRead, FromRead, UperLayout.Concat, RootRead,
      Whole, Completes;
    var extended, marks, parts, more :|
      && RootRead(t, f, extended, marks, parts) && TailRead(t, f, extended, more)
      && s == Whole(t, extended, marks, parts, more);
    var sent :| Completes(t, f, sent) && if extended then MoreRead(t, sent, more) else NoneOf(sent) && more == [];
    var root := f[..RootSize(t)];
    RootTaken(t, f, extended, marks, parts);
    CompletesCompleted(t, f, sent);
    WholeAnd(t, extended, marks, parts, more, rest);
    PreambleTaken(t, extended, marks, UperLayout.Concat(parts) + (more + rest));
    MembersTaken(t, 0, marks, root, parts, more + rest);
    Steps(t, s + rest);
    if extended {
      MoreTaken(t, sent, more, rest);
    } else {
      assert [] + rest == rest;
      assert sent == Absent(|sent|);
    }
  }

  // ---- The decoder exactly ----

  /**
    On any input whatever: the decoder yields a value and leaves the rest exactly when what stands in front of
    the rest is one of the texts told here for that value.
   */
  lemma {:induction false} ReadsExactly(t: Type, v: Value, s: seq<bool>, rest: seq<bool>)
    ensures Dec(t, s + rest) == Ok(v, rest) <==> Reads(t, v, s)
  {
    hide Dec, Reads;
    if Dec(t, s + rest) == Ok(v, rest) {
      var p := ReadsThere(t, s + rest);
      UperRoundTrip.PrefixSame(p, s, rest);
    }
    if Reads(t, v, s) {
      ReadsTaken(t, v, s, rest);
    }
  }
}
