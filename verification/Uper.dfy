/**
  Unaligned PER for a tree of SEQUENCE, CHOICE, ENUMERATED and INTEGER types: what the
  encoders write and the decoders read, as functions of descriptor and value.

  A type descriptor carries the tables its C counterpart does.  The constraints a SEQUENCE or
  CHOICE lays on a member are part of the member's own descriptor here.  A field that is None
  is a null pointer; a member stored inline is never None.
 */
module Uper {
  import opened Bits
  import opened Options
  import opened Integer
  import opened PerSupport

  /** Without a range, `given` tells whether there is a record of constraints at all. */
  datatype Constraint =
    | Unconstrained(given: bool)
    | Range(lb: int, ub: int, rangeBits: nat, extensible: bool)

  /** One entry of a table of members; `default` stands for both default_value_cmp and default_value_set. */
  datatype Member = Member(ty: Type, optional: bool, default: Option<Value>)

  datatype Type =
    | Number(ct: Constraint)
    | Enumerated(values: seq<int>, extension: nat, rangeBits: nat, extensible: bool)
    | Choice(elements: seq<Member>, toCanonical: seq<nat>, fromCanonical: seq<nat>,
             lb: int, ub: int, rangeBits: nat, extensible: bool, extStart: int)
    | Sequence(elements: seq<Member>, oms: seq<nat>, roms: nat, firstExtension: int)

  datatype Value =
    | Native(v: int)
    | Chosen(present: nat, member: Option<Value>)
    | Fields(fields: seq<Option<Value>>)

  datatype Encoded = Bits(bits: seq<bool>) | Refused

  // ---- INTEGER ----

  function EncNumber(ct: Constraint, v: int): Encoded {
    if !FitsSigned(v) then Refused
    else if ct.Unconstrained? then Bits(PutOctets(Contents(v)))
    else
      var inext := v < ct.lb || v > ct.ub;
      if ct.extensible then
        Bits([inext] + (if inext then PutOctets(Contents(v)) else ToBits(v - ct.lb, ct.rangeBits)))
      else if inext then Refused
      else Bits(ToBits(v - ct.lb, ct.rangeBits))
  }

  function DecUnconstrained(s: seq<bool>): Got<Value> {
    var o := GetOctets(s);
    if !o.Ok? then Starved
    else if FitsSigned(SignedVal(o.value)) then Ok(Native(SignedVal(o.value)), o.rest)
    else Failed
  }

  function DecRange(ct: Constraint, s: seq<bool>): (r: Got<Value>)
    requires ct.Range?
    ensures r.Ok? ==> r.value.Native? && r.value.v <= ct.ub
  {
    if ct.rangeBits > 64 then Failed
    else
      var u := Take(s, ct.rangeBits);
      if !u.Ok? then Starved
      else if u.value > ct.ub - ct.lb then Failed
      else Ok(Native(u.value + ct.lb), u.rest)
  }

  function DecNumber(ct: Constraint, s: seq<bool>): Got<Value> {
    if ct.Unconstrained? then DecUnconstrained(s)
    else if !ct.extensible then DecRange(ct, s)
    else if s == [] then Starved
    else if s[0] then DecUnconstrained(s[1..])
    else DecRange(ct, s[1..])
  }

  // ---- ENUMERATED ----

  /** Where a value stands in the sorted table, if it does. */
  function Find(values: seq<int>, v: int): (r: Option<nat>)
    ensures r.Some? ==> r.value < |values| && values[r.value] == v
    ensures r.None? ==> v !in values
  {
    if values == [] then None
    else if values[|values| - 1] == v then Some(|values| - 1)
    else Find(values[..|values| - 1], v)
  }

  /** The number of root values. */
  function Roots(t: Type): int
    requires t.Enumerated?
  {
    if t.extension > 0 then t.extension - 1 else |t.values|
  }

  function EncEnum(t: Type, v: int): Encoded
    requires t.Enumerated?
  {
    var at := Find(t.values, v);
    if at.None? then Refused
    else
      var inext := at.value >= Roots(t);
      var mark := if t.extensible then [inext] else [];
      if inext && !t.extensible then Refused
      else if !inext then Bits(mark + ToBits(at.value, t.rangeBits))
      else if t.extension == 0 then Refused
      else
        var small := PutSmall(at.value - (t.extension - 1));
        if small.None? then Refused else Bits(mark + small.value)
  }

  function DecEnumRoot(t: Type, s: seq<bool>): Got<Value>
    requires t.Enumerated?
  {
    var a := Take(s, t.rangeBits);
    if !a.Ok? then Starved
    else if a.value >= Roots(t) || a.value >= |t.values| then Failed
    else Ok(Native(t.values[a.value]), a.rest)
  }

  function DecEnumExtension(t: Type, s: seq<bool>): Got<Value>
    requires t.Enumerated?
  {
    if t.extension == 0 then Failed
    else
      var a := GetSmall(s);
      if !a.Ok? then Starved
      else if a.value + t.extension - 1 >= |t.values| then Failed
      else Ok(Native(t.values[a.value + t.extension - 1]), a.rest)
  }

  function DecEnum(t: Type, s: seq<bool>): Got<Value>
    requires t.Enumerated?
  {
    if !t.extensible then DecEnumRoot(t, s)
    else if s == [] then Starved
    else if s[0] then DecEnumExtension(t, s[1..])
    else DecEnumRoot(t, s[1..])
  }

  // ---- CHOICE ----

  /** A lookup in one of the order tables, which may be missing. */
  function Reorder(table: seq<nat>, i: nat): nat {
    if i < |table| then table[i] else i
  }

  /** Whether an alternative is outside the extension root. */
  predicate Outside(t: Type, present: nat)
    requires t.Choice? && 1 <= present <= |t.elements|
  {
    var at := Reorder(t.toCanonical, present - 1);
    at < t.lb || at > t.ub
  }

  /** What precedes the chosen alternative. */
  function EncIndex(t: Type, present: nat): Encoded
    requires t.Choice?
  {
    if present == 0 || present > |t.elements| then Refused
    else
      var at := Reorder(t.toCanonical, present - 1);
      if !Outside(t, present) then Bits((if t.extensible then [false] else []) + ToBits(at, t.rangeBits))
      else if !t.extensible || t.extStart == -1 || at < t.extStart then Refused
      else
        var small := PutSmall(at - t.extStart);
        if small.None? then Refused else Bits([true] + small.value)
  }

  function DecRootIndex(t: Type, s: seq<bool>): Got<(nat, bool)>
    requires t.Choice?
  {
    var a := Take(s, t.rangeBits);
    if !a.Ok? then Starved
    else if a.value > t.ub then Failed
    else Ok((Reorder(t.fromCanonical, a.value), false), a.rest)
  }

  function DecExtensionIndex(t: Type, s: seq<bool>): Got<(nat, bool)>
    requires t.Choice?
  {
    if t.extStart == -1 then Failed
    else
      var a := GetSmall(s);
      if !a.Ok? then Starved
      else if !(0 <= a.value + t.extStart < |t.elements|) then Failed
      else Ok((Reorder(t.fromCanonical, a.value + t.extStart), true), a.rest)
  }

  /** The alternative, and whether it is encoded as an open type. */
  function DecIndex(t: Type, s: seq<bool>): Got<(nat, bool)>
    requires t.Choice?
  {
    if !t.extensible then DecRootIndex(t, s)
    else if s == [] then Starved
    else if s[0] then DecExtensionIndex(t, s[1..])
    else DecRootIndex(t, s[1..])
  }

  // ---- SEQUENCE ----

  /** The number of members before the extension additions. */
  function Root(t: Type): (n: nat)
    requires t.Sequence?
    ensures n <= |t.elements|
  {
    if 0 <= t.firstExtension <= |t.elements| then t.firstExtension else |t.elements|
  }

  /** Whether a member is there and is not its DEFAULT, which is left out. */
  function Present(m: Member, f: Option<Value>): bool {
    f.Some? && !(m.default.Some? && Compare(m.ty, f.value, m.default.value) == 0)
  }

  predicate AnyAddition(t: Type, f: seq<Option<Value>>)
    requires t.Sequence? && |f| == |t.elements|
  {
    exists i :: Root(t) <= i < |f| && f[i].Some?
  }

  /** The presence bitmap, in the order of the table of optional members. */
  function Bitmap(t: Type, f: seq<Option<Value>>, oms: seq<nat>): seq<bool>
    requires t.Sequence? && |f| == |t.elements|
  {
    if oms == [] then []
    else [oms[0] < |f| && Present(t.elements[oms[0]], f[oms[0]])] + Bitmap(t, f, oms[1..])
  }

  function EncPreamble(t: Type, f: seq<Option<Value>>): seq<bool>
    requires t.Sequence? && |f| == |t.elements| && t.roms <= |t.oms|
  {
    (if t.firstExtension >= 0 then [AnyAddition(t, f)] else []) + Bitmap(t, f, t.oms[..t.roms])
  }

  /** The extension bit, when there is one, and the presence bitmap. */
  function DecPreamble(t: Type, s: seq<bool>): Got<(bool, seq<bool>)>
    requires t.Sequence?
  {
    if t.firstExtension >= 0 && s == [] then Starved
    else
      var s' := if t.firstExtension >= 0 then s[1..] else s;
      if t.roms > |s'| then Starved
      else Ok((t.firstExtension >= 0 && s[0], s'[..t.roms]), s'[t.roms..])
  }

  /** Which extension additions are present, from number `i` on. */
  function AdditionMarks(t: Type, f: seq<Option<Value>>, i: nat): (marks: seq<bool>)
    requires t.Sequence? && |f| == |t.elements|
    ensures |marks| == if i <= |f| then |f| - i else 0
    decreases |f| - i
  {
    if i >= |f| then [] else [f[i].Some?] + AdditionMarks(t, f, i + 1)
  }

  /** The fields of extension additions after decoding: a missing one gets its DEFAULT if it is listed. */
  function Completed(t: Type, f: seq<Option<Value>>, i: nat): (r: seq<Option<Value>>)
    requires t.Sequence?
    ensures |r| == |f|
    decreases |f|
  {
    if f == [] then []
    else [if f[0].None? && Listed(t, i) then t.elements[i].default else f[0]] + Completed(t, f[1..], i + 1)
  }

  /** Whether a member is among those whose DEFAULT is filled in at the end. */
  predicate Listed(t: Type, i: nat)
    requires t.Sequence?
  {
    i < |t.elements| && t.roms <= |t.oms| && i in t.oms[t.roms..]
  }

  function Absent(n: nat): (f: seq<Option<Value>>)
    ensures |f| == n && forall i :: 0 <= i < n ==> f[i].None?
  {
    seq(n, _ => None)
  }

  // ---- The type tree ----

  function Enc(t: Type, v: Value): Encoded
    decreases t, 1, 0
  {
    match t
    case Number(ct) => if v.Native? then EncNumber(ct, v.v) else Refused
    case Enumerated(_, _, _, _) => if v.Native? then EncEnum(t, v.v) else Refused
    case Choice(_, _, _, _, _, _, _, _) =>
      if !v.Chosen? then Refused
      else
        var index := EncIndex(t, v.present);
        if !index.Bits? || v.member.None? then Refused
        else
          var body := Enc(t.elements[v.present - 1].ty, v.member.value);
          if !body.Bits? then Refused
          else Bits(index.bits + if Outside(t, v.present) then Open(body.bits) else body.bits)
    case Sequence(_, _, _, _) =>
      if !v.Fields? || |v.fields| != |t.elements| || t.roms > |t.oms| then Refused
      else
        var body := EncMembers(t, v.fields, 0);
        var additions := if AnyAddition(t, v.fields) then EncAdditions(t, v.fields) else Bits([]);
        if body.Bits? && additions.Bits? then Bits(EncPreamble(t, v.fields) + body.bits + additions.bits) else Refused
  }

  /** A complete encoding as an open type field. */
  function Open(bits: seq<bool>): seq<bool> {
    PutOctets(OpenOctets(bits))
  }

  /** The root members from number `i` on. */
  function EncMembers(t: Type, f: seq<Option<Value>>, i: nat): Encoded
    requires t.Sequence? && |f| == |t.elements|
    decreases t, 0, |f| - i
  {
    if i >= Root(t) then Bits([])
    else
      var m := t.elements[i];
      if f[i].None? && !m.optional then Refused
      else if !Present(m, f[i]) then EncMembers(t, f, i + 1)
      else
        var head := Enc(m.ty, f[i].value);
        if !head.Bits? then Refused
        else
          var tail := EncMembers(t, f, i + 1);
          if tail.Bits? then Bits(head.bits + tail.bits) else Refused
  }

  /** The length of the bitmap of extension additions, the bitmap, and those that are present. */
  function EncAdditions(t: Type, f: seq<Option<Value>>): Encoded
    requires t.Sequence? && |f| == |t.elements|
    decreases t, 0, |f| + 1
  {
    var length := PutSmallLength(|f| - Root(t));
    var fields := EncOpen(t, f, Root(t));
    if length.None? || !fields.Bits? then Refused
    else Bits(length.value + AdditionMarks(t, f, Root(t)) + fields.bits)
  }

  function EncOpen(t: Type, f: seq<Option<Value>>, i: nat): Encoded
    requires t.Sequence? && |f| == |t.elements|
    decreases t, 0, |f| - i
  {
    if i >= |f| then Bits([])
    else if f[i].None? then EncOpen(t, f, i + 1)
    else
      var head := Enc(t.elements[i].ty, f[i].value);
      if !head.Bits? then Refused
      else
        var tail := EncOpen(t, f, i + 1);
        if tail.Bits? then Bits(Open(head.bits) + tail.bits) else Refused
  }

  function Dec(t: Type, s: seq<bool>): Got<Value>
    decreases t, 1, 0
  {
    match t
    case Number(ct) => DecNumber(ct, s)
    case Enumerated(_, _, _, _) => DecEnum(t, s)
    case Choice(_, _, _, _, _, _, _, _) =>
      var index := DecIndex(t, s);
      if !index.Ok? then Failure(index)
      else
        var (at, open) := index.value;
        if at >= |t.elements| then Failed
        else
          var body := if open then DecOpen(t.elements[at].ty, index.rest) else Dec(t.elements[at].ty, index.rest);
          if body.Ok? then Ok(Chosen(at + 1, Some(body.value)), body.rest) else body
    case Sequence(_, _, _, _) =>
      var pre := DecPreamble(t, s);
      if !pre.Ok? then Failure(pre)
      else
        var (extended, marks) := pre.value;
        var body := DecMembers(t, 0, marks, pre.rest);
        if !body.Ok? then Failure(body)
        else
          var more := if extended then DecAdditions(t, body.rest) else Ok(Absent(|t.elements| - Root(t)), body.rest);
          if more.Ok? then Ok(Fields(body.value + Completed(t, more.value, Root(t))), more.rest) else Failure(more)
  }

  /** An open type field: a failure inside it is final, since nothing more would be given. */
  function DecOpen(t: Type, s: seq<bool>): Got<Value>
    decreases t, 2, 0
  {
    var o := GetOctets(s);
    if !o.Ok? then Starved
    else
      var inner := Dec(t, BytesToBits(o.value));
      if inner.Ok? && MayRemain(o.value, inner.rest) then Ok(inner.value, o.rest) else Failed
  }

  function Failure<T, U>(r: Got<T>): Got<U>
    requires !r.Ok?
  {
    match r
    case Starved => Starved
    case Failed => Failed
  }

  /** The root members from number `i` on; `marks` is what is left of the presence bitmap. */
  function DecMembers(t: Type, i: nat, marks: seq<bool>, s: seq<bool>): Got<seq<Option<Value>>>
    requires t.Sequence?
    decreases t, 0, |t.elements| - i
  {
    if i >= Root(t) then Ok([], s)
    else
      var m := t.elements[i];
      var marks' := if m.optional && marks != [] then marks[1..] else marks;
      if m.optional && marks != [] && !marks[0] then
        var tail := DecMembers(t, i + 1, marks', s);
        if tail.Ok? then Ok([m.default] + tail.value, tail.rest) else tail
      else
        var head := Dec(m.ty, s);
        if !head.Ok? then Failure(head)
        else
          var tail := DecMembers(t, i + 1, marks', head.rest);
          if tail.Ok? then Ok([Some(head.value)] + tail.value, tail.rest) else tail
  }

  /** The extension additions, present or null, and any that are not known here. */
  function DecAdditions(t: Type, s: seq<bool>): Got<seq<Option<Value>>>
    requires t.Sequence?
    decreases t, 0, |t.elements| + 1
  {
    var length := GetSmallLength(s);
    if !length.Ok? || length.value > |length.rest| then Starved
    else DecOpenMembers(t, Root(t), length.rest[..length.value], length.rest[length.value..])
  }

  /** The extension additions from number `i` on; `marks` is what is left of their bitmap. */
  function DecOpenMembers(t: Type, i: nat, marks: seq<bool>, s: seq<bool>): Got<seq<Option<Value>>>
    requires t.Sequence?
    decreases t, 0, |t.elements| - i
  {
    if i >= |t.elements| then
      var skipped := SkipUnknown(marks, s);
      if skipped.Ok? then Ok([], skipped.rest) else Starved
    else if marks == [] then Ok(Absent(|t.elements| - i), s)
    else if !marks[0] then
      var tail := DecOpenMembers(t, i + 1, marks[1..], s);
      if tail.Ok? then Ok([None] + tail.value, tail.rest) else tail
    else
      var head := DecOpen(t.elements[i].ty, s);
      if !head.Ok? then Failure(head)
      else
        var tail := DecOpenMembers(t, i + 1, marks[1..], head.rest);
        if tail.Ok? then Ok([Some(head.value)] + tail.value, tail.rest) else tail
  }

  /** Additions of a later version are passed over. */
  function SkipUnknown(marks: seq<bool>, s: seq<bool>): (r: Got<()>)
    ensures r.Ok? || r.Starved?
    decreases |marks|
  {
    if marks == [] then Ok((), s)
    else if !marks[0] then SkipUnknown(marks[1..], s)
    else
      var o := GetOctets(s);
      if o.Ok? then SkipUnknown(marks[1..], o.rest) else Starved
  }

  // ---- Comparison ----

  function Sign(a: int, b: int): int {
    if a < b then -1 else if a > b then 1 else 0
  }

  /** The alternative a CHOICE value holds, if it holds one. */
  function Held(t: Type, v: Value): (r: Option<Value>)
    requires t.Choice?
    ensures r.Some? ==> v.Chosen? && 1 <= v.present <= |t.elements|
  {
    if v.Chosen? && 1 <= v.present <= |t.elements| then v.member else None
  }

  function Compare(t: Type, a: Value, b: Value): int
    decreases t, 1, 0
  {
    match t
    case Number(_) => if a.Native? && b.Native? then Sign(a.v, b.v) else 1
    case Enumerated(_, _, _, _) => if a.Native? && b.Native? then Sign(a.v, b.v) else 1
    case Choice(_, _, _, _, _, _, _, _) =>
      if Held(t, a).Some? && Held(t, b).Some? then
        if a.present == b.present then Compare(t.elements[a.present - 1].ty, Held(t, a).value, Held(t, b).value)
        else if a.present < b.present then -1
        else 1
      else if Held(t, a).None? then -1
      else 1
    case Sequence(_, _, _, _) =>
      if a.Fields? && b.Fields? && |a.fields| == |b.fields| == |t.elements|
      then CompareMembers(t, a.fields, b.fields, 0)
      else 1
  }

  /** Absent is the same as present and equal to the DEFAULT. */
  function CompareField(m: Member, a: Option<Value>, b: Option<Value>): int
    decreases m.ty, 2, 0
  {
    if a.None? then
      if b.None? || (m.default.Some? && Compare(m.ty, b.value, m.default.value) == 0) then 0 else -1
    else if b.None? then
      if m.default.Some? && Compare(m.ty, a.value, m.default.value) == 0 then 0 else 1
    else Compare(m.ty, a.value, b.value)
  }

  function CompareMembers(t: Type, a: seq<Option<Value>>, b: seq<Option<Value>>, i: nat): int
    requires t.Sequence? && |a| == |b| == |t.elements|
    decreases t, 0, |a| - i
  {
    if i >= |a| then 0
    else
      var ret := CompareField(t.elements[i], a[i], b[i]);
      if ret != 0 then ret else CompareMembers(t, a, b, i + 1)
  }

  // ---- Well-formed descriptors ----

  /** The optional root members from number `i` on. */
  function Optionals(t: Type, i: nat): seq<nat>
    requires t.Sequence?
    decreases |t.elements| - i
  {
    if i >= Root(t) then []
    else (if t.elements[i].optional then [i] else []) + Optionals(t, i + 1)
  }

  predicate Increasing(values: seq<int>) {
    forall i, j :: 0 <= i < j < |values| ==> values[i] < values[j]
  }

  ghost predicate GoodMember(m: Member) {
    m.default.Some? ==> m.optional && Enc(m.ty, m.default.value).Bits?
  }

  /** The two order tables undo each other, and the alternatives outside the root can be numbered. */
  ghost predicate GoodOrder(t: Type)
    requires t.Choice?
  {
    forall i: nat {:trigger Reorder(t.toCanonical, i)} :: i < |t.elements| ==>
      var at := Reorder(t.toCanonical, i);
      && at < |t.elements| && Reorder(t.fromCanonical, at) == i
      && (t.lb <= at <= t.ub ==> at < Pow2(t.rangeBits))
      && (t.extStart != -1 && !(t.lb <= at <= t.ub) ==> at < t.extStart + 64)
  }

  /** The tables of a descriptor agree with each other, as the compiler that generates them ensures. */
  ghost predicate WellFormed(t: Type)
    decreases t, 1
  {
    match t
    case Number(ct) =>
      ct.Range? ==> && FitsSigned(ct.lb) && FitsSigned(ct.ub) && ct.lb <= ct.ub
                    && ct.rangeBits <= 64 && ct.ub - ct.lb < Pow2(ct.rangeBits)
    case Enumerated(values, extension, rangeBits, _) =>
      && Increasing(values) && Roots(t) <= |values| && Roots(t) <= Pow2(rangeBits) && rangeBits <= 31
      && |values| - Roots(t) <= 64
    case Choice(elements, _, _, _, _, rangeBits, _, extStart) =>
      && GoodOrder(t) && rangeBits <= 31 && -1 <= extStart
      && (forall i :: 0 <= i < |elements| ==> WellFormed(elements[i].ty))
    case Sequence(elements, _, _, _) => GoodMembers(t) && |elements| - Root(t) <= 64
  }

  /** A SEQUENCE that is well-formed but for the number of its extension additions. */
  ghost predicate GoodMembers(t: Type)
    requires t.Sequence?
    decreases t, 0
  {
    && t.roms <= |t.oms| && t.oms[..t.roms] == Optionals(t, 0) && t.firstExtension <= |t.elements|
    && (forall i :: t.roms <= i < |t.oms| ==> Root(t) <= t.oms[i] < |t.elements|)
    && (forall i :: 0 <= i < |t.elements| ==> WellFormed(t.elements[i].ty) && GoodMember(t.elements[i]))
  }
}
