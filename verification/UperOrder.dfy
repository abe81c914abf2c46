/**
  The order the comparison of values defines: which way it points, and where it is no order.
 */
module UperOrder {
  import opened Options
  import opened Uper

  // ---- Which way it points ----

  /** Numbers, and the numbers of an enumeration, compare as numbers. */
  lemma NumberOrder(t: Type, a: int, b: int)
    requires t.Number? || t.Enumerated?
    ensures Compare(t, Native(a), Native(b)) == if a < b then -1 else if a == b then 0 else 1
  {
  }

  /** A CHOICE that holds an earlier alternative comes first; with the same one, the members decide. */
  lemma ChoiceOrder(t: Type, i: nat, j: nat, x: Value, y: Value)
    requires t.Choice? && 1 <= i <= |t.elements| && 1 <= j <= |t.elements|
    ensures Compare(t, Chosen(i, Some(x)), Chosen(j, Some(y)))
            == if i < j then -1 else if i > j then 1 else Compare(t.elements[i - 1].ty, x, y)
  {
  }

  /** A CHOICE without a member comes before one that has one, and before any other without, both ways round. */
  lemma UnsetChoice(t: Type, i: nat, j: nat, x: Option<Value>)
    requires t.Choice? && (i == 0 || i > |t.elements|)
    ensures Compare(t, Chosen(i, None), Chosen(j, x)) == -1
    ensures 1 <= j <= |t.elements| && x.Some? ==> Compare(t, Chosen(j, x), Chosen(i, None)) == 1
    ensures Compare(t, Chosen(i, None), Chosen(i, None)) == -1
  {
  }

  /** Two fields count as the same: both absent, both present and equal, or one the DEFAULT and the other absent. */
  ghost predicate Alike(m: Member, a: Option<Value>, b: Option<Value>) {
    if a.Some? && b.Some? then Compare(m.ty, a.value, b.value) == 0
    else if a.None? && b.None? then true
    else m.default.Some? && Compare(m.ty, if a.Some? then a.value else b.value, m.default.value) == 0
  }

  /** The first field in which two SEQUENCE values differ decides; one that is absent comes first. */
  lemma {:induction false} FirstDifference(t: Type, a: seq<Option<Value>>, b: seq<Option<Value>>, i: nat)
    requires t.Sequence? && i < |a| == |b| == |t.elements|
    requires forall j :: 0 <= j < i ==> Alike(t.elements[j], a[j], b[j])
    requires !Alike(t.elements[i], a[i], b[i])
    ensures Compare(t, Fields(a), Fields(b))
            == if a[i].None? then -1 else if b[i].None? then 1
               else Compare(t.elements[i].ty, a[i].value, b[i].value)
    ensures Compare(t, Fields(a), Fields(b)) != 0
  {
    hide Compare, CompareMembers, CompareField;
    Skipped(t, a, b, i);
    DecidingField(t, a, b, i);
    ByMembers(t, a, b);
  }

  /** And they compare equal exactly when there is none. */
  lemma {:induction false} NoDifference(t: Type, a: seq<Option<Value>>, b: seq<Option<Value>>)
    requires t.Sequence? && |a| == |b| == |t.elements|
    ensures Compare(t, Fields(a), Fields(b)) == 0 <==> forall j :: 0 <= j < |a| ==> Alike(t.elements[j], a[j], b[j])
  {
    hide Compare, CompareMembers, CompareField;
    ByMembers(t, a, b);
    if forall j :: 0 <= j < |a| ==> Alike(t.elements[j], a[j], b[j]) {
      Skipped(t, a, b, |a|);
      AtTheEnd(t, a, b);
    } else {
      var i := Earliest(t, a, b);
      FirstDifference(t, a, b, i);
    }
  }

  lemma {:induction false} Earliest(t: Type, a: seq<Option<Value>>, b: seq<Option<Value>>) returns (i: nat)
    requires t.Sequence? && |a| == |b| == |t.elements|
    requires exists j :: 0 <= j < |a| && !Alike(t.elements[j], a[j], b[j])
    ensures i < |a| && !Alike(t.elements[i], a[i], b[i])
    ensures forall j :: 0 <= j < i ==> Alike(t.elements[j], a[j], b[j])
  {
    hide Alike;
    i := 0;
    while Alike(t.elements[i], a[i], b[i])
      invariant i < |a| && forall j :: 0 <= j < i ==> Alike(t.elements[j], a[j], b[j])
      decreases |a| - i
    {
      i := i + 1;
    }
  }

  lemma {:induction false} ByMembers(t: Type, a: seq<Option<Value>>, b: seq<Option<Value>>)
    requires t.Sequence? && |a| == |b| == |t.elements|
    ensures Compare(t, Fields(a), Fields(b)) == CompareMembers(t, a, b, 0)
  {
    hide CompareMembers;
  }

  lemma {:induction false} AtTheEnd(t: Type, a: seq<Option<Value>>, b: seq<Option<Value>>)
    requires t.Sequence? && |a| == |b| == |t.elements|
    ensures CompareMembers(t, a, b, |a|) == 0
  {
  }

  lemma {:induction false} Skipped(t: Type, a: seq<Option<Value>>, b: seq<Option<Value>>, i: nat)
    requires t.Sequence? && i <= |a| == |b| == |t.elements|
    requires forall j :: 0 <= j < i ==> Alike(t.elements[j], a[j], b[j])
    ensures CompareMembers(t, a, b, 0) == CompareMembers(t, a, b, i)
  {
    hide Compare;
    if i > 0 {
      Skipped(t, a, b, i - 1);
      assert Alike(t.elements[i - 1], a[i - 1], b[i - 1]);
    }
  }

  lemma {:induction false} DecidingField(t: Type, a: seq<Option<Value>>, b: seq<Option<Value>>, i: nat)
    requires t.Sequence? && i < |a| == |b| == |t.elements| && !Alike(t.elements[i], a[i], b[i])
    ensures CompareMembers(t, a, b, i)
            == if a[i].None? then -1 else if b[i].None? then 1
               else Compare(t.elements[i].ty, a[i].value, b[i].value)
    ensures CompareMembers(t, a, b, i) != 0
  {
    hide Compare;
  }

  // ---- Both ways round ----

  /** A value of the type: every CHOICE in it holds one of its alternatives. */
  ghost predicate Whole(t: Type, v: Value)
    decreases t
  {
    match t
    case Number(_) => v.Native?
    case Enumerated(_, _, _, _) => v.Native?
    case Choice(elements, _, _, _, _, _, _, _) =>
      && v.Chosen? && 1 <= v.present <= |elements| && v.member.Some?
      && Whole(elements[v.present - 1].ty, v.member.value)
    case Sequence(elements, _, _, _) =>
      && v.Fields? && |v.fields| == |elements|
      && forall i :: 0 <= i < |elements| && v.fields[i].Some? ==> Whole(elements[i].ty, v.fields[i].value)
  }

  /** Comparing two values the other way round gives the opposite sign. */
  lemma {:induction false} Antisymmetric(t: Type, a: Value, b: Value)
    requires Whole(t, a) && Whole(t, b)
    ensures Compare(t, b, a) == -Compare(t, a, b)
    decreases t, 1, 0
  {
    hide CompareMembers;
    match t
    case Number(_) =>
    case Enumerated(_, _, _, _) =>
    case Choice(_, _, _, _, _, _, _, _) =>
      if a.present == b.present {
        Antisymmetric(t.elements[a.present - 1].ty, a.member.value, b.member.value);
      }
    case Sequence(_, _, _, _) => AntisymmetricMembers(t, a.fields, b.fields, 0);
  }

  ghost predicate WholeFields(t: Type, f: seq<Option<Value>>)
    requires t.Sequence? && |f| == |t.elements|
  {
    forall i :: 0 <= i < |f| && f[i].Some? ==> Whole(t.elements[i].ty, f[i].value)
  }

  lemma {:induction false} AntisymmetricMembers(t: Type, a: seq<Option<Value>>, b: seq<Option<Value>>, i: nat)
    requires t.Sequence? && |a| == |b| == |t.elements| && WholeFields(t, a) && WholeFields(t, b)
    ensures CompareMembers(t, b, a, i) == -CompareMembers(t, a, b, i)
    decreases t, 0, |a| - i
  {
    hide Compare, Whole;
    if i < |a| {
      if a[i].Some? && b[i].Some? {
        Antisymmetric(t.elements[i].ty, a[i].value, b[i].value);
      }
      AntisymmetricMembers(t, a, b, i + 1);
    }
  }

  // ---- When it is an order ----

  /** No member with a DEFAULT is left out. */
  ghost predicate Explicit(t: Type, v: Value)
    decreases t
  {
    match t
    case Number(_) => true
    case Enumerated(_, _, _, _) => true
    case Choice(elements, _, _, _, _, _, _, _) =>
      v.Chosen? && 1 <= v.present <= |elements| && v.member.Some? ==>
        Explicit(elements[v.present - 1].ty, v.member.value)
    case Sequence(elements, _, _, _) =>
      v.Fields? && |v.fields| == |elements| ==>
        forall i :: 0 <= i < |elements| ==>
          if v.fields[i].Some? then Explicit(elements[i].ty, v.fields[i].value) else elements[i].default.None?
  }

  /** Between values that spell out every DEFAULT the comparison is an order. */
  lemma {:induction false} Ordered(t: Type, a: Value, b: Value, c: Value)
    requires Whole(t, a) && Whole(t, b) && Whole(t, c) && Explicit(t, a) && Explicit(t, b) && Explicit(t, c)
    requires Compare(t, a, b) <= 0 && Compare(t, b, c) <= 0
    ensures Compare(t, a, c) <= 0
    ensures Compare(t, a, c) == 0 <==> Compare(t, a, b) == 0 && Compare(t, b, c) == 0
    decreases t, 1, 0
  {
    hide CompareMembers;
    match t
    case Number(_) =>
    case Enumerated(_, _, _, _) =>
    case Choice(_, _, _, _, _, _, _, _) =>
      if a.present == b.present == c.present {
        Ordered(t.elements[a.present - 1].ty, a.member.value, b.member.value, c.member.value);
      }
    case Sequence(_, _, _, _) => OrderedMembers(t, a.fields, b.fields, c.fields, 0);
  }

  ghost predicate ExplicitFields(t: Type, f: seq<Option<Value>>)
    requires t.Sequence? && |f| == |t.elements|
  {
    && WholeFields(t, f)
    && forall i :: 0 <= i < |f| ==>
         if f[i].Some? then Explicit(t.elements[i].ty, f[i].value) else t.elements[i].default.None?
  }

  lemma {:induction false} OrderedField(m: Member, a: Option<Value>, b: Option<Value>, c: Option<Value>)
    requires forall x :: x in {a, b, c} ==>
               if x.Some? then Whole(m.ty, x.value) && Explicit(m.ty, x.value) else m.default.None?
    requires CompareField(m, a, b) <= 0 && CompareField(m, b, c) <= 0
    ensures CompareField(m, a, c) <= 0
    ensures CompareField(m, a, c) == 0 <==> CompareField(m, a, b) == 0 && CompareField(m, b, c) == 0
    decreases m.ty, 2, 0
  {
    hide Compare, Whole, Explicit;
    assert a in {a, b, c} && b in {a, b, c} && c in {a, b, c};
    if a.Some? && b.Some? && c.Some? {
      Ordered(m.ty, a.value, b.value, c.value);
    }
  }

  lemma {:induction false} OrderedMembers(t: Type, a: seq<Option<Value>>, b: seq<Option<Value>>,
                                          c: seq<Option<Value>>, i: nat)
    requires t.Sequence? && |a| == |b| == |c| == |t.elements|
    requires ExplicitFields(t, a) && ExplicitFields(t, b) && ExplicitFields(t, c)
    requires CompareMembers(t, a, b, i) <= 0 && CompareMembers(t, b, c, i) <= 0
    ensures CompareMembers(t, a, c, i) <= 0
    ensures CompareMembers(t, a, c, i) == 0 <==> CompareMembers(t, a, b, i) == 0 && CompareMembers(t, b, c, i) == 0
    decreases t, 0, |a| - i
  {
    hide CompareField, Whole, Explicit;
    if i < |a| {
      OrderedField(t.elements[i], a[i], b[i], c[i]);
      if CompareField(t.elements[i], a[i], b[i]) == 0 && CompareField(t.elements[i], b[i], c[i]) == 0 {
        OrderedMembers(t, a, b, c, i + 1);
      }
    }
  }

  /**
    With a DEFAULT left out it need not be one: an absent member comes before every other value and is equal to
    the DEFAULT.  The three go round in a circle exactly when the other value comes before the DEFAULT.
   */
  lemma {:induction false} DefaultCircle(t: Type, f: seq<Option<Value>>, i: nat, v: Value)
    requires t.Sequence? && i < |f| == |t.elements| && t.elements[i].default.Some?
    requires Whole(t, Fields(f)) && Whole(t.elements[i].ty, v)
    requires Whole(t.elements[i].ty, t.elements[i].default.value)
    ensures var d := t.elements[i].default;
            var absent, other, equal := Fields(f[i := None]), Fields(f[i := Some(v)]), Fields(f[i := d]);
            && Compare(t, absent, equal) == 0
            && (Compare(t, absent, other) < 0 && Compare(t, other, equal) < 0
                <==> Compare(t.elements[i].ty, v, d.value) < 0)
  {
    hide Compare, CompareMembers, CompareField, Whole, Explicit;
    var m := t.elements[i];
    var absent, other, equal := f[i := None], f[i := Some(v)], f[i := m.default];
    SelfEqual(m.ty, m.default.value);
    SameBut(t, f, i, None, m.default);
    SameBut(t, f, i, None, Some(v));
    SameBut(t, f, i, Some(v), m.default);
    NoDifference(t, absent, equal);
    NoDifference(t, absent, other);
    NoDifference(t, other, equal);
    if Compare(m.ty, v, m.default.value) != 0 {
      FirstDifference(t, absent, other, i);
      FirstDifference(t, other, equal, i);
    }
  }

  lemma {:induction false} SameBut(t: Type, f: seq<Option<Value>>, i: nat, x: Option<Value>, y: Option<Value>)
    requires t.Sequence? && i < |f| == |t.elements| && Whole(t, Fields(f))
    ensures forall j :: 0 <= j < |f| && j != i ==> Alike(t.elements[j], f[i := x][j], f[i := y][j])
  {
    hide Compare;
    forall j | 0 <= j < |f| && j != i ensures Alike(t.elements[j], f[i := x][j], f[i := y][j]) {
      if f[j].Some? {
        SelfEqual(t.elements[j].ty, f[j].value);
      }
    }
  }

  lemma {:induction false} SelfEqual(t: Type, v: Value)
    requires Whole(t, v)
    ensures Compare(t, v, v) == 0
  {
    hide Compare, Whole;
    Antisymmetric(t, v, v);
  }

  /** INTEGER DEFAULT 5: absent is less than 3, 3 is less than 5, and 5 is equal to absent. */
  lemma {:induction false} DefaultExample()
    ensures var t := Sequence([Member(Number(Unconstrained(false)), true, Some(Native(5)))], [0], 1, -1);
            && Compare(t, Fields([None]), Fields([Some(Native(3))])) == -1
            && Compare(t, Fields([Some(Native(3))]), Fields([Some(Native(5))])) == -1
            && Compare(t, Fields([Some(Native(5))]), Fields([None])) == 0
  {
    hide Compare;
    var m := Member(Number(Unconstrained(false)), true, Some(Native(5)));
    var t := Sequence([m], [0], 1, -1);
    NumberOrder(m.ty, 3, 5);
    NumberOrder(m.ty, 5, 5);
    FirstDifference(t, [None], [Some(Native(3))], 0);
    FirstDifference(t, [Some(Native(3))], [Some(Native(5))], 0);
    NoDifference(t, [Some(Native(5))], [None]);
  }
}
