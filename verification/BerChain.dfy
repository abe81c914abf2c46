/**
  The check of a chain of tags on whole values: exactly which nested values are accepted, and
  what is found inside them.
 */
module BerChain {
  import opened Bits
  import opened BerTag
  import opened BerLength
  import opened BerSkip
  import opened BerCheckTags

  // ---- Headers of values ----

  function LengthOctets(t: Tlv): seq<byte> {
    if t.Indefinite? then [0x80] else t.len
  }

  function Header(t: Tlv): nat {
    |t.id| + |LengthOctets(t)|
  }

  /** The length a header announces. */
  function Announced(t: Tlv): int {
    match t
    case Primitive(_, _, content) => |content|
    case Definite(_, _, items) => |EncodeAll(items)|
    case Indefinite(_, _) => -1
  }

  /** What follows the header. */
  function Body(t: Tlv): seq<byte> {
    match t
    case Primitive(_, _, content) => content
    case Definite(_, _, items) => EncodeAll(items)
    case Indefinite(_, items) => EncodeAll(items) + [0, 0]
  }

  lemma {:induction false} EncodeParts(t: Tlv)
    ensures Encode(t) == t.id + (LengthOctets(t) + Body(t))
  {
  }

  /** Reading the header of a segment in any window that contains it. */
  lemma {:induction false} HeaderIn(t: Tlv, w: seq<byte>)
    requires WellFormed(t) && |w| >= Header(t) && w[..Header(t)] == t.id + LengthOctets(t)
    ensures |t.id| >= 1 && |LengthOctets(t)| >= 1 && FetchTag(w) == Got(|t.id|, FetchTag(t.id).value)
    ensures w[0] == t.id[0] && Constructed(w[0]) == !t.Primitive?
    ensures FetchLength(!t.Primitive?, w[|t.id|..]) == Got(|LengthOctets(t)|, Announced(t))
  {
    hide FetchTag, FetchLength, Constructed;
    var rest := w[Header(t)..];
    assert w == t.id + (LengthOctets(t) + rest);
    TagAppend(t.id, LengthOctets(t) + rest);
    assert w[|t.id|..] == LengthOctets(t) + rest;
    if t.Indefinite? {
      IndefiniteLength(LengthOctets(t));
    }
    LengthAppend(!t.Primitive?, LengthOctets(t), rest);
    LengthPrefix(!t.Primitive?, LengthOctets(t), |LengthOctets(t)|);
  }

  lemma {:induction false} BodyAndHeader(t: Tlv)
    ensures |Encode(t)| == Header(t) + |Body(t)|
  {
    EncodeParts(t);
  }

  // ---- Which values are accepted ----

  /** What encloses a header of the chain. */
  datatype Around = Nothing | InDefinite | InIndefinite

  /**
    The headers of `t` and of the first values inside it match the tags from `tagno` on, are all of
    definite or all of indefinite length, and a definite one encloses nothing but the next: `alone`.
   */
  ghost predicate Layered(d: Demand, t: Tlv, tagno: int, step: nat, around: Around, alone: bool)
    decreases |d.tags| - tagno
  {
    && FetchTag(t.id).Got? && Suits(d, t, tagno, step)
    && (around == InDefinite ==> !t.Indefinite? && alone)
    && (around == InIndefinite ==> t.Indefinite?)
    && (tagno < |d.tags| - 1 ==>
          !t.Primitive? && t.items != []
                  && Layered(d, t.items[0], tagno + 1, step + 1, AroundKids(t), |t.items| == 1))
  }

  /** The tag demanded at this place, which may be any in the outermost header of an implicit type, and the form. */
  ghost predicate Suits(d: Demand, t: Tlv, tagno: int, step: nat)
    requires FetchTag(t.id).Got?
  {
    && ((step == 0 && d.mode != 0) || (0 <= tagno < |d.tags| && FetchTag(t.id).value == d.tags[tagno]))
    && if tagno < |d.tags| - 1 then !t.Primitive? else d.lastForm == -1 || d.lastForm == if t.Primitive? then 0 else 1
  }

  ghost function AroundKids(t: Tlv): Around {
    if t.Indefinite? then InIndefinite else InDefinite
  }

  /** The value the last tag belongs to. */
  ghost function Innermost(d: Demand, t: Tlv, tagno: int): Tlv
    decreases |d.tags| - tagno
  {
    if tagno < |d.tags| - 1 && !t.Primitive? && t.items != [] then Innermost(d, t.items[0], tagno + 1) else t
  }

  /** The loop's variables agree with what encloses the next header, in front of `b`. */
  ghost predicate Agrees(c: Chain, around: Around, b: seq<byte>) {
    match around
    case Nothing => c.limit == -1 && c.terminators == 0
    case InDefinite => c.limit == |b| && c.terminators == 0
    case InIndefinite => c.limit == -1 && c.terminators > 0
  }

  /** The turn that reads the header of a value. */
  lemma {:induction false} HeaderTurn(d: Demand, t: Tlv, rest: seq<byte>, tagno: int, step: nat, c: Chain)
    requires WellFormed(t)
    ensures FetchTag(t.id).Got?
    ensures var b := Encode(t) + rest;
            && Header(t) <= |b| && b[Header(t)..] == Body(t) + rest
            && TakeTurn(d, b, tagno, step, c)
               == if Suits(d, t, tagno, step) then Enter(c, !t.Primitive?, Header(t), Announced(t)) else Halt(Fail)
  {
    hide FetchTag, FetchLength, Constructed, Enter, Encode, Body;
    var b := Encode(t) + rest;
    EncodeParts(t);
    assert b[..Header(t)] == t.id + LengthOctets(t);
    HeaderIn(t, b);
  }

  /** The end-of-contents octets of a chain of indefinite lengths match no tag of it. */
  lemma {:induction false} NoValueInside(d: Demand, rest: seq<byte>, tagno: int, step: nat, c: Chain)
    requires c.limit == -1 && c.terminators > 0 && tagno < |d.tags|
    ensures CheckFrom(d, [0, 0] + rest, tagno, step, c).code != Ok
  {
    var b := [0, 0] + rest;
    assert FetchTag(b) == Got(1, 0) && b[1..][0] == 0;
    assert FetchLength(false, b[1..]) == Got(1, 0);
    assert TakeTurn(d, b, tagno, step, c).Halt?;
  }

  lemma {:induction false} NoInput(d: Demand, none: seq<byte>, tagno: int, step: nat, c: Chain)
    requires none == [] && tagno < |d.tags|
    ensures CheckFrom(d, none, tagno, step, c).code == WantMore
  {
  }

  lemma {:induction false} FirstItem(t: Tlv, rest: seq<byte>)
    requires WellFormed(t) && !t.Primitive?
    ensures t.items == [] ==> Body(t) == if t.Definite? then [] else [0, 0]
    ensures t.items != [] ==>
              var tail := EncodeAll(t.items[1..]);
              && WellFormed(t.items[0]) && (tail == [] <==> |t.items| == 1)
              && Body(t) == if t.Definite? then Encode(t.items[0]) + tail else Encode(t.items[0]) + (tail + [0, 0])
  {
    hide Encode, FetchTag, FetchLength;
    if |t.items| > 1 {
      assert EncodeAll(t.items[1..]) == Encode(t.items[1]) + EncodeAll(t.items[1..][1..]);
      NonEmpty(t.items[1]);
    }
  }

  lemma {:induction false} NonEmpty(t: Tlv)
    requires WellFormed(t)
    ensures |Encode(t)| > 0
  {
    SomeContents(t);
  }

  /** The check accepts a value exactly when it is layered as the tags demand. */
  lemma {:induction false} ChainExact(d: Demand, t: Tlv, rest: seq<byte>, tagno: int, step: nat, c: Chain,
                                      around: Around)
    requires WellFormed(t) && tagno < |d.tags| && Agrees(c, around, Encode(t) + rest)
    ensures CheckFrom(d, Encode(t) + rest, tagno, step, c).code == Ok <==>
              Layered(d, t, tagno, step, around, rest == [])
    decreases |d.tags| - tagno
  {
    hide TakeTurn, FetchTag, WellFormed, Encode, Body, EncodeAll, CheckFrom, Layered, Suits,
      Confine;
    var b := Encode(t) + rest;
    HeaderTurn(d, t, rest, tagno, step, c);
    BodyAndHeader(t);
    CheckStep(d, b, tagno, step, c);
    LayeredStep(d, t, tagno, step, around, rest == []);
    EnterExact(t, rest, c, around);
    var turn := TakeTurn(d, b, tagno, step, c);
    if turn.Go? && tagno < |d.tags| - 1 {
      var c' := turn.chain;
      EarlierTag(d, t, tagno, step);
      FirstItem(t, rest);
      if t.items == [] {
        EmptyFails(d, t, rest, tagno + 1, step + 1, c');
      } else {
        var tail := EncodeAll(t.items[1..]);
        var more := if t.Definite? then tail else tail + ([0, 0] + rest);
        ConfinedBody(t, rest, c'.limit);
        ChainExact(d, t.items[0], more, tagno + 1, step + 1, c', AroundKids(t));
        LayeredAlone(d, t.items[0], tagno + 1, step + 1, AroundKids(t), more == [], |t.items| == 1);
      }
    }
  }

  lemma {:induction false} LayeredStep(d: Demand, t: Tlv, tagno: int, step: nat, around: Around, alone: bool)
    ensures Layered(d, t, tagno, step, around, alone) <==>
            && FetchTag(t.id).Got? && Suits(d, t, tagno, step)
            && (around == InDefinite ==> !t.Indefinite? && alone)
            && (around == InIndefinite ==> t.Indefinite?)
            && (tagno < |d.tags| - 1 ==>
                  !t.Primitive? && t.items != []
                  && Layered(d, t.items[0], tagno + 1, step + 1, AroundKids(t), |t.items| == 1))
  {
  }

  /** Whether a value stands alone matters only inside a definite length. */
  lemma {:induction false} LayeredAlone(d: Demand, t: Tlv, tagno: int, step: nat, around: Around, x: bool, y: bool)
    requires around == InDefinite ==> x == y
    ensures Layered(d, t, tagno, step, around, x) == Layered(d, t, tagno, step, around, y)
  {
    hide Suits, FetchTag;
  }

  /** When a header is taken in: lengths all definite or all indefinite, and nothing left over. */
  lemma {:induction false} EnterExact(t: Tlv, rest: seq<byte>, c: Chain, around: Around)
    requires WellFormed(t) && Agrees(c, around, Encode(t) + rest)
    ensures var turn := Enter(c, !t.Primitive?, Header(t), Announced(t));
            && (turn.Go? <==>
                  && (around == InDefinite ==> !t.Indefinite? && rest == [])
                  && (around == InIndefinite ==> t.Indefinite?))
            && (turn.Go? ==>
                  && turn.size == Header(t) && turn.chain.form == FormOf(!t.Primitive?)
                  && turn.chain.length == Announced(t)
                  && turn.chain.consumed == c.consumed + Header(t)
                  && if t.Indefinite? then turn.chain.limit == -1 && turn.chain.terminators > 0
                     else turn.chain.limit == |Body(t)| && turn.chain.terminators == 0)
  {
    hide Encode, FetchTag, FetchLength;
    BodyAndHeader(t);
  }

  lemma {:induction false} EmptyFails(d: Demand, t: Tlv, rest: seq<byte>, tagno: int, step: nat, c: Chain)
    requires !t.Primitive? && t.items == [] && tagno < |d.tags|
    requires if t.Indefinite? then c.limit == -1 && c.terminators > 0 else c.limit == 0
    ensures CheckFrom(d, Confine(Body(t) + rest, c.limit), tagno, step, c).code != Ok
  {
    hide CheckFrom;
    if t.Indefinite? {
      assert Body(t) + rest == [0, 0] + rest;
      NoValueInside(d, rest, tagno, step, c);
    } else {
      assert Body(t) + rest == rest;
      NoInput(d, Confine(rest, 0), tagno, step, c);
    }
  }

  lemma {:induction false} ConfinedBody(t: Tlv, rest: seq<byte>, limit: int)
    requires !t.Primitive? && t.items != []
    requires if t.Indefinite? then limit == -1 else limit == |Body(t)|
    ensures var tail := EncodeAll(t.items[1..]);
            Confine(Body(t) + rest, limit)
            == Encode(t.items[0]) + if t.Definite? then tail else tail + ([0, 0] + rest)
  {
    hide Encode;
  }

  lemma {:induction false} EarlierTag(d: Demand, t: Tlv, tagno: int, step: nat)
    requires FetchTag(t.id).Got? && tagno < |d.tags| - 1 && Suits(d, t, tagno, step)
    ensures !t.Primitive?
  {
  }

  // ---- What is found inside ----

  /**
    A value accepted with a primitive innermost one holds nothing else, and the check stops right in
    front of its contents.
   */
  lemma {:induction false} FoundInside(d: Demand, t: Tlv, rest: seq<byte>, tagno: int, step: nat, c: Chain,
                                       around: Around)
    requires WellFormed(t) && tagno < |d.tags| && Agrees(c, around, Encode(t) + rest)
    requires Layered(d, t, tagno, step, around, rest == [])
    ensures var r, inner := CheckFrom(d, Encode(t) + rest, tagno, step, c), Innermost(d, t, tagno);
            && r.code == Ok && r.form == FormOf(!inner.Primitive?) && r.step == step + |d.tags| - tagno
            && (inner.Primitive? ==>
                  && !t.Indefinite? && r.length == |inner.content| <= |Encode(t)|
                  && r.consumed == c.consumed + |Encode(t)| - |inner.content|
                  && Encode(t)[|Encode(t)| - |inner.content|..] == inner.content)
    decreases |d.tags| - tagno
  {
    hide TakeTurn, FetchTag, WellFormed, Encode, Body, EncodeAll, CheckFrom, Layered, Suits,
      Confine;
    var b := Encode(t) + rest;
    HeaderTurn(d, t, rest, tagno, step, c);
    BodyAndHeader(t);
    CheckStep(d, b, tagno, step, c);
    LayeredStep(d, t, tagno, step, around, rest == []);
    EnterExact(t, rest, c, around);
    var turn := TakeTurn(d, b, tagno, step, c);
    EncodeParts(t);
    if tagno < |d.tags| - 1 {
      var c' := turn.chain;
      FirstItem(t, rest);
      var tail := EncodeAll(t.items[1..]);
      var more := if t.Definite? then tail else tail + ([0, 0] + rest);
      ConfinedBody(t, rest, c'.limit);
      LayeredAlone(d, t.items[0], tagno + 1, step + 1, AroundKids(t), more == [], |t.items| == 1);
      FoundInside(d, t.items[0], more, tagno + 1, step + 1, c', AroundKids(t));
      InnerOnly(d, t, tagno, step);
    } else {
      PrimitiveBody(t);
    }
  }

  lemma {:induction false} PrimitiveBody(t: Tlv)
    ensures t.Primitive? ==> |t.content| <= |Encode(t)|
    ensures t.Primitive? ==> Encode(t)[|Encode(t)| - |t.content|..] == t.content && Announced(t) == |t.content|
  {
    EncodeParts(t);
  }

  /** Around a value of definite length every layer is definite and holds just the next one. */
  lemma {:induction false} InnerOnly(d: Demand, t: Tlv, tagno: int, step: nat)
    requires tagno < |d.tags| - 1 && WellFormed(t) && !t.Primitive? && t.items != []
    requires Layered(d, t.items[0], tagno + 1, step + 1, AroundKids(t), |t.items| == 1)
    ensures Innermost(d, t, tagno) == Innermost(d, t.items[0], tagno + 1)
    ensures !t.items[0].Indefinite? ==> t.Definite? && |t.items| == 1 && Body(t) == Encode(t.items[0])
    ensures t.items[0].Indefinite? ==> t.Indefinite?
  {
    hide Encode, FetchTag, FetchLength, Suits;
    FirstItem(t, []);
    if |t.items| == 1 && t.Definite? {
      assert Encode(t.items[0]) + EncodeAll(t.items[1..]) == Encode(t.items[0]);
    }
  }
}
