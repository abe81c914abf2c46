/**
  What the decoder makes of a well-formed encoding: for every tree of segments, of any
  depth, with definite and indefinite lengths in any mixture, the concatenation of the
  primitive segments, and exactly the octets of the encoding consumed.
 */
module OctetStringTree {
  import opened Bits
  import opened BerTag
  import opened BerLength
  import opened BerSkip
  import opened BerCheckTags
  import opened BerChain
  import opened OctetString
  import opened OctetStringResume

  /** The segments inside a constructed segment. */
  function Kids(t: Tlv): seq<Tlv> {
    if t.Primitive? then [] else t.items
  }

  function Least(i: nat, j: nat): nat {
    if i <= j then i else j
  }

  /**
    Segments below a frame at depth `level` carry the tag expected there, and so on downwards: the one at that
    place among all the type's tags, or the last of them.
   */
  ghost predicate Tagged(td: TypeDesc, t: Tlv, level: nat)
    requires td.Valid()
    decreases t
  {
    forall i :: 0 <= i < |Kids(t)| ==>
      && FetchTag(Kids(t)[i].id) == Got(|Kids(t)[i].id|, td.allTags[Least(level, |td.allTags| - 1)])
      && Tagged(td, Kids(t)[i], level + 1)
  }

  /** The octets of the string: those of the primitive segments, for a BIT STRING without their first octet. */
  function Payload(v: Variant, t: Tlv): seq<byte>
    decreases t, 0
  {
    match t
    case Primitive(_, _, content) => if v == Bit && content != [] then content[1..] else content
    case Definite(_, _, items) => PayloadAll(v, items)
    case Indefinite(_, items) => PayloadAll(v, items)
  }

  function PayloadAll(v: Variant, items: seq<Tlv>): seq<byte>
    decreases items, 1
  {
    if items == [] then [] else Payload(v, items[0]) + PayloadAll(v, items[1..])
  }

  /** The count of unused bits: the first octet of the last segment that has one. */
  function UnusedBits(v: Variant, t: Tlv, before: nat): nat
    decreases t, 0
  {
    match t
    case Primitive(_, _, content) => if v == Bit && content != [] then content[0] else before
    case Definite(_, _, items) => UnusedBitsAll(v, items, before)
    case Indefinite(_, items) => UnusedBitsAll(v, items, before)
  }

  function UnusedBitsAll(v: Variant, items: seq<Tlv>, before: nat): nat
    decreases items, 1
  {
    if items == [] then before else UnusedBitsAll(v, items[1..], UnusedBits(v, items[0], before))
  }

  ghost predicate HasContent(t: Tlv)
    decreases t, 0
  {
    match t
    case Primitive(_, _, content) => content != []
    case Definite(_, _, items) => SomeHasContent(items)
    case Indefinite(_, items) => SomeHasContent(items)
  }

  ghost predicate SomeHasContent(items: seq<Tlv>)
    decreases items, 1
  {
    items != [] && (HasContent(items[0]) || SomeHasContent(items[1..]))
  }

  // ---- Single turns ----

  /** The machine is inside a frame that can take the segment `t` next. */
  ghost predicate Ready(td: TypeDesc, s: State, t: Tlv)
    requires td.Valid() && WellFormed(t)
  {
    && s.phase == 1
    && (s.frames != [] ==>
          var top := s.Top();
          && (top.wantNulls || top.left > 0)
          && (top.left == -1 || top.left >= |Encode(t)|)
          && FetchTag(t.id).value == td.Expected(|s.frames| - 1)
          && (top.wantNulls ==> !([0, 0] <= Encode(t))))
  }

  ghost function NewFrame(s: State, t: Tlv): Frame {
    var left :=
      if t.Indefinite? && s.frames != [] && s.Top().left != -1 then s.Top().left - Header(t) else Announced(t);
    Frame(left, Header(t), t.Indefinite?, false)
  }

  ghost function Entered(s: State, t: Tlv): State {
    s.(frames := s.frames + [NewFrame(s, t)], phase := if t.Primitive? then 2 else 1)
  }

  /** The turn that reads the header of a segment. */
  lemma {:induction false} EnterTurn(td: TypeDesc, s: State, t: Tlv, rest: seq<byte>)
    requires td.Valid() && WellFormed(t) && Ready(td, s, t)
    ensures ExpectPhase(td, s, Encode(t) + rest) == Continue(Entered(s, t), Header(t))
  {
    hide FetchTag, FetchLength, Constructed, Encode, Window, WellFormed;
    WindowHeader(s, t, rest);
    BodyAndHeader(t);
    assert |Encode(t)| == Header(t) + |Body(t)|;
    assert t.Indefinite? || Announced(t) == |Body(t)|;
  }

  /** What the machine sees at the start of a segment that fits the current frame. */
  lemma {:induction false} WindowHeader(s: State, t: Tlv, rest: seq<byte>)
    requires WellFormed(t) && (s.frames != [] ==> s.Top().left == -1 || s.Top().left >= |Encode(t)|)
    ensures var w := Window(s, Encode(t) + rest);
            && |w| >= 2 && Header(t) <= |w| && FetchTag(w) == Got(|t.id|, FetchTag(t.id).value) && |t.id| <= |w|
            && Constructed(w[0]) == !t.Primitive?
            && FetchLength(!t.Primitive?, w[|t.id|..]) == Got(|LengthOctets(t)|, Announced(t))
            && (w[0] == 0 && w[1] == 0 <==> [0, 0] <= Encode(t))
  {
    hide FetchTag, FetchLength, Constructed;
    var w := Window(s, Encode(t) + rest);
    BodyAndHeader(t);
    EncodeParts(t);
    assert w[..Header(t)] == t.id + LengthOctets(t);
    HeaderIn(t, w);
    assert w[0] == Encode(t)[0] && w[1] == Encode(t)[1];
  }

  /** The turn that takes the contents of a primitive segment. */
  lemma {:induction false} LeafTurn(td: TypeDesc, s: State, t: Tlv, rest: seq<byte>)
    requires td.Valid() && t.Primitive? && |s.buf| + |t.content| < SIZE_LIMIT
    ensures var f := NewFrame(s, t);
            ContentPhase(td, Entered(s, t), t.content + rest)
            == Continue(s.(frames := s.frames
                                     + [Frame(0, f.got + |t.content|, false, td.variant == Bit && t.content != [])],
                           phase := 1, buf := s.buf + Payload(td.variant, t),
                           unused := UnusedBits(td.variant, t, s.unused), started := s.started || HasContent(t)),
                        |t.content|)
  {
    var s1, n := Entered(s, t), |t.content|;
    var b := t.content + rest;
    ContentTaken(td, s1, b);
    assert s1.frames[..|s1.frames| - 1] == s.frames;
    assert b[..n] == t.content && (n > 0 ==> b[1..n] == t.content[1..] && b[0] == t.content[0]);
    hide ContentPhase;
  }

  /** The turn that eats end-of-contents octets. */
  lemma {:induction false} EndTurn(td: TypeDesc, s: State, rest: seq<byte>)
    requires td.Valid() && s.frames != [] && s.Top().wantNulls && (s.Top().left == -1 || s.Top().left >= 2)
    ensures var top := s.Top();
            ExpectPhase(td, s, [0, 0] + rest)
            == Continue(s.SetTop(top.(left := 0, got := top.got + 2, wantNulls := false)), 2)
  {
    var b := [0, 0] + rest;
    var w := Window(s, b);
    assert w[0] == 0 && w[1] == 0;
    assert FetchTag(w) == Got(1, 0);
    assert w[1..][0] == 0;
  }

  // ---- Whole segments ----

  /** The state after `n` octets of segments inside the current frame. */
  ghost function Absorb(s: State, n: nat, data: seq<byte>, unused: nat, some: bool): State
    requires s.frames != []
  {
    var top := s.Top();
    s.SetTop(top.(left := if top.left == -1 then -1 else top.left - n, got := top.got + n))
     .(buf := s.buf + data, unused := unused, started := s.started || some)
  }

  ghost function AfterSegment(td: TypeDesc, s: State, t: Tlv): State
    requires s.frames != []
  {
    Absorb(s, |Encode(t)|, Payload(td.variant, t), UnusedBits(td.variant, t, s.unused), HasContent(t))
  }

  ghost function AfterAll(td: TypeDesc, s: State, items: seq<Tlv>): State
    requires s.frames != []
  {
    Absorb(s, |EncodeAll(items)|, PayloadAll(td.variant, items), UnusedBitsAll(td.variant, items, s.unused),
           SomeHasContent(items))
  }

  /** The state in which the segment's own frame is complete but not yet left. */
  ghost function Completed(td: TypeDesc, s: State, t: Tlv): State {
    s.(frames := s.frames + [Frame(0, |Encode(t)|, false, t.Primitive? && td.variant == Bit && t.content != [])],
       buf := s.buf + Payload(td.variant, t),
       unused := UnusedBits(td.variant, t, s.unused), started := s.started || HasContent(t))
  }

  /** The current frame has room for all the segments `items`. */
  ghost predicate Room(s: State, items: seq<Tlv>) {
    && s.phase == 1 && s.frames != []
    && var top := s.Top();
    && (top.left == -1 ==> top.wantNulls)
    && (top.left != -1 ==> top.left >= |EncodeAll(items)|)
    && AllWellFormed(items)
    && (top.wantNulls ==> forall i :: 0 <= i < |items| ==> !([0, 0] <= Encode(items[i])))
  }

  /** Segments inside a frame at depth `level` carry the tag expected there, and so on downwards. */
  ghost predicate AllTagged(td: TypeDesc, items: seq<Tlv>, level: nat)
    requires td.Valid()
  {
    forall i :: 0 <= i < |items| ==> RightTag(td, items[i], level) && Tagged(td, items[i], level + 1)
  }

  ghost predicate RightTag(td: TypeDesc, t: Tlv, level: nat)
    requires td.Valid()
  {
    FetchTag(t.id) == Got(|t.id|, td.Expected(level))
  }

  lemma {:induction false} KidsTagged(td: TypeDesc, t: Tlv, level: nat)
    requires td.Valid() && !t.Primitive?
    ensures Tagged(td, t, level) <==> AllTagged(td, t.items, level)
  {
    hide FetchTag;
    assert Kids(t) == t.items;
  }

  /** Leaving the complete frame of a segment. */
  lemma {:induction false} Leave(td: TypeDesc, mode: int, s: State, t: Tlv, rest: seq<byte>)
    requires td.Valid() && s.phase == 1 && s.frames != [] && (s.Top().left == -1 || s.Top().left >= |Encode(t)|)
    ensures Run(td, mode, Completed(td, s, t), rest) == Run(td, mode, AfterSegment(td, s, t), rest)
  {
    hide Payload, UnusedBits, HasContent, Encode, Run;
    var s1 := Completed(td, s, t);
    var n := |s1.frames|;
    assert s1.frames[n - 2] == s.Top() && s1.frames[..n - 2] == s.frames[..n - 2];
    assert Step(td, mode, s1, rest) == Continue(AfterSegment(td, s, t), 0);
    GoesOn(td, mode, s1, rest);
    assert rest[0..] == rest;
  }

  /** From the first octet of a segment to the completion of its frame. */
  lemma {:induction false} Inside(td: TypeDesc, mode: int, s: State, t: Tlv, rest: seq<byte>)
    requires td.Valid() && WellFormed(t) && Tagged(td, t, |s.frames|) && Ready(td, s, t)
    requires |s.buf| + |Encode(t)| < SIZE_LIMIT
    ensures Run(td, mode, s, Encode(t) + rest) == Run(td, mode, Completed(td, s, t), rest).Plus(|Encode(t)|)
    decreases t, 0
  {
    hide Run, Ready, Payload, UnusedBits, HasContent, WellFormed, Tagged, Completed, Entered, Encode;
    EnterRuns(td, mode, s, t, rest);
    BodyAndHeader(t);
    if t.Primitive? {
      LeafRuns(td, mode, s, t, rest) by { ReadyFacts(td, s, t); }
    } else {
      InsideConstructed(td, mode, s, t, rest);
    }
  }

  /** Reading the header of a segment. */
  lemma {:induction false} EnterRuns(td: TypeDesc, mode: int, s: State, t: Tlv, rest: seq<byte>)
    requires td.Valid() && WellFormed(t) && Ready(td, s, t)
    ensures Sound(td, mode, Entered(s, t))
    ensures Run(td, mode, s, Encode(t) + rest) == Run(td, mode, Entered(s, t), Body(t) + rest).Plus(Header(t))
  {
    hide Run, ExpectPhase, Ready, WellFormed, Entered, Encode;
    ReadyFacts(td, s, t);
    EncodeParts(t);
    EnterTurn(td, s, t, rest);
    var b := Encode(t) + rest;
    assert b[Header(t)..] == Body(t) + rest;
    assert Step(td, mode, s, b) == Continue(Entered(s, t), Header(t));
    hide Step;
    GoesOn(td, mode, s, b);
  }

  /** A primitive segment, from its contents to the completion of its frame. */
  lemma {:induction false} LeafRuns(td: TypeDesc, mode: int, s: State, t: Tlv, rest: seq<byte>)
    requires td.Valid() && t.Primitive? && s.phase == 1 && |s.buf| + |Encode(t)| < SIZE_LIMIT
    requires Sound(td, mode, Entered(s, t))
    ensures Run(td, mode, Entered(s, t), Body(t) + rest) == Run(td, mode, Completed(td, s, t), rest).Plus(|Body(t)|)
  {
    hide Run, ContentPhase, Payload, UnusedBits, HasContent, Encode;
    BodyAndHeader(t);
    LeafTurn(td, s, t, rest);
    var b, s1 := t.content + rest, Entered(s, t);
    assert Step(td, mode, s1, b) == Continue(Completed(td, s, t), |t.content|);
    assert b[|t.content|..] == rest;
    hide Step, Completed, Entered;
    GoesOn(td, mode, s1, b);
  }

  lemma {:induction false} ReadyFacts(td: TypeDesc, s: State, t: Tlv)
    requires td.Valid() && WellFormed(t) && Ready(td, s, t)
    ensures s.phase == 1
    ensures s.frames != [] ==> (s.Top().left == -1 || s.Top().left >= |Encode(t)|)
  {
  }

  lemma {:induction false} InsideConstructed(td: TypeDesc, mode: int, s: State, t: Tlv, rest: seq<byte>)
    requires td.Valid() && WellFormed(t) && Tagged(td, t, |s.frames|) && Ready(td, s, t) && !t.Primitive?
    requires |s.buf| + |Encode(t)| < SIZE_LIMIT
    ensures Run(td, mode, Entered(s, t), Body(t) + rest) == Run(td, mode, Completed(td, s, t), rest).Plus(|Body(t)|)
    decreases t.items, 1
  {
    hide Run, ExpectPhase, Room, Tagged, Ready, WellFormed, AfterAll, Completed, EncodeAll, State.Top, State.SetTop,
      AllTagged, Entered, NewFrame, Encode, Body, Header;
    var s1, items := Entered(s, t), t.items;
    KidsRoom(td, s, t);
    KidsTagged(td, t, |s.frames|);
    OneDeeper(s, t);
    ReadyFacts(td, s, t);
    AfterKids(td, s, t);
    BodySize(t);
    if t.Definite? {
      AllRun(td, mode, s1, items, rest);
    } else {
      var s2 := AfterAll(td, s1, items);
      AllRun(td, mode, s1, items, [0, 0] + rest);
      assert Body(t) + rest == EncodeAll(items) + ([0, 0] + rest);
      EndRuns(td, mode, s2, rest);
    }
  }

  lemma {:induction false} OneDeeper(s: State, t: Tlv)
    ensures |Entered(s, t).frames| == |s.frames| + 1
  {
  }

  /** End-of-contents octets where they are wanted. */
  lemma {:induction false} EndRuns(td: TypeDesc, mode: int, s: State, rest: seq<byte>)
    requires td.Valid() && s.phase == 1 && s.frames != [] && s.Top().wantNulls
    requires s.Top().left == -1 || s.Top().left >= 2
    ensures var top := s.Top();
            Run(td, mode, s, [0, 0] + rest)
            == Run(td, mode, s.SetTop(top.(left := 0, got := top.got + 2, wantNulls := false)), rest).Plus(2)
  {
    hide Run, ExpectPhase;
    EndTurn(td, s, rest);
    GoesOn(td, mode, s, [0, 0] + rest);
    assert ([0, 0] + rest)[2..] == rest;
  }

  lemma {:induction false} BodySize(t: Tlv)
    requires !t.Primitive?
    ensures |EncodeAll(t.items)| <= |Body(t)| <= |Encode(t)|
    ensures Body(t) == if t.Definite? then EncodeAll(t.items) else EncodeAll(t.items) + [0, 0]
  {
    EncodeParts(t);
  }

  /** Everything inside a constructed segment read: its frame is complete, but for the end-of-contents octets. */
  lemma {:induction false} AfterKids(td: TypeDesc, s: State, t: Tlv)
    requires s.phase == 1 && !t.Primitive?
    requires t.Indefinite? ==> var left := NewFrame(s, t).left; left == -1 || left >= |EncodeAll(t.items)| + 2
    ensures Entered(s, t).frames != [] && Entered(s, t).buf == s.buf && Entered(s, t).phase == 1
    ensures var s2 := AfterAll(td, Entered(s, t), t.items);
            && s2.frames != [] && s2.phase == 1
            && (t.Definite? ==> s2 == Completed(td, s, t))
            && (t.Indefinite? ==>
                  && s2.Top().wantNulls && (s2.Top().left == -1 || s2.Top().left >= 2)
                  && s2.SetTop(s2.Top().(left := 0, got := s2.Top().got + 2, wantNulls := false))
                     == Completed(td, s, t))
  {
    hide PayloadAll, UnusedBitsAll, SomeHasContent, EncodeAll, Encode;
    var s1 := Entered(s, t);
    var s2 := AfterAll(td, s1, t.items);
    assert s1.frames[..|s1.frames| - 1] == s.frames;
    assert s2.frames[..|s2.frames| - 1] == s.frames;
    EncodeParts(t);
    assert |Encode(t)| == Header(t) + |Body(t)|;
  }

  /** The frame just entered has room for what the segment holds, and for its end-of-contents octets. */
  lemma {:induction false} KidsRoom(td: TypeDesc, s: State, t: Tlv)
    requires td.Valid() && WellFormed(t) && Ready(td, s, t) && !t.Primitive?
    ensures Room(Entered(s, t), t.items)
    ensures t.Indefinite? ==> var left := NewFrame(s, t).left; left == -1 || left >= |EncodeAll(t.items)| + 2
  {
    hide FetchTag;
    EncodeParts(t);
  }

  /** A segment inside a frame: its octets are consumed and its payload is appended. */
  lemma {:induction false} SegmentRuns(td: TypeDesc, mode: int, s: State, t: Tlv, rest: seq<byte>)
    requires td.Valid() && WellFormed(t) && Tagged(td, t, |s.frames|) && Ready(td, s, t) && s.frames != []
    requires |s.buf| + |Encode(t)| < SIZE_LIMIT
    ensures Run(td, mode, s, Encode(t) + rest) == Run(td, mode, AfterSegment(td, s, t), rest).Plus(|Encode(t)|)
    decreases t, 1
  {
    hide Run, Payload, UnusedBits, HasContent, Encode, WellFormed, Tagged, Ready;
    Inside(td, mode, s, t, rest);
    ReadyFacts(td, s, t);
    Leave(td, mode, s, t, rest);
  }

  lemma {:induction false} AllRun(td: TypeDesc, mode: int, s: State, items: seq<Tlv>, rest: seq<byte>)
    requires td.Valid() && Room(s, items) && AllTagged(td, items, |s.frames| - 1)
    requires |s.buf| + |EncodeAll(items)| < SIZE_LIMIT
    ensures Run(td, mode, s, EncodeAll(items) + rest)
          == Run(td, mode, AfterAll(td, s, items), rest).Plus(|EncodeAll(items)|)
    decreases items, 0
  {
    hide Run, Payload, UnusedBits, HasContent;
    if items == [] {
      assert EncodeAll(items) + rest == rest;
      assert AfterAll(td, s, items) == s;
    } else {
      var t, more := items[0], items[1..];
      assert EncodeAll(items) + rest == Encode(t) + (EncodeAll(more) + rest);
      FirstReady(td, s, items);
      SegmentRuns(td, mode, s, t, EncodeAll(more) + rest);
      var s1 := AfterSegment(td, s, t);
      RoomLeft(td, s, items);
      assert AllTagged(td, more, |s1.frames| - 1);
      AllRun(td, mode, s1, more, rest);
      AbsorbTwice(td, s, items);
    }
  }

  lemma {:induction false} FirstReady(td: TypeDesc, s: State, items: seq<Tlv>)
    requires td.Valid() && Room(s, items) && items != []
    ensures WellFormed(items[0]) && (RightTag(td, items[0], |s.frames| - 1) ==> Ready(td, s, items[0]))
    ensures var top := s.Top();
            && (top.wantNulls || top.left > 0) && (top.left == -1 || top.left >= |Encode(items[0])|)
            && (top.wantNulls ==> !([0, 0] <= Encode(items[0])))
  {
    hide FetchTag, WellFormed;
    var t := items[0];
    SomeContents(t);
    assert |EncodeAll(items)| == |Encode(t)| + |EncodeAll(items[1..])|;
  }

  lemma {:induction false} PayloadSize(v: Variant, t: Tlv)
    ensures |Payload(v, t)| <= |Encode(t)|
    decreases t, 0
  {
    if !t.Primitive? {
      PayloadAllSize(v, t.items);
    }
  }

  lemma {:induction false} PayloadAllSize(v: Variant, items: seq<Tlv>)
    ensures |PayloadAll(v, items)| <= |EncodeAll(items)|
    decreases items, 1
  {
    if items != [] {
      PayloadSize(v, items[0]);
      PayloadAllSize(v, items[1..]);
    }
  }

  lemma {:induction false} RoomLeft(td: TypeDesc, s: State, items: seq<Tlv>)
    requires Room(s, items) && items != []
    ensures Room(AfterSegment(td, s, items[0]), items[1..]) && |AfterSegment(td, s, items[0]).frames| == |s.frames|
    ensures |AfterSegment(td, s, items[0]).buf| + |EncodeAll(items[1..])| <= |s.buf| + |EncodeAll(items)|
  {
    hide FetchTag, WellFormed, Payload, UnusedBits, HasContent;
    PayloadSize(td.variant, items[0]);
    var s1 := AfterSegment(td, s, items[0]);
    assert |s1.frames| == |s.frames|;
    assert forall i :: 0 <= i < |items| - 1 ==> items[1..][i] == items[i + 1];
  }

  lemma {:induction false} AbsorbTwice(td: TypeDesc, s: State, items: seq<Tlv>)
    requires items != [] && s.frames != [] && (s.Top().left == -1 || s.Top().left >= |EncodeAll(items)|)
    ensures AfterAll(td, AfterSegment(td, s, items[0]), items[1..]) == AfterAll(td, s, items)
  {
    hide Payload, UnusedBits, HasContent, Encode;
    var s1 := AfterSegment(td, s, items[0]);
    assert s1.frames[..|s1.frames| - 1] == s.frames[..|s.frames| - 1];
    assert s.buf + Payload(td.variant, items[0]) + PayloadAll(td.variant, items[1..])
        == s.buf + PayloadAll(td.variant, items);
  }

  // ---- The decoder on a whole encoding ----

  /** A BIT STRING is accepted when its count of unused bits makes sense. */
  predicate Acceptable(v: Variant, data: seq<byte>, unused: nat) {
    v == Str || (if data == [] then unused == 0 else unused <= 7)
  }

  /** The octets of the result: for a BIT STRING the unused bits of the last one are zero. */
  function Finished(v: Variant, data: seq<byte>, unused: nat): seq<byte>
    requires Acceptable(v, data, unused)
  {
    if v == Str || data == [] then data
    else data[..|data| - 1] + [ClearLow(data[|data| - 1], unused)]
  }

  /** What decoding `t` has to give. */
  ghost predicate Decoded(v: Variant, t: Tlv, r: Outcome) {
    var data, unused := Payload(v, t), UnusedBits(v, t, 0);
    && r.consumed == |Encode(t)|
    && r.code == (if Acceptable(v, data, unused) then Ok else Fail)
    && (r.code == Ok ==> r.state.buf == Finished(v, data, unused) && r.state.unused == unused)
  }

  lemma {:induction false} FinishTurn(td: TypeDesc, mode: int, s: State, rest: seq<byte>, t: Tlv)
    requires td.Valid() && s.phase == 4
    requires s.buf == Payload(td.variant, t) && s.unused == UnusedBits(td.variant, t, 0)
    requires td.variant == Str ==> s.unused == 0
    ensures Decoded(td.variant, t, Run(td, mode, s, rest).Plus(|Encode(t)|))
  {
    hide Payload, UnusedBits, ClearLow, Encode;
    var n := |s.buf| - 1;
    if n >= 0 && s.unused <= 7 {
      assert s.buf[n := ClearLow(s.buf[n], s.unused)] == s.buf[..n] + [ClearLow(s.buf[n], s.unused)];
    }
  }

  /** How the machine leaves phase 0 on a value whose layers match the tags. */
  lemma {:induction false} LayersRead(td: TypeDesc, mode: int, t: Tlv, rest: seq<byte>)
    requires Proper(td, mode) && WellFormed(t) && Layers(td, mode, t)
    ensures var m, inner := CheckPhase(td, mode, FRESH, Encode(t) + rest), Core(td, mode, t);
            && m.Continue? && m.state == FRESH.(phase := m.state.phase, step := m.state.step, left := m.state.left)
            && (!inner.Primitive? ==> m.state.phase == 1 && m.size == 0)
            && (inner.Primitive? ==>
                  && m.state.phase == 3 && m.state.left == |inner.content| <= |Encode(t)|
                  && m.size == |Encode(t)| - |inner.content|
                  && (Encode(t) + rest)[m.size..] == inner.content + rest)
  {
    hide CheckFrom, Encode, WellFormed, Layered, Innermost;
    var d, b := DemandOf(td, mode), Encode(t) + rest;
    LayeredAlone(d, t, FirstTag(d, 0), 0, Nothing, true, rest == []);
    FoundInside(d, t, rest, FirstTag(d, 0), 0, START, Nothing);
    var inner := Core(td, mode, t);
    if inner.Primitive? {
      var n := |Encode(t)| - |inner.content|;
      assert b[n..] == Encode(t)[n..] + rest;
    }
  }

  /** Modes in which the decoder is called. */
  ghost predicate Proper(td: TypeDesc, mode: int) {
    td.Valid() && -1 <= mode <= 1
  }

  /** The layers of `t` match the tags of the type. */
  ghost predicate Layers(td: TypeDesc, mode: int, t: Tlv) {
    var d := DemandOf(td, mode);
    Layered(d, t, FirstTag(d, 0), 0, Nothing, true)
  }

  /** The value inside the layers of tagging. */
  ghost function Core(td: TypeDesc, mode: int, t: Tlv): Tlv {
    var d := DemandOf(td, mode);
    Innermost(d, t, FirstTag(d, 0))
  }

  lemma {:induction false} StrUnused(t: Tlv, before: nat)
    ensures UnusedBits(Str, t, before) == before
    decreases t, 0
  {
    if !t.Primitive? {
      StrUnusedAll(t.items, before);
    }
  }

  lemma {:induction false} StrUnusedAll(items: seq<Tlv>, before: nat)
    ensures UnusedBitsAll(Str, items, before) == before
    decreases items, 1
  {
    if items != [] {
      StrUnused(items[0], before);
      StrUnusedAll(items[1..], before);
    }
  }

  lemma {:induction false} PrimitiveDecodes(td: TypeDesc, mode: int, t: Tlv, rest: seq<byte>, s: State)
    requires td.Valid() && t.Primitive? && |t.content| < SIZE_LIMIT
    requires s.phase == 3 && s.left == |t.content| && s.buf == [] && s.unused == 0 && !s.started
    ensures Step(td, mode, s, t.content + rest).Continue?
    ensures var m := Step(td, mode, s, t.content + rest);
            && m.size == |t.content| && m.state.phase == 4
            && m.state.buf == Payload(td.variant, t) && m.state.unused == UnusedBits(td.variant, t, 0)
  {
    var b, n := t.content + rest, |t.content|;
    PrimitiveKept(td, s, b);
    assert b[..n] == t.content && (n > 0 ==> b[1..n] == t.content[1..] && b[0] == t.content[0]);
    hide PrimitivePhase;
  }

  /** Layers around a primitive value add nothing to its payload. */
  lemma {:induction false} LayersAddNothing(v: Variant, d: Demand, t: Tlv, tagno: int, step: nat, around: Around,
                                            alone: bool, before: nat)
    requires WellFormed(t) && tagno < |d.tags| && Layered(d, t, tagno, step, around, alone)
    requires Innermost(d, t, tagno).Primitive?
    ensures Payload(v, t) == Payload(v, Innermost(d, t, tagno))
    ensures UnusedBits(v, t, before) == UnusedBits(v, Innermost(d, t, tagno), before)
    ensures !t.Indefinite?
    decreases |d.tags| - tagno
  {
    hide FetchTag, FetchLength, Encode, EncodeAll;
    if tagno < |d.tags| - 1 {
      InnerOnly(d, t, tagno, step);
      var kid := t.items[0];
      LayersAddNothing(v, d, kid, tagno + 1, step + 1, AroundKids(t), |t.items| == 1, before);
      assert t.items[1..] == [];
      assert PayloadAll(v, []) == [] && UnusedBitsAll(v, [], UnusedBits(v, kid, before)) == UnusedBits(v, kid, before);
      assert Payload(v, kid) + [] == Payload(v, kid);
    }
  }

  /** Every tag in `t` is where the decoder wants it: around the string, and on the segments of a constructed one. */
  ghost predicate Fits(td: TypeDesc, mode: int, t: Tlv)
    requires td.Valid()
  {
    Layers(td, mode, t) && (Core(td, mode, t).Primitive? || Tagged(td, t, 0))
  }

  /** Every encoding is decoded to its payload, whatever follows it, under any number of tags. */
  lemma {:induction false} TreeDecodes(td: TypeDesc, mode: int, t: Tlv, rest: seq<byte>)
    requires Proper(td, mode) && WellFormed(t) && Fits(td, mode, t) && |Encode(t)| < SIZE_LIMIT
    ensures Decoded(td.variant, t, Run(td, mode, FRESH, Encode(t) + rest))
  {
    hide Run, CheckPhase, WellFormed, Tagged, Layers, Core, Encode, Decoded, Payload, UnusedBits, HasContent, Completed;
    var b := Encode(t) + rest;
    LayersRead(td, mode, t, rest);
    GoesOn(td, mode, FRESH, b);
    var s := CheckPhase(td, mode, FRESH, b).state;
    if Core(td, mode, t).Primitive? {
      CoreDecodes(td, mode, t, rest, s);
    } else {
      assert b[0..] == b;
      Inside(td, mode, s, t, rest) by { ReadyAtRoot(td, s, t); }
      LeaveRoot(td, mode, s, t, rest);
    }
  }

  lemma {:induction false} CoreDecodes(td: TypeDesc, mode: int, t: Tlv, rest: seq<byte>, s: State)
    requires Proper(td, mode) && WellFormed(t) && Layers(td, mode, t) && Core(td, mode, t).Primitive?
    requires |Core(td, mode, t).content| <= |Encode(t)| < SIZE_LIMIT
    requires s.phase == 3 && s.left == |Core(td, mode, t).content| && s.buf == [] && s.unused == 0 && !s.started
    ensures var c := Core(td, mode, t).content;
            Decoded(td.variant, t, Run(td, mode, s, c + rest).Plus(|Encode(t)| - |c|))
  {
    hide Run, PrimitivePhase, FinishPhase, WellFormed, Encode, Decoded, Payload, UnusedBits, Layered, Innermost,
      CheckPhase;
    var inner, d := Core(td, mode, t), DemandOf(td, mode);
    var b := inner.content + rest;
    PrimitiveDecodes(td, mode, inner, rest, s);
    GoesOn(td, mode, s, b);
    LayersAddNothing(td.variant, d, t, FirstTag(d, 0), 0, Nothing, true, 0);
    StrUnused(t, 0);
    FinishTurn(td, mode, Step(td, mode, s, b).state, b[|inner.content|..], t);
  }

  lemma {:induction false} ReadyAtRoot(td: TypeDesc, s: State, t: Tlv)
    requires td.Valid() && WellFormed(t) && s.phase == 1 && s.frames == []
    ensures Ready(td, s, t)
  {
  }

  lemma {:induction false} LeaveRoot(td: TypeDesc, mode: int, s: State, t: Tlv, rest: seq<byte>)
    requires td.Valid() && s.phase == 1 && s.frames == [] && s.buf == [] && s.unused == 0
    ensures Decoded(td.variant, t, Run(td, mode, Completed(td, s, t), rest).Plus(|Encode(t)|))
  {
    hide Run, Payload, UnusedBits, HasContent, Encode, Decoded;
    var s1 := Completed(td, s, t);
    assert Step(td, mode, s1, rest) == Continue(s1.(phase := 4, frames := []), 0);
    GoesOn(td, mode, s1, rest);
    StrUnused(t, 0);
    assert rest[0..] == rest && [] + Payload(td.variant, t) == Payload(td.variant, t);
    FinishTurn(td, mode, s1.(phase := 4, frames := []), rest, t);
  }

  /**
    However an encoding and what follows it are cut into pieces, but not between two tags, the
    decoder gives the payload.
   */
  lemma {:induction false} DecodesInAnyPieces(td: TypeDesc, mode: int, t: Tlv, rest: seq<byte>, pieces: seq<seq<byte>>)
    requires Proper(td, mode) && WellFormed(t) && Fits(td, mode, t)
    requires pieces != [] && Flatten(pieces) == Encode(t) + rest && |Flatten(pieces)| < SIZE_LIMIT
    requires NeverInChain(td, mode, FRESH, [], pieces)
    ensures Decoded(td.variant, t, Feed(td, mode, FRESH, [], pieces))
  {
    hide Run, Feed, WellFormed, Fits, Decoded, Encode, NeverInChain;
    TreeDecodes(td, mode, t, rest);
    FeedAnySplit(td, mode, FRESH, [], pieces);
    assert [] + Flatten(pieces) == Encode(t) + rest;
  }

  // ---- Segments with another tag ----

  /** A segment whose tag is not the one expected in the current frame ends the decoding. */
  lemma {:induction false} WrongTagTurn(td: TypeDesc, s: State, t: Tlv, rest: seq<byte>)
    requires td.Valid() && WellFormed(t) && s.phase == 1 && s.frames != []
    requires var top := s.Top();
             && (top.wantNulls || top.left > 0) && (top.left == -1 || top.left >= |Encode(t)|)
             && (top.wantNulls ==> !([0, 0] <= Encode(t)))
    requires FetchTag(t.id).value != td.Expected(|s.frames| - 1)
    ensures ExpectPhase(td, s, Encode(t) + rest) == Return(Fail, s, 0)
  {
    hide FetchTag, FetchLength, Constructed, Encode, Window, WellFormed;
    WindowHeader(s, t, rest);
  }

  /** A segment with a wrong tag anywhere inside it ends the decoding. */
  lemma {:induction false} InsideFails(td: TypeDesc, mode: int, s: State, t: Tlv, rest: seq<byte>)
    requires td.Valid() && WellFormed(t) && !Tagged(td, t, |s.frames|) && Ready(td, s, t)
    requires |s.buf| + |Encode(t)| < SIZE_LIMIT
    ensures Run(td, mode, s, Encode(t) + rest).code == Fail
    decreases t, 0
  {
    hide Run, Ready, WellFormed, Room, Encode, EncodeAll, AllTagged;
    assert !t.Primitive?;
    EnterRuns(td, mode, s, t, rest);
    KidsRoom(td, s, t);
    KidsTagged(td, t, |s.frames|);
    BodySize(t);
    var s1 := Entered(s, t);
    assert |s1.frames| == |s.frames| + 1 && s1.buf == s.buf;
    var tail := if t.Definite? then rest else [0, 0] + rest;
    assert Body(t) + rest == EncodeAll(t.items) + tail;
    AllFail(td, mode, s1, t.items, tail);
  }

  lemma {:induction false} AllFail(td: TypeDesc, mode: int, s: State, items: seq<Tlv>, rest: seq<byte>)
    requires td.Valid() && Room(s, items) && !AllTagged(td, items, |s.frames| - 1)
    requires |s.buf| + |EncodeAll(items)| < SIZE_LIMIT
    ensures Run(td, mode, s, EncodeAll(items) + rest).code == Fail
    decreases items, 1
  {
    hide Run, Payload, UnusedBits, HasContent, Room, Ready, ExpectPhase, Tagged, WellFormed, RightTag, Encode;
    assert s.phase == 1 && s.frames != [] by { RoomFacts(s, items); }
    var t, more := items[0], items[1..];
    var b := EncodeAll(items) + rest;
    assert b == Encode(t) + (EncodeAll(more) + rest);
    FirstReady(td, s, items);
    if !RightTag(td, t, |s.frames| - 1) {
      WrongTag(td, t, |s.frames| - 1);
      WrongTagTurn(td, s, t, EncodeAll(more) + rest);
      StopsHere(td, mode, s, b);
    } else if !Tagged(td, t, |s.frames|) {
      InsideFails(td, mode, s, t, EncodeAll(more) + rest);
    } else {
      SegmentRuns(td, mode, s, t, EncodeAll(more) + rest);
      RoomLeft(td, s, items);
      TaggedRest(td, items, |s.frames| - 1);
      AllFail(td, mode, AfterSegment(td, s, t), more, rest);
    }
  }

  lemma {:induction false} RoomFacts(s: State, items: seq<Tlv>)
    requires Room(s, items)
    ensures s.phase == 1 && s.frames != [] && AllWellFormed(items)
  {
  }

  lemma {:induction false} WrongTag(td: TypeDesc, t: Tlv, level: nat)
    requires td.Valid() && WellFormed(t) && !RightTag(td, t, level)
    ensures FetchTag(t.id).Got? && FetchTag(t.id).value != td.Expected(level)
  {
    hide FetchTag, FetchLength;
  }

  lemma {:induction false} TaggedRest(td: TypeDesc, items: seq<Tlv>, level: nat)
    requires td.Valid() && items != [] && !AllTagged(td, items, level)
    requires RightTag(td, items[0], level) && Tagged(td, items[0], level + 1)
    ensures !AllTagged(td, items[1..], level)
  {
    hide RightTag, Tagged;
    var i :| 0 <= i < |items| && !(RightTag(td, items[i], level) && Tagged(td, items[i], level + 1));
    assert items[1..][i - 1] == items[i];
  }

  /** A value whose layers do not match the tags is not accepted. */
  lemma {:induction false} LayersRefused(td: TypeDesc, mode: int, t: Tlv, rest: seq<byte>)
    requires Proper(td, mode) && WellFormed(t) && !Layers(td, mode, t)
    ensures Run(td, mode, FRESH, Encode(t) + rest).code != Ok
  {
    hide CheckFrom, Encode, WellFormed, Layered;
    var d, b := DemandOf(td, mode), Encode(t) + rest;
    LayeredAlone(d, t, FirstTag(d, 0), 0, Nothing, true, rest == []);
    ChainExact(d, t, rest, FirstTag(d, 0), 0, START, Nothing);
    assert Step(td, mode, FRESH, b).Return?;
    hide Run;
    StopsHere(td, mode, FRESH, b);
  }

  /**
    The decoder accepts a value exactly when its tags are where they are wanted and, for a BIT STRING, the
    count of unused bits makes sense.  For a constructed string that means that the segments inside the
    outermost header carry the first of all the type's tags, those inside them the second, and so on.
   */
  lemma {:induction false} AcceptedExactly(td: TypeDesc, mode: int, t: Tlv, rest: seq<byte>)
    requires Proper(td, mode) && WellFormed(t) && |Encode(t)| < SIZE_LIMIT
    ensures Run(td, mode, FRESH, Encode(t) + rest).code == Ok <==>
              Fits(td, mode, t) && Acceptable(td.variant, Payload(td.variant, t), UnusedBits(td.variant, t, 0))
  {
    hide Run, CheckPhase, WellFormed, Tagged, Layers, Core, Encode, Payload, UnusedBits, Acceptable;
    if Fits(td, mode, t) {
      TreeDecodes(td, mode, t, rest);
    } else if !Layers(td, mode, t) {
      LayersRefused(td, mode, t, rest);
    } else {
      var b := Encode(t) + rest;
      LayersRead(td, mode, t, rest);
      GoesOn(td, mode, FRESH, b);
      assert b[0..] == b;
      var s := CheckPhase(td, mode, FRESH, b).state;
      ReadyAtRoot(td, s, t);
      InsideFails(td, mode, s, t, rest);
    }
  }

  /** With a single tag the layers are just the outermost tag. */
  lemma {:induction false} PlainLayers(td: TypeDesc, mode: int, t: Tlv)
    requires Plain(td, mode) && WellFormed(t)
    ensures Layers(td, mode, t) <==> (mode == 0 ==> FetchTag(t.id).value == td.tags[0])
    ensures Core(td, mode, t) == t
  {
    hide FetchTag, FetchLength;
  }

  /** With a single tag: the outermost tag is the type's, and every segment at every depth has the tag wanted there. */
  lemma {:induction false} PlainExactly(td: TypeDesc, mode: int, t: Tlv, rest: seq<byte>)
    requires Plain(td, mode) && WellFormed(t) && |Encode(t)| < SIZE_LIMIT
    ensures Run(td, mode, FRESH, Encode(t) + rest).code == Ok <==>
              && (mode == 0 ==> FetchTag(t.id).value == td.tags[0]) && (t.Primitive? || Tagged(td, t, 0))
              && Acceptable(td.variant, Payload(td.variant, t), UnusedBits(td.variant, t, 0))
  {
    hide Run, WellFormed, Tagged, Layers, Core, Encode, Payload, UnusedBits, Acceptable, FetchTag;
    AcceptedExactly(td, mode, t, rest);
    PlainLayers(td, mode, t);
  }

  /**
    Under more than one tag a constructed string is refused unless the second tag repeats the first of all the
    type's tags: the machine starts again at the outermost header and takes the second for a segment.
   */
  lemma {:induction false} ConstructedUnderTags(td: TypeDesc, t: Tlv)
    requires td.Valid() && |td.tags| >= 2 && WellFormed(t) && Fits(td, 0, t) && !Core(td, 0, t).Primitive?
    ensures td.tags[1] == td.allTags[0]
  {
    hide FetchTag, FetchLength, Encode, EncodeAll;
    var d := DemandOf(td, 0);
    LayeredStep(d, t, 0, 0, Nothing, true);
    LayeredStep(d, t.items[0], 1, 1, AroundKids(t), |t.items| == 1);
    KidsTagged(td, t, 0);
    assert RightTag(td, t.items[0], 0);
  }

  // ---- Examples ----

  /** `[5] IMPLICIT OCTET STRING`, and a value of one octet in one segment with the given tag. */
  const IMPLICIT := TypeDesc([22], [22, 16], Str)

  function OneSegment(id: byte): Tlv {
    Indefinite([0xA5], [Primitive([id], [1], [7])])
  }

  lemma {:induction false} SegmentShape(id: byte)
    requires id == 0x04 || id == 0x85
    ensures WellFormed(OneSegment(id)) && |Encode(OneSegment(id))| == 7
    ensures FetchTag([0xA5]) == Got(1, 22) && FetchTag([id]) == Got(1, if id == 0x04 then 16 else 22)
  {
    var t := OneSegment(id);
    var kid := t.items[0];
    assert FetchLength(false, [1]) == Got(1, 1);
    assert EncodeAll(t.items[1..]) == [];
    assert Encode(kid) == [id, 1, 7] && Encode(kid)[0] != 0;
    assert EncodeAll(t.items) == [id, 1, 7];
  }

  /**
    Segments tagged as section 8.7.3.2 of X.690 prescribes are refused; segments that repeat the
    implicit tag are not.
   */
  lemma {:induction false} SegmentTagExample()
    ensures Run(IMPLICIT, 0, FRESH, Encode(OneSegment(0x04))).code == Fail
    ensures Run(IMPLICIT, 0, FRESH, Encode(OneSegment(0x85))).code == Ok
  {
    hide Run, Encode, WellFormed, FetchTag;
    var bad, good := OneSegment(0x04), OneSegment(0x85);
    SegmentShape(0x04);
    SegmentShape(0x85);
    PlainLayers(IMPLICIT, 0, bad);
    PlainLayers(IMPLICIT, 0, good);
    assert Encode(good) + [] == Encode(good) && Encode(bad) + [] == Encode(bad);
    assert Kids(bad)[0].id == [0x04] && Kids(good)[0].id == [0x85];
    AcceptedExactly(IMPLICIT, 0, good, []);
    LayersRead(IMPLICIT, 0, bad, []);
    GoesOn(IMPLICIT, 0, FRESH, Encode(bad));
    var s := CheckPhase(IMPLICIT, 0, FRESH, Encode(bad)).state;
    assert Encode(bad)[0..] == Encode(bad);
    ReadyAtRoot(IMPLICIT, s, bad);
    InsideFails(IMPLICIT, 0, s, bad, []);
  }
}
