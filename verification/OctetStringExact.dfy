/**
  The OCTET STRING decoder on any input at all: what it accepts is exactly what begins with a
  well-formed value, whose tags are where they are wanted.
 */
module OctetStringExact {
  import opened Bits
  import opened BerTag
  import opened BerLength
  import opened BerSkip
  import opened BerCheckTags
  import opened BerChain
  import opened BerHeaders
  import opened OctetString
  import opened OctetStringResume
  import opened OctetStringTree

  // ---- One header ----

  /** The octets of a header, cut in two, are identifier octets and length octets. */
  lemma {:induction false} HeadOctets(b: seq<byte>, h: Head) returns (id: seq<byte>, len: seq<byte>)
    requires IsHead(b, h)
    ensures |id| + |len| == h.size <= |b| && b[..h.size] == id + len && id != [] && len != []
    ensures IsTag(id, h.constructed) && FetchTag(id).value == h.tag
    ensures FetchLength(h.constructed, len) == Got(|len|, h.length)
  {
    hide FetchTag, FetchLength, Constructed;
    var n := FetchTag(b).size;
    TagPrefix(b, n);
    var tail := b[n..];
    LengthPrefix(h.constructed, tail, h.size - n);
    id, len := b[..n], tail[..h.size - n];
    LengthPrefix(h.constructed, len, |len|);
  }

  lemma {:induction false} IndefiniteOctets(constructed: bool, len: seq<byte>)
    requires FetchLength(constructed, len) == Got(|len|, -1)
    ensures constructed && len == [0x80]
  {
    if len != [] && 0x80 <= len[0] < 0xFF {
      LengthTailSize(len, 1, len[0] - 0x80, 0);
    }
  }

  /** The value a header stands in front of, when its contents are there. */
  lemma {:induction false} PrimitiveThere(b: seq<byte>, h: Head) returns (t: Tlv)
    requires IsHead(b, h) && !h.constructed && 0 <= h.length <= |b| - h.size
    ensures WellFormed(t) && t.Primitive? && Encode(t) == b[..h.size + h.length] && |Encode(t)| == h.size + h.length
    ensures FetchTag(t.id).value == h.tag
  {
    hide FetchTag, FetchLength, IsHead;
    var id, len := HeadOctets(b, h);
    var content := b[h.size..h.size + h.length];
    t := Primitive(id, len, content);
    assert b[..h.size + h.length] == b[..h.size] + content;
  }

  lemma {:induction false} DefiniteThere(b: seq<byte>, h: Head, items: seq<Tlv>) returns (t: Tlv)
    requires IsHead(b, h) && h.constructed && 0 <= h.length <= |b| - h.size
    requires AllWellFormed(items) && EncodeAll(items) == b[h.size..h.size + h.length]
    ensures WellFormed(t) && t.Definite? && Encode(t) == b[..h.size + h.length] && |Encode(t)| == h.size + h.length
    ensures FetchTag(t.id).value == h.tag
  {
    hide FetchTag, FetchLength, IsHead;
    var id, len := HeadOctets(b, h);
    t := Definite(id, len, items);
    assert b[..h.size + h.length] == b[..h.size] + b[h.size..h.size + h.length];
  }

  lemma {:induction false} IndefiniteThere(b: seq<byte>, h: Head, items: seq<Tlv>) returns (t: Tlv)
    requires IsHead(b, h) && h.length == -1
    requires AllWellFormed(items) && forall i :: 0 <= i < |items| ==> !([0, 0] <= Encode(items[i]))
    requires EncodeAll(items) + [0, 0] <= b[h.size..]
    ensures WellFormed(t) && t.Indefinite? && |Encode(t)| == h.size + |EncodeAll(items)| + 2 <= |b|
    ensures Encode(t) == b[..|Encode(t)|] && FetchTag(t.id).value == h.tag
  {
    hide FetchTag, FetchLength, IsHead;
    hide Encode, EncodeAll;
    var id, len := HeadOctets(b, h);
    IndefiniteOctets(h.constructed, len);
    t := Indefinite(id, items);
    IndefiniteSpelled(id, items);
    var n := |EncodeAll(items)| + 2;
    assert b[h.size..][..n] == EncodeAll(items) + [0, 0];
    assert b[..h.size + n] == b[..h.size] + b[h.size..][..n];
  }

  lemma {:induction false} IndefiniteSpelled(id: seq<byte>, items: seq<Tlv>)
    ensures Encode(Indefinite(id, items)) == id + [0x80] + (EncodeAll(items) + [0, 0])
  {
  }

  // ---- The turns of a run that succeeds ----

  /** A call that succeeds does not end with a turn of the first four phases. */
  lemma {:induction false} TurnsOn(td: TypeDesc, mode: int, s: State, b: seq<byte>) returns (m: Move)
    requires td.Valid() && Sound(td, mode, s) && s.phase < 4 && Run(td, mode, s, b).code == Ok
    ensures m == Step(td, mode, s, b) && m.Continue? && m.size <= |b| && Sound(td, mode, m.state)
    ensures Run(td, mode, m.state, b[m.size..]).code == Ok
  {
    hide Run, CheckPhase, ExpectPhase, ContentPhase, PrimitivePhase;
    m := Step(td, mode, s, b);
    if m.Return? {
      NoSuccess(td, mode, s, b);
      hide Step;
      StopsHere(td, mode, s, b);
    } else {
      hide Step;
      GoesOn(td, mode, s, b);
    }
  }

  lemma {:induction false} NoSuccess(td: TypeDesc, mode: int, s: State, b: seq<byte>)
    requires td.Valid() && Sound(td, mode, s) && s.phase < 4 && Step(td, mode, s, b).Return?
    ensures Step(td, mode, s, b).code != Ok
  {
    hide CheckTags, CanHold, FetchTag, FetchLength, Constructed, Append;
  }

  /** The current frame can take more: it is not complete, and its limit is known or end-of-contents octets close it. */
  ghost predicate Open(s: State) {
    s.phase == 1 && (s.frames != [] ==> Bounded(s) && !Complete(s.Top()))
  }

  ghost predicate Bounded(s: State)
    requires s.frames != []
  {
    s.Top().left >= if s.Top().wantNulls then -1 else 0
  }

  /** A header as the machine takes it in the current frame. */
  ghost predicate Takes(td: TypeDesc, s: State, h: Head)
    requires td.Valid()
  {
    s.frames != [] ==>
      && h.tag == td.Expected(|s.frames| - 1)
      && (s.Top().left == -1 || s.Top().left >= h.size + if h.length == -1 then 0 else h.length)
  }

  ghost function Pushed(s: State, h: Head): State {
    var left := if s.frames != [] && s.Top().left != -1 && h.length == -1 then s.Top().left - h.size else h.length;
    s.(frames := s.frames + [Frame(left, h.size, h.length == -1, false)], phase := if h.constructed then 1 else 2)
  }

  /** What a turn in an open frame that does not end the call has read: end-of-contents octets, or a header. */
  lemma {:induction false} HeaderRead(td: TypeDesc, s: State, b: seq<byte>) returns (h: Head)
    requires td.Valid() && Open(s) && ExpectPhase(td, s, b).Continue?
    requires !(s.frames != [] && s.Top().wantNulls && [0, 0] <= b)
    ensures IsHead(b, h) && Takes(td, s, h) && ExpectPhase(td, s, b) == Continue(Pushed(s, h), h.size)
  {
    hide FetchTag, FetchLength, Constructed;
    var w := Window(s, b);
    TagPrefix(w, |w|);
    var tl, constructed := FetchTag(w).size, Constructed(w[0]);
    LengthPrefix(constructed, w[tl..], |w| - tl);
    var length := FetchLength(constructed, w[tl..]);
    h := Head(FetchTag(w).value, constructed, tl + length.size, length.value);
    assert IsHead(w, h);
    InWindow(b, |w|, h);
  }

  /** End-of-contents octets where they are wanted need two octets of the frame. */
  lemma {:induction false} EndRead(td: TypeDesc, s: State, b: seq<byte>)
    requires td.Valid() && Open(s) && ExpectPhase(td, s, b).Continue?
    requires s.frames != [] && s.Top().wantNulls && [0, 0] <= b
    ensures s.Top().left == -1 || s.Top().left >= 2
  {
  }

  // ---- A value in front of a run that succeeds ----

  /** A value stands at the start of `b` and the current frame takes it. */
  ghost predicate Next(td: TypeDesc, s: State, b: seq<byte>, t: Tlv)
    requires td.Valid()
  {
    WellFormed(t) && Encode(t) <= b && Ready(td, s, t)
  }

  /** Members fill the current frame, or end-of-contents octets follow them. */
  ghost predicate Filling(s: State, b: seq<byte>, items: seq<Tlv>)
    requires s.frames != []
  {
    var top := s.Top();
    && AllWellFormed(items)
    && if top.wantNulls then
      && EncodeAll(items) + [0, 0] <= b
      && (forall i :: 0 <= i < |items| ==> !([0, 0] <= Encode(items[i])))
      && (top.left == -1 || top.left >= |EncodeAll(items)| + 2)
    else EncodeAll(items) <= b && |EncodeAll(items)| == top.left
  }

  lemma {:induction false} ValueReady(td: TypeDesc, s: State, b: seq<byte>, h: Head, t: Tlv)
    requires td.Valid() && Open(s) && Takes(td, s, h) && WellFormed(t) && Encode(t) <= b
    requires !(s.frames != [] && s.Top().wantNulls && [0, 0] <= b)
    requires FetchTag(t.id).value == h.tag
    requires if h.length >= 0 then |Encode(t)| == h.size + h.length
             else s.frames != [] && s.Top().left != -1 ==> s.Top().left >= |Encode(t)|
    ensures Next(td, s, b, t)
  {
    hide FetchTag, FetchLength, Encode;
  }

  /** The value a header announces, in the input of a run that succeeds. */
  lemma {:induction false} SegmentThere(td: TypeDesc, mode: int, s: State, b: seq<byte>) returns (t: Tlv)
    requires td.Valid() && Open(s) && Run(td, mode, s, b).code == Ok && |s.buf| + |b| < SIZE_LIMIT
    requires !(s.frames != [] && s.Top().wantNulls && [0, 0] <= b)
    ensures Next(td, s, b, t)
    decreases |b|, 0
  {
    hide Run, ExpectPhase, IsHead, WellFormed, Encode, EncodeAll, Takes, Next, Filling, Ready;
    var m := TurnsOn(td, mode, s, b);
    var h := HeaderRead(td, s, b);
    HeadSize(b, h);
    HeadForm(b, h);
    var s1, b1 := Pushed(s, h), b[h.size..];
    PushedFacts(td, s, h);
    if !h.constructed {
      LeafThere(td, mode, s1, b1);
      t := PrimitiveThere(b, h);
    } else {
      var items := ItemsThere(td, mode, s1, b1);
      FillingFacts(s1, b1, items);
      if h.length == -1 {
        t := IndefiniteThere(b, h, items);
      } else {
        assert EncodeAll(items) == b[h.size..h.size + h.length];
        t := DefiniteThere(b, h, items);
      }
    }
    ValueReady(td, s, b, h, t);
  }

  lemma {:induction false} HeadForm(b: seq<byte>, h: Head)
    requires IsHead(b, h)
    ensures h.size <= |b| && (h.constructed || h.length >= 0)
  {
    hide FetchTag, FetchLength;
    PrimitiveLength(b[FetchTag(b).size..]);
  }

  lemma {:induction false} PushedFacts(td: TypeDesc, s: State, h: Head)
    requires td.Valid() && Open(s) && Takes(td, s, h) && -1 <= h.length
    ensures var s1 := Pushed(s, h);
            && s1.frames != [] && s1.buf == s.buf && s1.Top().wantNulls == (h.length == -1)
            && s1.phase == (if h.constructed then 1 else 2) && Bounded(s1)
            && (h.length >= 0 ==> s1.Top().left == h.length)
            && (h.length == -1 && s.frames != [] && s.Top().left != -1 ==>
                  s1.Top().left == s.Top().left - h.size && s1.Top().left >= 0)
  {
  }

  lemma {:induction false} FillingFacts(s: State, b: seq<byte>, items: seq<Tlv>)
    requires s.frames != [] && Filling(s, b, items)
    ensures AllWellFormed(items)
    ensures s.Top().wantNulls ==>
              && EncodeAll(items) + [0, 0] <= b && (forall i :: 0 <= i < |items| ==> !([0, 0] <= Encode(items[i])))
              && (s.Top().left == -1 || s.Top().left >= |EncodeAll(items)| + 2)
    ensures !s.Top().wantNulls ==> EncodeAll(items) <= b && |EncodeAll(items)| == s.Top().left
  {
    hide EncodeAll, Encode, WellFormed;
  }

  /** The contents of a primitive segment are there. */
  lemma {:induction false} LeafThere(td: TypeDesc, mode: int, s: State, b: seq<byte>)
    requires td.Valid() && s.phase == 2 && s.frames != [] && s.Top().left >= 0 && Sound(td, mode, s)
    requires Run(td, mode, s, b).code == Ok
    ensures s.Top().left <= |b|
  {
    hide Run, CanHold, Append;
    var m := TurnsOn(td, mode, s, b);
  }

  /** The members of a constructed segment, in the input of a run that succeeds. */
  lemma {:induction false} ItemsThere(td: TypeDesc, mode: int, s: State, b: seq<byte>) returns (items: seq<Tlv>)
    requires td.Valid() && s.phase == 1 && s.frames != [] && Bounded(s)
    requires Run(td, mode, s, b).code == Ok && |s.buf| + |b| < SIZE_LIMIT
    ensures Filling(s, b, items)
    decreases |b|, 1
  {
    hide Run, ExpectPhase, WellFormed, Encode, Next, Filling, Ready, Tagged;
    if Complete(s.Top()) {
      items := [];
      NoMembers(s, b);
    } else if s.Top().wantNulls && [0, 0] <= b {
      var m := TurnsOn(td, mode, s, b);
      EndRead(td, s, b);
      items := [];
      NoMembers(s, b);
    } else {
      var t := SegmentThere(td, mode, s, b);
      SegmentTaken(td, mode, s, b, t);
      var s1, b1 := AfterSegment(td, s, t), b[|Encode(t)|..];
      var more := ItemsThere(td, mode, s1, b1);
      items := [t] + more;
      OneMore(td, s, b, t, more);
    }
  }

  lemma {:induction false} NoMembers(s: State, b: seq<byte>)
    requires s.frames != [] && Bounded(s)
    requires Complete(s.Top()) || (s.Top().wantNulls && [0, 0] <= b && (s.Top().left == -1 || s.Top().left >= 2))
    ensures Filling(s, b, [])
  {
    assert EncodeAll([]) == [];
    assert [] + [0, 0] == [0, 0];
  }

  /** The run goes on behind a value it has taken. */
  lemma {:induction false} SegmentTaken(td: TypeDesc, mode: int, s: State, b: seq<byte>, t: Tlv)
    requires td.Valid() && s.frames != [] && Bounded(s) && Next(td, s, b, t)
    requires Run(td, mode, s, b).code == Ok && |s.buf| + |b| < SIZE_LIMIT
    ensures 0 < |Encode(t)| <= |b|
    ensures var s1, b1 := AfterSegment(td, s, t), b[|Encode(t)|..];
            && s1.phase == 1 && s1.frames != [] && Bounded(s1) && Run(td, mode, s1, b1).code == Ok
            && |s1.buf| + |b1| < SIZE_LIMIT
  {
    hide Run, WellFormed, Encode, Ready, Tagged, Payload, UnusedBits, HasContent;
    var b1 := b[|Encode(t)|..];
    assert b == Encode(t) + b1;
    ReadyFacts(td, s, t);
    NonEmpty(t);
    PayloadSize(td.variant, t);
    if !Tagged(td, t, |s.frames|) {
      InsideFails(td, mode, s, t, b1);
      assert false;
    }
    SegmentRuns(td, mode, s, t, b1);
  }

  lemma {:induction false} OneMore(td: TypeDesc, s: State, b: seq<byte>, t: Tlv, more: seq<Tlv>)
    requires td.Valid() && s.frames != [] && Bounded(s) && Next(td, s, b, t)
    requires AfterSegment(td, s, t).frames != [] && Filling(AfterSegment(td, s, t), b[|Encode(t)|..], more)
    ensures Filling(s, b, [t] + more)
  {
    hide WellFormed, Encode, Payload, UnusedBits, HasContent, FetchTag;
    var items, b1 := [t] + more, b[|Encode(t)|..];
    assert b == Encode(t) + b1;
    assert items[1..] == more && items[0] == t;
    assert EncodeAll(items) == Encode(t) + EncodeAll(more);
    assert EncodeAll(items) + [0, 0] == Encode(t) + (EncodeAll(more) + [0, 0]);
  }

  // ---- The whole input ----

  /** Headers that hold one another and end in a primitive one, and the contents of that one, make a value. */
  lemma {:induction false} ChainThere(b: seq<byte>, hs: seq<Head>) returns (t: Tlv)
    requires hs != [] && Stand(b, hs) && !hs[|hs| - 1].constructed && Total(hs) + hs[|hs| - 1].length <= |b|
    requires forall j :: 0 <= j < |hs| - 1 ==> hs[j].constructed && Holds(hs[j].length, hs[j + 1])
    ensures hs[0].length >= 0 && hs[0].size + hs[0].length <= |b|
    ensures hs[0].size + hs[0].length == Total(hs) + hs[|hs| - 1].length
    ensures WellFormed(t) && Encode(t) == b[..hs[0].size + hs[0].length]
    decreases |hs|
  {
    hide IsHead, WellFormed, Encode, EncodeAll;
    var h := hs[0];
    HeadSize(b, h);
    HeadForm(b, h);
    if |hs| == 1 {
      assert hs[1..] == [];
      t := PrimitiveThere(b, h);
    } else {
      var b1 := b[h.size..];
      var inner := ChainThere(b1, hs[1..]);
      assert h.constructed && Holds(h.length, hs[1]);
      JustOne(inner);
      t := DefiniteThere(b, h, [inner]);
    }
  }

  lemma {:induction false} JustOne(t: Tlv)
    requires WellFormed(t)
    ensures EncodeAll([t]) == Encode(t) && AllWellFormed([t])
  {
    hide Encode, WellFormed;
    assert [t][1..] == [] && EncodeAll([]) == [];
  }

  /** What is accepted begins with a value. */
  lemma {:induction false} ValueThere(td: TypeDesc, mode: int, b: seq<byte>) returns (t: Tlv)
    requires Proper(td, mode) && |b| < SIZE_LIMIT && Run(td, mode, FRESH, b).code == Ok
    ensures WellFormed(t) && Encode(t) <= b
  {
    hide Run, CheckFrom, PrimitivePhase, Stand, WellFormed, Encode, Next, ExpectPhase;
    var m := TurnsOn(td, mode, FRESH, b);
    var d := DemandOf(td, mode);
    if m.state.phase == 1 {
      assert b[0..] == b;
      t := SegmentThere(td, mode, m.state, b);
      NextFacts(td, m.state, b, t);
    } else {
      var hs := Accepted(d, 0, 0, b, START, 0);
      MeetsLength(d, hs, 0);
      CheckReports(d, b, 0, hs);
      ContentsThere(td, mode, m.state, b[m.size..]);
      Nested(d, hs);
      LastForm(b, hs);
      t := ChainThere(b, hs);
    }
  }

  lemma {:induction false} NextFacts(td: TypeDesc, s: State, b: seq<byte>, t: Tlv)
    requires td.Valid() && Next(td, s, b, t)
    ensures WellFormed(t) && Encode(t) <= b
  {
  }

  lemma {:induction false} Nested(d: Demand, hs: seq<Head>)
    requires Meets(d, hs, 0)
    ensures forall j :: 0 <= j < |hs| - 1 ==> hs[j].constructed && Holds(hs[j].length, hs[j + 1])
  {
  }

  lemma {:induction false} LastForm(b: seq<byte>, hs: seq<Head>)
    requires hs != [] && Stand(b, hs)
    ensures hs[|hs| - 1].constructed || hs[|hs| - 1].length >= 0
    decreases |hs|
  {
    hide IsHead;
    HeadForm(b, hs[0]);
    if |hs| > 1 {
      LastForm(b[hs[0].size..], hs[1..]);
    }
  }

  /** The contents of a primitive string are there. */
  lemma {:induction false} ContentsThere(td: TypeDesc, mode: int, s: State, b: seq<byte>)
    requires td.Valid() && s.phase == 3 && Sound(td, mode, s) && Run(td, mode, s, b).code == Ok
    ensures s.left <= |b|
  {
    hide Run, CanHold, Append;
    var m := TurnsOn(td, mode, s, b);
  }

  /** The input begins with a value whose tags are where they are wanted, and whose unused bits make sense. */
  ghost predicate Begins(td: TypeDesc, mode: int, b: seq<byte>, t: Tlv)
    requires td.Valid()
  {
    && WellFormed(t) && Encode(t) <= b && Fits(td, mode, t)
    && Acceptable(td.variant, Payload(td.variant, t), UnusedBits(td.variant, t, 0))
  }

  /** Any input: the decoder succeeds exactly when the input begins with such a value. */
  lemma {:induction false} SucceedsExactly(td: TypeDesc, mode: int, b: seq<byte>)
    requires Proper(td, mode) && |b| < SIZE_LIMIT
    ensures Run(td, mode, FRESH, b).code == Ok <==> exists t :: Begins(td, mode, b, t)
  {
    hide Run, WellFormed, Encode, Fits, Acceptable, Payload, UnusedBits;
    if Run(td, mode, FRESH, b).code == Ok {
      var t := ValueThere(td, mode, b);
      assert b == Encode(t) + b[|Encode(t)|..];
      AcceptedExactly(td, mode, t, b[|Encode(t)|..]);
      assert Begins(td, mode, b, t);
    }
    if t :| Begins(td, mode, b, t) {
      assert b == Encode(t) + b[|Encode(t)|..];
      AcceptedExactly(td, mode, t, b[|Encode(t)|..]);
    }
  }

  /** The octets, except that the unused bits of the last octet of a BIT STRING are clear. */
  ghost predicate Cleared(v: Variant, data: seq<byte>, unused: nat, buf: seq<byte>) {
    if v == Str || data == [] then buf == data
    else
      var n := |data| - 1;
      && |buf| == |data| && buf[..n] == data[..n]
      && buf[n] % Pow2(unused) == 0 && buf[n] / Pow2(unused) == data[n] / Pow2(unused)
  }

  lemma {:induction false} FinishedCleared(v: Variant, data: seq<byte>, unused: nat)
    requires Acceptable(v, data, unused)
    ensures Cleared(v, data, unused, Finished(v, data, unused))
  {
    hide Pow2;
    if v == Bit && data != [] {
      var b, d := data[|data| - 1], Pow2(unused);
      assert b == b / d * d + b % d;
      DivModUnique(b / d, 0, d, b - b % d);
    }
  }

  /** What comes out then: the payload of the one value the input begins with, and just its octets are gone. */
  lemma {:induction false} Yields(td: TypeDesc, mode: int, b: seq<byte>) returns (t: Tlv)
    requires Proper(td, mode) && |b| < SIZE_LIMIT && Run(td, mode, FRESH, b).code == Ok
    ensures Begins(td, mode, b, t) && forall u :: WellFormed(u) && Encode(u) <= b ==> u == t
    ensures var r := Run(td, mode, FRESH, b);
            && r.consumed == |Encode(t)| && r.state.unused == UnusedBits(td.variant, t, 0)
            && Cleared(td.variant, Payload(td.variant, t), r.state.unused, r.state.buf)
  {
    hide Run, WellFormed, Encode, Fits, Payload, UnusedBits, Finished, Cleared;
    t := ValueThere(td, mode, b);
    var rest := b[|Encode(t)|..];
    assert b == Encode(t) + rest;
    AcceptedExactly(td, mode, t, rest);
    TreeDecodes(td, mode, t, rest);
    FinishedCleared(td.variant, Payload(td.variant, t), UnusedBits(td.variant, t, 0));
    forall u | WellFormed(u) && Encode(u) <= b ensures u == t {
      OneValue(t, u, b);
    }
  }

  // ---- One value only ----

  /** The header of a value that the input begins with. */
  lemma {:induction false} HeaderOf(t: Tlv, b: seq<byte>)
    requires WellFormed(t) && Encode(t) <= b
    ensures FetchTag(b) == Got(|t.id|, FetchTag(t.id).value) && 1 <= |t.id| <= Header(t) <= |b| && b[..|t.id|] == t.id
    ensures Constructed(b[0]) == !t.Primitive?
    ensures FetchLength(!t.Primitive?, b[|t.id|..]) == Got(|LengthOctets(t)|, Announced(t))
    ensures b[|t.id|..Header(t)] == LengthOctets(t) && Body(t) <= b[Header(t)..]
  {
    hide FetchTag, FetchLength, Constructed, WellFormed, Encode, Body, Announced;
    EncodeParts(t);
    var n := Header(t);
    assert b[..n] == Encode(t)[..n] == t.id + LengthOctets(t);
    HeaderIn(t, b);
    assert b[..|t.id|] == b[..n][..|t.id|];
    assert b[|t.id|..n] == b[..n][|t.id|..];
    assert Encode(t)[n..] == Body(t);
  }

  /** No input begins with two different values. */
  lemma {:induction false} OneValue(t: Tlv, u: Tlv, b: seq<byte>)
    requires WellFormed(t) && WellFormed(u) && Encode(t) <= b && Encode(u) <= b
    ensures t == u
    decreases |b|, 0
  {
    hide FetchTag, FetchLength, Constructed, Encode, EncodeAll;
    HeaderOf(t, b);
    HeaderOf(u, b);
    assert t.id == u.id && Header(t) == Header(u) && LengthOctets(t) == LengthOctets(u);
    var b1 := b[Header(t)..];
    if t.Primitive? {
      assert t.content == b1[..|t.content|] == u.content;
    } else {
      SameItems(t.items, u.items, b1, t.Indefinite?);
    }
  }

  lemma {:induction false} SameItems(xs: seq<Tlv>, ys: seq<Tlv>, b: seq<byte>, closed: bool)
    requires AllWellFormed(xs) && AllWellFormed(ys)
    requires if closed then Closes(xs, b) && Closes(ys, b)
             else EncodeAll(xs) <= b && EncodeAll(ys) <= b && |EncodeAll(xs)| == |EncodeAll(ys)|
    ensures xs == ys
    decreases |b|, 1
  {
    hide WellFormed, Encode;
    if xs == [] {
      NoneLeft(xs, ys, b, closed);
    } else if ys == [] {
      NoneLeft(ys, xs, b, closed);
    } else {
      var t := xs[0];
      NonEmpty(t);
      OneValue(t, ys[0], b);
      var b1 := b[|Encode(t)|..];
      if closed {
        ClosesRest(xs, b);
        ClosesRest(ys, b);
      }
      SameItems(xs[1..], ys[1..], b1, closed);
      assert xs == [t] + xs[1..] && ys == [t] + ys[1..];
    }
  }

  /** Members, none of which starts with two zero octets, and then two zero octets. */
  ghost predicate Closes(items: seq<Tlv>, b: seq<byte>) {
    EncodeAll(items) + [0, 0] <= b && forall i :: 0 <= i < |items| ==> !([0, 0] <= Encode(items[i]))
  }

  lemma {:induction false} ClosesRest(items: seq<Tlv>, b: seq<byte>)
    requires items != [] && Closes(items, b)
    ensures Encode(items[0]) <= b && Closes(items[1..], b[|Encode(items[0])|..])
  {
    hide Encode;
    assert EncodeAll(items) + [0, 0] == Encode(items[0]) + (EncodeAll(items[1..]) + [0, 0]);
  }

  lemma {:induction false} NoneLeft(xs: seq<Tlv>, ys: seq<Tlv>, b: seq<byte>, closed: bool)
    requires xs == [] && AllWellFormed(ys)
    requires if closed then Closes(xs, b) && Closes(ys, b)
             else EncodeAll(xs) <= b && EncodeAll(ys) <= b && |EncodeAll(xs)| == |EncodeAll(ys)|
    ensures ys == []
  {
    hide WellFormed, Encode;
    assert EncodeAll(xs) + [0, 0] == [0, 0];
    if ys != [] {
      if closed {
        ClosesRest(ys, b);
      }
      TwoOctets(ys);
    }
  }

  lemma {:induction false} TwoOctets(items: seq<Tlv>)
    requires items != [] && AllWellFormed(items)
    ensures 2 <= |Encode(items[0])| <= |EncodeAll(items)|
  {
    hide FetchTag, FetchLength;
    SomeContents(items[0]);
  }
}
