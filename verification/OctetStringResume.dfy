/**
  Input in pieces: the decoder may be given its input in any portions, each time with the
  octets it did not consume presented again, and the outcome is that of a single call.
  This holds for every input, well-formed or not.
 */
module OctetStringResume {
  import opened Bits
  import opened BerTag
  import opened BerLength
  import opened BerCheckTags
  import opened OctetString

  /** One header to match, so that a call cannot stop between two of them. */
  ghost predicate Plain(td: TypeDesc, mode: int) {
    td.Valid() && |td.tags| == 1 && (mode == 0 || mode == -1)
  }

  /** What the tags of a type demand when it is decoded in a given mode. */
  function DemandOf(td: TypeDesc, mode: int): Demand {
    Demand(td.tags, mode, -1)
  }

  /** A call that does not stop between two headers of the chain of tags, where the frame would be lost. */
  ghost predicate Clear(td: TypeDesc, mode: int, s: State, b: seq<byte>) {
    s.phase == 0 ==>
      var r := CheckTags(DemandOf(td, mode), b, s.step);
      r.code == WantMore ==> r.step == s.step
  }

  const SIZE_LIMIT: nat := 0x4000_0000

  lemma {:induction false} AllocationBound(n: nat, from: nat)
    requires from > 0
    ensures from <= Allocation(n, from) && (Allocation(n, from) == from || Allocation(n, from) <= 2 * n)
    decreases n + 1 - from
  {
    if from <= n {
      AllocationBound(n, 2 * from);
    }
  }

  lemma {:induction false} SmallFits(n: nat)
    requires n < SIZE_LIMIT
    ensures CanHold(n)
  {
    AllocationBound(n, 16);
  }

  // ---- Appending to the input of one turn ----

  lemma {:induction false} CheckAppend(td: TypeDesc, mode: int, s: State, b: seq<byte>, more: seq<byte>)
    requires td.Valid() && Sound(td, mode, s) && s.phase == 0 && Clear(td, mode, s, b)
    ensures var m := CheckPhase(td, mode, s, b);
            if m.Return? && m.code == WantMore then m == Return(WantMore, s, 0)
            else CheckPhase(td, mode, s, b + more) == m
  {
    hide CheckFrom;
    var d := DemandOf(td, mode);
    var tagno := FirstTag(d, s.step);
    if CheckTags(d, b, s.step).code != WantMore {
      ChainAppend(d, b, more, tagno, s.step, START);
    } else {
      NothingRead(d, b, tagno, s.step, START);
    }
  }

  /** A check that wants more without having saved any progress has consumed nothing. */
  lemma {:induction false} NothingRead(d: Demand, b: seq<byte>, tagno: int, step: nat, c: Chain)
    requires tagno < |d.tags|
    requires var r := CheckFrom(d, b, tagno, step, c); r.code == WantMore && r.step == step
    ensures CheckFrom(d, b, tagno, step, c).consumed == c.consumed
  {
    hide TakeTurn;
    var turn := TakeTurn(d, b, tagno, step, c);
    if turn.Go? {
      TurnReads(d, b, tagno, step, c);
      CheckedFacts(d, Confine(b[turn.size..], turn.chain.limit), tagno + 1, step + 1, turn.chain);
    }
  }

  /** With one header there is nothing to stop between. */
  lemma {:induction false} PlainClear(td: TypeDesc, mode: int, s: State, b: seq<byte>)
    requires Plain(td, mode) && Sound(td, mode, s)
    ensures Clear(td, mode, s, b)
  {
    hide CheckFrom;
    if s.phase == 0 {
      CheckedFacts(DemandOf(td, mode), b, FirstTag(DemandOf(td, mode), s.step), s.step, START);
    }
  }

  lemma {:induction false} WindowAppend(s: State, b: seq<byte>, more: seq<byte>)
    ensures Window(s, b) <= Window(s, b + more)
  {
  }

  lemma {:induction false} ExpectAppend(td: TypeDesc, s: State, b: seq<byte>, more: seq<byte>)
    requires td.Valid()
    ensures var m := ExpectPhase(td, s, b);
            if m.Return? && m.code == WantMore then m == Return(WantMore, s, 0)
            else ExpectPhase(td, s, b + more) == m
  {
    hide FetchTag, FetchLength, Constructed, Push, Pop, Window;
    PushPop(s);
    if s.frames == [] || !Complete(s.Top()) {
      WindowAppend(s, b, more);
      var w, w' := Window(s, b), Window(s, b + more);
      assert w' == w + w'[|w|..];
      HeaderAppend(w, w'[|w|..]);
    }
  }

  lemma {:induction false} PushPop(s: State)
    ensures s.frames != [] ==> !(Pop(s).Return? && Pop(s).code == WantMore)
    ensures forall c, n, l :: var m := Push(s, c, n, l); !(m.Return? && m.code == WantMore)
  {
  }

  // ---- Contents that arrive in two parts ----

  /** The same turn as if `n` more octets had been consumed before it. */
  function Later(m: Move, n: nat): Move {
    m.(size := m.size + n)
  }

  /** Two portions of contents, split where the first one ends. */
  lemma {:induction false} SplitData(b: seq<byte>, more: seq<byte>, len: nat)
    requires b != [] && |b| <= len <= |b + more|
    ensures (b + more)[0] == b[0]
    ensures (b + more)[..len] == b[..|b|] + more[..len - |b|]
    ensures (b + more)[1..len] == b[1..|b|] + more[..len - |b|]
  {
  }

  /** Phase 2 while everything fits: the octets taken, and the state they lead to. */
  ghost function Taken(td: TypeDesc, s: State, b: seq<byte>, len: nat): State
    requires s.frames != [] && len <= |b| && len <= s.Top().left
  {
    var top := s.Top();
    if len == 0 then s
    else if td.variant == Bit && !top.chopped then
      Append(s, b[1..len]).(unused := b[0]).SetTop(top.(left := top.left - len, got := top.got + len, chopped := true))
    else
      Append(s, b[..len]).SetTop(top.(left := top.left - len, got := top.got + len))
  }

  lemma {:induction false} ContentTaken(td: TypeDesc, s: State, b: seq<byte>)
    requires s.frames != [] && s.Top().left >= 0
    requires |s.buf| + (if |b| < s.Top().left then |b| else s.Top().left) < SIZE_LIMIT
    ensures var len := if |b| < s.Top().left then |b| else s.Top().left;
            ContentPhase(td, s, b) == if s.Top().left > len then Return(WantMore, Taken(td, s, b, len), len)
                                      else Continue(Taken(td, s, b, len).(phase := 1), len)
  {
    hide ContentPhase, Taken, CanHold;
    var len := if |b| < s.Top().left then |b| else s.Top().left;
    if len == 0 {
      NothingTaken(td, s, b);
    } else if td.variant == Bit && !s.Top().chopped {
      FirstTaken(td, s, b, len);
    } else {
      MoreTaken(td, s, b, len);
    }
  }

  lemma {:induction false} NothingTaken(td: TypeDesc, s: State, b: seq<byte>)
    requires s.frames != [] && s.Top().left >= 0 && (b == [] || s.Top().left == 0)
    ensures ContentPhase(td, s, b) == if s.Top().left > 0 then Return(WantMore, Taken(td, s, b, 0), 0)
                                      else Continue(Taken(td, s, b, 0).(phase := 1), 0)
  {
    hide CanHold;
    assert s.SetTop(s.Top()) == s;
  }

  lemma {:induction false} FirstTaken(td: TypeDesc, s: State, b: seq<byte>, len: nat)
    requires s.frames != [] && len == if |b| < s.Top().left then |b| else s.Top().left
    requires 0 < len && |s.buf| + len < SIZE_LIMIT
    requires td.variant == Bit && !s.Top().chopped
    ensures ContentPhase(td, s, b) == if s.Top().left > len then Return(WantMore, Taken(td, s, b, len), len)
                                      else Continue(Taken(td, s, b, len).(phase := 1), len)
  {
    hide CanHold;
    SmallFits(|s.buf| + |b[1..len]|);
  }

  lemma {:induction false} MoreTaken(td: TypeDesc, s: State, b: seq<byte>, len: nat)
    requires s.frames != [] && len == if |b| < s.Top().left then |b| else s.Top().left
    requires 0 < len && |s.buf| + len < SIZE_LIMIT
    requires td.variant != Bit || s.Top().chopped
    ensures ContentPhase(td, s, b) == if s.Top().left > len then Return(WantMore, Taken(td, s, b, len), len)
                                      else Continue(Taken(td, s, b, len).(phase := 1), len)
  {
    hide CanHold;
    SmallFits(|s.buf| + |b[..len]|);
  }

  lemma {:induction false} TakenFacts(td: TypeDesc, s: State, b: seq<byte>, len: nat)
    requires s.frames != [] && len <= |b| && len <= s.Top().left
    ensures var s' := Taken(td, s, b, len);
            s'.phase == s.phase && s'.frames != [] && s'.Top().left == s.Top().left - len && |s'.buf| <= |s.buf| + len
  {
  }

  lemma {:induction false} TakenTwice(td: TypeDesc, s: State, b: seq<byte>, more: seq<byte>, len: nat)
    requires s.frames != [] && |b| <= len <= |b + more| && len <= s.Top().left
    ensures var s' := Taken(td, s, b, |b|);
            && s'.frames != [] && len - |b| <= s'.Top().left
            && Taken(td, s, b + more, len) == Taken(td, s', more, len - |b|)
  {
    TakenFacts(td, s, b, |b|);
    if b == [] {
      assert b + more == more;
    } else if td.variant == Bit && !s.Top().chopped {
      TakenChopped(td, s, b, more, len);
    } else {
      TakenPlain(td, s, b, more, len);
    }
  }

  lemma {:induction false} TakenChopped(td: TypeDesc, s: State, b: seq<byte>, more: seq<byte>, len: nat)
    requires s.frames != [] && 0 < |b| <= len <= |b + more| && len <= s.Top().left
    requires td.variant == Bit && !s.Top().chopped
    ensures var s' := Taken(td, s, b, |b|);
            && s'.frames != [] && len - |b| <= s'.Top().left
            && Taken(td, s, b + more, len) == Taken(td, s', more, len - |b|)
  {
    SplitData(b, more, len);
    var s' := Taken(td, s, b, |b|);
    assert s'.frames[..|s.frames| - 1] == s.frames[..|s.frames| - 1];
    assert s.buf + (b[1..|b|] + more[..len - |b|]) == s'.buf + more[..len - |b|];
    assert len == |b| ==> more[..0] == [] && b[1..|b|] + [] == b[1..|b|];
  }

  lemma {:induction false} TakenPlain(td: TypeDesc, s: State, b: seq<byte>, more: seq<byte>, len: nat)
    requires s.frames != [] && 0 < |b| <= len <= |b + more| && len <= s.Top().left
    requires td.variant != Bit || s.Top().chopped
    ensures var s' := Taken(td, s, b, |b|);
            && s'.frames != [] && len - |b| <= s'.Top().left
            && Taken(td, s, b + more, len) == Taken(td, s', more, len - |b|)
  {
    SplitData(b, more, len);
    var s' := Taken(td, s, b, |b|);
    assert s'.frames[..|s.frames| - 1] == s.frames[..|s.frames| - 1];
    assert s.buf + (b[..|b|] + more[..len - |b|]) == s'.buf + more[..len - |b|];
    assert len == |b| ==> more[..0] == [] && b[..|b|] + [] == b[..|b|];
  }

  lemma {:induction false} ContentJoin(td: TypeDesc, s: State, b: seq<byte>, more: seq<byte>)
    requires s.frames != [] && s.Top().left > |b| && |s.buf| + |b| + |more| < SIZE_LIMIT
    ensures var m := ContentPhase(td, s, b);
            && m.Return? && m.code == WantMore && m.size == |b|
            && m.state.phase == s.phase && m.state.frames != [] && m.state.Top().left >= 0
            && ContentPhase(td, s, b + more) == Later(ContentPhase(td, m.state, more), |b|)
  {
    hide ContentPhase, Taken, Append, CanHold;
    var s' := Taken(td, s, b, |b|);
    var len := if |b + more| < s.Top().left then |b + more| else s.Top().left;
    TakenFacts(td, s, b, |b|);
    TakenTwice(td, s, b, more, len);
    ContentTaken(td, s, b);
    ContentTaken(td, s, b + more);
    ContentTaken(td, s', more);
  }

  /** Phase 3 while everything fits. */
  ghost function Kept(td: TypeDesc, s: State, b: seq<byte>, len: nat): State
    requires len <= |b| && len <= s.left && (s.left > 0 ==> len > 0)
  {
    if td.variant == Bit && !s.started && s.left > 0 then
      Append(s, b[1..len]).(left := s.left - len, unused := b[0])
    else
      Append(s, b[..len]).(left := s.left - len)
  }

  lemma {:induction false} PrimitiveKept(td: TypeDesc, s: State, b: seq<byte>)
    requires s.left >= 0 && (s.left > 0 ==> b != [])
    requires |s.buf| + (if |b| < s.left then |b| else s.left) < SIZE_LIMIT
    ensures var len := if |b| < s.left then |b| else s.left;
            PrimitivePhase(td, s, b) == if |b| < s.left then Return(WantMore, Kept(td, s, b, len), len)
                                        else Continue(Kept(td, s, b, len).(phase := 4), len)
  {
    hide CanHold;
    var len := if |b| < s.left then |b| else s.left;
    var chop := td.variant == Bit && !s.started && s.left > 0;
    SmallFits(|s.buf| + |if chop then b[1..len] else b[..len]|);
  }

  lemma {:induction false} PrimitiveJoin(td: TypeDesc, s: State, b: seq<byte>, more: seq<byte>)
    requires s.left > |b| && |s.buf| + |b| + |more| < SIZE_LIMIT
    ensures var m := PrimitivePhase(td, s, b);
            && m.Return? && m.code == WantMore && m.size == |b|
            && m.state.phase == s.phase && m.state.left >= 0
            && PrimitivePhase(td, s, b + more) == Later(PrimitivePhase(td, m.state, more), |b|)
  {
    hide PrimitivePhase, Kept;
    if b == [] {
      assert b + more == more;
      NothingKept(td, s);
    } else {
      PrimitiveKept(td, s, b);
      PrimitiveKept(td, s, b + more);
      KeptFacts(td, s, b);
      var s' := Kept(td, s, b, |b|);
      if more == [] {
        assert b + more == b;
        NothingKept(td, s');
      } else {
        PrimitiveKept(td, s', more);
        KeptTwice(td, s, b, more, if |b + more| < s.left then |b + more| else s.left);
      }
    }
  }

  lemma {:induction false} NothingKept(td: TypeDesc, s: State)
    requires s.left > 0
    ensures PrimitivePhase(td, s, []) == Return(WantMore, s, 0)
  {
  }

  lemma {:induction false} KeptFacts(td: TypeDesc, s: State, b: seq<byte>)
    requires 0 < |b| < s.left
    ensures var s' := Kept(td, s, b, |b|);
            s'.phase == s.phase && s'.left == s.left - |b| && |s'.buf| <= |s.buf| + |b|
  {
  }

  lemma {:induction false} KeptTwice(td: TypeDesc, s: State, b: seq<byte>, more: seq<byte>, len: nat)
    requires 0 < |b| < len <= |b + more| && len <= s.left
    ensures Kept(td, s, b + more, len) == Kept(td, Kept(td, s, b, |b|), more, len - |b|)
  {
    SplitData(b, more, len);
    var tail := more[..len - |b|];
    assert s.buf + b[..|b|] + tail == s.buf + (b[..|b|] + tail);
    assert s.buf + b[1..|b|] + tail == s.buf + (b[1..|b|] + tail);
  }

  // ---- The resumption theorem ----

  lemma {:induction false} ContinueAppend(td: TypeDesc, mode: int, s: State, b: seq<byte>, more: seq<byte>)
    requires td.Valid() && Sound(td, mode, s) && Clear(td, mode, s, b) && |s.buf| + |b| + |more| < SIZE_LIMIT
    requires var m := Step(td, mode, s, b); m.Continue? || m.code != WantMore
    ensures Step(td, mode, s, b + more) == Step(td, mode, s, b)
  {
    hide CheckPhase, ExpectPhase, ContentPhase, PrimitivePhase, CanHold, Clear;
    if s.phase == 0 {
      CheckAppend(td, mode, s, b, more);
    } else if s.phase == 1 {
      ExpectAppend(td, s, b, more);
    } else if s.phase == 2 {
      ContentStable(td, s, b, more);
    } else if s.phase == 3 {
      PrimitiveStable(td, s, b, more);
    }
  }

  lemma {:induction false} ContentStable(td: TypeDesc, s: State, b: seq<byte>, more: seq<byte>)
    requires s.frames != [] && s.Top().left >= 0 && |s.buf| + |b| + |more| < SIZE_LIMIT
    requires var m := ContentPhase(td, s, b); m.Continue? || m.code != WantMore
    ensures ContentPhase(td, s, b + more) == ContentPhase(td, s, b)
  {
    hide ContentPhase;
    ContentTaken(td, s, b);
    ContentTaken(td, s, b + more);
    var len := s.Top().left;
    assert (b + more)[..len] == b[..len] && (len > 0 ==> (b + more)[1..len] == b[1..len] && (b + more)[0] == b[0]);
  }

  lemma {:induction false} PrimitiveStable(td: TypeDesc, s: State, b: seq<byte>, more: seq<byte>)
    requires s.left >= 0 && |s.buf| + |b| + |more| < SIZE_LIMIT
    requires var m := PrimitivePhase(td, s, b); m.Continue? || m.code != WantMore
    ensures PrimitivePhase(td, s, b + more) == PrimitivePhase(td, s, b)
  {
    PrimitiveKept(td, s, b);
    PrimitiveKept(td, s, b + more);
    var len := s.left;
    assert (b + more)[..len] == b[..len] && (len > 0 ==> (b + more)[1..len] == b[1..len] && (b + more)[0] == b[0]);
    hide PrimitivePhase;
  }

  /**
    For every state and every input: what a call decides is not changed by octets after its
    input, and a call that wants more can be continued with the rest of the input, unless it
    stopped between two headers of the chain of tags.
   */
  lemma {:induction false} Resume(td: TypeDesc, mode: int, s: State, b: seq<byte>, more: seq<byte>)
    requires td.Valid() && Sound(td, mode, s) && Clear(td, mode, s, b) && |s.buf| + |b| + |more| < SIZE_LIMIT
    ensures var r := Run(td, mode, s, b);
            Run(td, mode, s, b + more) ==
            if r.code == WantMore then Run(td, mode, r.state, b[r.consumed..] + more).Plus(r.consumed) else r
    decreases |b|, Rank(s), |s.frames|
  {
    hide Step, Clear;
    StepAdvances(td, mode, s, b);
    match Step(td, mode, s, b)
    case Continue(s', n) =>
      ContinueAppend(td, mode, s, b, more);
      assert (b + more)[n..] == b[n..] + more;
      NotBack(td, mode, s, b);
      Resume(td, mode, s', b[n..], more);
      var r := Run(td, mode, s', b[n..]);
      assert b[n..][r.consumed..] == b[n + r.consumed..];
    case Return(code, s', n) =>
      if code == WantMore {
        Paused(td, mode, s, b, more);
      } else {
        ContinueAppend(td, mode, s, b, more);
      }
  }

  /** No turn leads back to the chain of tags. */
  lemma {:induction false} NotBack(td: TypeDesc, mode: int, s: State, b: seq<byte>)
    requires td.Valid() && Sound(td, mode, s) && Step(td, mode, s, b).Continue?
    ensures var m := Step(td, mode, s, b); m.size <= |b| && Clear(td, mode, m.state, b[m.size..])
  {
    hide CheckFrom, FetchTag, FetchLength, CanHold, Constructed;
    StepAdvances(td, mode, s, b);
    assert Step(td, mode, s, b).state.phase != 0;
  }

  lemma {:induction false} Paused(td: TypeDesc, mode: int, s: State, b: seq<byte>, more: seq<byte>)
    requires td.Valid() && Sound(td, mode, s) && Clear(td, mode, s, b) && |s.buf| + |b| + |more| < SIZE_LIMIT
    requires var m := Step(td, mode, s, b); m.Return? && m.code == WantMore
    ensures var m := Step(td, mode, s, b);
            && m.size <= |b| && Sound(td, mode, m.state)
            && Run(td, mode, s, b + more) == Run(td, mode, m.state, b[m.size..] + more).Plus(m.size)
  {
    hide CheckPhase, ExpectPhase, ContentPhase, PrimitivePhase, CanHold, Clear;
    StepAdvances(td, mode, s, b);
    var m := Step(td, mode, s, b);
    assert b[0..] == b && b[|b|..] + more == more;
    if s.phase == 0 {
      CheckAppend(td, mode, s, b, more);
    } else if s.phase == 1 {
      ExpectAppend(td, s, b, more);
    } else if s.phase == 2 {
      ContentTaken(td, s, b);
      ContentJoin(td, s, b, more);
      SameMove(td, mode, s, m.state, b, more);
    } else if s.phase == 3 {
      WantsMore(td, s, b);
      PrimitiveJoin(td, s, b, more);
      SameMove(td, mode, s, m.state, b, more);
    }
  }

  lemma {:induction false} WantsMore(td: TypeDesc, s: State, b: seq<byte>)
    requires s.left >= 0 && PrimitivePhase(td, s, b).Return? && PrimitivePhase(td, s, b).code == WantMore
    ensures |b| < s.left
  {
  }

  lemma {:induction false} SameMove(td: TypeDesc, mode: int, s: State, s': State, b: seq<byte>, more: seq<byte>)
    requires td.Valid() && Sound(td, mode, s) && Sound(td, mode, s')
    requires Step(td, mode, s, b + more) == Later(Step(td, mode, s', more), |b|)
    ensures Run(td, mode, s, b + more) == Run(td, mode, s', more).Plus(|b|)
  {
    hide Step;
    StepAdvances(td, mode, s, b + more);
    StepAdvances(td, mode, s', more);
    var m := Step(td, mode, s', more);
    if m.Continue? {
      assert (b + more)[m.size + |b|..] == more[m.size..];
    }
  }

  // ---- Single turns ----

  lemma {:induction false} GoesOn(td: TypeDesc, mode: int, s: State, b: seq<byte>)
    requires td.Valid() && Sound(td, mode, s) && Step(td, mode, s, b).Continue?
    ensures var m := Step(td, mode, s, b);
            && m.size <= |b| && Sound(td, mode, m.state)
            && Run(td, mode, s, b) == Run(td, mode, m.state, b[m.size..]).Plus(m.size)
  {
    hide Step;
    StepAdvances(td, mode, s, b);
  }

  lemma {:induction false} StopsHere(td: TypeDesc, mode: int, s: State, b: seq<byte>)
    requires td.Valid() && Sound(td, mode, s) && Step(td, mode, s, b).Return?
    ensures var m := Step(td, mode, s, b); Run(td, mode, s, b) == Outcome(m.code, m.state, m.size)
  {
    hide Step;
  }

  // ---- Any way of splitting the input ----

  ghost function Flatten(pieces: seq<seq<byte>>): seq<byte> {
    if pieces == [] then [] else pieces[0] + Flatten(pieces[1..])
  }

  /** The caller's side: each piece is presented after the octets left over from the previous ones. */
  ghost function Feed(td: TypeDesc, mode: int, s: State, tail: seq<byte>, pieces: seq<seq<byte>>): Outcome
    requires td.Valid() && Sound(td, mode, s) && pieces != []
    decreases |pieces|
  {
    var input := tail + pieces[0];
    var r := Run(td, mode, s, input);
    if r.code != WantMore || |pieces| == 1 then r
    else Feed(td, mode, r.state, input[r.consumed..], pieces[1..]).Plus(r.consumed)
  }

  /** No call on the pieces stops between two headers of the chain of tags. */
  ghost predicate NeverInChain(td: TypeDesc, mode: int, s: State, tail: seq<byte>, pieces: seq<seq<byte>>)
    requires td.Valid() && Sound(td, mode, s) && pieces != []
    decreases |pieces|
  {
    var input := tail + pieces[0];
    var r := Run(td, mode, s, input);
    && Clear(td, mode, s, input)
    && (r.code == WantMore && |pieces| > 1 ==> NeverInChain(td, mode, r.state, input[r.consumed..], pieces[1..]))
  }

  /** With one header, no way of cutting does. */
  lemma {:induction false} PlainNeverInChain(td: TypeDesc, mode: int, s: State, tail: seq<byte>, pieces: seq<seq<byte>>)
    requires Plain(td, mode) && Sound(td, mode, s) && pieces != []
    ensures NeverInChain(td, mode, s, tail, pieces)
    decreases |pieces|
  {
    hide Run, Clear;
    var input := tail + pieces[0];
    var r := Run(td, mode, s, input);
    PlainClear(td, mode, s, input);
    if r.code == WantMore && |pieces| > 1 {
      PlainNeverInChain(td, mode, r.state, input[r.consumed..], pieces[1..]);
    }
  }

  /** Nor does any once the chain has been read, in particular when the first piece holds all its headers. */
  lemma {:induction false} PastChain(td: TypeDesc, mode: int, s: State, tail: seq<byte>, pieces: seq<seq<byte>>)
    requires td.Valid() && Sound(td, mode, s) && pieces != []
    requires s.phase != 0 || CheckTags(DemandOf(td, mode), tail + pieces[0], s.step).code != WantMore
    ensures NeverInChain(td, mode, s, tail, pieces)
    decreases |pieces|
  {
    hide Run, CheckFrom;
    var input := tail + pieces[0];
    var r := Run(td, mode, s, input);
    if r.code == WantMore && |pieces| > 1 {
      StaysPast(td, mode, s, input);
      PastChain(td, mode, r.state, input[r.consumed..], pieces[1..]);
    }
  }

  lemma {:induction false} StaysPast(td: TypeDesc, mode: int, s: State, b: seq<byte>)
    requires td.Valid() && Sound(td, mode, s) && Run(td, mode, s, b).code == WantMore
    requires s.phase != 0 || CheckTags(DemandOf(td, mode), b, s.step).code != WantMore
    ensures Run(td, mode, s, b).state.phase != 0
    decreases |b|, Rank(s), |s.frames|
  {
    hide Step, CheckFrom;
    StepAdvances(td, mode, s, b);
    var m := Step(td, mode, s, b);
    LaterPhase(td, mode, s, b);
    if m.Continue? {
      StaysPast(td, mode, m.state, b[m.size..]);
    }
  }

  lemma {:induction false} LaterPhase(td: TypeDesc, mode: int, s: State, b: seq<byte>)
    requires td.Valid() && Sound(td, mode, s)
    requires s.phase != 0 || CheckTags(DemandOf(td, mode), b, s.step).code != WantMore
    ensures var m := Step(td, mode, s, b);
            m.Continue? || m.code == WantMore ==> m.state.phase != 0
  {
    hide CheckFrom, FetchTag, FetchLength, CanHold, Constructed;
  }

  /**
    Every way of cutting any input into pieces, but not between two headers of the chain, has the
    outcome of presenting it at once.
   */
  lemma {:induction false} FeedAnySplit(td: TypeDesc, mode: int, s: State, tail: seq<byte>, pieces: seq<seq<byte>>)
    requires td.Valid() && Sound(td, mode, s) && pieces != [] && NeverInChain(td, mode, s, tail, pieces)
    requires |s.buf| + |tail| + |Flatten(pieces)| < SIZE_LIMIT
    ensures Feed(td, mode, s, tail, pieces) == Run(td, mode, s, tail + Flatten(pieces))
    decreases |pieces|
  {
    hide Run, Sound, Clear;
    var input, more := tail + pieces[0], Flatten(pieces[1..]);
    var r := Run(td, mode, s, input);
    assert tail + Flatten(pieces) == input + more;
    Resume(td, mode, s, input, more);
    if |pieces| == 1 {
      assert more == [] && input + more == input;
    } else if r.code == WantMore {
      FeedAnySplit(td, mode, r.state, input[r.consumed..], pieces[1..]);
    }
  }

  // ---- Stopping between two headers ----

  /** An explicitly tagged OCTET STRING, and a header that promises five octets in front of three. */
  const EXPLICIT := TypeDesc([2, 16], [2, 16], Str)
  const OUTER: seq<byte> := [0xA0, 5]
  const INNER: seq<byte> := [4, 1, 7]

  lemma {:induction false} OuterRead()
    ensures CheckTags(DemandOf(EXPLICIT, 0), OUTER, 0) == Checked(WantMore, 2, 0, -1, 1)
    ensures CheckTags(DemandOf(EXPLICIT, 0), OUTER + INNER, 0).code == Fail
    ensures CheckTags(DemandOf(EXPLICIT, 0), INNER, 1) == Checked(Ok, 2, 1, 0, 2)
  {
    var d := DemandOf(EXPLICIT, 0);
    var b := OUTER + INNER;
    assert OUTER[1..] == [5] && OUTER[2..] == [];
    assert b[0] == 0xA0 && b[1..][0] == 5 && b[2..] == INNER && INNER[1..][0] == 1 && INNER[2..] == [7];
    var c := Chain(5, 0, 2, 1, 5);
    assert TakeTurn(d, OUTER, 0, 0, START) == Go(2, c);
    assert TakeTurn(d, [], 1, 1, c) == Halt(WantMore);
    assert TakeTurn(d, b, 0, 0, START) == Go(2, c);
    assert TakeTurn(d, INNER, 1, 1, c) == Halt(Fail);
    assert TakeTurn(d, INNER, 1, 1, START) == Go(2, Chain(1, 0, 2, 0, 1));
  }

  /**
    Stopping there makes a difference: the frame set up by the outer header is not saved, so a
    length that does not fit it is refused in one call and accepted in two.
   */
  lemma {:induction false} FrameForgotten()
    ensures var r := Run(EXPLICIT, 0, FRESH, OUTER);
            && r.code == WantMore && r.consumed == 2 && !Clear(EXPLICIT, 0, FRESH, OUTER)
            && Run(EXPLICIT, 0, FRESH, OUTER + INNER).code == Fail
            && Run(EXPLICIT, 0, r.state, OUTER[2..] + INNER).code == Ok
  {
    hide CheckFrom, Run, FinishPhase, PrimitivePhase;
    OuterRead();
    var s, whole := FRESH.(step := 1), OUTER + INNER;
    assert Step(EXPLICIT, 0, FRESH, OUTER) == Return(WantMore, s, 2);
    StopsHere(EXPLICIT, 0, FRESH, OUTER);
    StopsHere(EXPLICIT, 0, FRESH, whole);
    assert OUTER[2..] + INNER == INNER && INNER[2..] == [7];
    var s3 := s.(phase := 3, step := 2, left := 1);
    assert Step(EXPLICIT, 0, s, INNER) == Continue(s3, 2);
    GoesOn(EXPLICIT, 0, s, INNER);
    InnerTaken(s3);
  }

  lemma {:induction false} InnerTaken(s: State)
    requires s == FRESH.(phase := 3, step := 2, left := 1)
    ensures Run(EXPLICIT, 0, s, [7]).code == Ok
  {
    hide Run;
    SmallFits(1);
    var s4 := s.(buf := [7], started := true, left := 0, phase := 4);
    assert Step(EXPLICIT, 0, s, [7]) == Continue(s4, 1);
    GoesOn(EXPLICIT, 0, s, [7]);
    StopsHere(EXPLICIT, 0, s4, []);
  }
}
