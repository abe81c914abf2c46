/**
  The resumable BER decoder of OCTET STRING and BIT STRING as a machine: one function per
  phase, iterated until the machine stops.  Section 8.7.3 of X.690 allows a string to be
  cut into segments nested to any depth; the machine keeps a stack of expectations.
 */
module OctetString {
  import opened Bits
  import opened BerTag
  import opened BerLength
  import opened BerCheckTags

  /** ASN_OSUBV_STR and ASN_OSUBV_BIT */
  datatype Variant = Str | Bit

  /** The parts of a type descriptor the decoder uses. */
  datatype TypeDesc = TypeDesc(tags: seq<int>, allTags: seq<int>, variant: Variant) {
    predicate Valid() {
      |tags| > 0 && |allTags| > 0
    }

    /** The tag demanded inside a frame at depth `level`. */
    function Expected(level: nat): int
      requires Valid()
    {
      if level < |allTags| then allTags[level] else allTags[|allTags| - 1]
    }
  }

  /** An expectation: octets left to read (or -1), octets processed, end-of-contents wanted. */
  datatype Frame = Frame(left: int, got: nat, wantNulls: bool, chopped: bool)

  /**
    What is kept between calls.  `frames` is the live part of the expectation stack, innermost
    last; `started` says that the buffer has been allocated.
   */
  datatype State = State(phase: nat, step: nat, left: int, frames: seq<Frame>, buf: seq<byte>, started: bool,
                         unused: nat) {
    function Top(): Frame
      requires frames != []
    {
      frames[|frames| - 1]
    }

    function SetTop(f: Frame): State
      requires frames != []
    {
      this.(frames := frames[..|frames| - 1] + [f])
    }
  }

  const FRESH := State(0, 0, 0, [], [], false, 0)

  /** What one turn of the machine does: go on after `size` octets, or return to the caller. */
  datatype Move = Continue(state: State, size: nat) | Return(code: Verdict, state: State, size: nat)

  // ---- APPEND ----

  /** The value of `(int)n` for a size_t, its low 32 bits taken as a signed number. */
  function ToInt(n: nat): int {
    var low := n % 0x1_0000_0000;
    if low < 0x8000_0000 then low else low - 0x1_0000_0000
  }

  /** The allocation that holds `n` octets and a terminator: 16, doubled while too small. */
  function Allocation(n: nat, from: nat): nat
    requires from > 0
    decreases n + 1 - from
  {
    if from > n then from else Allocation(n, 2 * from)
  }

  predicate CanHold(n: nat) {
    ToInt(n) >= 0 && ToInt(Allocation(n, 16)) >= 0
  }

  /** Append octets to the result, or give up on a size that does not fit an int. */
  function Append(s: State, data: seq<byte>): State {
    s.(buf := s.buf + data, started := true)
  }

  // ---- The phases ----

  /** Phase 0: match the tags; a primitive string continues in phase 3, a constructed one in phase 1. */
  function CheckPhase(td: TypeDesc, mode: int, s: State, b: seq<byte>): Move {
    var r := CheckTags(Demand(td.tags, mode, -1), b, s.step);
    if r.code != Ok then Return(r.code, s.(step := r.step), r.consumed)
    else if r.form == 1 then
      Continue(s.(phase := 1, step := r.step, left := r.length, started := false, frames := []), 0)
    else
      Continue(s.(phase := 3, step := r.step, left := r.length, started := false), r.consumed)
  }

  /** A frame that has nothing to wait for. */
  predicate Complete(f: Frame) {
    f.left <= 0 && !f.wantNulls
  }

  /** Leave a complete frame: account for it in the enclosing one, or finish. */
  function Pop(s: State): Move
    requires s.frames != []
  {
    var n := |s.frames|;
    var top := s.Top();
    if n == 1 then Continue(s.(phase := 4, frames := []), 0)
    else
      var prev := s.frames[n - 2];
      if prev.left != -1 && prev.left < top.got then Return(Fail, s, 0)
      else
        var left := if prev.left == -1 then -1 else prev.left - top.got;
        Continue(s.(frames := s.frames[..n - 2] + [prev.(left := left, got := prev.got + top.got)]), 0)
  }

  /** How much of the input the current frame may look at. */
  function Window(s: State, b: seq<byte>): (w: seq<byte>)
    ensures w <= b
  {
    if s.frames == [] || s.Top().left < 0 || s.Top().left >= |b| then b else b[..s.Top().left]
  }

  /** A new expectation below the current one. */
  function Push(s: State, constructed: bool, header: nat, length: int): Move {
    var bounded := s.frames != [] && s.Top().left != -1;
    if bounded && s.Top().left < header + (if length == -1 then 0 else length) then Return(Fail, s, 0)
    else
      var left := if bounded && length == -1 then s.Top().left - header else length;
      var frame := Frame(left, header, length == -1, false);
      Continue(s.(frames := s.frames + [frame], phase := if constructed then 1 else 2), header)
  }

  /** Phase 1: fill the stack with expectations. */
  function ExpectPhase(td: TypeDesc, s: State, b: seq<byte>): Move
    requires td.Valid()
  {
    if s.frames != [] && Complete(s.Top()) then Pop(s)
    else
      var w := Window(s, b);
      match FetchTag(w)
      case More => Return(WantMore, s, 0)
      case Bad => Return(Fail, s, 0)
      case Got(tl, tag) =>
        TagPrefix(w, |w|);
        var constructed := Constructed(w[0]);
        match FetchLength(constructed, w[tl..])
        case More => Return(WantMore, s, 0)
        case Bad => Return(Fail, s, 0)
        case Got(ll, length) =>
          LengthPrefix(constructed, w[tl..], |w| - tl);
          if s.frames != [] && s.Top().wantNulls && w[0] == 0 && w[1] == 0 then
            var top := s.Top();
            Continue(s.SetTop(top.(left := 0, got := top.got + 2, wantNulls := false)), 2)
          else if s.frames != [] && tag != td.Expected(|s.frames| - 1) then Return(Fail, s, 0)
          else Push(s, constructed, tl + ll, length)
  }

  /** Phase 2: contents of a primitive segment, as far as they are there. */
  function ContentPhase(td: TypeDesc, s: State, b: seq<byte>): Move
    requires s.frames != [] && s.Top().left >= 0
  {
    var top := s.Top();
    var len := if |b| < top.left then |b| else top.left;
    var chop := td.variant == Bit && !top.chopped && len > 0;
    var data := if chop then b[1..len] else b[..len];
    if len > 0 && !CanHold(|s.buf| + |data|) then Return(Fail, s, 0)
    else
      var s1 := if len > 0 then Append(s, data) else s;
      var s2 := if chop then s1.(unused := b[0]) else s1;
      var s3 := s2.SetTop(top.(left := top.left - len, got := top.got + len, chopped := top.chopped || chop));
      if top.left > len then Return(WantMore, s3, len) else Continue(s3.(phase := 1), len)
  }

  /** Phase 3: contents of a primitive encoding; no stack is needed. */
  function PrimitivePhase(td: TypeDesc, s: State, b: seq<byte>): Move
    requires s.left >= 0
  {
    if |b| == 0 < s.left then Return(WantMore, s, 0)
    else
      var len := if |b| < s.left then |b| else s.left;
      var chop := td.variant == Bit && !s.started && s.left > 0;
      var data := if chop then b[1..len] else b[..len];
      if !CanHold(|s.buf| + |data|) then Return(Fail, s, if chop then 1 else 0)
      else
        var s1 := Append(s, data).(left := s.left - len);
        var s2 := if chop then s1.(unused := b[0]) else s1;
        if |b| < s.left then Return(WantMore, s2, len) else Continue(s2.(phase := 4), len)
  }

  /** The octet with its `unused` low-order bits cleared. */
  function ClearLow(b: byte, unused: nat): byte
    requires unused <= 7
  {
    ClearLowBounds(b, unused);
    b - b % Pow2(unused)
  }

  lemma {:induction false} ClearLowBounds(b: byte, unused: nat)
    requires unused <= 7
    ensures 0 <= b - b % Pow2(unused) < 256
  {
    hide Pow2;
    BelowRemainder(b, Pow2(unused));
  }

  lemma {:induction false} BelowRemainder(b: nat, d: nat)
    requires d > 0
    ensures 0 <= b % d <= b
  {
    assert b == b / d * d + b % d;
    assert b / d * d >= 0 by { MulMono(0, b / d, d); }
  }

  /** Completion: a BIT STRING has its unused bits zeroed. */
  function FinishPhase(td: TypeDesc, s: State): Move {
    if td.variant == Str then Return(Ok, s, 0)
    else if s.buf == [] then Return(if s.unused == 0 then Ok else Fail, s, 0)
    else if s.unused > 7 then Return(Fail, s, 0)
    else
      var n := |s.buf| - 1;
      Return(Ok, s.(buf := s.buf[n := ClearLow(s.buf[n], s.unused)]), 0)
  }

  // ---- The machine ----

  /** What the phases rely on. */
  predicate Sound(td: TypeDesc, mode: int, s: State) {
    && (s.phase == 0 ==> FirstTag(Demand(td.tags, mode, -1), s.step) < |td.tags|)
    && (s.phase == 2 ==> s.frames != [] && s.Top().left >= 0)
    && (s.phase == 3 ==> s.left >= 0)
  }

  function Step(td: TypeDesc, mode: int, s: State, b: seq<byte>): Move
    requires td.Valid() && Sound(td, mode, s)
  {
    if s.phase == 0 then CheckPhase(td, mode, s, b)
    else if s.phase == 1 then ExpectPhase(td, s, b)
    else if s.phase == 2 then ContentPhase(td, s, b)
    else if s.phase == 3 then PrimitivePhase(td, s, b)
    else FinishPhase(td, s)
  }

  /** Phases in the order in which they can follow one another without consuming anything. */
  function Rank(s: State): nat {
    if s.phase == 0 then 4 else if s.phase == 2 then 3 else if s.phase == 1 then 2 else if s.phase == 3 then 1 else 0
  }

  /** Nothing is consumed beyond the input, and going on without consuming lowers the rank. */
  predicate Advances(td: TypeDesc, mode: int, s: State, b: seq<byte>, m: Move) {
    && m.size <= |b|
    && Sound(td, mode, m.state)
    && |m.state.buf| <= |s.buf| + m.size
    && (m.Continue? && m.size == 0 ==>
          Rank(m.state) < Rank(s) || (Rank(m.state) == Rank(s) && |m.state.frames| < |s.frames|))
  }

  lemma {:induction false} StepAdvances(td: TypeDesc, mode: int, s: State, b: seq<byte>)
    requires td.Valid() && Sound(td, mode, s)
    ensures Advances(td, mode, s, b, Step(td, mode, s, b))
  {
    hide CheckFrom, ExpectPhase, CanHold;
    if s.phase == 0 {
      var d := Demand(td.tags, mode, -1);
      CheckedFacts(d, b, FirstTag(d, s.step), s.step, START);
    } else if s.phase == 1 {
      ExpectAdvances(td, mode, s, b);
    }
  }

  lemma {:induction false} ExpectAdvances(td: TypeDesc, mode: int, s: State, b: seq<byte>)
    requires td.Valid() && s.phase == 1
    ensures Advances(td, mode, s, b, ExpectPhase(td, s, b))
  {
    hide FetchTag, FetchLength, Constructed;
    if s.frames == [] || !Complete(s.Top()) {
      var w := Window(s, b);
      TagPrefix(w, |w|);
      if FetchTag(w).Got? {
        var tl, constructed := FetchTag(w).size, Constructed(w[0]);
        LengthPrefix(constructed, w[tl..], |w| - tl);
        PrimitiveLength(w[tl..]);
      }
    }
  }

  /** The outcome of one call. */
  datatype Outcome = Outcome(code: Verdict, state: State, consumed: nat) {
    function Plus(n: nat): Outcome {
      this.(consumed := consumed + n)
    }
  }

  /** One call of the decoder: turn after turn until it returns. */
  function Run(td: TypeDesc, mode: int, s: State, b: seq<byte>): (r: Outcome)
    requires td.Valid() && Sound(td, mode, s)
    ensures r.consumed <= |b| && Sound(td, mode, r.state) && |r.state.buf| <= |s.buf| + r.consumed
    decreases |b|, Rank(s), |s.frames|
  {
    StepAdvances(td, mode, s, b);
    match Step(td, mode, s, b)
    case Return(code, s', n) => Outcome(code, s', n)
    case Continue(s', n) => Run(td, mode, s', b[n..]).Plus(n)
  }
}
