/**
  Matching the chain of tag-length headers in front of a value against the tags its type
  prescribes, the common first step of every BER decoder.
 */
module BerCheckTags {
  import opened Bits
  import opened BerTag
  import opened BerLength
  import opened BerSkip

  datatype Verdict = Ok | WantMore | Fail

  /** What is expected: the type's tags, how the outermost one is treated, and the form of the last. */
  datatype Demand = Demand(tags: seq<int>, mode: int, lastForm: int) {
    /** The loop must have a first turn. */
    predicate Valid() {
      |tags| > 0 && -1 <= mode <= 1
    }

    predicate Matches(tag: int, tagno: int, step: nat) {
      if mode != 0 && step == 0 then true else 0 <= tagno < |tags| && tag == tags[tagno]
    }

    predicate FormFits(constructed: bool, tagno: int) {
      if tagno < |tags| - 1 then constructed else lastForm == -1 || lastForm == FormOf(constructed)
    }
  }

  function FormOf(constructed: bool): int {
    if constructed then 1 else 0
  }

  /** The loop's variables: the frame that is left, the terminators expected, what was read last. */
  datatype Chain = Chain(limit: int, terminators: nat, consumed: nat, form: int, length: int)

  const START := Chain(-1, 0, 0, -1, 0)

  /** `consumed` is meaningful on success or when a context is kept; `step` is the saved progress. */
  datatype Checked = Checked(code: Verdict, consumed: nat, length: int, form: int, step: nat)

  function Stop(code: Verdict, c: Chain, step: nat): Checked {
    if code == Ok then Checked(Ok, c.consumed, if c.terminators > 0 then 0 - c.terminators else c.length, c.form, step)
    else Checked(code, c.consumed, 0, -1, step)
  }

  /** One turn of the loop: give up, or go on behind a header of `size` octets. */
  datatype Turn = Halt(code: Verdict) | Go(size: nat, chain: Chain)

  /** A header of `size` octets announcing `length`, against the frame established so far. */
  function Enter(c: Chain, constructed: bool, size: nat, length: int): Turn {
    var c' := c.(consumed := c.consumed + size, form := FormOf(constructed), length := length);
    if length == -1 then
      if c.limit == -1 then Go(size, c'.(terminators := c.terminators + 1)) else Halt(Fail)
    else if c.terminators > 0 || (c.limit != -1 && c.limit != size + length) then Halt(Fail)
    else Go(size, c'.(limit := length))
  }

  function TakeTurn(d: Demand, b: seq<byte>, tagno: int, step: nat, c: Chain): (t: Turn)
    ensures t.Go? ==> 2 <= t.size <= |b|
    ensures t.Halt? ==> t.code != Ok
  {
    match FetchTag(b)
    case More => Halt(WantMore)
    case Bad => Halt(Fail)
    case Got(tl, tag) =>
      TagPrefix(b, |b|);
      var constructed := Constructed(b[0]);
      if !d.Matches(tag, tagno, step) || !d.FormFits(constructed, tagno) then Halt(Fail)
      else
        match FetchLength(constructed, b[tl..])
        case More => Halt(WantMore)
        case Bad => Halt(Fail)
        case Got(ll, length) =>
          LengthPrefix(constructed, b[tl..], |b| - tl);
          Enter(c, constructed, tl + ll, length)
  }

  /** Never look past the frame. */
  function Confine(b: seq<byte>, limit: int): seq<byte> {
    if 0 <= limit < |b| then b[..limit] else b
  }

  function CheckFrom(d: Demand, b: seq<byte>, tagno: int, step: nat, c: Chain): Checked
    decreases |d.tags| - tagno
  {
    if tagno >= |d.tags| then Stop(Ok, c, step)
    else
      match TakeTurn(d, b, tagno, step, c)
      case Halt(code) => Stop(code, c, step)
      case Go(size, c') => CheckFrom(d, Confine(b[size..], c'.limit), tagno + 1, step + 1, c')
  }

  function FirstTag(d: Demand, step: nat): int {
    step + if d.mode == 1 then -1 else 0
  }

  function CheckTags(d: Demand, b: seq<byte>, step: nat): Checked {
    CheckFrom(d, b, FirstTag(d, step), step, START)
  }

  /** The body of the loop of ber_check_tags. */
  method OneTurn(d: Demand, ptr: seq<byte>, tagno: int, step: nat, c: Chain) returns (t: Turn)
    ensures t == TakeTurn(d, ptr, tagno, step, c)
  {
    hide FetchTag, FetchLength, Constructed;
    var tag := BerFetchTag(ptr);
    if !tag.Got? {
      return Halt(if tag.More? then WantMore else Fail);
    }
    TagPrefix(ptr, |ptr|);
    var constructed := Constructed(ptr[0]);
    if !d.Matches(tag.value, tagno, step) || !d.FormFits(constructed, tagno) {
      return Halt(Fail);
    }
    var len := BerFetchLength(constructed, ptr[tag.size..]);
    if !len.Got? {
      return Halt(if len.More? then WantMore else Fail);
    }
    var size := tag.size + len.size;
    var next := c.(consumed := c.consumed + size, form := FormOf(constructed), length := len.value);
    if len.value == -1 {
      if c.limit != -1 {
        return Halt(Fail);
      }
      return Go(size, next.(terminators := c.terminators + 1));
    }
    if c.terminators > 0 || (c.limit != -1 && c.limit != len.value + size) {
      return Halt(Fail);
    }
    t := Go(size, next.(limit := len.value));
  }

  /** ber_check_tags, with the step saved by an earlier call or 0 */
  method BerCheckTags(d: Demand, b: seq<byte>, step0: nat) returns (r: Checked)
    requires d.Valid() && FirstTag(d, step0) < |d.tags|
    ensures r == CheckTags(d, b, step0)
  {
    hide TakeTurn;
    var step, tagno := step0, FirstTag(d, step0);
    var ptr, c := b, START;
    while tagno < |d.tags|
      invariant CheckTags(d, b, step0) == CheckFrom(d, ptr, tagno, step, c)
      decreases |d.tags| - tagno
    {
      var turn := OneTurn(d, ptr, tagno, step, c);
      if turn.Halt? {
        return Stop(turn.code, c, step);
      }
      c := turn.chain;
      ptr := ptr[turn.size..];
      if 0 <= c.limit < |ptr| {
        ptr := ptr[..c.limit];
      }
      tagno, step := tagno + 1, step + 1;
    }
    r := Stop(Ok, c, step);
  }

  // ---- The accepted frame ----

  /**
    Once a definite header has been read, octets consumed and frame left always add up to
    the outermost value, and what can still be read lies inside that frame.
   */
  lemma {:induction false} FrameKept(d: Demand, b: seq<byte>, tagno: int, step: nat, c: Chain)
    requires c.limit >= 0 && c.terminators == 0 && c.length == c.limit && |b| <= c.limit
    ensures var r := CheckFrom(d, b, tagno, step, c);
            r.code == Ok ==> r.length >= 0 && r.consumed + r.length == c.consumed + c.limit
    decreases |d.tags| - tagno
  {
    hide TakeTurn;
    var turn := TakeTurn(d, b, tagno, step, c);
    if tagno < |d.tags| && turn.Go? {
      TurnFacts(d, b, tagno, step, c);
      FrameKept(d, Confine(b[turn.size..], turn.chain.limit), tagno + 1, step + 1, turn.chain);
    }
  }

  lemma {:induction false} TurnFacts(d: Demand, b: seq<byte>, tagno: int, step: nat, c: Chain)
    requires TakeTurn(d, b, tagno, step, c).Go?
    ensures var c' := TakeTurn(d, b, tagno, step, c).chain;
            && c'.consumed == c.consumed + TakeTurn(d, b, tagno, step, c).size
            && (c.limit >= 0 ==> c.terminators == c'.terminators == 0
                                 && c'.length == c'.limit == c.limit - TakeTurn(d, b, tagno, step, c).size)
            && (c.limit == -1 && c.terminators > 0 ==> c'.limit == -1 && c'.terminators == c.terminators + 1)
            && -1 <= c'.length
  {
    hide FetchTag, FetchLength, Constructed;
    TagPrefix(b, |b|);
    var tl := FetchTag(b).size;
    LengthPrefix(Constructed(b[0]), b[tl..], |b| - tl);
  }

  /** The size of the first value at the start of `b`, when its length is definite. */
  ghost function OuterSize(b: seq<byte>): int
    requires FetchTag(b).Got? && FetchLength(Constructed(b[0]), Rest(b)).Got?
  {
    var len := FetchLength(Constructed(b[0]), Rest(b));
    FetchTag(b).size + len.size + len.value
  }

  ghost function Rest(b: seq<byte>): seq<byte>
    requires FetchTag(b).Got?
  {
    TagPrefix(b, |b|);
    b[FetchTag(b).size..]
  }

  /**
    An accepted chain of definite headers: the octets consumed and the inner length returned
    are together exactly the outermost value.
   */
  lemma {:induction false} AcceptedFrame(d: Demand, b: seq<byte>)
    requires d.Valid()
    requires CheckTags(d, b, 0).code == Ok && CheckTags(d, b, 0).length >= 0
    ensures FetchTag(b).Got? && FetchLength(Constructed(b[0]), Rest(b)).Got?
    ensures CheckTags(d, b, 0).consumed + CheckTags(d, b, 0).length == OuterSize(b)
  {
    hide TakeTurn, FetchTag, FetchLength, Constructed;
    var tagno := FirstTag(d, 0);
    var turn := TakeTurn(d, b, tagno, 0, START);
    FirstTurn(d, b, tagno);
    var next := Confine(b[turn.size..], turn.chain.limit);
    if turn.chain.limit == -1 {
      Indefinite(d, next, tagno + 1, 1, turn.chain);
      assert false;
    }
    FrameKept(d, next, tagno + 1, 1, turn.chain);
  }

  lemma {:induction false} FirstTurn(d: Demand, b: seq<byte>, tagno: int)
    requires TakeTurn(d, b, tagno, 0, START).Go?
    ensures FetchTag(b).Got? && FetchLength(Constructed(b[0]), Rest(b)).Got?
    ensures var turn := TakeTurn(d, b, tagno, 0, START);
            && turn.chain.consumed == turn.size
            && (turn.chain.limit == -1 ==> turn.chain.terminators == 1)
            && (turn.chain.limit != -1 ==> turn.chain.terminators == 0 && turn.chain.length == turn.chain.limit >= 0
                                           && turn.size + turn.chain.limit == OuterSize(b))
  {
    hide FetchTag, FetchLength, Constructed;
    TagPrefix(b, |b|);
    var tl := FetchTag(b).size;
    LengthPrefix(Constructed(b[0]), b[tl..], |b| - tl);
  }

  /** A chain that starts with an indefinite length reports minus the number of its headers. */
  lemma {:induction false} Indefinite(d: Demand, b: seq<byte>, tagno: int, step: nat, c: Chain)
    requires c.limit == -1 && c.terminators > 0 && tagno <= |d.tags|
    ensures var r := CheckFrom(d, b, tagno, step, c);
            r.code == Ok ==> r.length == -(c.terminators + |d.tags| - tagno)
    decreases |d.tags| - tagno
  {
    hide TakeTurn;
    var turn := TakeTurn(d, b, tagno, step, c);
    if tagno < |d.tags| && turn.Go? {
      TurnFacts(d, b, tagno, step, c);
      Indefinite(d, Confine(b[turn.size..], turn.chain.limit), tagno + 1, step + 1, turn.chain);
    }
  }

  /** What holds of the variables once a header has been read. */
  ghost predicate Read(c: Chain) {
    && (c.form == 0 || c.form == 1)
    && (c.form == 0 ==> c.terminators == 0 && c.length >= 0)
  }

  /** Never more consumed than given; a primitive value has a definite length; progress is saved below the last tag. */
  lemma {:induction false} CheckedFacts(d: Demand, b: seq<byte>, tagno: int, step: nat, c: Chain)
    requires tagno < |d.tags| || Read(c)
    ensures var r := CheckFrom(d, b, tagno, step, c);
            && r.consumed <= c.consumed + |b|
            && (r.code == Ok ==> (r.form == 0 || r.form == 1) && (r.form == 0 ==> r.length >= 0))
            && (r.code != Ok ==> step <= r.step < step + |d.tags| - tagno)
    decreases |d.tags| - tagno
  {
    hide TakeTurn;
    var turn := TakeTurn(d, b, tagno, step, c);
    if tagno < |d.tags| && turn.Go? {
      TurnReads(d, b, tagno, step, c);
      CheckedFacts(d, Confine(b[turn.size..], turn.chain.limit), tagno + 1, step + 1, turn.chain);
    }
  }

  lemma {:induction false} TurnReads(d: Demand, b: seq<byte>, tagno: int, step: nat, c: Chain)
    requires TakeTurn(d, b, tagno, step, c).Go?
    ensures Read(TakeTurn(d, b, tagno, step, c).chain)
    ensures TakeTurn(d, b, tagno, step, c).chain.consumed == c.consumed + TakeTurn(d, b, tagno, step, c).size
  {
    hide FetchTag, FetchLength;
    TagPrefix(b, |b|);
    var tl := FetchTag(b).size;
    PrimitiveLength(b[tl..]);
    LengthPrefix(Constructed(b[0]), b[tl..], |b| - tl);
  }

  lemma {:induction false} PrimitiveLength(b: seq<byte>)
    ensures FetchLength(false, b).Got? ==> FetchLength(false, b).value >= 0
  {
    if b != [] && 0x80 <= b[0] < 0xFF {
      LengthTailSize(b, 1, b[0] - 0x80, 0);
    }
  }

  // ---- Octets that do not matter ----

  lemma {:induction false} HeaderAppend(b: seq<byte>, more: seq<byte>)
    ensures FetchTag(b) != More ==> FetchTag(b + more) == FetchTag(b)
    ensures FetchTag(b).Got? ==>
              var tl, c := FetchTag(b).size, Constructed(b[0]);
              && 1 <= tl <= |b| && (b + more)[0] == b[0]
              && (FetchLength(c, b[tl..]) != More ==> FetchLength(c, (b + more)[tl..]) == FetchLength(c, b[tl..]))
              && (FetchLength(c, b[tl..]).Got? ==> 1 <= FetchLength(c, b[tl..]).size <= |b| - tl)
  {
    hide FetchTag, FetchLength, Constructed;
    TagPrefix(b, |b|);
    if FetchTag(b) != More {
      TagAppend(b, more);
    }
    if FetchTag(b).Got? {
      var tl, c := FetchTag(b).size, Constructed(b[0]);
      assert (b + more)[tl..] == b[tl..] + more;
      LengthPrefix(c, b[tl..], |b| - tl);
      if FetchLength(c, b[tl..]) != More {
        LengthAppend(c, b[tl..], more);
      }
    }
  }

  lemma {:induction false} TurnAppend(d: Demand, b: seq<byte>, more: seq<byte>, tagno: int, step: nat, c: Chain)
    requires TakeTurn(d, b, tagno, step, c) != Halt(WantMore)
    ensures TakeTurn(d, b + more, tagno, step, c) == TakeTurn(d, b, tagno, step, c)
  {
    hide FetchTag, FetchLength, Constructed;
    HeaderAppend(b, more);
  }

  /** What the check decides is not changed by octets after its input. */
  lemma {:induction false} ChainAppend(d: Demand, b: seq<byte>, more: seq<byte>, tagno: int, step: nat, c: Chain)
    requires CheckFrom(d, b, tagno, step, c).code != WantMore
    ensures CheckFrom(d, b + more, tagno, step, c) == CheckFrom(d, b, tagno, step, c)
    decreases |d.tags| - tagno
  {
    hide TakeTurn;
    if tagno < |d.tags| {
      TurnAppend(d, b, more, tagno, step, c);
      var turn := TakeTurn(d, b, tagno, step, c);
      if turn.Go? {
        var next := Confine(b[turn.size..], turn.chain.limit);
        var more' := ConfinedMore(b[turn.size..], more, turn.chain.limit);
        assert (b + more)[turn.size..] == b[turn.size..] + more;
        ChainAppend(d, next, more', tagno + 1, step + 1, turn.chain);
      }
    }
  }

  /** What appended octets add inside a frame. */
  ghost function ConfinedMore(b: seq<byte>, more: seq<byte>, limit: int): (r: seq<byte>)
    ensures Confine(b + more, limit) == Confine(b, limit) + r
  {
    if 0 <= limit < |b| then
      assert (b + more)[..limit] == b[..limit] + [];
      []
    else if 0 <= limit < |b + more| then
      assert (b + more)[..limit] == b + more[..limit - |b|];
      more[..limit - |b|]
    else more
  }

  /** No header is looked for beyond the frame that a first header of definite length sets up. */
  lemma {:induction false} ReadsWithinFrame(d: Demand, b: seq<byte>)
    requires d.Valid() && FetchTag(b).Got? && FetchLength(Constructed(b[0]), Rest(b)).Got?
    requires FetchLength(Constructed(b[0]), Rest(b)).value >= 0 && OuterSize(b) <= |b|
    ensures CheckTags(d, b, 0) == CheckTags(d, b[..OuterSize(b)], 0)
  {
    hide TakeTurn, FetchTag, FetchLength, Constructed;
    var n, tagno := OuterSize(b), FirstTag(d, 0);
    var w := b[..n];
    HeaderWithin(b);
    assert w + b[n..] == b;
    SameTurn(d, w, b[n..], tagno);
    var turn := TakeTurn(d, b, tagno, 0, START);
    if turn.Go? {
      FirstTurn(d, b, tagno);
      assert turn.chain.limit >= 0 by { DefiniteTurn(d, b, tagno); }
      assert Confine(b[turn.size..], turn.chain.limit) == Confine(w[turn.size..], turn.chain.limit);
    }
  }

  /** The first header lies inside its own frame. */
  lemma {:induction false} HeaderWithin(b: seq<byte>)
    requires FetchTag(b).Got? && FetchLength(Constructed(b[0]), Rest(b)).Got?
    requires FetchLength(Constructed(b[0]), Rest(b)).value >= 0 && OuterSize(b) <= |b|
    ensures var w := b[..OuterSize(b)];
            && w != [] && w[0] == b[0] && FetchTag(w) == FetchTag(b)
            && FetchTag(b).size <= |w| && FetchLength(Constructed(b[0]), w[FetchTag(b).size..]).Got?
  {
    hide FetchTag, FetchLength, Constructed;
    TagPrefix(b, |b|);
    var n, tl := OuterSize(b), FetchTag(b).size;
    LengthPrefix(Constructed(b[0]), Rest(b), |Rest(b)|);
    TagPrefix(b, n);
    LengthPrefix(Constructed(b[0]), Rest(b), n - tl);
    assert b[..n][tl..] == Rest(b)[..n - tl];
  }

  lemma {:induction false} SameTurn(d: Demand, w: seq<byte>, more: seq<byte>, tagno: int)
    requires FetchTag(w).Got? && FetchTag(w).size <= |w| && w != []
    requires FetchLength(Constructed(w[0]), w[FetchTag(w).size..]).Got?
    ensures TakeTurn(d, w + more, tagno, 0, START) == TakeTurn(d, w, tagno, 0, START)
  {
    hide FetchTag, FetchLength, Constructed;
    assert TakeTurn(d, w, tagno, 0, START) != Halt(WantMore);
    TurnAppend(d, w, more, tagno, 0, START);
  }

  lemma {:induction false} DefiniteTurn(d: Demand, b: seq<byte>, tagno: int)
    requires FetchTag(b).Got? && FetchLength(Constructed(b[0]), Rest(b)).Got?
    requires FetchLength(Constructed(b[0]), Rest(b)).value >= 0 && TakeTurn(d, b, tagno, 0, START).Go?
    ensures TakeTurn(d, b, tagno, 0, START).chain.limit >= 0
  {
    hide FetchTag, FetchLength, Constructed;
  }

  // ---- Completeness ----

  /** The header octets of one layer of tagging. */
  datatype Layer = Layer(id: seq<byte>, len: seq<byte>)

  function Wrap(layers: seq<Layer>, content: seq<byte>): seq<byte> {
    if layers == [] then content
    else layers[0].id + (layers[0].len + Wrap(layers[1..], content))
  }

  /** Layers that spell the tags `tags`, all constructed but possibly the last, with consistent lengths. */
  ghost predicate Spells(layers: seq<Layer>, tags: seq<int>, constructed: bool, content: seq<byte>) {
    && |layers| == |tags|
    && forall i :: 0 <= i < |layers| ==>
         var form := i < |layers| - 1 || constructed;
         && IsTag(layers[i].id, form) && FetchTag(layers[i].id).value == tags[i]
         && FetchLength(form, layers[i].len) == Got(|layers[i].len|, |Wrap(layers[i + 1..], content)|)
  }

  /** Every properly nested chain of definite headers is accepted, up to the contents. */
  lemma {:induction false} AcceptsChain(d: Demand, layers: seq<Layer>, k: nat, constructed: bool, content: seq<byte>,
                                        rest: seq<byte>, c: Chain)
    requires d.Valid() && d.mode == 0 && (d.lastForm == -1 || d.lastForm == FormOf(constructed))
    requires Spells(layers, d.tags, constructed, content) && k <= |layers|
    requires c.terminators == 0
    requires if k == 0 then c.limit == -1
             else
               && rest == [] && c.limit == c.length == |Wrap(layers[k..], content)|
               && c.form == FormOf(k < |layers| || constructed)
    ensures var r := CheckFrom(d, Wrap(layers[k..], content) + rest, k, k, c);
            && r.code == Ok && r.length == |content| && r.form == FormOf(constructed)
            && r.consumed == c.consumed + |Wrap(layers[k..], content)| - |content|
    decreases |layers| - k
  {
    hide TakeTurn, FetchTag, FetchLength, Constructed, CheckFrom, Wrap, Confine;
    WrapStep(layers, k, content);
    if k < |layers| {
      var l, form, inner := layers[k], k < |layers| - 1 || constructed, Wrap(layers[k + 1..], content);
      var b := Wrap(layers[k..], content) + rest;
      assert b == l.id + (l.len + inner + rest);
      LayerTurn(d, l, form, inner, rest, b, k, c);
      var c' := TakeTurn(d, b, k, k, c).chain;
      AcceptsChain(d, layers, k + 1, constructed, content, [], c');
      ChainStep(d, b, inner, rest, k, c);
    } else {
      ChainEnds(d, content + rest, k, c);
    }
  }

  lemma {:induction false} ChainEnds(d: Demand, b: seq<byte>, k: nat, c: Chain)
    requires k >= |d.tags|
    ensures CheckFrom(d, b, k, k, c) == Stop(Ok, c, k)
  {
  }

  lemma {:induction false} WrapStep(layers: seq<Layer>, k: nat, content: seq<byte>)
    requires k <= |layers|
    ensures k == |layers| ==> Wrap(layers[k..], content) == content
    ensures k < |layers| ==>
              Wrap(layers[k..], content) == layers[k].id + (layers[k].len + Wrap(layers[k + 1..], content))
  {
    if k < |layers| {
      assert layers[k..][1..] == layers[k + 1..];
    }
  }

  /** A turn that goes on into its own frame. */
  lemma {:induction false} ChainStep(d: Demand, b: seq<byte>, inner: seq<byte>, rest: seq<byte>, k: nat, c: Chain)
    requires d.Valid() && k < |d.tags| && TakeTurn(d, b, k, k, c).Go?
    requires var t := TakeTurn(d, b, k, k, c); t.size <= |b| && b[t.size..] == inner + rest && t.chain.limit == |inner|
    ensures CheckFrom(d, b, k, k, c) == CheckFrom(d, inner + [], k + 1, k + 1, TakeTurn(d, b, k, k, c).chain)
  {
    hide TakeTurn;
    assert Confine(inner + rest, |inner|) == inner + [];
  }

  /** The turn that reads one layer of a well-nested chain. */
  lemma {:induction false} LayerTurn(d: Demand, l: Layer, form: bool, inner: seq<byte>, rest: seq<byte>,
                                     b: seq<byte>, k: nat, c: Chain)
    requires IsTag(l.id, form) && FetchLength(form, l.len) == Got(|l.len|, |inner|)
    requires b == l.id + (l.len + inner + rest)
    requires d.mode == 0 && k < |d.tags| && FetchTag(l.id).value == d.tags[k] && d.FormFits(form, k)
    requires c.terminators == 0 && (c.limit == -1 || c.limit == |l.id| + |l.len| + |inner|)
    ensures b[|l.id| + |l.len|..] == inner + rest
    ensures var size := |l.id| + |l.len|;
            TakeTurn(d, b, k, k, c) == Go(size, Chain(|inner|, 0, c.consumed + size, FormOf(form), |inner|))
  {
    hide FetchTag, FetchLength, Constructed;
    HeaderRead(l, form, inner, rest, b);
  }

  lemma {:induction false} HeaderRead(l: Layer, form: bool, inner: seq<byte>, rest: seq<byte>, b: seq<byte>)
    requires IsTag(l.id, form) && FetchLength(form, l.len) == Got(|l.len|, |inner|)
    requires b == l.id + (l.len + inner + rest)
    ensures FetchTag(b) == FetchTag(l.id) && Constructed(b[0]) == form
    ensures FetchLength(form, b[|l.id|..]) == Got(|l.len|, |inner|)
    ensures b[|l.id| + |l.len|..] == inner + rest
  {
    hide FetchTag, FetchLength, Constructed;
    TagAppend(l.id, l.len + inner + rest);
    assert b[|l.id|..] == l.len + (inner + rest);
    LengthAppend(form, l.len, inner + rest);
  }

  /** The header octets of layers, one behind the other. */
  function Headers(layers: seq<Layer>): seq<byte> {
    if layers == [] then [] else layers[0].id + (layers[0].len + Headers(layers[1..]))
  }

  /** Layers of indefinite length that spell the tags `tags`. */
  ghost predicate SpellsIndefinite(layers: seq<Layer>, tags: seq<int>) {
    && |layers| == |tags|
    && forall i :: 0 <= i < |layers| ==>
         && IsTag(layers[i].id, true) && FetchTag(layers[i].id).value == tags[i]
         && FetchLength(true, layers[i].len) == Got(|layers[i].len|, -1)
  }

  lemma {:induction false} CheckStep(d: Demand, b: seq<byte>, tagno: int, step: nat, c: Chain)
    requires tagno < |d.tags|
    ensures var turn := TakeTurn(d, b, tagno, step, c);
            && (turn.Halt? ==> CheckFrom(d, b, tagno, step, c).code != Ok)
            && (turn.Go? && tagno == |d.tags| - 1 ==> CheckFrom(d, b, tagno, step, c) == Stop(Ok, turn.chain, step + 1))
            && (turn.Go? && tagno < |d.tags| - 1 ==>
                  CheckFrom(d, b, tagno, step, c)
                  == CheckFrom(d, Confine(b[turn.size..], turn.chain.limit), tagno + 1, step + 1, turn.chain))
  {
    hide TakeTurn, Confine;
  }

  lemma {:induction false} AllTaken(d: Demand, b: seq<byte>, tagno: nat, c: Chain)
    requires tagno >= |d.tags|
    ensures CheckFrom(d, b, tagno, tagno, c) == Stop(Ok, c, tagno)
  {
  }

  /** Every chain of indefinite headers is accepted too, whatever follows; the length reported counts the layers. */
  lemma {:induction false} AcceptsIndefinite(d: Demand, layers: seq<Layer>, k: nat, rest: seq<byte>, c: Chain)
    requires d.Valid() && d.mode == 0 && (d.lastForm == -1 || d.lastForm == 1)
    requires SpellsIndefinite(layers, d.tags) && k <= |layers|
    requires c.limit == -1 && c.terminators == k && (k > 0 ==> c.form == 1)
    ensures var r := CheckFrom(d, Headers(layers[k..]) + rest, k, k, c);
            && r.code == Ok && r.length == -|layers| && r.form == 1
            && r.consumed == c.consumed + |Headers(layers[k..])|
    decreases |layers| - k
  {
    hide TakeTurn, FetchTag, FetchLength, Constructed, CheckFrom;
    var b := Headers(layers[k..]) + rest;
    if k < |layers| {
      var l, inner := layers[k], Headers(layers[k + 1..]);
      assert layers[k..][1..] == layers[k + 1..];
      assert b == l.id + (l.len + (inner + rest));
      OpenTurn(d, l, inner + rest, b, k, c);
      CheckStep(d, b, k, k, c);
      if k < |layers| - 1 {
        AcceptsIndefinite(d, layers, k + 1, rest, TakeTurn(d, b, k, k, c).chain);
      } else {
        assert inner == [];
      }
    } else {
      AllTaken(d, b, k, c);
    }
  }

  /** The turn that reads a layer of indefinite length. */
  lemma {:induction false} OpenTurn(d: Demand, l: Layer, inner: seq<byte>, b: seq<byte>, k: nat, c: Chain)
    requires IsTag(l.id, true) && FetchLength(true, l.len) == Got(|l.len|, -1) && b == l.id + (l.len + inner)
    requires d.mode == 0 && k < |d.tags| && FetchTag(l.id).value == d.tags[k] && d.FormFits(true, k) && c.limit == -1
    ensures var size := |l.id| + |l.len|;
            && b[size..] == inner
            && TakeTurn(d, b, k, k, c) == Go(size, Chain(-1, c.terminators + 1, c.consumed + size, 1, -1))
  {
    hide FetchTag, FetchLength, Constructed;
    TagAppend(l.id, l.len + inner);
    assert b[|l.id|..] == l.len + inner;
    LengthAppend(true, l.len, inner);
  }
}
