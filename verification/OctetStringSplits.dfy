/**
  Which types may be given to the decoder of strings in any pieces: exactly those with one
  header to match.  For every other type there is an input that is refused when presented at
  once and not refused when the decoder is interrupted behind the outermost header, since the
  frame that header sets up is not saved.
 */
module OctetStringSplits {
  import opened Bits
  import opened BerTag
  import opened BerLength
  import opened BerCheckTags
  import opened OctetString
  import opened OctetStringResume

  // ---- Spelling a tag ----

  /** Identifier octets of a tag, in either form. */
  function Spelled(tag: nat, constructed: bool): (id: seq<byte>)
    requires tag < TAG_LIMIT
    ensures |id| >= 1
  {
    var id := SerializeTag(tag);
    if constructed && id[0] < 0xE0 then [id[0] + 0x20] + id[1..] else id
  }

  /** Only the class and what follows the first octet matter. */
  lemma {:induction false} TailElsewhere(b: seq<byte>, c: seq<byte>, i: nat, val: nat, tclass: nat)
    requires i >= 1 && |b| == |c| && forall j :: 1 <= j < |b| ==> b[j] == c[j]
    ensures TagTail(b, i, val, tclass) == TagTail(c, i, val, tclass)
    decreases |b| - i
  {
    if i < |b| && b[i] >= 0x80 && val * 0x80 + b[i] % 0x80 < CONTINUATION_LIMIT {
      TailElsewhere(b, c, i + 1, val * 0x80 + b[i] % 0x80, tclass);
    }
  }

  lemma {:induction false} FormSet(first: byte)
    requires first / 0x20 % 2 == 0
    ensures first < 0xE0 && (first + 0x20) % 0x20 == first % 0x20 && (first + 0x20) / 0x40 == first / 0x40
    ensures Constructed(first + 0x20)
  {
  }

  lemma {:induction false} FirstOctet(tag: nat)
    requires tag < TAG_LIMIT
    ensures SerializeTag(tag)[0] / 0x20 % 2 == 0 && |SerializeTag(tag)| <= 6
  {
    hide Continued, Groups;
    var tclass, tval := tag % 4, tag / 4;
    FiveGroups(tval);
    GroupsBound(tval, 5);
    var low := if tval <= 30 then tval else 0x1F;
    assert SerializeTag(tag)[0] == tclass * 0x40 + low;
    DivModUnique(2 * tclass, low, 0x20, tclass * 0x40 + low);
  }

  lemma {:induction false} SpelledTag(tag: nat, constructed: bool, rest: seq<byte>)
    requires tag < TAG_LIMIT
    ensures var id := Spelled(tag, constructed);
            FetchTag(id + rest) == Got(|id|, tag) && Constructed(id[0]) == constructed && |id| <= 6
  {
    hide SerializeTag, TagTail;
    var id := SerializeTag(tag);
    TagRoundTrip(tag, rest);
    FirstOctet(tag);
    FormSet(id[0]);
    if constructed {
      var b, c := id + rest, Spelled(tag, true) + rest;
      assert forall j :: 1 <= j < |b| ==> b[j] == c[j];
      TailElsewhere(b, c, 1, 0, b[0] / 0x40);
    }
  }

  // ---- Interrupted behind the outermost header ----

  /** A header with the given tag and a short length. */
  function Head(tag: nat, constructed: bool, length: byte): seq<byte>
    requires tag < TAG_LIMIT
  {
    Spelled(tag, constructed) + [length]
  }

  /** A header that is wanted, in front of anything. */
  lemma {:induction false} HeadTurn(d: Demand, tag: nat, constructed: bool, length: byte, rest: seq<byte>, tagno: int,
                                    step: nat, c: Chain)
    requires tag < TAG_LIMIT && length < 0x80 && d.Matches(tag, tagno, step) && d.FormFits(constructed, tagno)
    ensures var h := Head(tag, constructed, length);
            TakeTurn(d, h + rest, tagno, step, c) == Enter(c, constructed, |h|, length) && |h| <= 7
  {
    hide Spelled, FetchTag, Constructed;
    var id := Spelled(tag, constructed);
    var b := Head(tag, constructed, length) + rest;
    assert b == id + ([length] + rest);
    SpelledTag(tag, constructed, [length] + rest);
    assert b[0] == id[0] && b[|id|..] == [length] + rest;
  }

  /** The tags are words, as the source keeps them. */
  predicate Words(td: TypeDesc) {
    forall i :: 0 <= i < |td.tags| ==> 0 <= td.tags[i] < TAG_LIMIT
  }

  /** Two headers: the outer one promises 127 octets, the inner one 100 and so too few. */
  function Outer(td: TypeDesc): seq<byte>
    requires td.Valid() && Words(td)
  {
    Head(td.tags[0], true, 127)
  }

  function Inner(td: TypeDesc, mode: int): seq<byte>
    requires td.Valid() && Words(td) && (mode == 1 || |td.tags| >= 2)
  {
    var at := FirstTag(DemandOf(td, mode), 1);
    Head(td.tags[at], at < |td.tags| - 1, 100)
  }

  /** Presented at once, the inner length does not fit the frame. */
  lemma {:induction false} RefusedAtOnce(td: TypeDesc, mode: int)
    requires td.Valid() && Words(td) && -1 <= mode <= 1 && (mode == 1 || |td.tags| >= 2)
    ensures CheckTags(DemandOf(td, mode), Outer(td) + Inner(td, mode), 0).code == Fail
  {
    hide Head, TakeTurn;
    var d, h, k := DemandOf(td, mode), Outer(td), Inner(td, mode);
    var at := FirstTag(d, 1);
    HeadTurn(d, td.tags[0], true, 127, k, at - 1, 0, START);
    var c := Chain(127, 0, |h|, 1, 127);
    assert (h + k)[|h|..] == k && k + [] == k;
    HeadTurn(d, td.tags[at], at < |td.tags| - 1, 100, [], at, 1, c);
    assert TakeTurn(d, k, at, 1, c) == Halt(Fail);
    assert CheckFrom(d, k, at, 1, c).code == Fail;
  }

  /** Interrupted, the decoder has taken the outer header and goes on without its frame. */
  lemma {:induction false} StopsBehindOuter(td: TypeDesc, mode: int)
    requires td.Valid() && Words(td) && -1 <= mode <= 1 && (mode == 1 || |td.tags| >= 2)
    ensures CheckTags(DemandOf(td, mode), Outer(td), 0) == Checked(WantMore, |Outer(td)|, 0, -1, 1)
  {
    hide Head, TakeTurn;
    var d, h := DemandOf(td, mode), Outer(td);
    var at := FirstTag(d, 1);
    HeadTurn(d, td.tags[0], true, 127, [], at - 1, 0, START);
    var c := Chain(127, 0, |h|, 1, 127);
    assert h + [] == h && h[|h|..] == [];
    NoHeader(d, at, 1, c);
    assert CheckFrom(d, [], at, 1, c) == Stop(WantMore, c, 1);
  }

  lemma {:induction false} NoHeader(d: Demand, tagno: int, step: nat, c: Chain)
    ensures TakeTurn(d, [], tagno, step, c) == Halt(WantMore)
  {
  }

  lemma {:induction false} TakenAlone(td: TypeDesc, mode: int)
    requires td.Valid() && Words(td) && -1 <= mode <= 1 && (mode == 1 || |td.tags| >= 2)
    ensures var d, k := DemandOf(td, mode), Inner(td, mode);
            var r := CheckTags(d, k, 1);
            if FirstTag(d, 1) == |td.tags| - 1 then r == Checked(Ok, |k|, 100, 0, 2) else r.code == WantMore
  {
    hide Head, TakeTurn;
    var d, k := DemandOf(td, mode), Inner(td, mode);
    var at := FirstTag(d, 1);
    var last := at == |td.tags| - 1;
    HeadTurn(d, td.tags[at], !last, 100, [], at, 1, START);
    var c := Chain(100, 0, |k|, FormOf(!last), 100);
    assert k + [] == k && k[|k|..] == [];
    NoHeader(d, at + 1, 2, c);
    assert CheckFrom(d, [], at + 1, 2, c) == if last then Stop(Ok, c, 2) else Stop(WantMore, c, 2);
  }

  lemma {:induction false} RunsAtOnce(td: TypeDesc, mode: int)
    requires td.Valid() && Words(td) && -1 <= mode <= 1 && (mode == 1 || |td.tags| >= 2)
    ensures Run(td, mode, FRESH, Outer(td) + Inner(td, mode)).code == Fail
  {
    hide CheckTags, Outer, Inner, Run;
    RefusedAtOnce(td, mode);
    StopsHere(td, mode, FRESH, Outer(td) + Inner(td, mode));
  }

  lemma {:induction false} RunsInTurn(td: TypeDesc, mode: int)
    requires td.Valid() && Words(td) && -1 <= mode <= 1 && (mode == 1 || |td.tags| >= 2)
    ensures var r := Run(td, mode, FRESH, Outer(td));
            && r.code == WantMore && r.consumed == |Outer(td)| && r.state == FRESH.(step := 1)
            && Run(td, mode, r.state, Inner(td, mode)).code == WantMore
  {
    hide CheckTags, Outer, Inner, Run;
    StopsBehindOuter(td, mode);
    StopsHere(td, mode, FRESH, Outer(td));
    TakenAlone(td, mode);
    var s, k := FRESH.(step := 1), Inner(td, mode);
    if Step(td, mode, s, k).Return? {
      StopsHere(td, mode, s, k);
    } else {
      GoesOn(td, mode, s, k);
      var s' := Step(td, mode, s, k).state;
      assert k[|k|..] == [];
      StopsHere(td, mode, s', []);
    }
  }

  /** All ways of cutting all inputs have the outcome of presenting them at once exactly for one header to match. */
  lemma {:induction false} SplitsExactly(td: TypeDesc, mode: int)
    requires td.Valid() && Words(td) && -1 <= mode <= 1
    ensures (forall pieces :: pieces != [] && |Flatten(pieces)| < SIZE_LIMIT ==>
               Feed(td, mode, FRESH, [], pieces) == Run(td, mode, FRESH, Flatten(pieces)))
            <==> Plain(td, mode)
  {
    hide Run, Feed, Flatten, Outer, Inner, NeverInChain;
    if Plain(td, mode) {
      forall pieces | pieces != [] && |Flatten(pieces)| < SIZE_LIMIT
        ensures Feed(td, mode, FRESH, [], pieces) == Run(td, mode, FRESH, Flatten(pieces))
      {
        PlainNeverInChain(td, mode, FRESH, [], pieces);
        FeedAnySplit(td, mode, FRESH, [], pieces);
        assert [] + Flatten(pieces) == Flatten(pieces);
      }
    } else {
      TwoPieces(td, mode);
    }
  }

  /** The cut that shows it. */
  lemma {:induction false} TwoPieces(td: TypeDesc, mode: int)
    requires td.Valid() && Words(td) && -1 <= mode <= 1 && !Plain(td, mode)
    ensures var pieces := [Outer(td), Inner(td, mode)];
            && |Flatten(pieces)| < SIZE_LIMIT
            && Feed(td, mode, FRESH, [], pieces) != Run(td, mode, FRESH, Flatten(pieces))
  {
    hide Run, Outer, Inner;
    var h, k := Outer(td), Inner(td, mode);
    var pieces := [h, k];
    RunsAtOnce(td, mode);
    RunsInTurn(td, mode);
    assert pieces[1..] == [k];
    assert Flatten(pieces) == h + k by { TwoFlat(h, k); }
    assert [] + h == h && h[|h|..] == [] && [] + k == k;
    HeadsSmall(td, mode);
  }

  lemma {:induction false} TwoFlat(h: seq<byte>, k: seq<byte>)
    ensures Flatten([h, k]) == h + k
  {
    var none: seq<seq<byte>> := [];
    assert [h, k][1..] == [k] && [k][1..] == none && Flatten(none) == [];
    assert Flatten([k]) == k + [];
  }

  lemma {:induction false} HeadsSmall(td: TypeDesc, mode: int)
    requires td.Valid() && Words(td) && -1 <= mode <= 1 && (mode == 1 || |td.tags| >= 2)
    ensures |Outer(td)| <= 7 && |Inner(td, mode)| <= 7
  {
    hide Spelled;
    var at := FirstTag(DemandOf(td, mode), 1);
    SpelledTag(td.tags[0], true, []);
    SpelledTag(td.tags[at], at < |td.tags| - 1, []);
  }
}
