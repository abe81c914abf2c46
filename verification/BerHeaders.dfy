/**
  What ber_check_tags accepts, told by the headers that stand in its input: which tags, forms and
  lengths they must have in each tag mode, wherever they come from.
 */
module BerHeaders {
  import opened Bits
  import opened BerTag
  import opened BerLength
  import opened BerCheckTags

  /** A header: its tag, its form, the octets it takes, and the length it announces, -1 when indefinite. */
  datatype Head = Head(tag: int, constructed: bool, size: nat, length: int)

  ghost predicate IsHead(b: seq<byte>, h: Head) {
    && b != [] && FetchTag(b).Got? && FetchTag(b).size <= h.size <= |b|
    && h.tag == FetchTag(b).value && h.constructed == Constructed(b[0])
    && FetchLength(h.constructed, b[FetchTag(b).size..]) == Got(h.size - FetchTag(b).size, h.length)
  }

  /** The headers `hs` stand one behind the other at the start of `b`. */
  ghost predicate Stand(b: seq<byte>, hs: seq<Head>)
    decreases |hs|
  {
    hs == [] || (IsHead(b, hs[0]) && Stand(b[hs[0].size..], hs[1..]))
  }

  /** How many headers there are in front of the type's own tags. */
  function Lead(d: Demand): nat {
    if d.mode == 1 then 1 else 0
  }

  /**
    The headers from the `k`-th on are as demanded: every tag is the one at its place among the type's
    tags, except that with a tag mode other than 0 the outermost header may have any; all but the last
    are constructed, and the last has the form asked for; and every one holds exactly the next.
   */
  ghost predicate Meets(d: Demand, hs: seq<Head>, k: nat) {
    && |hs| == |d.tags| + Lead(d) - k
    && (forall j :: 0 <= j < |hs| && (k + j > 0 || d.mode == 0) ==> hs[j].tag == d.tags[k + j - Lead(d)])
    && (forall j :: 0 <= j < |hs| - 1 ==> hs[j].constructed)
    && (hs != [] ==> d.lastForm == -1 || d.lastForm == if hs[|hs| - 1].constructed then 1 else 0)
    && (forall j :: 0 <= j < |hs| - 1 ==> Holds(hs[j].length, hs[j + 1]))
  }

  /** Inside a definite length the next header and its contents fill it; inside an indefinite one all are. */
  ghost predicate Holds(length: int, next: Head) {
    if length == -1 then next.length == -1 else next.length >= 0 && length == next.size + next.length
  }

  function Total(hs: seq<Head>): nat {
    if hs == [] then 0 else hs[0].size + Total(hs[1..])
  }

  // ---- One header in a window ----

  lemma {:induction false} HeadSize(b: seq<byte>, h: Head)
    requires IsHead(b, h)
    ensures 2 <= h.size && -1 <= h.length
  {
    hide FetchTag, FetchLength, Constructed;
    TagPrefix(b, |b|);
    LengthPrefix(h.constructed, b[FetchTag(b).size..], |b| - FetchTag(b).size);
  }

  /** A header can be read in a window exactly when it can be read there and fits inside. */
  lemma {:induction false} HeadInside(b: seq<byte>, n: nat, h: Head)
    requires n <= |b|
    ensures IsHead(b[..n], h) <==> IsHead(b, h) && h.size <= n
  {
    hide FetchTag, FetchLength, Constructed;
    var w := b[..n];
    assert w + b[n..] == b;
    if IsHead(w, h) {
      TagAppend(w, b[n..]);
      var tl := FetchTag(w).size;
      assert b[tl..] == w[tl..] + b[n..];
      LengthAppend(h.constructed, w[tl..], b[n..]);
    }
    if IsHead(b, h) && h.size <= n {
      TagPrefix(b, n);
      var tl := FetchTag(b).size;
      LengthPrefix(h.constructed, b[tl..], |b| - tl);
      assert FetchTag(w) == FetchTag(b);
      LengthPrefix(h.constructed, b[tl..], n - tl);
      assert w[tl..] == b[tl..][..n - tl];
    }
  }

  /** The turn of the loop in front of a header. */
  lemma {:induction false} HeadTurn(d: Demand, b: seq<byte>, h: Head, tagno: int, step: nat, c: Chain)
    requires IsHead(b, h)
    ensures TakeTurn(d, b, tagno, step, c)
            == if d.Matches(h.tag, tagno, step) && d.FormFits(h.constructed, tagno)
               then Enter(c, h.constructed, h.size, h.length) else Halt(Fail)
  {
    hide FetchTag, FetchLength, Constructed, Enter, Demand.Matches, Demand.FormFits;
  }

  /** A turn that goes on has read a header. */
  lemma {:induction false} TurnHead(d: Demand, b: seq<byte>, tagno: int, step: nat, c: Chain) returns (h: Head)
    requires TakeTurn(d, b, tagno, step, c).Go?
    ensures IsHead(b, h)
  {
    hide FetchTag, FetchLength, Constructed, Enter, Demand.Matches, Demand.FormFits;
    TagPrefix(b, |b|);
    var tl, constructed := FetchTag(b).size, Constructed(b[0]);
    LengthPrefix(constructed, b[tl..], |b| - tl);
    var length := FetchLength(constructed, b[tl..]);
    h := Head(FetchTag(b).value, constructed, tl + length.size, length.value);
  }

  // ---- The whole chain ----

  /**
    The loop's variables in front of the `k`-th header, inside a header that announced `length`, when the
    `first` is where this call began.
   */
  ghost predicate Inside(c: Chain, first: nat, k: nat, length: int) {
    if k <= first then k == first && c == START
    else
      && c.length == length
      && if length == -1 then c.limit == -1 && c.terminators == k - first
         else c.limit == length >= 0 && c.terminators == 0
  }

  lemma {:induction false} Entered(c: Chain, first: nat, k: nat, length: int, h: Head)
    requires Inside(c, first, k, length) && 2 <= h.size && -1 <= h.length
    ensures var turn := Enter(c, h.constructed, h.size, h.length);
            && (turn.Go? <==> k == first || Holds(length, h))
            && (turn.Go? ==>
                  && turn.size == h.size && Inside(turn.chain, first, k + 1, h.length)
                  && turn.chain.consumed == c.consumed + h.size && turn.chain.form == FormOf(h.constructed))
  {
  }

  /** A chain in a window, and behind its first header. */
  lemma {:induction false} Windows(b: seq<byte>, c: Chain, first: nat, k: nat, length: int, h: Head)
    requires Inside(c, first, k, length) && -1 <= h.length && (k == first || Holds(length, h)) && h.size <= |b|
    ensures IsHead(Confine(b, c.limit), h) <==> IsHead(b, h)
    ensures h.size <= |Confine(b, c.limit)|
    ensures Confine(Confine(b, c.limit)[h.size..], h.length) == Confine(b[h.size..], h.length)
  {
    hide IsHead;
    if 0 <= c.limit < |b| {
      HeadInside(b, c.limit, h);
    }
  }

  lemma {:induction false} MeetsStep(d: Demand, hs: seq<Head>, k: nat)
    requires hs != []
    ensures Meets(d, hs, k) <==>
              && |hs| == |d.tags| + Lead(d) - k
              && ((k == 0 && d.mode != 0) || hs[0].tag == d.tags[k - Lead(d)])
              && (|hs| == 1 ==> d.lastForm == -1 || d.lastForm == if hs[0].constructed then 1 else 0)
              && (|hs| > 1 ==> hs[0].constructed && Holds(hs[0].length, hs[1]))
              && Meets(d, hs[1..], k + 1)
  {
  }

  /** Any window between the headers. */
  lemma {:induction false} MatchesTag(d: Demand, tag: int, k: nat)
    requires d.Valid() && k < |d.tags| + Lead(d)
    ensures d.Matches(tag, k - Lead(d), k) <==> (k == 0 && d.mode != 0) || tag == d.tags[k - Lead(d)]
  {
  }

  lemma {:induction false} Goes(d: Demand, b: seq<byte>, tagno: int, step: nat, c: Chain)
    requires tagno < |d.tags| && TakeTurn(d, b, tagno, step, c).Go?
    ensures var turn := TakeTurn(d, b, tagno, step, c);
            CheckFrom(d, b, tagno, step, c)
            == CheckFrom(d, Confine(b[turn.size..], turn.chain.limit), tagno + 1, step + 1, turn.chain)
  {
    hide TakeTurn, Confine;
  }

  lemma {:induction false} HaltsOrGoes(d: Demand, b: seq<byte>, tagno: int, step: nat, c: Chain)
    requires tagno < |d.tags| && CheckFrom(d, b, tagno, step, c).code == Ok
    ensures TakeTurn(d, b, tagno, step, c).Go?
  {
    hide TakeTurn, Confine;
  }

  /** Headers that fit are accepted one after the other, up to what the last one announces. */
  lemma {:induction false} Accepts(d: Demand, hs: seq<Head>, first: nat, k: nat, b: seq<byte>, c: Chain,
                                   length: int)
    requires d.Valid() && Inside(c, first, k, length) && k <= |d.tags| + Lead(d)
    requires Stand(b, hs) && Meets(d, hs, k) && (k > first && hs != [] ==> Holds(length, hs[0]))
    requires k > first || hs != []
    ensures var r := CheckFrom(d, Confine(b, c.limit), k - Lead(d), k, c);
            && r.code == Ok && r.consumed == c.consumed + Total(hs)
            && r.form == (if hs == [] then c.form else FormOf(hs[|hs| - 1].constructed))
            && r.length == (var last := if hs == [] then length else hs[|hs| - 1].length;
                            if last == -1 then -(k - first + |hs|) else last)
    decreases |hs|
  {
    hide TakeTurn, IsHead, Confine, Meets, Enter, Demand.Matches, Demand.FormFits;
    MeetsLength(d, hs, k);
    if hs != [] {
      var h, w := hs[0], Confine(b, c.limit);
      HeadSize(b, h);
      HeadBound(b, h);
      MeetsStep(d, hs, k);
      Windows(b, c, first, k, length, h);
      HeadTurn(d, w, h, k - Lead(d), k, c);
      MatchesTag(d, h.tag, k);
      FormNeeded(d, h.constructed, k);
      Entered(c, first, k, length, h);
      Goes(d, w, k - Lead(d), k, c);
      var c' := Enter(c, h.constructed, h.size, h.length).chain;
      Accepts(d, hs[1..], first, k + 1, b[h.size..], c', h.length);
    }
  }

  lemma {:induction false} HeadBound(b: seq<byte>, h: Head)
    requires IsHead(b, h)
    ensures h.size <= |b|
  {
  }

  lemma {:induction false} FormNeeded(d: Demand, constructed: bool, k: nat)
    requires k < |d.tags| + Lead(d)
    ensures d.FormFits(constructed, k - Lead(d)) <==>
              if k < |d.tags| + Lead(d) - 1 then constructed
              else d.lastForm == -1 || d.lastForm == if constructed then 1 else 0
  {
  }

  lemma {:induction false} InWindow(b: seq<byte>, limit: int, h: Head)
    requires IsHead(Confine(b, limit), h)
    ensures IsHead(b, h)
  {
    hide IsHead;
    if 0 <= limit < |b| {
      HeadInside(b, limit, h);
    }
  }

  lemma {:induction false} NothingLeft(d: Demand, k: nat)
    requires k == |d.tags| + Lead(d)
    ensures Meets(d, [], k)
  {
  }

  lemma {:induction false} MeetsLength(d: Demand, hs: seq<Head>, k: nat)
    requires Meets(d, hs, k)
    ensures |hs| == |d.tags| + Lead(d) - k
  {
  }

  /** Whatever is accepted has been read as headers that fit. */
  lemma {:induction false} Accepted(d: Demand, first: nat, k: nat, b: seq<byte>, c: Chain, length: int)
    returns (hs: seq<Head>)
    requires d.Valid() && Inside(c, first, k, length) && k <= |d.tags| + Lead(d)
    requires CheckFrom(d, Confine(b, c.limit), k - Lead(d), k, c).code == Ok
    ensures Stand(b, hs) && Meets(d, hs, k) && (k > first && hs != [] ==> Holds(length, hs[0]))
    decreases |d.tags| + Lead(d) - k
  {
    hide TakeTurn, IsHead, Confine, Meets, Enter, Demand.Matches, Demand.FormFits;
    if k == |d.tags| + Lead(d) {
      hs := [];
      NothingLeft(d, k);
    } else {
      var w := Confine(b, c.limit);
      HaltsOrGoes(d, w, k - Lead(d), k, c);
      var h := TurnHead(d, w, k - Lead(d), k, c);
      HeadSize(w, h);
      HeadBound(w, h);
      InWindow(b, c.limit, h);
      HeadBound(b, h);
      HeadTurn(d, w, h, k - Lead(d), k, c);
      MatchesTag(d, h.tag, k);
      FormNeeded(d, h.constructed, k);
      Entered(c, first, k, length, h);
      Windows(b, c, first, k, length, h);
      var c' := Enter(c, h.constructed, h.size, h.length).chain;
      Goes(d, w, k - Lead(d), k, c);
      var rest := Accepted(d, first, k + 1, b[h.size..], c', h.length);
      hs := [h] + rest;
      assert hs[1..] == rest;
      MeetsLength(d, rest, k + 1);
      MeetsStep(d, hs, k);
    }
  }

  /**
    The check accepts an input exactly when headers stand at its start that are as demanded, in every
    tag mode, to any depth, and wherever an earlier call left off.
   */
  lemma {:induction false} CheckExact(d: Demand, b: seq<byte>, step: nat)
    requires d.Valid() && FirstTag(d, step) < |d.tags|
    ensures CheckTags(d, b, step).code == Ok <==> exists hs :: Stand(b, hs) && Meets(d, hs, step)
  {
    hide CheckFrom, Stand, Meets;
    if CheckTags(d, b, step).code == Ok {
      var hs := Accepted(d, step, step, b, START, 0);
      assert Stand(b, hs) && Meets(d, hs, step);
    }
    if hs :| Stand(b, hs) && Meets(d, hs, step) {
      CheckReports(d, b, step, hs);
    }
  }

  /** What it then reports: the octets of the headers, and the innermost form and length. */
  lemma {:induction false} CheckReports(d: Demand, b: seq<byte>, step: nat, hs: seq<Head>)
    requires d.Valid() && FirstTag(d, step) < |d.tags| && Stand(b, hs) && Meets(d, hs, step)
    ensures hs != []
    ensures var r, last := CheckTags(d, b, step), hs[|hs| - 1];
            && r.code == Ok && r.consumed == Total(hs) && r.form == (if last.constructed then 1 else 0)
            && r.length == if last.length == -1 then -|hs| else last.length
  {
    hide CheckFrom, Stand, Meets;
    MeetsLength(d, hs, step);
    Accepts(d, hs, step, step, b, START, 0);
  }

  /**
    Every header of an accepted input, in every tag mode: its tag is the type's tag at its place, and
    only with a mode other than 0 the outermost one may be any.
   */
  lemma {:induction false} TagsRead(d: Demand, b: seq<byte>) returns (hs: seq<Head>)
    requires d.Valid() && CheckTags(d, b, 0).code == Ok
    ensures Stand(b, hs) && |hs| == |d.tags| + if d.mode == 1 then 1 else 0
    ensures forall k :: 0 <= k < |hs| && (k > 0 || d.mode == 0) ==>
              hs[k].tag == d.tags[k + if d.mode == 1 then -1 else 0]
  {
    hide CheckFrom, Stand;
    hs := Accepted(d, 0, 0, b, START, 0);
  }

  const OCTET_STRING := Demand([16], 1, -1)

  /** An explicitly tagged INTEGER is not taken for an explicitly tagged OCTET STRING. */
  lemma {:induction false} InnerTagExample()
    ensures CheckTags(OCTET_STRING, [0xA0, 3, 4, 1, 5], 0) == Checked(Ok, 4, 1, 0, 2)
    ensures CheckTags(OCTET_STRING, [0xA0, 3, 2, 1, 5], 0) == Checked(Fail, 2, 0, -1, 1)
  {
    hide CheckFrom, TakeTurn, FetchTag, FetchLength;
    ShortTurns(4);
    ShortTurns(2);
    assert forall b: seq<byte> :: CheckFrom(OCTET_STRING, b, 1, 2, Chain(1, 0, 4, 0, 1)) == Checked(Ok, 4, 1, 0, 2) by {
      forall b: seq<byte> ensures CheckFrom(OCTET_STRING, b, 1, 2, Chain(1, 0, 4, 0, 1)) == Checked(Ok, 4, 1, 0, 2) {
        End(b);
      }
    }
    Goes(OCTET_STRING, [0xA0, 3, 4, 1, 5], -1, 0, START);
    Goes(OCTET_STRING, [0xA0, 3, 2, 1, 5], -1, 0, START);
    Goes(OCTET_STRING, [4, 1, 5], 0, 1, Chain(3, 0, 2, 1, 3));
    Halted(OCTET_STRING, [2, 1, 5], 0, 1, Chain(3, 0, 2, 1, 3));
  }

  lemma {:induction false} End(b: seq<byte>)
    ensures CheckFrom(OCTET_STRING, b, 1, 2, Chain(1, 0, 4, 0, 1)) == Checked(Ok, 4, 1, 0, 2)
  {
  }

  lemma {:induction false} Halted(d: Demand, b: seq<byte>, tagno: int, step: nat, c: Chain)
    requires tagno < |d.tags| && TakeTurn(d, b, tagno, step, c).Halt?
    ensures CheckFrom(d, b, tagno, step, c) == Stop(TakeTurn(d, b, tagno, step, c).code, c, step)
  {
    hide TakeTurn;
  }

  /** The two turns of the example. */
  lemma {:induction false} ShortTurns(id: byte)
    requires id == 2 || id == 4
    ensures var b: seq<byte> := [0xA0, 3, id, 1, 5];
            TakeTurn(OCTET_STRING, b, -1, 0, START) == Go(2, Chain(3, 0, 2, 1, 3)) && Confine(b[2..], 3) == [id, 1, 5]
    ensures TakeTurn(OCTET_STRING, [id, 1, 5], 0, 1, Chain(3, 0, 2, 1, 3))
            == if id == 4 then Go(2, Chain(1, 0, 4, 0, 1)) else Halt(Fail)
  {
    var b: seq<byte>, inner: seq<byte> := [0xA0, 3, id, 1, 5], [id, 1, 5];
    assert FetchTag(b) == Got(1, 2) && b[1..][0] == 3;
    assert FetchTag(inner) == Got(1, 4 * id) && inner[1..][0] == 1;
  }
}
