/**
  Skipping over the length and the contents of any BER value, definite or indefinite,
  without knowing its type.
 */
module BerSkip {
  import opened Bits
  import opened BerTag
  import opened BerLength

  /** The size of L and V together at the start of `b`; 0 wants more octets, -1 is malformed. */
  function SkipLength(constructed: bool, b: seq<byte>): (r: int)
    ensures -1 <= r <= |b|
    decreases |b|, 1
  {
    LengthPrefix(constructed, b, |b|);
    match FetchLength(constructed, b)
    case More => 0
    case Bad => -1
    case Got(ll, vlen) =>
      if vlen >= 0 then if ll + vlen > |b| then 0 else ll + vlen
      else After(ll, SkipItems(b[ll..]))
  }

  /** The size of the members of an indefinite form, its end-of-contents octets included. */
  function SkipItems(b: seq<byte>): (r: int)
    ensures -1 <= r <= |b|
    decreases |b|, 0
  {
    TagPrefix(b, |b|);
    match FetchTag(b)
    case More => 0
    case Bad => -1
    case Got(tl, _) =>
      var ll := SkipLength(Constructed(b[0]), b[tl..]);
      if ll <= 0 then ll
      else if [0, 0] <= b then tl + ll
      else After(tl + ll, SkipItems(b[tl + ll..]))
  }

  function After(n: nat, r: int): int {
    if r <= 0 then r else n + r
  }

  lemma {:induction false} SkipItemsStep(b: seq<byte>)
    ensures FetchTag(b) == More ==> SkipItems(b) == 0
    ensures FetchTag(b) == Bad ==> SkipItems(b) == -1
    ensures FetchTag(b).Got? ==>
              var tl := FetchTag(b).size;
              && 1 <= tl <= |b|
              && var ll := SkipLength(Constructed(b[0]), b[tl..]);
              && (ll <= 0 ==> SkipItems(b) == ll)
              && (ll > 0 ==> tl + ll <= |b| && |b| >= 2)
              && (ll > 0 ==>
                    SkipItems(b)
                    == if b[0] == 0 && b[1] == 0 then tl + ll else After(tl + ll, SkipItems(b[tl + ll..])))
  {
    hide FetchTag, SkipLength;
    TagPrefix(b, |b|);
  }

  lemma {:induction false} SkipLengthStep(constructed: bool, b: seq<byte>)
    ensures FetchLength(constructed, b) == More ==> SkipLength(constructed, b) == 0
    ensures FetchLength(constructed, b) == Bad ==> SkipLength(constructed, b) == -1
    ensures FetchLength(constructed, b).Got? ==>
              var Got(ll, vlen) := FetchLength(constructed, b);
              && 1 <= ll <= |b|
              && (vlen >= 0 ==> SkipLength(constructed, b) == if ll + vlen > |b| then 0 else ll + vlen)
              && (vlen < 0 ==> SkipLength(constructed, b) == After(ll, SkipItems(b[ll..])))
  {
    hide FetchLength, SkipItems;
    LengthPrefix(constructed, b, |b|);
  }

  /** ber_skip_length */
  method BerSkipLength(constructed: bool, b: seq<byte>) returns (r: int)
    ensures r == SkipLength(constructed, b)
    decreases |b|
  {
    hide FetchLength, FetchTag, SkipItems, SkipLength, Constructed;
    SkipLengthStep(constructed, b);
    var fetched := BerFetchLength(constructed, b);
    if fetched.More? {
      return 0;
    }
    if fetched.Bad? {
      return -1;
    }
    var ll, vlen := fetched.size, fetched.value;
    if vlen >= 0 {
      return if ll + vlen > |b| then 0 else ll + vlen;
    }
    var skip, rest := ll, b[ll..];
    while true
      invariant 1 <= skip && |rest| < |b|
      invariant SkipLength(constructed, b) == After(skip, SkipItems(rest))
      decreases |rest|
    {
      SkipItemsStep(rest);
      var tag := BerFetchTag(rest);
      if tag.More? {
        return 0;
      }
      if tag.Bad? {
        return -1;
      }
      var tl := tag.size;
      var item := BerSkipLength(Constructed(rest[0]), rest[tl..]);
      if item <= 0 {
        return item;
      }
      skip := skip + tl + item;
      if rest[0] == 0 && rest[1] == 0 {
        return skip;
      }
      rest := rest[tl + item..];
    }
  }

  // ---- Appended octets ----

  lemma {:induction false} SkipAppend(constructed: bool, b: seq<byte>, more: seq<byte>)
    requires SkipLength(constructed, b) != 0
    ensures SkipLength(constructed, b + more) == SkipLength(constructed, b)
    decreases |b|, 1
  {
    hide FetchLength, FetchTag, SkipItems, SkipLength;
    SkipLengthStep(constructed, b);
    SkipLengthStep(constructed, b + more);
    var fetched := FetchLength(constructed, b);
    LengthAppend(constructed, b, more);
    if fetched.Got? && fetched.value < 0 {
      assert (b + more)[fetched.size..] == b[fetched.size..] + more;
      SkipItemsAppend(b[fetched.size..], more);
    }
  }

  lemma {:induction false} SkipItemsAppend(b: seq<byte>, more: seq<byte>)
    requires SkipItems(b) != 0
    ensures SkipItems(b + more) == SkipItems(b)
    decreases |b|, 0
  {
    hide FetchLength, FetchTag, SkipItems, SkipLength, Constructed;
    SkipItemsStep(b);
    SkipItemsStep(b + more);
    var fetched := FetchTag(b);
    TagAppend(b, more);
    if fetched.Got? {
      var tl := fetched.size;
      var ll := SkipLength(Constructed(b[0]), b[tl..]);
      assert (b + more)[tl..] == b[tl..] + more;
      SkipAppend(Constructed(b[0]), b[tl..], more);
      if ll > 0 && !([0, 0] <= b) {
        assert (b + more)[tl + ll..] == b[tl + ll..] + more;
        SkipItemsAppend(b[tl + ll..], more);
      }
    }
  }

  // ---- One pass with a depth ----

  /** Where a pass over nested values ends: behind so many octets, for want of more, or at a malformed header. */
  datatype Passed = Done(n: nat) | Wanting | Malformed {
    function Plus(k: nat): Passed {
      if Done? then Done(n + k) else this
    }
  }

  /**
    Header by header, with nothing but the number of indefinite lengths that are open: end-of-contents octets close
    one, a definite length is stepped over, an indefinite one is opened.
   */
  ghost function Pass(b: seq<byte>, depth: nat): Passed
    decreases |b|
  {
    if depth == 0 then Done(0)
    else if FetchTag(b).More? then Wanting
    else if FetchTag(b).Bad? then Malformed
    else
      TagPrefix(b, |b|);
      var tl, constructed := FetchTag(b).size, Constructed(b[0]);
      LengthPrefix(constructed, b[tl..], |b| - tl);
      match FetchLength(constructed, b[tl..])
      case More => Wanting
      case Bad => Malformed
      case Got(ll, length) =>
        if [0, 0] <= b then Pass(b[2..], depth - 1).Plus(2)
        else if length == -1 then Pass(b[tl + ll..], depth + 1).Plus(tl + ll)
        else if tl + ll + length > |b| then Wanting
        else Pass(b[tl + ll + length..], depth).Plus(tl + ll + length)
  }

  /** The recursive skip of members closes one level of the pass. */
  ghost predicate ClosesOne(b: seq<byte>, depth: nat) {
    var r := SkipItems(b);
    && (r == 0 ==> Pass(b, depth + 1) == Wanting) && (r == -1 ==> Pass(b, depth + 1) == Malformed)
    && (r > 0 ==> Pass(b, depth + 1) == Pass(b[r..], depth).Plus(r))
  }

  /** Behind a member of `n` octets it is the same. */
  lemma {:induction false} BehindMember(b: seq<byte>, n: nat, depth: nat)
    requires 0 < n <= |b| && SkipItems(b) == After(n, SkipItems(b[n..])) && ClosesOne(b[n..], depth)
    requires Pass(b, depth + 1) == Pass(b[n..], depth + 1).Plus(n)
    ensures ClosesOne(b, depth)
  {
    hide SkipItems, Pass;
    var r := SkipItems(b[n..]);
    if r > 0 {
      assert b[n..][r..] == b[n + r..];
    }
  }

  lemma {:induction false} PassStep(b: seq<byte>, depth: nat)
    requires depth > 0 && FetchTag(b).Got?
    ensures var tl := FetchTag(b).size;
            && 1 <= tl <= |b|
            && var length := FetchLength(Constructed(b[0]), b[tl..]);
            && (length.More? ==> Pass(b, depth) == Wanting) && (length.Bad? ==> Pass(b, depth) == Malformed)
            && (length.Got? ==>
                  var h := tl + length.size;
                  && h <= |b|
                  && if [0, 0] <= b then Pass(b, depth) == Pass(b[2..], depth - 1).Plus(2)
                     else if length.value == -1 then Pass(b, depth) == Pass(b[h..], depth + 1).Plus(h)
                     else length.value >= 0 && Pass(b, depth)
                          == if h + length.value > |b| then Wanting
                             else Pass(b[h + length.value..], depth).Plus(h + length.value))
  {
    hide FetchTag, FetchLength, Constructed;
    TagPrefix(b, |b|);
    var tl := FetchTag(b).size;
    LengthPrefix(Constructed(b[0]), b[tl..], |b| - tl);
  }

  lemma {:induction false} NoTagPassed(b: seq<byte>, depth: nat)
    requires depth > 0 && !FetchTag(b).Got?
    ensures Pass(b, depth) == if FetchTag(b).More? then Wanting else Malformed
  {
    hide FetchTag;
  }

  lemma {:induction false} PassCloses(b: seq<byte>, depth: nat)
    ensures ClosesOne(b, depth)
    decreases |b|, 1
  {
    hide FetchTag, FetchLength, Constructed, SkipItems, SkipLength, Pass;
    SkipItemsStep(b);
    if !FetchTag(b).Got? {
      NoTagPassed(b, depth + 1);
    } else {
      PassStep(b, depth + 1);
      var tl, constructed := FetchTag(b).size, Constructed(b[0]);
      var t := b[tl..];
      SkipLengthStep(constructed, t);
      var fetched := FetchLength(constructed, t);
      if fetched.Got? {
        var ll := SkipLength(constructed, t);
        if [0, 0] <= b {
          EndOfContents(b);
        } else if fetched.value == -1 {
          OpenedPasses(b, tl, fetched.size, depth);
        } else if ll > 0 {
          PassCloses(b[tl + ll..], depth);
          BehindMember(b, tl + ll, depth);
        }
      }
    }
  }

  /** A member of indefinite length: one more level, and then the members behind it. */
  lemma {:induction false} OpenedPasses(b: seq<byte>, tl: nat, k: nat, depth: nat)
    requires 1 <= tl && 1 <= k && tl + k <= |b|
    requires Pass(b, depth + 1) == Pass(b[tl + k..], depth + 2).Plus(tl + k)
    requires var ll := After(k, SkipItems(b[tl + k..]));
             SkipItems(b)
             == if ll <= 0 then ll else if tl + ll > |b| then 0 else After(tl + ll, SkipItems(b[tl + ll..]))
    ensures ClosesOne(b, depth)
    decreases |b|, 0
  {
    hide SkipItems, Pass;
    var inner := b[tl + k..];
    var r := SkipItems(inner);
    PassCloses(inner, depth + 1);
    if r > 0 {
      var n := tl + k + r;
      assert inner[r..] == b[n..];
      PassCloses(b[n..], depth);
      BehindMember(b, n, depth);
    }
  }

  /** On any input: the skip in recursion and loop is one pass with a depth. */
  lemma {:induction false} OnePass(constructed: bool, b: seq<byte>)
    ensures SkipLength(constructed, b)
            == match FetchLength(constructed, b)
               case More => 0
               case Bad => -1
               case Got(ll, length) =>
                 if length >= 0 then if ll + length > |b| then 0 else ll + length
                 else if ll > |b| then 0
                 else match Pass(b[ll..], 1)
                      case Done(n) => ll + n
                      case Wanting => 0
                      case Malformed => -1
  {
    hide FetchLength, SkipItems, SkipLength, Pass;
    SkipLengthStep(constructed, b);
    if FetchLength(constructed, b).Got? && FetchLength(constructed, b).value < 0 {
      var inner := b[FetchLength(constructed, b).size..];
      PassCloses(inner, 0);
      if SkipItems(inner) > 0 {
        ClosedAtLast(inner[SkipItems(inner)..]);
      }
    }
  }

  lemma {:induction false} ClosedAtLast(b: seq<byte>)
    ensures Pass(b, 0) == Done(0)
  {
  }

  // ---- TLV trees ----

  /** A BER value; identifier and length octets may have any form the fetch functions accept. */
  datatype Tlv =
    | Primitive(id: seq<byte>, len: seq<byte>, content: seq<byte>)
    | Definite(id: seq<byte>, len: seq<byte>, items: seq<Tlv>)
    | Indefinite(id: seq<byte>, items: seq<Tlv>)

  function Contents(t: Tlv): seq<byte>
    decreases t, 0
  {
    match t
    case Primitive(_, len, content) => len + content
    case Definite(_, len, items) => len + EncodeAll(items)
    case Indefinite(_, items) => [0x80] + (EncodeAll(items) + [0, 0])
  }

  function Encode(t: Tlv): seq<byte>
    decreases t, 1
  {
    t.id + Contents(t)
  }

  function EncodeAll(items: seq<Tlv>): seq<byte>
    decreases items, 2
  {
    if items == [] then [] else Encode(items[0]) + EncodeAll(items[1..])
  }

  ghost predicate IsTag(id: seq<byte>, constructed: bool) {
    FetchTag(id).Got? && FetchTag(id).size == |id| && id != [] && Constructed(id[0]) == constructed
  }

  ghost predicate WellFormed(t: Tlv) {
    match t
    case Primitive(id, len, content) => IsTag(id, false) && FetchLength(false, len) == Got(|len|, |content|)
    case Definite(id, len, items) =>
      IsTag(id, true) && FetchLength(true, len) == Got(|len|, |EncodeAll(items)|) && AllWellFormed(items)
    case Indefinite(id, items) =>
      && IsTag(id, true) && AllWellFormed(items)
      && forall i :: 0 <= i < |items| ==> !([0, 0] <= Encode(items[i]))
  }

  ghost predicate AllWellFormed(items: seq<Tlv>) {
    forall i :: 0 <= i < |items| ==> WellFormed(items[i])
  }

  /** The skipper covers exactly the length and the contents of every value, at any nesting. */
  lemma {:induction false} SkipCoversTree(t: Tlv, rest: seq<byte>)
    requires WellFormed(t)
    ensures SkipLength(!t.Primitive?, Contents(t) + rest) == |Contents(t)|
    decreases t, 1
  {
    hide FetchLength, SkipItems, SkipLength;
    match t
    case Primitive(_, len, content) => SkipDefinite(false, len, content, rest);
    case Definite(_, len, items) => SkipDefinite(true, len, EncodeAll(items), rest);
    case Indefinite(_, items) =>
      var b := Contents(t) + rest;
      assert b[1..] == EncodeAll(items) + ([0, 0] + rest);
      IndefiniteLength(b);
      SkipLengthStep(true, b);
      SkipCoversItems(items, rest);
  }

  lemma {:induction false} IndefiniteLength(b: seq<byte>)
    requires b != [] && b[0] == 0x80
    ensures FetchLength(true, b) == Got(1, -1)
  {
  }

  lemma {:induction false} SkipDefinite(constructed: bool, len: seq<byte>, content: seq<byte>, rest: seq<byte>)
    requires FetchLength(constructed, len) == Got(|len|, |content|)
    ensures SkipLength(constructed, len + content + rest) == |len + content|
  {
    hide FetchLength;
    assert len + content + rest == len + (content + rest);
    LengthAppend(constructed, len, content + rest);
  }

  lemma {:induction false} SkipCoversItems(items: seq<Tlv>, rest: seq<byte>)
    requires AllWellFormed(items)
    requires forall i :: 0 <= i < |items| ==> !([0, 0] <= Encode(items[i]))
    ensures SkipItems(EncodeAll(items) + ([0, 0] + rest)) == |EncodeAll(items)| + 2
    decreases items, 0
  {
    hide FetchLength, FetchTag, SkipItems, SkipLength, Contents;
    if items == [] {
      EndOfContents(EncodeAll(items) + ([0, 0] + rest));
    } else {
      var t, tail := items[0], EncodeAll(items[1..]) + ([0, 0] + rest);
      assert EncodeAll(items) + ([0, 0] + rest) == t.id + (Contents(t) + tail);
      SkipCoversTree(t, tail);
      SkipCoversItems(items[1..], rest);
      ItemFirst(t, tail);
    }
  }

  lemma {:induction false} EndOfContents(b: seq<byte>)
    requires [0, 0] <= b
    ensures SkipItems(b) == 2
  {
  }

  /** One member of an indefinite form, then the others. */
  lemma {:induction false} ItemFirst(t: Tlv, tail: seq<byte>)
    requires WellFormed(t) && !([0, 0] <= Encode(t))
    requires SkipLength(!t.Primitive?, Contents(t) + tail) == |Contents(t)|
    ensures SkipItems(t.id + (Contents(t) + tail)) == After(|Encode(t)|, SkipItems(tail))
  {
    hide FetchLength, FetchTag, SkipItems, SkipLength, Constructed;
    var b := t.id + (Contents(t) + tail);
    SomeContents(t);
    TagAppend(t.id, Contents(t) + tail);
    SkipItemsStep(b);
    assert b[|t.id|..] == Contents(t) + tail;
    assert b[|t.id| + |Contents(t)|..] == tail;
    assert b[0] == t.id[0] && b[..2] == Encode(t)[..2];
  }

  lemma {:induction false} SomeContents(t: Tlv)
    requires WellFormed(t)
    ensures |Contents(t)| > 0
  {
    hide FetchLength;
    if !t.Indefinite? {
      LengthPrefix(!t.Primitive?, t.len, |t.len|);
    }
  }
}
