/**
  BER tags: the identifier octets of section 8.1.2 of X.690, in the representation that
  keeps the tag class in the two low-order bits.
 */
module BerTag {
  import opened Bits

  /** The -1 / 0 / >0 convention of the fetch functions. */
  datatype Fetched = More | Bad | Got(size: nat, value: int)

  const CONTINUATION_LIMIT: nat := 0x80_0000
  const TAG_LIMIT: nat := 0x1_0000_0000

  /** BER_TLV_CONSTRUCTED */
  predicate Constructed(first: byte) {
    first / 0x20 % 2 == 1
  }

  /** The octets after the first one, with `val` read so far. */
  function TagTail(b: seq<byte>, i: nat, val: nat, tclass: nat): Fetched
    decreases |b| - i
  {
    if i >= |b| then More
    else if b[i] >= 0x80 then
      var next := val * 0x80 + b[i] % 0x80;
      if next >= CONTINUATION_LIMIT then Bad else TagTail(b, i + 1, next, tclass)
    else Got(i + 1, (val * 0x80 + b[i]) * 4 + tclass)
  }

  /** What ber_fetch_tag finds at the start of `b`. */
  function FetchTag(b: seq<byte>): Fetched {
    if b == [] then More
    else if b[0] % 0x20 != 0x1F then Got(1, b[0] % 0x20 * 4 + b[0] / 0x40)
    else TagTail(b, 1, 0, b[0] / 0x40)
  }

  /** ber_fetch_tag */
  method BerFetchTag(b: seq<byte>) returns (r: Fetched)
    ensures r == FetchTag(b)
  {
    if |b| == 0 {
      return More;
    }
    var val: nat := b[0];
    var tclass := val / 0x40;
    val := val % 0x20;
    if val != 0x1F {
      return Got(1, val * 4 + tclass);
    }
    val := 0;
    var skipped := 2;
    while skipped <= |b|
      invariant 2 <= skipped
      invariant FetchTag(b) == TagTail(b, skipped - 1, val, tclass)
    {
      var oct: nat := b[skipped - 1];
      if oct >= 0x80 {
        val := val * 0x80 + oct % 0x80;
        if val >= CONTINUATION_LIMIT {
          return Bad;
        }
      } else {
        val := val * 0x80 + oct;
        return Got(skipped, val * 4 + tclass);
      }
      skipped := skipped + 1;
    }
    r := More;
  }

  // ---- Serialisation ----

  /** How many groups of seven bits `v` needs. */
  function Groups(v: nat): (n: nat)
    ensures n >= 1
  {
    if v < 0x80 then 1 else 1 + Groups(v / 0x80)
  }

  /** The `n` low-order groups of `v`, each marked as continued. */
  function Continued(v: nat, n: nat): (s: seq<byte>)
    ensures |s| == n
  {
    if n == 0 then [] else Continued(v / 0x80, n - 1) + [0x80 + v % 0x80]
  }

  function SerializeTag(tag: nat): (s: seq<byte>)
    requires tag < TAG_LIMIT
    ensures |s| >= 1
  {
    var tclass, tval := tag % 4, tag / 4;
    if tval <= 30 then [tclass * 0x40 + tval]
    else [tclass * 0x40 + 0x1F] + Continued(tval / 0x80, Groups(tval) - 1) + [tval % 0x80]
  }

  lemma {:induction false} ContinuedAt(v: nat, n: nat, j: nat)
    requires j < n
    ensures Continued(v, n)[j] == 0x80 + Shr(v, 7 * (n - 1 - j)) % 0x80
  {
    if j < n - 1 {
      ContinuedAt(v / 0x80, n - 1, j);
      ShrShr(v, 7, 7 * (n - 2 - j));
      Shr7(v);
    }
  }

  lemma {:induction false} ShrShr(v: nat, a: nat, b: nat)
    ensures Shr(Shr(v, a), b) == Shr(v, a + b)
  {
    if a > 0 {
      ShrShr(v / 2, a - 1, b);
    }
  }

  lemma {:induction false} Shr7(v: nat)
    ensures Shr(v, 7) == v / 0x80
  {
    hide Shr;
    ShrIsDiv(v, 7);
    assert Pow2(7) == 0x80;
  }

  lemma {:induction false} GroupsBound(v: nat, n: nat)
    requires n >= 1 && Shr(v, 7 * n) == 0
    ensures Groups(v) <= n
  {
    hide Shr;
    if v >= 0x80 {
      Shr7(v);
      if n == 1 {
        assert false;
      } else {
        ShrShr(v, 7, 7 * n - 7);
        GroupsBound(v / 0x80, n - 1);
      }
    }
  }

  lemma {:induction false} GroupsLower(v: nat, n: nat)
    requires Shr(v, 7 * n) > 0
    ensures Groups(v) > n
  {
    hide Shr;
    if n > 0 {
      Shr7(v);
      ShrShr(v, 7, 7 * n - 7);
      if v < 0x80 {
        ShrZero(7 * n - 7);
        assert false;
      }
      GroupsLower(v / 0x80, n - 1);
    }
  }

  lemma {:induction false} ShrZero(n: nat)
    ensures Shr(0, n) == 0
  {
    if n > 0 {
      ShrZero(n - 1);
    }
  }

  /** Five groups are enough for a 30-bit value. */
  lemma {:induction false} FiveGroups(v: nat)
    requires v < TAG_LIMIT
    ensures Shr(v, 35) == 0
  {
    hide Shr, Pow2;
    ShrIsDiv(v, 35);
    Pow2Add(32, 3);
    Pow2Values();
    Pow2Small();
    DivModUnique(0, v, Pow2(35), v);
  }

  /** ber_tlv_tag_serialize: the size needed is always returned; the octets are written if they fit. */
  method BerTagSerialize(tag: nat, buf: array<byte>) returns (n: nat)
    requires tag < TAG_LIMIT
    modifies buf
    ensures n == |SerializeTag(tag)|
    ensures n <= buf.Length ==> buf[..n] == SerializeTag(tag) && buf[n..] == old(buf[n..])
    ensures n > buf.Length > 0 ==> buf[1..] == old(buf[1..])
  {
    hide Shr, Continued, Groups;
    var tclass, tval := tag % 4, tag / 4;
    if tval <= 30 {
      if buf.Length > 0 {
        buf[0] := tclass * 0x40 + tval;
      }
      return 1;
    }
    if buf.Length > 0 {
      buf[0] := tclass * 0x40 + 0x1F;
    }
    var required := GroupCount(tval);
    n := required + 1;
    if buf.Length < n {
      return;
    }
    StoreGroups(buf, tval, required);
  }

  /** The groups of seven bits after the first octet. */
  method StoreGroups(buf: array<byte>, tval: nat, required: nat)
    requires 1 <= required == Groups(tval) < buf.Length
    modifies buf
    ensures buf[..required + 1] == [old(buf[0])] + Continued(tval / 0x80, required - 1) + [tval % 0x80]
    ensures buf[required + 1..] == old(buf[required + 1..])
  {
    hide Shr, Continued, Groups;
    var k, i := 1, 7 * (required - 1);
    while k < required
      invariant 1 <= k <= required && i == 7 * (required - k)
      invariant forall j :: 1 <= j < k ==> buf[j] == 0x80 + Shr(tval, 7 * (required - j)) % 0x80
      invariant buf[0] == old(buf[0]) && buf[required + 1..] == old(buf[required + 1..])
    {
      buf[k] := 0x80 + Shr(tval, i) % 0x80;
      i := i - 7;
      k := k + 1;
    }
    buf[k] := tval % 0x80;
    SerializedGroups(tval, required, buf[1..required]);
    assert buf[..required + 1] == [buf[0]] + buf[1..required] + [buf[required]];
  }

  /** The size loop of ber_tlv_tag_serialize. */
  method GroupCount(tval: nat) returns (required: nat)
    requires tval < TAG_LIMIT
    ensures required == Groups(tval)
  {
    hide Shr, Groups;
    required := 1;
    var i := 7;
    while i < 32
      invariant required >= 1 && i == 7 * required <= 35
      invariant required > 1 ==> Shr(tval, 7 * (required - 1)) > 0
    {
      if Shr(tval, i) == 0 {
        break;
      }
      required := required + 1;
      i := i + 7;
    }
    GroupsExact(tval, required);
  }

  lemma {:induction false} GroupsExact(v: nat, n: nat)
    requires v < TAG_LIMIT && n >= 1
    requires n > 1 ==> Shr(v, 7 * (n - 1)) > 0
    requires Shr(v, 7 * n) == 0 || n == 5
    ensures Groups(v) == n
  {
    hide Shr;
    FiveGroups(v);
    GroupsBound(v, n);
    if n > 1 {
      GroupsLower(v, n - 1);
    }
  }

  lemma {:induction false} SerializedGroups(v: nat, n: nat, b: seq<byte>)
    requires n >= 1 && |b| == n - 1
    requires forall j :: 0 <= j < n - 1 ==> b[j] == 0x80 + Shr(v, 7 * (n - 1 - j)) % 0x80
    ensures b == Continued(v / 0x80, n - 1)
  {
    hide Shr;
    forall j | 0 <= j < n - 1 ensures b[j] == Continued(v / 0x80, n - 1)[j] {
      ContinuedAt(v / 0x80, n - 1, j);
      Shr7(v);
      ShrShr(v, 7, 7 * (n - 2 - j));
    }
  }

  // ---- Fetching ----

  /** The outcome depends only on the octets consumed. */
  lemma {:induction false} TagTailPrefix(b: seq<byte>, k: nat, i: nat, val: nat, tclass: nat)
    requires i <= k <= |b|
    ensures var whole, part := TagTail(b, i, val, tclass), TagTail(b[..k], i, val, tclass);
            && (part != More ==> part == whole)
            && (whole.Got? ==> i < whole.size <= |b| && (part == More <==> k < whole.size))
    decreases k - i
  {
    if i < k {
      var next := val * 0x80 + b[i] % 0x80;
      if b[i] >= 0x80 && next < CONTINUATION_LIMIT {
        TagTailPrefix(b, k, i + 1, next, tclass);
      }
    } else {
      TagTailSize(b, i, val, tclass);
    }
  }

  lemma {:induction false} TagTailSize(b: seq<byte>, i: nat, val: nat, tclass: nat)
    ensures var r := TagTail(b, i, val, tclass);
            r.Got? ==> i < r.size <= |b|
    decreases |b| - i
  {
    if i < |b| {
      var next := val * 0x80 + b[i] % 0x80;
      if b[i] >= 0x80 && next < CONTINUATION_LIMIT {
        TagTailSize(b, i + 1, next, tclass);
      }
    }
  }

  /**
    Every prefix of the input either needs more octets or already gives the outcome of the
    whole, and it needs more exactly when it ends before the tag does.
   */
  lemma {:induction false} TagPrefix(b: seq<byte>, k: nat)
    requires k <= |b|
    ensures FetchTag(b[..k]) != More ==> FetchTag(b[..k]) == FetchTag(b)
    ensures FetchTag(b).Got? ==> 1 <= FetchTag(b).size <= |b|
    ensures FetchTag(b).Got? ==> (FetchTag(b[..k]) == More <==> k < FetchTag(b).size)
  {
    hide TagTail;
    if k > 0 {
      TagTailPrefix(b, k, 1, 0, b[0] / 0x40);
    } else if b != [] {
      TagTailSize(b, 1, 0, b[0] / 0x40);
    }
  }

  /** Octets after the tag do not matter. */
  lemma {:induction false} TagAppend(b: seq<byte>, rest: seq<byte>)
    requires FetchTag(b) != More
    ensures FetchTag(b + rest) == FetchTag(b)
  {
    hide *;
    assert (b + rest)[..|b|] == b;
    TagPrefix(b + rest, |b|);
  }

  /** Reading continued groups accumulates their value. */
  lemma {:induction false} TailContinued(head: seq<byte>, v: nat, n: nat, rest: seq<byte>, tclass: nat)
    requires v < CONTINUATION_LIMIT && Shr(v, 7 * n) == 0
    ensures var b := head + Continued(v, n) + rest;
            TagTail(b, |head|, 0, tclass) == TagTail(b, |head| + n, v, tclass)
  {
    hide TagTail;
    if n > 0 {
      var w, last := v / 0x80, 0x80 + v % 0x80;
      Shr7(v);
      ShrShr(v, 7, 7 * n - 7);
      var b := head + Continued(v, n) + rest;
      assert b == head + Continued(w, n - 1) + ([last] + rest);
      TailContinued(head, w, n - 1, [last] + rest, tclass);
      assert b[|head| + n - 1] == last;
      TailOne(b, |head| + n - 1, v, tclass);
    }
  }

  /** One continued octet. */
  lemma {:induction false} TailOne(b: seq<byte>, i: nat, v: nat, tclass: nat)
    requires i < |b| && b[i] == 0x80 + v % 0x80 && v < CONTINUATION_LIMIT
    ensures TagTail(b, i, v / 0x80, tclass) == TagTail(b, i + 1, v, tclass)
  {
  }

  /** Every 32-bit tag comes back from its own octets, whatever follows them. */
  lemma {:induction false} TagRoundTrip(tag: nat, rest: seq<byte>)
    requires tag < TAG_LIMIT
    ensures FetchTag(SerializeTag(tag) + rest) == Got(|SerializeTag(tag)|, tag)
  {
    hide FetchTag, SerializeTag;
    var tclass, tval := tag % 4, tag / 4;
    if tval > 30 {
      LongTag(tclass, tval, rest);
      LongForm(tag, rest);
    } else {
      ShortTag(tag, rest);
    }
  }

  lemma {:induction false} ShortTag(tag: nat, rest: seq<byte>)
    requires tag / 4 <= 30
    ensures FetchTag(SerializeTag(tag) + rest) == Got(|SerializeTag(tag)|, tag)
  {
    hide Continued, TagTail, Groups;
    var tclass, tval := tag % 4, tag / 4;
    var b := SerializeTag(tag) + rest;
    assert b[0] == tclass * 0x40 + tval;
    SplitTag(tclass, tval);
  }

  lemma {:induction false} SplitTag(tclass: nat, tval: nat)
    requires tclass < 4 && tval < 0x20
    ensures (tclass * 0x40 + tval) / 0x40 == tclass && (tclass * 0x40 + tval) % 0x20 == tval
  {
    DivModUnique(tclass, tval, 0x40, tclass * 0x40 + tval);
    DivModUnique(2 * tclass, tval, 0x20, tclass * 0x40 + tval);
  }

  lemma {:induction false} LongForm(tag: nat, rest: seq<byte>)
    requires 30 < tag / 4 < 0x4000_0000
    ensures var tclass, tval := tag % 4, tag / 4;
            var n := Groups(tval) - 1;
            && SerializeTag(tag) + rest == [tclass * 0x40 + 0x1F] + Continued(tval / 0x80, n) + ([tval % 0x80] + rest)
            && |SerializeTag(tag)| == n + 2
  {
    hide Continued, TagTail, Groups;
  }

  lemma {:induction false} LongTag(tclass: nat, tval: nat, rest: seq<byte>)
    requires tclass < 4 && 30 < tval < 0x4000_0000
    ensures var n := Groups(tval) - 1;
            FetchTag([tclass * 0x40 + 0x1F] + Continued(tval / 0x80, n) + ([tval % 0x80] + rest))
            == Got(n + 2, tval * 4 + tclass)
  {
    hide Shr, Continued, Groups;
    var n := Groups(tval) - 1;
    var head: seq<byte> := [tclass * 0x40 + 0x1F];
    var b := head + Continued(tval / 0x80, n) + ([tval % 0x80] + rest);
    GroupsUpper(tval, n + 1);
    Shr7(tval);
    ShrShr(tval, 7, 7 * n);
    TailContinued(head, tval / 0x80, n, [tval % 0x80] + rest, tclass);
    assert b[1 + n] == tval % 0x80;
  }

  lemma {:induction false} GroupsUpper(v: nat, n: nat)
    requires Groups(v) == n
    ensures Shr(v, 7 * n) == 0
  {
    hide Shr;
    Shr7(v);
    if v >= 0x80 {
      GroupsUpper(v / 0x80, n - 1);
      ShrShr(v, 7, 7 * n - 7);
    }
  }
}
