/**
  BER lengths: the length octets of section 8.1.3 of X.690, definite in the short or the
  long form, or indefinite.
 */
module BerLength {
  import opened Bits
  import opened BerTag

  /** RSSIZE_MAX: the largest length the decoders accept. */
  const RSSIZE_MAX: nat := 0x3FFF_FFFF_FFFF_FFFF
  /** A length of this size has no room for another octet. */
  const SHIFT_LIMIT: nat := 0x80_0000_0000_0000

  /** The long form: `left` octets to come, `len` read so far. */
  function LengthTail(b: seq<byte>, i: nat, left: nat, len: nat): Fetched
    decreases left
  {
    if left == 0 then if len > RSSIZE_MAX then Bad else Got(i, len)
    else if i >= |b| then More
    else if len >= SHIFT_LIMIT then Bad
    else LengthTail(b, i + 1, left - 1, len * 0x100 + b[i])
  }

  /** What ber_fetch_length finds; the length -1 is the indefinite form. */
  function FetchLength(constructed: bool, b: seq<byte>): Fetched {
    if b == [] then More
    else if b[0] < 0x80 then Got(1, b[0])
    else if constructed && b[0] == 0x80 then Got(1, -1)
    else if b[0] == 0xFF then Bad
    else LengthTail(b, 1, b[0] - 0x80, 0)
  }

  /** ber_fetch_length */
  method BerFetchLength(constructed: bool, b: seq<byte>) returns (r: Fetched)
    ensures r == FetchLength(constructed, b)
  {
    if |b| == 0 {
      return More;
    }
    var oct: nat := b[0];
    if oct < 0x80 {
      return Got(1, oct);
    }
    if constructed && oct == 0x80 {
      return Got(1, -1);
    }
    if oct == 0xFF {
      return Bad;
    }
    oct := oct % 0x80;
    var len, at := 0, 1;
    while oct > 0 && at < |b|
      invariant at >= 1 && len >= 0
      invariant FetchLength(constructed, b) == LengthTail(b, at, oct, len)
      decreases oct
    {
      if len < SHIFT_LIMIT {
        len := len * 0x100 + b[at];
      } else {
        return Bad;
      }
      oct, at := oct - 1, at + 1;
    }
    if oct == 0 {
      return if len > RSSIZE_MAX then Bad else Got(at, len);
    }
    r := More;
  }

  // ---- Serialisation ----

  function OctetCount(v: nat): (n: nat)
    ensures n >= 1
  {
    if v < 0x100 then 1 else 1 + OctetCount(v / 0x100)
  }

  function SerializeLength(len: nat): (s: seq<byte>)
    requires len <= RSSIZE_MAX
    ensures |s| >= 1
  {
    OctetCountBound(len);
    if len <= 127 then [len] else [0x80 + OctetCount(len)] + Octets(len, OctetCount(len))
  }

  lemma {:induction false} OctetCountBound(v: nat)
    ensures v <= RSSIZE_MAX ==> OctetCount(v) <= 8
  {
    if v <= RSSIZE_MAX {
      Pow2Wide();
      OctetCountAtMost(v, 8);
    }
  }

  /** `n` octets hold every number below 256 to the `n`. */
  lemma {:induction false} OctetCountAtMost(v: nat, n: nat)
    requires n >= 1 && v < Pow2(8 * n)
    ensures OctetCount(v) <= n
  {
    if v >= 0x100 {
      if n == 1 {
        Pow2Values();
        assert false;
      } else {
        Pow2Add(8 * n - 8, 8);
        Pow2Values();
        QuotientBound(v, Pow2(8 * n - 8));
        OctetCountAtMost(v / 0x100, n - 1);
      }
    }
  }

  lemma {:induction false} QuotientBound(v: nat, p: nat)
    requires v < p * 0x100
    ensures v / 0x100 < p
  {
  }

  lemma {:induction false} Shr8(v: nat)
    ensures Shr(v, 8) == v / 0x100
  {
    hide Shr, Pow2;
    ShrIsDiv(v, 8);
    Pow2Values();
  }

  lemma {:induction false} OctetCountExact(v: nat, n: nat)
    requires n >= 1 && Shr(v, 8 * n) == 0 && (n > 1 ==> Shr(v, 8 * (n - 1)) > 0)
    ensures OctetCount(v) == n
  {
    hide Shr;
    Shr8(v);
    if n == 1 {
      assert v < 0x100;
    } else {
      ShrShr(v, 8, 8 * n - 8);
      ShrShr(v, 8, 8 * n - 16);
      if v < 0x100 {
        ShrZero(8 * n - 16);
        assert false;
      }
      OctetCountExact(v / 0x100, n - 1);
    }
  }

  lemma {:induction false} OctetsAt(v: nat, n: nat, j: nat)
    requires j < n
    ensures Octets(v, n)[j] == Shr(v, 8 * (n - 1 - j)) % 0x100
  {
    hide Shr;
    if j < n - 1 {
      OctetsAt(v / 0x100, n - 1, j);
      Shr8(v);
      ShrShr(v, 8, 8 * (n - 2 - j));
    } else {
      ShrNone(v);
    }
  }

  lemma {:induction false} ShrNone(v: nat)
    ensures Shr(v, 0) == v
  {
  }

  /** The size loop of der_tlv_length_serialize. */
  method CountOctets(len: nat) returns (required: nat)
    requires len <= RSSIZE_MAX
    ensures required == OctetCount(len)
  {
    hide Shr, OctetCount;
    required := 1;
    var i := 8;
    while i < 64
      invariant required >= 1 && i == 8 * required <= 64
      invariant required > 1 ==> Shr(len, 8 * (required - 1)) > 0
    {
      if Shr(len, i) == 0 {
        break;
      }
      required := required + 1;
      i := i + 8;
    }
    EightOctets(len);
    OctetCountExact(len, required);
  }

  lemma {:induction false} EightOctets(v: nat)
    requires v <= RSSIZE_MAX
    ensures Shr(v, 64) == 0
  {
    hide Shr, Pow2;
    ShrIsDiv(v, 64);
    Pow2Wide();
    DivModUnique(0, v, Pow2(64), v);
  }

  /** der_tlv_length_serialize: the size needed is always returned; the octets are written if they fit. */
  method DerLengthSerialize(len: nat, buf: array<byte>) returns (n: nat)
    requires len <= RSSIZE_MAX
    modifies buf
    ensures n == |SerializeLength(len)|
    ensures n <= buf.Length ==> buf[..n] == SerializeLength(len) && buf[n..] == old(buf[n..])
    ensures n > buf.Length ==> buf[..] == old(buf[..])
  {
    hide Shr, Octets;
    if len <= 127 {
      if buf.Length > 0 {
        buf[0] := len;
      }
      return 1;
    }
    var required := CountOctets(len);
    OctetCountBound(len);
    n := required + 1;
    if buf.Length <= required {
      return;
    }
    buf[0] := 0x80 + required;
    var k: nat, i: int := 1, 8 * (required - 1);
    while k <= required
      invariant 1 <= k <= required + 1 && i == 8 * (required - k)
      invariant forall j :: 1 <= j < k ==> buf[j] == Shr(len, 8 * (required - j)) % 0x100
      invariant buf[0] == 0x80 + required && buf[n..] == old(buf[n..])
    {
      buf[k] := Shr(len, i) % 0x100;
      i := i - 8;
      k := k + 1;
    }
    forall j | 0 <= j < required ensures buf[1..n][j] == Octets(len, required)[j] {
      OctetsAt(len, required, j);
    }
    assert buf[1..n] == Octets(len, required);
    assert buf[..n] == [buf[0]] + buf[1..n];
  }

  // ---- Fetching ----

  lemma {:induction false} LengthTailPrefix(b: seq<byte>, k: nat, i: nat, left: nat, len: nat)
    requires i <= k <= |b|
    ensures var whole, part := LengthTail(b, i, left, len), LengthTail(b[..k], i, left, len);
            && (part != More ==> part == whole)
            && (whole.Got? ==> whole.size == i + left <= |b| && whole.value >= 0 && (part == More <==> k < whole.size))
    decreases left
  {
    if left > 0 {
      if i < k {
        if len < SHIFT_LIMIT {
          LengthTailPrefix(b, k, i + 1, left - 1, len * 0x100 + b[i]);
        }
      } else {
        LengthTailSize(b, i, left, len);
      }
    }
  }

  lemma {:induction false} LengthTailSize(b: seq<byte>, i: nat, left: nat, len: nat)
    requires i <= |b|
    ensures var r := LengthTail(b, i, left, len);
            r.Got? ==> r.size == i + left <= |b| && r.value >= 0
    decreases left
  {
    if left > 0 && i < |b| && len < SHIFT_LIMIT {
      LengthTailSize(b, i + 1, left - 1, len * 0x100 + b[i]);
    }
  }

  /** As for tags: a prefix gives the final outcome or needs more, more exactly when it ends too early. */
  lemma {:induction false} LengthPrefix(constructed: bool, b: seq<byte>, k: nat)
    requires k <= |b|
    ensures var whole, part := FetchLength(constructed, b), FetchLength(constructed, b[..k]);
            && (part != More ==> part == whole)
            && (whole.Got? ==> 1 <= whole.size <= |b| && whole.size <= 127 && -1 <= whole.value <= RSSIZE_MAX)
            && (whole.Got? ==> (part == More <==> k < whole.size))
  {
    hide LengthTail;
    if b != [] && 0x80 <= b[0] < 0xFF {
      LengthTailMax(b, 1, b[0] - 0x80, 0);
      if k > 0 {
        LengthTailPrefix(b, k, 1, b[0] - 0x80, 0);
      } else {
        LengthTailSize(b, 1, b[0] - 0x80, 0);
      }
    }
  }

  lemma {:induction false} LengthTailMax(b: seq<byte>, i: nat, left: nat, len: nat)
    ensures LengthTail(b, i, left, len).Got? ==> LengthTail(b, i, left, len).value <= RSSIZE_MAX
    decreases left
  {
    if left > 0 && i < |b| && len < SHIFT_LIMIT {
      LengthTailMax(b, i + 1, left - 1, len * 0x100 + b[i]);
    }
  }

  lemma {:induction false} LengthAppend(constructed: bool, b: seq<byte>, rest: seq<byte>)
    requires FetchLength(constructed, b) != More
    ensures FetchLength(constructed, b + rest) == FetchLength(constructed, b)
  {
    hide *;
    assert (b + rest)[..|b|] == b;
    LengthPrefix(constructed, b + rest, |b|);
  }

  /** The long form accumulates its octets as a big-endian number. */
  lemma {:induction false} LengthTailOctets(head: seq<byte>, v: nat, n: nat, more: nat, rest: seq<byte>)
    requires v <= RSSIZE_MAX && Shr(v, 8 * n) == 0
    ensures var b := head + Octets(v, n) + rest;
            LengthTail(b, |head|, n + more, 0) == LengthTail(b, |head| + n, more, v)
  {
    if n > 0 {
      hide Shr;
      Shr8(v);
      ShrShr(v, 8, 8 * n - 8);
      var w, last := v / 0x100, v % 0x100;
      var b := head + Octets(v, n) + rest;
      assert b == head + Octets(w, n - 1) + ([last] + rest);
      LengthTailOctets(head, w, n - 1, more + 1, [last] + rest);
      assert b[|head| + n - 1] == last;
    }
  }

  lemma {:induction false} OctetCountUpper(v: nat, n: nat)
    requires n == OctetCount(v)
    ensures Shr(v, 8 * n) == 0
  {
    hide Shr;
    Shr8(v);
    if v >= 0x100 {
      OctetCountUpper(v / 0x100, n - 1);
      ShrShr(v, 8, 8 * n - 8);
    }
  }

  /** Every length up to RSSIZE_MAX comes back from its own octets, whatever follows them. */
  lemma {:induction false} LengthRoundTrip(constructed: bool, len: nat, rest: seq<byte>)
    requires len <= RSSIZE_MAX
    ensures FetchLength(constructed, SerializeLength(len) + rest) == Got(|SerializeLength(len)|, len)
  {
    hide Shr, Octets, OctetCount;
    if len > 127 {
      var n := OctetCount(len);
      OctetCountBound(len);
      OctetCountUpper(len, n);
      var head: seq<byte> := [0x80 + n];
      assert SerializeLength(len) + rest == head + Octets(len, n) + rest;
      LengthTailOctets(head, len, n, 0, rest);
    }
  }

  lemma {:induction false} LengthTailBelow(b: seq<byte>, i: nat, left: nat, len: nat, n: nat)
    requires len < Pow2(8 * n)
    ensures var r := LengthTail(b, i, left, len);
            r.Got? ==> r.value < Pow2(8 * (n + left))
    decreases left
  {
    if left > 0 && i < |b| && len < SHIFT_LIMIT {
      OneMoreOctet(len, b[i], n);
      LengthTailBelow(b, i + 1, left - 1, len * 0x100 + b[i], n + 1);
    }
  }

  lemma {:induction false} OneMoreOctet(len: nat, b: byte, n: nat)
    requires len < Pow2(8 * n)
    ensures len * 0x100 + b < Pow2(8 * (n + 1))
  {
    hide *;
    Pow2Add(8 * n, 8);
    Pow2Values();
  }

  /** DER, section 10.1 of X.690: no accepted definite form of a length is shorter than the serialised one. */
  lemma {:induction false} LengthMinimal(constructed: bool, b: seq<byte>)
    requires FetchLength(constructed, b).Got? && FetchLength(constructed, b).value >= 0
    ensures FetchLength(constructed, b).value <= RSSIZE_MAX
    ensures |SerializeLength(FetchLength(constructed, b).value)| <= FetchLength(constructed, b).size
  {
    LengthPrefix(constructed, b, |b|);
    var len := FetchLength(constructed, b).value;
    if len > 127 {
      hide LengthTail, OctetCount, Octets, Pow2;
      var left := b[0] - 0x80;
      Pow2Values();
      LengthTailSize(b, 1, left, 0);
      LengthTailBelow(b, 1, left, 0, 0);
      if left == 0 {
        assert false;
      }
      OctetCountAtMost(len, left);
    }
  }
}
