/**
  The primitives PER codecs are made of: constrained and normally small numbers, rebasing of
  a range to start at 0, and length determinants with fragmentation (section 11 of X.691).
 */
module PerSupport {
  import opened Bits
  import opened Options
  import opened Integer
  import opened BitOutput
  import opened BitInput

  /** What reading from a bit stream comes to. */
  datatype Got<T> =
    | Ok(value: T, rest: seq<bool>)
    | Starved      // the stream ended
    | Failed       // the bits are not an encoding
  {
    /** The same outcome in front of more input. */
    function Before(more: seq<bool>): Got<T> {
      if Ok? then Ok(value, rest + more) else this
    }
  }

  /** A field of `n` bits. */
  function Take(s: seq<bool>, n: nat): Got<nat> {
    if n <= |s| then Ok(Val(s[..n]), s[n..]) else Starved
  }

  lemma {:induction false} TakeBack(v: nat, n: nat, rest: seq<bool>)
    requires v < Pow2(n)
    ensures Take(ToBits(v, n) + rest, n) == Ok(v, rest)
  {
    hide ToBits, Val, Pow2;
    ValToBitsExact(v, n);
    assert (ToBits(v, n) + rest)[..n] == ToBits(v, n);
  }

  lemma {:induction false} TakeMoreInput(s: seq<bool>, n: nat, more: seq<bool>)
    requires Take(s, n).Ok?
    ensures Take(s + more, n) == Take(s, n).Before(more)
  {
    hide Val;
    assert (s + more)[..n] == s[..n];
  }

  // ---- Constrained whole numbers ----

  method PutConstrained(po: BitWriter, v: nat, nbits: nat) returns (rc: int)
    requires po.Valid()
    modifies po, po.tmpspace
    ensures po.Valid() && (rc == 0 || rc == -1)
    ensures rc == 0 ==> po.refused == old(po.refused) && po.Written() == old(po.Written()) + ToBits(v, nbits)
    ensures rc == -1 ==> po.refused
    ensures old(po.answers) == [] ==> po.answers == [] && rc == 0
    decreases nbits
  {
    hide ToBits, Shr, BitWriter.Written;
    if nbits <= 31 {
      rc := po.PutFewBits(v, nbits);
    } else {
      ghost var before := po.Written();
      rc := PutConstrained(po, Shr(v, 31), nbits - 31);
      if rc != 0 {
        return;
      }
      rc := po.PutFewBits(v, 31);
      ToBitsSplit(v, nbits - 31, 31);
      Associate(before, ToBits(Shr(v, 31), nbits - 31), ToBits(v, 31));
    }
  }

  method GetConstrained(pd: BitReader, nbits: nat) returns (r: Option<nat>)
    requires pd.Valid() && nbits <= 64
    modifies pd
    ensures pd.Valid()
    ensures r == if nbits <= |old(pd.All())| then Some(Val(old(pd.All())[..nbits])) else None
    ensures r.Some? ==> pd.All() == old(pd.All())[nbits..]
    decreases nbits
  {
    hide Val, Pow2, BitReader.All, Crosses;
    ghost var all := pd.All();
    if nbits <= 31 {
      var half := pd.GetFewBits(nbits);
      if half < 0 {
        return None;
      }
      return Some(half);
    }
    var half := pd.GetFewBits(31);
    if half < 0 {
      return None;
    }
    var low := GetConstrained(pd, nbits - 31);
    if low.None? {
      return None;
    }
    ValTake(all, 31, nbits - 31);
    assert all[31..][nbits - 31..] == all[nbits..];
    r := Some(half * Pow2(nbits - 31) + low.value);
  }

  // ---- Rebasing a range ----

  /** The size of a range less one, computed without leaving the signed or unsigned words. */
  method LongRange(lb: int, ub: int) returns (range: nat)
    requires FitsSigned(lb) && FitsSigned(ub) && lb <= ub
    ensures range == ub - lb && range < TWO64
  {
    if (ub < 0) == (lb < 0) {
      assert FitsSigned(ub - lb);
      range := ub - lb;
    } else {
      assert FitsSigned(-(lb + 1));
      range := 1 + (ub + -(lb + 1));
    }
  }

  method Rebase(v: int, lb: int, ub: int) returns (r: Option<nat>)
    requires FitsSigned(v) && FitsSigned(lb) && FitsSigned(ub) && lb <= ub
    ensures r == if lb <= v <= ub then Some(v - lb) else None
  {
    if v < lb || v > ub {
      return None;
    }
    var range := LongRange(lb, ub);
    if (v < 0) == (lb < 0) {
      assert FitsSigned(v - lb);
      r := Some(v - lb);
    } else {
      assert FitsSigned(-(lb + 1));
      r := Some(1 + -(lb + 1) + v);
      assert r.value <= range;
    }
  }

  method Unrebase(u: nat, lb: int, ub: int) returns (r: Option<int>)
    requires u < TWO64 && FitsSigned(lb) && FitsSigned(ub) && lb <= ub
    ensures r == if u <= ub - lb then Some(u + lb) else None
  {
    var range := LongRange(lb, ub);
    if u > range {
      return None;
    }
    if u < TWO63 {
      assert FitsSigned(u + lb);
      r := Some(u + lb);
    } else {
      assert FitsSigned(lb + TWO63) && FitsSigned(u - TWO63);
      r := Some((lb + (TWO63 - 1) + 1) + (u - (TWO63 - 1) - 1));
    }
  }

  // ---- Normally small numbers ----

  function PutSmall(n: nat): Option<seq<bool>> {
    if n <= 63 then Some(ToBits(n, 7))
    else if n < 0x100 then Some(ToBits(1, 8) + ToBits(n, 8))
    else if n < 0x1_0000 then Some(ToBits(2, 8) + ToBits(n, 16))
    else if n < 0x100_0000 then Some(ToBits(3, 8) + ToBits(n, 24))
    else None
  }

  /** Every failure is reported the way the end of the stream is. */
  function GetSmall(s: seq<bool>): Got<nat> {
    var a := Take(s, 7);
    if !a.Ok? then Starved
    else if a.value < 64 then a
    else
      var b := Take(a.rest, 2);
      if !b.Ok? then Starved
      else
        var octets := 4 * (a.value - 64) + b.value;
        if octets >= 128 then Starved
        else if octets == 0 then Ok(0, b.rest)
        else if octets >= 3 then Starved
        else Take(b.rest, 8 * octets)
  }

  lemma {:induction false} SmallBelow64(n: nat, rest: seq<bool>)
    requires n <= 63
    ensures PutSmall(n).Some? && GetSmall(PutSmall(n).value + rest) == Ok(n, rest)
  {
    hide ToBits, Val, Pow2, Take;
    assert n < Pow2(7) by { Pow2Small(); Pow2Add(3, 4); }
    TakeBack(n, 7, rest);
  }

  /** The first seven bits of an octet. */
  lemma {:induction false} SevenOfEight(c: nat, tail: seq<bool>)
    requires c < 64
    ensures Take(ToBits(c, 8) + tail, 7) == Ok(c / 2, [c % 2 == 1] + tail)
  {
    hide Val, Pow2;
    hide ToBits;
    ToBitsSplit(c, 7, 1);
    ShrIsDiv(c, 1);
    Pow2Small();
    OneBit(c);
    assert c / 2 < Pow2(7) by { Pow2Add(3, 4); }
    Associate(ToBits(c / 2, 7), [c % 2 == 1], tail);
    TakeBack(c / 2, 7, [c % 2 == 1] + tail);
  }

  lemma {:induction false} OneBit(c: nat)
    ensures ToBits(c, 1) == [c % 2 == 1]
  {
    assert ToBits(c / 2, 0) == [];
  }

  /** The reader looks for a flag and a shorter count than the writer puts, so it gets something else. */
  lemma {:induction false} SmallFrom64(n: nat, rest: seq<bool>)
    requires 64 <= n < 0x100_0000
    ensures PutSmall(n).Some? && GetSmall(PutSmall(n).value + rest).Ok? && GetSmall(PutSmall(n).value + rest).value <= 1
  {
    hide ToBits, Val, Pow2, Take;
    var k := if n < 0x100 then 1 else if n < 0x1_0000 then 2 else 3;
    var tail := ToBits(n, 8 * k);
    Associate(ToBits(k, 8), tail, rest);
    SevenOfEight(k, tail + rest);
  }

  /** A normally small number comes back exactly when it is below 64. */
  lemma {:induction false} SmallRoundTrip(n: nat, rest: seq<bool>)
    requires n < 0x100_0000
    ensures PutSmall(n).Some?
    ensures GetSmall(PutSmall(n).value + rest) == Ok(n, rest) <==> n <= 63
  {
    hide PutSmall, GetSmall;
    if n <= 63 {
      SmallBelow64(n, rest);
    } else {
      SmallFrom64(n, rest);
    }
  }

  /** Nine bits: a bit that is set, and an octet. */
  lemma {:induction false} FlagAndOctet(k: nat, rest: seq<bool>)
    requires k < 0x100
    ensures [true] + (ToBits(k, 8) + rest) == ToBits(64 + k / 4, 7) + (ToBits(k % 4, 2) + rest)
    ensures 64 + k / 4 < Pow2(7) && k % 4 < Pow2(2)
  {
    hide ToBits, Pow2, Shr, Val;
    var high := k / 4;
    assert Pow2(2) == 4 && Pow2(6) == 64 && Pow2(7) == 128 by { Pow2Small(); Pow2Add(2, 4); Pow2Add(3, 4); }
    ToBitsSplit(k, 6, 2);
    ShrIsDiv(k, 2);
    ToBitsMod(k, 2);
    FirstBitOf(64 + high, 7, []);
    DivModUnique(1, high, 64, 64 + high);
    var seven := ToBits(64 + high, 7);
    assert seven + [] == seven && ToBits(high, 6) + [] == ToBits(high, 6);
    assert seven == [true] + ToBits(high, 6);
    Associate(ToBits(high, 6), ToBits(k % 4, 2), rest);
  }

  /**
    The form section 11.6 of X.691 gives a number from 64 on: a set bit, an octet with the number of octets,
    and those octets.  The reader understands it, but no more than two of them.
   */
  lemma {:induction false} ConformingSmall(n: nat, k: nat, rest: seq<bool>)
    requires 1 <= k < 0x100 && n < Pow2(8 * k)
    ensures GetSmall([true] + (ToBits(k, 8) + (ToBits(n, 8 * k) + rest))) == if k <= 2 then Ok(n, rest) else Starved
  {
    hide ToBits, Val, Pow2, Take;
    var tail := ToBits(n, 8 * k) + rest;
    FlagAndOctet(k, tail);
    TakeBack(64 + k / 4, 7, ToBits(k % 4, 2) + tail);
    TakeBack(k % 4, 2, tail);
    if k <= 2 {
      TakeBack(n, 8 * k, rest);
    }
  }

  lemma {:induction false} SmallMoreInput(s: seq<bool>, more: seq<bool>)
    requires GetSmall(s).Ok?
    ensures GetSmall(s + more) == GetSmall(s).Before(more)
  {
    hide Take;
    TakeMoreInput(s, 7, more);
    var a := Take(s, 7);
    if a.value >= 64 {
      TakeMoreInput(a.rest, 2, more);
      var b := Take(a.rest, 2);
      var octets := 4 * (a.value - 64) + b.value;
      if octets > 0 {
        TakeMoreInput(b.rest, 8 * octets, more);
      }
    }
  }

  // ---- Octet strings behind length determinants ----

  const FRAGMENT: nat := 0x4000

  /** How much of `n` octets one length determinant covers. */
  function Covered(n: nat): (k: nat)
    ensures k <= n && (n > 0 ==> k > 0)
    ensures n >= FRAGMENT ==> k % FRAGMENT == 0 && 1 <= k / FRAGMENT <= 4
  {
    if n < FRAGMENT then n else if n / FRAGMENT > 4 then 4 * FRAGMENT else n / FRAGMENT * FRAGMENT
  }

  function LengthBits(n: nat): seq<bool> {
    if n <= 127 then ToBits(n, 8)
    else if n < FRAGMENT then ToBits(n + 0x8000, 16)
    else ToBits(0xC0 + Covered(n) / FRAGMENT, 8)
  }

  /** Whether an empty fragment must say that the one before was the last. */
  predicate NeedsEnd(n: nat) {
    n >= FRAGMENT && n % FRAGMENT == 0 && n / FRAGMENT <= 4
  }

  /** A length determinant and whether another fragment follows. */
  function GetLength(s: seq<bool>): (r: Got<(nat, bool)>)
    ensures r.Ok? ==> |r.rest| < |s|
  {
    var a := Take(s, 8);
    if !a.Ok? then Starved
    else if a.value < 0x80 then Ok((a.value, false), a.rest)
    else if a.value < 0xC0 then
      var b := Take(a.rest, 8);
      if !b.Ok? then Starved else Ok(((a.value - 0x80) * 0x100 + b.value, false), b.rest)
    else if 1 <= a.value - 0xC0 <= 4 then Ok((FRAGMENT * (a.value - 0xC0), true), a.rest)
    else Starved
  }

  /** The octets a bit string of whole octets stands for. */
  function FromBits(s: seq<bool>): (b: seq<byte>)
    ensures |b| == |s| / 8
  {
    Octets(Val(s), |s| / 8)
  }

  lemma {:induction false} FromBitsBack(s: seq<bool>)
    requires |s| % 8 == 0
    ensures BytesToBits(FromBits(s)) == s
  {
    hide ToBits, Val, BytesToBits, Octets;
    OctetsBits(Val(s), |s| / 8);
    ToBitsVal(s);
  }

  lemma {:induction false} FromBitsOf(b: seq<byte>)
    ensures FromBits(BytesToBits(b)) == b
  {
    hide FromBits, BytesToBits;
    FromBitsBack(BytesToBits(b));
    BytesToBitsInjective(FromBits(BytesToBits(b)), b);
  }

  function PutOctets(b: seq<byte>): seq<bool>
    decreases |b|
  {
    if b == [] then []
    else
      var k := Covered(|b|);
      LengthBits(|b|) + BytesToBits(b[..k]) + (if NeedsEnd(|b|) then LengthBits(0) else []) + PutOctets(b[k..])
  }

  function GetOctets(s: seq<bool>): (r: Got<seq<byte>>)
    ensures if r.Ok? then |r.rest| < |s| else r.Starved?
    decreases |s|
  {
    var a := GetLength(s);
    if !a.Ok? then Starved
    else
      var (n, repeat) := a.value;
      if 8 * n > |a.rest| then Starved
      else
        var b := FromBits(a.rest[..8 * n]);
        if !repeat then Ok(b, a.rest[8 * n..])
        else
          var more := GetOctets(a.rest[8 * n..]);
          if more.Ok? then Ok(b + more.value, more.rest) else more
  }

  lemma {:induction false} LengthBack(n: nat, rest: seq<bool>)
    ensures GetLength(LengthBits(n) + rest) == Ok((Covered(n), n >= FRAGMENT), rest)
  {
    hide ToBits, Val, Pow2, Take;
    Pow2Values();
    if n <= 127 {
      TakeBack(n, 8, rest);
    } else if n < FRAGMENT {
      TwoOctetLength(n, rest);
    } else {
      TakeBack(0xC0 + Covered(n) / FRAGMENT, 8, rest);
    }
  }

  lemma {:induction false} TwoOctetLength(n: nat, rest: seq<bool>)
    requires 127 < n < FRAGMENT
    ensures GetLength(LengthBits(n) + rest) == Ok((n, false), rest)
  {
    hide ToBits, Val, Pow2, Take, Shr;
    Pow2Values();
    var x := n + 0x8000;
    ToBitsSplit(x, 8, 8);
    ShrIsDiv(x, 8);
    ToBitsMod(x, 8);
    Associate(ToBits(x / 0x100, 8), ToBits(x % 0x100, 8), rest);
    TakeBack(x / 0x100, 8, ToBits(x % 0x100, 8) + rest);
    TakeBack(x % 0x100, 8, rest);
  }

  /** One determinant and the octets it covers. */
  lemma {:induction false} FragmentBack(n: nat, b: seq<byte>, rest: seq<bool>)
    requires |b| == Covered(n)
    ensures var s := LengthBits(n) + BytesToBits(b) + rest;
            var a := GetLength(s);
            && a == Ok((|b|, n >= FRAGMENT), BytesToBits(b) + rest)
            && FromBits(a.rest[..8 * |b|]) == b && a.rest[8 * |b|..] == rest
  {
    hide GetLength, LengthBits, BytesToBits, FromBits, Covered;
    Associate(LengthBits(n), BytesToBits(b), rest);
    LengthBack(n, BytesToBits(b) + rest);
    FromBitsOf(b);
    assert (BytesToBits(b) + rest)[..8 * |b|] == BytesToBits(b);
  }

  /** Octets of any number come back, whatever fragments they were put in. */
  lemma {:induction false} OctetsRoundTrip(b: seq<byte>, rest: seq<bool>)
    requires b != []
    ensures GetOctets(PutOctets(b) + rest) == Ok(b, rest)
    decreases |b|
  {
    hide GetLength, LengthBits, BytesToBits, FromBits, PutOctets, GetOctets;
    var k := Covered(|b|);
    if |b| < FRAGMENT {
      LastFragment(b, rest);
    } else if NeedsEnd(|b|) {
      EndFragment(b, rest);
    } else {
      OctetsRoundTrip(b[k..], rest);
      MiddleFragment(b, rest);
    }
  }

  lemma {:induction false} PutLast(b: seq<byte>)
    requires 0 < |b| && Covered(|b|) == |b|
    ensures PutOctets(b) == LengthBits(|b|) + BytesToBits(b) + (if NeedsEnd(|b|) then LengthBits(0) else [])
  {
    hide LengthBits, BytesToBits, Covered, NeedsEnd;
    assert b[..|b|] == b;
    assert b[|b|..] == [];
    assert PutOctets(b[|b|..]) == [];
  }

  lemma {:induction false} LastFragment(b: seq<byte>, rest: seq<bool>)
    requires 0 < |b| < FRAGMENT
    ensures GetOctets(PutOctets(b) + rest) == Ok(b, rest)
  {
    hide GetLength, LengthBits, BytesToBits, FromBits, PutOctets;
    PutLast(b);
    FragmentBack(|b|, b, rest);
    assert PutOctets(b) == LengthBits(|b|) + BytesToBits(b);
  }

  /** The empty fragment by itself. */
  lemma {:induction false} EmptyFragment(rest: seq<bool>)
    ensures GetOctets(LengthBits(0) + rest) == Ok([], rest)
  {
    hide GetLength, LengthBits, FromBits;
    LengthBack(0, rest);
    assert rest[..0] == [];
    assert FromBits([]) == [];
  }

  lemma {:induction false} EndFragment(b: seq<byte>, rest: seq<bool>)
    requires NeedsEnd(|b|)
    ensures GetOctets(PutOctets(b) + rest) == Ok(b, rest)
  {
    hide GetLength, LengthBits, BytesToBits, FromBits, PutOctets, GetOctets;
    PutLast(b);
    var end := LengthBits(0);
    Associate(LengthBits(|b|) + BytesToBits(b), end, rest);
    FragmentBack(|b|, b, end + rest);
    EmptyFragment(rest);
    GetRepeated(PutOctets(b) + rest, b, end + rest);
    assert b + [] == b;
  }

  lemma {:induction false} MiddleFragment(b: seq<byte>, rest: seq<bool>)
    requires |b| >= FRAGMENT && !NeedsEnd(|b|)
    requires GetOctets(PutOctets(b[Covered(|b|)..]) + rest) == Ok(b[Covered(|b|)..], rest)
    ensures GetOctets(PutOctets(b) + rest) == Ok(b, rest)
  {
    hide GetLength, LengthBits, BytesToBits, FromBits, GetOctets, Covered, NeedsEnd;
    var k := Covered(|b|);
    var tail := PutOctets(b[k..]);
    assert PutOctets(b) == LengthBits(|b|) + BytesToBits(b[..k]) + tail;
    Associate(LengthBits(|b|) + BytesToBits(b[..k]), tail, rest);
    FragmentBack(|b|, b[..k], tail + rest);
    GetRepeated(PutOctets(b) + rest, b[..k], tail + rest);
    assert b == b[..k] + b[k..];
  }

  /** One turn of the reader's loop. */
  lemma {:induction false} GetRepeated(s: seq<bool>, b: seq<byte>, tail: seq<bool>)
    requires GetLength(s) == Ok((|b|, true), BytesToBits(b) + tail)
    requires FromBits((BytesToBits(b) + tail)[..8 * |b|]) == b && (BytesToBits(b) + tail)[8 * |b|..] == tail
    requires GetOctets(tail).Ok?
    ensures GetOctets(s) == Ok(b + GetOctets(tail).value, GetOctets(tail).rest)
  {
    hide GetLength, BytesToBits, FromBits;
  }

  lemma {:induction false} LengthMoreInput(s: seq<bool>, more: seq<bool>)
    requires GetLength(s).Ok?
    ensures GetLength(s + more) == GetLength(s).Before(more)
  {
    hide Take;
    TakeMoreInput(s, 8, more);
    var a := Take(s, 8);
    if 0x80 <= a.value < 0xC0 {
      TakeMoreInput(a.rest, 8, more);
    }
  }

  lemma {:induction false} OctetsMoreInput(s: seq<bool>, more: seq<bool>)
    requires GetOctets(s).Ok?
    ensures GetOctets(s + more) == GetOctets(s).Before(more)
    decreases |s|
  {
    hide GetLength, FromBits;
    LengthMoreInput(s, more);
    var a := GetLength(s);
    var (n, repeat) := a.value;
    assert (a.rest + more)[..8 * n] == a.rest[..8 * n];
    assert (a.rest + more)[8 * n..] == a.rest[8 * n..] + more;
    if repeat {
      OctetsMoreInput(a.rest[8 * n..], more);
    }
  }

  // ---- Normally small lengths ----

  /** The length of a bitmap of extension additions. */
  function PutSmallLength(n: nat): Option<seq<bool>> {
    if n == 0 then None
    else if n <= 64 then Some(ToBits(n - 1, 7))
    else if n < FRAGMENT then Some(LengthBits(n))
    else None
  }

  function GetSmallLength(s: seq<bool>): (r: Got<nat>)
    ensures r.Ok? || r.Starved?
  {
    if s == [] then Starved
    else if !s[0] then
      var a := Take(s[1..], 6);
      if a.Ok? then Ok(a.value + 1, a.rest) else Starved
    else
      var a := GetLength(s[1..]);
      if a.Ok? && !a.value.1 then Ok(a.value.0, a.rest) else Starved
  }

  lemma {:induction false} SmallLengthUpTo64(n: nat, rest: seq<bool>)
    requires 1 <= n <= 64
    ensures PutSmallLength(n).Some? && GetSmallLength(PutSmallLength(n).value + rest) == Ok(n, rest)
  {
    hide ToBits, Val, Pow2, Take, Shr;
    var s := ToBits(n - 1, 7) + rest;
    ToBitsSplit(n - 1, 1, 6);
    ShrIsDiv(n - 1, 6);
    assert Pow2(6) == 64 by { Pow2Small(); Pow2Add(2, 4); }
    OneBit((n - 1) / 64);
    assert s[0] == false && s[1..] == ToBits(n - 1, 6) + rest;
    TakeBack(n - 1, 6, rest);
  }

  /** A length from 65 on in the form of section 11.9 of X.691, behind a set bit, is read as it is. */
  lemma {:induction false} ConformingSmallLength(n: nat, rest: seq<bool>)
    requires n < FRAGMENT
    ensures GetSmallLength([true] + (LengthBits(n) + rest)) == Ok(n, rest)
  {
    hide LengthBits, GetLength;
    var s := [true] + (LengthBits(n) + rest);
    assert s[0] && s[1..] == LengthBits(n) + rest;
    LengthBack(n, rest);
    CoveredWhole(n);
  }

  lemma {:induction false} CoveredWhole(n: nat)
    requires n < FRAGMENT
    ensures Covered(n) == n
  {
  }

  /** A field as its first bit and the rest. */
  lemma {:induction false} FirstBitOf(v: nat, k: nat, rest: seq<bool>)
    requires k >= 1 && v < Pow2(k)
    ensures var s := ToBits(v, k) + rest;
            s[0] == (v / Pow2(k - 1) == 1) && s[1..] == ToBits(v % Pow2(k - 1), k - 1) + rest
  {
    hide ToBits, Pow2, Shr;
    ToBitsSplit(v, 1, k - 1);
    ShrIsDiv(v, k - 1);
    Pow2Succ(k - 1);
    ToBitsMod(v, k - 1);
    var q := v / Pow2(k - 1);
    OneBit(q);
    assert 0 <= q <= 1 by { HalfOrLess(v, Pow2(k - 1)); }
  }

  lemma {:induction false} HalfOrLess(v: nat, p: nat)
    requires p > 0 && v < 2 * p
    ensures 0 <= v / p <= 1
  {
    if v < p {
      DivModUnique(0, v, p, v);
    } else {
      DivModUnique(1, v - p, p, v);
    }
  }

  /** From 65 on the writer leaves out the bit that tells the reader so, and the reader gets a smaller number. */
  lemma {:induction false} SmallLengthFrom65(n: nat, rest: seq<bool>)
    requires 65 <= n < FRAGMENT
    ensures PutSmallLength(n).Some?
    ensures var r := GetSmallLength(PutSmallLength(n).value + rest); r.Ok? ==> r.value < n
  {
    hide LengthBits, GetSmallLength;
    if n <= 127 {
      SmallLengthSix(n, rest);
    } else {
      SmallLengthLong(n, rest);
    }
  }

  lemma {:induction false} SmallLengthSix(n: nat, rest: seq<bool>)
    requires 65 <= n <= 127
    ensures var r := GetSmallLength(LengthBits(n) + rest); r.Ok? ==> r.value < n
  {
    hide ToBits, Pow2;
    assert Pow2(7) == 0x80 && Pow2(6) == 64 by { Pow2Small(); Pow2Add(3, 4); Pow2Add(2, 4); }
    Pow2Values();
    FirstBitOf(n, 8, rest);
    DivModUnique(0, n, 0x80, n);
    var s := (LengthBits(n) + rest)[1..];
    if Take(s, 6).Ok? {
      ValBound(s[..6]);
    }
  }

  lemma {:induction false} SmallLengthLong(n: nat, rest: seq<bool>)
    requires 128 <= n < FRAGMENT
    ensures var r := GetSmallLength(LengthBits(n) + rest); r.Ok? ==> r.value < n
  {
    hide ToBits, Pow2, Val;
    var v := n + 0x8000;
    assert Pow2(15) == 0x8000 && Pow2(14) == 0x4000 && Pow2(7) == 0x80 by {
      Pow2Small(); Pow2Add(3, 4); Pow2Values(); Pow2Add(7, 8); Pow2Succ(14);
    }
    Pow2Values();
    FirstBitOf(v, 16, rest);
    DivModUnique(1, n, 0x8000, v);
    var s := (LengthBits(n) + rest)[1..];
    FirstBitOf(n, 15, rest);
    DivModUnique(0, n, 0x4000, n);
    assert !s[0];
    if |s| >= 8 {
      ShortForm(s);
    }
  }

  /** A length determinant that starts with a zero bit is below 128. */
  lemma {:induction false} ShortForm(s: seq<bool>)
    requires |s| >= 8 && !s[0]
    ensures GetLength(s).Ok? && GetLength(s).value.0 < 128
  {
    hide Pow2;
    var b := s[..8];
    assert b == [false] + b[1..];
    ValConcat([false], b[1..]);
    ValBound(b[1..]);
    assert Pow2(7) == 0x80 by { Pow2Small(); Pow2Add(3, 4); }
    assert Val([false]) == 0 by { ValSnoc([], false); assert [] + [false] == [false]; }
  }

  /** A normally small length comes back exactly up to 64. */
  lemma {:induction false} SmallLengthRoundTrip(n: nat, rest: seq<bool>)
    requires 1 <= n < FRAGMENT
    ensures PutSmallLength(n).Some?
    ensures GetSmallLength(PutSmallLength(n).value + rest) == Ok(n, rest) <==> n <= 64
  {
    hide PutSmallLength, GetSmallLength;
    if n <= 64 {
      SmallLengthUpTo64(n, rest);
    } else {
      SmallLengthFrom65(n, rest);
    }
  }

  lemma {:induction false} SmallLengthMoreInput(s: seq<bool>, more: seq<bool>)
    requires GetSmallLength(s).Ok?
    ensures GetSmallLength(s + more) == GetSmallLength(s).Before(more)
  {
    hide Take, GetLength;
    assert (s + more)[0] == s[0] && (s + more)[1..] == s[1..] + more;
    if s[0] {
      LengthMoreInput(s[1..], more);
    } else {
      TakeMoreInput(s[1..], 6, more);
    }
  }

  // ---- Open types ----

  /** The octets of a complete encoding: at least one. */
  function OpenOctets(bits: seq<bool>): (b: seq<byte>)
    ensures b != []
  {
    if bits == [] then [0] else FromBits(bits + Zeros(Padding(|bits|)))
  }

  /**
    What the decoder of an open type may leave unread: less than an octet, whatever its bits, or a
    single zero octet.
   */
  predicate MayRemain(octets: seq<byte>, left: seq<bool>) {
    |left| < 8 || (|octets| == 1 && |left| == 8 && Val(left) == 0)
  }

  lemma {:induction false} OpenOctetsBits(bits: seq<bool>)
    ensures BytesToBits(OpenOctets(bits)) == bits + if bits == [] then Zeros(8) else Zeros(Padding(|bits|))
  {
    hide FromBits, BytesToBits, ToBits;
    if bits == [] {
      BytesToBitsOne(0);
      ToBitsZero(8);
      assert [] + Zeros(8) == Zeros(8);
    } else {
      FromBitsBack(bits + Zeros(Padding(|bits|)));
    }
  }

  lemma {:induction false} OpenRemains(bits: seq<bool>)
    ensures MayRemain(OpenOctets(bits), if bits == [] then Zeros(8) else Zeros(Padding(|bits|)))
  {
    hide Val, FromBits;
    ZerosVal(8);
  }
}
