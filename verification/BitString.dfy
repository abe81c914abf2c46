/**
  BIT STRING values up to trailing zero bits: compaction, and the comparison built on it.
  Section 22.7 of X.680 asks that strings which differ only in trailing zero bits mean the same.
 */
module BitString {
  import opened Bits
  import opened Integer

  /** A string of 8 * |buf| - unused bits. */
  datatype BitStr = BitStr(buf: seq<byte>, unused: nat) {
    predicate Valid() {
      unused <= 7 && (buf == [] ==> unused == 0)
    }

    function Bits(): (s: seq<bool>)
      requires Valid()
      ensures |s| == 8 * |buf| - unused
    {
      BytesToBits(buf)[..8 * |buf| - unused]
    }

    /** The bits beyond the end are zero. */
    ghost predicate Clean() {
      Valid() && BytesToBits(buf) == Bits() + Zeros(unused)
    }
  }

  /** Without trailing zero bits. */
  function Trim(s: seq<bool>): (r: seq<bool>)
    ensures |r| <= |s|
    ensures r == [] || r[|r| - 1]
  {
    if s == [] || s[|s| - 1] then s else Trim(s[..|s| - 1])
  }

  lemma {:induction false} TrimPrefix(s: seq<bool>)
    ensures s == Trim(s) + Zeros(|s| - |Trim(s)|)
  {
    if s != [] && !s[|s| - 1] {
      TrimPrefix(s[..|s| - 1]);
    }
  }

  lemma {:induction false} TrimZeros(s: seq<bool>, k: nat)
    ensures Trim(s + Zeros(k)) == Trim(s)
  {
    if k == 0 {
      assert s + Zeros(0) == s;
    } else {
      TrimZeros(s, k - 1);
      assert (s + Zeros(k))[..|s| + k - 1] == s + Zeros(k - 1);
    }
  }

  /** Strings trim to the same exactly when they differ only in trailing zeros. */
  lemma {:induction false} TrimSame(a: seq<bool>, b: seq<bool>)
    ensures Trim(a) == Trim(b) <==> exists j, k :: a + Zeros(j) == b + Zeros(k)
  {
    if Trim(a) == Trim(b) {
      TrimPrefix(a);
      TrimPrefix(b);
      var t := Trim(a);
      assert a + Zeros(|b|) == b + Zeros(|a|);
    }
    forall j, k | a + Zeros(j) == b + Zeros(k) ensures Trim(a) == Trim(b) {
      TrimZeros(a, j);
      TrimZeros(b, k);
    }
  }

  // ---- The lowest bit that is set ----

  /** C's `a & b` on `n` bits. */
  function And(a: nat, b: nat, n: nat): nat {
    if n == 0 then 0 else 2 * And(a / 2, b / 2, n - 1) + (if a % 2 == 1 && b % 2 == 1 then 1 else 0)
  }

  /** The number of zero bits below the lowest that is set. */
  function Low(v: nat): nat
    requires v > 0
  {
    if v % 2 == 1 then 0 else 1 + Low(v / 2)
  }

  lemma {:induction false} AndComplement(a: nat, n: nat)
    requires a < Pow2(n)
    ensures And(a, Pow2(n) - 1 - a, n) == 0
  {
    if n > 0 {
      AndComplement(a / 2, n - 1);
      assert (Pow2(n) - 1 - a) / 2 == Pow2(n - 1) - 1 - a / 2;
    }
  }

  /** `v & -v` leaves just the lowest bit that is set. */
  lemma {:induction false} AndNegative(v: nat, n: nat)
    requires 0 < v < Pow2(n)
    ensures And(v, Pow2(n) - v, n) == Pow2(Low(v)) && Low(v) < n
  {
    if v % 2 == 1 {
      assert (Pow2(n) - v) / 2 == Pow2(n - 1) - 1 - v / 2;
      AndComplement(v / 2, n - 1);
    } else {
      assert (Pow2(n) - v) / 2 == Pow2(n - 1) - v / 2;
      AndNegative(v / 2, n - 1);
    }
  }

  lemma {:induction false} AndZero(b: nat, n: nat)
    ensures And(0, b, n) == 0
  {
    if n > 0 {
      AndZero(b / 2, n - 1);
    }
  }

  /** A mask picks out a single bit or nothing. */
  lemma {:induction false} AndSingle(k: nat, b: nat, n: nat)
    requires k < n
    ensures And(Pow2(k), b, n) != 0 <==> b / Pow2(k) % 2 == 1
  {
    if k == 0 {
      AndZero(b / 2, n - 1);
    } else {
      AndSingle(k - 1, b / 2, n - 1);
      HalfDiv(b, Pow2(k - 1));
    }
  }

  /** The three masks of the source read off the position of a single bit. */
  lemma {:induction false} Masks(k: nat)
    requires k < 8
    ensures var unused := 7 - (if And(Pow2(k), 0x0F, 8) != 0 then 4 else 0)
                            - (if And(Pow2(k), 0x33, 8) != 0 then 2 else 0)
                            - (if And(Pow2(k), 0x55, 8) != 0 then 1 else 0);
            unused == k
  {
    hide And, Pow2;
    AndSingle(k, 0x0F, 8);
    AndSingle(k, 0x33, 8);
    AndSingle(k, 0x55, 8);
    Pow2Octet(k);
  }

  lemma {:induction false} Pow2Octet(k: nat)
    requires k < 8
    ensures Pow2(k) == [1, 2, 4, 8, 16, 32, 64, 128][k]
  {
    hide Pow2;
    Pow2Small();
    if k > 4 {
      Pow2Add(4, k - 4);
    }
  }

  // ---- Compaction ----

  function TrimOctets(b: seq<byte>): (r: seq<byte>)
    ensures r == [] || r[|r| - 1] != 0
    ensures |r| <= |b| && r == b[..|r|]
  {
    if b == [] || b[|b| - 1] != 0 then b else TrimOctets(b[..|b| - 1])
  }

  function Compact(b: seq<byte>): (r: BitStr)
    ensures r.Valid()
  {
    var c := TrimOctets(b);
    if c == [] then BitStr([], 0) else LowBelow(c[|c| - 1]); BitStr(c, Low(c[|c| - 1]))
  }

  lemma {:induction false} LowBelow(v: byte)
    requires v > 0
    ensures Low(v) < 8
  {
    hide And, Low;
    Pow2Values();
    AndNegative(v, 8);
  }

  /** The octet that ends a compacted string: bits up to the last that is set, then zeros. */
  lemma {:induction false} LastOctet(v: nat, n: nat)
    requires 0 < v < Pow2(n)
    ensures Low(v) < n && ToBits(v, n) == ToBits(v, n)[..n - Low(v)] + Zeros(Low(v))
    ensures ToBits(v, n)[n - Low(v) - 1]
  {
    if v % 2 == 0 {
      LastOctet(v / 2, n - 1);
      assert Zeros(Low(v)) == Zeros(Low(v / 2)) + [false];
    }
  }

  lemma {:induction false} TrimOctetsZero(b: seq<byte>)
    ensures BytesToBits(b) == BytesToBits(TrimOctets(b)) + Zeros(8 * (|b| - |TrimOctets(b)|))
  {
    hide BytesToBits, ToBits;
    if b != [] && b[|b| - 1] == 0 {
      var c := b[..|b| - 1];
      TrimOctetsZero(c);
      assert b == c + [0];
      BytesToBitsConcat(c, [0]);
      BytesToBitsOne(0);
      ToBitsZero(8);
    } else {
      assert BytesToBits(b) + Zeros(0) == BytesToBits(b);
    }
  }

  lemma {:induction false} CompactTail(c: seq<byte>)
    requires c != [] && c[|c| - 1] != 0
    ensures var k := Low(c[|c| - 1]); k < 8 && BytesToBits(c) == BytesToBits(c)[..8 * |c| - k] + Zeros(k)
    ensures BytesToBits(c)[8 * |c| - Low(c[|c| - 1]) - 1]
  {
    hide BytesToBits, ToBits, Low;
    var v := c[|c| - 1];
    Pow2Values();
    LastOctet(v, 8);
    assert c == c[..|c| - 1] + [v];
    BytesToBitsConcat(c[..|c| - 1], [v]);
    BytesToBitsOne(v);
    TakeConcat(BytesToBits(c[..|c| - 1]), ToBits(v, 8), 8 - Low(v));
  }

  lemma {:induction false} TrimDone(s: seq<bool>, n: nat)
    requires 0 < n <= |s| && s[n - 1] && s == s[..n] + Zeros(|s| - n)
    ensures Trim(s) == s[..n]
  {
    TrimZeros(s[..n], |s| - n);
  }

  /** Compaction removes exactly the trailing zero bits. */
  lemma {:induction false} CompactTrims(b: seq<byte>)
    ensures Compact(b).Bits() == Trim(BytesToBits(b)) && Compact(b).Clean()
  {
    hide BytesToBits, Trim, Low;
    var c := TrimOctets(b);
    TrimOctetsZero(b);
    TrimZeros(BytesToBits(c), 8 * (|b| - |c|));
    if c == [] {
      assert BytesToBits(c) == [] by { NothingToTrim(c); }
      assert Trim([]) == [] by { NothingToTrim(c); }
      assert [] + Zeros(0) == [];
    } else {
      CompactTail(c);
      TrimDone(BytesToBits(c), 8 * |c| - Low(c[|c| - 1]));
    }
  }

  lemma {:induction false} NothingToTrim(none: seq<byte>)
    requires none == []
    ensures BytesToBits(none) == [] && Trim([]) == []
  {
  }

  /** Compaction is a canonical form: equal exactly for strings that differ only in trailing zero bits. */
  lemma {:induction false} CompactCanonical(a: BitStr, b: BitStr)
    requires a.Clean() && b.Clean()
    ensures Compact(a.buf) == Compact(b.buf) <==> Trim(a.Bits()) == Trim(b.Bits())
  {
    hide BytesToBits, Trim, Compact;
    CompactTrims(a.buf);
    CompactTrims(b.buf);
    TrimZeros(a.Bits(), a.unused);
    TrimZeros(b.Bits(), b.unused);
    if Trim(a.Bits()) == Trim(b.Bits()) {
      SameBits(Compact(a.buf), Compact(b.buf));
    }
  }

  /** Clean strings of the same bits have the same representation. */
  lemma {:induction false} SameBits(a: BitStr, b: BitStr)
    requires a.Clean() && b.Clean() && a.Bits() == b.Bits()
    ensures a == b
  {
    hide BytesToBits;
    assert |a.buf| == |b.buf| && a.unused == b.unused;
    BytesToBitsInjective(a.buf, b.buf);
  }

  /** BIT_STRING__compactify. */
  method Compactify(st: BitStr) returns (r: BitStr)
    requires st.Valid()
    ensures r == Compact(st.buf)
  {
    hide Low, And, Pow2;
    if |st.buf| == 0 {
      return st;
    }
    var b := |st.buf| - 1;
    assert st.buf[..b + 1] == st.buf;
    while b > 0 && st.buf[b] == 0
      invariant 0 <= b < |st.buf| && TrimOctets(st.buf[..b + 1]) == TrimOctets(st.buf)
    {
      assert st.buf[..b + 1][..b] == st.buf[..b];
      b := b - 1;
    }
    var v: nat := st.buf[b];
    if v != 0 {
      Pow2Values();
      AndNegative(v, 8);
      Masks(Low(v));
      v := And(v, 0x100 - v, 8);
      var unused := 7;
      unused := if And(v, 0x0F, 8) != 0 then unused - 4 else unused;
      unused := if And(v, 0x33, 8) != 0 then unused - 2 else unused;
      unused := if And(v, 0x55, 8) != 0 then unused - 1 else unused;
      r := BitStr(st.buf[..b + 1], unused);
    } else {
      assert st.buf[..1][..0] == [];
      assert TrimOctets(st.buf[..1]) == TrimOctets([]);
      r := BitStr([], 0);
    }
  }

  // ---- Comparison ----

  /** memcmp on the common prefix, as a sign. */
  function MemCmp(a: seq<byte>, b: seq<byte>): int {
    if a == [] || b == [] then 0
    else if a[0] != b[0] then (if a[0] < b[0] then -1 else 1)
    else MemCmp(a[1..], b[1..])
  }

  /** BIT_STRING_compare. */
  method Compare(a: BitStr, b: BitStr) returns (ret: int)
    requires a.Valid() && b.Valid()
    ensures ret == Order(a.buf, b.buf)
  {
    hide MemCmp;
    var x := Compactify(a);
    var y := Compactify(b);
    ret := MemCmp(x.buf, y.buf);
    if ret == 0 {
      if |x.buf| < |y.buf| {
        ret := -1;
      } else if |x.buf| > |y.buf| {
        ret := 1;
      } else {
        assert x.buf == y.buf by { MemCmpSame(x.buf, y.buf); }
        if x.unused > y.unused {
          ret := -1;
        } else if x.unused < y.unused {
          ret := 1;
        }
      }
    }
  }

  lemma {:induction false} MemCmpSame(a: seq<byte>, b: seq<byte>)
    requires |a| == |b| && MemCmp(a, b) == 0
    ensures a == b
  {
    if a != [] {
      MemCmpSame(a[1..], b[1..]);
      assert a == [a[0]] + a[1..] && b == [b[0]] + b[1..];
    }
  }

  /** Lexicographic order of the octets that compaction leaves. */
  function Order(a: seq<byte>, b: seq<byte>): int {
    Lex(TrimOctets(a), TrimOctets(b))
  }

  function Lex(a: seq<byte>, b: seq<byte>): int {
    var m := MemCmp(a, b);
    if m != 0 then m else if |a| < |b| then -1 else if |a| > |b| then 1 else 0
  }

  lemma {:induction false} LexStep(a: seq<byte>, b: seq<byte>)
    requires a != [] && b != []
    ensures Lex(a, b) == if a[0] < b[0] then -1 else if a[0] > b[0] then 1 else Lex(a[1..], b[1..])
  {
  }

  /** The octets as a fraction: octets to the right of the point, in units of 256 to the minus `n`. */
  function Fraction(b: seq<byte>, n: nat): nat {
    BigEndian(b) * Pow2(8 * n)
  }

  function SignOf(x: int): int {
    if x < 0 then -1 else if x > 0 then 1 else 0
  }

  lemma {:induction false} FractionStep(b: seq<byte>, n: nat)
    requires b != []
    ensures Fraction(b, n) == (b[0] as int) * Pow2(8 * (|b| - 1 + n)) + Fraction(b[1..], n)
    ensures Fraction(b[1..], n) < Pow2(8 * (|b| - 1 + n))
  {
    hide BigEndian, Pow2;
    var p, q := Pow2(8 * |b| - 8), Pow2(8 * n);
    BigEndianFront(b);
    BigEndianBound(b[1..]);
    Pow2Add(8 * |b| - 8, 8 * n);
    assert ((b[0] as int) * p + BigEndian(b[1..])) * q == (b[0] as int) * (p * q) + BigEndian(b[1..]) * q;
    MulMono(BigEndian(b[1..]) + 1, p, q);
    assert (BigEndian(b[1..]) + 1) * q == BigEndian(b[1..]) * q + q;
  }

  lemma {:induction false} FractionPositive(b: seq<byte>, n: nat)
    requires b != [] && b[|b| - 1] != 0
    ensures Fraction(b, n) > 0
  {
    hide Pow2;
    assert BigEndian(b) >= 1;
    MulMono(1, BigEndian(b), Pow2(8 * n));
  }

  lemma {:induction false} FractionEmpty(n: nat)
    ensures Fraction([], n) == 0
  {
  }

  /** The order of compacted strings is the order of the fractions they stand for. */
  lemma {:induction false} LexIsFraction(a: seq<byte>, b: seq<byte>)
    requires (a == [] || a[|a| - 1] != 0) && (b == [] || b[|b| - 1] != 0)
    ensures Lex(a, b) == SignOf(Fraction(a, |b|) - Fraction(b, |a|))
    decreases |a|
  {
    hide Fraction, Pow2, Lex;
    if a == [] || b == [] {
      LexEmpty(a, b);
    } else {
      LexStep(a, b);
      FractionStep(a, |b|);
      FractionStep(b, |a|);
      var p := Pow2(8 * (|a| - 1 + |b|));
      if a[0] == b[0] {
        LexIsFraction(a[1..], b[1..]);
        FractionScale(a[1..], |b|);
        FractionScale(b[1..], |a|);
      } else if a[0] < b[0] {
        MulMono((a[0] as int) + 1, b[0], p);
        assert ((a[0] as int) + 1) * p == (a[0] as int) * p + p;
      } else {
        MulMono((b[0] as int) + 1, a[0], p);
        assert ((b[0] as int) + 1) * p == (b[0] as int) * p + p;
      }
    }
  }

  lemma {:induction false} LexEmpty(a: seq<byte>, b: seq<byte>)
    requires a == [] || b == []
    requires (a == [] || a[|a| - 1] != 0) && (b == [] || b[|b| - 1] != 0)
    ensures Lex(a, b) == SignOf(Fraction(a, |b|) - Fraction(b, |a|))
  {
    hide Fraction;
    if a != [] {
      FractionPositive(a, |b|);
      FractionEmpty(|a|);
    } else {
      FractionEmpty(|b|);
      if b != [] {
        FractionPositive(b, |a|);
      } else {
        FractionEmpty(|a|);
      }
    }
  }

  lemma {:induction false} FractionScale(b: seq<byte>, n: nat)
    requires n > 0
    ensures Fraction(b, n) == 256 * Fraction(b, n - 1)
  {
    hide Pow2, BigEndian;
    Pow2Seven(8 * (n - 1));
    assert BigEndian(b) * (0x100 * Pow2(8 * (n - 1))) == 0x100 * (BigEndian(b) * Pow2(8 * (n - 1)));
  }

  lemma {:induction false} TrimOctetsValue(b: seq<byte>)
    ensures BigEndian(b) == BigEndian(TrimOctets(b)) * Pow2(8 * (|b| - |TrimOctets(b)|))
  {
    hide Pow2;
    if b != [] && b[|b| - 1] == 0 {
      var c := b[..|b| - 1];
      TrimOctetsValue(c);
      assert BigEndian(b) == 256 * BigEndian(c);
      ScaleOctet(BigEndian(TrimOctets(c)), 8 * (|c| - |TrimOctets(c)|));
    } else {
      Pow2Small();
    }
  }

  lemma {:induction false} ScaleOctet(x: nat, n: nat)
    ensures x * Pow2(n + 8) == 256 * (x * Pow2(n))
  {
    hide Pow2;
    Pow2Seven(n);
    assert x * (0x100 * Pow2(n)) == 256 * (x * Pow2(n));
  }

  /** Trailing zero octets scale both sides alike. */
  lemma {:induction false} TrimFraction(a: seq<byte>, b: seq<byte>)
    ensures var ta, tb := TrimOctets(a), TrimOctets(b);
            Fraction(a, |b|) == Fraction(ta, |tb|) * Pow2(8 * (|a| - |ta|) + 8 * (|b| - |tb|))
  {
    hide Pow2, BigEndian;
    var ta, tb := TrimOctets(a), TrimOctets(b);
    var da, db := 8 * (|a| - |ta|), 8 * (|b| - |tb|);
    TrimOctetsValue(a);
    Pow2Add(8 * |tb|, db);
    Pow2Add(da, db);
    Regroup4(BigEndian(ta), Pow2(da), Pow2(8 * |tb|), Pow2(db));
  }

  lemma {:induction false} Regroup4(x: nat, p: nat, q: nat, r: nat)
    ensures (x * p) * (q * r) == (x * q) * (p * r)
  {
  }

  lemma {:induction false} SignScaled(x: int, y: int, p: nat)
    requires p >= 1
    ensures SignOf(x * p - y * p) == SignOf(x - y)
  {
    assert x * p - y * p == (x - y) * p;
    if x - y > 0 {
      MulMono(1, x - y, p);
    } else if x - y < 0 {
      MulMono(x - y, -1, p);
    }
  }

  /** The comparison orders bit strings as the binary fractions whose digits they are. */
  lemma {:induction false} OrderIsFraction(a: seq<byte>, b: seq<byte>)
    ensures Order(a, b) == SignOf(Fraction(a, |b|) - Fraction(b, |a|))
  {
    hide Pow2, Fraction, Lex, SignOf;
    var ta, tb := TrimOctets(a), TrimOctets(b);
    TrimFraction(a, b);
    TrimFraction(b, a);
    LexIsFraction(ta, tb);
    SignScaled(Fraction(ta, |tb|), Fraction(tb, |ta|), Pow2(8 * (|a| - |ta|) + 8 * (|b| - |tb|)));
  }

  lemma {:induction false} OrderAntisymmetric(a: seq<byte>, b: seq<byte>)
    ensures Order(b, a) == -Order(a, b)
  {
    hide Fraction, Order;
    OrderIsFraction(a, b);
    OrderIsFraction(b, a);
  }

  lemma {:induction false} CrossMultiply(x: nat, p: nat, y: nat, q: nat, z: nat, r: nat)
    requires q >= 1 && x * q <= y * p && y * r <= z * q
    ensures x * r <= z * p
  {
    MulMono(x * q, y * p, r);
    MulMono(y * r, z * q, p);
    assert x * q * r == (x * r) * q && y * p * r == y * r * p && z * q * p == (z * p) * q;
    Cancel(x * r, z * p, q);
  }

  lemma {:induction false} Cancel(x: nat, y: nat, q: nat)
    requires q >= 1 && x * q <= y * q
    ensures x <= y
  {
    assert (y + 1) * q == y * q + q;
    if x > y {
      MulMono(y + 1, x, q);
    }
  }

  lemma {:induction false} OrderTransitive(a: seq<byte>, b: seq<byte>, c: seq<byte>)
    requires Order(a, b) <= 0 && Order(b, c) <= 0
    ensures Order(a, c) <= 0
  {
    hide Order, Pow2, BigEndian;
    OrderIsFraction(a, b);
    OrderIsFraction(b, c);
    OrderIsFraction(a, c);
    CrossMultiply(BigEndian(a), Pow2(8 * |a|), BigEndian(b), Pow2(8 * |b|), BigEndian(c), Pow2(8 * |c|));
  }

  /** Strings compare equal exactly when they differ only in trailing zero bits. */
  lemma {:induction false} OrderZero(a: BitStr, b: BitStr)
    requires a.Clean() && b.Clean()
    ensures Order(a.buf, b.buf) == 0 <==> Trim(a.Bits()) == Trim(b.Bits())
    ensures Order(a.buf, b.buf) == 0 <==> exists j, k :: a.Bits() + Zeros(j) == b.Bits() + Zeros(k)
  {
    hide BytesToBits, Trim, MemCmp, Low, TrimOctets, Zeros;
    TrimSame(a.Bits(), b.Bits());
    CompactCanonical(a, b);
    var x, y := TrimOctets(a.buf), TrimOctets(b.buf);
    if Order(a.buf, b.buf) == 0 {
      MemCmpSame(x, y);
    }
    if Compact(a.buf) == Compact(b.buf) {
      assert x == y;
      MemCmpSelf(x);
    }
  }

  lemma {:induction false} MemCmpSelf(a: seq<byte>)
    ensures MemCmp(a, a) == 0
  {
    if a != [] {
      MemCmpSelf(a[1..]);
    }
  }
}
