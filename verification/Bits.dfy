/**
  Bits, octets and big-endian numbers: the vocabulary every PER codec shares.

  An octet is an integer below 256 and a bit stream is a sequence of booleans, most
  significant bit first.  C's shifts are products and quotients by powers of two, its
  masks are remainders, and an `|` of operands that share no bit is a sum.
 */
module Bits {

  type byte = b: int | 0 <= b < 256

  function Pow2(n: nat): (r: nat)
    ensures r >= 1
  {
    if n == 0 then 1 else 2 * Pow2(n - 1)
  }

  /** The number a bit string denotes, most significant bit first. */
  function Val(s: seq<bool>): nat {
    if s == [] then 0
    else 2 * Val(s[..|s| - 1]) + (if s[|s| - 1] then 1 else 0)
  }

  /** The `n` low-order bits of `v`, most significant first. */
  function ToBits(v: nat, n: nat): (s: seq<bool>)
    ensures |s| == n
  {
    if n == 0 then [] else ToBits(v / 2, n - 1) + [v % 2 == 1]
  }

  /** C's `v >> n` on an unsigned word. */
  function Shr(v: nat, n: nat): nat {
    if n == 0 then v else Shr(v / 2, n - 1)
  }

  /** The bits of an octet string. */
  function BytesToBits(bs: seq<byte>): (s: seq<bool>)
    ensures |s| == 8 * |bs|
  {
    if bs == [] then [] else ToBits(bs[0], 8) + BytesToBits(bs[1..])
  }

  /** The unsigned big-endian number an octet string denotes. */
  function BigEndian(bs: seq<byte>): nat {
    if bs == [] then 0 else 256 * BigEndian(bs[..|bs| - 1]) + bs[|bs| - 1]
  }

  function Zeros(n: nat): (s: seq<bool>)
    ensures |s| == n
  {
    seq(n, _ => false)
  }

  // ---- Powers of two ----

  lemma {:induction false} Pow2Add(m: nat, n: nat)
    ensures Pow2(m + n) == Pow2(m) * Pow2(n)
  {
    if m > 0 {
      Pow2Add(m - 1, n);
      assert Pow2(m + n) == 2 * Pow2(m - 1 + n);
    }
  }

  lemma {:induction false} Pow2Mono(m: nat, n: nat)
    requires m <= n
    ensures Pow2(m) <= Pow2(n)
  {
    Pow2Add(m, n - m);
    MulAtLeast(Pow2(m), Pow2(n - m));
  }

  lemma {:induction false} MulAtLeast(a: nat, b: nat)
    requires b >= 1
    ensures a * b >= a
  {
    assert a * b == a * (b - 1) + a;
  }

  lemma {:induction false} Pow2Small()
    ensures Pow2(0) == 1 && Pow2(1) == 2 && Pow2(2) == 4 && Pow2(3) == 8 && Pow2(4) == 16
  {
  }

  lemma {:induction false} Pow2Values()
    ensures Pow2(0) == 1 && Pow2(1) == 2 && Pow2(8) == 0x100
    ensures Pow2(16) == 0x1_0000 && Pow2(24) == 0x100_0000
    ensures Pow2(31) == 0x8000_0000 && Pow2(32) == 0x1_0000_0000
  {
    hide *;
    Pow2Small();
    Pow2Add(4, 4);
    Pow2Add(8, 8);
    Pow2Add(16, 8);
    Pow2Add(16, 16);
    Pow2Add(1, 31);
  }

  lemma {:induction false} Pow2Wide()
    ensures Pow2(63) == 0x8000_0000_0000_0000 && Pow2(64) == 0x1_0000_0000_0000_0000
  {
    hide *;
    Pow2Values();
    Pow2Add(32, 32);
    Pow2Add(1, 63);
  }

  /** Quotient and remainder are determined by their defining equation. */
  lemma {:induction false} DivModUnique(q: int, r: int, d: int, x: int)
    requires d > 0 && 0 <= r < d && x == q * d + r
    ensures x / d == q && x % d == r
  {
    var q' := x / d;
    var r' := x % d;
    assert x == q' * d + r';
    assert (q - q') * d == r' - r;
    if q > q' {
      MulAtLeast(d, q - q');
      assert false;
    } else if q < q' {
      assert (q' - q) * d == r - r';
      MulAtLeast(d, q' - q);
      assert false;
    }
  }

  // ---- Values of bit strings ----

  lemma {:induction false} ValBound(s: seq<bool>)
    ensures Val(s) < Pow2(|s|)
  {
    if s != [] {
      ValBound(s[..|s| - 1]);
    }
  }

  lemma {:induction false} ValSnoc(s: seq<bool>, b: bool)
    ensures Val(s + [b]) == 2 * Val(s) + (if b then 1 else 0)
  {
    assert (s + [b])[..|s|] == s;
  }

  lemma {:induction false} Pow2Succ(n: nat)
    ensures Pow2(n + 1) == 2 * Pow2(n)
  {
  }

  lemma {:induction false} ValConcat(a: seq<bool>, b: seq<bool>)
    ensures Val(a + b) == Val(a) * Pow2(|b|) + Val(b)
  {
    if b == [] {
      assert a + b == a;
    } else {
      var b' := b[..|b| - 1];
      ValConcat(a, b');
      assert (a + b)[..|a + b| - 1] == a + b';
      assert Val(a) * Pow2(|b|) == 2 * (Val(a) * Pow2(|b'|));
    }
  }

  lemma {:induction false} ToBitsVal(s: seq<bool>)
    ensures ToBits(Val(s), |s|) == s
  {
    if s != [] {
      ToBitsVal(s[..|s| - 1]);
      assert s == s[..|s| - 1] + [s[|s| - 1]];
    }
  }

  /** Remainders compose: taking `p * q` apart by `q` first. */
  lemma {:induction false} ModMul(v: nat, p: nat, q: nat)
    requires p > 0 && q > 0
    ensures p * q > 0
    ensures v % (p * q) == (v / q % p) * q + v % q
  {
    var h, m, l := v / q / p, v / q % p, v % q;
    var r := m * q + l;
    assert v == (h * p + m) * q + l;
    assert (h * p + m) * q == h * (p * q) + m * q;
    assert m * q + q <= p * q by {
      MulMono(m + 1, p, q);
      assert (m + 1) * q == m * q + q;
    }
    assert r >= 0 by { MulMono(0, m, q); }
    DivModUnique(h, r, p * q, v);
  }

  lemma {:induction false} MulMono(a: int, b: int, c: nat)
    requires a <= b
    ensures a * c <= b * c
  {
    assert b * c == a * c + (b - a) * c;
  }

  lemma {:induction false} ValToBits(v: nat, n: nat)
    ensures Val(ToBits(v, n)) == v % Pow2(n)
  {
    hide Val, Pow2;
    if n == 0 {
      NoBitsValue(v);
    } else {
      ValToBits(v / 2, n - 1);
      ValSnoc(ToBits(v / 2, n - 1), v % 2 == 1);
      assert v % Pow2(n) == 2 * (v / 2 % Pow2(n - 1)) + v % 2 by {
        hide *;
        ModMul(v, Pow2(n - 1), 2);
        assert Pow2(n) == Pow2(n - 1) * 2 by { Pow2Succ(n - 1); }
      }
    }
  }

  lemma {:induction false} NoBitsValue(v: nat)
    ensures Val(ToBits(v, 0)) == v % Pow2(0)
  {
  }

  lemma {:induction false} ValToBitsExact(v: nat, n: nat)
    requires v < Pow2(n)
    ensures Val(ToBits(v, n)) == v
  {
    ValToBits(v, n);
    DivModUnique(0, v, Pow2(n), v);
  }

  /** Bit strings of one length with one value are the same string. */
  lemma {:induction false} ValInjective(a: seq<bool>, b: seq<bool>)
    requires |a| == |b| && Val(a) == Val(b)
    ensures a == b
  {
    ToBitsVal(a);
    ToBitsVal(b);
  }

  lemma {:induction false} ToBitsMod(v: nat, n: nat)
    ensures ToBits(v % Pow2(n), n) == ToBits(v, n)
  {
    ValToBits(v, n);
    DivModUnique(0, v % Pow2(n), Pow2(n), v % Pow2(n));
    ValToBits(v % Pow2(n), n);
    ValInjective(ToBits(v % Pow2(n), n), ToBits(v, n));
  }

  /** A field split at any point is its high part followed by its low part. */
  lemma {:induction false} ToBitsSplit(v: nat, m: nat, n: nat)
    ensures ToBits(v, m + n) == ToBits(Shr(v, n), m) + ToBits(v, n)
  {
    if n == 0 {
      assert ToBits(v, m) == ToBits(v, m) + [];
    } else {
      ToBitsSplit(v / 2, m, n - 1);
      assert ToBits(v, m + n) == ToBits(v / 2, m + n - 1) + [v % 2 == 1];
    }
  }

  lemma {:induction false} HalfDiv(v: nat, p: nat)
    requires p > 0
    ensures v / 2 / p == v / (2 * p)
  {
    hide *;
    var q, r := v / 2 / p, v / 2 % p;
    assert v == 2 * (q * p + r) + v % 2;
    assert 2 * (q * p) == q * (2 * p);
    DivModUnique(q, 2 * r + v % 2, 2 * p, v);
  }

  lemma {:induction false} ShrIsDiv(v: nat, n: nat)
    ensures Shr(v, n) == v / Pow2(n)
  {
    if n > 0 {
      ShrIsDiv(v / 2, n - 1);
      HalfDiv(v, Pow2(n - 1));
    }
  }

  lemma {:induction false} ZerosVal(n: nat)
    ensures Val(Zeros(n)) == 0
  {
    if n > 0 {
      ZerosVal(n - 1);
      assert Zeros(n)[..n - 1] == Zeros(n - 1);
    }
  }

  lemma {:induction false} ToBitsZero(n: nat)
    ensures ToBits(0, n) == Zeros(n)
  {
    ZerosVal(n);
    ToBitsVal(Zeros(n));
  }

  /** The value of a field inside a longer string. */
  lemma {:induction false} ValSlice(s: seq<bool>, i: nat, j: nat)
    requires i <= j <= |s|
    ensures Val(s[i..j]) == (Val(s) / Pow2(|s| - j)) % Pow2(j - i)
  {
    var a, b, c := s[..i], s[i..j], s[j..];
    assert s == a + b + c;
    ValConcat(a + b, c);
    ValConcat(a, b);
    ValBound(b);
    ValBound(c);
    DivModUnique(Val(a + b), Val(c), Pow2(|c|), Val(s));
    DivModUnique(Val(a), Val(b), Pow2(|b|), Val(a + b));
  }

  // ---- Octets ----

  lemma {:induction false} BytesToBitsConcat(a: seq<byte>, b: seq<byte>)
    ensures BytesToBits(a + b) == BytesToBits(a) + BytesToBits(b)
  {
    if a == [] {
      assert a + b == b;
    } else {
      BytesToBitsConcat(a[1..], b);
      assert (a + b)[1..] == a[1..] + b;
    }
  }

  lemma {:induction false} BytesToBitsOne(b: byte)
    ensures BytesToBits([b]) == ToBits(b, 8)
  {
    assert BytesToBits([b]) == ToBits(b, 8) + BytesToBits([]);
  }

  lemma {:induction false} BytesToBitsVal(bs: seq<byte>)
    ensures Val(BytesToBits(bs)) == BigEndian(bs)
  {
    if bs != [] {
      var n := |bs| - 1;
      BytesToBitsVal(bs[..n]);
      assert bs == bs[..n] + [bs[n]];
      BytesToBitsConcat(bs[..n], [bs[n]]);
      BytesToBitsOne(bs[n]);
      ValConcat(BytesToBits(bs[..n]), ToBits(bs[n], 8));
      Pow2Values();
      ValToBitsExact(bs[n], 8);
    }
  }

  /** A whole number of octets is a prefix of whole bits. */
  lemma {:induction false} BytesToBitsTake(bs: seq<byte>, i: nat)
    requires i <= |bs|
    ensures BytesToBits(bs)[..8 * i] == BytesToBits(bs[..i])
    ensures BytesToBits(bs)[8 * i..] == BytesToBits(bs[i..])
  {
    assert bs == bs[..i] + bs[i..];
    BytesToBitsConcat(bs[..i], bs[i..]);
  }

  lemma {:induction false} BytesToBitsInjective(a: seq<byte>, b: seq<byte>)
    requires BytesToBits(a) == BytesToBits(b)
    ensures a == b
  {
    if a != [] {
      assert |b| == |a|;
      Pow2Values();
      ValToBitsExact(a[0], 8);
      ValToBitsExact(b[0], 8);
      assert ToBits(a[0], 8) == BytesToBits(a)[..8];
      assert ToBits(b[0], 8) == BytesToBits(b)[..8];
      assert BytesToBits(a[1..]) == BytesToBits(a)[8..];
      assert BytesToBits(b[1..]) == BytesToBits(b)[8..];
      BytesToBitsInjective(a[1..], b[1..]);
    }
  }

  /** The first `n` bits of an octet string, read as octets and a fraction. */
  function Fraction(bs: seq<byte>, n: nat): (s: seq<bool>)
    requires n <= 8 * |bs|
    ensures |s| == n % 8
  {
    if n % 8 == 0 then [] else ToBits(bs[n / 8], 8)[..n % 8]
  }

  lemma {:induction false} TakeBits(bs: seq<byte>, n: nat)
    requires n <= 8 * |bs|
    ensures BytesToBits(bs)[..n] == BytesToBits(bs[..n / 8]) + Fraction(bs, n)
  {
    var i, r := n / 8, n % 8;
    BytesToBitsTake(bs, i);
    if r > 0 {
      TakeConcat(BytesToBits(bs[..i]), BytesToBits(bs[i..]), r);
      TakeHead(ToBits(bs[i], 8), BytesToBits(bs[i..][1..]), r);
    }
  }

  lemma {:induction false} TakeConcat(a: seq<bool>, b: seq<bool>, r: nat)
    requires r <= |b|
    ensures (a + b)[..|a| + r] == a + b[..r]
  {
  }

  lemma {:induction false} TakeHead(a: seq<bool>, b: seq<bool>, r: nat)
    requires r <= |a|
    ensures (a + b)[..r] == a[..r]
  {
  }

  /** Bits up to a point inside a window of whole octets. */
  lemma {:induction false} TakeWindow(bs: seq<byte>, at: nat, width: nat, r: nat)
    requires at + width <= |bs| && r <= 8 * width
    ensures BytesToBits(bs)[..8 * at + r] == BytesToBits(bs[..at]) + BytesToBits(bs[at..at + width])[..r]
  {
    var mid := bs[at..at + width];
    assert bs == bs[..at] + (mid + bs[at + width..]);
    BytesToBitsConcat(bs[..at], mid + bs[at + width..]);
    BytesToBitsConcat(mid, bs[at + width..]);
    TakeConcat(BytesToBits(bs[..at]), BytesToBits(mid) + BytesToBits(bs[at + width..]), r);
    TakeHead(BytesToBits(mid), BytesToBits(bs[at + width..]), r);
  }

  /** The `k` low-order octets of `v`, most significant first. */
  function Octets(v: nat, k: nat): (s: seq<byte>)
    ensures |s| == k
  {
    if k == 0 then [] else Octets(v / 256, k - 1) + [v % 256]
  }

  lemma {:induction false} OctetsBits(v: nat, k: nat)
    ensures BytesToBits(Octets(v, k)) == ToBits(v, 8 * k)
  {
    if k > 0 {
      OctetsBits(v / 256, k - 1);
      OctetsBitsStep(v, k);
    }
  }

  lemma {:induction false} OctetsBitsStep(v: nat, k: nat)
    requires k > 0 && BytesToBits(Octets(v / 256, k - 1)) == ToBits(v / 256, 8 * k - 8)
    ensures BytesToBits(Octets(v, k)) == ToBits(v, 8 * k)
  {
    hide ToBits, BytesToBits, Shr, Pow2;
    BytesToBitsConcat(Octets(v / 256, k - 1), [v % 256]);
    BytesToBitsOne(v % 256);
    ToBitsSplit(v, 8 * k - 8, 8);
    ShrIsDiv(v, 8);
    Pow2Values();
    ToBitsMod(v, 8);
  }

  /** The value of consecutive fields. */
  lemma {:induction false} ValTake(s: seq<bool>, m: nat, n: nat)
    requires m + n <= |s|
    ensures Val(s[..m + n]) == Val(s[..m]) * Pow2(n) + Val(s[m..][..n])
  {
    hide *;
    assert s[..m + n] == s[..m] + s[m..][..n];
    ValConcat(s[..m], s[m..][..n]);
  }

  lemma {:induction false} Associate(a: seq<bool>, b: seq<bool>, c: seq<bool>)
    ensures a + b + c == a + (b + c)
  {
  }
}
