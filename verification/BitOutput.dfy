/**
  The PER bit writer: bits are gathered in a 32-octet scratch area and whole octets are
  handed to an output callback whenever the next field might not fit.
 */
module BitOutput {
  import opened Bits

  /** Octets of the scratch area. */
  const SCRATCH: nat := 32

  class BitWriter {
    /** Offset of the current octet in the scratch area.  A NULL buffer is offset 0 with no room. */
    var buffer: nat
    /** Bit offset of the next bit, counted from `buffer`. */
    var nboff: nat
    /** Bits of the scratch area from `buffer` on. */
    var nbits: nat
    const tmpspace: array<byte>
    var flushedBytes: nat

    /** What the output callback has accepted. */
    var sink: seq<byte>
    /** What the callback is going to answer; once exhausted it accepts everything. */
    var answers: seq<bool>
    /** Whether the callback has ever refused. */
    var refused: bool

    ghost predicate Valid()
      reads this
    {
      && tmpspace.Length == SCRATCH
      && ((8 * buffer + nbits == 8 * SCRATCH && nboff <= nbits) || (buffer == nboff == nbits == 0))
      && flushedBytes == |sink|
    }

    ghost function Position(): nat
      reads this
    {
      8 * buffer + nboff
    }

    /** Every bit put so far: the octets delivered, then the meaningful part of the scratch area. */
    ghost function Written(): (s: seq<bool>)
      requires Valid()
      reads this, tmpspace
      ensures |s| == 8 * flushedBytes + 8 * buffer + nboff
    {
      BytesToBits(sink) + BytesToBits(tmpspace[..])[..Position()]
    }

    constructor (answers: seq<bool>)
      ensures Valid() && fresh(tmpspace)
      ensures Written() == [] && sink == [] && !refused && this.answers == answers
    {
      tmpspace := new byte[SCRATCH](_ => 0);
      buffer, nboff, nbits, flushedBytes := 0, 0, 8 * SCRATCH, 0;
      sink, refused := [], false;
      this.answers := answers;
    }

    /** The output callback, given the first `n` octets of the scratch area. */
    method Output(n: nat) returns (rc: int)
      requires n <= tmpspace.Length
      modifies this`sink, this`answers, this`refused
      ensures rc == 0 || rc == -1
      ensures rc == 0 ==> sink == old(sink) + tmpspace[..n] && refused == old(refused)
      ensures rc == -1 ==> sink == old(sink) && refused
      ensures old(answers) == [] ==> answers == [] && rc == 0
    {
      var accepted := answers == [] || answers[0];
      answers := if answers == [] then [] else answers[1..];
      if accepted {
        sink := sink + tmpspace[..n];
        rc := 0;
      } else {
        refused := true;
        rc := -1;
      }
    }

    /** Normalise the position: whole octets move into `buffer`. */
    method Normalise()
      requires Valid()
      modifies this`buffer, this`nboff, this`nbits
      ensures Valid() && nboff < 8 && Position() == old(Position())
      ensures 8 * buffer + nbits == old(8 * buffer + nbits)
      ensures Written() == old(Written())
    {
      if nboff >= 8 {
        buffer := buffer + nboff / 8;
        nbits := nbits - nboff / 8 * 8;
        nboff := nboff % 8;
      }
    }

    /** Deliver the complete octets and move the unfinished one to the front. */
    method MakeRoom() returns (rc: int)
      requires Valid() && nboff < 8
      modifies this, tmpspace
      ensures Valid() && (rc == 0 || rc == -1)
      ensures Written() == old(Written())
      ensures rc == 0 ==> buffer == 0 && nbits == 8 * SCRATCH && nboff == old(nboff) && refused == old(refused)
      ensures rc == -1 ==> refused
      ensures old(answers) == [] ==> answers == [] && rc == 0
    {
      hide ToBits, BytesToBits, Zeros;
      ghost var before := tmpspace[..];
      var completeBytes := buffer;
      rc := Output(completeBytes);
      if rc < 0 {
        return;
      }
      if nboff != 0 {
        tmpspace[0] := tmpspace[buffer];
      }
      buffer, nbits := 0, 8 * SCRATCH;
      flushedBytes := flushedBytes + completeBytes;
      MoveToFront(before, tmpspace[..], completeBytes, nboff);
      BytesToBitsConcat(old(sink), before[..completeBytes]);
    }

    /** Write `high` and the shifted field into `width` octets. */
    method StoreOctets(high: nat, bits: nat, width: nat)
      requires tmpspace.Length == SCRATCH && 1 <= width <= 4 && buffer + width <= SCRATCH
      requires high + bits / Pow2(8 * width - 8) < 256 && bits / Pow2(8 * width - 8) >= 0
      modifies tmpspace
      ensures tmpspace[..buffer] == old(tmpspace[..buffer])
      ensures BigEndian(tmpspace[buffer..buffer + width]) == high * Pow2(8 * width - 8) + bits
    {
      hide BigEndian;
      Pow256(width);
      if width == 1 {
        tmpspace[buffer] := high + bits;
      } else if width == 2 {
        tmpspace[buffer] := high + bits / 0x100;
        tmpspace[buffer + 1] := bits % 0x100;
      } else if width == 3 {
        tmpspace[buffer] := high + bits / 0x1_0000;
        tmpspace[buffer + 1] := bits / 0x100 % 0x100;
        tmpspace[buffer + 2] := bits % 0x100;
      } else {
        tmpspace[buffer] := high + bits / 0x100_0000;
        tmpspace[buffer + 1] := bits / 0x1_0000 % 0x100;
        tmpspace[buffer + 2] := bits / 0x100 % 0x100;
        tmpspace[buffer + 3] := bits % 0x100;
      }
      PackedValue(tmpspace[buffer..buffer + width], high, bits);
    }

    /** Store `v` in the next `obits` bits, the unfinished octet and up to three more. */
    method Store(v: nat, obits: nat)
      requires Valid() && nboff < 8
      requires 0 < obits && nboff + obits <= 31 && nboff + obits <= nbits
      requires v < Pow2(obits)
      modifies this`nboff, tmpspace
      ensures Valid() && Position() == old(Position()) + obits
      ensures Written() == old(Written()) + ToBits(v, obits)
    {
      hide ToBits, BytesToBits, Val, Pow2, Zeros, BigEndian, Shr;
      ghost var before, pos := tmpspace[..], Position();
      var off := nboff + obits;
      var high := tmpspace[buffer] - tmpspace[buffer] % Pow2(8 - nboff);
      var width := if off <= 8 then 1 else if off <= 16 then 2 else if off <= 24 then 3 else 4;
      var bits := v * Pow2(8 * width - off);
      FieldBounds(tmpspace[buffer], v, nboff, obits, width);
      StoreOctets(high, bits, width);
      StoredField(before, tmpspace[..], buffer, nboff, obits, width, v);
      nboff := off;
      Associate(BytesToBits(sink), BytesToBits(before)[..pos], ToBits(v, obits));
    }

    /** asn_put_few_bits: put the `obits` low-order bits of `bits`, at most 31 of them. */
    method PutFewBits(bits: nat, obits: int) returns (rc: int)
      requires Valid()
      modifies this, tmpspace
      ensures Valid() && (rc == 0 || rc == -1)
      ensures rc == 0 ==> refused == old(refused)
      ensures rc == 0 ==> 0 <= obits < 32 && Written() == old(Written()) + ToBits(bits, obits)
      ensures rc == -1 ==> Written() == old(Written()) && (refused || !(0 <= obits < 32))
      ensures old(answers) == [] && 0 <= obits < 32 ==> answers == [] && rc == 0
      ensures 0 < obits < 32 && old(Position()) + obits <= 8 * SCRATCH && old(nbits) > 0
              ==> rc == 0 && Position() == old(Position()) + obits && nbits > 0
      decreases obits, 1
    {
      hide ToBits, BytesToBits, Val, Pow2, Zeros, BigEndian, Shr;
      if obits <= 0 || obits >= 32 {
        rc := if obits == 0 then 0 else -1;
        return;
      }
      Normalise();
      if nboff + obits > nbits {
        rc := MakeRoom();
        if rc < 0 {
          return;
        }
      }
      var v := bits % Pow2(obits);
      ModBounds(bits, obits);
      if nboff + obits <= 31 {
        Store(v, obits);
        rc := 0;
      } else {
        rc := PutInTwo(v, obits);
      }
    }

    /** A field that would reach a fifth octet is put in two parts. */
    method PutInTwo(v: nat, obits: nat) returns (rc: int)
      requires Valid() && 24 < obits < 32 && nbits > 0
      modifies this, tmpspace
      ensures Valid() && (rc == 0 || rc == -1)
      ensures rc == 0 ==> refused == old(refused) && Written() == old(Written()) + ToBits(v, obits)
      ensures rc == -1 ==> refused
      ensures old(answers) == [] ==> answers == [] && rc == 0
      ensures old(Position()) + obits <= 8 * SCRATCH ==> rc == 0 && Position() == old(Position()) + obits && nbits > 0
      decreases obits, 0
    {
      hide ToBits, BytesToBits, Pow2, Shr, Written;
      ghost var before := Written();
      rc := PutFewBits(Shr(v, obits - 24), 24);
      if rc != 0 {
        return;
      }
      rc := PutFewBits(v, obits - 24);
      ToBitsSplit(v, 24, obits - 24);
      Associate(before, ToBits(Shr(v, obits - 24), 24), ToBits(v, obits - 24));
    }

    /** The next `n` bits of `src` from octet `at` on, right-aligned, as asn_put_many_bits gathers them. */
    static method Gather(src: seq<byte>, at: nat, n: nat) returns (value: nat)
      requires 0 < n <= 24 && 8 * at + n <= 8 * |src|
      ensures ToBits(value, n) == BytesToBits(src)[8 * at..][..n]
    {
      hide ToBits, BytesToBits, Val, Pow2, BigEndian;
      value := src[at];
      if n > 8 {
        value := value * 0x100 + src[at + 1];
      }
      if n > 16 {
        value := value * 0x100 + src[at + 2];
      }
      BigEndianWords(src[at..][..(n + 7) / 8]);
      if n % 8 != 0 {
        value := Shr(value, 8 - n % 8);
      }
      ThreeOctets(src[at..], n, value);
      BytesToBitsTake(src, at);
    }

    /** asn_put_many_bits: put the first `count` bits of `src`, three octets at a time. */
    method PutManyBits(src: seq<byte>, count: nat) returns (rc: int)
      requires Valid() && count <= 8 * |src|
      modifies this, tmpspace
      ensures Valid() && (rc == 0 || rc == -1)
      ensures rc == 0 ==> refused == old(refused)
      ensures rc == 0 ==> Written() == old(Written()) + BytesToBits(src)[..count]
      ensures rc == -1 ==> refused
      ensures old(answers) == [] ==> answers == [] && rc == 0
    {
      hide ToBits, BytesToBits, Val, Pow2, Written;
      var left, at := count, 0;
      ghost var before := Written();
      assert before + BytesToBits(src)[..0] == before;
      while left > 0
        invariant 0 <= left == count - 8 * at <= count || left == 0
        invariant Valid() && refused == old(refused) && (old(answers) == [] ==> answers == [])
        invariant Written() == before + BytesToBits(src)[..count - left]
        decreases left
      {
        var n := if left >= 24 then 24 else left;
        var value := Gather(src, at, n);
        TakeMore(before, BytesToBits(src), count - left, n);
        rc := PutFewBits(value, n);
        if rc != 0 {
          return;
        }
        at := at + 3;
        left := left - n;
      }
      rc := 0;
    }

    /** Clear the unused low-order bits of the last octet. */
    method ClearUnused()
      requires Valid()
      modifies tmpspace
      ensures (Position() + 7) / 8 <= SCRATCH
      ensures BytesToBits(tmpspace[..(Position() + 7) / 8])
           == old(BytesToBits(tmpspace[..])[..Position()]) + Zeros((8 - Position() % 8) % 8)
    {
      hide ToBits, BytesToBits, Pow2, Zeros;
      ghost var before := tmpspace[..];
      OctetOf(buffer, nboff);
      var unused := (8 - nboff % 8) % 8;
      if unused != 0 {
        var last := tmpspace[buffer + nboff / 8];
        ClearBounds(last, unused);
        var cleared: byte := last - last % Pow2(unused);
        tmpspace[buffer + nboff / 8] := cleared;
        assert tmpspace[..] == before[Position() / 8 := cleared];
      }
      PaddedOctets(before, tmpspace[..], Position());
    }

    /** asn_put_aligned_flush: deliver everything, the last octet padded with zero bits. */
    method AlignedFlush() returns (rc: int)
      requires Valid()
      modifies this, tmpspace
      ensures Valid() && (rc == 0 || rc == -1)
      ensures rc == 0 ==> refused == old(refused) && Position() == 0
      ensures rc == 0 ==> BytesToBits(sink) == old(Written()) + Zeros((8 - |old(Written())| % 8) % 8)
      ensures rc == -1 ==> refused
      ensures old(answers) == [] ==> answers == [] && rc == 0
    {
      hide ToBits, BytesToBits, Pow2, Zeros;
      ghost var n := Position();
      SameFraction(flushedBytes, n);
      Associate(BytesToBits(sink), BytesToBits(tmpspace[..])[..n], Zeros((8 - n % 8) % 8));
      var completeBytes := buffer + (nboff + 7) / 8;
      ClearUnused();
      BytesToBitsConcat(sink, tmpspace[..completeBytes]);
      rc := Output(completeBytes);
      if rc < 0 {
        return;
      }
      buffer, nboff, nbits := 0, 0, 8 * SCRATCH;
      flushedBytes := flushedBytes + completeBytes;
    }
  }

  lemma {:induction false} SameFraction(octets: nat, n: nat)
    ensures (8 * octets + n) % 8 == n % 8
  {
  }

  // ---- What the in-place stores do to the bits ----

  lemma {:induction false} ModBounds(v: nat, n: nat)
    ensures 0 <= v % Pow2(n) < Pow2(n) && ToBits(v % Pow2(n), n) == ToBits(v, n)
  {
    hide *;
    ToBitsMod(v, n);
  }

  lemma {:induction false} BigEndianWords(b: seq<byte>)
    ensures |b| == 1 ==> BigEndian(b) == b[0]
    ensures |b| == 2 ==> BigEndian(b) == 0x100 * (b[0] as int) + b[1]
    ensures |b| == 3 ==> BigEndian(b) == 0x1_0000 * (b[0] as int) + 0x100 * (b[1] as int) + b[2]
    ensures |b| == 4 ==>
              BigEndian(b) == 0x100_0000 * (b[0] as int) + 0x1_0000 * (b[1] as int) + 0x100 * (b[2] as int) + b[3]
  {
    if |b| > 1 {
      BigEndianWords(b[..|b| - 1]);
    }
  }

  lemma {:induction false} PackedValue(b: seq<byte>, high: nat, bits: nat)
    requires 1 <= |b| <= 4
    requires |b| == 1 ==> b[0] == high + bits
    requires |b| == 2 ==> b[0] == high + bits / 0x100 && b[1] == bits % 0x100
    requires |b| == 3 ==> b[0] == high + bits / 0x1_0000 && b[1] == bits / 0x100 % 0x100 && b[2] == bits % 0x100
    requires |b| == 4 ==> b[0] == high + bits / 0x100_0000 && b[1] == bits / 0x1_0000 % 0x100
                          && b[2] == bits / 0x100 % 0x100 && b[3] == bits % 0x100
    ensures BigEndian(b) == high * Pow2(8 * |b| - 8) + bits
  {
    hide *;
    BigEndianWords(b);
    Pow256(|b|);
    Digits256(bits);
  }

  lemma {:induction false} Digits256(bits: nat)
    ensures 0x100 * (bits / 0x100) + bits % 0x100 == bits
    ensures 0x1_0000 * (bits / 0x1_0000) + 0x100 * (bits / 0x100 % 0x100) + bits % 0x100 == bits
    ensures 0x100_0000 * (bits / 0x100_0000) + 0x1_0000 * (bits / 0x1_0000 % 0x100)
            + 0x100 * (bits / 0x100 % 0x100) + bits % 0x100 == bits
  {
    Base256(bits);
  }

  lemma {:induction false} Base256(bits: nat)
    ensures bits == bits / 0x100 * 0x100 + bits % 0x100
    ensures bits / 0x100 == bits / 0x1_0000 * 0x100 + bits / 0x100 % 0x100
    ensures bits / 0x1_0000 == bits / 0x100_0000 * 0x100 + bits / 0x1_0000 % 0x100
  {
  }

  /** The first `n` bits of at most three octets are a number of `n` bits. */
  lemma {:induction false} ThreeOctets(b: seq<byte>, n: nat, value: nat)
    requires 0 < n <= 24 && n <= 8 * |b|
    requires var k := (n + 7) / 8; value == Shr(BigEndian(b[..k]), 8 * k - n)
    ensures ToBits(value, n) == BytesToBits(b)[..n]
  {
    hide *;
    var k := (n + 7) / 8;
    var x := BytesToBits(b[..k]);
    BytesToBitsTake(b, k);
    BytesToBitsVal(b[..k]);
    ToBitsVal(x);
    ToBitsSplit(BigEndian(b[..k]), n, 8 * k - n);
    assert BytesToBits(b)[..n] == x[..n];
  }

  lemma {:induction false} TakeMore(head: seq<bool>, s: seq<bool>, i: nat, n: nat)
    requires i + n <= |s|
    ensures head + s[..i] + s[i..][..n] == head + s[..i + n]
  {
  }

  /** Moving the unfinished octet to the front keeps the stream. */
  lemma {:induction false} MoveToFront(before: seq<byte>, now: seq<byte>, k: nat, r: nat)
    requires |before| == |now| == SCRATCH && r < 8 && 8 * k + r <= 8 * |before|
    requires r > 0 ==> now[0] == before[k]
    ensures BytesToBits(before)[..8 * k + r] == BytesToBits(before[..k]) + BytesToBits(now)[..r]
  {
    hide BytesToBits, ToBits;
    TakeBits(before, 8 * k + r);
    TakeBits(now, r);
  }

  /** What `buf[0] & omsk` leaves of an octet: its first `nboff` bits, in place. */
  lemma {:induction false} HighPart(b: byte, nboff: nat)
    requires nboff <= 8
    ensures var p := Pow2(8 - nboff);
            && Val(ToBits(b, 8)[..nboff]) == b / p
            && b - b % p == (b / p) * p
            && 0 <= b - b % p <= 256 - p
  {
    hide *;
    Pow2Values();
    var p := Pow2(8 - nboff);
    OctetSplit(b, nboff);
    ValToBitsExact(b, 8);
    ValSlice(ToBits(b, 8), 0, nboff);
    assert ToBits(b, 8)[0..nboff] == ToBits(b, 8)[..nboff];
    DivModUnique(0, b / p, Pow2(nboff), b / p);
  }

  lemma {:induction false} OctetSplit(b: byte, n: nat)
    requires n <= 8
    ensures var p := Pow2(8 - n);
            b - b % p == (b / p) * p && 0 <= b - b % p <= 256 - p && 0 <= b / p < Pow2(n)
  {
    hide *;
    Pow2Values();
    Pow2Add(n, 8 - n);
    var p, q := Pow2(8 - n), Pow2(n);
    QuotientBelow(b, p, q);
    assert b == (b / p) * p + b % p;
    Multiple(b / p, p, q);
  }

  /** A multiple of `p` below 256, a multiple itself. */
  lemma {:induction false} Multiple(x: nat, p: nat, q: nat)
    requires x < q && q * p == 256
    ensures 0 <= x * p <= 256 - p
  {
    MulMono(0, x, p);
    MulMono(x, q - 1, p);
    assert (q - 1) * p == q * p - p;
  }

  lemma {:induction false} Pow256(width: nat)
    requires 1 <= width <= 4
    ensures Pow2(8 * width - 8)
         == if width == 1 then 1 else if width == 2 then 0x100 else if width == 3 then 0x1_0000 else 0x100_0000
  {
    hide *;
    Pow2Values();
  }

  lemma {:induction false} FieldBounds(b: byte, v: nat, nboff: nat, obits: nat, width: nat)
    requires nboff < 8 && 1 <= width <= 4 && nboff + obits <= 8 * width && v < Pow2(obits)
    ensures var w := Pow2(8 * width - 8);
            var bits := v * Pow2(8 * width - nboff - obits);
            && 0 <= bits && 0 <= bits / w
            && b - b % Pow2(8 - nboff) + bits / w < 256
            && b - b % Pow2(8 - nboff) >= 0
            && w == if width == 1 then 1 else if width == 2 then 0x100 else if width == 3 then 0x1_0000 else 0x100_0000
  {
    hide *;
    Pow256(width);
    HighPart(b, nboff);
    var p := Pow2(8 - nboff);
    var w := Pow2(8 * width - 8);
    var s := Pow2(8 * width - nboff - obits);
    var bits := v * s;
    Pow2Add(obits, 8 * width - nboff - obits);
    Pow2Add(8 - nboff, 8 * width - 8);
    assert bits < p * w by {
      MulMono(v + 1, Pow2(obits), s);
      assert (v + 1) * s == bits + s;
    }
    MulMono(0, v, s);
    QuotientBelow(bits, w, p);
  }

  lemma {:induction false} QuotientBelow(x: nat, d: nat, q: nat)
    requires d > 0 && x < q * d
    ensures 0 <= x / d < q
  {
    assert x == (x / d) * d + x % d;
    if x / d >= q {
      MulMono(q, x / d, d);
      assert false;
    }
    if x / d < 0 {
      MulMono(x / d, -1, d);
      assert false;
    }
  }

  /** A stored field: the unfinished octet's bits, the field, then zero bits up to the octet. */
  lemma {:induction false} StoredField(before: seq<byte>, now: seq<byte>, at: nat, nboff: nat, obits: nat,
                                       width: nat, v: nat)
    requires |before| == |now| && nboff < 8 && 1 <= width <= 4 && at + width <= |now|
    requires 8 * width - 8 < nboff + obits <= 8 * width && v < Pow2(obits)
    requires before[..at] == now[..at]
    requires BigEndian(now[at..at + width])
          == (before[at] - before[at] % Pow2(8 - nboff)) * Pow2(8 * width - 8) + v * Pow2(8 * width - nboff - obits)
    ensures BytesToBits(now)[..8 * at + nboff + obits] == BytesToBits(before)[..8 * at + nboff] + ToBits(v, obits)
  {
    hide *;
    var off := nboff + obits;
    var put := now[at..at + width];
    var head := ToBits(before[at], 8)[..nboff];
    var x := head + ToBits(v, obits) + Zeros(8 * width - off);
    StoredValue(before[at], nboff, obits, width, v);
    BytesToBitsVal(put);
    ValInjective(x, BytesToBits(put));
    TakeWindow(now, at, width, off);
    TakeWindow(before, at, 1, nboff);
    assert before[at..at + 1] == [before[at]];
    BytesToBitsOne(before[at]);
    TakeHead(head + ToBits(v, obits), Zeros(8 * width - off), off);
  }

  lemma {:induction false} FieldAlgebra(h: int, p: int, w: int, o: int, s: int, v: int)
    requires p * w == o * s
    ensures (h * o + v) * s == (h * p) * w + v * s
  {
    assert (h * o + v) * s == h * o * s + v * s;
    assert h * o * s == h * (o * s);
    assert (h * p) * w == h * (p * w);
  }

  lemma {:induction false} StoredValue(b: byte, nboff: nat, obits: nat, width: nat, v: nat)
    requires nboff < 8 && 1 <= width <= 4 && nboff + obits <= 8 * width && v < Pow2(obits)
    ensures Val(ToBits(b, 8)[..nboff] + ToBits(v, obits) + Zeros(8 * width - nboff - obits))
         == (b - b % Pow2(8 - nboff)) * Pow2(8 * width - 8) + v * Pow2(8 * width - nboff - obits)
  {
    hide *;
    var head, field, rest := ToBits(b, 8)[..nboff], ToBits(v, obits), 8 * width - nboff - obits;
    HighPart(b, nboff);
    ValToBitsExact(v, obits);
    ZerosVal(rest);
    ValConcat(head, field);
    ValConcat(head + field, Zeros(rest));
    Pow2Add(obits, rest);
    Pow2Add(8 - nboff, 8 * width - 8);
    FieldAlgebra(Val(head), Pow2(8 - nboff), Pow2(8 * width - 8), Pow2(obits), Pow2(rest), v);
  }

  lemma {:induction false} OctetOf(at: nat, n: nat)
    ensures (8 * at + n) / 8 == at + n / 8 && (8 * at + n) % 8 == n % 8
    ensures n % 8 != 0 ==> (8 - n % 8) % 8 == 8 - n % 8
  {
  }

  lemma {:induction false} ClearBounds(b: byte, unused: nat)
    requires unused <= 8
    ensures 0 <= b - b % Pow2(unused) < 256
  {
    hide *;
    HighPart(b, 8 - unused);
  }

  /** Clearing the unused low bits of the last octet pads the stream with zero bits. */
  lemma {:induction false} PaddedOctets(before: seq<byte>, now: seq<byte>, n: nat)
    requires |before| == |now| && n <= 8 * |before|
    requires n % 8 == 0 ==> now == before
    requires n % 8 != 0 ==> 0 <= before[n / 8] - before[n / 8] % Pow2(8 - n % 8) < 256
    requires n % 8 != 0 ==> now == before[n / 8 := before[n / 8] - before[n / 8] % Pow2(8 - n % 8)]
    ensures (n + 7) / 8 <= |now|
    ensures BytesToBits(now[..(n + 7) / 8]) == BytesToBits(before)[..n] + Zeros((8 - n % 8) % 8)
  {
    hide ToBits, BytesToBits, Pow2;
    var k, r := n / 8, n % 8;
    TakeBits(before, n);
    if r == 0 {
      assert BytesToBits(before[..k]) + [] + Zeros(0) == BytesToBits(before[..k]);
    } else {
      assert now[..k + 1] == before[..k] + [now[k]];
      BytesToBitsConcat(before[..k], [now[k]]);
      BytesToBitsOne(now[k]);
      ClearedOctet(before[k], r);
    }
  }

  lemma {:induction false} ClearedOctet(b: byte, r: nat)
    requires r <= 8
    ensures 0 <= b - b % Pow2(8 - r) < 256
    ensures ToBits(b - b % Pow2(8 - r), 8) == ToBits(b, 8)[..r] + Zeros(8 - r)
  {
    hide *;
    HighPart(b, r);
    var c := b - b % Pow2(8 - r);
    var x := ToBits(b, 8)[..r] + Zeros(8 - r);
    ValConcat(ToBits(b, 8)[..r], Zeros(8 - r));
    ZerosVal(8 - r);
    ToBitsVal(x);
  }
}
