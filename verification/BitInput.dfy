/**
  The PER bit reader: a position inside an octet string, able to continue in further
  chunks supplied by a refill callback, and able to take back the last read.
 */
module BitInput {
  import opened Bits

  /** What one call of the refill callback installs. */
  datatype Chunk = Chunk(data: seq<byte>, nbits: nat) {
    ghost predicate Valid() { nbits <= 8 * |data| }

    ghost function Content(): (s: seq<bool>)
      requires Valid()
      ensures |s| == nbits
    {
      BytesToBits(data)[..nbits]
    }
  }

  ghost predicate ValidChunks(chunks: seq<Chunk>) {
    forall i :: 0 <= i < |chunks| ==> chunks[i].Valid()
  }

  ghost predicate WholeChunks(chunks: seq<Chunk>) {
    forall i :: 0 <= i < |chunks| ==> chunks[i].nbits % 8 == 0
  }

  /** The chunks' concatenation. */
  ghost function ChunkBits(chunks: seq<Chunk>): seq<bool>
    requires ValidChunks(chunks)
  {
    if chunks == [] then [] else chunks[0].Content() + ChunkBits(chunks[1..])
  }

  lemma {:induction false} WholeChunkBits(chunks: seq<Chunk>)
    requires ValidChunks(chunks) && WholeChunks(chunks)
    ensures |ChunkBits(chunks)| % 8 == 0
  {
    hide BytesToBits;
    if chunks != [] {
      WholeChunkBits(chunks[1..]);
      WholeSum(chunks[0].nbits, |ChunkBits(chunks[1..])|);
    }
  }

  lemma {:induction false} WholeSum(m: nat, n: nat)
    requires m % 8 == 0 && n % 8 == 0
    ensures (m + n) % 8 == 0
  {
    DivModUnique(m / 8 + n / 8, 0, 8, m + n);
  }

  /** Whether `n` bits read from here come from more than one chunk. */
  ghost predicate Crosses(here: nat, chunks: seq<Chunk>, n: nat)
    decreases |chunks|
  {
    n > here && (here > 0 || chunks == [] || Crosses(chunks[0].nbits, chunks[1..], n))
  }

  class BitReader {
    var data: seq<byte>
    /** The octet `buffer` points at. */
    var buffer: nat
    /** Bit offset of the next bit, counted from `buffer`. */
    var nboff: nat
    /** Bits of the stream, counted from `buffer`. */
    var nbits: nat
    var moved: int
    /** Whether a refill callback is present, and what it will supply. */
    const refillable: bool
    var chunks: seq<Chunk>
    /** The size of a stream that is never refilled, in bits. */
    ghost const size: nat
    /** Whether a stream that is refilled comes in whole octets. */
    ghost const octets: bool

    ghost predicate Valid()
      reads this
    {
      && buffer <= |data| && nboff <= nbits <= 8 * (|data| - buffer) && ValidChunks(chunks)
      && (!refillable ==> 8 * buffer + nbits == size)
      && (refillable && octets ==> nbits % 8 == 0 && WholeChunks(chunks))
    }

    /** The bits left in the current chunk. */
    ghost function Current(): (s: seq<bool>)
      requires Valid()
      reads this
      ensures |s| == nbits - nboff
    {
      BytesToBits(data[buffer..])[nboff..nbits]
    }

    /** The bits just before the position. */
    ghost function Behind(n: nat): (s: seq<bool>)
      requires Valid() && n <= nboff
      reads this
      ensures |s| == n
    {
      BytesToBits(data[buffer..])[nboff - n..nboff]
    }

    /** Everything still to be read. */
    ghost function All(): seq<bool>
      requires Valid()
      reads this
    {
      Current() + (if refillable then ChunkBits(chunks) else [])
    }

    constructor (data: seq<byte>, nbits: nat, refillable: bool, chunks: seq<Chunk>)
      requires nbits <= 8 * |data| && ValidChunks(chunks)
      ensures Valid() && moved == 0 && this.refillable == refillable && size == nbits
      ensures octets <==> nbits % 8 == 0 && WholeChunks(chunks)
      ensures nboff == 0 && this.nbits == nbits && this.chunks == chunks
      ensures All() == BytesToBits(data)[..nbits] + (if refillable then ChunkBits(chunks) else [])
    {
      this.data, buffer, nboff, this.nbits, moved := data, 0, 0, nbits, 0;
      this.refillable, this.chunks, size := refillable, chunks, nbits;
      octets := nbits % 8 == 0 && WholeChunks(chunks);
    }

    /** `asn_bit_data_t tpd = *pd` */
    constructor Copy(pd: BitReader)
      requires pd.Valid()
      ensures Valid() && data == pd.data && buffer == pd.buffer && nboff == pd.nboff && nbits == pd.nbits
      ensures moved == pd.moved && refillable == pd.refillable && chunks == pd.chunks
    {
      data, buffer, nboff, nbits, moved := pd.data, pd.buffer, pd.nboff, pd.nbits, pd.moved;
      refillable, chunks, size, octets := pd.refillable, pd.chunks, pd.size, pd.octets;
    }

    /** Where in an octet the stream ends, if its octets are not broken up. */
    ghost function End(): nat {
      if refillable then 0 else size % 8
    }

    /** The position within the octet follows from the bits still to be read. */
    lemma {:induction false} PositionInOctet()
      requires Valid() && (refillable ==> octets)
      ensures (nboff + |All()|) % 8 == End()
    {
      hide BytesToBits, ChunkBits;
      if refillable {
        WholeChunkBits(chunks);
      }
    }

    /** asn_get_undo: step back over the bits just read; short of bits it does nothing. */
    method Undo(n: nat)
      requires Valid()
      modifies this`nboff, this`moved
      ensures Valid()
      ensures n > old(nboff) ==> nboff == old(nboff) && moved == old(moved)
      ensures n <= old(nboff) ==> All() == old(Behind(n)) + old(All()) && Current() == old(Behind(n)) + old(Current())
      ensures n <= old(nboff) ==> nboff == old(nboff) - n && moved == old(moved) - n
    {
      hide BytesToBits, ChunkBits;
      if nboff >= n {
        nboff := nboff - n;
        moved := moved - n;
        assert Current() == old(Behind(n)) + old(Current());
      }
    }

    /** The refill callback: install the next chunk, or refuse when there is none. */
    method Refill() returns (rc: int)
      requires Valid() && refillable && nboff == nbits
      modifies this`data, this`buffer, this`nboff, this`nbits, this`chunks
      ensures Valid() && All() == old(All())
      ensures rc == if old(chunks) == [] then -1 else 0
      ensures rc == 0 ==> chunks == old(chunks)[1..] && nboff == 0 && nbits == old(chunks)[0].nbits
      ensures rc == -1 ==> nboff == nbits && chunks == [] && All() == []
    {
      hide BytesToBits;
      if chunks == [] {
        return -1;
      }
      data, buffer, nboff, nbits := chunks[0].data, 0, 0, chunks[0].nbits;
      chunks := chunks[1..];
      assert data[0..] == data;
      rc := 0;
    }

    /** Normalise the position: whole octets move into `buffer`. */
    method Normalise()
      requires Valid()
      modifies this`buffer, this`nboff, this`nbits
      ensures Valid() && nboff < 8 && nboff <= old(nboff)
      ensures Current() == old(Current()) && All() == old(All())
    {
      hide BytesToBits, ChunkBits;
      if nboff >= 8 {
        ghost var rest := data[buffer..];
        BytesToBitsTake(rest, nboff / 8);
        assert data[buffer + nboff / 8..] == rest[nboff / 8..];
        buffer := buffer + nboff / 8;
        SkipOctets(nbits, nboff / 8);
        nbits := nbits - nboff / 8 * 8;
        nboff := nboff % 8;
        assert Current() == old(Current());
      }
    }

    /** The up to 31 bits that start in the current octet and end by the fourth. */
    method Extract(n: nat) returns (accum: nat)
      requires Valid() && 0 < n <= nboff <= 31 && nboff - n < 8
      ensures accum == Val(Behind(n))
    {
      hide BytesToBits, Val, Shr, Pow2, BigEndian;
      var off := nboff;
      var width := if off <= 8 then 1 else if off <= 16 then 2 else if off <= 24 then 3 else 4;
      var octets := data[buffer..buffer + width];
      FieldValue(data[buffer..], width, off - n, off);
      assert data[buffer..][..width] == octets;
      accum := Shr(BigEndian(octets), 8 * width - off) % Pow2(n);
    }

    /** A field that reaches a fifth octet is read again in two parts, on a copy of the position. */
    method ExtractWide(n: nat) returns (v: nat)
      requires Valid() && 24 < n <= 31 && n <= nboff
      ensures v == Val(Behind(n))
      decreases n, 0
    {
      hide BytesToBits, Val, ChunkBits, Pow2;
      ghost var field := Behind(n);
      var tpd := new BitReader.Copy(this);
      tpd.Undo(n);
      ghost var rest := tpd.Current();
      WideField(rest, field, n);
      var high := tpd.GetAtHand(n - 24);
      var low := tpd.GetAtHand(24);
      ValTake(field, n - 24, 24);
      Pow2Values();
      v := high * 0x100_0000 + low;
    }

    /** Normalise and pass over `n` bits. */
    method Move(n: nat)
      requires Valid() && n <= nbits - nboff
      modifies this`buffer, this`nboff, this`nbits, this`moved
      ensures Valid() && moved == old(moved) + n
      ensures n <= nboff < 8 + n && (old(nboff) == 0 ==> nboff == n)
      ensures Behind(n) == old(Current())[..n] && Current() == old(Current())[n..]
    {
      hide BytesToBits, ChunkBits, All;
      Normalise();
      SliceSlice(BytesToBits(data[buffer..]), nboff, n, nbits);
      moved := moved + n;
      nboff := nboff + n;
    }

    /** asn_get_few_bits when the bits are at hand. */
    method GetAtHand(n: nat) returns (v: int)
      requires Valid() && n <= nbits - nboff
      modifies this`buffer, this`nboff, this`nbits, this`moved
      ensures Valid()
      ensures n > 31 ==> v == -1 && Current() == old(Current()) && moved == old(moved)
      ensures n <= 31 ==> v == Val(old(Current())[..n]) && Current() == old(Current())[n..]
      ensures n <= 31 ==> moved == old(moved) + n && nboff >= n && Behind(n) == old(Current())[..n]
      ensures n <= 31 && old(nboff) == 0 ==> nboff == n
      decreases n, 1
    {
      hide BytesToBits, Val, ChunkBits, Pow2, All, Current, BitReader.Behind;
      Move(n);
      if nboff <= 31 {
        v := 0;
        if n > 0 {
          v := Extract(n);
        } else {
          EmptyVal();
        }
      } else if n <= 31 {
        v := ExtractWide(n);
      } else {
        Undo(n);
        v := -1;
      }
    }

    /** What a read of `n` bits leaves of a position, apart from the value read. */
    twostate predicate Advanced(n: nat, v: int)
      requires old(Valid()) && Valid()
      reads this
    {
      && v == (if n <= |old(All())| then Val(old(All())[..n]) else -1)
      && (v >= 0 ==> All() == old(All())[n..] && moved == old(moved) + n)
      && (v < 0 ==> All() == if refillable then [] else old(All()))
      && (v >= 0 ==> (nboff >= n <==> !Crosses(old(nbits - nboff), old(chunks), n)))
      && (v >= 0 && nboff >= n ==> Behind(n) == old(All())[..n])
      && (v >= 0 && old(nboff) == 0 ==> nboff <= n)
    }

    /** After a refill: combine the `nleft` bits of the previous chunk with the head of this one. */
    method GetHead(n: nat, nleft: nat, tailv: nat, ghost all: seq<bool>) returns (v: int)
      requires Valid() && refillable && nleft < n <= 31 && nboff == 0
      requires nleft <= |all| && tailv == Val(all[..nleft]) && All() == all[nleft..]
      modifies this
      ensures Valid() && refillable
      ensures v == if n <= |all| then Val(all[..n]) else -1
      ensures v >= 0 ==> All() == all[n..] && moved == old(moved) + n - nleft
      ensures v < 0 ==> All() == []
      ensures v >= 0 ==> (nboff >= n <==> nleft == 0 && !Crosses(old(nbits), old(chunks), n))
      ensures v >= 0 && nboff >= n ==> Behind(n) == all[..n]
      ensures v >= 0 ==> nboff <= n
      decreases |chunks|, 2
    {
      hide BytesToBits, Val, ChunkBits, Pow2, Current, BitReader.Behind, All, Crosses;
      var vhead := GetFewBits(n - nleft);
      if vhead < 0 {
        return -1;
      }
      ValTake(all, nleft, n - nleft);
      DropDrop(all, nleft, n - nleft);
      assert nleft == 0 ==> all[nleft..] == all;
      v := tailv * Pow2(n - nleft) + vhead;
    }

    /** The refill branch: the bits at hand, then the rest from the next chunk. */
    method GetAcross(n: nat) returns (v: int)
      requires Valid() && refillable && nbits - nboff < n <= 31
      modifies this
      ensures Valid() && Advanced(n, v)
      decreases |chunks|, 0
    {
      hide BytesToBits, Val, ChunkBits, Pow2, BitReader.Behind;
      var nleft := nbits - nboff;
      ghost var all := All();
      assert all[..nleft] == Current()[..nleft];
      // These bits are at hand, so the first half cannot fail.
      var tailv := GetAtHand(nleft);
      assert All() == all[nleft..];
      var rc := Refill();
      if rc != 0 {
        return -1;
      }
      v := GetHead(n, nleft, tailv, all);
    }

    /** asn_get_few_bits: the next `n` bits as a number, or -1. */
    method GetFewBits(n: int) returns (v: int)
      requires Valid()
      modifies this
      ensures Valid()
      ensures 0 <= n <= 31 ==> Advanced(n, v)
      ensures !(0 <= n <= 31) ==> v == -1 && All() == old(All())
      decreases |chunks|, 1
    {
      hide BytesToBits, Val, ChunkBits, Pow2;
      if n < 0 {
        return -1;
      }
      var nleft := nbits - nboff;
      if n > nleft {
        if !refillable || n > 31 {
          return -1;
        }
        v := GetAcross(n);
      } else {
        assert All()[..n] == Current()[..n] && All()[n..] == Current()[n..] + All()[nleft..];
        v := GetAtHand(n);
      }
    }

    /** Store the `k` low-order octets of `v`, most significant first, and advance. */
    static method StoreOctets(dst: array<byte>, d: nat, v: nat, k: nat)
      requires 1 <= k <= 3 && d + k <= dst.Length
      modifies dst
      ensures dst[..d] == old(dst[..d]) && dst[d + k..] == old(dst[d + k..])
      ensures dst[d..d + k] == Octets(v, k)
    {
      hide Octets;
      OctetWords(v);
      var e := d;
      if k > 2 {
        dst[e] := v / 0x1_0000 % 0x100;
        e := e + 1;
      }
      if k > 1 {
        dst[e] := v / 0x100 % 0x100;
        e := e + 1;
      }
      dst[e] := v % 0x100;
    }

    /** One round of asn_get_many_bits: at most 24 bits, aligned to the left. */
    method GetOctets(dst: array<byte>, d: nat, n: nat) returns (rc: int)
      requires Valid() && 0 < n <= 24 && d + (n + 7) / 8 <= dst.Length
      modifies this, dst
      ensures Valid()
      ensures rc == if n <= |old(All())| then 0 else -1
      ensures rc == 0 ==> All() == old(All())[n..]
      ensures rc == 0 ==> BytesToBits(dst[d..d + (n + 7) / 8]) == old(All())[..n] + Zeros(Padding(n))
      ensures dst[..d] == old(dst[..d]) && dst[d + (n + 7) / 8..] == old(dst[d + (n + 7) / 8..])
    {
      hide BytesToBits, Val, ChunkBits, Pow2, ToBits, Zeros, Octets, AlignLeft, Current, Crosses, BitReader.Behind;
      ghost var all := All();
      var value := GetFewBits(n);
      if value < 0 {
        return -1;
      }
      FewBits(all, n, value);
      var shifted := AlignLeft(value, n);
      ShiftedField(value, n);
      OctetsBits(shifted, (n + 7) / 8);
      StoreOctets(dst, d, shifted, (n + 7) / 8);
      rc := 0;
    }

    /** Right alignment: the first few bits go to the low end of the first octet. */
    method GetFirst(dst: array<byte>, n: nat) returns (rc: int)
      requires Valid() && 0 < n < 8 && 1 <= dst.Length
      modifies this, dst
      ensures Valid()
      ensures rc == if n <= |old(All())| then 0 else -1
      ensures rc == 0 ==> All() == old(All())[n..]
      ensures rc == 0 ==> BytesToBits(dst[..1]) == Zeros(8 - n) + old(All())[..n]
      ensures dst[1..] == old(dst[1..])
    {
      hide BytesToBits, Val, ChunkBits, Pow2, ToBits, Zeros;
      ghost var all := All();
      var value := GetFewBits(n);
      if value < 0 {
        return -1;
      }
      FewBits(all, n, value);
      RightAligned(value, n);
      dst[0] := value;
      assert dst[..1] == [value as byte];
      rc := 0;
    }

    /** One round of the loop of asn_get_many_bits, with `left` of `count` bits still to come. */
    method GetRound(dst: array<byte>, d: nat, left: nat, ghost job: Job) returns (rc: int, d': nat, left': nat)
      requires Valid() && job.Size() <= dst.Length && left > 0
      requires job.Valid() && job.Progress(dst[..], d, left) && All() == job.all[job.count - left..]
      modifies this, dst
      ensures Valid()
      ensures rc == 0 || rc == -1
      ensures rc == -1 ==> job.count > |job.all|
      ensures rc == 0 ==> left' < left && job.count <= |job.all| + left' && job.Progress(dst[..], d', left')
      ensures rc == 0 ==> All() == job.all[job.count - left'..]
      ensures dst[job.Size()..] == old(dst[job.Size()..])
    {
      hide BytesToBits, ChunkBits, Zeros, Current, Crosses, All, Padding, Job.Progress, Job.Valid;
      ghost var done, filled := job.count - left, dst[..];
      var n := if left >= 24 then 24 else left;
      RoundStart(job, filled, d, left);
      DropDrop(job.all, done, n);
      rc := GetOctets(dst, d, n);
      if rc != 0 {
        return rc, d, left;
      }
      d', left' := d + (n + 7) / 8, left - n;
      RoundEnd(job, filled, dst[..], d, left, n);
    }

    /** Right alignment of a partial octet, before the loop of asn_get_many_bits. */
    method GetStart(dst: array<byte>, ghost job: Job, alright: bool, count: nat) returns (rc: int, d: nat, left: nat)
      requires Valid() && (count + 7) / 8 <= dst.Length
      requires job == Job(All(), count, alright, if alright then Padding(count) else 0)
      modifies this, dst
      ensures Valid()
      ensures rc == 0 || (rc == -1 && count > |job.all|)
      ensures rc == 0 ==> left <= count <= |job.all| + left && All() == job.all[count - left..]
      ensures rc == 0 ==> job.Progress(dst[..], d, left)
      ensures dst[job.Size()..] == old(dst[job.Size()..])
    {
      hide BytesToBits, ChunkBits, Zeros, Current, Crosses, All, Padding, Job.Progress;
      rc, left, d := 0, count, 0;
      if alright && count % 8 != 0 {
        assert count % 8 <= count;
        rc := GetFirst(dst, count % 8);
        if rc != 0 {
          return;
        }
        d := 1;
        left := count - count % 8;
      }
      StartOctets(job, dst[..], d, left);
    }

    /** asn_get_many_bits: the next `count` bits into `dst`, aligned to the right or to the left. */
    method GetManyBits(dst: array<byte>, alright: bool, count: nat) returns (rc: int)
      requires Valid() && (count + 7) / 8 <= dst.Length
      modifies this, dst
      ensures Valid()
      ensures rc == if count <= |old(All())| then 0 else -1
      ensures rc == 0 ==> All() == old(All())[count..]
      ensures rc == 0 ==> BytesToBits(dst[..(count + 7) / 8]) == Aligned(alright, old(All())[..count])
      ensures dst[(count + 7) / 8..] == old(dst[(count + 7) / 8..])
    {
      hide BytesToBits, ChunkBits, Zeros, Current, Crosses, All, Aligned, Padding, Job.Progress;
      ghost var job := Job(All(), count, alright, if alright then Padding(count) else 0);
      var d, left;
      rc, d, left := GetStart(dst, job, alright, count);
      if rc != 0 {
        return;
      }
      while left > 0
        invariant Valid()
        invariant 0 <= left <= count <= |job.all| + left && All() == job.all[count - left..]
        invariant job.Progress(dst[..], d, left)
        invariant dst[job.Size()..] == old(dst[job.Size()..])
        decreases left
      {
        rc, d, left := GetRound(dst, d, left, job);
        if rc != 0 {
          return;
        }
      }
      assert left == 0 && All() == job.all[count..];
      LastBits(job, dst[..], d);
      rc := 0;
    }
  }

  /** One call of asn_get_many_bits: what was to be read, and how it is to be aligned. */
  datatype Job = Job(all: seq<bool>, count: nat, alright: bool, pad: nat) {
    ghost function Size(): nat { (count + 7) / 8 }

    ghost predicate Valid() { pad == if alright then Padding(count) else 0 }

    ghost predicate Progress(dst: seq<byte>, d: nat, left: nat) {
      && left <= count <= |all| + left && d <= |dst|
      && (alright ==> left % 8 == 0)
      && (left > 0 ==> 8 * d == pad + count - left)
      && (left == 0 ==> d == Size())
      && BytesToBits(dst[..d])
         == Zeros(pad) + all[..count - left] + Zeros(if left == 0 && !alright then Padding(count) else 0)
    }
  }

  function Padding(n: nat): nat {
    (8 - n % 8) % 8
  }

  /** Shift an `n`-bit value to the left end of its octets. */
  function AlignLeft(value: nat, n: nat): nat {
    if n % 8 == 0 then value else value * Pow2(8 - n % 8)
  }

  /** A bit string filled up to whole octets with zero bits, on the left or on the right. */
  ghost function Aligned(alright: bool, s: seq<bool>): seq<bool> {
    if alright then Zeros(Padding(|s|)) + s else s + Zeros(Padding(|s|))
  }

  lemma {:induction false} WideField(rest: seq<bool>, field: seq<bool>, n: nat)
    requires 24 < n == |field| <= |rest| && rest[..n] == field
    ensures rest[..n - 24] == field[..n - 24] && rest[n - 24..][..24] == field[n - 24..][..24] && field[..n] == field
  {
    assert field == rest[..n];
    assert rest[n - 24..][..24] == rest[n - 24..n] == field[n - 24..] == field[n - 24..][..24];
  }

  lemma {:induction false} SkipOctets(n: nat, k: nat)
    ensures (n - k * 8) % 8 == n % 8
  {
  }

  lemma {:induction false} SliceSlice(s: seq<bool>, i: nat, n: nat, j: nat)
    requires i + n <= j <= |s|
    ensures s[i..j][..n] == s[i..i + n] && s[i..j][n..] == s[i + n..j]
    ensures s[i + n - n..i + n] == s[i..i + n]
  {
  }

  lemma {:induction false} EmptyVal()
    ensures Val([]) == 0
  {
  }

  lemma {:induction false} FieldValue(b: seq<byte>, width: nat, i: nat, j: nat)
    requires width <= |b| && i <= j <= 8 * width
    ensures Shr(BigEndian(b[..width]), 8 * width - j) % Pow2(j - i) == Val(BytesToBits(b)[i..j])
  {
    hide *;
    var x := BytesToBits(b[..width]);
    BytesToBitsTake(b, width);
    assert BytesToBits(b)[i..j] == x[i..j];
    ValSlice(x, i, j);
    BytesToBitsVal(b[..width]);
    ShrIsDiv(BigEndian(b[..width]), 8 * width - j);
  }

  lemma {:induction false} FewBits(s: seq<bool>, n: nat, value: int)
    requires n <= |s| && n <= 24 && value == Val(s[..n])
    ensures 0 <= value < Pow2(n) && ToBits(value, n) == s[..n]
    ensures n < 8 ==> value < 256
  {
    hide *;
    ValBound(s[..n]);
    ToBitsVal(s[..n]);
    Pow2Values();
    if n < 8 {
      Pow2Mono(n, 8);
    }
  }

  lemma {:induction false} RightAligned(value: byte, n: nat)
    requires 0 < n < 8 && value < Pow2(n)
    ensures BytesToBits([value]) == Zeros(8 - n) + ToBits(value, n)
  {
    hide *;
    BytesToBitsOne(value);
    ToBitsSplit(value, 8 - n, n);
    ShrIsDiv(value, n);
    DivModUnique(0, value, Pow2(n), value);
    ToBitsZero(8 - n);
  }

  lemma {:induction false} ShiftedField(v: nat, n: nat)
    ensures ToBits(AlignLeft(v, n), 8 * ((n + 7) / 8)) == ToBits(v, n) + Zeros(Padding(n))
  {
    hide *;
    var k := Padding(n);
    PaddingValue(n);
    ShiftedZeros(v, n, k);
    assert 8 * ((n + 7) / 8) == n + k;
  }

  lemma {:induction false} PaddingValue(n: nat)
    ensures n + Padding(n) == 8 * ((n + 7) / 8)
    ensures forall v: nat :: AlignLeft(v, n) == v * Pow2(Padding(n))
  {
    Pow2Small();
  }

  lemma {:induction false} ShiftedZeros(v: nat, n: nat, k: nat)
    ensures v * Pow2(k) >= 0 && ToBits(v * Pow2(k), n + k) == ToBits(v, n) + Zeros(k)
  {
    hide *;
    var shifted := v * Pow2(k);
    MulMono(0, v, Pow2(k));
    ToBitsSplit(shifted, n, k);
    ShrIsDiv(shifted, k);
    DivModUnique(v, 0, Pow2(k), shifted);
    ToBitsMod(shifted, k);
    ToBitsZero(k);
  }

  lemma {:induction false} OctetWords(v: nat)
    ensures Octets(v, 1) == [v % 0x100] && Octets(v, 2) == [v / 0x100 % 0x100, v % 0x100]
    ensures Octets(v, 3) == [v / 0x1_0000 % 0x100, v / 0x100 % 0x100, v % 0x100]
  {
    assert v / 0x100 / 0x100 == v / 0x1_0000;
    assert Octets(v / 0x1_0000, 1) == [v / 0x1_0000 % 0x100];
    assert Octets(v / 0x100, 2) == [v / 0x1_0000 % 0x100, v / 0x100 % 0x100];
  }

  /** The first octet of a right-aligned transfer, or nothing yet. */
  lemma {:induction false} StartOctets(job: Job, dst: seq<byte>, d: nat, left: nat)
    requires job.Valid() && job.Size() <= |dst|
    requires if job.alright && job.count % 8 != 0
             then d == 1 && left == job.count - job.count % 8 && job.count % 8 <= |job.all|
                  && BytesToBits(dst[..1]) == Zeros(8 - job.count % 8) + job.all[..job.count % 8]
             else d == 0 && left == job.count
    ensures job.Progress(dst, d, left)
  {
    hide BytesToBits;
    if d == 0 {
      NoOctets(dst[..0]);
    }
  }

  lemma {:induction false} NoOctets(none: seq<byte>)
    requires none == []
    ensures BytesToBits(none) == []
  {
  }

  lemma {:induction false} MoreBits(dst: seq<byte>, d: nat, pad: nat, all: seq<bool>, done: nat, n: nat)
    requires d <= |dst| && done + n <= |all|
    requires BytesToBits(dst[..d]) == Zeros(pad) + all[..done] + Zeros(0)
    requires BytesToBits(dst[d..]) == all[done..][..n] + Zeros(Padding(n))
    ensures BytesToBits(dst) == Zeros(pad) + all[..done + n] + Zeros(Padding(n))
  {
    hide *;
    assert dst == dst[..d] + dst[d..];
    BytesToBitsConcat(dst[..d], dst[d..]);
    assert all[..done] + all[done..][..n] == all[..done + n];
    assert Zeros(pad) + all[..done] + Zeros(0) == Zeros(pad) + all[..done];
  }

  lemma {:induction false} RoundStart(job: Job, dst: seq<byte>, d: nat, left: nat)
    requires job.Valid() && job.Progress(dst, d, left) && left > 0
    ensures left <= job.count <= |job.all| + left && d + (left + 7) / 8 == job.Size()
    ensures left >= 24 ==> d + 3 <= job.Size()
  {
    hide BytesToBits, Zeros;
    OctetCount(job, left, d);
  }

  lemma {:induction false} RoundEnd(job: Job, before: seq<byte>, dst: seq<byte>, d: nat, left: nat, n: nat)
    requires job.Valid() && job.Progress(before, d, left) && left > 0 && job.Size() <= |dst|
    requires n == (if left >= 24 then 24 else left) && job.count - left + n <= |job.all|
    requires d + (n + 7) / 8 <= |dst| && dst[..d] == before[..d]
    requires BytesToBits(dst[d..d + (n + 7) / 8]) == job.all[job.count - left..][..n] + Zeros(Padding(n))
    ensures job.Progress(dst, d + (n + 7) / 8, left - n)
  {
    hide BytesToBits, Zeros, Padding, Job.Valid, Job.Size;
    var e := d + (n + 7) / 8;
    RoundNumbers(job, left, d, n);
    assert dst[..e][..d] == before[..d] && dst[..e][d..] == dst[d..e];
    MoreBits(dst[..e], d, job.pad, job.all, job.count - left, n);
  }

  /** The counts after a round. */
  lemma {:induction false} RoundNumbers(job: Job, left: nat, d: nat, n: nat)
    requires job.Valid() && 0 < left <= job.count && 8 * d == job.pad + job.count - left
    requires (job.alright ==> left % 8 == 0) && n == (if left >= 24 then 24 else left)
    ensures job.alright ==> (left - n) % 8 == 0
    ensures left > n ==> 8 * (d + (n + 7) / 8) == job.pad + job.count - (left - n) && Padding(n) == 0
    ensures left == n ==> d + (n + 7) / 8 == job.Size() && Padding(n) == if job.alright then 0 else Padding(job.count)
  {
    OctetCount(job, left, d);
  }

  lemma {:induction false} OctetCount(job: Job, left: nat, d: nat)
    requires job.Valid() && 0 < left <= job.count && 8 * d == job.pad + job.count - left
    requires job.alright ==> left % 8 == 0
    ensures d + (left + 7) / 8 == job.Size()
    ensures Padding(left) == if job.alright then 0 else Padding(job.count)
  {
    if job.alright {
      RoundUp(job.count, left / 8, d);
      WholeOctets(left);
    } else {
      assert job.count == 8 * d + left;
      WithWhole(d, left);
    }
  }

  lemma {:induction false} WithWhole(d: nat, left: nat)
    ensures (8 * d + left + 7) / 8 == d + (left + 7) / 8 && Padding(8 * d + left) == Padding(left)
  {
    DivModUnique(d + (left + 7) / 8, (left + 7) % 8, 8, 8 * d + left + 7);
    DivModUnique(d + left / 8, left % 8, 8, 8 * d + left);
  }

  lemma {:induction false} WholeOctets(n: nat)
    requires n % 8 == 0
    ensures (n + 7) / 8 == n / 8 && Padding(n) == 0
  {
  }

  lemma {:induction false} RoundUp(count: nat, k: nat, d: nat)
    requires 8 * d == Padding(count) + count - 8 * k
    ensures d + k == (count + 7) / 8
  {
    assert 8 * (d + k) == Padding(count) + count;
  }

  lemma {:induction false} DropDrop(s: seq<bool>, i: nat, n: nat)
    requires i <= |s|
    ensures i + n <= |s| ==> s[i..][n..] == s[i + n..]
  {
  }

  lemma {:induction false} LastBits(job: Job, dst: seq<byte>, d: nat)
    requires job.Valid() && job.Progress(dst, d, 0)
    ensures BytesToBits(dst[..job.Size()]) == Aligned(job.alright, job.all[..job.count])
  {
    hide BytesToBits;
  }
}
