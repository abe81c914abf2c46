/**
  The two sinks an encoder can write to: a buffer of fixed size that goes on counting when it is
  full, and a buffer that doubles whenever it would fill up.
 */
module Sinks {
  import opened Bits

  /** overrun_encoder_key, with everything that was ever written to it. */
  class FixedSink {
    const buffer: array<byte>
    var bufferSize: nat
    var computedSize: nat
    ghost var given: seq<byte>

    ghost predicate Valid()
      reads this, buffer
    {
      && computedSize == |given|
      && if |given| <= buffer.Length then bufferSize == buffer.Length && buffer[..|given|] == given else bufferSize == 0
    }

    constructor (buffer: array<byte>)
      ensures Valid() && this.buffer == buffer && given == []
    {
      this.buffer := buffer;
      bufferSize, computedSize, given := buffer.Length, 0, [];
    }

    /** The size reported is that of all the output; all of it is in the buffer exactly when it fits. */
    method Consume(data: seq<byte>)
      requires Valid()
      modifies this`bufferSize, this`computedSize, this`given, buffer
      ensures Valid() && given == old(given) + data
      ensures |given| > buffer.Length ==> buffer[..] == old(buffer[..])
      ensures |given| <= buffer.Length ==> buffer[|given|..] == old(buffer[..])[|given|..]
    {
      if computedSize + |data| > bufferSize {
        bufferSize := 0;
      } else {
        CopyInto(buffer, computedSize, data);
      }
      computedSize := computedSize + |data|;
      given := given + data;
    }
  }

  /** memcpy. */
  method CopyInto(dst: array<byte>, at: nat, data: seq<byte>)
    requires at + |data| <= dst.Length
    modifies dst
    ensures dst[..] == old(dst[..at]) + data + old(dst[at + |data|..])
  {
    ghost var before := dst[..];
    var i := 0;
    while i < |data|
      invariant 0 <= i <= |data| && dst[..] == before[..at] + data[..i] + before[at + i..]
    {
      CopyOne(before, at, data, i);
      dst[at + i] := data[i];
      i := i + 1;
    }
  }

  /** One more octet of `data` in its place. */
  lemma {:induction false} CopyOne(b: seq<byte>, at: nat, data: seq<byte>, i: nat)
    requires i < |data| && at + |data| <= |b|
    ensures (b[..at] + data[..i] + b[at + i..])[at + i := data[i]] == b[..at] + data[..i + 1] + b[at + (i + 1)..]
  {
  }

  /** dynamic_encoder_key. */
  class GrowingSink {
    var buffer: array?<byte>
    var bufferSize: nat
    var computedSize: nat
    ghost var given: seq<byte>

    ghost predicate Valid()
      reads this, buffer
    {
      && computedSize == |given|
      && (buffer == null ==> bufferSize == 0)
      && (buffer != null ==> bufferSize == buffer.Length > computedSize && buffer[..computedSize] == given)
    }

    constructor ()
      ensures Valid() && given == [] && buffer != null && fresh(buffer)
    {
      buffer := new byte[16];
      bufferSize, computedSize, given := 16, 0, [];
    }

    /** `granted` tells whether memory is to be had when more is needed; without it the sink only counts on. */
    method Consume(data: seq<byte>, granted: bool)
      requires Valid()
      modifies this, buffer
      ensures Valid() && given == old(given) + data
      ensures old(buffer) != null && granted ==> buffer != null
      ensures old(buffer) == null ==> buffer == null
      ensures buffer != null && buffer != old(buffer) ==> fresh(buffer)
    {
      if buffer != null {
        if computedSize + |data| >= bufferSize {
          var newSize := Enlarged(bufferSize, computedSize + |data|);
          if !granted {
            buffer, bufferSize := null, 0;
            computedSize := computedSize + |data|;
            given := given + data;
            return;
          }
          var p := new byte[newSize];
          CopyInto(p, 0, buffer[..computedSize]);
          buffer, bufferSize := p, newSize;
        }
        CopyInto(buffer, computedSize, data);
      }
      computedSize := computedSize + |data|;
      given := given + data;
    }
  }

  /** Doubling at least once, until `n` octets and a terminator fit. */
  method Enlarged(size: nat, n: nat) returns (newSize: nat)
    requires 0 < size <= n
    ensures newSize > n && newSize <= 2 * n
  {
    newSize := size * 2;
    while newSize <= n
      invariant size <= newSize <= 2 * n
      decreases n - newSize
    {
      newSize := newSize * 2;
    }
  }

  /** asn_encode_to_new_buffer's side: any run of chunks is held whole, and terminated. */
  method CollectAll(chunks: seq<seq<byte>>) returns (out: seq<byte>, size: nat)
    ensures out == Concat(chunks) + [0] && size == |Concat(chunks)|
  {
    var sink := new GrowingSink();
    var i := 0;
    assert chunks[..0] == [];
    while i < |chunks|
      invariant 0 <= i <= |chunks| && sink.Valid() && fresh(sink) && sink.buffer != null && fresh(sink.buffer)
      invariant sink.given == Concat(chunks[..i])
    {
      sink.Consume(chunks[i], true);
      assert chunks[..i + 1][..i] == chunks[..i];
      i := i + 1;
    }
    assert chunks[..i] == chunks;
    size := sink.computedSize;
    sink.buffer[size] := 0;
    out := sink.buffer[..size + 1];
  }

  /** asn_encode_to_buffer's side: the size of everything, and everything when it fits. */
  method CollectInto(chunks: seq<seq<byte>>, buffer: array<byte>) returns (size: nat)
    modifies buffer
    ensures size == |Concat(chunks)|
    ensures size <= buffer.Length ==> buffer[..] == Concat(chunks) + old(buffer[..])[size..]
  {
    var sink := new FixedSink(buffer);
    var i := 0;
    assert chunks[..0] == [];
    while i < |chunks|
      invariant 0 <= i <= |chunks| && sink.Valid() && fresh(sink) && sink.buffer == buffer
      invariant sink.given == Concat(chunks[..i])
      invariant |sink.given| <= buffer.Length ==> buffer[|sink.given|..] == old(buffer[..])[|sink.given|..]
    {
      ghost var n, rest := |sink.given|, buffer[..];
      sink.Consume(chunks[i]);
      assert chunks[..i + 1][..i] == chunks[..i];
      ghost var m := |sink.given|;
      if m <= buffer.Length {
        assert buffer[m..] == rest[m..];
        assert rest[m..] == rest[n..][m - n..];
        assert old(buffer[..])[n..][m - n..] == old(buffer[..])[m..];
      }
      i := i + 1;
    }
    assert chunks[..i] == chunks;
    size := sink.computedSize;
  }

  function Concat(chunks: seq<seq<byte>>): seq<byte> {
    if chunks == [] then [] else Concat(chunks[..|chunks| - 1]) + chunks[|chunks| - 1]
  }
}
