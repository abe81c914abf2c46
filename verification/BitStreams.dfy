/**
  Writer and reader together: whatever is put comes back, wherever the scratch area is
  flushed and however the stream is cut into chunks.
 */
module BitStreams {
  import opened Bits
  import opened BitOutput
  import opened BitInput

  /** One call of the writer or of the reader. */
  datatype Item = Few(value: nat, width: nat) | Many(octets: seq<byte>, width: nat) {
    ghost predicate Valid() {
      if Few? then width <= 31 else width <= 8 * |octets|
    }

    ghost function Content(): (s: seq<bool>)
      requires Valid()
      ensures |s| == width
    {
      if Few? then ToBits(value, width) else BytesToBits(octets)[..width]
    }

    /** The form in which the reader hands an item over: no stray high bits, zero fill. */
    ghost predicate Normal() {
      && Valid()
      && (Few? ==> value < Pow2(width))
      && (Many? ==> BytesToBits(octets) == BytesToBits(octets)[..width] + Zeros(Padding(width)))
    }
  }

  ghost predicate AllValid(items: seq<Item>) {
    forall i :: 0 <= i < |items| ==> items[i].Valid()
  }

  ghost function Contents(items: seq<Item>): seq<bool>
    requires AllValid(items)
  {
    if items == [] then [] else items[0].Content() + Contents(items[1..])
  }

  lemma {:induction false} ContentsSnoc(items: seq<Item>, i: nat)
    requires AllValid(items) && i < |items|
    ensures Contents(items[..i + 1]) == Contents(items[..i]) + items[i].Content()
  {
    hide Item.Content;
    if i == 0 {
      assert items[..1] == [items[0]] && items[..0] == [] && items[..1][1..] == [];
    } else {
      ContentsSnoc(items[1..], i - 1);
      assert items[..i + 1][1..] == items[1..][..i] && items[..i][1..] == items[1..][..i - 1];
    }
  }

  lemma {:induction false} ContentsSplit(items: seq<Item>, i: nat)
    requires AllValid(items) && i < |items|
    ensures Contents(items[i..]) == items[i].Content() + Contents(items[i + 1..])
  {
    assert items[i..][1..] == items[i + 1..];
  }

  method PutOne(po: BitWriter, item: Item) returns (rc: int)
    requires po.Valid() && item.Valid()
    modifies po, po.tmpspace
    ensures po.Valid() && (rc == 0 || rc == -1)
    ensures rc == 0 ==> po.Written() == old(po.Written()) + item.Content()
    ensures rc == 0 ==> po.refused == old(po.refused)
    ensures old(po.answers) == [] ==> po.answers == [] && rc == 0
  {
    hide ToBits, BytesToBits, BitWriter.Written;
    match item
    case Few(value, width) => rc := po.PutFewBits(value, width);
    case Many(octets, width) => rc := po.PutManyBits(octets, width);
  }

  method GetOne(pd: BitReader, item: Item) returns (got: Item)
    requires pd.Valid() && item.Valid() && item.width <= |pd.All()|
    modifies pd
    ensures pd.Valid() && pd.All() == old(pd.All())[item.width..]
    ensures got.Normal() && got.Few? == item.Few? && got.width == item.width
    ensures got.Content() == old(pd.All())[..item.width]
  {
    hide ToBits, BytesToBits, Pow2, Val, Zeros, BitReader.All, BitReader.Current, Crosses;
    ghost var all := pd.All();
    if item.Few? {
      var v := pd.GetFewBits(item.width);
      got := Few(v, item.width);
      ValBound(all[..item.width]);
      ToBitsVal(all[..item.width]);
    } else {
      var dst := new byte[(item.width + 7) / 8];
      var rc := pd.GetManyBits(dst, false, item.width);
      got := Many(dst[..], item.width);
      assert dst[..] == dst[..(item.width + 7) / 8];
      assert BytesToBits(dst[..])[..item.width] == all[..item.width];
    }
  }

  /** Reading a written stream with the same widths gives the same items, then the bits after them. */
  method GetAll(pd: BitReader, items: seq<Item>, ghost rest: seq<bool>) returns (got: seq<Item>)
    requires pd.Valid() && AllValid(items) && pd.All() == Contents(items) + rest
    modifies pd
    ensures pd.Valid() && pd.All() == rest
    ensures |got| == |items|
    ensures forall i :: 0 <= i < |items| ==>
              got[i].Normal() && got[i].Few? == items[i].Few? && got[i].Content() == items[i].Content()
  {
    hide ToBits, BytesToBits, Pow2, Val, Zeros, BitReader.All, Contents, Item.Content;
    got := [];
    assert items[0..] == items;
    for i := 0 to |items|
      invariant pd.Valid() && pd.All() == Contents(items[i..]) + rest
      invariant |got| == i
      invariant forall j :: 0 <= j < i ==>
                  got[j].Normal() && got[j].Few? == items[j].Few? && got[j].Content() == items[j].Content()
    {
      ContentsSplit(items, i);
      Regroup(items[i].Content(), Contents(items[i + 1..]), rest);
      var item := GetOne(pd, items[i]);
      got := got + [item];
    }
    NoContents(items[|items|..], rest);
  }

  lemma {:induction false} Regroup(a: seq<bool>, b: seq<bool>, c: seq<bool>)
    ensures (a + b + c)[..|a|] == a && (a + b + c)[|a|..] == b + c
  {
  }

  lemma {:induction false} NoContents(none: seq<Item>, rest: seq<bool>)
    requires none == []
    ensures Contents(none) + rest == rest
  {
  }

  /** A value of the width it was put with comes back unchanged. */
  lemma {:induction false} NormalFewUnique(a: Item, b: Item)
    requires a.Few? && b.Few? && a.Normal() && b.Normal() && a.Content() == b.Content()
    ensures a == b
  {
    ValToBitsExact(a.value, a.width);
    ValToBitsExact(b.value, b.width);
  }

  /**
    Undo takes a read back exactly when all its bits came from one chunk.  After a read
    that went through a refill, asn_get_undo finds too few bits behind it and does nothing.
   */
  method GetThenUndo(pd: BitReader, n: nat) returns (v: int)
    requires pd.Valid() && n <= 31 && n <= |pd.All()|
    modifies pd
    ensures pd.Valid() && v == Val(old(pd.All())[..n])
    ensures pd.All() == old(pd.All()) <==> !Crosses(old(pd.nbits - pd.nboff), old(pd.chunks), n)
  {
    hide BytesToBits, Val, Pow2, ChunkBits;
    ghost var all := pd.All();
    v := pd.GetFewBits(n);
    ghost var read := pd.nboff >= n;
    assert read ==> pd.Behind(n) == all[..n];
    assert all[..n] + all[n..] == all;
    label Read:
    pd.Undo(n);
    if read {
      assert pd.All() == old@Read(pd.Behind(n)) + old@Read(pd.All());
    } else {
      assert |pd.All()| == |all| - n;
    }
  }

  /** Two bits in two chunks: once both are read, undo does not bring them back. */
  method UndoExample() returns (pd: BitReader, v: int)
    ensures fresh(pd) && pd.Valid()
    ensures Crosses(1, [Chunk([0x80], 1)], 2) && v == 3 && pd.All() != [true, true]
  {
    hide BytesToBits, BitReader.All, Val;
    var next := Chunk([0x80], 1);
    pd := new BitReader([0x80], 1, true, [next]);
    OneBitRead(next);
    assert pd.All() == [true, true];
    assert [true, true][..2] == [true, true];
    assert pd.nbits - pd.nboff == 1 && pd.chunks == [next];
    v := GetThenUndo(pd, 2);
  }

  lemma {:induction false} OneBitRead(c: Chunk)
    requires c == Chunk([0x80], 1)
    ensures BytesToBits([0x80])[..1] == [true] && ChunkBits([c]) == [true] && Val([true, true]) == 3
  {
  }

  /** Any run of puts ended by an aligned flush delivers the bits put, padded to an octet. */
  method PutAll(items: seq<Item>, answers: seq<bool>) returns (rc: int, out: seq<byte>)
    requires AllValid(items)
    ensures answers == [] ==> rc == 0
    ensures rc == 0 ==> BytesToBits(out) == Contents(items) + Zeros(Padding(|Contents(items)|))
  {
    hide ToBits, BytesToBits, Pow2, Zeros, Contents, BitWriter.Written, Item.Content;
    var po := new BitWriter(answers);
    out := [];
    NoContents(items[..0], []);
    for i := 0 to |items|
      invariant po.Valid() && fresh(po) && fresh(po.tmpspace) && !po.refused
      invariant po.Written() == Contents(items[..i])
      invariant answers == [] ==> po.answers == []
    {
      ContentsSnoc(items, i);
      rc := PutOne(po, items[i]);
      if rc != 0 {
        return;
      }
    }
    assert items[..|items|] == items;
    rc := po.AlignedFlush();
    out := po.sink;
  }
}
