/**
  Length determinants and fragments by their octets, as section 11.9 of X.691 draws them: what the
  writer puts, and exactly what the reader takes.
 */
module PerLengths {
  import opened Bits
  import opened PerSupport

  /**
    The octets of a determinant that says `k`: one up to 127, two below 16384, and one octet with the number of
    blocks of 16384 when a fragment of one to four of them is announced and more is to follow.
   */
  ghost predicate Says(h: seq<byte>, k: nat, more: bool) {
    if |h| == 1 && h[0] < 128 then !more && k == h[0]
    else if |h| == 2 && 128 <= h[0] < 192 then !more && k == 256 * (h[0] as int - 128) + h[1]
    else |h| == 1 && 193 <= h[0] <= 196 && more && k == 16384 * (h[0] as int - 192)
  }

  function Blocks(n: nat): nat {
    if n < 65536 then n / 16384 else 4
  }

  /** The writer's determinant for `n`, what it covers, and whether an empty fragment must follow. */
  lemma {:induction false} Determinant(n: nat)
    ensures n < 128 ==> LengthBits(n) == BytesToBits([n])
    ensures 128 <= n < 16384 ==> LengthBits(n) == BytesToBits([128 + n / 256, n % 256])
    ensures n >= 16384 ==> LengthBits(n) == BytesToBits([192 + Blocks(n)])
    ensures Covered(n) == if n < 16384 then n else 16384 * Blocks(n)
    ensures NeedsEnd(n) <==> n >= 16384 && n == 16384 * Blocks(n)
  {
    hide ToBits, BytesToBits, Pow2, Shr;
    if n < 128 {
      BytesToBitsOne(n);
    } else if n < 16384 {
      TwoOctets(n);
    } else {
      BytesToBitsOne(192 + Blocks(n));
    }
  }

  lemma {:induction false} TwoOctets(n: nat)
    requires 128 <= n < 16384
    ensures ToBits(n + 0x8000, 16) == BytesToBits([128 + n / 256, n % 256])
  {
    hide ToBits, Pow2, Shr;
    var x := n + 0x8000;
    Pow2Values();
    ToBitsSplit(x, 8, 8);
    ShrIsDiv(x, 8);
    ToBitsMod(x, 8);
    BytesToBitsOne(128 + n / 256);
    BytesToBitsOne(n % 256);
    BytesToBitsConcat([128 + n / 256], [n % 256]);
    assert [128 + n / 256] + [n % 256] == [128 + n / 256, n % 256];
  }

  /** Octets as the writer puts them, of any number. */
  lemma {:induction false} Layout(b: seq<byte>)
    ensures b == [] ==> PutOctets(b) == []
    ensures 0 < |b| < 128 ==> PutOctets(b) == BytesToBits([|b|] + b)
    ensures 128 <= |b| < 16384 ==> PutOctets(b) == BytesToBits([128 + |b| / 256, |b| % 256] + b)
    ensures |b| >= 16384 ==>
              var n := 16384 * Blocks(|b|);
              PutOctets(b) == BytesToBits([192 + Blocks(|b|)] + b[..n]) + if n < |b| then PutOctets(b[n..])
                                                                         else BytesToBits([0])
  {
    hide BytesToBits, LengthBits, Covered, NeedsEnd, PutOctets;
    var n := |b|;
    Determinant(n);
    Determinant(0);
    if b == [] {
      Unfolded(b);
    } else if n < 16384 {
      PutLast(b);
      BytesToBitsConcat(if n < 128 then [n] else [128 + n / 256, n % 256], b);
    } else {
      var k := 16384 * Blocks(n);
      BytesToBitsConcat([192 + Blocks(n)], b[..k]);
      Unfolded(b);
      if k == n {
        assert b[k..] == [];
        Unfolded([]);
      }
    }
  }

  lemma {:induction false} Unfolded(b: seq<byte>)
    ensures b == [] ==> PutOctets(b) == []
    ensures b != [] ==>
              var k := Covered(|b|);
              PutOctets(b) == LengthBits(|b|) + BytesToBits(b[..k]) + (if NeedsEnd(|b|) then LengthBits(0) else [])
                              + PutOctets(b[k..])
  {
    hide LengthBits, Covered, NeedsEnd, BytesToBits;
  }

  // ---- What the reader takes ----

  lemma {:induction false} OctetTaken(o: byte, rest: seq<bool>)
    ensures Take(BytesToBits([o]) + rest, 8) == Ok(o, rest)
  {
    hide ToBits, BytesToBits, Take;
    Pow2Values();
    BytesToBitsOne(o);
    TakeBack(o, 8, rest);
  }

  lemma {:induction false} OctetRead(s: seq<bool>) returns (o: byte)
    requires Take(s, 8).Ok?
    ensures Take(s, 8).value == o && s == BytesToBits([o]) + Take(s, 8).rest
  {
    hide ToBits, BytesToBits, Val;
    Pow2Values();
    ValBound(s[..8]);
    ToBitsVal(s[..8]);
    o := Val(s[..8]);
    BytesToBitsOne(o);
  }

  /** The reader takes what says a length or a fragment, whether or not the writer would have put it that way. */
  lemma {:induction false} LengthExact(s: seq<bool>, k: nat, more: bool, rest: seq<bool>)
    ensures GetLength(s) == Ok((k, more), rest) <==> exists h :: Says(h, k, more) && s == BytesToBits(h) + rest
  {
    hide GetLength, BytesToBits, Says;
    if GetLength(s) == Ok((k, more), rest) {
      var h := LengthRead(s);
      assert Says(h, k, more) && s == BytesToBits(h) + rest;
    }
    if h :| Says(h, k, more) && s == BytesToBits(h) + rest {
      LengthTaken(h, k, more, rest);
    }
  }

  lemma {:induction false} LengthTaken(h: seq<byte>, k: nat, more: bool, rest: seq<bool>)
    requires Says(h, k, more)
    ensures GetLength(BytesToBits(h) + rest) == Ok((k, more), rest)
  {
    hide Take, BytesToBits;
    if |h| == 1 {
      assert h == [h[0]];
      OctetTaken(h[0], rest);
    } else {
      assert h == [h[0]] + [h[1]];
      BytesToBitsConcat([h[0]], [h[1]]);
      Associate(BytesToBits([h[0]]), BytesToBits([h[1]]), rest);
      OctetTaken(h[0], BytesToBits([h[1]]) + rest);
      OctetTaken(h[1], rest);
    }
  }

  lemma {:induction false} LengthRead(s: seq<bool>) returns (h: seq<byte>)
    requires GetLength(s).Ok?
    ensures var r := GetLength(s); Says(h, r.value.0, r.value.1) && s == BytesToBits(h) + r.rest
  {
    hide Take, BytesToBits;
    var o := OctetRead(s);
    h := [o];
    if 0x80 <= o < 0xC0 {
      var t := Take(s, 8).rest;
      var p := OctetRead(t);
      BytesToBitsConcat([o], [p]);
      Associate(BytesToBits([o]), BytesToBits([p]), Take(t, 8).rest);
      h := [o] + [p];
    }
  }

  /** A determinant and the octets it covers. */
  datatype Fragment = Fragment(head: seq<byte>, data: seq<byte>)

  /** Every fragment but the last says that more follow. */
  ghost predicate InTurn(ps: seq<Fragment>) {
    ps != [] && forall i :: 0 <= i < |ps| ==> Says(ps[i].head, |ps[i].data|, i < |ps| - 1)
  }

  function Wire(ps: seq<Fragment>): seq<byte> {
    if ps == [] then [] else ps[0].head + ps[0].data + Wire(ps[1..])
  }

  function Carried(ps: seq<Fragment>): seq<byte> {
    if ps == [] then [] else ps[0].data + Carried(ps[1..])
  }

  /** The reader of fragments yields `b` exactly when fragments that carry it stand in front of the rest. */
  lemma {:induction false} OctetsExact(s: seq<bool>, b: seq<byte>, rest: seq<bool>)
    ensures GetOctets(s) == Ok(b, rest) <==>
              exists ps :: InTurn(ps) && s == BytesToBits(Wire(ps)) + rest && b == Carried(ps)
  {
    hide GetOctets, BytesToBits, InTurn, Wire, Carried;
    if GetOctets(s) == Ok(b, rest) {
      var ps := FragmentsRead(s);
      assert InTurn(ps) && s == BytesToBits(Wire(ps)) + rest && b == Carried(ps);
    }
    if ps :| InTurn(ps) && s == BytesToBits(Wire(ps)) + rest && b == Carried(ps) {
      FragmentsTaken(ps, rest);
    }
  }

  lemma {:induction false} FragmentsTaken(ps: seq<Fragment>, rest: seq<bool>)
    requires InTurn(ps)
    ensures GetOctets(BytesToBits(Wire(ps)) + rest) == Ok(Carried(ps), rest)
    decreases |ps|
  {
    hide GetLength, BytesToBits, FromBits, Says, GetOctets;
    var p, qs := ps[0], ps[1..];
    var tail := BytesToBits(Wire(qs)) + rest;
    WireSplit(ps, rest);
    LengthTaken(p.head, |p.data|, qs != [], BytesToBits(p.data) + tail);
    FromBitsOf(p.data);
    var d := BytesToBits(p.data);
    assert (d + tail)[..|d|] == d && (d + tail)[|d|..] == tail;
    if qs == [] {
      assert BytesToBits(Wire(qs)) == [] by { Nothing(); }
      assert tail == rest && Carried(ps) == p.data + Carried(qs) == p.data;
      GetLast(BytesToBits(Wire(ps)) + rest, p.data, rest);
    } else {
      FragmentsTaken(qs, rest);
      GetRepeated(BytesToBits(Wire(ps)) + rest, p.data, tail);
    }
  }

  lemma {:induction false} Nothing()
    ensures BytesToBits(Wire([])) == []
  {
  }

  lemma {:induction false} WireSplit(ps: seq<Fragment>, rest: seq<bool>)
    requires ps != []
    ensures BytesToBits(Wire(ps)) + rest
            == BytesToBits(ps[0].head) + (BytesToBits(ps[0].data) + (BytesToBits(Wire(ps[1..])) + rest))
  {
    hide BytesToBits;
    var p, more := ps[0], Wire(ps[1..]);
    BytesToBitsConcat(p.head + p.data, more);
    BytesToBitsConcat(p.head, p.data);
  }

  lemma {:induction false} GetLast(s: seq<bool>, b: seq<byte>, rest: seq<bool>)
    requires GetLength(s) == Ok((|b|, false), BytesToBits(b) + rest)
    requires FromBits((BytesToBits(b) + rest)[..8 * |b|]) == b && (BytesToBits(b) + rest)[8 * |b|..] == rest
    ensures GetOctets(s) == Ok(b, rest)
  {
    hide GetLength, BytesToBits, FromBits;
  }

  lemma {:induction false} FragmentsRead(s: seq<bool>) returns (ps: seq<Fragment>)
    requires GetOctets(s).Ok?
    ensures InTurn(ps) && s == BytesToBits(Wire(ps)) + GetOctets(s).rest && GetOctets(s).value == Carried(ps)
    decreases |s|
  {
    hide GetLength, BytesToBits, FromBits, Says;
    var a := GetLength(s);
    var h := LengthRead(s);
    var (n, repeat) := a.value;
    var bits, tail := a.rest[..8 * n], a.rest[8 * n..];
    var data := FromBits(bits);
    FromBitsBack(bits);
    assert |bits| == 8 * n && |data| == n;
    var qs: seq<Fragment> := [];
    if repeat {
      qs := FragmentsRead(tail);
    }
    ps := [Fragment(h, data)] + qs;
    assert ps[1..] == qs;
    var end := GetOctets(s).rest;
    WireSplit(ps, end);
    assert a.rest == BytesToBits(data) + tail;
    Nothing();
  }
}
