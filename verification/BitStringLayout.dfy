/**
  What unaligned PER puts for a BIT STRING, bit for bit, without its encoder.
 */
module BitStringLayout {
  import opened Bits
  import opened PerSupport
  import opened PerLengths
  import opened Uper
  import opened BitString
  import opened BitStringUper
  import UperRoundTrip

  /** Without a size constraint: the bits behind determinants that count bits, the last of them below 16384. */
  lemma {:induction false} BitsLayout(s: seq<bool>)
    ensures |s| < 128 ==> PutBits(s) == BytesToBits([|s|]) + s
    ensures 128 <= |s| < 16384 ==> PutBits(s) == BytesToBits([128 + |s| / 256, |s| % 256]) + s
    ensures |s| >= 16384 ==>
              var n := 16384 * Blocks(|s|);
              PutBits(s) == BytesToBits([192 + Blocks(|s|)]) + s[..n] + PutBits(s[n..])
  {
    hide BytesToBits, LengthBits, Covered, NeedsEnd, Fragments;
    var n := |s|;
    Determinant(n);
    Determinant(0);
    FragmentsStep(s);
    FragmentsStep([]);
    if n < 16384 {
      assert s[..n] == s && s[n..] == [];
    }
  }

  lemma {:induction false} FragmentsStep(s: seq<bool>)
    ensures s == [] ==> Fragments(s) == []
    ensures s != [] ==>
              var k := Covered(|s|);
              Fragments(s)
              == LengthBits(|s|) + s[..k] + (if NeedsEnd(|s|) then LengthBits(0) else []) + Fragments(s[k..])
  {
    hide LengthBits, Covered, NeedsEnd;
  }

  /** The bits `t` are those of `s` without the clear ones at its end. */
  ghost predicate Trimmed(t: seq<bool>, s: seq<bool>) {
    t <= s && (forall i :: |t| <= i < |s| ==> !s[i]) && (t != [] ==> t[|t| - 1])
  }

  /** A size, less the least one, in a field of its own; and the bits, filled up to the least size. */
  ghost predicate SizedSpelled(z: Size, t: seq<bool>, s: seq<bool>)
    requires z.Sized?
  {
    var e, n := z.effectiveBits, if |t| < z.lb then z.lb else |t|;
    && |s| == e + n && Val(s[..e]) == n - z.lb && t == s[e..e + |t|]
    && forall i :: e + |t| <= i < |s| ==> !s[i]
  }

  ghost predicate BitsSpelled(z: Size, t: seq<bool>, s: seq<bool>) {
    if z.Unlimited? then s == PutBits(t)
    else if |t| > z.ub then z.extensible && s == [true] + PutBits(t)
    else if z.extensible then s != [] && !s[0] && SizedSpelled(z, t, s[1..])
    else SizedSpelled(z, t, s)
  }

  lemma {:induction false} SizedIs(z: Size, t: seq<bool>, s: seq<bool>)
    requires GoodSize(z) && z.Sized? && |t| <= z.ub
    ensures SizedSpelled(z, t, s) <==> s == Field(z, t)
  {
    hide Val, ToBits, Pow2;
    var e, n := z.effectiveBits, if |t| < z.lb then z.lb else |t|;
    ValToBitsExact(n - z.lb, e);
    var put := ToBits(n - z.lb, e) + t + Zeros(n - |t|);
    assert put[..e] == ToBits(n - z.lb, e) && put[e..e + |t|] == t && put[e + |t|..] == Zeros(n - |t|);
    assert Field(z, t) == put;
    if SizedSpelled(z, t, s) {
      ToBitsVal(s[..e]);
      assert s == s[..e] + s[e..e + |t|] + s[e + |t|..];
      assert s[e + |t|..] == Zeros(n - |t|);
    }
  }

  /** The encoder yields some bits exactly when they are the ones spelled out for the string without its clear end. */
  lemma {:induction false} BitsExactly(z: Size, st: BitStr, t: seq<bool>, s: seq<bool>)
    requires GoodSize(z) && st.Valid() && Trimmed(t, BytesToBits(st.buf))
    ensures EncString(z, st) == Bits(s) <==> BitsSpelled(z, t, s)
  {
    hide PutBits, SizedSpelled, Field, BytesToBits, Trim, Pow2;
    OneTrimmed(t, BytesToBits(st.buf));
    if s != [] {
      assert s == [s[0]] + s[1..];
    }
    if z.Sized? && |t| <= z.ub {
      SizedIs(z, t, s);
      if s != [] {
        SizedIs(z, t, s[1..]);
      }
    }
  }

  lemma {:induction false} OneTrimmed(t: seq<bool>, s: seq<bool>)
    requires Trimmed(t, s)
    ensures t == Trim(s)
    decreases |s|
  {
    if |t| < |s| {
      OneTrimmed(t, s[..|s| - 1]);
    }
  }

  // ---- What the decoder takes ----

  /** A determinant and the bits it counts. */
  datatype Piece = Piece(head: seq<byte>, data: seq<bool>)

  ghost predicate Pieces(ps: seq<Piece>) {
    ps != [] && forall i :: 0 <= i < |ps| ==> Says(ps[i].head, |ps[i].data|, i < |ps| - 1)
  }

  function Sent(ps: seq<Piece>): seq<bool> {
    if ps == [] then [] else BytesToBits(ps[0].head) + (ps[0].data + Sent(ps[1..]))
  }

  function Meant(ps: seq<Piece>): seq<bool> {
    if ps == [] then [] else ps[0].data + Meant(ps[1..])
  }

  ghost predicate PiecesRead(s: seq<bool>, t: seq<bool>) {
    exists ps :: Pieces(ps) && t == Sent(ps) && s == Meant(ps)
  }

  /** A field with the size less the least one, and the bits; with no such field always the greatest size. */
  ghost predicate SizedRead(z: Size, s: seq<bool>, t: seq<bool>)
    requires z.Sized?
  {
    var e := z.effectiveBits;
    if e == 0 then s == t && |t| == z.ub
    else e <= |t| && Val(t[..e]) + z.lb == |s| && s == t[e..]
  }

  /** The texts of bits the decoder takes for the string `s`. */
  ghost predicate BitsRead(z: Size, s: seq<bool>, t: seq<bool>) {
    if z.Unlimited? then PiecesRead(s, t)
    else if !z.extensible then SizedRead(z, s, t)
    else t != [] && if t[0] then PiecesRead(s, t[1..]) else SizedRead(z, s, t[1..])
  }

  lemma {:induction false} PiecesTaken(ps: seq<Piece>, rest: seq<bool>)
    requires Pieces(ps)
    ensures GetBits(Sent(ps) + rest) == Ok(Meant(ps), rest)
    decreases |ps|
  {
    hide GetLength, BytesToBits, Says, GetBits;
    var p, qs := ps[0], ps[1..];
    var tail := Sent(qs) + rest;
    assert Sent(ps) + rest == BytesToBits(p.head) + (p.data + tail);
    LengthTaken(p.head, |p.data|, qs != [], p.data + tail);
    assert (p.data + tail)[..|p.data|] == p.data && (p.data + tail)[|p.data|..] == tail;
    if qs == [] {
      NoPieces(qs);
      assert tail == rest && Meant(ps) == p.data;
      LastPiece(Sent(ps) + rest, |p.data|, p.data + tail);
    } else {
      assert Pieces(qs);
      PiecesTaken(qs, rest);
      FirstPiece(Sent(ps) + rest, |p.data|, p.data + tail);
    }
  }

  lemma {:induction false} NoPieces(none: seq<Piece>)
    requires none == []
    ensures Sent(none) == [] && Meant(none) == []
  {
  }

  lemma {:induction false} LastPiece(t: seq<bool>, n: nat, after: seq<bool>)
    requires GetLength(t) == Ok((n, false), after) && n <= |after|
    ensures GetBits(t) == Ok(after[..n], after[n..])
  {
    hide GetLength;
  }

  lemma {:induction false} FirstPiece(t: seq<bool>, n: nat, after: seq<bool>)
    requires GetLength(t) == Ok((n, true), after) && n <= |after|
    ensures var more := GetBits(after[n..]);
            GetBits(t) == if more.Ok? then Ok(after[..n] + more.value, more.rest) else more
  {
    hide GetLength;
  }

  lemma {:induction false} PiecesThere(t: seq<bool>) returns (ps: seq<Piece>)
    requires GetBits(t).Ok?
    ensures Pieces(ps) && t == Sent(ps) + GetBits(t).rest && GetBits(t).value == Meant(ps)
    decreases |t|
  {
    hide GetLength, BytesToBits, Says;
    var a := GetLength(t);
    var h := LengthRead(t);
    var (n, repeat) := a.value;
    var data, tail := a.rest[..n], a.rest[n..];
    var qs: seq<Piece> := [];
    if repeat {
      qs := PiecesThere(tail);
    }
    NoPieces([]);
    ps := [Piece(h, data)] + qs;
    assert ps[1..] == qs;
    assert a.rest == data + tail;
  }

  lemma {:induction false} PiecesExactly(s: seq<bool>, t: seq<bool>, rest: seq<bool>)
    ensures GetBits(t + rest) == Ok(s, rest) <==> PiecesRead(s, t)
  {
    hide GetBits, Sent, Meant, Pieces;
    if GetBits(t + rest) == Ok(s, rest) {
      var ps := PiecesThere(t + rest);
      UperRoundTrip.PrefixSame(t, Sent(ps), rest);
    }
    if ps :| Pieces(ps) && t == Sent(ps) && s == Meant(ps) {
      PiecesTaken(ps, rest);
    }
  }

  lemma {:induction false} SizedExactly(z: Size, s: seq<bool>, t: seq<bool>, rest: seq<bool>)
    requires z.Sized?
    ensures GetField(z, t + rest) == Ok(s, rest) <==> SizedRead(z, s, t)
  {
    hide Val;
    var e := z.effectiveBits;
    if e == 0 {
      if |t| == z.ub {
        assert (t + rest)[..z.ub] == t && (t + rest)[z.ub..] == rest;
      }
    } else if e <= |t| {
      assert (t + rest)[..e] == t[..e] && (t + rest)[e..] == t[e..] + rest;
      var n := Val(t[..e]) + z.lb;
      if n == |t| - e {
        assert (t[e..] + rest)[..n] == t[e..] && (t[e..] + rest)[n..] == rest;
      }
    }
  }

  /** On any input the decoder yields the string `s` and leaves the rest exactly for the texts told here. */
  lemma {:induction false} BitsReadExactly(z: Size, s: seq<bool>, t: seq<bool>, rest: seq<bool>)
    ensures DecBits(z, t + rest) == Ok(s, rest) <==> BitsRead(z, s, t)
  {
    hide GetBits, GetField, PiecesRead, SizedRead;
    if z.Unlimited? {
      PiecesExactly(s, t, rest);
    } else if !z.extensible {
      SizedExactly(z, s, t, rest);
    } else if t != [] {
      assert (t + rest)[0] == t[0] && (t + rest)[1..] == t[1..] + rest;
      PiecesExactly(s, t[1..], rest);
      SizedExactly(z, s, t[1..], rest);
    } else {
      BitTaken(z, rest, s);
    }
  }

  lemma {:induction false} BitTaken(z: Size, rest: seq<bool>, s: seq<bool>)
    requires z.Sized? && z.extensible
    ensures DecBits(z, [] + rest) != Ok(s, rest)
  {
    hide Val, GetBits;
    assert [] + rest == rest;
  }
}
