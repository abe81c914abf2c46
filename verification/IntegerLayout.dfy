/**
  INTEGER of any size in unaligned PER, bit for bit: what the encoder puts for which octets, and which
  texts of bits the decoder takes for them.
 */
module IntegerLayout {
  import opened Bits
  import opened Integer
  import opened PerSupport
  import opened Uper
  import opened UperLayout
  import opened UperReads
  import opened IntegerUper
  import UperRoundTrip

  /** Without a record of constraints the octets may stand for any number, else for one that fits a signed word. */
  ghost predicate IntegerSpelled(ct: Constraint, b: seq<byte>, s: seq<bool>) {
    var v := SignedVal(b);
    && b != [] && (ct != Unconstrained(false) ==> -0x8000_0000_0000_0000 <= v < 0x8000_0000_0000_0000)
    && if ct.Unconstrained? then s == PutOctets(b)
       else if ct.lb <= v <= ct.ub then InRoot(ct.extensible, ct.rangeBits, v - ct.lb, s)
       else ct.extensible && s == [true] + PutOctets(b)
  }

  lemma {:induction false} IntegerExactly(ct: Constraint, b: seq<byte>, s: seq<bool>)
    requires WellFormed(Number(ct))
    ensures EncInteger(ct, b) == Bits(s) <==> IntegerSpelled(ct, b, s)
  {
    hide ToBits, Val, Pow2, PutOctets, SignedVal;
    var v := SignedVal(b);
    if ct.Range? && ct.lb <= v <= ct.ub {
      InRootIs(ct.extensible, ct.rangeBits, v - ct.lb, s);
      assert [] + ToBits(v - ct.lb, ct.rangeBits) == ToBits(v - ct.lb, ct.rangeBits);
    }
  }

  /** The shortest octets of a number in the range. */
  ghost predicate OffsetRead(ct: Constraint, b: seq<byte>, s: seq<bool>)
    requires ct.Range?
  {
    exists v :: RangeRead(ct, v, s) && ShortestOf(v, b)
  }

  ghost predicate ShortestOf(v: int, b: seq<byte>) {
    -0x8000_0000_0000_0000 <= v < 0x8000_0000_0000_0000 && b != [] && SignedVal(b) == v && !Superfluous(b)
  }

  ghost predicate IntegerRead(ct: Constraint, b: seq<byte>, s: seq<bool>) {
    if ct.Unconstrained? then OctetsRead(b, s)
    else if !ct.extensible then OffsetRead(ct, b, s)
    else s != [] && if s[0] then OctetsRead(b, s[1..]) else OffsetRead(ct, b, s[1..])
  }

  lemma {:induction false} ShortestIs(v: int, b: seq<byte>)
    requires FitsSigned(v)
    ensures ShortestOf(v, b) <==> b == Contents(v)
  {
    hide SignedVal, Superfluous, Contents;
    ContentsBack(v);
    ContentsMinimal(v);
    if ShortestOf(v, b) {
      MinimalUnique(b, Contents(v));
    }
  }

  lemma {:induction false} OctetsReadExactly(b: seq<byte>, s: seq<bool>, rest: seq<bool>)
    ensures GetOctets(s + rest) == Ok(b, rest) <==> OctetsRead(b, s)
  {
    hide OctetsRead, GetOctets;
    if GetOctets(s + rest) == Ok(b, rest) {
      var p := OctetsThere(s + rest);
      UperRoundTrip.PrefixSame(s, p, rest);
    }
    if OctetsRead(b, s) {
      OctetsTaken(b, s, rest);
    }
  }

  lemma {:induction false} OffsetExactly(ct: Constraint, b: seq<byte>, s: seq<bool>, rest: seq<bool>)
    requires ct.Range? && !ct.extensible
    ensures DecInteger(ct, s + rest) == Ok(b, rest) <==> OffsetRead(ct, b, s)
  {
    hide Val, Contents, ShortestOf;
    var r := DecRange(ct, s + rest);
    if r.Ok? && r.rest == rest {
      var p := RangeThere(ct, s + rest);
      UperRoundTrip.PrefixSame(s, p, rest);
      if FitsSigned(r.value.v) {
        ShortestIs(r.value.v, b);
      }
    }
    forall v | RangeRead(ct, v, s) && ShortestOf(v, b) ensures r == Ok(Native(v), rest) && FitsSigned(v) {
      FieldTaken(s, rest);
      ShortFits(v, b);
    }
  }

  lemma {:induction false} ShortFits(v: int, b: seq<byte>)
    requires ShortestOf(v, b)
    ensures FitsSigned(v)
  {
  }

  /** On any input the decoder yields the octets `b` and leaves the rest exactly for the texts told here. */
  lemma {:induction false} IntegerReadExactly(ct: Constraint, b: seq<byte>, s: seq<bool>, rest: seq<bool>)
    ensures DecInteger(ct, s + rest) == Ok(b, rest) <==> IntegerRead(ct, b, s)
  {
    hide GetOctets, OctetsRead, DecRange, OffsetRead, Contents;
    if ct.Unconstrained? {
      OctetsReadExactly(b, s, rest);
    } else if !ct.extensible {
      OffsetExactly(ct, b, s, rest);
    } else if s != [] {
      Behind(s, rest);
      OctetsReadExactly(b, s[1..], rest);
      OffsetExactly(ct.(extensible := false), b, s[1..], rest);
      SameOffset(ct, b, s[1..], rest);
    } else {
      NothingTaken(ct, b, rest);
    }
  }

  lemma {:induction false} SameOffset(ct: Constraint, b: seq<byte>, s: seq<bool>, rest: seq<bool>)
    requires ct.Range?
    ensures OffsetRead(ct.(extensible := false), b, s) <==> OffsetRead(ct, b, s)
    ensures DecRange(ct.(extensible := false), s + rest) == DecRange(ct, s + rest)
  {
    hide ShortestOf, Take;
    var fixed := ct.(extensible := false);
    assert forall v :: RangeRead(fixed, v, s) == RangeRead(ct, v, s);
  }

  lemma {:induction false} NothingTaken(ct: Constraint, b: seq<byte>, rest: seq<bool>)
    requires ct.Range? && ct.extensible
    ensures DecInteger(ct, [] + rest) != Ok(b, rest)
  {
    hide GetOctets, Contents, Val;
    assert [] + rest == rest;
    if rest != [] {
      GetOctetsShorter(rest[1..]);
    }
  }

  lemma {:induction false} GetOctetsShorter(s: seq<bool>)
    ensures GetOctets(s).Ok? ==> |GetOctets(s).rest| < |s|
  {
  }
}
