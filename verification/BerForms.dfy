/**
  Exactly which identifier and length octets are read as what, in closed form: the base-128 and
  base-256 numbers of sections 8.1.2 and 8.1.3 of X.690, and where they become too large.
 */
module BerForms {
  import opened Bits
  import opened BerTag
  import opened BerLength

  // ---- Identifier octets ----

  /** The number in the low-order seven bits of octets. */
  function SevenBits(s: seq<byte>): nat {
    if s == [] then 0 else 128 * SevenBits(s[..|s| - 1]) + s[|s| - 1] % 128
  }

  /** A first octet with the low-order bits set, octets with the high-order bit set, and one without. */
  ghost predicate LongTag(b: seq<byte>, n: nat) {
    2 <= n <= |b| && b[0] % 32 == 31 && (forall i :: 1 <= i < n - 1 ==> b[i] >= 128) && b[n - 1] < 128
  }

  lemma {:induction false} SevenBitsGrow(s: seq<byte>, k: nat)
    requires k <= |s|
    ensures SevenBits(s[..k]) <= SevenBits(s)
    decreases |s|
  {
    if k == |s| {
      assert s[..k] == s;
    } else {
      assert s[..|s| - 1][..k] == s[..k];
      SevenBitsGrow(s[..|s| - 1], k);
    }
  }

  lemma {:induction false} OneMoreSeven(b: seq<byte>, i: nat)
    requires 1 <= i < |b|
    ensures SevenBits(b[1..i + 1]) == 128 * SevenBits(b[1..i]) + b[i] % 128
  {
    assert b[1..i + 1][..i - 1] == b[1..i];
  }

  /** The octets read so far, all with the high-order bit set. */
  lemma {:induction false} TailReached(b: seq<byte>, i: nat)
    requires 1 <= i <= |b| && b[0] % 32 == 31 && forall j :: 1 <= j < i ==> b[j] >= 128
    requires SevenBits(b[1..i]) < 0x80_0000
    ensures FetchTag(b) == TagTail(b, i, SevenBits(b[1..i]), b[0] / 64)
    decreases i
  {
    if i == 1 {
      assert b[1..1] == [];
    } else {
      OneMoreSeven(b, i - 1);
      TailReached(b, i - 1);
    }
  }

  /** The first octet at which the number has become too large, if there is one. */
  lemma {:induction false} TailTooLarge(b: seq<byte>, i: nat)
    requires 1 <= i <= |b| && b[0] % 32 == 31 && forall j :: 1 <= j < i ==> b[j] >= 128
    requires SevenBits(b[1..i]) >= 0x80_0000
    ensures FetchTag(b) == Bad
    decreases i
  {
    if i == 1 {
      assert false;
    }
    OneMoreSeven(b, i - 1);
    if SevenBits(b[1..i - 1]) < 0x80_0000 {
      TailReached(b, i - 1);
    } else {
      TailTooLarge(b, i - 1);
    }
  }

  /** A tag in the long form is accepted exactly when its number is below 2^30, and then read as that number. */
  lemma {:induction false} LongTagExact(b: seq<byte>, n: nat)
    requires LongTag(b, n)
    ensures FetchTag(b)
            == if SevenBits(b[1..n]) < 0x4000_0000 then Got(n, 4 * SevenBits(b[1..n]) + b[0] / 64) else Bad
  {
    hide FetchTag;
    OneMoreSeven(b, n - 1);
    if SevenBits(b[1..n - 1]) < 0x80_0000 {
      TailReached(b, n - 1);
    } else {
      TailTooLarge(b, n - 1);
    }
  }

  /** One that does not end in the input is waited for, unless it is too large already. */
  lemma {:induction false} UnfinishedTag(b: seq<byte>)
    requires b != [] && b[0] % 32 == 31 && forall i :: 1 <= i < |b| ==> b[i] >= 128
    ensures FetchTag(b) == if SevenBits(b[1..]) < 0x80_0000 then More else Bad
  {
    hide FetchTag;
    assert b[1..|b|] == b[1..];
    if SevenBits(b[1..]) < 0x80_0000 {
      TailReached(b, |b|);
    } else {
      TailTooLarge(b, |b|);
    }
  }

  /** A tag in the short form is always accepted. */
  lemma ShortTagExact(b: seq<byte>)
    requires b != [] && b[0] % 32 < 31
    ensures FetchTag(b) == Got(1, 4 * (b[0] % 32) + b[0] / 64)
  {
  }

  lemma {:induction false} LastGroup(v: nat, n: nat)
    requires n >= 1
    ensures var s := Continued(v, n); s[..n - 1] == Continued(v / 0x80, n - 1) && s[n - 1] == 0x80 + v % 0x80
  {
  }

  lemma {:induction false} SevenBitsLast(s: seq<byte>, o: byte)
    ensures SevenBits(s + [o]) == 128 * SevenBits(s) + o % 128
  {
    assert (s + [o])[..|s|] == s;
  }

  /** All groups but the last of a number, as many as it takes. */
  lemma {:induction false} GroupsSpelled(v: nat)
    requires v > 0
    ensures var s := Continued(v, Groups(v));
            && SevenBits(s) == v && s[0] != 128 && forall i :: 0 <= i < |s| ==> s[i] >= 128
  {
    hide Continued, SevenBits;
    var n := Groups(v);
    var s, front := Continued(v, n), Continued(v / 0x80, n - 1);
    LastGroup(v, n);
    assert s == front + [0x80 + v % 0x80];
    SevenBitsLast(front, 0x80 + v % 0x80);
    if v >= 0x80 {
      GroupsSpelled(v / 0x80);
      assert forall i :: 0 <= i < n - 1 ==> s[i] == front[i];
    } else {
      assert front == [];
      NoGroups();
    }
  }

  lemma {:induction false} NoGroups()
    ensures SevenBits([]) == 0
  {
  }

  /**
    What is put for a tag: one octet for a number below 31, and otherwise the number in groups of seven bits,
    no more of them than it takes.
   */
  lemma {:induction false} TagSpelled(tag: nat)
    requires tag < 0x1_0000_0000
    ensures var s, n := SerializeTag(tag), tag / 4;
            if n < 31 then s == [64 * (tag % 4) + n]
            else LongTag(s, |s|) && s[0] == 64 * (tag % 4) + 31 && s[1] != 128 && SevenBits(s[1..]) == n
  {
    var n := tag / 4;
    if n >= 31 {
      var c, first := Continued(n / 0x80, Groups(n) - 1), 64 * (tag % 4) + 31;
      assert SerializeTag(tag) == [first] + c + [n % 0x80];
      hide SerializeTag, Continued, SevenBits;
      if n >= 0x80 {
        GroupsSpelled(n / 0x80);
      } else {
        assert c == [];
        NoGroups();
      }
      LongSpelled(first, c, n);
    }
  }

  lemma {:induction false} LongSpelled(first: byte, c: seq<byte>, n: nat)
    requires first % 32 == 31 && SevenBits(c) == n / 0x80
    requires (c != [] ==> c[0] != 128) && forall i :: 0 <= i < |c| ==> c[i] >= 128
    ensures var s := [first] + c + [n % 0x80];
            LongTag(s, |s|) && s[0] == first && s[1] != 128 && SevenBits(s[1..]) == n
  {
    hide SevenBits;
    var s := [first] + c + [n % 0x80];
    assert s[1..] == c + [n % 0x80];
    SevenBitsLast(c, n % 0x80);
    forall i | 1 <= i < |s| - 1 ensures s[i] >= 128 {
      assert s[i] == c[i - 1];
    }
    assert c != [] ==> s[1] == c[0];
  }

  /** The third bit of the first octet tells a constructed value from a primitive one. */
  lemma {:induction false} FormBit(tclass: nat, form: nat, low: nat)
    requires tclass < 4 && form < 2 && low < 32
    ensures Constructed(64 * tclass + 32 * form + low) <==> form == 1
  {
    assert (64 * tclass + 32 * form + low) / 32 == 2 * tclass + form;
  }

  /** So whatever is accepted is a 32-bit tag: a number below 2^30 and one of four classes. */
  lemma {:induction false} TagBound(b: seq<byte>)
    requires FetchTag(b).Got?
    ensures b != [] && 0 <= FetchTag(b).value < 0x1_0000_0000 && FetchTag(b).value % 4 == b[0] / 64
  {
    hide FetchTag, SevenBits;
    SomeOctet(b);
    if b[0] % 32 < 31 {
      ShortTagExact(b);
      ClassKept(b[0] % 32, b[0] / 64);
    } else {
      var n := TagEnd(b);
      if n > |b| {
        UnfinishedTag(b);
        assert false;
      }
      LongTagExact(b, n);
      ClassKept(SevenBits(b[1..n]), b[0] / 64);
    }
  }

  lemma {:induction false} SomeOctet(b: seq<byte>)
    requires FetchTag(b).Got?
    ensures b != []
  {
  }

  lemma {:induction false} ClassKept(number: nat, tclass: nat)
    requires tclass < 4
    ensures (4 * number + tclass) % 4 == tclass
  {
  }

  /** Where the octets of a tag in the long form end, or one past the input. */
  lemma {:induction false} TagEnd(b: seq<byte>) returns (n: nat)
    requires b != [] && b[0] % 32 == 31
    ensures LongTag(b, n) || (n == |b| + 1 && forall i :: 1 <= i < |b| ==> b[i] >= 128)
  {
    n := 2;
    while n <= |b| && b[n - 1] >= 128
      invariant 2 <= n <= |b| + 1 && forall i :: 1 <= i < n - 1 ==> b[i] >= 128
      decreases |b| + 1 - n
    {
      n := n + 1;
    }
  }

  // ---- Length octets ----

  lemma {:induction false} OneMoreOctetRead(b: seq<byte>, i: nat)
    requires 1 <= i < |b|
    ensures BigEndian(b[1..i + 1]) == 256 * BigEndian(b[1..i]) + b[i]
  {
    assert b[1..i + 1][..i - 1] == b[1..i];
  }

  lemma {:induction false} LengthReached(constructed: bool, b: seq<byte>, i: nat)
    requires 1 <= i <= |b| && 0x80 <= b[0] < 0xFF && (b[0] == 0x80 ==> !constructed)
    requires i - 1 <= b[0] - 0x80 && (i > 1 ==> BigEndian(b[1..i - 1]) < 0x80_0000_0000_0000)
    ensures FetchLength(constructed, b) == LengthTail(b, i, b[0] - 0x80 - (i - 1), BigEndian(b[1..i]))
    decreases i
  {
    if i == 1 {
      assert b[1..1] == [];
    } else {
      OneMoreOctetRead(b, i - 1);
      if i > 2 {
        OneMoreOctetRead(b, i - 2);
      }
      LengthReached(constructed, b, i - 1);
    }
  }

  lemma {:induction false} LengthTooLarge(constructed: bool, b: seq<byte>, i: nat)
    requires 1 <= i < |b| && 0x80 <= b[0] < 0xFF && (b[0] == 0x80 ==> !constructed)
    requires i <= b[0] - 0x80 && BigEndian(b[1..i]) >= 0x80_0000_0000_0000
    ensures FetchLength(constructed, b) == Bad
    decreases i
  {
    if i == 1 {
      assert false;
    }
    OneMoreOctetRead(b, i - 1);
    if BigEndian(b[1..i - 1]) < 0x80_0000_0000_0000 {
      LengthReached(constructed, b, i);
    } else {
      LengthTooLarge(constructed, b, i - 1);
    }
  }

  /**
    A length in the long form, with all its octets there: accepted exactly when the number they make is
    below 2^62, and then read as that number; 255 as the first octet is never accepted.
   */
  lemma {:induction false} LongLengthExact(constructed: bool, b: seq<byte>)
    requires b != [] && b[0] > 0x80 && (b[0] == 0xFF || |b| >= 1 + b[0] - 0x80)
    ensures FetchLength(constructed, b)
            == if b[0] == 0xFF || BigEndian(b[1..b[0] - 0x7F]) > 0x3FFF_FFFF_FFFF_FFFF then Bad
               else Got(b[0] - 0x7F, BigEndian(b[1..b[0] - 0x7F]))
  {
    hide FetchLength;
    if b[0] == 0xFF {
      NeverAccepted(constructed, b);
    } else {
      var n := b[0] - 0x80;
      OneMoreOctetRead(b, n);
      if BigEndian(b[1..n]) < 0x80_0000_0000_0000 {
        LengthReached(constructed, b, n + 1);
      } else {
        LengthTooLarge(constructed, b, n);
      }
    }
  }

  lemma {:induction false} NeverAccepted(constructed: bool, b: seq<byte>)
    requires b != [] && b[0] == 0xFF
    ensures FetchLength(constructed, b) == Bad
  {
  }

  /** In the short form the octet is the length; 128 is the indefinite form, or in a primitive value the length 0. */
  lemma ShortLengthExact(constructed: bool, b: seq<byte>)
    requires b != [] && b[0] <= 0x80
    ensures FetchLength(constructed, b) == Got(1, if b[0] < 0x80 then b[0] else if constructed then -1 else 0)
  {
  }
}
