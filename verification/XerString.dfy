/**
  OCTET STRING and BIT STRING as XML text: hexadecimal, or zeros and ones, and the converters
  that take such text in chunks.
 */
module XerString {
  import opened Bits
  import opened Options
  import opened BitInput
  import opened PerSupport
  import opened XerInteger
  import opened BitString
  import opened BitStringUper

  predicate IsBlank(c: char) {
    c == '\t' || c == '\n' || c == '\U{0C}' || c == '\r' || c == ' '
  }

  /** A text without its blanks. */
  function Dense(t: string): string {
    if t == [] then [] else Dense(t[..|t| - 1]) + (if IsBlank(t[|t| - 1]) then [] else [t[|t| - 1]])
  }

  lemma {:induction false} DenseSnoc(t: string, c: char)
    ensures Dense(t + [c]) == Dense(t) + if IsBlank(c) then [] else [c]
  {
    assert (t + [c])[..|t|] == t;
  }

  lemma {:induction false} DenseConcat(a: string, b: string)
    ensures Dense(a + b) == Dense(a) + Dense(b)
  {
    if b == [] {
      assert a + b == a;
    } else {
      DenseConcat(a, b[..|b| - 1]);
      assert (a + b)[..|a + b| - 1] == a + b[..|b| - 1];
    }
  }

  // ---- Hexadecimal ----

  /** How far a text has been converted: whole octets, a digit left over, and where the last whole octet ended. */
  datatype HexScan = HexScan(octets: seq<byte>, half: Option<nat>, stop: nat) | BadText

  function AddDigit(h: HexScan, d: nat, at: nat): HexScan
    requires d < 16 && h.HexScan?
  {
    if h.half.Some? then HexScan(h.octets + [(16 * h.half.value + d) % 256], None, at)
    else HexScan(h.octets, Some(d), h.stop)
  }

  function Scan(t: string): HexScan {
    if t == [] then HexScan([], None, 0)
    else
      var h, c := Scan(t[..|t| - 1]), t[|t| - 1];
      if h.BadText? then BadText
      else if IsBlank(c) then h
      else if IsHex(c) then AddDigit(h, HexValue(c), |t|)
      else BadText
  }

  lemma {:induction false} ScanSnoc(t: string, c: char)
    ensures Scan(t + [c]) ==
              var h := Scan(t);
              if h.BadText? then BadText
              else if IsBlank(c) then h
              else if IsHex(c) then AddDigit(h, HexValue(c), |t| + 1)
              else BadText
  {
    assert (t + [c])[..|t|] == t;
  }

  lemma {:induction false} StopWithin(t: string)
    ensures Scan(t).HexScan? ==> Scan(t).stop <= |t|
  {
    if t != [] {
      StopWithin(t[..|t| - 1]);
    }
  }

  /** The text after the last whole octet holds just the digit left over. */
  lemma {:induction false} Leftover(t: string)
    requires Scan(t).HexScan?
    ensures Scan(t).stop <= |t| && Scan(t[Scan(t).stop..]) == HexScan([], Scan(t).half, 0)
  {
    hide HexValue;
    StopWithin(t);
    if t != [] {
      var u, c := t[..|t| - 1], t[|t| - 1];
      var k := Scan(t).stop;
      if k == |t| {
        assert t[k..] == [];
        assert Scan([]) == HexScan([], None, 0);
        StopWithin(u);
      } else {
        Leftover(u);
        assert t[k..] == u[k..] + [c];
        ScanSnoc(u[k..], c);
      }
    }
  }

  /** What was converted and what is converted when the rest is presented again, together. */
  function Join(h: HexScan, g: HexScan): HexScan {
    if h.HexScan? && g.HexScan? then HexScan(h.octets + g.octets, g.half, h.stop + g.stop) else BadText
  }

  /** Converting a text with its unconverted end presented again before more text is converting it whole. */
  lemma {:induction false} Represented(t: string, more: string)
    requires Scan(t).HexScan?
    ensures Scan(t).stop <= |t| && Scan(t + more) == Join(Scan(t), Scan(t[Scan(t).stop..] + more))
    decreases |more|
  {
    hide HexValue, Scan;
    Leftover(t);
    var k := Scan(t).stop;
    if more == [] {
      assert t + more == t && t[k..] + more == t[k..];
    } else {
      var m, c := more[..|more| - 1], more[|more| - 1];
      Represented(t, m);
      assert t + more == t + m + [c] && t[k..] + more == t[k..] + m + [c];
      ScanSnoc(t + m, c);
      ScanSnoc(t[k..] + m, c);
      if Scan(t[k..] + m).HexScan? && IsHex(c) {
        JoinStep(Scan(t), Scan(t[k..] + m), c, |t + m| + 1, |t[k..] + m| + 1);
      }
    }
  }

  lemma {:induction false} JoinStep(h: HexScan, g: HexScan, c: char, at: nat, at': nat)
    requires h.HexScan? && at == h.stop + at' && g.HexScan? && IsHex(c)
    ensures AddDigit(Join(h, g), HexValue(c), at) == Join(h, AddDigit(g, HexValue(c), at'))
  {
    hide HexValue;
    if g.half.Some? {
      var x := (16 * g.half.value + HexValue(c)) % 256;
      assert h.octets + g.octets + [x] == h.octets + (g.octets + [x]);
    }
  }

  /** The octets converted and the number of characters taken, or None; `last` is the source's have_more. */
  function ConvertHex(chunk: string, last: bool): Option<(seq<byte>, nat)> {
    var h := Scan(chunk);
    if h.BadText? then None
    else if h.half.None? then Some((h.octets, |chunk|))
    else if last then Some((h.octets + [16 * h.half.value % 256], |chunk|))
    else Some((h.octets, h.stop))
  }

  /** OCTET_STRING__convert_hexadecimal: what is appended, within the estimate of one octet per two characters. */
  method ConvertHexadecimal(st: seq<byte>, chunk: string, last: bool) returns (st': seq<byte>, rc: int)
    ensures var r := ConvertHex(chunk, last);
            if r.Some? then st' == st + r.value.0 && rc == r.value.1 else st' == st && rc == -1
    ensures |st'| <= |st| + (|chunk| + 1) / 2
  {
    hide HexValue, IsBlank, IsHex, Scan;
    var buf: seq<byte>, clv, half, stop, p := [], 0, false, 0, 0;
    assert Scan(chunk[..0]) == HexScan([], None, 0) by { ScanNothing(chunk[..0]); }
    while p < |chunk|
      invariant 0 <= p <= |chunk| && 2 * |buf| + (if half then 1 else 0) <= p && 0 <= stop
      invariant Scan(chunk[..p]) == HexScan(buf, if half then Some(clv % 16) else None, stop)
      invariant 0 <= clv && (half ==> clv < 16)
    {
      var ch := chunk[p];
      assert chunk[..p + 1] == chunk[..p] + [ch];
      ScanSnoc(chunk[..p], ch);
      if !IsBlank(ch) {
        if !IsHex(ch) {
          BadStays(chunk, p + 1);
          return st, -1;
        }
        clv := (if half then 16 * clv else 0) + HexValue(ch);
        if half {
          buf := buf + [clv % 256];
          half := false;
          stop := p + 1;
        } else {
          half := true;
        }
      }
      p := p + 1;
    }
    assert chunk[..p] == chunk;
    if half {
      if last {
        buf := buf + [16 * clv % 256];
        stop := p;
      }
    } else {
      stop := p;
    }
    st', rc := st + buf, stop;
  }

  lemma {:induction false} ScanNothing(none: string)
    requires none == []
    ensures Scan(none) == HexScan([], None, 0)
  {
  }

  lemma {:induction false} BadStays(t: string, i: nat)
    requires i <= |t| && Scan(t[..i]).BadText?
    ensures Scan(t).BadText?
    decreases |t|
  {
    if i == |t| {
      assert t[..i] == t;
    } else {
      assert t[..|t| - 1][..i] == t[..i];
      BadStays(t[..|t| - 1], i);
    }
  }

  /** Pieces converted one after the other, what is left of each presented again with the next. */
  function FeedHex(pending: string, pieces: seq<string>): Option<seq<byte>>
    decreases |pieces|
  {
    if pieces == [] then
      var r := ConvertHex(pending, true);
      if r.Some? then Some(r.value.0) else None
    else
      var r := ConvertHex(pending + pieces[0], false);
      if r.None? || r.value.1 > |pending + pieces[0]| then None
      else
        var more := FeedHex((pending + pieces[0])[r.value.1..], pieces[1..]);
        if more.Some? then Some(r.value.0 + more.value) else None
  }

  function Text(pieces: seq<string>): string {
    if pieces == [] then [] else pieces[0] + Text(pieces[1..])
  }

  /** Any split of a valid text gives the octets of the whole. */
  lemma {:induction false} FeedHexAnySplit(pending: string, pieces: seq<string>)
    requires Scan(pending + Text(pieces)).HexScan?
    ensures FeedHex(pending, pieces).Some?
    ensures FeedHex(pending, pieces).value == ConvertHex(pending + Text(pieces), true).value.0
    decreases |pieces|
  {
    hide Scan;
    if pieces == [] {
      assert pending + [] == pending;
    } else {
      var t, more := pending + pieces[0], Text(pieces[1..]);
      assert pending + Text(pieces) == t + more;
      assert Scan(t).HexScan? by { GoodPrefix(t, more); }
      Leftover(t);
      Represented(t, more);
      var k := if Scan(t).half.None? then |t| else Scan(t).stop;
      if Scan(t).half.None? {
        WholeOctets(t, more);
      }
      FeedHexAnySplit(t[k..], pieces[1..]);
      JoinHex(t, more, k);
    }
  }

  lemma {:induction false} GoodPrefix(t: string, more: string)
    requires Scan(t + more).HexScan?
    ensures Scan(t).HexScan?
  {
    assert (t + more)[..|t|] == t;
    if Scan(t).BadText? {
      BadStays(t + more, |t|);
    }
  }

  /** Without a digit left over the rest is blank, so nothing needs to be presented again. */
  lemma {:induction false} WholeOctets(t: string, more: string)
    requires Scan(t).HexScan? && Scan(t).half.None? && Scan(t + more).HexScan?
    ensures Scan(t[|t|..] + more).HexScan? && Scan(t + more).octets == Scan(t).octets + Scan(t[|t|..] + more).octets
    ensures Scan(t + more).half == Scan(t[|t|..] + more).half
    decreases |more|
  {
    hide HexValue, Scan;
    assert t[|t|..] + more == more;
    if more == [] {
      ScanNothing(more);
      assert t + more == t;
      assert Scan(t).octets + [] == Scan(t).octets;
    } else {
      var m, c := more[..|more| - 1], more[|more| - 1];
      assert t + more == t + m + [c] && more == m + [c];
      GoodPrefix(t + m, [c]);
      WholeOctets(t, m);
      assert t[|t|..] + m == m;
      ScanSnoc(t + m, c);
      ScanSnoc(m, c);
      if Scan(m).half.Some? && IsHex(c) {
        var x := (16 * Scan(m).half.value + HexValue(c)) % 256;
        assert Scan(t).octets + Scan(m).octets + [x] == Scan(t).octets + (Scan(m).octets + [x]);
      }
    }
  }

  lemma {:induction false} JoinHex(t: string, more: string, k: nat)
    requires Scan(t).HexScan? && k <= |t| && Scan(t[k..] + more).HexScan? && Scan(t + more).HexScan?
    requires Scan(t + more).octets == Scan(t).octets + Scan(t[k..] + more).octets
    requires Scan(t + more).half == Scan(t[k..] + more).half
    ensures ConvertHex(t + more, true).value.0 == Scan(t).octets + ConvertHex(t[k..] + more, true).value.0
  {
    hide Scan;
    var h := Scan(t + more);
    if h.half.Some? {
      var x := 16 * h.half.value % 256;
      assert h.octets + [x] == Scan(t).octets + (Scan(t[k..] + more).octets + [x]);
    }
  }

  // ---- Hexadecimal round trip ----

  /** The digits of octets, without blanks. */
  function HexDigits(b: seq<byte>): (s: string)
    ensures |s| == 2 * |b|
  {
    if b == [] then [] else HexDigits(b[..|b| - 1]) + Pair(b[|b| - 1])
  }

  /** Blanks make no difference to what is converted. */
  lemma {:induction false} BlanksIgnored(t: string)
    ensures Scan(Dense(t)).HexScan? <==> Scan(t).HexScan?
    ensures Scan(t).HexScan? ==> Scan(Dense(t)).octets == Scan(t).octets && Scan(Dense(t)).half == Scan(t).half
  {
    hide HexValue, IsHex;
    if t != [] {
      var u, c := t[..|t| - 1], t[|t| - 1];
      BlanksIgnored(u);
      if IsBlank(c) {
        assert Dense(u) + [] == Dense(u);
      } else {
        ScanSnoc(Dense(u), c);
      }
    }
  }

  lemma {:induction false} HexDigitsBack(b: seq<byte>)
    ensures Scan(HexDigits(b)) == HexScan(b, None, 2 * |b|)
  {
    hide HexValue, HexChar, IsBlank, IsHex;
    if b != [] {
      var c, v := b[..|b| - 1], b[|b| - 1];
      HexDigitsBack(c);
      HexCharBack(v / 16);
      HexCharBack(v % 16);
      NotBlank(v / 16);
      NotBlank(v % 16);
      var t := HexDigits(c);
      assert HexDigits(b) == t + [HexChar(v / 16)] + [HexChar(v % 16)];
      ScanSnoc(t, HexChar(v / 16));
      ScanSnoc(t + [HexChar(v / 16)], HexChar(v % 16));
      assert (16 * (v / 16) + v % 16) % 256 == v;
      assert b == c + [v];
    }
  }

  lemma {:induction false} NotBlank(n: nat)
    requires n < 16
    ensures !IsBlank(HexChar(n))
  {
  }

  /**
    However the digits of octets are laid out between blanks, and in whatever pieces they come, the
    octets come back.
   */
  lemma {:induction false} HexRoundTrip(b: seq<byte>, pieces: seq<string>)
    requires Dense(Text(pieces)) == HexDigits(b)
    ensures FeedHex("", pieces) == Some(b)
  {
    hide Scan, Dense, HexDigits;
    var t := Text(pieces);
    HexDigitsBack(b);
    BlanksIgnored(t);
    assert "" + t == t;
    FeedHexAnySplit("", pieces);
  }

  /** OCTET_STRING_encode_xer: `margin` is a new line and the indentation. */
  method EncodeHex(b: seq<byte>, canonical: bool, margin: string, outer: string) returns (text: string)
    requires Dense(margin) == [] && Dense(outer) == []
    ensures Dense(text) == HexDigits(b)
    ensures canonical ==> text == HexDigits(b)
  {
    hide Dense, Pair, HexDigits;
    text := [];
    var scratch, i := [], 0;
    assert Dense([]) == [] && HexDigits(b[..0]) == [] by { NothingDense(b[..0]); }
    assert text + scratch == [];
    while i < |b|
      invariant 0 <= i <= |b|
      invariant Dense(text + scratch) == HexDigits(b[..i])
      invariant canonical ==> text + scratch == HexDigits(b[..i])
      invariant !canonical && scratch != [] ==> scratch[|scratch| - 1] == ' '
    {
      ghost var before := text + scratch;
      if canonical {
        if |scratch| >= 50 {
          text, scratch := text + scratch, [];
        }
      } else if i % 16 == 0 && (i > 0 || |b| > 16) {
        DenseConcat(text + scratch, margin);
        text, scratch := text + scratch + margin, [];
      }
      assert text + scratch == before || (!canonical && text + scratch == before + margin);
      OnePair(text + scratch, b, i, canonical);
      ghost var pair := Pair(b[i]) + if canonical then "" else " ";
      assert text + scratch + pair == text + (scratch + Pair(b[i]) + if canonical then "" else " ");
      scratch := scratch + Pair(b[i]) + if canonical then "" else " ";
      i := i + 1;
    }
    assert b[..i] == b;
    if !canonical && |scratch| > 0 {
      DropBlank(text, scratch);
      scratch := scratch[..|scratch| - 1];
      text, scratch := text + scratch, [];
      if |b| > 16 {
        DenseConcat(text, outer);
        text := text + outer;
      }
      assert text + scratch == text;
    }
    text := text + scratch;
  }

  lemma {:induction false} NothingDense(none: seq<byte>)
    requires none == []
    ensures Dense([]) == [] && HexDigits(none) == []
  {
  }

  lemma {:induction false} OnePair(t: string, b: seq<byte>, i: nat, canonical: bool)
    requires i < |b| && Dense(t) == HexDigits(b[..i])
    ensures var pair := Pair(b[i]) + if canonical then "" else " ";
            Dense(t + pair) == HexDigits(b[..i + 1])
    ensures t == HexDigits(b[..i]) && canonical ==> t + Pair(b[i]) == HexDigits(b[..i + 1])
  {
    hide Dense, Pair;
    var pair := Pair(b[i]) + if canonical then "" else " ";
    assert b[..i + 1][..i] == b[..i];
    DenseConcat(t, pair);
    PairDense(b[i]);
    assert Pair(b[i]) + "" == Pair(b[i]);
  }

  lemma {:induction false} PairDense(v: byte)
    ensures Dense(Pair(v)) == Pair(v) && Dense(Pair(v) + " ") == Pair(v)
  {
    hide HexChar, IsBlank, Dense;
    NotBlank(v / 16);
    NotBlank(v % 16);
    BlankSpace();
    NothingDense([]);
    var x, y := HexChar(v / 16), HexChar(v % 16);
    DenseSnoc([], x);
    DenseSnoc([x], y);
    DenseSnoc([x, y], ' ');
    assert [] + [x] == [x] && [x] + [y] == Pair(v) && [x, y] + [' '] == Pair(v) + " " && Pair(v) + [] == Pair(v);
  }

  lemma {:induction false} BlankSpace()
    ensures IsBlank(' ')
  {
  }

  lemma {:induction false} DropBlank(text: string, scratch: string)
    requires scratch != [] && scratch[|scratch| - 1] == ' '
    ensures Dense(text + scratch[..|scratch| - 1]) == Dense(text + scratch)
  {
    assert (text + scratch)[..|text + scratch| - 1] == text + scratch[..|scratch| - 1];
    assert Dense(text + scratch) == Dense(text + scratch[..|scratch| - 1]) + [];
  }

  // ---- Zeros and ones ----

  /** The bits in a text, or None when there is anything else in it but blanks. */
  function BitsIn(t: string): Option<seq<bool>> {
    if t == [] then Some([])
    else
      var s, c := BitsIn(t[..|t| - 1]), t[|t| - 1];
      if s.None? || IsBlank(c) then s
      else if c == '0' || c == '1' then Some(s.value + [c == '1'])
      else None
  }

  /** One more bit in the last octet, or in a new one. */
  function AddBit(st: BitStr, bit: bool): BitStr {
    if st.unused == 0 || st.buf == [] then BitStr(st.buf + [if bit then 0x80 else 0], 7)
    else
      var last := st.buf[|st.buf| - 1];
      BitStr(st.buf[..|st.buf| - 1] + [(last + if bit then Pow2(st.unused - 1) else 0) % 256], st.unused - 1)
  }

  lemma {:induction false} AddBitPacks(s: seq<bool>, bit: bool)
    ensures AddBit(Pack(s), bit) == Pack(s + [bit])
  {
    hide Pack, AddBit;
    PackBits(s);
    if |s| % 8 == 0 {
      AddFirst(s, bit);
    } else {
      AddLater(s, bit);
    }
  }

  lemma {:induction false} AddFirst(s: seq<bool>, bit: bool)
    requires |s| % 8 == 0
    ensures AddBit(Pack(s), bit) == Pack(s + [bit])
  {
    hide FromBits, BytesToBits, ToBits, Pow2, Zeros, Val;
    PackMore(s, [bit]);
    assert Pack(s).unused == 0;
    var v: byte := if bit then 0x80 else 0;
    assert Pack([bit]).buf == [v] by { OneBitOctet(bit); }
  }

  lemma {:induction false} OneBitOctet(bit: bool)
    ensures Pack([bit]).buf == [if bit then 0x80 else 0]
  {
    hide FromBits, BytesToBits, ToBits, Pow2, Zeros, Val;
    var v: byte := if bit then 0x80 else 0;
    assert Padding(1) == 7;
    LeadingBit(bit);
    BytesToBitsOne(v);
    FromBitsOf([v]);
  }

  lemma {:induction false} LeadingBit(bit: bool)
    ensures ToBits(if bit then 0x80 else 0, 8) == [bit] + Zeros(7)
  {
    hide ToBits, Val, Pow2;
    var x := [bit] + Zeros(7);
    ValConcat([bit], Zeros(7));
    ZerosVal(7);
    assert Pow2(7) == 0x80 by { Pow2Small(); Pow2Add(3, 4); }
    ValSnoc([], bit);
    assert [] + [bit] == [bit] && Val([]) == 0 by { EmptyVal(); }
    ToBitsVal(x);
  }

  /** Setting a bit that was zero padding. */
  lemma {:induction false} SetPadding(a: seq<bool>, k: nat, bit: bool)
    requires k >= 1
    ensures Val(a + [bit] + Zeros(k - 1)) == Val(a + Zeros(k)) + if bit then Pow2(k - 1) else 0
  {
    hide Val, Pow2;
    assert a + [false] + Zeros(k - 1) == a + Zeros(k);
    ValConcat(a + [bit], Zeros(k - 1));
    ValConcat(a + [false], Zeros(k - 1));
    ValSnoc(a, bit);
    ValSnoc(a, false);
    var p := Pow2(k - 1);
    assert (2 * Val(a) + 1) * p == 2 * Val(a) * p + p;
  }

  lemma {:induction false} AddLater(s: seq<bool>, bit: bool)
    requires |s| % 8 != 0
    ensures AddBit(Pack(s), bit) == Pack(s + [bit])
  {
    hide FromBits, BytesToBits, ToBits, Pow2, Zeros, Val, AddBit;
    var w := |s| / 8 * 8;
    var head, tail := s[..w], s[w..];
    assert s == head + tail && s + [bit] == head + (tail + [bit]);
    PackMore(head, tail);
    PackMore(head, tail + [bit]);
    OctetGrows(tail, bit);
    SplitAdd(Pack(head).buf, Pack(tail), bit);
  }

  lemma {:induction false} SplitAdd(front: seq<byte>, st: BitStr, bit: bool)
    requires |st.buf| == 1 && st.unused > 0
    ensures AddBit(BitStr(front + st.buf, st.unused), bit)
          == BitStr(front + AddBit(st, bit).buf, AddBit(st, bit).unused)
  {
    hide Pow2;
    assert (front + st.buf)[..|front|] == front;
  }

  /** A partial octet with one more bit. */
  lemma {:induction false} OctetGrows(s: seq<bool>, bit: bool)
    requires 0 < |s| < 8
    ensures |Pack(s).buf| == 1 && Pack(s).unused > 0 && AddBit(Pack(s), bit) == Pack(s + [bit])
  {
    hide BytesToBits, ToBits, Pow2, Zeros, Val, FromBits, Padding;
    var k := 8 - |s|;
    var x, y := s + Zeros(k), s + [bit] + Zeros(k - 1);
    OneOctetPadding(|s|);
    OneOctetOf(x);
    OneOctetOf(y);
    SetPadding(s, k, bit);
    assert AddBit(BitStr([Val(x)], k), bit) == BitStr([Val(y)], k - 1) by { AddToOctet(Val(x), k, bit, Val(y)); }
  }

  lemma {:induction false} OneOctetPadding(n: nat)
    requires 0 < n < 8
    ensures Padding(n) == 8 - n && Padding(n + 1) == 7 - n
  {
    assert n % 8 == n;
  }

  lemma {:induction false} AddToOctet(x: byte, k: nat, bit: bool, y: byte)
    requires k > 0 && y == x + if bit then Pow2(k - 1) else 0
    ensures AddBit(BitStr([x], k), bit) == BitStr([y], k - 1)
  {
    hide Pow2;
    assert [x][..0] == [];
  }

  lemma {:induction false} OneOctetOf(s: seq<bool>)
    requires |s| == 8
    ensures Val(s) < 256 && FromBits(s) == [Val(s)]
  {
    hide Val, Pow2;
    ValBound(s);
    Pow2Values();
    assert Octets(Val(s) / 256, 0) == [];
  }

  /**
    OCTET_STRING__convert_binary: any text of zeros, ones and blanks is appended, from whatever
    position the last one ended at.
   */
  method ConvertBinary(st: BitStr, ghost s: seq<bool>, chunk: string) returns (st': BitStr, rc: int)
    requires st == Pack(s)
    ensures BitsIn(chunk).Some? ==> rc == |chunk| && st' == Pack(s + BitsIn(chunk).value)
    ensures BitsIn(chunk).None? ==> rc == -1
  {
    hide Pack, IsBlank, AddBit;
    st' := st;
    var p := 0;
    ghost var done: seq<bool> := [];
    assert BitsIn(chunk[..0]) == Some([]) && s + [] == s;
    while p < |chunk|
      invariant 0 <= p <= |chunk| && BitsIn(chunk[..p]) == Some(done) && st' == Pack(s + done)
    {
      var ch := chunk[p];
      assert chunk[..p + 1][..p] == chunk[..p];
      if !IsBlank(ch) {
        if ch != '0' && ch != '1' {
          BadBits(chunk, p + 1);
          return st', -1;
        }
        AddBitPacks(s + done, ch == '1');
        Associate(s, done, [ch == '1']);
        st' := AddBit(st', ch == '1');
        done := done + [ch == '1'];
      }
      p := p + 1;
    }
    assert chunk[..p] == chunk;
    rc := |chunk|;
  }

  lemma {:induction false} BadBits(t: string, i: nat)
    requires i <= |t| && BitsIn(t[..i]).None?
    ensures BitsIn(t).None?
    decreases |t|
  {
    if i == |t| {
      assert t[..i] == t;
    } else {
      assert t[..|t| - 1][..i] == t[..i];
      BadBits(t[..|t| - 1], i);
    }
  }

  /** Text converted piece by piece holds the bits of all the pieces. */
  lemma {:induction false} BitsInConcat(a: string, b: string)
    ensures BitsIn(a + b)
          == if BitsIn(a).Some? && BitsIn(b).Some? then Some(BitsIn(a).value + BitsIn(b).value) else None
  {
    if b == [] {
      assert a + b == a;
      assert BitsIn(a).Some? ==> BitsIn(a).value + [] == BitsIn(a).value;
    } else {
      var c, x := b[..|b| - 1], [b[|b| - 1] == '1'];
      BitsInConcat(a, c);
      assert (a + b)[..|a + b| - 1] == a + c;
      if BitsIn(a).Some? && BitsIn(c).Some? {
        Associate(BitsIn(a).value, BitsIn(c).value, x);
      }
    }
  }

  /** Bits converted piece by piece onto those converted before; an invalid piece is refused. */
  function FeedBits(s: seq<bool>, pieces: seq<string>): Option<seq<bool>>
    decreases |pieces|
  {
    if pieces == [] then Some(s)
    else if BitsIn(pieces[0]).None? then None
    else FeedBits(s + BitsIn(pieces[0]).value, pieces[1..])
  }

  /** Any split of a text is converted to the bits of the whole, and refused exactly when the whole is. */
  lemma {:induction false} FeedBinaryAnySplit(s: seq<bool>, pieces: seq<string>)
    ensures FeedBits(s, pieces)
         == if BitsIn(Text(pieces)).Some? then Some(s + BitsIn(Text(pieces)).value) else None
    decreases |pieces|
  {
    hide BitsIn;
    if pieces == [] {
      assert BitsIn([]) == Some([]) && s + [] == s by { NoBitsIn(); }
    } else {
      BitsInConcat(pieces[0], Text(pieces[1..]));
      if BitsIn(pieces[0]).Some? {
        var first := BitsIn(pieces[0]).value;
        FeedBinaryAnySplit(s + first, pieces[1..]);
        if BitsIn(Text(pieces[1..])).Some? {
          Associate(s, first, BitsIn(Text(pieces[1..])).value);
        }
      }
    }
  }

  lemma {:induction false} NoBitsIn()
    ensures BitsIn([]) == Some([])
  {
  }

  /** The converter called on one piece after the other. */
  method FeedBinary(pieces: seq<string>) returns (r: Option<BitStr>)
    ensures r == if BitsIn(Text(pieces)).Some? then Some(Pack(BitsIn(Text(pieces)).value)) else None
  {
    hide BitsIn, Pack;
    FeedBinaryAnySplit([], pieces);
    ghost var s: seq<bool>, goal := [], FeedBits([], pieces);
    assert goal.Some? ==> [] + BitsIn(Text(pieces)).value == BitsIn(Text(pieces)).value;
    var st := BitStr([], 0);
    EmptyPack();
    var i := 0;
    assert pieces[0..] == pieces;
    while i < |pieces|
      invariant 0 <= i <= |pieces| && st == Pack(s) && FeedBits(s, pieces[i..]) == goal
    {
      assert pieces[i..][0] == pieces[i] && pieces[i..][1..] == pieces[i + 1..];
      var rc;
      ghost var before := s;
      st, rc := ConvertBinary(st, s, pieces[i]);
      if rc < 0 {
        return None;
      }
      s := before + BitsIn(pieces[i]).value;
      i := i + 1;
    }
    r := Some(st);
  }

  /** The text of bits. */
  function BitText(s: seq<bool>): string {
    seq(|s|, i requires 0 <= i < |s| => if s[i] then '1' else '0')
  }

  lemma {:induction false} BitTextBack(s: seq<bool>)
    ensures BitsIn(BitText(s)) == Some(s)
  {
    if s != [] {
      BitTextBack(s[..|s| - 1]);
      assert BitText(s)[..|s| - 1] == BitText(s[..|s| - 1]);
      assert s == s[..|s| - 1] + [s[|s| - 1]];
    }
  }

  /** BIT_STRING_encode_xer in canonical form: all octets but the last by nibbles, the last bit by bit. */
  method EncodeBinary(st: BitStr) returns (text: string)
    requires st.Valid()
    ensures text == BitText(st.Bits())
  {
    hide BytesToBits, ToBits;
    text := [];
    var n := |st.buf|;
    if n == 0 {
      return;
    }
    var i := 0;
    ghost var all := BytesToBits(st.buf);
    while i < n - 1
      invariant 0 <= i <= n - 1 && text == BitText(all[..8 * i])
    {
      OctetSlice(st.buf, i);
      text := text + BitText(ToBits(st.buf[i], 8));
      i := i + 1;
    }
    OctetSlice(st.buf, n - 1);
    var bits := ToBits(st.buf[n - 1], 8)[..8 - st.unused];
    assert all[..8 * n] == all;
    TakeConcat(all[..8 * n - 8], ToBits(st.buf[n - 1], 8), 8 - st.unused);
    assert all[..8 * n - st.unused] == all[..8 * n - 8] + bits;
    text := text + BitText(bits);
  }

  lemma {:induction false} OctetSlice(b: seq<byte>, i: nat)
    requires i < |b|
    ensures BytesToBits(b)[..8 * (i + 1)] == BytesToBits(b)[..8 * i] + ToBits(b[i], 8)
  {
    hide ToBits, BytesToBits;
    BytesToBitsTake(b, i);
    BytesToBitsTake(b, i + 1);
    assert b[..i + 1] == b[..i] + [b[i]];
    BytesToBitsConcat(b[..i], [b[i]]);
    BytesToBitsOne(b[i]);
  }

  /** A bit string comes back from its text, with the bits beyond its end cleared. */
  method BinaryRoundTrip(st: BitStr) returns (back: BitStr)
    requires st.Valid()
    ensures back == Pack(st.Bits()) && back.Valid() && back.Bits() == st.Bits()
    ensures st.Clean() ==> back == st
  {
    hide BytesToBits, Pack, BitText, BitsIn;
    var text := EncodeBinary(st);
    var empty := BitStr([], 0);
    assert empty == Pack([]) by { EmptyPack(); }
    BitTextBack(st.Bits());
    var rc;
    back, rc := ConvertBinary(empty, [], text);
    assert [] + st.Bits() == st.Bits();
    PackBits(st.Bits());
    if st.Clean() {
      SameBits(back, st);
    }
  }

  lemma {:induction false} EmptyPack()
    ensures Pack([]) == BitStr([], 0)
  {
    PackNothing();
    assert Padding(0) == 0;
  }
}
