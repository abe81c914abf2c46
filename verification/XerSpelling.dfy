/**
  Which texts the XML converters take for which values, character by character: by their codes,
  and not by what the encoders happen to write.
 */
module XerSpelling {
  import opened Bits
  import opened Options
  import opened Integer
  import opened Numerals
  import opened BitString
  import opened BitStringUper
  import opened XerInteger
  import opened XerString

  // ---- INTEGER ----

  /** Tab, line feed, carriage return and space. */
  ghost predicate White(c: char) {
    c as int == 9 || c as int == 10 || c as int == 13 || c as int == 32
  }

  ghost predicate Whites(w: string) {
    forall i :: 0 <= i < |w| ==> White(w[i])
  }

  lemma {:induction false} SkipWhites(w: string, t: string)
    requires Whites(w) && (t == [] || !White(t[0]))
    ensures SkipSpaces(w + t) == t
  {
    if w == [] {
      assert w + t == t;
      SkipNone(t);
    } else {
      assert White(w[0]) && (w + t)[0] == w[0] && (w + t)[1..] == w[1..] + t;
      SkipWhites(w[1..], t);
    }
  }

  lemma {:induction false} WhitesOnly(w: string)
    requires Whites(w)
    ensures OnlySpaces(w)
  {
    forall i | 0 <= i < |w| ensures IsSpace(w[i]) {
      assert White(w[i]);
    }
  }

  /** A numeral between spaces of any kind. */
  lemma {:induction false} NumeralBody(n: string, w: string, w': string)
    requires Numeral(n) && Whites(w) && Whites(w')
    ensures BodyOf(w + n + w') == Decimal(n)
  {
    hide Numeral, BodyOf, Span, OnlySpaces, SkipSpaces;
    var text := w + n + w';
    NumeralFirst(n);
    SkipWhites(w, n + w');
    assert text == w + (n + w') && text[|w|..] == n + w' && text[|w|..|w| + |n|] == n && text[|w| + |n|..] == w';
    WhitesOnly(w');
    if w' != [] {
      assert White(w'[0]) && text[|w| + |n|] == w'[0];
    }
    NumeralThen(text, |w|, |n|);
  }

  lemma {:induction false} NumeralFirst(n: string)
    requires Numeral(n)
    ensures n != [] && !White(n[0])
  {
    NumeralStart(n);
  }

  /** Every number is read back from its decimal numeral, whatever tabs, line ends and spaces stand around it. */
  lemma {:induction false} DecimalRead(v: int, w: string, w': string)
    requires FitsSigned(v) && Whites(w) && Whites(w')
    ensures Parse(w + Print(v) + w') == Consumed(Contents(v)) && SignedVal(Contents(v)) == v
  {
    hide Print, Numeral, BodyOf, NumeralValue, Strtoimax, Contents, SignedVal, FitsSigned;
    PrintNumeral(v);
    NumeralBody(Print(v), w, w');
    StrtoimaxExact(Print(v));
    ContentsBack(v);
  }

  /** So is one that is not negative with a plus sign in front. */
  lemma {:induction false} PlusRead(v: nat, w: string, w': string)
    requires FitsSigned(v) && Whites(w) && Whites(w')
    ensures Parse(w + ("+" + Print(v)) + w') == Consumed(Contents(v)) && SignedVal(Contents(v)) == v
  {
    hide Digits, Num, BodyOf, Strtoimax, Contents, SignedVal, FitsSigned;
    var n := "+" + Print(v);
    NumDigits(v);
    assert n[1..] == Digits(v);
    hide Numeral, NumeralValue;
    NumeralBody(n, w, w');
    StrtoimaxExact(n);
    ContentsBack(v);
  }

  /** A number is printed with a minus sign or none and its digits, and no zero in front of them. */
  lemma {:induction false} PrintedShort(v: int)
    ensures Print(v) != [] && (Print(v)[0] == '-' <==> v < 0)
    ensures var ds := if v < 0 then Print(v)[1..] else Print(v);
            ds != [] && (ds[0] as int == 48 ==> |ds| == 1) && forall i :: 0 <= i < |ds| ==> 48 <= ds[i] as int <= 57
  {
    hide Digits;
    DigitsShape(if v < 0 then -v else v);
    assert v < 0 ==> Print(v)[1..] == Digits(-v);
  }

  lemma {:induction false} DigitsShape(n: nat)
    ensures var ds := Digits(n);
            && (n > 0 ==> ds[0] as int != 48) && (n == 0 ==> |ds| == 1)
            && forall i :: 0 <= i < |ds| ==> 48 <= ds[i] as int <= 57
  {
    if n >= 10 {
      DigitsShape(n / 10);
    }
  }

  /** A hexadecimal digit, in upper or lower case. */
  ghost predicate Spells(c: char, n: nat) {
    || (n < 10 && c as int == 48 + n)
    || (10 <= n < 16 && (c as int == 55 + n || c as int == 87 + n))
  }

  /** Pairs of digits with a colon between one and the next. */
  ghost predicate SpellsPairs(t: string, b: seq<byte>)
    decreases |b|
  {
    && b != [] && |t| >= 2 && Spells(t[0], b[0] / 16) && Spells(t[1], b[0] % 16)
    && if |b| == 1 then |t| == 2 else |t| >= 3 && t[2] == ':' && SpellsPairs(t[3..], b[1..])
  }

  lemma {:induction false} SpelledDigit(c: char, n: nat)
    requires Spells(c, n)
    ensures IsHex(c) && HexValue(c) == n && !IsSign(c) && (IsDigit(c) <==> n < 10)
    ensures !White(c) && !IsSpace(c) && c != ':' && !IsBlank(c)
  {
  }

  lemma {:induction false} PairsRead(out: seq<byte>, t: string, b: seq<byte>, w: string)
    requires SpellsPairs(t, b) && Whites(w)
    ensures HexPairs(out, t + w) == Hexadecimal(out + b)
    decreases |b|
  {
    hide Spells, OnlySpaces, HexValue, IsHex;
    SpelledDigit(t[0], b[0] / 16);
    SpelledDigit(t[1], b[0] % 16);
    var s := t + w;
    assert s[0] == t[0] && s[1..][0] == t[1] && s[1..][1..] == t[2..] + w;
    assert HexPairs(out, s) == HexMore(out + [b[0]], t[2..] + w);
    if |b| == 1 {
      assert t[2..] + w == w && b == [b[0]];
      WhitesOnly(w);
    } else {
      var more := t[2..] + w;
      assert more[0] == ':' && more[1..] == t[3..] + w;
      NotOnlySpaces(more, 0);
      PairsRead(out + [b[0]], t[3..], b[1..], w);
      assert out + [b[0]] + b[1..] == out + b;
    }
  }

  /**
    Octets spelled in pairs are read back, in either case and between any spaces, unless the text is a
    decimal numeral: a single pair without letters.
   */
  lemma {:induction false} HexadecimalRead(t: string, b: seq<byte>, w: string, w': string)
    requires SpellsPairs(t, b) && Whites(w) && Whites(w')
    ensures |b| > 1 || b[0] / 16 >= 10 || b[0] % 16 >= 10 ==> Parse(w + t + w') == Consumed(b)
    ensures |b| == 1 && b[0] / 16 < 10 && b[0] % 16 < 10 ==>
              Parse(w + t + w') == Consumed(Contents(10 * (b[0] / 16) + b[0] % 16))
  {
    hide Parse, Contents;
    assert w + t + w' == w + (t + w');
    SpelledDigit(t[0], b[0] / 16);
    if |b| == 1 && b[0] / 16 < 10 && b[0] % 16 < 10 {
      OnePairDecimal(t, b[0], w, w');
    } else {
      NotNumeral(t, b, w');
      SkipWhites(w, t + w');
      PairsRead([], t, b, w');
      assert [] + b == b;
      ByPairs(w + t + w', t + w', b);
    }
  }

  lemma {:induction false} ByPairs(text: string, t: string, b: seq<byte>)
    requires SkipSpaces(text) == t && t != [] && SignLength(t) == 0
    requires Span(t[0..]) > 0 ==> !OnlySpaces(t[0 + Span(t[0..])..])
    requires HexPairs([], t) == Hexadecimal(b)
    ensures Parse(text) == Consumed(b)
  {
    hide SkipSpaces, Span, OnlySpaces, HexPairs, IsSign;
  }

  /** Behind the digits such a text starts with comes a letter or a colon. */
  lemma {:induction false} NotNumeral(t: string, b: seq<byte>, w: string)
    requires SpellsPairs(t, b) && (|b| > 1 || b[0] / 16 >= 10 || b[0] % 16 >= 10)
    ensures var s := t + w; SignLength(s) == 0 && !OnlySpaces(s[0 + Span(s[0..])..])
  {
    hide Spells, HexValue, OnlySpaces, Span;
    var s := t + w;
    assert s[0..] == s && s[0] == t[0] && s[1] == t[1];
    SpelledDigit(t[0], b[0] / 16);
    SpelledDigit(t[1], b[0] % 16);
    var i := if b[0] / 16 >= 10 then 0 else if b[0] % 16 >= 10 then 1 else 2;
    assert !IsDigit(s[i]) && !IsSpace(s[i]);
    SpanBelow(s, i);
    assert s[Span(s)..][i - Span(s)] == s[i];
    NotOnlySpaces(s[Span(s)..], i - Span(s));
  }

  lemma {:induction false} OnePairDecimal(t: string, b: byte, w: string, w': string)
    requires SpellsPairs(t, [b]) && b / 16 < 10 && b % 16 < 10 && Whites(w) && Whites(w')
    ensures Parse(w + t + w') == Consumed(Contents(10 * (b / 16) + b % 16))
  {
    var v := 10 * (b / 16) + b % 16;
    assert t == [t[0], t[1]];
    assert Numeral(t) && NumeralValue(t) == v && FitsSigned(v) by {
      TwoDigits(t[0], t[1]);
      assert t[0..] == t;
    }
    hide Numeral, NumeralValue, Contents, BodyOf, Strtoimax, SpellsPairs;
    NumeralBody(t, w, w');
    StrtoimaxExact(t);
  }

  lemma {:induction false} TwoDigits(x: char, y: char)
    requires IsDigit(x) && IsDigit(y)
    ensures AllDigits([x, y]) && Num([x, y]) == 10 * DigitValue(x) + DigitValue(y)
  {
    assert [x, y][..1] == [x] && [x][..0] == [];
    assert Num([x]) == DigitValue(x);
  }

  /** A character that can stand in an INTEGER's text. */
  ghost predicate Usual(c: char) {
    White(c) || c == '+' || c == '-' || c == ':' || exists n :: 0 <= n < 16 && Spells(c, n)
  }

  lemma {:induction false} HexIsUsual(c: char)
    requires !Usual(c)
    ensures !IsHex(c) && !IsDigit(c) && !IsSpace(c) && !IsSign(c) && c != ':'
  {
    if IsHex(c) {
      var n := HexValue(c);
      assert Spells(c, n);
    }
  }

  /** A text with any other character in it is refused. */
  lemma {:induction false} ForeignRefused(text: string, i: nat)
    requires i < |text| && !Usual(text[i])
    ensures Parse(text) == BrokenEncoding
  {
    hide Usual, IsHex, IsSpace, IsDigit, IsSign, Span;
    HexIsUsual(text[i]);
    var t, k := Skipped(text, i);
    var sign := SignLength(t);
    SpanUpTo(t[sign..], k - sign);
    var n := Span(t[sign..]);
    assert t[sign + n..][k - sign - n] == t[k];
    NotOnlySpaces(t[sign + n..], k - sign - n);
    ForeignPairs([], t, k);
    assert BodyOf(text) == Broken by { NoNumeral(text, t); }
  }

  lemma {:induction false} NoNumeral(text: string, t: string)
    requires SkipSpaces(text) == t && t != [] && HexPairs([], t) == Broken
    requires !OnlySpaces(t[SignLength(t) + Span(t[SignLength(t)..])..])
    ensures BodyOf(text) == Broken
  {
    hide SkipSpaces, Span, OnlySpaces, HexPairs, IsSign;
  }

  lemma {:induction false} SpanUpTo(t: string, k: nat)
    requires k < |t| && !IsDigit(t[k])
    ensures Span(t) <= k
  {
    SpanBelow(t, k);
  }

  /** Where a character that is no space stands behind the leading ones. */
  lemma {:induction false} Skipped(text: string, i: nat) returns (t: string, k: nat)
    requires i < |text| && !IsSpace(text[i]) && !IsSign(text[i])
    ensures t == SkipSpaces(text) && k < |t| && t[k] == text[i] && SignLength(t) <= k
  {
    hide IsSpace, IsSign;
    if IsSpace(text[0]) {
      t, k := Skipped(text[1..], i - 1);
    } else {
      t, k := text, i;
    }
  }

  lemma {:induction false} ForeignPairs(out: seq<byte>, t: string, k: nat)
    requires k < |t| && !IsHex(t[k]) && !IsSpace(t[k]) && t[k] != ':'
    ensures HexPairs(out, t) == Broken
    decreases |t|
  {
    hide IsHex, IsSpace, HexValue;
    if IsHex(t[0]) && |t| > 1 && IsHex(t[1]) && k >= 2 {
      var more := t[1..][1..];
      assert more == t[2..] && more[k - 2] == t[k];
      NotOnlySpaces(more, k - 2);
      var out' := out + [16 * HexValue(t[0]) + HexValue(t[1])];
      assert HexPairs(out, t) == HexMore(out', more);
      if more[0] == ':' {
        assert k > 2 && more[1..][k - 3] == t[k];
        ForeignPairs(out', more[1..], k - 3);
      }
    }
  }

  // ---- Any text of an INTEGER ----

  /** A sign or none, and digits. */
  ghost predicate SpelledNumeral(n: string) {
    var k := if n != [] && (n[0] == '+' || n[0] == '-') then 1 else 0;
    k < |n| && forall i :: k <= i < |n| ==> 48 <= n[i] as int <= 57
  }

  /** The text `x` with nothing but spaces of any kind around it. */
  ghost predicate Around(text: string, x: string) {
    exists w, w' :: Whites(w) && Whites(w') && text == w + x + w'
  }

  lemma {:induction false} NumeralIs(n: string)
    ensures SpelledNumeral(n) <==> Numeral(n)
  {
    var k := SignLength(n);
    if Numeral(n) {
      forall i | k <= i < |n| ensures 48 <= n[i] as int <= 57 {
        assert IsDigit(n[k..][i - k]);
      }
    }
  }

  lemma {:induction false} SpacesFirst(text: string) returns (w: string)
    ensures Whites(w) && text == w + SkipSpaces(text)
  {
    w := [];
    if text != [] && IsSpace(text[0]) {
      var v := SpacesFirst(text[1..]);
      w := [text[0]] + v;
      assert text == [text[0]] + text[1..];
    }
  }

  lemma {:induction false} SpacesAre(t: string)
    ensures OnlySpaces(t) <==> Whites(t)
  {
    if OnlySpaces(t) {
      forall i | 0 <= i < |t| ensures White(t[i]) {
        assert IsSpace(t[i]);
      }
    }
    if Whites(t) {
      WhitesOnly(t);
    }
  }

  lemma {:induction false} NothingExactly(text: string)
    ensures BodyOf(text) == NoBody <==> Whites(text)
  {
    hide HexPairs, Span, OnlySpaces;
    var w := SpacesFirst(text);
    if SkipSpaces(text) == [] {
      assert text == w;
    } else {
      var c := SkipSpaces(text)[0];
      assert text[|w|] == c && !IsSpace(c);
      NeverNothing(text);
      assert !White(c);
    }
  }

  lemma {:induction false} NeverNothing(text: string)
    requires SkipSpaces(text) != []
    ensures BodyOf(text) != NoBody
  {
    hide SkipSpaces, Span, OnlySpaces, IsSign;
    PairsOrBroken([], SkipSpaces(text));
  }

  lemma {:induction false} PairsOrBroken(out: seq<byte>, t: string)
    ensures HexPairs(out, t).Broken? || HexPairs(out, t).Hexadecimal?
    decreases |t|
  {
    hide IsHex, HexValue, OnlySpaces;
    if t != [] && IsHex(t[0]) && |t| > 1 && IsHex(t[1]) {
      var more := t[1..][1..];
      var out' := out + [16 * HexValue(t[0]) + HexValue(t[1])];
      assert HexPairs(out, t) == HexMore(out', more);
      if !OnlySpaces(more) {
        NotEmpty(more);
        PairsOrBroken(out', more[1..]);
      }
    }
  }

  lemma {:induction false} NotEmpty(t: string)
    requires !OnlySpaces(t)
    ensures t != []
  {
  }

  lemma {:induction false} DecimalExactly(text: string, n: string)
    ensures BodyOf(text) == Decimal(n) <==> SpelledNumeral(n) && Around(text, n)
  {
    NumeralIs(n);
    hide SpelledNumeral, HexPairs, Span, OnlySpaces, SkipSpaces, Numeral;
    if BodyOf(text) == Decimal(n) {
      var w := SpacesFirst(text);
      PairsOrBroken([], SkipSpaces(text));
      var t := SkipSpaces(text);
      DecimalCut(text, n);
      SpacesAre(t[|n|..]);
      assert text == w + n + t[|n|..] by { assert t == n + t[|n|..]; }
    }
    if SpelledNumeral(n) && Around(text, n) {
      var w, w' :| Whites(w) && Whites(w') && text == w + n + w';
      NumeralBody(n, w, w');
    }
  }

  lemma {:induction false} DecimalCut(text: string, n: string)
    requires BodyOf(text) == Decimal(n)
    ensures var t := SkipSpaces(text); n <= t && Numeral(n) && OnlySpaces(t[|n|..])
  {
    hide SkipSpaces, OnlySpaces, IsSign, HexPairs;
    var t := SkipSpaces(text);
    PairsOrBroken([], t);
    var k := SignLength(t);
    var m := Span(t[k..]);
    SignStays(t, k + m);
    assert n[k..] == t[k..][..m];
  }

  lemma {:induction false} SignStays(t: string, j: nat)
    requires SignLength(t) < j <= |t|
    ensures SignLength(t[..j]) == SignLength(t)
  {
  }

  /** Pairs that have been read, and what stood behind them. */
  lemma {:induction false} PairsThere(out: seq<byte>, t: string) returns (p: string, b: seq<byte>, w: string)
    requires HexPairs(out, t).Hexadecimal?
    ensures t == p + w && SpellsPairs(p, b) && Whites(w) && HexPairs(out, t) == Hexadecimal(out + b)
    decreases |t|
  {
    hide IsHex, HexValue, OnlySpaces, Spells;
    var o: byte := 16 * HexValue(t[0]) + HexValue(t[1]);
    OctetSpelled(t[0], t[1]);
    var more := t[1..][1..];
    assert more == t[2..];
    assert HexPairs(out, t) == HexMore(out + [o], more);
    if OnlySpaces(more) {
      p, b, w := t[..2], [o], more;
      SpacesAre(more);
    } else {
      NotEmpty(more);
      var q, c, v := PairsThere(out + [o], more[1..]);
      p, b, w := t[..3] + q, [o] + c, v;
      assert out + [o] + c == out + ([o] + c);
      assert t == t[..3] + more[1..] && p[3..] == q && b[1..] == c;
    }
  }

  lemma {:induction false} OctetSpelled(x: char, y: char)
    requires IsHex(x) && IsHex(y)
    ensures var o := 16 * HexValue(x) + HexValue(y); o < 256 && Spells(x, o / 16) && Spells(y, o % 16)
  {
    var h, l := HexValue(x), HexValue(y);
    assert (16 * h + l) / 16 == h && (16 * h + l) % 16 == l;
  }

  /** Pairs that are no numeral: more than one of them, or a letter. */
  ghost predicate ProperPairs(t: string, b: seq<byte>) {
    SpellsPairs(t, b) && (|b| > 1 || b[0] / 16 >= 10 || b[0] % 16 >= 10)
  }

  lemma {:induction false} PairsExactly(text: string, b: seq<byte>)
    ensures BodyOf(text) == Hexadecimal(b) <==> exists t :: ProperPairs(t, b) && Around(text, t)
  {
    hide BodyOf, SpellsPairs, HexPairs, SkipSpaces;
    if BodyOf(text) == Hexadecimal(b) {
      HexadecimalCut(text, b);
      var w := SpacesFirst(text);
      var p, c, w' := PairsThere([], SkipSpaces(text));
      assert [] + c == c && text == w + p + w';
      if !ProperPairs(p, b) {
        NumeralPair(p, b);
        NumeralBody(p, w, w');
        assert false;
      }
      assert ProperPairs(p, b) && Around(text, p);
    }
    if t :| ProperPairs(t, b) && Around(text, t) {
      var w, w' :| Whites(w) && Whites(w') && text == w + t + w';
      PairsBody(t, b, w, w');
    }
  }

  lemma {:induction false} HexadecimalCut(text: string, b: seq<byte>)
    requires BodyOf(text) == Hexadecimal(b)
    ensures HexPairs([], SkipSpaces(text)) == Hexadecimal(b)
  {
    hide SkipSpaces, Span, OnlySpaces, IsSign, HexPairs;
  }

  lemma {:induction false} NumeralPair(t: string, b: seq<byte>)
    requires SpellsPairs(t, b) && !ProperPairs(t, b)
    ensures Numeral(t)
  {
    NumeralIs(t);
  }

  lemma {:induction false} PairsBody(t: string, b: seq<byte>, w: string, w': string)
    requires ProperPairs(t, b) && Whites(w) && Whites(w')
    ensures BodyOf(w + t + w') == Hexadecimal(b)
  {
    hide SpellsPairs, Whites, SkipSpaces;
    assert w + t + w' == w + (t + w');
    FirstSpelled(t, b);
    NotNumeral(t, b, w');
    SkipWhites(w, t + w');
    PairsRead([], t, b, w');
    assert [] + b == b;
    BodyByPairs(w + t + w', t + w', b);
  }

  lemma {:induction false} FirstSpelled(t: string, b: seq<byte>)
    requires SpellsPairs(t, b)
    ensures t != [] && !White(t[0])
  {
    SpelledDigit(t[0], b[0] / 16);
  }

  lemma {:induction false} BodyByPairs(text: string, t: string, b: seq<byte>)
    requires SkipSpaces(text) == t && t != [] && SignLength(t) == 0
    requires Span(t[0..]) > 0 ==> !OnlySpaces(t[0 + Span(t[0..])..])
    requires HexPairs([], t) == Hexadecimal(b)
    ensures BodyOf(text) == Hexadecimal(b)
  {
    hide SkipSpaces, Span, OnlySpaces, HexPairs, IsSign;
  }

  /**
    What any text is taken for: a numeral or pairs with spaces around it, as their laws say; nothing but spaces is
    no body; and everything else is an error.
   */
  lemma {:induction false} ParseExactly(text: string)
    ensures Parse(text) == NotBodyIgnore <==> Whites(text)
    ensures Parse(text) == BrokenEncoding <==>
              && !Whites(text) && !(exists n :: SpelledNumeral(n) && Around(text, n))
              && !(exists t, b :: ProperPairs(t, b) && Around(text, t))
    ensures forall t, b :: ProperPairs(t, b) && Around(text, t) ==> Parse(text) == Consumed(b)
  {
    hide BodyOf, SpelledNumeral, Around, ProperPairs, Contents, Strtoimax;
    NothingExactly(text);
    forall n | SpelledNumeral(n) && Around(text, n) ensures BodyOf(text) == Decimal(n) {
      DecimalExactly(text, n);
    }
    forall t, b | ProperPairs(t, b) && Around(text, t) ensures BodyOf(text) == Hexadecimal(b) {
      PairsExactly(text, b);
    }
    match BodyOf(text)
    case Decimal(n) => DecimalExactly(text, n); NumeralScanned(n);
    case Hexadecimal(b) => PairsExactly(text, b);
    case _ =>
  }

  lemma {:induction false} NumeralScanned(n: string)
    requires SpelledNumeral(n)
    ensures Strtoimax(n).Okay? || Strtoimax(n).RangeError? || Strtoimax(n).Overflow?
  {
    hide Strtoimax, NumeralValue;
    NumeralIs(n);
    if FitsSigned(NumeralValue(n)) {
      StrtoimaxExact(n);
    } else {
      StrtoimaxBeyond(n);
    }
  }

  /** A numeral, zeros in front and all: its value, the limit of the decoder, or the overflow of its scanner. */
  lemma {:induction false} NumeralParsed(n: string, text: string)
    requires SpelledNumeral(n) && Around(text, n)
    ensures Numeral(n)
    ensures var v, ds := NumeralValue(n), n[SignLength(n)..];
            var early :=
              n[0] == '-' && exists k :: 0 <= k < |ds| && 9223372036854775800 <= Num(ds[..k]) <= 9223372036854775808;
            if FitsSigned(v) then Parse(text) == Consumed(Contents(v))
            else Parse(text) == if early then Undefined else DecoderLimit
  {
    hide BodyOf, Around, Contents, Strtoimax, NumeralValue;
    NumeralIs(n);
    DecimalExactly(text, n);
    if FitsSigned(NumeralValue(n)) {
      StrtoimaxExact(n);
    } else {
      StrtoimaxBeyond(n);
      NumeralScanned(n);
    }
  }

  /** A number that fits no word is printed in pairs, with letters in upper case. */
  lemma {:induction false} DumpSpelled(b: seq<byte>)
    requires !FitsSigned(SignedVal(b))
    ensures SpellsPairs(DumpText(b), b) && UpperCase(DumpText(b))
  {
    hide HexText, SpellsPairs, UpperCase, SignedVal, FitsSigned;
    LongIfBeyond(b);
    HexTextSpelled(b);
  }

  /** No letter in lower case. */
  ghost predicate UpperCase(t: string) {
    forall i :: 0 <= i < |t| ==> !(97 <= t[i] as int <= 122)
  }

  lemma {:induction false} HexTextSpelled(b: seq<byte>)
    requires b != []
    ensures SpellsPairs(HexText(b), b) && UpperCase(HexText(b))
    decreases |b|
  {
    hide HexText, Spells;
    HexTextFront(b);
    PairSpelled(b[0]);
    if |b| > 1 {
      HexTextSpelled(b[1..]);
      assert HexText(b)[3..] == HexText(b[1..]);
    }
  }

  lemma {:induction false} PairSpelled(b: byte)
    ensures var s := Pair(b); Spells(s[0], b / 16) && Spells(s[1], b % 16) && UpperCase(s)
  {
  }

  // ---- Hexadecimal strings ----

  /** What the string converters skip: tab, line feed, form feed, carriage return and space. */
  ghost predicate Blank(c: char) {
    White(c) || c as int == 12
  }

  /** The digits of a text, whatever blanks are between them. */
  ghost predicate SpellsDigits(t: string, ds: seq<nat>) {
    if t == [] then ds == []
    else if Blank(t[|t| - 1]) then SpellsDigits(t[..|t| - 1], ds)
    else ds != [] && Spells(t[|t| - 1], ds[|ds| - 1]) && SpellsDigits(t[..|t| - 1], ds[..|ds| - 1])
  }

  /** The two digits of each octet. */
  function Halves(b: seq<byte>): (ds: seq<nat>)
    ensures |ds| == 2 * |b|
  {
    if b == [] then [] else Halves(b[..|b| - 1]) + [b[|b| - 1] / 16, b[|b| - 1] % 16]
  }

  lemma {:induction false} HalvesSame(a: seq<byte>, b: seq<byte>)
    requires Halves(a) == Halves(b)
    ensures a == b
  {
    assert |a| == |b|;
    if a != [] {
      var x, y := a[|a| - 1], b[|b| - 1];
      var ha, hb := Halves(a[..|a| - 1]), Halves(b[..|b| - 1]);
      assert Halves(a)[..|ha|] == ha && Halves(b)[..|hb|] == hb;
      assert Halves(a)[|ha|] == x / 16 && Halves(a)[|ha| + 1] == x % 16;
      assert Halves(b)[|hb|] == y / 16 && Halves(b)[|hb| + 1] == y % 16;
      assert x == y by { assert x == 16 * (x / 16) + x % 16 && y == 16 * (y / 16) + y % 16; }
      HalvesSame(a[..|a| - 1], b[..|b| - 1]);
      assert a == a[..|a| - 1] + [x] && b == b[..|b| - 1] + [y];
    }
  }

  lemma {:induction false} BlankIs(c: char)
    ensures Blank(c) <==> IsBlank(c)
  {
  }

  /** The converter holds exactly the digits of the text so far. */
  lemma {:induction false} ScanSpelled(t: string, ds: seq<nat>)
    requires SpellsDigits(t, ds)
    ensures var h := Scan(t);
            && h.HexScan? && (h.half.Some? ==> h.half.value < 16)
            && Halves(h.octets) + (if h.half.Some? then [h.half.value] else []) == ds
  {
    hide Blank, IsBlank, Spells, HexValue, IsHex, Halves;
    if t == [] {
      assert Halves([]) == [] by { NoHalves(); }
    } else {
      var u, c := t[..|t| - 1], t[|t| - 1];
      BlankIs(c);
      if Blank(c) {
        ScanSpelled(u, ds);
      } else {
        var d, before := ds[|ds| - 1], ds[..|ds| - 1];
        ScanSpelled(u, before);
        SpelledDigit(c, d);
        assert ds == before + [d];
        var h := Scan(u);
        if h.half.Some? {
          OctetAdded(h.octets, h.half.value, d, before);
        } else {
          assert Halves(h.octets) + [] == Halves(h.octets);
        }
      }
    }
  }

  lemma {:induction false} NoHalves()
    ensures Halves([]) == []
  {
  }

  lemma {:induction false} OctetAdded(b: seq<byte>, high: nat, low: nat, ds: seq<nat>)
    requires Halves(b) + [high] == ds && high < 16 && low < 16
    ensures (16 * high + low) % 256 == 16 * high + low
    ensures Halves(b + [16 * high + low]) + [] == ds + [low]
  {
    var x := 16 * high + low;
    DivModUnique(high, low, 16, x);
    assert (b + [x])[..|b|] == b;
    assert Halves(b) + [x / 16, x % 16] == Halves(b) + [high] + [low];
  }

  /**
    A hexadecimal string in upper or lower case, with blanks wherever they are, and in whatever pieces: the
    octets its digits make, a last odd digit filled up with zero bits.
   */
  lemma {:induction false} HexStringRead(pieces: seq<string>, b: seq<byte>, odd: seq<nat>)
    requires |odd| <= 1 && SpellsDigits(Text(pieces), Halves(b) + odd)
    ensures FeedHex("", pieces) == Some(b + if odd == [] then [] else [16 * odd[0] % 256])
  {
    hide Scan, Halves, SpellsDigits;
    var t := Text(pieces);
    ScanSpelled(t, Halves(b) + odd);
    var h := Scan(t);
    var half := if h.half.Some? then [h.half.value] else [];
    SplitSame(h.octets, half, b, odd);
    assert "" + t == t;
    FeedHexAnySplit("", pieces);
    assert b + [] == b;
  }

  lemma {:induction false} SplitSame(a: seq<byte>, x: seq<nat>, b: seq<byte>, y: seq<nat>)
    requires |x| <= 1 && |y| <= 1 && Halves(a) + x == Halves(b) + y
    ensures a == b && x == y
  {
    hide Halves;
    assert |Halves(a) + x| == |Halves(b) + y|;
    assert (Halves(a) + x)[..2 * |a|] == Halves(a) && (Halves(b) + y)[..2 * |b|] == Halves(b);
    assert (Halves(a) + x)[2 * |a|..] == x && (Halves(b) + y)[2 * |b|..] == y;
    HalvesSame(a, b);
  }

  /** Any other character, and the string is refused. */
  lemma {:induction false} HexStringRefused(pending: string, pieces: seq<string>, i: nat)
    requires i < |pending + Text(pieces)|
    requires var c := (pending + Text(pieces))[i]; !Blank(c) && forall n :: 0 <= n < 16 ==> !Spells(c, n)
    ensures FeedHex(pending, pieces).None?
    decreases |pieces|
  {
    hide Scan, Blank, Spells;
    var t := if pieces == [] then pending else pending + pieces[0];
    assert pending + [] == pending;
    if i < |t| {
      assert t[i] == (pending + Text(pieces))[i] by {
        assert pieces != [] ==> pending + Text(pieces) == t + Text(pieces[1..]);
      }
      ForeignScan(t, i);
    } else {
      assert pending + Text(pieces) == t + Text(pieces[1..]);
      var r := ConvertHex(t, false);
      if r.Some? && r.value.1 <= |t| {
        var k := r.value.1;
        assert (t[k..] + Text(pieces[1..]))[i - k] == (t + Text(pieces[1..]))[i];
        HexStringRefused(t[k..], pieces[1..], i - k);
      }
    }
  }

  lemma {:induction false} ForeignScan(t: string, i: nat)
    requires i < |t| && !Blank(t[i]) && forall n :: 0 <= n < 16 ==> !Spells(t[i], n)
    ensures Scan(t).BadText?
  {
    hide Blank, IsBlank, Spells, IsHex, HexValue;
    var c := t[i];
    BlankIs(c);
    if IsHex(c) {
      assert Spells(c, HexValue(c)) by { HexSpelled(c); }
    }
    assert t[..i + 1] == t[..i] + [c];
    ScanSnoc(t[..i], c);
    BadStays(t, i + 1);
  }

  lemma {:induction false} HexSpelled(c: char)
    requires IsHex(c)
    ensures Spells(c, HexValue(c))
  {
  }

  /** What is written spells the octets, in upper case. */
  lemma {:induction false} HexDigitsSpelled(b: seq<byte>)
    ensures SpellsDigits(HexDigits(b), Halves(b)) && UpperCase(HexDigits(b))
  {
    hide Spells, Blank, Pair;
    if b != [] {
      var c, v := b[..|b| - 1], b[|b| - 1];
      HexDigitsSpelled(c);
      PairSpelled(v);
      var p, t := Pair(v), HexDigits(b);
      assert t == HexDigits(c) + p && t[..|t| - 1] == HexDigits(c) + [p[0]] && t[|t| - 1] == p[1];
      assert (HexDigits(c) + [p[0]])[..|HexDigits(c)|] == HexDigits(c);
      assert !Blank(p[0]) by { SpelledDigit(p[0], v / 16); BlankIs(p[0]); }
      assert !Blank(p[1]) by { SpelledDigit(p[1], v % 16); BlankIs(p[1]); }
      var ds := Halves(b);
      assert ds[..|ds| - 1] == Halves(c) + [v / 16] && ds[|ds| - 1] == v % 16;
      assert (Halves(c) + [v / 16])[..|Halves(c)|] == Halves(c);
      assert SpellsDigits(HexDigits(c) + [p[0]], Halves(c) + [v / 16]);
    }
  }

  // ---- Binary strings ----

  /** The zeros and ones of a text, whatever blanks are between them. */
  ghost predicate SpellsBits(t: string, s: seq<bool>) {
    if t == [] then s == []
    else if Blank(t[|t| - 1]) then SpellsBits(t[..|t| - 1], s)
    else
      && s != [] && t[|t| - 1] as int == (if s[|s| - 1] then 49 else 48)
      && SpellsBits(t[..|t| - 1], s[..|s| - 1])
  }

  /** A text of zeros, ones and blanks is read as its bits. */
  lemma {:induction false} BitStringRead(t: string, s: seq<bool>)
    requires SpellsBits(t, s)
    ensures BitsIn(t) == Some(s)
  {
    hide Blank, IsBlank;
    if t != [] {
      var c := t[|t| - 1];
      BlankIs(c);
      if Blank(c) {
        BitStringRead(t[..|t| - 1], s);
      } else {
        BitStringRead(t[..|t| - 1], s[..|s| - 1]);
        assert s == s[..|s| - 1] + [s[|s| - 1]];
      }
    }
  }

  /** Any other character, and the text is refused. */
  lemma {:induction false} BitStringRefused(t: string, i: nat)
    requires i < |t| && !Blank(t[i]) && t[i] as int != 48 && t[i] as int != 49
    ensures BitsIn(t).None?
  {
    hide Blank, IsBlank;
    BlankIs(t[i]);
    assert t[..i + 1][..i] == t[..i];
    BadBits(t, i + 1);
  }

  /** What is written spells the bits, without blanks. */
  lemma {:induction false} BitTextSpelled(s: seq<bool>)
    ensures SpellsBits(BitText(s), s) && |BitText(s)| == |s|
  {
    if s != [] {
      BitTextSpelled(s[..|s| - 1]);
      assert BitText(s)[..|s| - 1] == BitText(s[..|s| - 1]);
    }
  }
}
