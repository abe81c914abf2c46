/**
  INTEGER as XML text, without named values: a decimal numeral when the number fits a signed
  word, otherwise octets in hexadecimal with colons between them.
 */
module XerInteger {
  import opened Bits
  import opened Integer
  import opened Numerals

  predicate IsSpace(c: char) {
    c == '\t' || c == '\n' || c == '\r' || c == ' '
  }

  predicate IsHexLetter(c: char) {
    'A' <= c <= 'F' || 'a' <= c <= 'f'
  }

  predicate IsHex(c: char) {
    IsDigit(c) || IsHexLetter(c)
  }

  function HexValue(c: char): (v: nat)
    requires IsHex(c)
    ensures v < 16
  {
    if IsDigit(c) then DigitValue(c) else (c as int) - (if c < 'a' then 'A' as int else 'a' as int) + 10
  }

  // ---- What a text means ----

  datatype Body = NoBody | Broken | Decimal(numeral: string) | Hexadecimal(octets: seq<byte>)

  predicate OnlySpaces(t: string) {
    forall i :: 0 <= i < |t| ==> IsSpace(t[i])
  }

  function SkipSpaces(t: string): (r: string)
    ensures r != [] ==> !IsSpace(r[0])
  {
    if t != [] && IsSpace(t[0]) then SkipSpaces(t[1..]) else t
  }

  /** Pairs of hexadecimal digits from here on. */
  function HexPairs(out: seq<byte>, t: string): Body
    decreases |t|
  {
    if t == [] || !IsHex(t[0]) then Broken else HexLow(out, HexValue(t[0]), t[1..])
  }

  /** The second digit of a pair. */
  function HexLow(out: seq<byte>, high: nat, t: string): Body
    requires high < 16
    decreases |t|
  {
    if t == [] || !IsHex(t[0]) then Broken else HexMore(out + [16 * high + HexValue(t[0])], t[1..])
  }

  /** After a pair: a colon and more pairs, or nothing but spaces. */
  function HexMore(out: seq<byte>, t: string): Body
    decreases |t|
  {
    if OnlySpaces(t) then Hexadecimal(out)
    else if t[0] == ':' then HexPairs(out, t[1..])
    else Broken
  }

  /** A numeral if the text is one, and otherwise pairs, between spaces. */
  function BodyOf(text: string): Body {
    var t := SkipSpaces(text);
    if t == [] then NoBody
    else
      var k := SignLength(t);
      var n := Span(t[k..]);
      if n > 0 && OnlySpaces(t[k + n..]) then Decimal(t[..k + n]) else HexPairs([], t)
  }

  // ---- The scanner ----

  datatype State =
    | LeadSpace | SkipSpHex | WaitDigits | InDigits | DigitsTrailSpace
    | HexDigit1 | HexDigit2 | HexDigitsTrailSpace | HexColon | Unexpected

  /** The scanner's variables; `out` is what stands in the preallocated buffer. */
  datatype Vars = Vars(state: State, lp: nat, start: nat, end: nat, high: nat, out: seq<byte>)

  const START := Vars(LeadSpace, 0, 0, 0, 0, [])

  function OnSpace(v: Vars): Vars {
    match v.state
    case LeadSpace => v.(lp := v.lp + 1)
    case DigitsTrailSpace => v.(lp := v.lp + 1)
    case HexDigitsTrailSpace => v.(lp := v.lp + 1)
    case SkipSpHex => v.(lp := v.lp + 1)
    case InDigits => v.(end := v.lp, state := DigitsTrailSpace, lp := v.lp + 1)
    case HexColon => v.(state := HexDigitsTrailSpace, lp := v.lp + 1)
    case _ => v.(state := Unexpected)
  }

  function OnSign(v: Vars): Vars {
    if v.state == LeadSpace then v.(start := v.lp, state := WaitDigits, lp := v.lp + 1)
    else v.(state := Unexpected)
  }

  function OnDigit(v: Vars, d: nat): Vars
    requires d < 10
  {
    match v.state
    case InDigits => v.(lp := v.lp + 1)
    case SkipSpHex => v.(high := d, state := HexDigit2, lp := v.lp + 1)
    case HexDigit1 => v.(high := d, state := HexDigit2, lp := v.lp + 1)
    case HexDigit2 => v.(out := v.out + [(16 * v.high + d) % 256], state := HexColon, lp := v.lp + 1)
    case LeadSpace => v.(start := v.lp, state := InDigits, lp := v.lp + 1)
    case WaitDigits => v.(state := InDigits, lp := v.lp + 1)
    case _ => v.(state := Unexpected)
  }

  function OnColon(v: Vars): Vars {
    if v.state == HexColon then v.(state := HexDigit1, lp := v.lp + 1)
    else if v.state == InDigits then Rewound(v)
    else v.(state := Unexpected)
  }

  function OnLetter(v: Vars, d: nat): Vars
    requires 10 <= d < 16
  {
    match v.state
    case SkipSpHex => v.(high := d, state := HexDigit2, lp := v.lp + 1)
    case LeadSpace => v.(high := d, state := HexDigit2, lp := v.lp + 1)
    case HexDigit1 => v.(high := d, state := HexDigit2, lp := v.lp + 1)
    case HexDigit2 => v.(out := v.out + [(16 * v.high + d) % 256], state := HexColon, lp := v.lp + 1)
    case InDigits => Rewound(v)
    case _ => v.(state := Unexpected)
  }

  /** Digits that turn out to be hexadecimal are read again from the start. */
  function Rewound(v: Vars): Vars {
    v.(state := SkipSpHex, lp := 0)
  }

  function Next(v: Vars, c: char): Vars {
    if IsSpace(c) then OnSpace(v)
    else if IsSign(c) then OnSign(v)
    else if IsDigit(c) then OnDigit(v, DigitValue(c))
    else if c == ':' then OnColon(v)
    else if IsHexLetter(c) then OnLetter(v, HexValue(c))
    else v.(state := Unexpected)
  }

  /** Whether the scanner can still rewind. */
  predicate Early(s: State) {
    s == LeadSpace || s == WaitDigits || s == InDigits || s == DigitsTrailSpace
  }

  /** How much of the text the octets in the buffer account for: two digits each and a colon between them. */
  predicate Room(v: Vars) {
    match v.state
    case HexDigit1 => 3 * |v.out| <= v.lp
    case HexDigit2 => 3 * |v.out| < v.lp
    case HexColon => 3 * |v.out| <= v.lp + 1
    case HexDigitsTrailSpace => 3 * |v.out| <= v.lp + 1
    case Unexpected => 3 * |v.out| <= v.lp + 1
    case _ => v.out == []
  }

  /** What is left of the meaning of the text in each state. */
  ghost predicate Tracks(text: string, v: Vars)
    requires v.lp <= |text|
  {
    match v.state
    case LeadSpace => SkipSpaces(text) == SkipSpaces(text[v.lp..])
    case WaitDigits => v.start + 1 == v.lp && IsSign(text[v.start]) && SkipSpaces(text) == text[v.start..]
    case InDigits => v.start < v.lp && Numeral(text[v.start..v.lp]) && SkipSpaces(text) == text[v.start..]
    case DigitsTrailSpace =>
      && v.start < v.end < v.lp && Numeral(text[v.start..v.end]) && OnlySpaces(text[v.end..v.lp])
      && SkipSpaces(text) == text[v.start..]
    case SkipSpHex => BodyOf(text) == HexPairs([], SkipSpaces(text[v.lp..]))
    case HexDigit1 => BodyOf(text) == HexPairs(v.out, text[v.lp..])
    case HexDigit2 => v.high < 16 && BodyOf(text) == HexLow(v.out, v.high, text[v.lp..])
    case HexColon => BodyOf(text) == HexMore(v.out, text[v.lp..])
    case HexDigitsTrailSpace => BodyOf(text) == if OnlySpaces(text[v.lp..]) then Hexadecimal(v.out) else Broken
    case Unexpected => BodyOf(text) == Broken
  }

  lemma {:induction false} RoomKept(v: Vars, c: char)
    requires Room(v) && v.state != Unexpected
    ensures Room(Next(v, c))
  {
  }

  // ---- Spaces and numerals ----

  lemma {:induction false} SkipNone(t: string)
    requires t == [] || !IsSpace(t[0])
    ensures SkipSpaces(t) == t
  {
  }

  lemma {:induction false} SkipOne(text: string, i: nat)
    requires i < |text| && IsSpace(text[i])
    ensures SkipSpaces(text[i..]) == SkipSpaces(text[i + 1..])
    ensures OnlySpaces(text[i..]) <==> OnlySpaces(text[i + 1..])
  {
    var t := text[i..];
    assert t[1..] == text[i + 1..] && t[0] == text[i];
    if OnlySpaces(t[1..]) {
      forall j | 0 <= j < |t| ensures IsSpace(t[j]) {
        if j > 0 {
          assert t[j] == t[1..][j - 1];
        }
      }
    }
    if OnlySpaces(t) {
      forall j | 0 <= j < |t[1..]| ensures IsSpace(t[1..][j]) {
        assert t[1..][j] == t[j + 1];
      }
    }
  }

  lemma {:induction false} NotOnlySpaces(t: string, i: nat)
    requires i < |t| && !IsSpace(t[i])
    ensures !OnlySpaces(t)
  {
  }

  /** Where the digits of a numeral end. */
  lemma {:induction false} NumeralSpan(u: string, m: nat)
    requires m <= |u| && Numeral(u[..m]) && (m < |u| ==> !IsDigit(u[m]))
    ensures SignLength(u) < m && Span(u[SignLength(u)..]) == m - SignLength(u)
    ensures u[..SignLength(u) + Span(u[SignLength(u)..])] == u[..m]
  {
    var k := SignLength(u);
    assert SignLength(u[..m]) == k;
    assert u[k..][..m - k] == u[..m][k..];
    SpanIs(u[k..], m - k);
  }

  /** A numeral followed by something other than spaces is to be read as pairs. */
  lemma {:induction false} NumeralThen(text: string, start: nat, m: nat)
    requires start < start + m <= |text| && SkipSpaces(text) == text[start..] && Numeral(text[start..start + m])
    requires start + m < |text| ==> !IsDigit(text[start + m])
    ensures BodyOf(text) == if OnlySpaces(text[start + m..]) then Decimal(text[start..start + m])
                            else HexPairs([], text[start..])
  {
    hide Span, HexPairs, SkipSpaces, OnlySpaces, Numeral;
    var u := text[start..];
    assert u[..m] == text[start..start + m] && u[m..] == text[start + m..];
    NumeralSpan(u, m);
  }

  /** Pairs cannot be made of a numeral and what follows it, unless that goes on as pairs do. */
  lemma {:induction false} HexFails(u: string, m: nat)
    requires m < |u| && Numeral(u[..m]) && !IsHex(u[m]) && u[m] != ':' && !OnlySpaces(u[m..])
    ensures HexPairs([], u) == Broken
  {
    hide HexValue;
    var k := SignLength(u[..m]);
    if k == 0 {
      assert u[0] == u[..m][0] && IsDigit(u[..m][k..][0]);
      if m == 1 {
        assert u[1..][0] == u[1];
      } else {
        assert u[1] == u[..m][k..][1];
        FailsAfterPair(u, m);
      }
    }
  }

  lemma {:induction false} FailsAfterPair(u: string, m: nat)
    requires 2 <= m < |u| && Numeral(u[..m]) && SignLength(u[..m]) == 0
    requires IsDigit(u[0]) && IsDigit(u[1]) && u[m] != ':' && !OnlySpaces(u[m..])
    ensures HexPairs([], u) == Broken
  {
    hide HexValue, HexMore;
    var t := u[1..][1..];
    assert t == u[2..];
    if m > 2 {
      assert t[0] == u[..m][0..][2] && IsDigit(t[0]);
      NotOnlySpaces(t, 0);
    } else {
      assert t[0] == u[m] && t == u[m..];
    }
    assert u[1..][0] == u[1];
    MoreBroken([] + [16 * HexValue(u[0]) + HexValue(u[1])], t);
  }

  lemma {:induction false} MoreBroken(out: seq<byte>, t: string)
    requires !OnlySpaces(t) && t != [] && t[0] != ':'
    ensures HexMore(out, t) == Broken
  {
  }

  // ---- Each kind of character keeps the scanner on track ----

  lemma {:induction false} TracksSpace(text: string, v: Vars)
    requires v.lp < |text| && Tracks(text, v) && v.state != Unexpected && Room(v) && IsSpace(text[v.lp])
    ensures Next(v, text[v.lp]).lp <= |text| && Tracks(text, Next(v, text[v.lp]))
  {
    hide BodyOf, HexValue, Numeral, Room;
    SkipOne(text, v.lp);
    match v.state
    case WaitDigits => SignAlone(text, v.start);
    case InDigits => assert text[v.lp..v.lp + 1] == [text[v.lp]];
    case DigitsTrailSpace => OneMoreSpace(text, v.end, v.lp);
    case HexColon => MoreSpace(v.out, text, v.lp);
    case HexDigit1 => assert text[v.lp..][0] == text[v.lp];
    case HexDigit2 => assert text[v.lp..][0] == text[v.lp];
    case _ =>
  }

  lemma {:induction false} OneMoreSpace(text: string, i: nat, j: nat)
    requires i <= j < |text| && OnlySpaces(text[i..j]) && IsSpace(text[j])
    ensures OnlySpaces(text[i..j + 1])
  {
    assert text[i..j + 1] == text[i..j] + [text[j]];
  }

  lemma {:induction false} MoreSpace(out: seq<byte>, text: string, i: nat)
    requires i < |text| && IsSpace(text[i])
    ensures HexMore(out, text[i..]) == if OnlySpaces(text[i + 1..]) then Hexadecimal(out) else Broken
  {
    hide OnlySpaces;
    SkipOne(text, i);
  }

  /** A sign that no digit follows. */
  lemma {:induction false} SignAlone(text: string, start: nat)
    requires start < |text| && IsSign(text[start]) && SkipSpaces(text) == text[start..]
    requires start + 1 < |text| ==> !IsDigit(text[start + 1])
    ensures BodyOf(text) == Broken
  {
    hide SkipSpaces;
    var t := text[start..];
    assert t[0] == text[start] && t[1..] == text[start + 1..];
  }

  lemma {:induction false} TracksSign(text: string, v: Vars)
    requires v.lp < |text| && Tracks(text, v) && v.state != Unexpected && Room(v) && IsSign(text[v.lp])
    ensures Next(v, text[v.lp]).lp <= |text| && Tracks(text, Next(v, text[v.lp]))
  {
    hide BodyOf, HexValue, Numeral, Room;
    SkipNone(text[v.lp..]);
    if v.state == LeadSpace {
      assert text[v.lp..][0] == text[v.lp];
    } else {
      Stray(text, v);
    }
  }

  /** A character that fits nowhere. */
  lemma {:induction false} Stray(text: string, v: Vars)
    requires v.lp < |text| && Tracks(text, v) && Room(v)
    requires !IsSpace(text[v.lp]) && !IsHex(text[v.lp]) && text[v.lp] != ':' && v.state != LeadSpace
    requires v.state != Unexpected
    ensures BodyOf(text) == Broken
  {
    hide BodyOf, HexValue, Numeral;
    var t := text[v.lp..];
    assert t[0] == text[v.lp];
    SkipNone(t);
    NotOnlySpaces(t, 0);
    if v.state == WaitDigits {
      SignAlone(text, v.start);
    } else if v.state == InDigits {
      AfterNumeral(text, v.start, v.lp);
    } else if v.state == DigitsTrailSpace {
      AfterTrail(text, v);
    }
  }

  lemma {:induction false} AfterNumeral(text: string, start: nat, at: nat)
    requires start < at < |text| && SkipSpaces(text) == text[start..] && Numeral(text[start..at])
    requires !IsHex(text[at]) && text[at] != ':' && !OnlySpaces(text[at..])
    ensures BodyOf(text) == Broken
  {
    hide BodyOf, HexPairs, OnlySpaces, SkipSpaces, Numeral;
    var u, m := text[start..], at - start;
    assert u[..m] == text[start..at] && u[m..] == text[at..] && u[m] == text[at];
    NumeralThen(text, start, m);
    HexFails(u, m);
  }

  lemma {:induction false} AfterTrail(text: string, v: Vars)
    requires v.lp < |text| && v.state == DigitsTrailSpace && Tracks(text, v) && !IsSpace(text[v.lp])
    ensures BodyOf(text) == Broken
  {
    hide BodyOf, SkipSpaces, Numeral;
    assert text[v.end..v.lp][0] == text[v.end];
    assert text[v.end..][v.lp - v.end] == text[v.lp];
    NotOnlySpaces(text[v.end..], v.lp - v.end);
    AfterNumeral(text, v.start, v.end);
  }

  lemma {:induction false} TracksDigit(text: string, v: Vars)
    requires v.lp < |text| && Tracks(text, v) && v.state != Unexpected && Room(v) && IsDigit(text[v.lp])
    ensures Next(v, text[v.lp]).lp <= |text| && Tracks(text, Next(v, text[v.lp]))
  {
    hide BodyOf, Numeral;
    var t := text[v.lp..];
    assert t[0] == text[v.lp] && t[1..] == text[v.lp + 1..];
    SkipNone(t);
    NotOnlySpaces(t, 0);
    match v.state
    case LeadSpace => OneDigit(text, v.lp);
    case WaitDigits => SignedDigit(text, v.start);
    case InDigits => MoreDigit(text, v.start, v.lp);
    case DigitsTrailSpace => AfterTrail(text, v);
    case _ =>
  }

  lemma {:induction false} OneDigit(text: string, at: nat)
    requires at < |text| && IsDigit(text[at])
    ensures Numeral(text[at..at + 1])
  {
  }

  lemma {:induction false} SignedDigit(text: string, at: nat)
    requires at + 1 < |text| && IsSign(text[at]) && IsDigit(text[at + 1])
    ensures Numeral(text[at..at + 2])
  {
  }

  lemma {:induction false} MoreDigit(text: string, start: nat, at: nat)
    requires start < at < |text| && Numeral(text[start..at]) && IsDigit(text[at])
    ensures Numeral(text[start..at + 1])
  {
    var u, u' := text[start..at], text[start..at + 1];
    var k := SignLength(u);
    assert u' == u + [text[at]];
    assert u'[k..] == u[k..] + [text[at]];
  }

  lemma {:induction false} TracksColon(text: string, v: Vars)
    requires v.lp < |text| && Tracks(text, v) && v.state != Unexpected && Room(v) && text[v.lp] == ':'
    ensures Next(v, text[v.lp]).lp <= |text| && Tracks(text, Next(v, text[v.lp]))
  {
    hide BodyOf, HexValue, Numeral;
    var t := text[v.lp..];
    assert t[0] == text[v.lp] && t[1..] == text[v.lp + 1..];
    SkipNone(t);
    NotOnlySpaces(t, 0);
    match v.state
    case LeadSpace => BrokenStart(text, t);
    case WaitDigits => SignAlone(text, v.start);
    case InDigits => Rewinds(text, v);
    case DigitsTrailSpace => AfterTrail(text, v);
    case _ =>
  }

  lemma {:induction false} BrokenStart(text: string, t: string)
    requires SkipSpaces(text) == t && t != [] && !IsHex(t[0]) && !IsSign(t[0])
    ensures BodyOf(text) == Broken
  {
    hide SkipSpaces;
  }

  lemma {:induction false} Rewinds(text: string, v: Vars)
    requires v.lp < |text| && v.state == InDigits && Tracks(text, v) && !IsSpace(text[v.lp]) && !IsDigit(text[v.lp])
    ensures Tracks(text, Rewound(v))
  {
    hide BodyOf, SkipSpaces, Numeral, HexPairs;
    assert text[v.lp..][0] == text[v.lp] && text[0..] == text;
    NotOnlySpaces(text[v.lp..], 0);
    NumeralThen(text, v.start, v.lp - v.start);
  }

  lemma {:induction false} TracksLetter(text: string, v: Vars)
    requires v.lp < |text| && Tracks(text, v) && v.state != Unexpected && Room(v) && IsHexLetter(text[v.lp])
    ensures Next(v, text[v.lp]).lp <= |text| && Tracks(text, Next(v, text[v.lp]))
  {
    hide BodyOf, Numeral;
    var t := text[v.lp..];
    assert t[0] == text[v.lp] && t[1..] == text[v.lp + 1..];
    SkipNone(t);
    NotOnlySpaces(t, 0);
    match v.state
    case LeadSpace => HexStart(text, t);
    case WaitDigits => SignAlone(text, v.start);
    case InDigits => Rewinds(text, v);
    case DigitsTrailSpace => AfterTrail(text, v);
    case _ =>
  }

  lemma {:induction false} HexStart(text: string, t: string)
    requires SkipSpaces(text) == t && t != [] && !IsDigit(t[0]) && !IsSign(t[0])
    ensures BodyOf(text) == HexPairs([], t)
  {
    hide SkipSpaces, HexPairs;
  }

  lemma {:induction false} TracksOther(text: string, v: Vars)
    requires v.lp < |text| && Tracks(text, v) && v.state != Unexpected && Room(v)
    requires !IsSpace(text[v.lp]) && !IsSign(text[v.lp]) && !IsHex(text[v.lp]) && text[v.lp] != ':'
    ensures BodyOf(text) == Broken
  {
    hide BodyOf, HexValue, Numeral, Room;
    if v.state == LeadSpace {
      SkipNone(text[v.lp..]);
      BrokenStart(text, text[v.lp..]);
    } else {
      Stray(text, v);
    }
  }

  lemma {:induction false} TracksKept(text: string, v: Vars)
    requires v.lp < |text| && Tracks(text, v) && v.state != Unexpected && Room(v)
    ensures Next(v, text[v.lp]).lp <= |text| && Tracks(text, Next(v, text[v.lp]))
  {
    hide Tracks, Room, OnSpace, OnSign, OnDigit, OnColon, OnLetter, HexValue;
    var c := text[v.lp];
    if IsSpace(c) {
      TracksSpace(text, v);
    } else if IsSign(c) {
      TracksSign(text, v);
    } else if IsDigit(c) {
      TracksDigit(text, v);
    } else if c == ':' {
      TracksColon(text, v);
    } else if IsHexLetter(c) {
      TracksLetter(text, v);
    } else {
      TracksOther(text, v);
      assert Tracks(text, v.(state := Unexpected)) by { GivenUp(text, v); }
    }
  }

  lemma {:induction false} GivenUp(text: string, v: Vars)
    requires v.lp <= |text| && BodyOf(text) == Broken
    ensures Tracks(text, v.(state := Unexpected))
  {
    hide BodyOf;
  }

  /**
    The scanner finds what the text means.  It reads the text at most twice, and never holds more octets
    than the preallocated buffer of a third of the text plus two takes, the terminator included.
   */
  method ScanBody(text: string) returns (r: Body, rewinds: nat)
    ensures r == BodyOf(text)
    ensures rewinds <= 1
    ensures r.Hexadecimal? ==> |r.octets| + 1 <= |text| / 3 + 2
  {
    hide BodyOf, Tracks, Next, Room;
    var v := START;
    rewinds := 0;
    assert Tracks(text, v) && Room(v) by { Beginning(text); }
    while v.lp < |text| && v.state != Unexpected
      invariant v.lp <= |text| && Tracks(text, v) && Room(v)
      invariant rewinds <= if Early(v.state) then 0 else 1
      invariant |v.out| + 1 <= |text| / 3 + 2
      decreases if Early(v.state) then 1 else 0, |text| - v.lp, if v.state == Unexpected then 0 else 1
    {
      var w := Next(v, text[v.lp]);
      TracksKept(text, v);
      RoomKept(v, text[v.lp]);
      StepForward(v, text[v.lp]);
      Enough(w, |text|);
      rewinds := if w.state == SkipSpHex && v.state == InDigits then rewinds + 1 else rewinds;
      v := w;
    }
    assert Tracks(text, v);
    r := Finish(text, v);
  }

  lemma {:induction false} Beginning(text: string)
    ensures Tracks(text, START) && Room(START)
  {
    assert text[0..] == text;
  }

  lemma {:induction false} Enough(v: Vars, n: nat)
    requires Room(v) && v.lp <= n
    ensures |v.out| + 1 <= n / 3 + 2
  {
  }

  /** Every step moves on, gives up, or goes back to the start for the only time. */
  lemma {:induction false} StepForward(v: Vars, c: char)
    requires v.state != Unexpected
    ensures var w := Next(v, c);
            if Early(v.state) && !Early(w.state)
            then w.state == SkipSpHex ==> v.state == InDigits
            else Early(w.state) == Early(v.state)
                 && ((w.state != Unexpected && w.lp == v.lp + 1) || (w.state == Unexpected && w.lp == v.lp))
                 && !(w.state == SkipSpHex && v.state == InDigits)
  {
  }

  /** What the state at the end of the text means. */
  function Finish(text: string, v: Vars): (r: Body)
    requires v.lp <= |text| && Tracks(text, v) && (v.state == Unexpected || v.lp == |text|)
    ensures r == BodyOf(text)
  {
    AtEnd(text, v);
    match v.state
    case InDigits => Decimal(text[v.start..])
    case DigitsTrailSpace => Decimal(text[v.start..v.end])
    case HexColon => Hexadecimal(v.out)
    case HexDigitsTrailSpace => Hexadecimal(v.out)
    case LeadSpace => NoBody
    case _ => Broken
  }

  lemma {:induction false} AtEnd(text: string, v: Vars)
    requires v.lp <= |text| && Tracks(text, v) && (v.state == Unexpected || v.lp == |text|)
    ensures BodyOf(text) == match v.state
                            case InDigits => Decimal(text[v.start..])
                            case DigitsTrailSpace => Decimal(text[v.start..v.end])
                            case HexColon => Hexadecimal(v.out)
                            case HexDigitsTrailSpace => Hexadecimal(v.out)
                            case LeadSpace => NoBody
                            case _ => Broken
  {
    hide Numeral, HexValue;
    assert v.lp == |text| ==> text[v.lp..] == [];
    if v.state == InDigits {
      hide BodyOf;
      assert text[v.start..v.lp] == text[v.start..];
      NumeralThen(text, v.start, v.lp - v.start);
    } else if v.state == DigitsTrailSpace {
      hide BodyOf;
      assert text[v.end..v.lp] == text[v.end..] && text[v.end..][0] == text[v.end];
      NumeralThen(text, v.start, v.end - v.start);
    } else if v.state == WaitDigits {
      SignAlone(text, v.start);
    }
  }

  // ---- The number in the text ----

  datatype Parsed =
    | Consumed(octets: seq<byte>) | NotBodyIgnore | BrokenEncoding | DecoderLimit
    | Undefined    // signed overflow while scanning

  function Parse(text: string): Parsed {
    match BodyOf(text)
    case NoBody => NotBodyIgnore
    case Broken => BrokenEncoding
    case Hexadecimal(octets) => Consumed(octets)
    case Decimal(numeral) =>
      var n := Strtoimax(numeral);
      match n
      case Okay(v) => if FitsSigned(v) then Consumed(Contents(v)) else DecoderLimit
      case RangeError(_) => DecoderLimit
      case Overflow => Undefined
      case _ => BrokenEncoding
  }

  /** INTEGER__xer_body_decode. */
  method XerBodyDecode(text: string) returns (r: Parsed)
    ensures r == Parse(text)
  {
    hide BodyOf, Strtoimax, Contents, SignedVal, Superfluous;
    var body, _ := ScanBody(text);
    match body
    case NoBody => r := NotBodyIgnore;
    case Broken => r := BrokenEncoding;
    case Hexadecimal(octets) => r := Consumed(octets);
    case Decimal(numeral) =>
      var n := StrtoimaxLim(numeral);
      match n
      case Okay(v) =>
        if !FitsSigned(v) {
          return DecoderLimit;
        }
        var b := Imax2Integer(v);
        assert b == Contents(v) by {
          ContentsBack(v);
          assert Minimal(Contents(v)) by { ContentsMinimal(v); }
          MinimalUnique(b, Contents(v));
        }
        r := Consumed(b);
      case RangeError(_) => r := DecoderLimit;
      case Overflow => r := Undefined;
      case _ => r := BrokenEncoding;
  }

  // ---- Printing ----

  const H2C := "0123456789ABCDEF"

  function HexChar(n: nat): char
    requires n < 16
  {
    H2C[n]
  }

  function Pair(b: byte): (s: string)
    ensures |s| == 2
  {
    [HexChar(b / 16), HexChar(b % 16)]
  }

  /** Octets in hexadecimal, each followed by a colon. */
  function Colons(b: seq<byte>): (s: string)
    ensures |s| == 3 * |b|
  {
    if b == [] then [] else Colons(b[..|b| - 1]) + Pair(b[|b| - 1]) + ":"
  }

  function HexText(b: seq<byte>): string {
    if b == [] then [] else Colons(b)[..3 * |b| - 1]
  }

  function DumpText(b: seq<byte>): string {
    if FitsSigned(SignedVal(b)) then Print(SignedVal(b)) else HexText(b)
  }

  /** INTEGER__dump without named values: through a scratch area of 32 characters, flushed when 28 are used. */
  method Dump(b: seq<byte>) returns (text: string, wrote: nat)
    ensures text == DumpText(b) && wrote == |text|
  {
    hide SignedVal, FitsSigned, Colons, Print;
    var value := Integer2Imax(b);
    if value.Some? {
      text := Print(value.value);
      return text, |text|;
    }
    text, wrote := DumpHex(b);
  }

  method DumpHex(b: seq<byte>) returns (text: string, wrote: nat)
    ensures text == HexText(b) && wrote == |text|
  {
    hide Colons, HexChar;
    var scratch := new char[32];
    var p, i := 0, 0;
    text, wrote := [], 0;
    assert Colons(b[..0]) == [] by { NoColons(b[..0]); }
    while i < |b|
      invariant i <= |b| && p <= 30 && p <= 3 * i && (i > 0 ==> p > 0) && wrote == |text|
      invariant text + scratch[..p] == Colons(b[..i])
    {
      if p >= 32 - 4 {
        text := text + scratch[..p];
        wrote := wrote + p;
        p := 0;
      }
      ghost var before := scratch[..p];
      scratch[p] := HexChar(b[i] / 16);
      scratch[p + 1] := HexChar(b[i] % 16);
      scratch[p + 2] := ':';
      assert scratch[..p + 3] == before + Pair(b[i]) + ":";
      OneMorePair(text, before, b, i);
      p := p + 3;
      i := i + 1;
    }
    assert b[..i] == b;
    if p != 0 {
      p := p - 1;
    }
    ghost var whole := Colons(b);
    assert text + scratch[..p] == HexText(b);
    text := text + scratch[..p];
    wrote := wrote + p;
  }

  lemma {:induction false} NoColons(none: seq<byte>)
    requires none == []
    ensures Colons(none) == []
  {
  }

  lemma {:induction false} OneMorePair(text: string, before: string, b: seq<byte>, i: nat)
    requires i < |b| && text + before == Colons(b[..i])
    ensures text + (before + Pair(b[i]) + ":") == Colons(b[..i + 1])
  {
    hide Pair;
    assert b[..i + 1][..i] == b[..i];
  }

  // ---- Round trip ----

  lemma {:induction false} HexCharBack(n: nat)
    requires n < 16
    ensures IsHex(HexChar(n)) && HexValue(HexChar(n)) == n && !IsSpace(HexChar(n)) && !IsSign(HexChar(n))
  {
  }

  /** The colons seen from the front. */
  lemma {:induction false} ColonsFront(b: seq<byte>)
    requires b != []
    ensures Colons(b) == Pair(b[0]) + ":" + Colons(b[1..])
  {
    hide Pair;
    if |b| == 1 {
      assert b[..0] == [] && b[1..] == [];
    } else {
      var init := b[..|b| - 1];
      ColonsFront(init);
      assert init[1..] == b[1..][..|b| - 2] && b[1..][|b| - 2] == b[|b| - 1];
      JoinText(Pair(b[0]) + ":", Colons(init[1..]), Pair(b[|b| - 1]), ":");
    }
  }

  lemma {:induction false} JoinText(a: string, b: string, c: string, d: string)
    ensures a + b + c + d == a + (b + c + d)
  {
  }

  lemma {:induction false} HexTextFront(b: seq<byte>)
    requires b != []
    ensures HexText(b) == if |b| == 1 then Pair(b[0]) else Pair(b[0]) + ":" + HexText(b[1..])
  {
    hide Pair, Colons;
    ColonsFront(b);
  }

  /** Reading the pairs of a dump. */
  lemma {:induction false} HexBack(out: seq<byte>, b: seq<byte>)
    requires b != []
    ensures HexPairs(out, HexText(b)) == Hexadecimal(out + b)
    decreases |b|
  {
    hide HexText, HexPairs, HexMore, Pair;
    HexTextFront(b);
    if |b| == 1 {
      assert Pair(b[0]) + [] == Pair(b[0]) && b == [b[0]];
      PairRead(out, b[0], []);
      MoreEnds(out + [b[0]], []);
    } else {
      var tail := ":" + HexText(b[1..]);
      BehindColon(Pair(b[0]), HexText(b[1..]));
      PairRead(out, b[0], tail);
      MoreGoesOn(out + [b[0]], tail);
      HexBack(out + [b[0]], b[1..]);
      FirstMoved(out, b);
    }
  }

  lemma {:induction false} BehindColon(pair: string, text: string)
    ensures pair + ":" + text == pair + (":" + text) && (":" + text)[1..] == text
  {
  }

  lemma {:induction false} FirstMoved(out: seq<byte>, b: seq<byte>)
    requires b != []
    ensures out + [b[0]] + b[1..] == out + b
  {
  }

  /** Reading one pair. */
  lemma {:induction false} PairRead(out: seq<byte>, v: byte, tail: string)
    ensures HexPairs(out, Pair(v) + tail) == HexMore(out + [v], tail)
  {
    hide HexValue, HexChar, HexMore, IsHex;
    var t := Pair(v) + tail;
    HexCharBack(v / 16);
    HexCharBack(v % 16);
    assert t[0] == HexChar(v / 16) && t[1..][0] == HexChar(v % 16) && t[1..][1..] == tail;
  }

  lemma {:induction false} MoreEnds(out: seq<byte>, t: string)
    requires t == []
    ensures HexMore(out, t) == Hexadecimal(out)
  {
  }

  lemma {:induction false} MoreGoesOn(out: seq<byte>, t: string)
    requires t != [] && t[0] == ':'
    ensures HexMore(out, t) == HexPairs(out, t[1..])
  {
    hide HexPairs;
    NotOnlySpaces(t, 0);
  }

  /** At least two octets, so a colon follows the first pair and the text is no numeral. */
  lemma {:induction false} HexTextBody(b: seq<byte>)
    requires |b| >= 2
    ensures BodyOf(HexText(b)) == Hexadecimal(b)
  {
    hide HexText, HexPairs, HexChar, HexValue, Span, SkipSpaces;
    HexTextFront(b);
    var t := HexText(b);
    HexCharBack(b[0] / 16);
    HexCharBack(b[0] % 16);
    assert t[0] == HexChar(b[0] / 16) && t[2] == ':';
    SkipNone(t);
    HexBack([], b);
    var n := Span(t);
    assert t[0..] == t && SignLength(t) == 0;
    SpanBelow(t, 2);
    assert t[n..][2 - n] == ':';
    NotOnlySpaces(t[n..], 2 - n);
    assert [] + b == b;
  }

  lemma {:induction false} SpanBelow(t: string, i: nat)
    requires i < |t| && !IsDigit(t[i])
    ensures Span(t) <= i
  {
    if i > 0 && IsDigit(t[0]) {
      SpanBelow(t[1..], i - 1);
    }
  }

  lemma {:induction false} PrintNumeral(v: int)
    ensures Numeral(Print(v)) && NumeralValue(Print(v)) == v
  {
    hide Digits, Num;
    var ds := Digits(if v < 0 then -v else v);
    NumDigits(if v < 0 then -v else v);
    if v < 0 {
      assert Print(v)[1..] == ds;
    } else {
      assert Print(v)[0..] == ds;
    }
  }

  lemma {:induction false} PrintBody(v: int)
    ensures BodyOf(Print(v)) == Decimal(Print(v))
  {
    hide Print, Numeral, BodyOf, NumeralValue;
    PrintNumeral(v);
    var t := Print(v);
    assert t != [] && !IsSpace(t[0]) by { NumeralStart(t); }
    SkipNone(t);
    assert t[0..] == t && t[0..0 + |t|] == t && t[|t|..] == [];
    NumeralThen(t, 0, |t|);
  }

  lemma {:induction false} NumeralStart(t: string)
    requires Numeral(t)
    ensures t != [] && !IsSpace(t[0])
  {
    if SignLength(t) == 0 {
      assert t[0..][0] == t[0];
    }
  }

  /** Only a number that does not fit is printed in hexadecimal, and it has at least nine octets. */
  lemma {:induction false} LongIfBeyond(b: seq<byte>)
    requires !FitsSigned(SignedVal(b))
    ensures |b| >= 9
  {
    hide SignedVal;
    if b == [] {
      EmptyIsZero();
    } else if |b| <= 8 {
      SmallFits(b);
    }
  }

  /**
    Scanning a dump gives the same number: in the shortest form when it fits a word, otherwise the
    very same octets.
   */
  lemma {:induction false} DumpRoundTrip(b: seq<byte>)
    ensures Parse(DumpText(b)) == Consumed(if FitsSigned(SignedVal(b)) then Contents(SignedVal(b)) else b)
    ensures Parse(DumpText(b)).Consumed? ==> SignedVal(Parse(DumpText(b)).octets) == SignedVal(b)
  {
    hide SignedVal, FitsSigned, BodyOf, Strtoimax, Contents, HexText, Print, Numeral, NumeralValue;
    var v := SignedVal(b);
    if FitsSigned(v) {
      PrintBody(v);
      PrintNumeral(v);
      StrtoimaxExact(Print(v));
      ContentsBack(v);
    } else {
      LongIfBeyond(b);
      HexTextBody(b);
    }
  }
}
