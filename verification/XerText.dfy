/**
  Character strings as XML text: the escapes of section 11.15 of X.680, and the converter that
  expands references.  A character stands for an octet of the string.
 */
module XerText {
  import opened Options
  import opened Numerals
  import opened XerInteger

  // ---- Escaping ----

  /** The escapes of the characters below the space. */
  const ESCAPES: seq<string> := [
    "<nul/>", "<soh/>", "<stx/>", "<etx/>", "<eot/>", "<enq/>", "<ack/>", "<bel/>",
    "<bs/>", "\t", "\n", "<vt/>", "<ff/>", "\r", "<so/>", "<si/>",
    "<dle/>", "<dc1/>", "<dc2/>", "<dc3/>", "<dc4/>", "<nak/>", "<syn/>", "<etb/>",
    "<can/>", "<em/>", "<sub/>", "<esc/>", "<is4/>", "<is3/>", "<is2/>", "<is1/>"]

  function Escape(c: char): string {
    if c < ' ' then ESCAPES[c as int]
    else if c == '&' then "&amp;" else if c == '<' then "&lt;" else if c == '>' then "&gt;" else [c]
  }

  /** Whether the table has an entry for a character. */
  predicate HasEscape(c: char) {
    c < ' ' || c == '&' || c == '<' || c == '>'
  }

  /** Characters that have no plain form. */
  predicate IsControl(c: char) {
    c < ' ' && c != '\t' && c != '\n' && c != '\r'
  }

  function Escaped(t: string): string {
    if t == [] then [] else Escape(t[0]) + Escaped(t[1..])
  }

  /** OCTET_STRING_encode_xer_utf8: runs of characters between escapes are handed on in one piece. */
  method EncodeText(t: string) returns (text: string)
    ensures text == Escaped(t)
  {
    hide Escape, Escaped;
    text := [];
    var ss, buf := 0, 0;
    assert t[0..] == t && text + t[0..0] + Escaped(t) == Escaped(t);
    while buf < |t|
      invariant 0 <= ss <= buf <= |t| && text + t[ss..buf] + Escaped(t[buf..]) == Escaped(t)
    {
      var ch := t[buf];
      EscapeNext(text, t, ss, buf);
      if HasEscape(ch) {
        text := text + t[ss..buf] + Escape(ch);
        ss := buf + 1;
      }
      buf := buf + 1;
    }
    NoneEscaped(t[buf..]);
    assert text + t[ss..buf] + [] == text + t[ss..buf];
    text := text + t[ss..buf];
  }

  lemma {:induction false} NoneEscaped(none: string)
    requires none == []
    ensures Escaped(none) == []
  {
  }

  lemma {:induction false} EscapeNext(text: string, t: string, ss: nat, buf: nat)
    requires ss <= buf < |t|
    ensures var rest, ch := Escaped(t[buf + 1..]), t[buf];
            && text + t[ss..buf] + Escaped(t[buf..]) == text + t[ss..buf] + Escape(ch) + t[buf + 1..buf + 1] + rest
            && (!HasEscape(ch) ==> text + t[ss..buf] + Escaped(t[buf..]) == text + t[ss..buf + 1] + rest)
  {
    hide Escape;
    var rest, ch := Escaped(t[buf + 1..]), t[buf];
    assert t[buf..][0] == ch && t[buf..][1..] == t[buf + 1..];
    Joins(text, t[ss..buf], Escape(ch), rest);
    assert t[ss..buf + 1] == t[ss..buf] + [ch] && t[buf + 1..buf + 1] == [];
    Plain(ch);
  }

  lemma {:induction false} Joins(a: string, b: string, c: string, d: string)
    ensures a + b + (c + d) == a + b + c + d && a + b + c + d == a + (b + c) + d && a + b + c + [] == a + b + c
  {
  }

  lemma {:induction false} Plain(c: char)
    ensures !HasEscape(c) || (c < ' ' && !IsControl(c)) ==> Escape(c) == [c]
  {
  }

  /** Characters are escaped one by one. */
  lemma {:induction false} EscapedApart(a: string, b: string)
    ensures Escaped(a + b) == Escaped(a) + Escaped(b)
  {
    hide Escape, Escaped;
    EscapedFirst(a);
    EscapedFirst(a + b);
    if a == [] {
      assert a + b == b && [] + Escaped(b) == Escaped(b);
    } else {
      EscapedApart(a[1..], b);
      assert (a + b)[1..] == a[1..] + b;
      Joins([], Escape(a[0]), Escaped(a[1..]), Escaped(b));
    }
  }

  lemma {:induction false} EscapedFirst(t: string)
    ensures Escaped(t) == if t == [] then [] else Escape(t[0]) + Escaped(t[1..])
  {
    hide Escape;
  }

  /** Three characters are written by name; others from the space on, tabs and line ends stand for themselves. */
  lemma {:induction false} EscapedAlone(c: char)
    ensures Escaped("&") == "&amp;" && Escaped("<") == "&lt;" && Escaped(">") == "&gt;"
    ensures c as int in {9, 10, 13} || (c as int >= 32 && c != '&' && c != '<' && c != '>') ==> Escaped([c]) == [c]
  {
    hide Escape;
    AloneEscape("&"[0]);
    AloneEscape("<"[0]);
    AloneEscape(">"[0]);
    AloneEscape(c);
    NamedEscapes();
    Plain(c);
  }

  lemma {:induction false} AloneEscape(c: char)
    ensures Escaped([c]) == Escape(c)
  {
    hide Escape;
    assert [c][1..] == [] && Escaped([]) == [];
  }

  lemma {:induction false} NamedEscapes()
    ensures Escape('&') == "&amp;" && Escape('<') == "&lt;" && Escape('>') == "&gt;"
  {
  }

  // ---- Control characters as tags ----

  /** What distinguishes an escape: its one character, or the first three behind its bracket. */
  function Mark(s: string): int {
    if |s| == 1 then s[0] as int
    else if |s| >= 4 then 1000000 * (s[1] as int) + 1000 * (s[2] as int) + s[3] as int
    else 0
  }

  function MarkOf(i: nat): int {
    if i < 32 then Mark(ESCAPES[i]) else -1
  }

  lemma {:induction false} MarksFrom0()
    ensures MarkOf(0) == 110117108 && MarkOf(1) == 115111104
    ensures MarkOf(2) == 115116120 && MarkOf(3) == 101116120
    ensures MarkOf(4) == 101111116 && MarkOf(5) == 101110113
    ensures MarkOf(6) == 97099107 && MarkOf(7) == 98101108
  {
  }

  lemma {:induction false} MarksFrom8()
    ensures MarkOf(8) == 98115047 && MarkOf(9) == 9
    ensures MarkOf(10) == 10 && MarkOf(11) == 118116047
    ensures MarkOf(12) == 102102047 && MarkOf(13) == 13
    ensures MarkOf(14) == 115111047 && MarkOf(15) == 115105047
  {
  }

  lemma {:induction false} MarksFrom16()
    ensures MarkOf(16) == 100108101 && MarkOf(17) == 100099049
    ensures MarkOf(18) == 100099050 && MarkOf(19) == 100099051
    ensures MarkOf(20) == 100099052 && MarkOf(21) == 110097107
    ensures MarkOf(22) == 115121110 && MarkOf(23) == 101116098
  {
  }

  lemma {:induction false} MarksFrom24()
    ensures MarkOf(24) == 99097110 && MarkOf(25) == 101109047
    ensures MarkOf(26) == 115117098 && MarkOf(27) == 101115099
    ensures MarkOf(28) == 105115052 && MarkOf(29) == 105115051
    ensures MarkOf(30) == 105115050 && MarkOf(31) == 105115049
  {
  }

  lemma {:induction false} Distinct(i: nat, j: nat)
    requires i < 32 && j < 32 && MarkOf(i) == MarkOf(j)
    ensures i == j
  {
    hide *;
    MarksFrom0();
    MarksFrom8();
    MarksFrom16();
    MarksFrom24();
  }

  /** OS__check_escaped_control_char: the number of the escape a tag is equal to, or -1. */
  method CheckEscapedControlChar(tag: string) returns (i: int)
    ensures if i == -1 then forall k :: 0 <= k < 32 ==> tag != ESCAPES[k] else 0 <= i < 32 && tag == ESCAPES[i]
  {
    i := 0;
    while i < 32
      invariant 0 <= i <= 32 && forall k :: 0 <= k < i ==> tag != ESCAPES[k]
    {
      if ESCAPES[i] == tag {
        return;
      }
      i := i + 1;
    }
    i := -1;
  }

  /** OCTET_STRING__handle_control_chars: the tag of every control character is taken for just that character. */
  method HandleControlChars(st: string, tag: string) returns (st': string, rc: int)
    ensures forall c: char :: c < ' ' && tag == Escape(c) ==> rc == 0 && st' == st + [c]
    ensures (forall c: char :: c < ' ' ==> tag != Escape(c)) ==> rc == -1 && st' == st
  {
    var i := CheckEscapedControlChar(tag);
    if i >= 0 {
      OnlyEscape(i);
      return st + [i as char], 0;
    }
    forall c: char | c < ' ' ensures tag != Escape(c) {
      assert tag != ESCAPES[c as int];
    }
    return st, -1;
  }

  lemma {:induction false} OnlyEscape(i: nat)
    requires i < 32
    ensures Escape(i as char) == ESCAPES[i]
    ensures forall c: char :: c < ' ' && Escape(c) == ESCAPES[i] ==> c == i as char
  {
    hide Mark;
    forall c: char | c < ' ' && Escape(c) == ESCAPES[i] ensures c == i as char {
      Distinct(i, c as int);
    }
  }

  // ---- Expanding references ----

  /** A number written in a reference: what OS__strtoent makes of it. */
  datatype Number = Found(length: nat, value: nat) | Ended | NotANumber

  /** Digits up to a semicolon; hexadecimal digits are taken in a decimal reference as well. */
  function Strtoent(base: nat, t: string, value: nat, i: nat): (r: Number)
    requires value <= 0x10FFFF
    ensures r.Found? ==> i < r.length <= i + |t| && r.value <= 0x10FFFF
    ensures r.Found? && r.value > value ==> r.length >= i + 2
  {
    if t == [] then Ended
    else if t[0] == ';' then Found(i + 1, value)
    else if !IsHex(t[0]) then NotANumber
    else
      var next := value * base + HexValue(t[0]);
      if next > 0x10FFFF then NotANumber else Strtoent(base, t[1..], next, i + 1)
  }

  /** The octets of a code point, as characters. */
  function Utf8(v: nat): (s: string)
    requires v <= 0x10FFFF
    ensures 1 <= |s| <= 4
  {
    if v < 0x80 then [v as char]
    else if v < 0x800 then [(0xC0 + v / 0x40) as char, (0x80 + v % 0x40) as char]
    else if v < 0x1_0000 then
      [(0xE0 + v / 0x1000) as char, (0x80 + v / 0x40 % 0x40) as char, (0x80 + v % 0x40) as char]
    else
      [(0xF0 + v / 0x4_0000) as char, (0x80 + v / 0x1000 % 0x40) as char,
       (0x80 + v / 0x40 % 0x40) as char, (0x80 + v % 0x40) as char]
  }

  /** What an ampersand comes to: characters for so much of the text, or more text is needed. */
  datatype Expansion = Expansion(out: string, length: nat) | Stall | Abort

  function NumericReference(t: string): (r: Expansion)
    requires |t| >= 2 && t[0] == '&' && t[1] == '#'
    ensures r.Expansion? ==> 1 <= |r.out| <= r.length <= |t|
  {
    if |t| == 2 then Stall
    else
      var (skip, base) := if t[2] == 'x' then (3, 16) else (2, 10);
      match Strtoent(base, t[skip..], 0, 0)
      case NotANumber => Expansion("&", 1)
      case Ended => Stall
      case Found(length, value) => if value == 0 then Abort else Expansion(Utf8(value), skip + length)
  }

  /** Where the first semicolon among five characters stands, as memchr finds it. */
  function Semicolon(t: string): Option<nat> {
    if |t| > 1 && t[1] == ';' then Some(1)
    else if |t| > 2 && t[2] == ';' then Some(2)
    else if |t| > 3 && t[3] == ';' then Some(3)
    else if |t| > 4 && t[4] == ';' then Some(4)
    else None
  }

  function NamedReference(t: string): (r: Expansion)
    requires |t| >= 2 && t[0] == '&'
    ensures r.Expansion? ==> 1 <= |r.out| <= r.length <= |t|
  {
    var sc := Semicolon(t);
    if sc.None? then Stall
    else if sc.value == 4 && t[1] == 'a' && t[2] == 'm' && t[3] == 'p' then Expansion("&", 5)
    else if sc.value == 3 && t[1] == 'l' && t[2] == 't' then Expansion("<", 4)
    else if sc.value == 3 && t[1] == 'g' && t[2] == 't' then Expansion(">", 4)
    else Expansion("&", 1)
  }

  function Reference(t: string, last: bool): (r: Expansion)
    requires t != [] && t[0] == '&'
    ensures r.Expansion? ==> 1 <= |r.out| <= r.length <= |t|
    ensures last ==> !r.Stall?
  {
    var e := if |t| == 1 then Stall else if t[1] == '#' then NumericReference(t) else NamedReference(t);
    if e.Stall? && last then Expansion("&", 1) else e
  }

  /** The characters converted and how many were taken; a reference to character 0 aborts the program. */
  datatype Converted = Converted(out: string, taken: nat) | Aborted

  /** The text with its references expanded, as far as it goes. */
  function Unescaped(t: string, last: bool): (r: Converted)
    ensures r.Converted? ==> |r.out| <= r.taken <= |t|
    decreases |t|
  {
    if t == [] then Converted([], 0)
    else
      var e := if t[0] == '&' then Reference(t, last) else Expansion([t[0]], 1);
      match e
      case Stall => Converted([], 0)
      case Abort => Aborted
      case Expansion(out, n) =>
        var r := Unescaped(t[n..], last);
        if r.Aborted? then Aborted else Converted(out + r.out, n + r.taken)
  }

  /** OCTET_STRING__convert_entrefs; what it appends never exceeds the room made for it, one octet per character. */
  method ConvertEntrefs(st: string, chunk: string, last: bool) returns (st': string, rc: int)
    ensures var r := Unescaped(chunk, last);
            if r.Converted? then st' == st + r.out && rc == r.taken else rc == -2
    ensures rc >= 0 ==> |st'| <= |st| + |chunk|
  {
    hide Unescaped, Reference;
    st', rc := st, 0;
    ghost var goal := Unescaped(chunk, last);
    assert chunk[0..] == chunk && Ahead(st', 0, goal) == Ahead(st, 0, goal);
    while rc < |chunk|
      invariant 0 <= rc <= |chunk|
      invariant Ahead(st', rc, Unescaped(chunk[rc..], last)) == Ahead(st, 0, goal)
    {
      var t := chunk[rc..];
      UnescapeStep(st', chunk, rc, last);
      var e := if t[0] == '&' then Reference(t, last) else Expansion([t[0]], 1);
      if e.Stall? {
        return;
      }
      if e.Abort? {
        return st', -2;
      }
      st', rc := st' + e.out, rc + e.length;
    }
    assert chunk[rc..] == [];
    NothingLeft(last);
    assert st' + [] == st';
  }

  /** What has been converted, in front of what the rest of the text gives. */
  ghost function Ahead(st: string, taken: nat, r: Converted): Converted {
    if r.Aborted? then Aborted else Converted(st + r.out, taken + r.taken)
  }

  lemma {:induction false} NothingLeft(last: bool)
    ensures Unescaped([], last) == Converted([], 0)
  {
  }

  lemma {:induction false} UnescapeStep(done: string, chunk: string, at: nat, last: bool)
    requires at < |chunk|
    ensures var t := chunk[at..];
            var whole := Ahead(done, at, Unescaped(t, last));
            var e := if t[0] == '&' then Reference(t, last) else Expansion([t[0]], 1);
            match e
            case Stall => whole == Converted(done, at)
            case Abort => whole == Aborted
            case Expansion(out, n) =>
              at + n <= |chunk| && whole == Ahead(done + out, at + n, Unescaped(chunk[at + n..], last))
  {
    hide Reference, Unescaped, Ahead;
    var t := chunk[at..];
    var e := if t[0] == '&' then Reference(t, last) else Expansion([t[0]], 1);
    UnescapeFirst(t, last);
    if e.Expansion? {
      assert t[e.length..] == chunk[at + e.length..];
      AheadTwice(done, at, e.out, e.length, Unescaped(t[e.length..], last));
    } else {
      AheadNothing(done, at);
    }
  }

  lemma {:induction false} UnescapeFirst(t: string, last: bool)
    requires t != []
    ensures var e := if t[0] == '&' then Reference(t, last) else Expansion([t[0]], 1);
            match e
            case Stall => Unescaped(t, last) == Converted([], 0)
            case Abort => Unescaped(t, last) == Aborted
            case Expansion(out, n) => n <= |t| && Unescaped(t, last) == Ahead(out, n, Unescaped(t[n..], last))
  {
    hide Reference;
  }

  lemma {:induction false} AheadTwice(done: string, at: nat, out: string, n: nat, r: Converted)
    ensures Ahead(done, at, Ahead(out, n, r)) == Ahead(done + out, at + n, r)
  {
    if r.Converted? {
      assert done + (out + r.out) == done + out + r.out;
    }
  }

  lemma {:induction false} AheadNothing(done: string, at: nat)
    ensures Ahead(done, at, Converted([], 0)) == Converted(done, at) && Ahead(done, at, Aborted) == Aborted
  {
    assert done + [] == done;
  }

  // ---- Round trips ----

  /** A named reference in front of anything is expanded and taken whole. */
  lemma {:induction false} UnescapeReference(reference: string, c: char, rest: string, last: bool)
    requires (reference, c) in {("&amp;", '&'), ("&lt;", '<'), ("&gt;", '>')}
    ensures Unescaped(reference + rest, last) == Ahead([c], |reference|, Unescaped(rest, last))
  {
    hide NumericReference;
    var t := reference + rest;
    assert t[|reference|..] == rest && forall i :: 0 <= i < |reference| ==> t[i] == reference[i];
    assert Reference(t, last) == Expansion([c], |reference|);
  }

  /** An escaped character in front of anything is taken back whole. */
  lemma {:induction false} UnescapeOne(c: char, rest: string, last: bool)
    requires !IsControl(c)
    ensures Unescaped(Escape(c) + rest, last) == Ahead([c], |Escape(c)|, Unescaped(rest, last))
  {
    if c == '&' || c == '<' || c == '>' {
      hide Unescaped;
      UnescapeReference(Escape(c), c, rest, last);
    } else {
      Plain(c);
      hide Escape;
      assert ([c] + rest)[1..] == rest;
    }
  }

  predicate NoControl(t: string) {
    forall i :: 0 <= i < |t| ==> !IsControl(t[i])
  }

  /** Text without control characters comes back from its escaped form, all of which is taken. */
  lemma {:induction false} TextRoundTrip(t: string, last: bool)
    requires NoControl(t)
    ensures Unescaped(Escaped(t), last) == Converted(t, |Escaped(t)|)
  {
    hide Unescaped, Escape, IsControl;
    if t == [] {
      NothingLeft(last);
    } else {
      TextRoundTrip(t[1..], last);
      UnescapeOne(t[0], Escaped(t[1..]), last);
      assert t == [t[0]] + t[1..];
    }
  }

  /** Encoder and converter together. */
  method TransferText(t: string) returns (back: string)
    requires NoControl(t)
    ensures back == t
  {
    hide Unescaped, Escaped;
    var text := EncodeText(t);
    TextRoundTrip(t, true);
    var rc;
    back, rc := ConvertEntrefs([], text, true);
    assert [] + t == t;
  }

  /** The digits of a number in a decimal reference. */
  lemma {:induction false} StrtoentDigits(ds: string, k: nat, rest: string)
    requires AllDigits(ds) && k <= |ds| && Num(ds) <= 0x10FFFF && Num(ds[..k]) <= 0x10FFFF
    ensures Strtoent(10, ds[k..] + ";" + rest, Num(ds[..k]), k) == Found(|ds| + 1, Num(ds))
    decreases |ds| - k
  {
    hide Num;
    var t := ds[k..] + ";" + rest;
    if k == |ds| {
      assert ds[..k] == ds && t[0] == ';';
    } else {
      NumStep(ds, k);
      NumPrefix(ds, k + 1, |ds|);
      assert ds[..|ds|] == ds;
      assert t[0] == ds[k] && t[1..] == ds[k + 1..] + ";" + rest;
      StrtoentDigits(ds, k + 1, rest);
    }
  }

  /** Every code point but 0 comes back from its decimal reference, in UTF-8. */
  lemma {:induction false} DecimalReference(v: nat, rest: string, last: bool)
    requires 0 < v <= 0x10FFFF
    ensures var t := "&#" + Digits(v) + ";" + rest;
            Unescaped(t, last) == Ahead(Utf8(v), |Digits(v)| + 3, Unescaped(rest, last))
  {
    hide Utf8, Strtoent, Digits, Num, NamedReference;
    var ds := Digits(v);
    var t := "&#" + ds + ";" + rest;
    NumDigits(v);
    assert Num(ds[..0]) == 0 by { assert ds[..0] == []; NumEmpty(); }
    StrtoentDigits(ds, 0, rest);
    assert t[2..] == ds[0..] + ";" + rest && t[2] == ds[0] && IsDigit(t[2]);
    assert Reference(t, last) == Expansion(Utf8(v), |ds| + 3);
    assert t[|ds| + 3..] == rest;
  }
}
