/**
  Numeric character references in XML text: what they stand for, digit by digit, and the octets of
  UTF-8 (section 3 of RFC 3629) they are expanded to.
 */
module XerReferences {
  import opened Bits
  import opened Numerals
  import opened XerInteger
  import opened XerSpelling
  import opened XerText

  // ---- UTF-8 ----

  /** The six low-order bits a continuation octet carries, or 64 when it is none. */
  function Carried(c: char): nat {
    if 0x80 <= c as int < 0xC0 then c as int - 0x80 else 64
  }

  /** The code point of the octets of one character, in the shortest form, or None. */
  ghost predicate StandsFor(s: string, v: nat) {
    match |s|
    case 1 => s[0] as int == v < 0x80
    case 2 => 0xC0 <= s[0] as int < 0xE0 && Carries(s) && v == 64 * (s[0] as int - 0xC0) + Carried(s[1]) >= 0x80
    case 3 =>
      && 0xE0 <= s[0] as int < 0xF0 && Carries(s)
      && v == 64 * (64 * (s[0] as int - 0xE0) + Carried(s[1])) + Carried(s[2]) >= 0x800
    case 4 =>
      && 0xF0 <= s[0] as int < 0xF8 && Carries(s)
      && v == 64 * (64 * (64 * (s[0] as int - 0xF0) + Carried(s[1])) + Carried(s[2])) + Carried(s[3]) >= 0x1_0000
    case _ => false
  }

  ghost predicate Carries(s: string) {
    forall i :: 1 <= i < |s| ==> Carried(s[i]) < 64
  }

  /** Six bits at a time. */
  lemma {:induction false} Sixes(v: nat)
    ensures v == 64 * (v / 0x40) + v % 0x40
    ensures v / 0x40 == 64 * (v / 0x1000) + v / 0x40 % 0x40
    ensures v / 0x1000 == 64 * (v / 0x4_0000) + v / 0x1000 % 0x40
  {
    var a := v / 0x40;
    var b := a / 0x40;
    var c := b / 0x40;
    DivModUnique(b, 64 * (a % 0x40) + v % 0x40, 0x1000, v);
    DivModUnique(c, 0x1000 * (b % 0x40) + 64 * (a % 0x40) + v % 0x40, 0x4_0000, v);
  }

  /** What is written for a code point stands for it. */
  lemma {:induction false} Utf8Stands(v: nat)
    requires v <= 0x10FFFF
    ensures StandsFor(Utf8(v), v)
  {
    Sixes(v);
    if v < 0x800 {
      ShortForm(v, v / 0x40, v % 0x40);
    } else if v < 0x1_0000 {
      ThreeOctets(v, v / 0x1000, v / 0x40 % 0x40, v % 0x40);
    } else {
      FourOctets(v, v / 0x4_0000, v / 0x1000 % 0x40, v / 0x40 % 0x40, v % 0x40);
    }
  }

  lemma {:induction false} ShortForm(v: nat, a: nat, b: nat)
    requires v < 0x800 && v == 64 * a + b && b < 64 && a == v / 0x40 && b == v % 0x40
    ensures StandsFor(Utf8(v), v)
  {
  }

  lemma {:induction false} ThreeOctets(v: nat, a: nat, b: nat, c: nat)
    requires 0x800 <= v < 0x1_0000 && v == 64 * (64 * a + b) + c && b < 64 && c < 64
    requires a == v / 0x1000 && b == v / 0x40 % 0x40 && c == v % 0x40
    ensures StandsFor(Utf8(v), v)
  {
    assert Utf8(v) == [(0xE0 + a) as char, (0x80 + b) as char, (0x80 + c) as char];
  }

  lemma {:induction false} FourOctets(v: nat, a: nat, b: nat, c: nat, d: nat)
    requires 0x1_0000 <= v <= 0x10FFFF && v == 64 * (64 * (64 * a + b) + c) + d && b < 64 && c < 64 && d < 64
    requires a == v / 0x4_0000 && b == v / 0x1000 % 0x40 && c == v / 0x40 % 0x40 && d == v % 0x40
    ensures StandsFor(Utf8(v), v)
  {
    assert Utf8(v) == [(0xF0 + a) as char, (0x80 + b) as char, (0x80 + c) as char, (0x80 + d) as char];
  }

  lemma {:induction false} SizeFixed(v: nat, s: string)
    requires StandsFor(s, v)
    ensures |s| == if v < 0x80 then 1 else if v < 0x800 then 2 else if v < 0x1_0000 then 3 else 4
  {
    assert |s| == 2 ==> Carried(s[1]) < 64;
    assert |s| == 3 ==> Carried(s[1]) < 64 && Carried(s[2]) < 64;
  }

  lemma {:induction false} SameDigits(a: int, b: int, x: int, y: int)
    requires 64 * a + x == 64 * b + y && 0 <= x < 64 && 0 <= y < 64
    ensures a == b && x == y
  {
  }

  lemma {:induction false} SameCarried(c: char, d: char)
    requires Carried(c) == Carried(d) < 64
    ensures c == d
  {
  }

  /** And no other octets do. */
  lemma {:induction false} OneForm(v: nat, s: string, t: string)
    requires StandsFor(s, v) && StandsFor(t, v)
    ensures s == t
  {
    hide Carried;
    SizeFixed(v, s);
    SizeFixed(v, t);
    var n := |s|;
    if n == 2 {
      SameDigits(s[0] as int - 0xC0, t[0] as int - 0xC0, Carried(s[1]), Carried(t[1]));
    } else if n == 3 {
      SameDigits(64 * (s[0] as int - 0xE0) + Carried(s[1]), 64 * (t[0] as int - 0xE0) + Carried(t[1]),
                 Carried(s[2]), Carried(t[2]));
      SameDigits(s[0] as int - 0xE0, t[0] as int - 0xE0, Carried(s[1]), Carried(t[1]));
    } else if n == 4 {
      SameDigits(64 * (64 * (s[0] as int - 0xF0) + Carried(s[1])) + Carried(s[2]),
                 64 * (64 * (t[0] as int - 0xF0) + Carried(t[1])) + Carried(t[2]), Carried(s[3]), Carried(t[3]));
      SameDigits(64 * (s[0] as int - 0xF0) + Carried(s[1]), 64 * (t[0] as int - 0xF0) + Carried(t[1]),
                 Carried(s[2]), Carried(t[2]));
      SameDigits(s[0] as int - 0xF0, t[0] as int - 0xF0, Carried(s[1]), Carried(t[1]));
    }
    assert s[0] == t[0];
    forall i | 1 <= i < n ensures s[i] == t[i] {
      SameCarried(s[i], t[i]);
    }
  }

  /** So the octets written are exactly those that stand for the code point. */
  lemma {:induction false} Utf8Exact(v: nat, s: string)
    requires v <= 0x10FFFF
    ensures StandsFor(s, v) <==> s == Utf8(v)
  {
    hide StandsFor, Utf8;
    Utf8Stands(v);
    if StandsFor(s, v) {
      OneForm(v, s, Utf8(v));
    }
  }

  // ---- References ----

  /** The number that digits make in a base. */
  function InBase(ds: seq<nat>, base: nat): nat {
    if ds == [] then 0 else InBase(ds[..|ds| - 1], base) * base + ds[|ds| - 1]
  }

  /** A text of digits, hexadecimal ones in either case. */
  ghost predicate SpellsEach(t: string, ds: seq<nat>) {
    |t| == |ds| && forall i :: 0 <= i < |t| ==> Spells(t[i], ds[i])
  }

  lemma {:induction false} NumberGrows(ds: seq<nat>, base: nat, k: nat)
    requires base > 0 && k <= |ds|
    ensures InBase(ds[..k], base) <= InBase(ds, base)
    decreases |ds|
  {
    if k == |ds| {
      assert ds[..k] == ds;
    } else {
      var init := ds[..|ds| - 1];
      assert ds[..k] == init[..k];
      NumberGrows(init, base, k);
      assert InBase(init, base) * base >= InBase(init, base) by { NoLess(InBase(init, base), base); }
    }
  }

  lemma {:induction false} NoLess(x: nat, base: nat)
    requires base > 0
    ensures x * base >= x
  {
  }

  /** The digits of a reference are taken one by one, while the number stays within the code points. */
  lemma {:induction false} DigitsTaken(base: nat, t: string, ds: seq<nat>, k: nat, rest: string)
    requires base > 0 && SpellsEach(t, ds) && k <= |ds| && InBase(ds[..k], base) <= 0x10FFFF
    ensures Strtoent(base, t[k..] + ";" + rest, InBase(ds[..k], base), k)
            == if InBase(ds, base) <= 0x10FFFF then Found(|ds| + 1, InBase(ds, base)) else NotANumber
    decreases |ds| - k
  {
    hide Spells, HexValue, IsHex, InBase;
    var s := t[k..] + ";" + rest;
    if k == |ds| {
      assert ds[..k] == ds && s[0] == ';';
    } else {
      assert s[0] == t[k] && s[1..] == t[k + 1..] + ";" + rest;
      SpelledDigit(t[k], ds[k]);
      NotSemicolon(t[k], ds[k]);
      OneMore(ds, base, k);
      NumberGrows(ds, base, k + 1);
      if InBase(ds[..k + 1], base) <= 0x10FFFF {
        DigitsTaken(base, t, ds, k + 1, rest);
      }
    }
  }

  lemma {:induction false} NotSemicolon(c: char, n: nat)
    requires Spells(c, n)
    ensures c != ';' && c != 'x'
  {
  }

  lemma {:induction false} OneMore(ds: seq<nat>, base: nat, k: nat)
    requires k < |ds|
    ensures InBase(ds[..k + 1], base) == InBase(ds[..k], base) * base + ds[k]
  {
    assert ds[..k + 1][..k] == ds[..k];
  }

  lemma {:induction false} NoNumber(none: seq<nat>, base: nat)
    requires none == []
    ensures InBase(none, base) == 0
  {
  }

  /**
    A hexadecimal reference, in either case and with any zeros in front, becomes the octets of its code
    point; beyond the code points the text stays as it is, and a reference to 0 aborts.
   */
  lemma {:induction false} HexadecimalReference(t: string, ds: seq<nat>, rest: string, last: bool)
    requires SpellsEach(t, ds)
    ensures var v, text := InBase(ds, 16), "&#x" + (t + ";" + rest);
            Unescaped(text, last)
            == if v == 0 then Aborted else if v <= 0x10FFFF then Ahead(Utf8(v), |t| + 4, Unescaped(rest, last))
               else Ahead("&", 1, Unescaped("#x" + (t + ";" + rest), last))
  {
    hide Spells, InBase, Utf8, Strtoent, NamedReference, Unescaped;
    var text := "&#x" + (t + ";" + rest);
    assert ds[..0] == [] && t[0..] == t;
    NoNumber(ds[..0], 16);
    DigitsTaken(16, t, ds, 0, rest);
    assert text[3..] == t + ";" + rest && text[2] == 'x';
    UnescapeFirst(text, last);
    assert text[|t| + 4..] == rest && text[1..] == "#x" + (t + ";" + rest);
  }

  /** A decimal one likewise, from its digits; the converter takes letters for digits there as well. */
  lemma {:induction false} DecimalDigitsReference(t: string, ds: seq<nat>, rest: string, last: bool)
    requires SpellsEach(t, ds)
    ensures var v, text := InBase(ds, 10), "&#" + (t + ";" + rest);
            Unescaped(text, last)
            == if v == 0 then Aborted else if v <= 0x10FFFF then Ahead(Utf8(v), |t| + 3, Unescaped(rest, last))
               else Ahead("&", 1, Unescaped("#" + (t + ";" + rest), last))
  {
    hide Spells, InBase, Utf8, Strtoent, NamedReference, Unescaped;
    var text := "&#" + (t + ";" + rest);
    assert ds[..0] == [] && t[0..] == t;
    NoNumber(ds[..0], 10);
    DigitsTaken(10, t, ds, 0, rest);
    assert text[2..] == t + ";" + rest && text[2] != 'x' by {
      if t != [] {
        assert text[2] == t[0];
        NotSemicolon(t[0], ds[0]);
      }
    }
    UnescapeFirst(text, last);
    assert text[|t| + 3..] == rest && text[1..] == "#" + (t + ";" + rest);
  }

  // ---- Named references, and what is none ----

  /** A semicolon among the first five characters. */
  ghost predicate SoonEnded(t: string) {
    exists k :: 1 <= k < 5 && k < |t| && t[k] == ';'
  }

  lemma {:induction false} FirstSemicolon(t: string)
    requires t != [] && t[0] == '&'
    ensures Semicolon(t).Some? <==> SoonEnded(t)
    ensures Semicolon(t).Some? ==>
              && 1 <= Semicolon(t).value < 5 && Semicolon(t).value < |t| && t[Semicolon(t).value] == ';'
              && forall k :: 1 <= k < Semicolon(t).value ==> t[k] != ';'
  {
  }

  /**
    An ampersand that does not start a numeric reference: three names are expanded; with any other semicolon soon
    behind it stands for itself; without one more text is waited for, and when there is none it stands for itself.
   */
  lemma {:induction false} NamedExactly(t: string, last: bool)
    requires t != [] && t[0] == '&' && (|t| > 1 ==> t[1] != '#')
    ensures Unescaped(t, last)
            == if "&amp;" <= t then Ahead("&", 5, Unescaped(t[5..], last))
               else if "&lt;" <= t then Ahead("<", 4, Unescaped(t[4..], last))
               else if "&gt;" <= t then Ahead(">", 4, Unescaped(t[4..], last))
               else if SoonEnded(t) || last then Ahead("&", 1, Unescaped(t[1..], last))
               else Converted([], 0)
  {
    hide Unescaped, NumericReference, SoonEnded;
    UnescapeFirst(t, last);
    if |t| > 1 {
      NamesSpelled(t);
    } else {
      AloneEnded(t);
    }
  }

  lemma {:induction false} AloneEnded(t: string)
    requires |t| == 1
    ensures !SoonEnded(t)
  {
  }

  lemma {:induction false} NamesSpelled(t: string)
    requires |t| > 1 && t[0] == '&' && t[1] != '#'
    ensures NamedReference(t)
            == if "&amp;" <= t then Expansion("&", 5)
               else if "&lt;" <= t then Expansion("<", 4)
               else if "&gt;" <= t then Expansion(">", 4)
               else if SoonEnded(t) then Expansion("&", 1)
               else Stall
  {
    hide SoonEnded;
    FirstSemicolon(t);
    Spelled("&amp;", t);
    Spelled("&lt;", t);
    Spelled("&gt;", t);
    hide Semicolon;
  }

  lemma {:induction false} Spelled(name: string, t: string)
    ensures name <= t <==> |name| <= |t| && forall k :: 0 <= k < |name| ==> t[k] == name[k]
  {
  }

  /** What follows the digits of a reference that does not end. */
  lemma {:induction false} DigitsThen(base: nat, t: string, ds: seq<nat>, k: nat, rest: string)
    requires base > 0 && SpellsEach(t, ds) && k <= |ds| && InBase(ds[..k], base) <= 0x10FFFF
    requires rest != [] ==> rest[0] != ';' && forall n :: 0 <= n < 16 ==> !Spells(rest[0], n)
    ensures Strtoent(base, t[k..] + rest, InBase(ds[..k], base), k)
            == if InBase(ds, base) <= 0x10FFFF && rest == [] then Ended else NotANumber
    decreases |ds| - k
  {
    hide Spells, HexValue, IsHex, InBase;
    var s := t[k..] + rest;
    if k == |ds| {
      assert ds[..k] == ds && s == rest;
      if rest != [] {
        NoDigit(rest[0]);
      }
    } else {
      assert s[0] == t[k] && s[1..] == t[k + 1..] + rest;
      SpelledDigit(t[k], ds[k]);
      NotSemicolon(t[k], ds[k]);
      OneMore(ds, base, k);
      NumberGrows(ds, base, k + 1);
      if InBase(ds[..k + 1], base) <= 0x10FFFF {
        DigitsThen(base, t, ds, k + 1, rest);
      }
    }
  }

  lemma {:induction false} NoDigit(c: char)
    requires forall n :: 0 <= n < 16 ==> !Spells(c, n)
    ensures !IsHex(c)
  {
    if IsHex(c) {
      var n := HexValue(c);
      assert Spells(c, n);
    }
  }

  /**
    A numeric reference that does not end with a semicolon: at the end of the text more is waited for, while the
    number can still be a code point; otherwise the ampersand stands for itself.
   */
  lemma {:induction false} NumericUnended(hexadecimal: bool, t: string, ds: seq<nat>, rest: string, last: bool)
    requires SpellsEach(t, ds) && (!hexadecimal && t == [] && rest != [] ==> rest[0] != 'x')
    requires rest != [] ==> rest[0] != ';' && forall n :: 0 <= n < 16 ==> !Spells(rest[0], n)
    ensures var text := (if hexadecimal then "&#x" else "&#") + (t + rest);
            var base := if hexadecimal then 16 else 10;
            Unescaped(text, last)
            == if rest == [] && InBase(ds, base) <= 0x10FFFF && !last then Converted([], 0)
               else Ahead("&", 1, Unescaped(text[1..], last))
  {
    hide Spells, InBase, Strtoent, NamedReference, Unescaped;
    var text := (if hexadecimal then "&#x" else "&#") + (t + rest);
    assert ds[..0] == [] && t[0..] == t;
    if hexadecimal {
      NoNumber(ds[..0], 16);
      DigitsThen(16, t, ds, 0, rest);
      assert text[3..] == t + rest && text[2] == 'x';
    } else {
      NoNumber(ds[..0], 10);
      DigitsThen(10, t, ds, 0, rest);
      assert text[2..] == t + rest;
      if t != [] {
        assert text[2] == t[0];
        NotSemicolon(t[0], ds[0]);
      }
    }
    UnescapeFirst(text, last);
  }
}
