/**
  The patterns the backend finds keys with, and what can be told of a pattern without trying keys:
  whether it finds some, or every, string that starts in a given way.
 */
module SdlGlob {
  predicate IsGlob(c: char) {
    c == '*' || c == '?' || c == '[' || c == '\\'
  }

  predicate NoGlob(s: string) {
    forall i :: 0 <= i < |s| ==> !IsGlob(s[i])
  }

  predicate Starts(s: string, p: string) {
    |p| <= |s| && s[..|p|] == p
  }

  // ---- Matching ----

  /** Redis patterns: `*`, `?`, `\x` and character classes. */
  predicate Glob(p: string, s: string)
    decreases |p| + |s|
  {
    if p == [] then s == []
    else if p[0] == '*' then Glob(p[1..], s) || (s != [] && Glob(p, s[1..]))
    else s != [] && Admits(p, s[0]) && Glob(Past(p), s[1..])
  }

  /** Whether the element a pattern begins with, not a star, matches a character. */
  predicate Admits(p: string, c: char)
    requires p != []
  {
    if p[0] == '?' then true
    else if p[0] == '\\' && |p| >= 2 then c == p[1]
    else if p[0] == '[' then InClass(Members(p), c) != Negated(p)
    else c == p[0]
  }

  /** What follows that element; a class that is not closed extends to the end. */
  function Past(p: string): (q: string)
    requires p != []
    ensures |q| < |p|
  {
    if p[0] == '\\' && |p| >= 2 then p[2..]
    else if p[0] == '[' then Members(p)[ClassLength(Members(p))..]
    else p[1..]
  }

  predicate Negated(p: string)
    requires p != []
  {
    |p| >= 2 && p[1] == '^'
  }

  function Members(p: string): (q: string)
    requires p != []
    ensures |q| < |p|
  {
    if Negated(p) then p[2..] else p[1..]
  }

  function ClassLength(p: string): (n: nat)
    ensures n <= |p|
  {
    if p == [] then 0
    else if p[0] == '\\' && |p| >= 2 then 2 + ClassLength(p[2..])
    else if p[0] == ']' then 1
    else if |p| >= 3 && p[1] == '-' then 3 + ClassLength(p[3..])
    else 1 + ClassLength(p[1..])
  }

  predicate InClass(p: string, c: char) {
    if p == [] || p[0] == ']' then false
    else if p[0] == '\\' && |p| >= 2 then p[1] == c || InClass(p[2..], c)
    else if |p| >= 3 && p[1] == '-' then
      (if p[0] <= p[2] then p[0] <= c <= p[2] else p[2] <= c <= p[0]) || InClass(p[3..], c)
    else p[0] == c || InClass(p[1..], c)
  }

  lemma {:induction false} StarMatches(s: string)
    ensures Glob("*", s)
  {
    if s != [] {
      StarMatches(s[1..]);
    }
    assert "*"[1..] == [];
  }

  /** A pattern without special characters and a star match exactly what starts with it. */
  lemma {:induction false} LiteralStar(p: string, s: string)
    requires NoGlob(p)
    ensures Glob(p + "*", s) <==> Starts(s, p)
    decreases |p|
  {
    if p == [] {
      assert p + "*" == "*";
      StarMatches(s);
    } else {
      assert !IsGlob(p[0]);
      assert (p + "*")[0] == p[0] && (p + "*")[1..] == p[1..] + "*";
      if s != [] {
        LiteralStar(p[1..], s[1..]);
        assert Starts(s, p) <==> s[0] == p[0] && Starts(s[1..], p[1..]) by { StartsStep(s, p); }
      }
    }
  }

  lemma {:induction false} StartsStep(s: string, p: string)
    requires s != [] && p != []
    ensures Starts(s, p) <==> s[0] == p[0] && Starts(s[1..], p[1..])
  {
    if Starts(s, p) {
      assert s[1..][..|p| - 1] == s[..|p|][1..];
    }
    if s[0] == p[0] && Starts(s[1..], p[1..]) {
      assert s[..|p|] == [s[0]] + s[1..][..|p| - 1];
      assert p == [p[0]] + p[1..];
    }
  }

  // ---- What the special characters mean ----

  /** A star is any run of characters. */
  lemma {:induction false} AnyRun(p: string, s: string)
    ensures Glob("*" + p, s) <==> exists k :: 0 <= k <= |s| && Glob(p, s[k..])
    decreases |s|
  {
    var q := "*" + p;
    assert q[0] == '*' && q[1..] == p && s[0..] == s;
    if s != [] {
      AnyRun(p, s[1..]);
      assert forall k :: 0 <= k < |s| ==> s[1..][k..] == s[k + 1..];
      if k :| 0 <= k <= |s| && Glob(p, s[k..]) {
        assert k > 0 ==> Glob(p, s[1..][k - 1..]);
      }
    }
  }

  lemma {:induction false} AnyOne(p: string, s: string)
    ensures Glob("?" + p, s) <==> s != [] && Glob(p, s[1..])
  {
    assert ("?" + p)[1..] == p;
  }

  lemma {:induction false} ItselfOne(x: char, p: string, s: string)
    requires x != '*' && x != '?' && x != '[' && x != '\\'
    ensures Glob([x] + p, s) <==> s != [] && s[0] == x && Glob(p, s[1..])
  {
    assert ([x] + p)[1..] == p;
  }

  lemma {:induction false} EscapedOne(x: char, p: string, s: string)
    ensures Glob(['\\', x] + p, s) <==> s != [] && s[0] == x && Glob(p, s[1..])
  {
    assert (['\\', x] + p)[2..] == p;
  }

  /** A member of a class: a character, one behind a backslash, or a range, written either way round. */
  datatype Item = One(c: char) | Quoted(c: char) | Between(lo: char, hi: char) {
    function Text(): string {
      match this
      case One(c) => [c]
      case Quoted(c) => ['\\', c]
      case Between(lo, hi) => [lo, '-', hi]
    }

    predicate Holds(x: char) {
      match this
      case One(c) => x == c
      case Quoted(c) => x == c
      case Between(lo, hi) => lo <= x <= hi || hi <= x <= lo
    }

    /** It cannot be taken for anything else. */
    predicate Clear() {
      Quoted? || (Text()[0] != ']' && Text()[0] != '\\' && Text()[0] != '-')
    }
  }

  function Items(items: seq<Item>): string {
    if items == [] then [] else items[0].Text() + Items(items[1..])
  }

  lemma {:induction false} NextNotDash(items: seq<Item>, p: string)
    requires forall i :: 0 <= i < |items| ==> items[i].Clear()
    ensures (Items(items) + "]" + p)[0] != '-'
  {
    if items != [] {
      assert (Items(items) + "]" + p)[0] == items[0].Text()[0];
    }
  }

  lemma {:induction false} ItemsRead(items: seq<Item>, p: string, c: char)
    requires forall i :: 0 <= i < |items| ==> items[i].Clear()
    ensures var t := Items(items) + "]" + p;
            && ClassLength(t) == |Items(items)| + 1
            && (InClass(t, c) <==> exists i :: 0 <= i < |items| && items[i].Holds(c))
  {
    var t := Items(items) + "]" + p;
    if items == [] {
      assert t[0] == ']';
    } else {
      var rest := Items(items[1..]) + "]" + p;
      assert t == items[0].Text() + rest;
      assert forall i :: 0 <= i < |items| - 1 ==> items[1..][i] == items[i + 1];
      ItemsRead(items[1..], p, c);
      NextNotDash(items[1..], p);
      ItemRead(items[0], rest, c);
      assert (exists i :: 0 <= i < |items| && items[i].Holds(c)) <==>
             items[0].Holds(c) || exists i :: 0 <= i < |items[1..]| && items[1..][i].Holds(c) by {
        if i :| 0 < i < |items| && items[i].Holds(c) {
          assert items[1..][i - 1].Holds(c);
        }
      }
    }
  }

  lemma {:induction false} ItemRead(item: Item, rest: string, c: char)
    requires item.Clear() && rest != [] && rest[0] != '-'
    ensures var t := item.Text() + rest;
            && ClassLength(t) == |item.Text()| + ClassLength(rest)
            && (InClass(t, c) <==> item.Holds(c) || InClass(rest, c))
  {
    var t := item.Text() + rest;
    assert t[|item.Text()|..] == rest;
  }

  /** A class is one character that some member holds; behind a caret, one that none holds. */
  lemma {:induction false} ClassOne(negated: bool, items: seq<Item>, p: string, s: string)
    requires forall i :: 0 <= i < |items| ==> items[i].Clear()
    requires !negated && items != [] ==> items[0].Text()[0] != '^'
    ensures Glob("[" + (if negated then "^" else "") + Items(items) + "]" + p, s) <==>
              s != [] && (negated <==> !exists i :: 0 <= i < |items| && items[i].Holds(s[0])) && Glob(p, s[1..])
  {
    hide ClassLength, InClass, Item.Holds;
    var t := Items(items) + "]" + p;
    var q := "[" + (if negated then "^" else "") + Items(items) + "]" + p;
    assert q == "[" + (if negated then "^" else "") + t;
    assert !negated ==> t[0] != '^' by {
      if items != [] {
        assert t[0] == items[0].Text()[0];
      }
    }
    assert Negated(q) == negated && Members(q) == t;
    assert t[|Items(items)| + 1..] == p;
    ItemsRead(items, p, if s != [] then s[0] else 'x');
    assert Past(q) == p;
  }

  // ---- Some string that starts in a given way ----

  /** Whether a pattern matches anything at all. */
  ghost predicate Matchable(p: string) {
    if p == [] then true
    else if p[0] == '*' then Matchable(p[1..])
    else (exists c: char :: Admits(p, c)) && Matchable(Past(p))
  }

  /** Whether a pattern matches something that starts with `s`. */
  ghost predicate CanMatch(p: string, s: string)
    decreases |p| + |s|
  {
    if s == [] then Matchable(p)
    else if p == [] then false
    else if p[0] == '*' then CanMatch(p[1..], s) || CanMatch(p, s[1..])
    else Admits(p, s[0]) && CanMatch(Past(p), s[1..])
  }

  lemma {:induction false} GlobMatchable(p: string, s: string)
    requires Glob(p, s)
    ensures Matchable(p)
    decreases |p| + |s|
  {
    hide Admits, Past;
    if p != [] {
      if p[0] != '*' {
        GlobMatchable(Past(p), s[1..]);
      } else if Glob(p[1..], s) {
        GlobMatchable(p[1..], s);
      } else {
        GlobMatchable(p, s[1..]);
      }
    }
  }

  /** Something a pattern matches. */
  ghost function Sample(p: string): (s: string)
    requires Matchable(p)
    ensures Glob(p, s)
    decreases |p|
  {
    hide Admits, Past;
    if p == [] then []
    else if p[0] == '*' then Sample(p[1..])
    else
      var c :| Admits(p, c);
      var rest := Sample(Past(p));
      assert ([c] + rest)[1..] == rest;
      [c] + rest
  }

  lemma {:induction false} CanMatchAny(p: string, s: string, key: string)
    requires Glob(p, s + key)
    ensures CanMatch(p, s)
    decreases |p| + |s|
  {
    hide Admits, Past, Matchable;
    if s == [] {
      assert s + key == key;
      GlobMatchable(p, key);
    } else {
      assert (s + key)[1..] == s[1..] + key;
      if p[0] != '*' {
        CanMatchAny(Past(p), s[1..], key);
      } else if Glob(p[1..], s + key) {
        CanMatchAny(p[1..], s, key);
      } else {
        CanMatchAny(p, s[1..], key);
      }
    }
  }

  ghost function Completion(p: string, s: string): (key: string)
    requires CanMatch(p, s)
    ensures Glob(p, s + key)
    decreases |p| + |s|
  {
    hide Admits, Past, Matchable;
    if s == [] then
      var key := Sample(p);
      assert s + key == key;
      key
    else if p[0] != '*' then
      var key := Completion(Past(p), s[1..]);
      assert (s + key)[1..] == s[1..] + key;
      key
    else if CanMatch(p[1..], s) then Completion(p[1..], s)
    else
      var key := Completion(p, s[1..]);
      assert (s + key)[1..] == s[1..] + key;
      key
  }

  /** A pattern matches something that starts with `s` exactly when the recursion says so. */
  lemma {:induction false} CanMatchExactly(p: string, s: string)
    ensures CanMatch(p, s) <==> exists key: string :: Glob(p, s + key)
  {
    hide Glob, CanMatch;
    if CanMatch(p, s) {
      assert Glob(p, s + Completion(p, s));
    }
    if key: string :| Glob(p, s + key) {
      CanMatchAny(p, s, key);
    }
  }

  // ---- Every string that starts in a given way ----

  predicate HasStar(p: string) {
    p != [] && (p[0] == '*' || HasStar(Past(p)))
  }

  /** What follows the last star. */
  function Tail(p: string): (q: string)
    ensures |q| <= |p| && !HasStar(q)
    decreases |p|
  {
    if !HasStar(p) then p else if p[0] == '*' then Tail(p[1..]) else Tail(Past(p))
  }

  /** Whether a pattern without stars is made of elements that match every character. */
  ghost predicate AnyCharacters(p: string) {
    p != [] ==> (forall c: char :: Admits(p, c)) && AnyCharacters(Past(p))
  }

  /** Whether what a pattern matches may be continued at will. */
  ghost predicate OpenEnded(p: string) {
    HasStar(p) && AnyCharacters(Tail(p))
  }

  /** The number of characters a pattern without stars matches. */
  function Width(p: string): nat {
    if p == [] then 0 else 1 + Width(Past(p))
  }

  lemma {:induction false} WidthExact(p: string, s: string)
    requires !HasStar(p) && Glob(p, s)
    ensures |s| == Width(p)
    decreases |p|
  {
    hide Admits, Past;
    if p != [] {
      WidthExact(Past(p), s[1..]);
    }
  }

  lemma {:induction false} AnyOfWidth(p: string, s: string)
    requires !HasStar(p) && AnyCharacters(p) && |s| == Width(p)
    ensures Glob(p, s)
    decreases |p|
  {
    hide Admits, Past;
    if p != [] {
      AnyOfWidth(Past(p), s[1..]);
    }
  }

  /** A string of the right size that a pattern without stars does not match. */
  ghost function Misfit(p: string): (s: string)
    requires !HasStar(p) && !AnyCharacters(p)
    ensures |s| == Width(p) && !Glob(p, s)
    decreases |p|
  {
    hide Admits, Past;
    if forall c: char :: Admits(p, c) then
      var rest := Misfit(Past(p));
      assert ("x" + rest)[1..] == rest;
      "x" + rest
    else
      var c :| !Admits(p, c);
      [c] + seq(Width(Past(p)), _ => 'x')
  }

  /** Whatever a pattern with a star matches ends in something its tail matches. */
  ghost function LastPart(p: string, s: string): (at: nat)
    requires HasStar(p) && Glob(p, s)
    ensures at <= |s| && Glob(Tail(p), s[at..])
    decreases |p| + |s|
  {
    hide Admits, Past;
    if p[0] != '*' then
      var at := LastPart(Past(p), s[1..]);
      assert s[1..][at..] == s[at + 1..];
      at + 1
    else if !Glob(p[1..], s) then
      var at := LastPart(p, s[1..]);
      assert s[1..][at..] == s[at + 1..];
      at + 1
    else if HasStar(p[1..]) then LastPart(p[1..], s)
    else
      assert s[0..] == s;
      0
  }

  /** A star takes any number of characters. */
  lemma {:induction false} StarTakes(p: string, s: string, n: nat)
    requires p != [] && p[0] == '*' && n <= |s| && Glob(p[1..], s[n..])
    ensures Glob(p, s)
    decreases n
  {
    hide Admits, Past;
    if n == 0 {
      assert s[0..] == s;
    } else {
      assert s[1..][n - 1..] == s[n..];
      StarTakes(p, s[1..], n - 1);
    }
  }

  lemma {:induction false} LastStar(p: string)
    requires p != [] && p[0] == '*' && !HasStar(p[1..])
    ensures HasStar(p) && Tail(p) == p[1..]
  {
  }

  lemma {:induction false} Continues(p: string, s: string, more: string)
    requires OpenEnded(p) && Glob(p, s)
    ensures Glob(p, s + more)
    decreases |p| + |s|
  {
    hide Admits, Past, AnyCharacters;
    var t := s + more;
    if p[0] != '*' {
      assert t[1..] == s[1..] + more;
      Continues(Past(p), s[1..], more);
    } else if !Glob(p[1..], s) {
      assert t[1..] == s[1..] + more;
      Continues(p, s[1..], more);
    } else if HasStar(p[1..]) {
      Continues(p[1..], s, more);
    } else {
      LastStar(p);
      WidthExact(p[1..], s);
      var n := |t| - Width(p[1..]);
      AnyOfWidth(p[1..], t[n..]);
      StarTakes(p, t, n);
    }
  }

  /** Characters in the number the tail takes are what it matches. */
  lemma {:induction false} Ending(p: string, s: string, key: string)
    requires HasStar(p) && Glob(p, s + key) && |key| == Width(Tail(p))
    ensures Glob(Tail(p), key)
  {
    hide Glob;
    var at := LastPart(p, s + key);
    WidthExact(Tail(p), (s + key)[at..]);
    assert (s + key)[at..] == key;
  }

  /** A continuation that a pattern does not match, if it is not open-ended. */
  lemma {:induction false} Spoils(p: string, s: string)
    requires !OpenEnded(p)
    ensures exists key: string :: !Glob(p, s + key)
  {
    hide Glob, AnyCharacters;
    if !HasStar(p) {
      var key := seq(Width(p) + 1, _ => 'x');
      if Glob(p, s + key) {
        WidthExact(p, s + key);
      }
      assert !Glob(p, s + key);
    } else {
      var key := Misfit(Tail(p));
      if Glob(p, s + key) {
        Ending(p, s, key);
      }
      assert !Glob(p, s + key);
    }
  }

  /** A pattern matches everything that starts with `s` exactly when it matches `s` and is open-ended. */
  lemma {:induction false} MustMatchExactly(p: string, s: string)
    ensures Glob(p, s) && OpenEnded(p) <==> forall key: string :: Glob(p, s + key)
  {
    hide Glob, OpenEnded;
    if Glob(p, s) && OpenEnded(p) {
      forall key: string ensures Glob(p, s + key) {
        Continues(p, s, key);
      }
    }
    if forall key: string :: Glob(p, s + key) {
      assert Glob(p, s + "") && s + "" == s;
      if !OpenEnded(p) {
        Spoils(p, s);
      }
    }
  }
}
