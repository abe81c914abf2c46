/**
  The arguments of Set: keys and values one after the other, or in maps, slices and arrays, and
  the function that flattens them into one list of prefixed keys and values.
 */
module SdlArguments {
  import opened Options

  /** A single value: a string, or anything else by the text it is stored as. */
  datatype Datum = Str(text: string) | Other(text: string)

  /** An argument; `octets` marks a slice or array of bytes.  A map is given in the order of its iteration. */
  datatype Arg =
    | Single(d: Datum)
    | Mapping(entries: seq<(string, Datum)>)
    | List(elements: seq<Datum>, octets: bool, text: string)

  /** An element of the flattened list. */
  datatype Cell = Name(text: string) | Value(text: string)

  datatype Flattened = Cells(cells: seq<Cell>) | Mismatch | Panic

  /** The entries of a map, each key with the prefix. */
  function MapCells(prefix: string, entries: seq<(string, Datum)>): seq<Cell> {
    if entries == [] then []
    else [Name(prefix + entries[0].0), Value(entries[0].1.text)] + MapCells(prefix, entries[1..])
  }

  /** A list that holds keys and values in turn; a key that is not a string panics. */
  function ListCells(prefix: string, elements: seq<Datum>): Option<seq<Cell>> {
    if |elements| < 2 then Some([])
    else if !elements[0].Str? then None
    else
      var rest := ListCells(prefix, elements[2..]);
      if rest.None? then None
      else Some([Name(prefix + elements[0].text), Value(elements[1].text)] + rest.value)
  }

  /** What one argument adds, and whether a key comes next. */
  function Take(prefix: string, arg: Arg, key: bool): (Flattened, bool) {
    match arg
    case Mapping(entries) => (Cells(MapCells(prefix, entries)), key)
    case List(elements, octets, text) =>
      if key then
        if |elements| % 2 != 0 then (Mismatch, key)
        else
          var cells := ListCells(prefix, elements);
          (if cells.None? then Panic else Cells(cells.value), key)
      else if octets then (Cells([Value(text)]), true)
      else (Mismatch, key)
    case Single(d) =>
      if !key then (Cells([Value(d.text)]), true)
      else if d.Str? then (Cells([Name(prefix + d.text)]), false)
      else (Panic, key)
  }

  /** setNamespaceToKeys from some argument on. */
  function FlattenFrom(prefix: string, args: seq<Arg>, done: seq<Cell>, key: bool): Flattened
    decreases |args|
  {
    if args == [] then (if |done| % 2 != 0 then Mismatch else Cells(done))
    else
      var (cells, key') := Take(prefix, args[0], key);
      if cells.Cells? then FlattenFrom(prefix, args[1..], done + cells.cells, key') else cells
  }

  function Flatten(prefix: string, args: seq<Arg>): Flattened {
    FlattenFrom(prefix, args, [], true)
  }

  // ---- Keys and values in turn ----

  predicate InTurn(cells: seq<Cell>) {
    forall i :: 0 <= i < |cells| ==> InTurnAt(cells, i)
  }

  predicate InTurnAt(cells: seq<Cell>, i: nat)
    requires i < |cells|
  {
    cells[i].Name? <==> i % 2 == 0
  }

  /** Whether a map that is not empty stands where a value belongs. */
  predicate MapAsValue(args: seq<Arg>, key: bool)
    decreases |args|
  {
    args != [] &&
    ((!key && args[0].Mapping? && args[0].entries != []) || MapAsValue(args[1..], Take("", args[0], key).1))
  }

  lemma {:induction false} MapInTurn(prefix: string, entries: seq<(string, Datum)>)
    ensures InTurn(MapCells(prefix, entries)) && |MapCells(prefix, entries)| == 2 * |entries|
  {
    if entries != [] {
      MapInTurn(prefix, entries[1..]);
      InTurnJoin([Name(prefix + entries[0].0), Value(entries[0].1.text)], MapCells(prefix, entries[1..]));
    }
  }

  lemma {:induction false} ListInTurn(prefix: string, elements: seq<Datum>)
    ensures var c := ListCells(prefix, elements); c.Some? ==> InTurn(c.value) && |c.value| % 2 == 0
  {
    if |elements| >= 2 && elements[0].Str? {
      ListInTurn(prefix, elements[2..]);
      var rest := ListCells(prefix, elements[2..]);
      if rest.Some? {
        InTurnJoin([Name(prefix + elements[0].text), Value(elements[1].text)], rest.value);
      }
    }
  }

  lemma {:induction false} InTurnJoin(a: seq<Cell>, b: seq<Cell>)
    requires InTurn(a) && |a| % 2 == 0
    ensures InTurn(a + b) <==> InTurn(b)
  {
    forall i | 0 <= i < |b| ensures InTurnAt(a + b, |a| + i) <==> InTurnAt(b, i) {
      SameParity(|a|, i);
      assert b[i] == (a + b)[|a| + i];
    }
    forall i | 0 <= i < |a| ensures InTurnAt(a + b, i) {
      assert InTurnAt(a, i) && a[i] == (a + b)[i];
    }
    if InTurn(a + b) {
      forall i | 0 <= i < |b| ensures InTurnAt(b, i) {
        assert InTurnAt(a + b, |a| + i);
      }
    }
    if InTurn(b) {
      forall i | 0 <= i < |a + b| ensures InTurnAt(a + b, i) {
        if i >= |a| {
          assert InTurnAt(b, i - |a|);
        }
      }
    }
  }

  lemma {:induction false} SameParity(m: nat, i: nat)
    requires m % 2 == 0
    ensures (m + i) % 2 == i % 2
  {
  }

  /** A cell out of turn stays. */
  lemma {:induction false} NotInTurn(a: seq<Cell>, b: seq<Cell>)
    requires !InTurn(a)
    ensures !InTurn(a + b)
  {
    var i :| 0 <= i < |a| && !InTurnAt(a, i);
    assert (a + b)[i] == a[i] && !InTurnAt(a + b, i);
  }

  lemma {:induction false} StaysOutOfTurn(prefix: string, args: seq<Arg>, done: seq<Cell>, key: bool)
    requires !InTurn(done)
    ensures var r := FlattenFrom(prefix, args, done, key); r.Cells? ==> !InTurn(r.cells)
    decreases |args|
  {
    hide InTurn;
    if args != [] {
      var (cells, key') := Take(prefix, args[0], key);
      if cells.Cells? {
        NotInTurn(done, cells.cells);
        StaysOutOfTurn(prefix, args[1..], done + cells.cells, key');
      }
    }
  }

  /** One argument: the list stays in turn unless the argument is a map where a value belongs. */
  lemma {:induction false} TakeInTurn(prefix: string, arg: Arg, done: seq<Cell>, key: bool)
    requires InTurn(done) && (key <==> |done| % 2 == 0) && Take(prefix, arg, key).0.Cells?
    ensures var (cells, key') := Take(prefix, arg, key);
            && key' == Take("", arg, key).1
            && (InTurn(done + cells.cells) <==> !(!key && arg.Mapping? && arg.entries != []))
            && (InTurn(done + cells.cells) ==> (key' <==> |done + cells.cells| % 2 == 0))
  {
    var (cells, key') := Take(prefix, arg, key);
    match arg
    case Mapping(entries) =>
      MapInTurn(prefix, entries);
      if key {
        InTurnJoin(done, cells.cells);
      } else if entries == [] {
        assert done + cells.cells == done;
      } else {
        assert (done + cells.cells)[|done|] == Name(prefix + entries[0].0);
        assert !InTurnAt(done + cells.cells, |done|);
      }
    case List(elements, _, _) =>
      if key {
        ListInTurn(prefix, elements);
        InTurnJoin(done, cells.cells);
      } else {
        OneMore(done, cells.cells[0]);
      }
    case Single(_) => OneMore(done, cells.cells[0]);
  }

  lemma {:induction false} OneMore(done: seq<Cell>, c: Cell)
    requires InTurn(done)
    ensures InTurn(done + [c]) <==> (c.Name? <==> |done| % 2 == 0)
  {
    assert (done + [c])[|done|] == c && (InTurnAt(done + [c], |done|) <==> (c.Name? <==> |done| % 2 == 0));
    forall i | 0 <= i < |done| ensures InTurnAt(done + [c], i) {
      assert InTurnAt(done, i) && (done + [c])[i] == done[i];
    }
  }

  /** Flattening gives keys and values in turn exactly when no map stands where a value belongs. */
  lemma {:induction false} FlattenInTurn(prefix: string, args: seq<Arg>, done: seq<Cell>, key: bool)
    requires InTurn(done) && (key <==> |done| % 2 == 0) && FlattenFrom(prefix, args, done, key).Cells?
    ensures InTurn(FlattenFrom(prefix, args, done, key).cells) <==> !MapAsValue(args, key)
    decreases |args|
  {
    hide InTurn;
    if args != [] {
      var (cells, key') := Take(prefix, args[0], key);
      TakeInTurn(prefix, args[0], done, key);
      if InTurn(done + cells.cells) {
        FlattenInTurn(prefix, args[1..], done + cells.cells, key');
      } else {
        StaysOutOfTurn(prefix, args[1..], done + cells.cells, key');
      }
    }
  }

  // ---- What the arguments mean ----

  /** The pairs the arguments spell, when no map stands where a value belongs. */
  function PairsIn(args: seq<Arg>): Option<seq<(string, string)>>
    decreases |args|
  {
    if args == [] then Some([])
    else
      match args[0]
      case Mapping(entries) => Before(EntryPairs(entries), PairsIn(args[1..]))
      case List(elements, _, _) =>
        if |elements| % 2 != 0 || ListPairs(elements).None? then None
        else Before(ListPairs(elements).value, PairsIn(args[1..]))
      case Single(d) =>
        var rest := SkipEmptyMaps(args[1..]);
        if !d.Str? || rest == [] || TextOf(rest[0]).None? then None
        else Before([(d.text, TextOf(rest[0]).value)], PairsIn(rest[1..]))
  }

  /** An empty map between a key and its value goes unnoticed. */
  function SkipEmptyMaps(args: seq<Arg>): (r: seq<Arg>)
    ensures |r| <= |args|
    ensures r != [] ==> !(r[0].Mapping? && r[0].entries == [])
  {
    if args != [] && args[0].Mapping? && args[0].entries == [] then SkipEmptyMaps(args[1..]) else args
  }

  lemma {:induction false} EmptyMapsSkipped(prefix: string, args: seq<Arg>, done: seq<Cell>)
    ensures FlattenFrom(prefix, args, done, false) == FlattenFrom(prefix, SkipEmptyMaps(args), done, false)
    ensures MapAsValue(args, false) == MapAsValue(SkipEmptyMaps(args), false)
  {
    if args != [] && args[0].Mapping? && args[0].entries == [] {
      assert done + MapCells(prefix, []) == done;
      EmptyMapsSkipped(prefix, args[1..], done);
    }
  }

  function Before(a: seq<(string, string)>, b: Option<seq<(string, string)>>): Option<seq<(string, string)>> {
    if b.Some? then Some(a + b.value) else None
  }

  /** An argument as a value. */
  function TextOf(arg: Arg): Option<string> {
    match arg
    case Single(d) => Some(d.text)
    case List(_, octets, text) => if octets then Some(text) else None
    case Mapping(_) => None
  }

  function EntryPairs(entries: seq<(string, Datum)>): seq<(string, string)> {
    seq(|entries|, i requires 0 <= i < |entries| => (entries[i].0, entries[i].1.text))
  }

  function ListPairs(elements: seq<Datum>): Option<seq<(string, string)>> {
    if |elements| < 2 then Some([])
    else if !elements[0].Str? then None
    else Before([(elements[0].text, elements[1].text)], ListPairs(elements[2..]))
  }

  /** The cells of pairs under a prefix. */
  function PairCells(prefix: string, pairs: seq<(string, string)>): seq<Cell> {
    if pairs == [] then []
    else [Name(prefix + pairs[0].0), Value(pairs[0].1)] + PairCells(prefix, pairs[1..])
  }

  lemma {:induction false} PairCellsConcat(prefix: string, a: seq<(string, string)>, b: seq<(string, string)>)
    ensures PairCells(prefix, a + b) == PairCells(prefix, a) + PairCells(prefix, b)
  {
    if a == [] {
      assert a + b == b;
    } else {
      PairCellsConcat(prefix, a[1..], b);
      assert (a + b)[1..] == a[1..] + b && (a + b)[0] == a[0];
      JoinCells([Name(prefix + a[0].0), Value(a[0].1)], PairCells(prefix, a[1..]), PairCells(prefix, b));
    }
  }

  lemma {:induction false} JoinCells(a: seq<Cell>, b: seq<Cell>, c: seq<Cell>)
    ensures a + (b + c) == a + b + c
  {
  }

  lemma {:induction false} PairCellsSize(prefix: string, pairs: seq<(string, string)>)
    ensures |PairCells(prefix, pairs)| == 2 * |pairs|
  {
    if pairs != [] {
      PairCellsSize(prefix, pairs[1..]);
    }
  }

  lemma {:induction false} MapMeans(prefix: string, entries: seq<(string, Datum)>)
    ensures MapCells(prefix, entries) == PairCells(prefix, EntryPairs(entries))
  {
    if entries != [] {
      MapMeans(prefix, entries[1..]);
      assert EntryPairs(entries)[1..] == EntryPairs(entries[1..]);
    }
  }

  lemma {:induction false} ListMeans(prefix: string, elements: seq<Datum>)
    ensures ListCells(prefix, elements).Some? <==> ListPairs(elements).Some?
    ensures ListPairs(elements).Some? ==>
              ListCells(prefix, elements).value == PairCells(prefix, ListPairs(elements).value)
  {
    if |elements| >= 2 && elements[0].Str? {
      ListMeans(prefix, elements[2..]);
      if ListPairs(elements[2..]).Some? {
        PairCellsConcat(prefix, [(elements[0].text, elements[1].text)], ListPairs(elements[2..]).value);
        OnePair(prefix, elements[0].text, elements[1].text);
      }
    }
  }

  lemma {:induction false} OnePair(prefix: string, k: string, v: string)
    ensures PairCells(prefix, [(k, v)]) == [Name(prefix + k), Value(v)]
  {
    assert [(k, v)][1..] == [];
    assert PairCells(prefix, []) == [];
  }

  /**
    Flattening arguments without a map as a value gives the cells of the pairs they spell, or fails
    when they spell none.
   */
  lemma {:induction false} FlattenMeans(prefix: string, args: seq<Arg>, done: seq<Cell>)
    requires |done| % 2 == 0 && !MapAsValue(args, true)
    ensures var r, pairs := FlattenFrom(prefix, args, done, true), PairsIn(args);
            if pairs.Some? then r == Cells(done + PairCells(prefix, pairs.value)) else !r.Cells?
    decreases |args|
  {
    if args == [] {
      assert done + PairCells(prefix, []) == done;
    } else {
      match args[0]
      case Mapping(entries) =>
        MapMeans(prefix, entries);
        PairCellsSize(prefix, EntryPairs(entries));
        FlattenMeans(prefix, args[1..], done + MapCells(prefix, entries));
        JoinPairs(prefix, done, EntryPairs(entries), PairsIn(args[1..]));
      case List(elements, _, _) =>
        ListMeans(prefix, elements);
        if |elements| % 2 == 0 && ListPairs(elements).Some? {
          var pairs := ListPairs(elements).value;
          PairCellsSize(prefix, pairs);
          FlattenMeans(prefix, args[1..], done + PairCells(prefix, pairs));
          JoinPairs(prefix, done, pairs, PairsIn(args[1..]));
        }
      case Single(d) => KeyMeans(prefix, args, done, d);
    }
  }

  lemma {:induction false} JoinPairs(prefix: string, done: seq<Cell>, a: seq<(string, string)>,
                                     b: Option<seq<(string, string)>>)
    ensures b.Some? ==>
              done + PairCells(prefix, a) + PairCells(prefix, b.value) == done + PairCells(prefix, Before(a, b).value)
  {
    if b.Some? {
      PairCellsConcat(prefix, a, b.value);
    }
  }

  lemma {:induction false} KeyMeans(prefix: string, args: seq<Arg>, done: seq<Cell>, d: Datum)
    requires |done| % 2 == 0 && args != [] && args[0] == Single(d) && !MapAsValue(args, true)
    ensures var r, pairs := FlattenFrom(prefix, args, done, true), PairsIn(args);
            if pairs.Some? then r == Cells(done + PairCells(prefix, pairs.value)) else !r.Cells?
    decreases |args|, 0
  {
    if d.Str? {
      var named, rest := done + [Name(prefix + d.text)], SkipEmptyMaps(args[1..]);
      EmptyMapsSkipped(prefix, args[1..], named);
      assert FlattenFrom(prefix, args, done, true) == FlattenFrom(prefix, rest, named, false);
      if rest != [] && TextOf(rest[0]).Some? {
        var text := TextOf(rest[0]).value;
        var both := named + [Value(text)];
        assert FlattenFrom(prefix, rest, named, false) == FlattenFrom(prefix, rest[1..], both, true);
        FlattenMeans(prefix, rest[1..], both);
        OnePair(prefix, d.text, text);
        assert both == done + PairCells(prefix, [(d.text, text)]);
        JoinPairs(prefix, done, [(d.text, text)], PairsIn(rest[1..]));
      }
    }
  }

  /** setNamespaceToKeys. */
  method SetNamespaceToKeys(prefix: string, args: seq<Arg>) returns (r: Flattened)
    ensures r == Flatten(prefix, args)
  {
    var retVal, shouldBeKey, i := [], true, 0;
    assert args[0..] == args;
    while i < |args|
      invariant 0 <= i <= |args| && FlattenFrom(prefix, args[i..], retVal, shouldBeKey) == Flatten(prefix, args)
    {
      assert args[i..][0] == args[i] && args[i..][1..] == args[i + 1..];
      var (cells, key) := Take(prefix, args[i], shouldBeKey);
      if !cells.Cells? {
        return cells;
      }
      retVal, shouldBeKey := retVal + cells.cells, key;
      i := i + 1;
    }
    r := if |retVal| % 2 != 0 then Mismatch else Cells(retVal);
  }

  /** Pairs given one after the other. */
  function Singles(pairs: seq<(string, string)>): seq<Arg> {
    if pairs == [] then [] else [Single(Str(pairs[0].0)), Single(Str(pairs[0].1))] + Singles(pairs[1..])
  }

  lemma {:induction false} SinglesMean(pairs: seq<(string, string)>)
    ensures PairsIn(Singles(pairs)) == Some(pairs) && !MapAsValue(Singles(pairs), true)
  {
    if pairs != [] {
      SinglesMean(pairs[1..]);
      var args := Singles(pairs);
      assert args[1..][0] == Single(Str(pairs[0].1)) && args[1..][1..] == Singles(pairs[1..]);
      assert [pairs[0]] + pairs[1..] == pairs;
    }
  }

  /** How a list of cells is read as pairs: whatever stands at an even place is a key. */
  function Written(cells: seq<Cell>): seq<(string, string)> {
    if |cells| < 2 then [] else [(cells[0].text, cells[1].text)] + Written(cells[2..])
  }

  lemma {:induction false} PairsWritten(prefix: string, pairs: seq<(string, string)>)
    ensures var w := Written(PairCells(prefix, pairs));
            |w| == |pairs| && forall i :: 0 <= i < |pairs| ==> w[i] == (prefix + pairs[i].0, pairs[i].1)
  {
    if pairs != [] {
      PairsWritten(prefix, pairs[1..]);
      assert PairCells(prefix, pairs)[2..] == PairCells(prefix, pairs[1..]);
    }
  }
}
