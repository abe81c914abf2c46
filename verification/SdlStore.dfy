/**
  The SDL key-value client: namespaces spread over several backends by a hash must act like one
  map from namespace and key.  The backends' commands are atomic and have their documented meaning.
 */
module SdlStore {
  import opened Options
  import opened SdlArguments
  import opened SdlGlob

  type Data = string
  type Backend = map<string, Data>

  // ---- Namespaced keys ----

  function Prefix(ns: string): string {
    "{" + ns + "},"
  }

  predicate Contains(s: string, p: string) {
    exists i :: 0 <= i <= |s| && Starts(s[i..], p)
  }

  /** Whether keys of the two namespaces can coincide. */
  predicate Clash(ns: string, other: string) {
    ns == other || Starts(other, ns + "},") || Starts(ns, other + "},")
  }

  lemma {:induction false} PrefixAt(ns: string, key: string)
    ensures var s := Prefix(ns) + key;
            && |s| == |ns| + 3 + |key| && s[1..1 + |ns|] == ns && s[1 + |ns|] == '}' && s[2 + |ns|] == ','
            && s[3 + |ns|..] == key
  {
  }

  /** Where the shorter of two namespaces ends, the longer goes on with a brace and a comma. */
  lemma {:induction false} LongerNamespace(ns: string, key: string, other: string, key': string)
    requires Prefix(ns) + key == Prefix(other) + key' && |ns| < |other|
    ensures Starts(other, ns + "},")
  {
    hide Prefix;
    var s := Prefix(ns) + key;
    PrefixAt(ns, key);
    PrefixAt(other, key');
    assert other == s[1..1 + |other|];
    assert other[..|ns|] == s[1..1 + |ns|];
    assert other[|ns|] == s[1 + |ns|];
    assert |other| != |ns| + 1;
    assert other[|ns| + 1] == s[2 + |ns|];
    assert other[..|ns| + 2] == ns + "},";
  }

  lemma {:induction false} SameNamespace(ns: string, key: string, other: string, key': string)
    requires Prefix(ns) + key == Prefix(other) + key' && |ns| == |other|
    ensures ns == other && key == key'
  {
    hide Prefix;
    PrefixAt(ns, key);
    PrefixAt(other, key');
  }

  lemma {:induction false} ClashingKeys(ns: string, other: string)
    requires Starts(other, ns + "},")
    ensures exists key, key' :: Prefix(ns) + key == Prefix(other) + key'
  {
    var r := other[|ns| + 2..];
    assert other == ns + "}," + r;
    assert Prefix(ns) + (r + "},") == Prefix(other) + "";
  }

  /** Two namespaces share a stored key exactly when they are equal or one continues the other with "},". */
  lemma {:induction false} KeysClash(ns: string, other: string)
    ensures (exists key, key' :: Prefix(ns) + key == Prefix(other) + key') <==> Clash(ns, other)
  {
    hide Prefix, Starts;
    forall key, key' | Prefix(ns) + key == Prefix(other) + key' ensures Clash(ns, other) {
      if |ns| < |other| {
        LongerNamespace(ns, key, other, key');
      } else if |other| < |ns| {
        LongerNamespace(other, key', ns, key);
      } else {
        SameNamespace(ns, key, other, key');
      }
    }
    if ns == other {
      assert Prefix(ns) + "" == Prefix(other) + "";
    } else if Starts(other, ns + "},") {
      ClashingKeys(ns, other);
    } else if Starts(ns, other + "},") {
      ClashingKeys(other, ns);
    }
  }

  /** Within one namespace, and across namespaces that do not clash, stored keys are distinct. */
  lemma {:induction false} KeysDistinct(ns: string, key: string, other: string, key': string)
    requires Prefix(ns) + key == Prefix(other) + key' && (ns == other || !Clash(ns, other))
    ensures ns == other && key == key'
  {
    hide Prefix, Starts, Clash;
    KeysClash(ns, other);
    SameNamespace(ns, key, other, key');
  }

  // ---- Operations ----

  datatype Op =
    | Set(ns: string, pairs: seq<(string, Data)>)
    | Get(ns: string, keys: seq<string>)
    | SetIf(ns: string, key: string, from: Data, to: Data)
    | SetIfNotExists(ns: string, key: string, data: Data)
    | Remove(ns: string, keys: seq<string>)
    | RemoveIf(ns: string, key: string, data: Data)
    | RemoveAll(ns: string)

  datatype Reply = Done | Values(found: map<string, Option<Data>>) | Changed(yes: bool)

  /** Pairs written one after the other, the later over the earlier. */
  function Write<K(==), V>(m: map<K, V>, pairs: seq<(K, V)>): map<K, V> {
    if pairs == [] then m else Write(m, pairs[..|pairs| - 1])[pairs[|pairs| - 1].0 := pairs[|pairs| - 1].1]
  }

  function Look<K(==), V>(m: map<K, V>, k: K): Option<V> {
    if k in m then Some(m[k]) else None
  }

  function Names(ns: string, pairs: seq<(string, Data)>): seq<(string, Data)> {
    seq(|pairs|, i requires 0 <= i < |pairs| => (Prefix(ns) + pairs[i].0, pairs[i].1))
  }

  function Found<K(==), V>(m: map<K, V>, keys: seq<string>, name: string -> K): map<string, Option<V>> {
    map k | k in keys :: Look(m, name(k))
  }

  /** What a command of the client comes to on the backend that serves the namespace. */
  function OnBackend(b: Backend, op: Op): (Backend, Reply) {
    var p := Prefix(op.ns);
    match op
    case Set(ns, pairs) => (Write(b, Names(ns, pairs)), Done)
    case Get(ns, keys) => (b, Values(Found(b, keys, (k: string) => p + k)))
    case SetIf(ns, key, from, to) =>
      if p + key in b && b[p + key] == from then (b[p + key := to], Changed(true)) else (b, Changed(false))
    case SetIfNotExists(ns, key, data) =>
      if p + key in b then (b, Changed(false)) else (b[p + key := data], Changed(true))
    case Remove(ns, keys) => (map s | s in b && !(exists k :: k in keys && s == p + k) :: b[s], Done)
    case RemoveIf(ns, key, data) =>
      if p + key in b && b[p + key] == data then (b - {p + key}, Changed(true)) else (b, Changed(false))
    case RemoveAll(ns) => (map s | s in b && !Glob(p + "*", s) :: b[s], Done)
  }

  type Flat = map<(string, string), Data>

  function Tagged(ns: string, pairs: seq<(string, Data)>): seq<((string, string), Data)> {
    seq(|pairs|, i requires 0 <= i < |pairs| => ((ns, pairs[i].0), pairs[i].1))
  }

  /** The same command on one map from namespace and key. */
  function OnFlat(f: Flat, op: Op): (Flat, Reply) {
    match op
    case Set(ns, pairs) => (Write(f, Tagged(ns, pairs)), Done)
    case Get(ns, keys) => (f, Values(Found(f, keys, (k: string) => (ns, k))))
    case SetIf(ns, key, from, to) =>
      if (ns, key) in f && f[(ns, key)] == from then (f[(ns, key) := to], Changed(true)) else (f, Changed(false))
    case SetIfNotExists(ns, key, data) =>
      if (ns, key) in f then (f, Changed(false)) else (f[(ns, key) := data], Changed(true))
    case Remove(ns, keys) => (map x | x in f && !(x.0 == ns && x.1 in keys) :: f[x], Done)
    case RemoveIf(ns, key, data) =>
      if (ns, key) in f && f[(ns, key)] == data then (f - {(ns, key)}, Changed(true)) else (f, Changed(false))
    case RemoveAll(ns) => (map x | x in f && x.0 != ns :: f[x], Done)
  }

  // ---- Every command acts key by key ----

  /** What a namespaced key holds after a command on its namespace. */
  function Effect(op: Op, key: string, now: Option<Data>): Option<Data> {
    match op
    case Set(_, pairs) => LastFor(pairs, key, now)
    case Get(_, _) => now
    case SetIf(_, k, from, to) => if k == key && now == Some(from) then Some(to) else now
    case SetIfNotExists(_, k, data) => if k == key && now.None? then Some(data) else now
    case Remove(_, keys) => if key in keys then None else now
    case RemoveIf(_, k, data) => if k == key && now == Some(data) then None else now
    case RemoveAll(_) => None
  }

  function LastFor<K(==), V>(pairs: seq<(K, V)>, key: K, now: Option<V>): Option<V> {
    if pairs == [] then now
    else if pairs[|pairs| - 1].0 == key then Some(pairs[|pairs| - 1].1)
    else LastFor(pairs[..|pairs| - 1], key, now)
  }

  lemma {:induction false} LookWrite<K, V>(m: map<K, V>, pairs: seq<(K, V)>, key: K)
    ensures Look(Write(m, pairs), key) == LastFor(pairs, key, Look(m, key))
  {
    if pairs != [] {
      LookWrite(m, pairs[..|pairs| - 1], key);
    }
  }

  /** Renaming keys without making two of them one does not change which pair is last. */
  lemma {:induction false} LastRenamed<K, V>(pairs: seq<(string, V)>, named: seq<(K, V)>, name: string -> K,
                                             key: string, now: Option<V>)
    requires |named| == |pairs| && forall i :: 0 <= i < |pairs| ==> named[i] == (name(pairs[i].0), pairs[i].1)
    requires forall k :: name(k) == name(key) ==> k == key
    ensures LastFor(named, name(key), now) == LastFor(pairs, key, now)
  {
    if pairs != [] {
      LastRenamed(pairs[..|pairs| - 1], named[..|named| - 1], name, key, now);
    }
  }

  lemma {:induction false} LastAbsent<K, V>(pairs: seq<(K, V)>, key: K, now: Option<V>)
    requires forall i :: 0 <= i < |pairs| ==> pairs[i].0 != key
    ensures LastFor(pairs, key, now) == now
  {
    if pairs != [] {
      LastAbsent(pairs[..|pairs| - 1], key, now);
    }
  }

  lemma {:induction false} SetOnBackend(b: Backend, ns: string, pairs: seq<(string, Data)>, key: string)
    ensures Look(Write(b, Names(ns, pairs)), Prefix(ns) + key) == LastFor(pairs, key, Look(b, Prefix(ns) + key))
  {
    hide Prefix, Look, Write, LastFor;
    var name := (k: string) => Prefix(ns) + k;
    forall k | name(k) == name(key) ensures k == key {
      SameNamespace(ns, k, ns, key);
    }
    LookWrite(b, Names(ns, pairs), Prefix(ns) + key);
    LastRenamed(pairs, Names(ns, pairs), name, key, Look(b, Prefix(ns) + key));
  }

  lemma {:induction false} SetOnFlat(f: Flat, ns: string, pairs: seq<(string, Data)>, key: string)
    ensures Look(Write(f, Tagged(ns, pairs)), (ns, key)) == LastFor(pairs, key, Look(f, (ns, key)))
  {
    hide Look, Write, LastFor;
    LookWrite(f, Tagged(ns, pairs), (ns, key));
    LastRenamed(pairs, Tagged(ns, pairs), (k: string) => (ns, k), key, Look(f, (ns, key)));
  }

  /** Where the backend of a namespace stands. */
  function Home(hash: string -> nat, n: nat, ns: string): (i: nat)
    requires n > 0
    ensures i < n
  {
    hash(ns) % n
  }

  // ---- Namespaces that keep out of each other's way ----

  /** The pattern of `ns` finds all its own keys, and none of another namespace. */
  ghost predicate FindsOwn(ns: string, other: string) {
    forall key: string :: Glob(Prefix(ns) + "*", Prefix(other) + key) <==> ns == other
  }

  /** Namespaces that share a backend neither share keys nor find each other's. */
  ghost predicate Separate(spaces: set<string>, hash: string -> nat, n: nat)
    requires n > 0
  {
    forall a, b :: a in spaces && b in spaces && Home(hash, n, a) == Home(hash, n, b) ==>
      (a != b ==> !Clash(a, b)) && FindsOwn(a, b)
  }

  /** A namespace that can be used with all others of its kind: it has no "}," in it and no pattern characters. */
  predicate Good(ns: string) {
    !Contains(ns, "},") && NoGlob(ns)
  }

  lemma {:induction false} StartsContains(s: string, p: string, q: string)
    requires Starts(s, p + q)
    ensures Contains(s, q)
  {
    assert s[|p|..][..|q|] == s[..|p + q|][|p|..];
  }

  lemma {:induction false} GoodDoNotClash(ns: string, other: string)
    requires Good(ns) && Good(other) && ns != other
    ensures !Clash(ns, other)
  {
    hide Contains, Starts, NoGlob;
    if Starts(other, ns + "},") {
      StartsContains(other, ns, "},");
    }
    if Starts(ns, other + "},") {
      StartsContains(ns, other, "},");
    }
  }

  lemma {:induction false} NoGlobPrefix(ns: string)
    requires NoGlob(ns)
    ensures NoGlob(Prefix(ns))
  {
    forall i | 0 <= i < |Prefix(ns)| ensures !IsGlob(Prefix(ns)[i]) {
      if 1 <= i <= |ns| {
        assert Prefix(ns)[i] == ns[i - 1];
      }
    }
  }

  /** The keys RemoveAll finds are exactly those that start with the prefix. */
  lemma {:induction false} FoundByPattern(ns: string, s: string)
    requires NoGlob(ns)
    ensures Glob(Prefix(ns) + "*", s) <==> Starts(s, Prefix(ns))
  {
    hide Glob, Starts, Prefix, NoGlob;
    NoGlobPrefix(ns);
    LiteralStar(Prefix(ns), s);
  }

  lemma {:induction false} StartsOwn(ns: string, key: string)
    ensures Starts(Prefix(ns) + key, Prefix(ns))
  {
    hide Prefix;
  }

  lemma {:induction false} StartsOther(ns: string, other: string, key: string)
    requires ns != other && !Clash(ns, other)
    ensures !Starts(Prefix(other) + key, Prefix(ns))
  {
    hide Prefix, Clash;
    var s := Prefix(other) + key;
    if Starts(s, Prefix(ns)) {
      assert s == Prefix(ns) + s[|Prefix(ns)|..];
      KeysDistinct(ns, s[|Prefix(ns)|..], other, key);
    }
  }

  /** Without pattern characters, finding only one's own keys is a matter of not sharing them. */
  lemma {:induction false} LiteralFindsOwn(ns: string, other: string)
    requires NoGlob(ns) && (ns == other || !Clash(ns, other))
    ensures FindsOwn(ns, other)
  {
    hide Glob, Prefix, NoGlob, Clash, Starts;
    forall key: string ensures Glob(Prefix(ns) + "*", Prefix(other) + key) <==> ns == other {
      FoundByPattern(ns, Prefix(other) + key);
      if ns == other {
        StartsOwn(ns, key);
      } else {
        StartsOther(ns, other, key);
      }
    }
  }

  /** The same without a look at keys: a matter of the namespaces alone. */
  ghost predicate Apart(a: string, b: string) {
    !Clash(a, b) && !CanMatch(Prefix(a) + "*", Prefix(b))
  }

  lemma {:induction false} FindsOwnExactly(ns: string, other: string)
    ensures FindsOwn(ns, other) <==>
              var p := Prefix(ns) + "*";
              if ns == other then Glob(p, Prefix(ns)) && OpenEnded(p) else !CanMatch(p, Prefix(other))
  {
    hide Glob, Prefix, CanMatch, OpenEnded;
    var p := Prefix(ns) + "*";
    MustMatchExactly(p, Prefix(other));
    CanMatchExactly(p, Prefix(other));
  }

  /**
    Namespaces are separate exactly when each one's pattern matches its prefix and may be continued, and
    no two on a backend clash or have a pattern that can match what starts with the other's prefix.
   */
  lemma {:induction false} SeparateByPattern(spaces: set<string>, hash: string -> nat, n: nat)
    requires n > 0
    ensures Separate(spaces, hash, n) <==>
              && (forall a :: a in spaces ==> Glob(Prefix(a) + "*", Prefix(a)) && OpenEnded(Prefix(a) + "*"))
              && (forall a, b :: a in spaces && b in spaces && a != b && Home(hash, n, a) == Home(hash, n, b) ==>
                    Apart(a, b))
  {
    hide FindsOwn, Clash, Glob, CanMatch, OpenEnded, Prefix;
    forall a, b ensures FindsOwn(a, b) <==>
                          var p := Prefix(a) + "*";
                          if a == b then Glob(p, Prefix(a)) && OpenEnded(p) else !CanMatch(p, Prefix(b))
    {
      FindsOwnExactly(a, b);
    }
  }

  /** For namespaces without pattern characters it comes down to pairs that clash on a backend. */
  lemma {:induction false} SeparateLiteral(spaces: set<string>, hash: string -> nat, n: nat)
    requires n > 0 && forall a :: a in spaces ==> NoGlob(a)
    ensures Separate(spaces, hash, n) <==>
              forall a, b :: a in spaces && b in spaces && a != b && Home(hash, n, a) == Home(hash, n, b) ==>
                !Clash(a, b)
  {
    hide FindsOwn, Clash, NoGlob;
    forall a, b | a in spaces && b in spaces && (a != b ==> !Clash(a, b)) ensures FindsOwn(a, b) {
      LiteralFindsOwn(a, b);
    }
  }

  /** Namespaces with neither "}," nor pattern characters are separate under every hash. */
  lemma {:induction false} GoodSeparate(spaces: set<string>, hash: string -> nat, n: nat)
    requires n > 0 && forall a :: a in spaces ==> Good(a)
    ensures Separate(spaces, hash, n)
  {
    hide FindsOwn, Clash, NoGlob, Contains;
    forall a, b | a in spaces && b in spaces && a != b ensures !Clash(a, b) {
      GoodDoNotClash(a, b);
    }
    SeparateLiteral(spaces, hash, n);
  }

  lemma {:induction false} BackendEffect(b: Backend, op: Op, key: string)
    requires FindsOwn(op.ns, op.ns)
    ensures Look(OnBackend(b, op).0, Prefix(op.ns) + key) == Effect(op, key, Look(b, Prefix(op.ns) + key))
  {
    hide Prefix, Glob, Names, Write, LastFor;
    var p := Prefix(op.ns);
    forall k | p + k == p + key ensures k == key {
      SameNamespace(op.ns, k, op.ns, key);
    }
    if op.Set? {
      SetOnBackend(b, op.ns, op.pairs, key);
    } else if op.RemoveAll? {
      assert Glob(p + "*", p + key);
    }
  }

  /**
    Where a command other than RemoveAll leaves its mark: on the instance the hash of the namespace chooses, under
    the namespace in braces, a comma and the key.
   */
  lemma {:induction false} StoredWhere(bs: seq<Backend>, hash: string -> nat, op: Op, i: nat, name: string, key: string)
    requires i < |bs| && !op.RemoveAll?
    ensures i == hash(op.ns) % |bs| && name == "{" + op.ns + "}," + key ==>
              Look(OnShards(bs, hash, op).0[i], name) == Effect(op, key, Look(bs[i], name))
    ensures !(i == hash(op.ns) % |bs| && "{" + op.ns + "}," <= name) ==>
              Look(OnShards(bs, hash, op).0[i], name) == Look(bs[i], name)
  {
    hide Write, LastFor;
    var p := Prefix(op.ns);
    if i == hash(op.ns) % |bs| {
      if name == p + key {
        MarkLeft(bs[i], op, key);
      } else if !(p <= name) {
        assert forall k: string :: p + k != name by {
          forall k: string ensures p + k != name {
            assert p <= p + k;
          }
        }
        if op.Set? {
          LookWrite(bs[i], Names(op.ns, op.pairs), name);
          LastAbsent(Names(op.ns, op.pairs), name, Look(bs[i], name));
        }
      }
    }
  }

  /** RemoveAll takes what its pattern finds on that instance, and nothing else. */
  lemma {:induction false} RemovedWhere(bs: seq<Backend>, hash: string -> nat, ns: string, i: nat, name: string)
    requires i < |bs|
    ensures Look(OnShards(bs, hash, RemoveAll(ns)).0[i], name)
            == if i == hash(ns) % |bs| && Glob("{" + ns + "},*", name) then None else Look(bs[i], name)
  {
    hide Glob;
    assert Prefix(ns) + "*" == "{" + ns + "},*";
  }

  lemma {:induction false} MarkLeft(b: Backend, op: Op, key: string)
    requires !op.RemoveAll?
    ensures Look(OnBackend(b, op).0, Prefix(op.ns) + key) == Effect(op, key, Look(b, Prefix(op.ns) + key))
  {
    hide Prefix, Glob, Names, Write, LastFor;
    var p := Prefix(op.ns);
    forall k | p + k == p + key ensures k == key {
      SameNamespace(op.ns, k, op.ns, key);
    }
    if op.Set? {
      SetOnBackend(b, op.ns, op.pairs, key);
    }
  }

  /** A Get answers every key it was asked for, and no other, with what is stored under it or with nil. */
  lemma {:induction false} GetReads(bs: seq<Backend>, hash: string -> nat, ns: string, keys: seq<string>)
    requires |bs| > 0
    ensures var (after, reply) := OnShards(bs, hash, Get(ns, keys));
            && after == bs && reply.Values? && (forall k :: k in reply.found <==> k in keys)
            && var b := bs[hash(ns) % |bs|];
            && forall k :: k in keys ==>
                 reply.found[k] == if "{" + ns + "}," + k in b then Some(b["{" + ns + "}," + k]) else None
  {
    var i := Home(hash, |bs|, ns);
    assert bs[i := bs[i]] == bs;
  }

  lemma {:induction false} BackendOther(b: Backend, op: Op, other: string, key: string)
    requires op.ns != other && !Clash(op.ns, other) && FindsOwn(op.ns, other)
    ensures Look(OnBackend(b, op).0, Prefix(other) + key) == Look(b, Prefix(other) + key)
  {
    hide Prefix, Glob, Write, Clash;
    var p, s := Prefix(op.ns), Prefix(other) + key;
    forall k | p + k == s ensures false {
      KeysDistinct(op.ns, k, other, key);
    }
    if op.Set? {
      LookWrite(b, Names(op.ns, op.pairs), s);
      LastAbsent(Names(op.ns, op.pairs), s, Look(b, s));
    } else if op.RemoveAll? {
      assert !Glob(p + "*", s);
    }
  }

  lemma {:induction false} FlatEffect(f: Flat, op: Op, ns: string, key: string)
    ensures Look(OnFlat(f, op).0, (ns, key))
         == if ns == op.ns then Effect(op, key, Look(f, (ns, key))) else Look(f, (ns, key))
  {
    hide Write, LastFor;
    if op.Set? {
      if ns == op.ns {
        SetOnFlat(f, ns, op.pairs, key);
      } else {
        LookWrite(f, Tagged(op.ns, op.pairs), (ns, key));
        LastAbsent(Tagged(op.ns, op.pairs), (ns, key), Look(f, (ns, key)));
      }
    }
  }

  // ---- The sharded store against the flat map ----

  function Stored(bs: seq<Backend>, hash: string -> nat, ns: string, key: string): Option<Data>
    requires |bs| > 0
  {
    Look(bs[Home(hash, |bs|, ns)], Prefix(ns) + key)
  }

  /** The backends together hold what the flat map holds in the namespaces `spaces`. */
  ghost predicate Represents(bs: seq<Backend>, hash: string -> nat, spaces: set<string>, f: Flat)
    requires |bs| > 0
  {
    forall ns, key :: ns in spaces ==> Stored(bs, hash, ns, key) == Look(f, (ns, key))
  }

  function OnShards(bs: seq<Backend>, hash: string -> nat, op: Op): (r: (seq<Backend>, Reply))
    requires |bs| > 0
    ensures |r.0| == |bs|
  {
    var i := Home(hash, |bs|, op.ns);
    var (b, reply) := OnBackend(bs[i], op);
    (bs[i := b], reply)
  }

  lemma {:induction false} SameReply(bs: seq<Backend>, hash: string -> nat, spaces: set<string>, f: Flat, op: Op)
    requires |bs| > 0 && Represents(bs, hash, spaces, f) && op.ns in spaces
    ensures OnShards(bs, hash, op).1 == OnFlat(f, op).1
  {
    hide Prefix, Glob, Write, Names, Tagged;
    var b := bs[Home(hash, |bs|, op.ns)];
    var p := Prefix(op.ns);
    match op
    case Get(ns, keys) =>
      forall k | k in keys ensures Look(b, p + k) == Look(f, (ns, k)) {
        assert Stored(bs, hash, ns, k) == Look(f, (ns, k));
      }
    case SetIf(ns, key, _, _) => assert Stored(bs, hash, ns, key) == Look(f, (ns, key));
    case SetIfNotExists(ns, key, _) => assert Stored(bs, hash, ns, key) == Look(f, (ns, key));
    case RemoveIf(ns, key, _) => assert Stored(bs, hash, ns, key) == Look(f, (ns, key));
    case _ =>
  }

  lemma {:induction false} StaysRepresented(bs: seq<Backend>, hash: string -> nat, spaces: set<string>, f: Flat, op: Op)
    requires |bs| > 0 && Represents(bs, hash, spaces, f) && op.ns in spaces && Separate(spaces, hash, |bs|)
    ensures Represents(OnShards(bs, hash, op).0, hash, spaces, OnFlat(f, op).0)
  {
    hide Prefix, OnBackend, OnFlat, Look, Clash, FindsOwn;
    var i := Home(hash, |bs|, op.ns);
    var bs' := OnShards(bs, hash, op).0;
    forall ns, key | ns in spaces ensures Stored(bs', hash, ns, key) == Look(OnFlat(f, op).0, (ns, key)) {
      assert Stored(bs, hash, ns, key) == Look(f, (ns, key));
      FlatEffect(f, op, ns, key);
      if ns == op.ns {
        BackendEffect(bs[i], op, key);
      } else if Home(hash, |bs|, ns) == i {
        BackendOther(bs[i], op, ns, key);
      }
    }
  }

  function RunShards(bs: seq<Backend>, hash: string -> nat, ops: seq<Op>): seq<Reply>
    requires |bs| > 0
    decreases |ops|
  {
    if ops == [] then []
    else var r := OnShards(bs, hash, ops[0]); [r.1] + RunShards(r.0, hash, ops[1..])
  }

  function RunFlat(f: Flat, ops: seq<Op>): seq<Reply>
    decreases |ops|
  {
    if ops == [] then [] else var r := OnFlat(f, ops[0]); [r.1] + RunFlat(r.0, ops[1..])
  }

  /** Commands on the namespaces `spaces`. */
  ghost predicate On(spaces: set<string>, ops: seq<Op>) {
    forall i :: 0 <= i < |ops| ==> ops[i].ns in spaces
  }

  /** Every run on separate namespaces gives the replies of one flat map. */
  lemma {:induction false} ShardsActAsOne(bs: seq<Backend>, hash: string -> nat, spaces: set<string>, f: Flat,
                                          ops: seq<Op>)
    requires |bs| > 0 && Represents(bs, hash, spaces, f) && On(spaces, ops) && Separate(spaces, hash, |bs|)
    ensures RunShards(bs, hash, ops) == RunFlat(f, ops)
    decreases |ops|
  {
    hide Represents, OnShards, OnFlat, Separate;
    if ops != [] {
      SameReply(bs, hash, spaces, f, ops[0]);
      StaysRepresented(bs, hash, spaces, f, ops[0]);
      ShardsActAsOne(OnShards(bs, hash, ops[0]).0, hash, spaces, OnFlat(f, ops[0]).0, ops[1..]);
    }
  }

  function Empty(n: nat): (bs: seq<Backend>)
    ensures |bs| == n && forall i :: 0 <= i < n ==> bs[i] == map[]
  {
    seq(n, _ => map[])
  }

  /** Empty backends stand for the empty map. */
  lemma {:induction false} EmptyRepresents(n: nat, hash: string -> nat, spaces: set<string>)
    requires n > 0
    ensures Represents(Empty(n), hash, spaces, map[])
  {
  }

  // ---- Namespaces that get in each other's way ----

  /** Writing a key in one namespace. */
  function Put(ns: string, key: string): Op {
    Set(ns, [(key, "x")])
  }

  lemma {:induction false} PutOnBackend(b: Backend, ns: string, key: string)
    ensures OnBackend(b, Put(ns, key)) == (b[Prefix(ns) + key := "x"], Done)
  {
    hide Prefix;
    var pairs := Names(ns, [(key, "x")]);
    assert pairs == [(Prefix(ns) + key, "x")] && pairs[..0] == [];
    assert Write(b, pairs[..0]) == b;
  }

  lemma {:induction false} PutOnFlat(f: Flat, ns: string, key: string)
    ensures OnFlat(f, Put(ns, key)) == (f[(ns, key) := "x"], Done)
  {
    var pairs := Tagged(ns, [(key, "x")]);
    assert pairs == [((ns, key), "x")] && pairs[..0] == [];
    assert Write(f, pairs[..0]) == f;
  }

  /** Two commands, and then one more. */
  lemma {:induction false} LastReply(bs: seq<Backend>, hash: string -> nat, f: Flat, a: Op, b: Op)
    requires |bs| > 0
    ensures RunShards(bs, hash, [a, b]) == [OnShards(bs, hash, a).1, OnShards(OnShards(bs, hash, a).0, hash, b).1]
    ensures RunFlat(f, [a, b]) == [OnFlat(f, a).1, OnFlat(OnFlat(f, a).0, b).1]
  {
    hide OnShards, OnFlat;
    assert [a, b][1..] == [b] && [b][1..] == [];
    var r, q := OnShards(bs, hash, a), OnFlat(f, a);
    assert RunShards(r.0, hash, [b]) == [OnShards(r.0, hash, b).1] + RunShards(OnShards(r.0, hash, b).0, hash, []);
    assert RunFlat(q.0, [b]) == [OnFlat(q.0, b).1] + RunFlat(OnFlat(q.0, b).0, []);
  }

  /** A run on two namespaces that clash on a backend: what is written in one is found in the other. */
  lemma {:induction false} ClashShows(hash: string -> nat, n: nat, a: string, b: string, ka: string, kb: string)
    requires n > 0 && a != b && Home(hash, n, a) == Home(hash, n, b) && Prefix(a) + ka == Prefix(b) + kb
    ensures RunShards(Empty(n), hash, [Put(a, ka), Get(b, [kb])]) != RunFlat(map[], [Put(a, ka), Get(b, [kb])])
  {
    hide Prefix, OnBackend, OnFlat;
    var bs, i := Empty(n), Home(hash, n, a);
    LastReply(bs, hash, map[], Put(a, ka), Get(b, [kb]));
    PutOnBackend(map[], a, ka);
    PutOnFlat(map[], a, ka);
    var stored: Backend, f: Flat := map[Prefix(a) + ka := "x"], map[(a, ka) := "x"];
    assert OnShards(bs, hash, Put(a, ka)).0[i] == stored;
    GetOne(stored, f, b, kb);
    assert Look(stored, Prefix(b) + kb) == Some("x") && Look(f, (b, kb)) == None;
    assert map[kb := Look(stored, Prefix(b) + kb)][kb] == Some("x") && map[kb := Look(f, (b, kb))][kb] == None;
  }

  lemma {:induction false} GetOne(b: Backend, f: Flat, ns: string, key: string)
    ensures OnBackend(b, Get(ns, [key])).1 == Values(map[key := Look(b, Prefix(ns) + key)])
    ensures OnFlat(f, Get(ns, [key])).1 == Values(map[key := Look(f, (ns, key))])
    ensures OnBackend(b, Get(ns, [key])).0 == b && OnFlat(f, Get(ns, [key])).0 == f
  {
    hide Prefix, Look;
    assert key in [key];
    assert Found(b, [key], (k: string) => Prefix(ns) + k) == map[key := Look(b, Prefix(ns) + key)];
    assert Found(f, [key], (k: string) => (ns, k)) == map[key := Look(f, (ns, key))];
  }

  /** A run on two namespaces one of which finds too much or too little when it is emptied. */
  lemma {:induction false} PatternShows(hash: string -> nat, n: nat, a: string, b: string, key: string)
    requires n > 0 && Home(hash, n, a) == Home(hash, n, b)
    requires Glob(Prefix(a) + "*", Prefix(b) + key) != (a == b)
    ensures var ops := [Put(b, key), RemoveAll(a), Get(b, [key])];
            RunShards(Empty(n), hash, ops) != RunFlat(map[], ops)
  {
    hide Prefix, Glob, OnBackend, OnFlat;
    var bs, i := Empty(n), Home(hash, n, a);
    var put, clear, get := Put(b, key), RemoveAll(a), Get(b, [key]);
    var ops := [put, clear, get];
    PutOnBackend(map[], b, key);
    PutOnFlat(map[], b, key);
    var b1: Backend, f1: Flat := map[Prefix(b) + key := "x"], map[(b, key) := "x"];
    var bs1 := OnShards(bs, hash, put).0;
    assert bs1[i] == b1 && OnFlat(map[], put).0 == f1;
    assert ops[1..] == [clear, get];
    LastReply(bs1, hash, f1, clear, get);
    Emptied(b1, f1, a, b, key);
    var b2, f2 := OnBackend(b1, clear).0, OnFlat(f1, clear).0;
    assert OnShards(bs1, hash, clear).0[i] == b2;
    GetOne(b2, f2, b, key);
    assert RunShards(bs, hash, ops)[2] == RunShards(bs1, hash, [clear, get])[1];
    assert RunFlat(map[], ops)[2] == RunFlat(f1, [clear, get])[1];
    assert map[key := Look(b2, Prefix(b) + key)][key] == Look(b2, Prefix(b) + key);
    assert map[key := Look(f2, (b, key))][key] == Look(f2, (b, key));
  }

  lemma {:induction false} Emptied(b1: Backend, f1: Flat, a: string, b: string, key: string)
    requires b1 == map[Prefix(b) + key := "x"] && f1 == map[(b, key) := "x"]
    ensures Look(OnBackend(b1, RemoveAll(a)).0, Prefix(b) + key)
         == if Glob(Prefix(a) + "*", Prefix(b) + key) then None else Some("x")
    ensures Look(OnFlat(f1, RemoveAll(a)).0, (b, key)) == if a == b then None else Some("x")
  {
    hide Prefix, Glob;
  }

  /** On a fresh store all runs on some namespaces answer as one flat map exactly when the namespaces are separate. */
  lemma {:induction false} SeparateExactly(hash: string -> nat, n: nat, spaces: set<string>)
    requires n > 0
    ensures (forall ops :: On(spaces, ops) ==> RunShards(Empty(n), hash, ops) == RunFlat(map[], ops))
            <==> Separate(spaces, hash, n)
  {
    hide RunShards, RunFlat, Represents, Clash, Glob, Prefix;
    if Separate(spaces, hash, n) {
      EmptyRepresents(n, hash, spaces);
      forall ops | On(spaces, ops) ensures RunShards(Empty(n), hash, ops) == RunFlat(map[], ops) {
        ShardsActAsOne(Empty(n), hash, spaces, map[], ops);
      }
    } else {
      var a, b :| && a in spaces && b in spaces && Home(hash, n, a) == Home(hash, n, b)
                  && !((a != b ==> !Clash(a, b)) && FindsOwn(a, b));
      var ops := NotAsOne(hash, n, a, b);
      assert On(spaces, ops) && RunShards(Empty(n), hash, ops) != RunFlat(map[], ops);
    }
  }

  /** A run on two namespaces that are not separate. */
  ghost function NotAsOne(hash: string -> nat, n: nat, a: string, b: string): (ops: seq<Op>)
    requires n > 0 && Home(hash, n, a) == Home(hash, n, b) && !((a != b ==> !Clash(a, b)) && FindsOwn(a, b))
    ensures forall i :: 0 <= i < |ops| ==> ops[i].ns == a || ops[i].ns == b
    ensures RunShards(Empty(n), hash, ops) != RunFlat(map[], ops)
  {
    if a != b && Clash(a, b) then
      KeysClash(a, b);
      var ka, kb :| Prefix(a) + ka == Prefix(b) + kb;
      ClashShows(hash, n, a, b, ka, kb);
      [Put(a, ka), Get(b, [kb])]
    else
      var key :| Glob(Prefix(a) + "*", Prefix(b) + key) != (a == b);
      PatternShows(hash, n, a, b, key);
      [Put(b, key), RemoveAll(a), Get(b, [key])]
  }

  /** The pattern of one namespace finds a key of another. */
  lemma {:induction false} FindsOther()
    ensures Glob(Prefix("a*") + "*", Prefix("ab") + "")
  {
    var p, s := Prefix("a*") + "*", Prefix("ab") + "";
    assert p == "{a*},*" && s == "{ab},";
    assert p[1..] == "a*},*" && s[1..] == "ab},";
    assert p[1..][1..] == "*},*" && s[1..][1..] == "b},";
    var q, r := "*},*", "b},";
    assert q[1..] == "},*" && r[1..] == "},";
    assert Glob("},*", "},") by {
      assert "},*"[1..] == ",*" && "},"[1..] == "," && ",*"[1..] == "*" && ","[1..] == "";
      StarMatches("");
    }
    assert Glob(q, r[1..]);
    assert Glob(q, r);
    assert Glob("a*},*", "ab},");
  }

  /** A namespace with a pattern character empties another one. */
  lemma {:induction false} GlobExample(hash: string -> nat)
    ensures !Separate({"a*", "ab"}, hash, 1)
    ensures var ops := [Put("ab", ""), RemoveAll("a*"), Get("ab", [""])];
            RunShards(Empty(1), hash, ops) != RunFlat(map[], ops)
  {
    hide RunShards, RunFlat, Glob, Prefix;
    assert Home(hash, 1, "a*") == Home(hash, 1, "ab") == 0;
    FindsOther();
    assert !FindsOwn("a*", "ab");
    PatternShows(hash, 1, "a*", "ab", "");
  }

  /** A namespace that continues another one with "}," shares keys with it. */
  lemma {:induction false} ClashExample(hash: string -> nat)
    ensures !Separate({"a", "a},b"}, hash, 1)
    ensures var ops := [Put("a", "b},k"), Get("a},b", ["k"])];
            RunShards(Empty(1), hash, ops) != RunFlat(map[], ops)
  {
    hide FindsOwn, RunShards, RunFlat;
    assert Home(hash, 1, "a") == Home(hash, 1, "a},b") == 0;
    assert "a},b"[..3] == "a" + "},";
    assert Prefix("a") + "b},k" == Prefix("a},b") + "k";
    ClashShows(hash, 1, "a", "a},b", "b},k", "k");
  }

  // ---- The client ----

  class SyncStorage {
    var instances: seq<Backend>
    const hash: string -> nat

    ghost predicate Valid()
      reads this
    {
      |instances| > 0
    }

    constructor (n: nat, hash: string -> nat)
      requires n > 0
      ensures Valid() && instances == Empty(n) && this.hash == hash
    {
      instances := Empty(n);
      this.hash := hash;
    }

    /** getDbBackend. */
    function GetDbBackend(ns: string): (i: nat)
      requires Valid()
      reads this
      ensures i < |instances|
    {
      Home(hash, |instances|, ns)
    }

    /** What a command has to do. */
    twostate predicate Performs(op: Op, reply: Reply)
      requires old(Valid())
      reads this
    {
      (instances, reply) == OnShards(old(instances), hash, op)
    }

    /** Set: the flattened arguments are written, or nothing is; the backend refuses to write no pairs at all. */
    method Set(ns: string, args: seq<Arg>) returns (r: SetOutcome)
      requires Valid()
      modifies this`instances
      ensures Valid() && r == Outcome(Prefix(ns), args)
      ensures r != Success ==> instances == old(instances)
      ensures r == Success ==>
                var i := old(GetDbBackend(ns));
                instances == old(instances)[i := Write(old(instances)[i], Written(CellsOf(Prefix(ns), args)))]
    {
      hide Prefix, Write, Flatten, Written;
      var at := GetDbBackend(ns);
      if |args| == 0 {
        assert instances[at := instances[at]] == instances;
        NothingSet(instances[at], Prefix(ns));
        return Success;
      }
      var flat := SetNamespaceToKeys(Prefix(ns), args);
      match flat
      case Mismatch => r := SetError;
      case Panic => r := SetPanic;
      case Cells(cells) =>
        if cells == [] {
          return SetError;
        }
        instances := instances[at := Write(instances[at], Written(cells))];
        r := Success;
    }

    method Get(ns: string, keys: seq<string>) returns (m: map<string, Option<Data>>)
      requires Valid()
      ensures Values(m) == OnShards(instances, hash, Op.Get(ns, keys)).1
    {
      hide Prefix;
      var b := instances[GetDbBackend(ns)];
      m := map[];
      var keysWithNs := WithNamespace(ns, keys);
      var val := seq(|keysWithNs|, i requires 0 <= i < |keysWithNs| => Look(b, keysWithNs[i]));
      for i := 0 to |val|
        invariant m.Keys == set k | k in keys[..i]
        invariant forall k :: k in keys[..i] ==> m[k] == Look(b, Prefix(ns) + k)
      {
        assert keys[..i + 1] == keys[..i] + [keys[i]];
        m := m[keys[i] := val[i]];
      }
      assert keys[..|keys|] == keys;
      assert m == Found(b, keys, (k: string) => Prefix(ns) + k);
    }

    method SetIf(ns: string, key: string, from: Data, to: Data) returns (ok: bool)
      requires Valid()
      modifies this`instances
      ensures Valid() && Performs(Op.SetIf(ns, key, from, to), Changed(ok))
    {
      hide Prefix;
      var at, k := GetDbBackend(ns), Prefix(ns) + key;
      assert instances[at := instances[at]] == instances;
      ok := k in instances[at] && instances[at][k] == from;
      if ok {
        instances := instances[at := instances[at][k := to]];
      }
    }

    method SetIfNotExists(ns: string, key: string, data: Data) returns (ok: bool)
      requires Valid()
      modifies this`instances
      ensures Valid() && Performs(Op.SetIfNotExists(ns, key, data), Changed(ok))
    {
      hide Prefix;
      var at, k := GetDbBackend(ns), Prefix(ns) + key;
      assert instances[at := instances[at]] == instances;
      ok := k !in instances[at];
      if ok {
        instances := instances[at := instances[at][k := data]];
      }
    }

    /** The keys of a call under their namespace. */
    static method WithNamespace(ns: string, keys: seq<string>) returns (r: seq<string>)
      ensures |r| == |keys| && forall i :: 0 <= i < |keys| ==> r[i] == Prefix(ns) + keys[i]
    {
      hide Prefix;
      r := [];
      for i := 0 to |keys|
        invariant |r| == i && forall j :: 0 <= j < i ==> r[j] == Prefix(ns) + keys[j]
      {
        r := r + [Prefix(ns) + keys[i]];
      }
    }

    method Remove(ns: string, keys: seq<string>)
      requires Valid()
      modifies this`instances
      ensures Valid() && Performs(Op.Remove(ns, keys), Done)
    {
      hide Prefix;
      var at := GetDbBackend(ns);
      var b := instances[at];
      assert instances[at := b] == instances;
      if |keys| == 0 {
        assert b == OnBackend(b, Op.Remove(ns, keys)).0;
        return;
      }
      var keysWithNs := WithNamespace(ns, keys);
      var left := map s | s in b && s !in keysWithNs :: b[s];
      forall s ensures s in keysWithNs <==> exists k :: k in keys && s == Prefix(ns) + k {
        if s in keysWithNs {
          var i :| 0 <= i < |keysWithNs| && keysWithNs[i] == s;
          assert keys[i] in keys;
        }
        if k :| k in keys && s == Prefix(ns) + k {
          var i :| 0 <= i < |keys| && keys[i] == k;
          assert keysWithNs[i] == s;
        }
      }
      assert left == OnBackend(b, Op.Remove(ns, keys)).0;
      instances := instances[at := left];
    }

    method RemoveIf(ns: string, key: string, data: Data) returns (ok: bool)
      requires Valid()
      modifies this`instances
      ensures Valid() && Performs(Op.RemoveIf(ns, key, data), Changed(ok))
    {
      hide Prefix;
      var at, k := GetDbBackend(ns), Prefix(ns) + key;
      assert instances[at := instances[at]] == instances;
      ok := k in instances[at] && instances[at][k] == data;
      if ok {
        instances := instances[at := instances[at] - {k}];
      }
    }

    method RemoveAll(ns: string)
      requires Valid()
      modifies this`instances
      ensures Valid() && Performs(Op.RemoveAll(ns), Done)
    {
      hide Prefix, Glob;
      var at := GetDbBackend(ns);
      var b := instances[at];
      assert instances[at := b] == instances;
      var keys := set s | s in b && Glob(Prefix(ns) + "*", s);
      if keys != {} {
        instances := instances[at := b - keys];
      }
      assert keys == {} ==> b - keys == b;
      assert b - keys == OnBackend(b, Op.RemoveAll(ns)).0;
    }

    /**
      GetAll, given the keys in the order in which the backend reports them: each is cut out behind the
      prefix; None when one has no such piece and indexing panics.
     */
    method GetAll(ns: string, reported: seq<string>) returns (keys: Option<seq<string>>)
      requires Valid() && Lists(reported, Matching(instances[GetDbBackend(ns)], ns))
      ensures keys == AllPieces(reported, Prefix(ns))
    {
      hide Prefix, Matching, SecondPiece;
      var retVal: seq<string> := [];
      assert reported[0..] == reported;
      PiecesAhead([], AllPieces(reported, Prefix(ns)));
      for i := 0 to |reported|
        invariant Ahead(retVal, AllPieces(reported[i..], Prefix(ns))) == AllPieces(reported, Prefix(ns))
      {
        assert reported[i..][1..] == reported[i + 1..];
        var piece := SecondPiece(reported[i], Prefix(ns));
        if piece.None? {
          return None;
        }
        AheadStep(retVal, piece.value, AllPieces(reported[i + 1..], Prefix(ns)));
        retVal := retVal + [piece.value];
      }
      PiecesAhead(retVal, None);
      keys := Some(retVal);
    }

    method Execute(op: Op) returns (reply: Reply)
      requires Valid()
      modifies this`instances
      ensures Valid() && Performs(op, reply)
    {
      hide OnBackend;
      reply := Done;
      match op
      case Set(ns, pairs) =>
        SetMeans(instances[GetDbBackend(ns)], ns, Singles(pairs), pairs) by { SinglesMean(pairs); }
        var r := Set(ns, Singles(pairs));
        assert r == Success;
        OnlySet(old(instances), hash, op);
      case Get(ns, keys) =>
        var m := Get(ns, keys);
        reply := Values(m);
        Unread(instances, hash, op);
      case SetIf(ns, key, from, to) =>
        var ok := SetIf(ns, key, from, to);
        reply := Changed(ok);
      case SetIfNotExists(ns, key, data) =>
        var ok := SetIfNotExists(ns, key, data);
        reply := Changed(ok);
      case Remove(ns, keys) => Remove(ns, keys);
      case RemoveIf(ns, key, data) =>
        var ok := RemoveIf(ns, key, data);
        reply := Changed(ok);
      case RemoveAll(ns) => RemoveAll(ns);
    }
  }

  /** What precedes the first occurrence of `sep`. */
  function UpTo(t: string, sep: string): string {
    if t == [] || Starts(t, sep) then [] else [t[0]] + UpTo(t[1..], sep)
  }

  /** strings.Split(s, sep)[1], which is there exactly when `sep` occurs. */
  function SecondPiece(s: string, sep: string): Option<string> {
    if Starts(s, sep) then Some(UpTo(s[|sep|..], sep))
    else if s == [] then None
    else SecondPiece(s[1..], sep)
  }

  /** The second pieces of keys in turn, if all have one. */
  function AllPieces(keys: seq<string>, p: string): Option<seq<string>> {
    if keys == [] then Some([])
    else
      var first, rest := SecondPiece(keys[0], p), AllPieces(keys[1..], p);
      if first.Some? && rest.Some? then Some([first.value] + rest.value) else None
  }

  /** What has been collected, in front of what the rest gives. */
  ghost function Ahead(done: seq<string>, r: Option<seq<string>>): Option<seq<string>> {
    if r.Some? then Some(done + r.value) else None
  }

  lemma {:induction false} PiecesAhead(done: seq<string>, r: Option<seq<string>>)
    ensures Ahead([], r) == r && Ahead(done, Some([])) == Some(done)
  {
    if r.Some? {
      assert [] + r.value == r.value;
    }
    assert done + [] == done;
  }

  lemma {:induction false} AheadStep(done: seq<string>, piece: string, r: Option<seq<string>>)
    ensures r.Some? ==> Ahead(done, Some([piece] + r.value)) == Ahead(done + [piece], r)
  {
    if r.Some? {
      assert done + ([piece] + r.value) == done + [piece] + r.value;
    }
  }

  /** KEYS with the pattern of a namespace. */
  function Matching(b: Backend, ns: string): set<string> {
    set s | s in b && Glob(Prefix(ns) + "*", s)
  }

  /** A listing of a set, in any order. */
  ghost predicate Lists(s: seq<string>, keys: set<string>) {
    && (forall i :: 0 <= i < |s| ==> s[i] in keys)
    && (forall k :: k in keys ==> k in s)
    && (forall i, j :: 0 <= i < j < |s| ==> s[i] != s[j])
  }

  /** The pieces one by one. */
  lemma {:induction false} PiecesAt(keys: seq<string>, p: string)
    ensures AllPieces(keys, p).None? <==> exists i :: 0 <= i < |keys| && SecondPiece(keys[i], p).None?
    ensures AllPieces(keys, p).Some? ==>
              && |AllPieces(keys, p).value| == |keys|
              && forall i :: 0 <= i < |keys| ==> SecondPiece(keys[i], p) == Some(AllPieces(keys, p).value[i])
  {
    hide SecondPiece;
    if keys != [] {
      PiecesAt(keys[1..], p);
      var rest := AllPieces(keys[1..], p);
      if rest.None? {
        var i :| 0 <= i < |keys[1..]| && SecondPiece(keys[1..][i], p).None?;
        assert keys[i + 1] == keys[1..][i];
      } else {
        forall i | 1 <= i < |keys| ensures SecondPiece(keys[i], p) == Some(rest.value[i - 1]) {
          assert keys[1..][i - 1] == keys[i];
        }
      }
    }
  }

  /**
    For a namespace without pattern characters GetAll gives its keys in the order reported, each up to the
    next occurrence of the prefix.
   */
  lemma {:induction false} AllKeys(b: Backend, ns: string, reported: seq<string>)
    requires NoGlob(ns) && Lists(reported, Matching(b, ns))
    ensures forall key :: Prefix(ns) + key in b <==> Prefix(ns) + key in reported
    ensures var r := AllPieces(reported, Prefix(ns));
            && r.Some? && |r.value| == |reported|
            && forall i :: 0 <= i < |reported| ==>
                 Starts(reported[i], Prefix(ns)) && r.value[i] == UpTo(reported[i][|Prefix(ns)|..], Prefix(ns))
  {
    hide Prefix, Glob, UpTo, NoGlob;
    var p := Prefix(ns);
    PiecesAt(reported, p);
    forall i | 0 <= i < |reported|
      ensures Starts(reported[i], p) && SecondPiece(reported[i], p) == Some(UpTo(reported[i][|p|..], p))
    {
      FoundByPattern(ns, reported[i]);
    }
    forall key ensures p + key in b <==> p + key in reported {
      FoundByPattern(ns, p + key);
      StartsOwn(ns, key);
    }
  }

  /** The text `x` is what stands in `t` up to the first place where `sep` does, or all of it. */
  ghost predicate Cut(t: string, x: string, sep: string) {
    && x <= t && (x == t || sep <= t[|x|..])
    && forall i :: 0 <= i < |x| ==> !(sep <= t[i..])
  }

  lemma {:induction false} UpToExactly(t: string, x: string, sep: string)
    requires sep != []
    ensures UpTo(t, sep) == x <==> Cut(t, x, sep)
    decreases |t|
  {
    UpToCuts(t, sep);
    if Cut(t, x, sep) {
      OneCut(t, x, UpTo(t, sep), sep);
    }
  }

  lemma {:induction false} OneCut(t: string, x: string, y: string, sep: string)
    requires sep != [] && Cut(t, x, sep) && Cut(t, y, sep)
    ensures x == y
  {
    assert x == t[..|x|] && y == t[..|y|];
  }

  lemma {:induction false} UpToCuts(t: string, sep: string)
    requires sep != []
    ensures Cut(t, UpTo(t, sep), sep)
  {
    if t != [] && !Starts(t, sep) {
      UpToCuts(t[1..], sep);
      var x, y := UpTo(t, sep), UpTo(t[1..], sep);
      assert x == [t[0]] + y && t == [t[0]] + t[1..];
      assert t[|x|..] == t[1..][|y|..];
      forall i | 0 <= i < |x| ensures !(sep <= t[i..]) {
        if i > 0 {
          assert t[i..] == t[1..][i - 1..];
        } else {
          assert t[0..] == t;
        }
      }
    } else {
      assert t[0..] == t;
    }
  }

  /** The text `x` stands between the first place of `sep`, behind `a`, and the next, or the end. */
  ghost predicate PieceBehind(s: string, a: string, x: string, sep: string) {
    Cut(s, a, sep) && a != s && |a| + |sep| <= |s| && Cut(s[|a| + |sep|..], x, sep)
  }

  /** The piece of a key that GetAll takes; there is none when the prefix does not occur. */
  lemma {:induction false} PieceExactly(s: string, x: string, sep: string)
    requires sep != []
    ensures SecondPiece(s, sep) == Some(x) <==> exists a :: PieceBehind(s, a, x, sep)
  {
    hide UpTo, Cut, SecondPiece;
    var a := UpTo(s, sep);
    UpToCuts(s, sep);
    SecondPieceIs(s, sep);
    if a != s {
      UpToExactly(s[|a| + |sep|..], x, sep);
      if SecondPiece(s, sep) == Some(x) {
        assert PieceBehind(s, a, x, sep);
      }
    }
    if a' :| PieceBehind(s, a', x, sep) {
      OneCut(s, a', a, sep);
    }
  }

  lemma {:induction false} SecondPieceIs(s: string, sep: string)
    requires sep != []
    ensures var a := UpTo(s, sep);
            if a == s then SecondPiece(s, sep) == None
            else |a| + |sep| <= |s| && SecondPiece(s, sep) == Some(UpTo(s[|a| + |sep|..], sep))
  {
    if s == [] {
    } else if Starts(s, sep) {
      assert UpTo(s, sep) == [];
    } else {
      SecondPieceIs(s[1..], sep);
      var a, b := UpTo(s, sep), UpTo(s[1..], sep);
      assert a == [s[0]] + b && s == [s[0]] + s[1..];
      assert a == s <==> b == s[1..];
      if b != s[1..] {
        assert s[1..][|b| + |sep|..] == s[|a| + |sep|..];
      }
    }
  }

  /** A key comes back whole exactly when it does not contain its own namespace's prefix. */
  lemma {:induction false} KeyWhole(key: string, p: string)
    requires p != []
    ensures UpTo(key, p) == key <==> !Contains(key, p)
  {
    if key == [] {
      assert !Contains(key, p);
    } else if Starts(key, p) {
      assert key[0..] == key;
    } else {
      KeyWhole(key[1..], p);
      assert Contains(key, p) <==> Contains(key[1..], p) by { ContainsStep(key, p); }
      assert key == [key[0]] + key[1..];
      assert UpTo(key, p)[1..] == UpTo(key[1..], p);
    }
  }

  /** A key that contains its own namespace's prefix. */
  lemma {:induction false} CutExample()
    ensures SecondPiece(Prefix("n") + "a{n},b", Prefix("n")) == Some("a")
  {
    var p, key := Prefix("n"), "a{n},b";
    assert p == "{n}," && (p + key)[|p|..] == key && key[1..] == "{n},b" && key[1..][..|p|] == p;
    assert UpTo(key[1..], p) == "";
    assert !Starts(key, p) by { assert key[..|p|][0] == 'a' && p[0] == '{'; }
    assert UpTo(key, p) == [key[0]] + UpTo(key[1..], p) == "a";
  }

  lemma {:induction false} PieceThere(s: string, p: string)
    ensures SecondPiece(s, p).Some? <==> Contains(s, p)
  {
    if Starts(s, p) {
      assert s[0..] == s;
    } else if s == [] {
      assert forall i :: 0 <= i <= |s| ==> s[i..] == s;
    } else {
      PieceThere(s[1..], p);
      ContainsStep(s, p);
    }
  }

  /** GetAll panics exactly when the pattern finds a key in which the prefix does not occur. */
  lemma {:induction false} PanicsExactly(b: Backend, ns: string, reported: seq<string>)
    requires Lists(reported, Matching(b, ns))
    ensures AllPieces(reported, Prefix(ns)).None? <==>
              exists s :: s in b && Glob(Prefix(ns) + "*", s) && !Contains(s, Prefix(ns))
  {
    hide Prefix, Glob, SecondPiece, Contains, AllPieces;
    PiecesAt(reported, Prefix(ns));
    forall s ensures SecondPiece(s, Prefix(ns)).Some? <==> Contains(s, Prefix(ns)) {
      PieceThere(s, Prefix(ns));
    }
    if i :| 0 <= i < |reported| && SecondPiece(reported[i], Prefix(ns)).None? {
      assert reported[i] in b;
    }
    if s :| s in b && Glob(Prefix(ns) + "*", s) && !Contains(s, Prefix(ns)) {
      assert s in Matching(b, ns);
      var i :| 0 <= i < |reported| && reported[i] == s;
    }
  }

  lemma {:induction false} PanicExample(reported: seq<string>)
    requires Lists(reported, Matching(map["{ab}," := "x"], "a*"))
    ensures AllPieces(reported, Prefix("a*")).None?
  {
    hide Glob, AllPieces;
    FindsOther();
    var p := Prefix("a*");
    assert p == "{a*}," && Prefix("ab") + "" == "{ab},";
    assert !Contains("{ab},", p) by {
      forall i | 0 <= i <= |"{ab},"| ensures !Starts("{ab},"[i..], p) {
        if i == 0 {
          assert "{ab},"[0..][..|p|][2] == 'b' && p[2] == '*';
        }
      }
    }
    PanicsExactly(map["{ab}," := "x"], "a*", reported);
  }

  lemma {:induction false} ContainsStep(s: string, p: string)
    requires s != [] && !Starts(s, p)
    ensures Contains(s, p) <==> Contains(s[1..], p)
  {
    hide Starts;
    assert s[0..] == s;
    if i :| 0 <= i <= |s| && Starts(s[i..], p) {
      assert s[1..][i - 1..] == s[i..];
    }
    if i :| 0 <= i <= |s[1..]| && Starts(s[1..][i..], p) {
      assert s[1..][i..] == s[i + 1..];
    }
  }

  /** What Set reports; a key that is not a string makes it panic. */
  datatype SetOutcome = Success | SetError | SetPanic

  function Outcome(prefix: string, args: seq<Arg>): SetOutcome {
    match Flatten(prefix, args)
    case Cells(cells) => if args != [] && cells == [] then SetError else Success
    case Mismatch => SetError
    case Panic => SetPanic
  }

  function CellsOf(prefix: string, args: seq<Arg>): seq<Cell> {
    var r := Flatten(prefix, args);
    if r.Cells? then r.cells else []
  }

  lemma {:induction false} NothingSet(b: Backend, prefix: string)
    ensures Flatten(prefix, []) == Cells([]) && Write(b, Written([])) == b
  {
  }

  /**
    Arguments that spell pairs, without a map where a value belongs, are written under the namespace
    as those pairs.
   */
  lemma {:induction false} SetMeans(b: Backend, ns: string, args: seq<Arg>, pairs: seq<(string, Data)>)
    requires !MapAsValue(args, true) && PairsIn(args) == Some(pairs)
    ensures Outcome(Prefix(ns), args) == if args == [] || pairs != [] then Success else SetError
    ensures Write(b, Written(CellsOf(Prefix(ns), args))) == OnBackend(b, Set(ns, pairs)).0
  {
    hide Prefix, Write, FlattenFrom, PairsIn, MapAsValue, Written;
    FlattenMeans(Prefix(ns), args, []);
    assert [] + PairCells(Prefix(ns), pairs) == PairCells(Prefix(ns), pairs);
    PairCellsSize(Prefix(ns), pairs);
    PairsWritten(Prefix(ns), pairs);
    assert Written(PairCells(Prefix(ns), pairs)) == Names(ns, pairs);
  }

  /** A map where a value belongs: its first key becomes the value, and its value a key outside the namespace. */
  lemma {:induction false} MapAsValueExample()
    ensures var args := [Single(Str("a")), Mapping([("k", Str("v"))]), Single(Str("b"))];
            && MapAsValue(args, true) && Outcome("{n},", args) == Success
            && Written(CellsOf("{n},", args)) == [("{n},a", "{n},k"), ("v", "b")]
  {
    var p, m := "{n},", Mapping([("k", Str("v"))]);
    var args := [Single(Str("a")), m, Single(Str("b"))];
    assert args[1..] == [m, Single(Str("b"))] && args[1..][1..] == [Single(Str("b"))] && args[1..][1..][1..] == [];
    assert m.entries[1..] == [] && MapCells(p, []) == [];
    assert MapCells(p, m.entries) == [Name(p + "k"), Value("v")];
    var c1: seq<Cell> := [Name(p + "a")];
    var c3: seq<Cell> := [Name(p + "a"), Name(p + "k"), Value("v")];
    var c4: seq<Cell> := [Name(p + "a"), Name(p + "k"), Value("v"), Value("b")];
    assert [] + c1 == c1 && c1 + MapCells(p, m.entries) == c3 && c3 + [Value("b")] == c4;
    assert FlattenFrom(p, [], c4, true) == Cells(c4);
    assert FlattenFrom(p, [Single(Str("b"))], c3, false) == Cells(c4);
    assert FlattenFrom(p, args[1..], c1, false) == Cells(c4);
    assert FlattenFrom(p, args, [], true) == Cells(c4);
    assert c4[2..] == [Value("v"), Value("b")] && c4[2..][2..] == [];
    assert Written(c4[2..]) == [("v", "b")] + Written([]);
    assert p + "a" == "{n},a" && p + "k" == "{n},k";
  }

  lemma {:induction false} OnlySet(bs: seq<Backend>, hash: string -> nat, op: Op)
    requires |bs| > 0 && op.Set?
    ensures OnShards(bs, hash, op).1 == Done
  {
  }

  lemma {:induction false} Unread(bs: seq<Backend>, hash: string -> nat, op: Op)
    requires |bs| > 0 && op.Get?
    ensures OnShards(bs, hash, op).0 == bs
  {
  }

  /** A run of commands on a fresh store of `n` backends answers as one empty map would. */
  method Run(n: nat, hash: string -> nat, ghost spaces: set<string>, ops: seq<Op>) returns (replies: seq<Reply>)
    requires n > 0 && On(spaces, ops) && Separate(spaces, hash, n)
    ensures replies == RunFlat(map[], ops)
  {
    hide OnShards, OnFlat, Represents, Separate;
    var store := new SyncStorage(n, hash);
    replies := [];
    ghost var f: Flat := map[];
    EmptyRepresents(n, hash, spaces);
    assert ops[0..] == ops;
    for i := 0 to |ops|
      invariant fresh(store) && store.Valid() && store.hash == hash && |store.instances| == n
      invariant Represents(store.instances, hash, spaces, f)
      invariant replies + RunFlat(f, ops[i..]) == RunFlat(map[], ops)
    {
      SameReply(store.instances, hash, spaces, f, ops[i]);
      StaysRepresented(store.instances, hash, spaces, f, ops[i]);
      assert ops[i..][0] == ops[i] && ops[i..][1..] == ops[i + 1..];
      var reply := store.Execute(ops[i]);
      replies := replies + [reply];
      f := OnFlat(f, ops[i]).0;
    }
  }
}
