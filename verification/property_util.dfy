/** The application's property store: the key/value pairs of a default
    properties file and of the files it names, held in one map sorted by key
    (a `TreeMap`, ordered by `String.compareTo`), with lookups that follow
    `@` references.

    The class path is the `Resources` map from resource name to the entries
    its properties file yields; a name the map lacks is a resource the class
    loader cannot find. */
module PropertyUtil {
  import opened Wrappers
  import opened Strings

  const DEFAULT_PROPERTY_FILE: string := "ApplicationResources.properties"
  const ADD_PROPERTY_PREFIX: string := "add.property.file."
  const PROPERTY_EXTENSION: string := ".properties"

  type Entry = (string, string)

  // ---------------------------------------------------------------------------
  // The sorted map

  function KeysOf(e: seq<Entry>): (ks: seq<string>)
    ensures |ks| == |e|
    ensures forall i :: 0 <= i < |e| ==> ks[i] == e[i].0
  {
    seq(|e|, i requires 0 <= i < |e| => e[i].0)
  }

  function KeySet(e: seq<Entry>): set<string> {
    set i | 0 <= i < |e| :: e[i].0
  }

  predicate Increasing(ks: seq<string>) {
    forall i, j :: 0 <= i < j < |ks| ==> Less(ks[i], ks[j])
  }

  /** The entries of a `TreeMap`: keys strictly ascending. */
  predicate Sorted(e: seq<Entry>) {
    Increasing(KeysOf(e))
  }

  /** No two entries share a key, as in any `Properties`. */
  predicate DistinctKeys(e: seq<Entry>) {
    forall i, j :: 0 <= i < j < |e| ==> e[i].0 != e[j].0
  }

  /** Every key of `e` lies strictly above `a`. */
  predicate Above(a: string, e: seq<Entry>) {
    forall i :: 0 <= i < |e| ==> Less(a, e[i].0)
  }

  lemma SortedIsDistinct(e: seq<Entry>)
    requires Sorted(e)
    ensures DistinctKeys(e)
  {
    forall i, j | 0 <= i < j < |e|
      ensures e[i].0 != e[j].0
    {
      assert Less(KeysOf(e)[i], KeysOf(e)[j]);
      LessIrreflexive(e[i].0);
    }
  }

  lemma SortedCons(x: Entry, e: seq<Entry>)
    requires Sorted(e) && Above(x.0, e)
    ensures Sorted([x] + e)
  {
    var r := [x] + e;
    forall i, j | 0 <= i < j < |r|
      ensures Less(KeysOf(r)[i], KeysOf(r)[j])
    {
      if i > 0 {
        assert KeysOf(r)[i] == KeysOf(e)[i - 1] && KeysOf(r)[j] == KeysOf(e)[j - 1];
      } else {
        assert r[j] == e[j - 1];
      }
    }
  }

  lemma SortedTail(e: seq<Entry>)
    requires Sorted(e) && e != []
    ensures Sorted(e[1..]) && Above(e[0].0, e[1..])
  {
    forall i, j | 0 <= i < j < |e[1..]|
      ensures Less(KeysOf(e[1..])[i], KeysOf(e[1..])[j])
    {
      assert KeysOf(e)[i + 1] == KeysOf(e[1..])[i];
      assert KeysOf(e)[j + 1] == KeysOf(e[1..])[j];
    }
    forall i | 0 <= i < |e[1..]|
      ensures Less(e[0].0, e[1..][i].0)
    {
      assert KeysOf(e)[0] == e[0].0 && KeysOf(e)[i + 1] == e[1..][i].0;
    }
  }

  /** `TreeMap.get`. */
  function Get(e: seq<Entry>, k: string): (r: Option<string>)
    ensures r.Some? <==> k in KeySet(e)
    ensures r.Some? ==> (k, r.value) in e
    ensures DistinctKeys(e) ==> forall i :: 0 <= i < |e| && e[i].0 == k ==> r == Some(e[i].1)
    decreases |e|
  {
    if e == [] then None
    else
      assert KeySet(e) == {e[0].0} + KeySet(e[1..]) by {
        forall x | x in KeySet(e)
          ensures x in {e[0].0} + KeySet(e[1..])
        {
          var i :| 0 <= i < |e| && e[i].0 == x;
          if i > 0 {
            assert e[1..][i - 1].0 == x;
          }
        }
        forall x | x in KeySet(e[1..])
          ensures x in KeySet(e)
        {
          var i :| 0 <= i < |e[1..]| && e[1..][i].0 == x;
          assert e[i + 1].0 == x;
        }
      }
      if e[0].0 == k then Some(e[0].1)
      else
        var r := Get(e[1..], k);
        assert DistinctKeys(e) ==> DistinctKeys(e[1..]);
        assert forall i :: 0 < i < |e| ==> e[i] == e[1..][i - 1];
        r
  }

  /** `TreeMap.put`: inserts or replaces in key order. */
  function Put(e: seq<Entry>, k: string, v: string): (r: seq<Entry>)
    requires Sorted(e)
    ensures Sorted(r)
    ensures forall a :: Above(a, e) && Less(a, k) ==> Above(a, r)
    decreases |e|
  {
    if e == [] then [(k, v)]
    else
      SortedTail(e);
      if e[0].0 == k then
        SortedCons((k, v), e[1..]);
        [(k, v)] + e[1..]
      else if Less(k, e[0].0) then
        forall i | 0 <= i < |e[1..]|
          ensures Less(k, e[1..][i].0)
        {
          LessTransitive(k, e[0].0, e[1..][i].0);
        }
        SortedCons((k, v), e);
        [(k, v)] + e
      else
        LessTotal(k, e[0].0);
        var rest := Put(e[1..], k, v);
        SortedCons(e[0], rest);
        [e[0]] + rest
  }

  /** After a put the key maps to the new value and every other key to what
      it mapped to before. */
  lemma {:induction false} PutThenGet(e: seq<Entry>, k: string, v: string, x: string)
    requires Sorted(e)
    ensures Get(Put(e, k, v), x) == if x == k then Some(v) else Get(e, x)
    decreases |e|
  {
    if e != [] && e[0].0 != k && !Less(k, e[0].0) {
      SortedTail(e);
      PutThenGet(e[1..], k, v, x);
      assert Put(e, k, v)[1..] == Put(e[1..], k, v);
    }
  }

  /** The entries of a `Properties` put one after another into the map. */
  function PutAll(e: seq<Entry>, p: seq<Entry>): (r: seq<Entry>)
    requires Sorted(e)
    ensures Sorted(r)
    decreases |p|
  {
    if p == [] then e else PutAll(Put(e, p[0].0, p[0].1), p[1..])
  }

  /** Merging a properties file: its entries override the map's, every other
      key keeps its value. */
  lemma {:induction false} PutAllOverrides(e: seq<Entry>, p: seq<Entry>, k: string)
    requires Sorted(e) && DistinctKeys(p)
    ensures Get(PutAll(e, p), k) == if Get(p, k).Some? then Get(p, k) else Get(e, k)
    decreases |p|
  {
    if p != [] {
      assert DistinctKeys(p[1..]) by {
        forall i, j | 0 <= i < j < |p[1..]|
          ensures p[1..][i].0 != p[1..][j].0
        {
          assert p[1..][i] == p[i + 1] && p[1..][j] == p[j + 1];
        }
      }
      PutAllOverrides(Put(e, p[0].0, p[0].1), p[1..], k);
      PutThenGet(e, p[0].0, p[0].1, k);
      if k == p[0].0 {
        forall i | 0 <= i < |p[1..]|
          ensures p[1..][i].0 != k
        {
          assert p[1..][i] == p[i + 1];
        }
        assert k !in KeySet(p[1..]);
      }
    }
  }

  // ---------------------------------------------------------------------------
  // Property names

  /** The key ranges the name queries use: keys starting with a prefix, the
      tail of the map from a key on, and the sub-map from one key up to (not
      including) another. */
  datatype KeyRange = Prefixed(prefix: string) | From(lo: string) | Between(lo: string, hi: string)

  predicate InRange(f: KeyRange, k: string) {
    match f
    case Prefixed(p) => StartsWith(k, p)
    case From(lo) => !Less(k, lo)
    case Between(lo, hi) => !Less(k, lo) && Less(k, hi)
  }

  /** The keys of `ks` in the range, in their order. */
  function Select(ks: seq<string>, f: KeyRange): (r: seq<string>)
    ensures |r| <= |ks|
    ensures forall x :: x in r <==> x in ks && InRange(f, x)
    ensures Increasing(ks) ==> Increasing(r)
    decreases |ks|
  {
    if ks == [] then []
    else
      var rest := Select(ks[1..], f);
      if InRange(f, ks[0]) then
        assert Increasing(ks) ==> forall y :: y in rest ==> Less(ks[0], y) by {
          if Increasing(ks) {
            forall y | y in rest
              ensures Less(ks[0], y)
            {
              var j :| 0 <= j < |ks[1..]| && ks[1..][j] == y;
              assert ks[j + 1] == y;
            }
          }
        }
        assert Increasing(ks) ==> Increasing(ks[1..]) by {
          if Increasing(ks) {
            forall i, j | 0 <= i < j < |ks[1..]|
              ensures Less(ks[1..][i], ks[1..][j])
            {
              assert ks[1..][i] == ks[i + 1] && ks[1..][j] == ks[j + 1];
            }
          }
        }
        IncreasingCons(ks[0], rest);
        [ks[0]] + rest
      else
        assert Increasing(ks) ==> Increasing(ks[1..]) by {
          if Increasing(ks) {
            forall i, j | 0 <= i < j < |ks[1..]|
              ensures Less(ks[1..][i], ks[1..][j])
            {
              assert ks[1..][i] == ks[i + 1] && ks[1..][j] == ks[j + 1];
            }
          }
        }
        rest
  }

  lemma IncreasingCons(x: string, r: seq<string>)
    ensures Increasing(r) && (forall y :: y in r ==> Less(x, y)) ==> Increasing([x] + r)
  {
    if Increasing(r) && (forall y :: y in r ==> Less(x, y)) {
      var s := [x] + r;
      forall i, j | 0 <= i < j < |s|
        ensures Less(s[i], s[j])
      {
        assert s[j] == r[j - 1];
        if i > 0 {
          assert s[i] == r[i - 1];
        }
      }
    }
  }

  /** Two ranges that agree on every key of `ks` select the same keys. */
  lemma {:induction false} SelectAgrees(ks: seq<string>, f: KeyRange, g: KeyRange)
    requires forall x :: x in ks ==> InRange(f, x) == InRange(g, x)
    ensures Select(ks, f) == Select(ks, g)
    decreases |ks|
  {
    if ks != [] {
      SelectAgrees(ks[1..], f, g);
    }
  }

  /** `getPropertyNames()`: every key of the map, in ascending order. */
  function GetAllPropertyNames(e: seq<Entry>): (r: seq<string>)
    requires Sorted(e)
    ensures Increasing(r)
    ensures forall k :: k in r <==> Get(e, k).Some?
  {
    var r := KeysOf(e);
    assert forall k :: k in r <==> k in KeySet(e) by {
      forall k | k in KeySet(e)
        ensures k in r
      {
        var i :| 0 <= i < |e| && e[i].0 == k;
        assert r[i] == k;
      }
    }
    r
  }

  /** In `ks`, ascending, the key at `i` is the first of the tail from `p` on
      that does not start with `p`; the keys below it in that tail are exactly
      the keys that start with `p`. */
  lemma FirstStrangerEndsBlock(ks: seq<string>, p: string, i: nat)
    requires Increasing(ks)
    requires i < |Select(ks, From(p))|
    requires forall j :: 0 <= j < i ==> StartsWith(Select(ks, From(p))[j], p)
    requires !StartsWith(Select(ks, From(p))[i], p)
    ensures Select(ks, Between(p, Select(ks, From(p))[i])) == Select(ks, Prefixed(p))
  {
    var tail := Select(ks, From(p));
    var name := tail[i];
    assert name in tail;
    forall x | x in ks
      ensures InRange(Between(p, name), x) == InRange(Prefixed(p), x)
    {
      if StartsWith(x, p) {
        PrefixNotAbove(x, p);
        PrefixBlockBelow(p, x, name);
      }
      if !Less(x, p) && Less(x, name) {
        assert x in tail;
        var j :| 0 <= j < |tail| && tail[j] == x;
        IndexBelow(tail, j, i);
      }
    }
    SelectAgrees(ks, Between(p, name), Prefixed(p));
  }

  /** In an ascending sequence a smaller key sits at a smaller index. */
  lemma IndexBelow(s: seq<string>, j: nat, i: nat)
    requires Increasing(s) && j < |s| && i < |s| && Less(s[j], s[i])
    ensures j < i
  {
    LessIrreflexive(s[i]);
    LessAsymmetric(s[j], s[i]);
  }

  /** When every key of the tail from `p` on starts with `p`, that tail is
      exactly the keys that start with `p`. */
  lemma WholeTailIsBlock(ks: seq<string>, p: string)
    requires forall j :: 0 <= j < |Select(ks, From(p))| ==> StartsWith(Select(ks, From(p))[j], p)
    ensures Select(ks, From(p)) == Select(ks, Prefixed(p))
  {
    var tail := Select(ks, From(p));
    forall x | x in ks
      ensures InRange(From(p), x) == InRange(Prefixed(p), x)
    {
      if StartsWith(x, p) {
        PrefixNotAbove(x, p);
      }
      if !Less(x, p) {
        assert x in tail;
      }
    }
    SelectAgrees(ks, From(p), Prefixed(p));
  }

  /** `getPropertyNames(keyPrefix)`: walks the tail of the map from the prefix
      on; at the first key that does not start with the prefix it answers the
      sub-map below that key, otherwise the whole tail. Because the keys
      with a prefix form one block of the ordering, the answer is exactly the
      keys that start with the prefix, in ascending order. */
  method GetPropertyNames(e: seq<Entry>, keyPrefix: string) returns (names: seq<string>)
    requires Sorted(e)
    ensures Increasing(names)
    ensures forall k :: k in names <==> Get(e, k).Some? && StartsWith(k, keyPrefix)
  {
    var keys := GetAllPropertyNames(e);
    var tail := Select(keys, From(keyPrefix));
    var i := 0;
    while i < |tail|
      invariant 0 <= i <= |tail|
      invariant forall j :: 0 <= j < i ==> StartsWith(tail[j], keyPrefix)
    {
      var name := tail[i];
      if !StartsWith(name, keyPrefix) {
        names := Select(keys, Between(keyPrefix, name));
        FirstStrangerEndsBlock(keys, keyPrefix, i);
        return;
      }
      i := i + 1;
    }
    names := tail;
    WholeTailIsBlock(keys, keyPrefix);
  }

  /** `getPropertyNames(localProps, keyPrefix)`: the names of a `Properties`,
      in its enumeration order, that start with the prefix; null when either
      argument is null. */
  function GetPropertyNamesOf(localProps: Option<seq<string>>, keyPrefix: Option<string>)
    : (r: Option<seq<string>>)
    ensures r.None? <==> localProps.None? || keyPrefix.None?
    ensures r.Some? ==> |r.value| <= |localProps.value|
                        && forall k :: k in r.value <==> k in localProps.value && StartsWith(k, keyPrefix.value)
  {
    if localProps.None? || keyPrefix.None? then None
    else Some(Select(localProps.value, Prefixed(keyPrefix.value)))
  }

  /** `getPropertiesValues(localProps, propertyNames)`: the set of what each
      name looks up, a name without an entry contributing null; null when
      either argument is null. */
  function GetPropertiesValuesOf(localProps: Option<seq<Entry>>, propertyNames: Option<seq<string>>)
    : (r: Option<set<Option<string>>>)
    ensures r.None? <==> localProps.None? || propertyNames.None?
    ensures r.Some? ==> forall i :: 0 <= i < |propertyNames.value| ==>
                          Get(localProps.value, propertyNames.value[i]) in r.value
    ensures r.Some? ==> forall v :: v in r.value ==>
                          exists i :: 0 <= i < |propertyNames.value| && v == Get(localProps.value, propertyNames.value[i])
    // null is in the set exactly when some name has no entry
    ensures r.Some? ==> (None in r.value <==>
                          exists i :: 0 <= i < |propertyNames.value| && propertyNames.value[i] !in KeySet(localProps.value))
    // every other member is the value of some entry
    ensures r.Some? ==> forall v :: Some(v) in r.value ==>
                          exists j :: 0 <= j < |localProps.value| && localProps.value[j].1 == v
  {
    if localProps.None? || propertyNames.None? then None
    else
      var e, names := localProps.value, propertyNames.value;
      var r := set i | 0 <= i < |names| :: Get(e, names[i]);
      forall v | Some(v) in r
        ensures exists j :: 0 <= j < |e| && e[j].1 == v
      {
        var i :| 0 <= i < |names| && Get(e, names[i]) == Some(v);
        var j :| 0 <= j < |e| && e[j] == (names[i], v);
      }
      Some(r)
  }

  // ---------------------------------------------------------------------------
  // Lookups

  /** What a lookup does: answers a value (null as `None`), or recurses
      without end because the `@` references run in a cycle (the
      `StackOverflowError` of the Java recursion). */
  datatype Lookup = Found(value: Option<string>) | Loops

  /** The key a value refers on to: a value starting with a single `@` that
      is not the key's own `@key`. */
  function Next(e: seq<Entry>, key: string): (r: Option<string>)
    ensures r.Some? ==> Get(e, key).Some? && StartsWith(Get(e, key).value, "@")
  {
    match Get(e, key)
    case None => None
    case Some(v) =>
      if v == "@" + key || StartsWith(v, "@@") || !StartsWith(v, "@") then None
      else Some(v[1..])
  }

  /** The value a lookup answers when it does not refer on: the stored
      value, with one `@` of a leading `@@` removed. */
  function Direct(e: seq<Entry>, key: string): Option<string> {
    match Get(e, key)
    case None => None
    case Some(v) => if v != "@" + key && StartsWith(v, "@@") then Some(v[1..]) else Some(v)
  }

  /** The lookup from `key`, where `visited` holds the keys the chain of
      references has already passed through. */
  function Resolve(e: seq<Entry>, key: string, visited: set<string>): Lookup
    decreases |KeySet(e) - visited|
  {
    if key in visited then Loops
    else match Next(e, key)
      case None => Found(Direct(e, key))
      case Some(k) =>
        FewerUnvisited(KeySet(e), visited, key);
        Resolve(e, k, visited + {key})
  }

  lemma FewerUnvisited(all: set<string>, visited: set<string>, x: string)
    requires x in all && x !in visited
    ensures |all - (visited + {x})| < |all - visited|
  {
    var d := all - visited;
    assert all - (visited + {x}) == d - {x};
    assert d == (d - {x}) + {x};
  }

  /** `getProperty(key)`: a missing key answers null; a value `@key` is
      answered as it is; a value starting with `@@` loses one `@`; a value
      starting with a single `@` names another key, whose lookup is the
      answer. */
  function GetProperty(e: seq<Entry>, key: string): (r: Lookup)
    ensures Get(e, key).None? ==> r == Found(None)
    ensures Get(e, key) == Some("@" + key) ==> r == Found(Some("@" + key))
    ensures Get(e, key).Some? && Get(e, key).value != "@" + key && StartsWith(Get(e, key).value, "@@") ==>
              r == Found(Some(Get(e, key).value[1..]))
    ensures Get(e, key).Some? && !StartsWith(Get(e, key).value, "@") ==> r == Found(Get(e, key))
  {
    Resolve(e, key, {})
  }

  /** The Java recursion itself, cut off after `depth` references
      (`None` when the cut-off is reached). */
  function JavaGetProperty(e: seq<Entry>, key: string, depth: nat): Option<Option<string>>
    decreases depth
  {
    match Next(e, key)
    case None => Some(Direct(e, key))
    case Some(k) => if depth == 0 then None else JavaGetProperty(e, k, depth - 1)
  }

  lemma JavaStep(e: seq<Entry>, key: string, depth: nat)
    requires Next(e, key).Some? && depth > 0
    ensures JavaGetProperty(e, key, depth) == JavaGetProperty(e, Next(e, key).value, depth - 1)
  {
  }

  lemma {:induction false} JavaDeeper(e: seq<Entry>, key: string, d1: nat, d2: nat)
    requires d1 <= d2 && JavaGetProperty(e, key, d1).Some?
    ensures JavaGetProperty(e, key, d2) == JavaGetProperty(e, key, d1)
    decreases d1
  {
    if Next(e, key).Some? {
      JavaDeeper(e, Next(e, key).value, d1 - 1, d2 - 1);
    }
  }

  /** A lookup that answers agrees with the Java recursion, which needs no
      more references than the map has unvisited keys. */
  lemma {:induction false} ResolveAgreesWithJava(e: seq<Entry>, key: string, visited: set<string>)
    requires Resolve(e, key, visited).Found?
    ensures JavaGetProperty(e, key, |KeySet(e) - visited|) == Some(Resolve(e, key, visited).value)
    decreases |KeySet(e) - visited|
  {
    ResolveAnswers(e, key, visited);
    if Next(e, key).Some? {
      var k := Next(e, key).value;
      var d, d2 := |KeySet(e) - visited|, |KeySet(e) - (visited + {key})|;
      FewerUnvisited(KeySet(e), visited, key);
      ResolveAgreesWithJava(e, k, visited + {key});
      JavaStep(e, key, d);
      JavaThroughReference(e, key, k, d, d2, Resolve(e, k, visited + {key}).value);
    } else {
      assert JavaGetProperty(e, key, |KeySet(e) - visited|) == Some(Direct(e, key));
    }
  }

  /** A lookup that answers started from an unvisited key, and answers what
      the lookup from the key referred to answers. */
  lemma ResolveAnswers(e: seq<Entry>, key: string, visited: set<string>)
    requires Resolve(e, key, visited).Found?
    ensures key !in visited
    ensures Next(e, key).None? ==> Resolve(e, key, visited) == Found(Direct(e, key))
    ensures Next(e, key).Some? ==> Resolve(e, key, visited) == Resolve(e, Next(e, key).value, visited + {key})
  {
  }

  /** When the recursion from `key` is the recursion from `k` one level
      shallower, it answers whatever a shallower recursion from `k` answered. */
  lemma JavaThroughReference(e: seq<Entry>, key: string, k: string, d: nat, d2: nat, answer: Option<string>)
    requires d2 < d
    requires JavaGetProperty(e, key, d) == JavaGetProperty(e, k, d - 1)
    requires JavaGetProperty(e, k, d2) == Some(answer)
    ensures JavaGetProperty(e, key, d) == Some(answer)
  {
    JavaDeeper(e, k, d2, d - 1);
  }

  /** The key reached from `key` after `n` steps of `next`, if every step
      leads somewhere. */
  function Chase(next: string -> Option<string>, key: string, n: nat): Option<string>
    decreases n
  {
    if n == 0 then Some(key)
    else match Chase(next, key, n - 1)
      case None => None
      case Some(k) => next(k)
  }

  function NextIn(e: seq<Entry>): string -> Option<string> {
    k => Next(e, k)
  }

  /** The key reached after following `n` references from `key`. */
  function Follow(e: seq<Entry>, key: string, n: nat): Option<string> {
    Chase(NextIn(e), key, n)
  }

  /** The keys passed through before the `n`-th reference. */
  function Passed(e: seq<Entry>, key: string, n: nat): set<string> {
    set i | 0 <= i < n && Follow(e, key, i).Some? :: Follow(e, key, i).value
  }

  /** The Java recursion runs out of depth exactly when `depth + 1`
      references can be followed. */
  lemma {:induction false} JavaCutOff(e: seq<Entry>, key: string, depth: nat)
    ensures JavaGetProperty(e, key, depth).None? <==> Follow(e, key, depth + 1).Some?
    decreases depth
  {
    FollowShift(e, key, depth);
    if Next(e, key).Some? && depth > 0 {
      JavaCutOff(e, Next(e, key).value, depth - 1);
    }
  }

  /** Following `n + 1` references is one reference, then `n` more. */
  lemma FollowShift(e: seq<Entry>, key: string, n: nat)
    ensures Next(e, key).None? ==> Follow(e, key, n + 1).None?
    ensures Next(e, key).Some? ==> Follow(e, key, n + 1) == Follow(e, Next(e, key).value, n)
  {
    ChaseShift(NextIn(e), key, n);
    assert NextIn(e)(key) == Next(e, key);
  }

  lemma {:induction false} ChaseShift(next: string -> Option<string>, key: string, n: nat)
    ensures next(key).None? ==> Chase(next, key, n + 1).None?
    ensures next(key).Some? ==> Chase(next, key, n + 1) == Chase(next, next(key).value, n)
    decreases n
  {
    if n > 0 {
      ChaseShift(next, key, n - 1);
    }
  }

  /** Taking `a + b` steps is taking `a`, then `b` more. */
  lemma {:induction false} ChaseAdd(next: string -> Option<string>, key: string, a: nat, b: nat)
    requires Chase(next, key, a).Some?
    ensures Chase(next, key, a + b) == Chase(next, Chase(next, key, a).value, b)
    decreases b
  {
    if b > 0 {
      ChaseAdd(next, key, a, b - 1);
    }
  }

  /** The chain of references from `key` comes back to a key it passed. */
  ghost predicate Revisits(e: seq<Entry>, key: string) {
    exists i, j :: 0 <= i < j && Follow(e, key, i).Some? && Follow(e, key, i) == Follow(e, key, j)
  }

  /** A lookup that loops came back to a key it had passed. */
  lemma {:induction false} LoopsRevisit(e: seq<Entry>, key: string, m: nat)
    requires Follow(e, key, m).Some?
    requires Resolve(e, Follow(e, key, m).value, Passed(e, key, m)) == Loops
    ensures Revisits(e, key)
    decreases |KeySet(e) - Passed(e, key, m)|
  {
    if Follow(e, key, m).value in Passed(e, key, m) {
      RevisitsPassed(e, key, m);
    } else {
      LoopsStep(e, key, m);
      LoopsRevisit(e, key, m + 1);
    }
  }

  /** Reaching a key already passed is a revisit. */
  lemma RevisitsPassed(e: seq<Entry>, key: string, m: nat)
    requires Follow(e, key, m).Some? && Follow(e, key, m).value in Passed(e, key, m)
    ensures Revisits(e, key)
  {
    var i := PassedAt(e, key, m, Follow(e, key, m).value);
    assert Follow(e, key, i) == Follow(e, key, m);
  }

  lemma PassedAt(e: seq<Entry>, key: string, m: nat, k: string) returns (i: nat)
    requires k in Passed(e, key, m)
    ensures i < m && Follow(e, key, i) == Some(k)
  {
    i :| 0 <= i < m && Follow(e, key, i).Some? && Follow(e, key, i).value == k;
  }

  /** One more reference of a looping lookup: the chain goes on, the lookup
      from there still loops, and one more key has been passed. */
  lemma LoopsStep(e: seq<Entry>, key: string, m: nat)
    requires Follow(e, key, m).Some?
    requires Resolve(e, Follow(e, key, m).value, Passed(e, key, m)) == Loops
    requires Follow(e, key, m).value !in Passed(e, key, m)
    ensures Follow(e, key, m + 1).Some?
    ensures Resolve(e, Follow(e, key, m + 1).value, Passed(e, key, m + 1)) == Loops
    ensures |KeySet(e) - Passed(e, key, m + 1)| < |KeySet(e) - Passed(e, key, m)|
  {
    var k := Follow(e, key, m).value;
    var visited := Passed(e, key, m);
    assert Next(e, k).Some?;
    assert k in KeySet(e);
    PassedGrows(e, key, m);
    FewerUnvisited(KeySet(e), visited, k);
  }

  lemma PassedGrows(e: seq<Entry>, key: string, m: nat)
    requires Follow(e, key, m).Some?
    ensures Passed(e, key, m + 1) == Passed(e, key, m) + {Follow(e, key, m).value}
  {
  }

  /** Once a chain of steps revisits a key, it can be followed forever. */
  lemma {:induction false} CycleNeverEnds(next: string -> Option<string>, key: string, i: nat, j: nat, n: nat)
    requires i < j && Chase(next, key, i).Some? && Chase(next, key, i) == Chase(next, key, j)
    ensures Chase(next, key, n).Some?
    decreases n
  {
    if n > j {
      CycleNeverEnds(next, key, i, j, n - (j - i));
      ChaseAdd(next, key, j, n - j);
      ChaseAdd(next, key, i, n - j);
    } else if n < j {
      ChasePrefix(next, key, n, j);
    }
  }

  /** A chain that can take `b` steps can take every smaller number. */
  lemma {:induction false} ChasePrefix(next: string -> Option<string>, key: string, a: nat, b: nat)
    requires a <= b && Chase(next, key, b).Some?
    ensures Chase(next, key, a).Some?
    decreases b
  {
    if a < b {
      ChasePrefix(next, key, a, b - 1);
    }
  }

  /** A lookup reports `Loops` exactly when the Java recursion never returns,
      whatever depth it is given; otherwise the recursion returns the same
      value once it is deep enough. */
  lemma GetPropertyMatchesJava(e: seq<Entry>, key: string)
    ensures GetProperty(e, key).Found? ==>
              JavaGetProperty(e, key, |KeySet(e)|) == Some(GetProperty(e, key).value)
    ensures GetProperty(e, key).Loops? ==> forall d: nat :: JavaGetProperty(e, key, d).None?
  {
    if GetProperty(e, key).Found? {
      ResolveAgreesWithJava(e, key, {});
      assert KeySet(e) - {} == KeySet(e);
    } else {
      assert Passed(e, key, 0) == {};
      LoopsRevisit(e, key, 0);
      var i, j :| 0 <= i < j && Follow(e, key, i).Some? && Follow(e, key, i) == Follow(e, key, j);
      forall d: nat
        ensures JavaGetProperty(e, key, d).None?
      {
        CycleNeverEnds(NextIn(e), key, i, j, d + 1);
        JavaCutOff(e, key, d);
      }
    }
  }

  /** A value `@k`, where `k` does not itself start with `@`, refers to `k`. */
  lemma RefersTo(k: string)
    requires k != [] && k[0] != '@'
    ensures StartsWith("@" + k, "@") && !StartsWith("@" + k, "@@") && ("@" + k)[1..] == k
  {
    assert ("@" + k)[1] == k[0];
  }

  /** Two keys that refer to each other loop. */
  lemma TwoCycleLoops()
    ensures GetProperty([("a", "@b"), ("b", "@a")], "a") == Loops
  {
    RefersTo("a");
    RefersTo("b");
    var cyc := [("a", "@b"), ("b", "@a")];
    assert Get(cyc, "a") == Some("@b") && Get(cyc, "b") == Some("@a");
    assert Next(cyc, "a") == Some("b");
    assert Next(cyc, "b") == Some("a");
    var one: set<string> := {} + {"a"};
    assert Resolve(cyc, "a", {}) == Resolve(cyc, "b", one);
    assert Resolve(cyc, "b", one) == Resolve(cyc, "a", one + {"b"});
    assert "a" in one + {"b"};
  }

  /** A chain of references that ends in a plain value answers that value. */
  lemma ChainResolves()
    ensures GetProperty([("a", "@b"), ("b", "@c"), ("c", "v")], "a") == Found(Some("v"))
  {
    var chain := [("a", "@b"), ("b", "@c"), ("c", "v")];
    ChainSteps();
    var ab: set<string> := {} + {"a"} + {"b"};
    assert Resolve(chain, "c", ab) == Found(Some("v"));
    assert Resolve(chain, "b", {} + {"a"}) == Resolve(chain, "c", ab);
    assert Resolve(chain, "a", {}) == Resolve(chain, "b", {} + {"a"});
  }

  lemma ChainSteps()
    ensures Next([("a", "@b"), ("b", "@c"), ("c", "v")], "a") == Some("b")
    ensures Next([("a", "@b"), ("b", "@c"), ("c", "v")], "b") == Some("c")
    ensures Next([("a", "@b"), ("b", "@c"), ("c", "v")], "c") == None
    ensures Direct([("a", "@b"), ("b", "@c"), ("c", "v")], "c") == Some("v")
  {
    var chain := [("a", "@b"), ("b", "@c"), ("c", "v")];
    ChainGets();
    assert "@" + "b" == "@b" && "@" + "c" == "@c";
    NextOfReference(chain, "a", "b");
    NextOfReference(chain, "b", "c");
    assert !StartsWith("v", "@") by {
      assert "v"[..1][0] == 'v';
    }
  }

  /** A value `@k` naming another key `k` refers to it. */
  lemma NextOfReference(e: seq<Entry>, key: string, k: string)
    requires k != [] && k[0] != '@' && k != key && Get(e, key) == Some("@" + k)
    ensures Next(e, key) == Some(k)
  {
    RefersTo(k);
    assert "@" + k != "@" + key by {
      assert ("@" + k)[1..] == k && ("@" + key)[1..] == key;
    }
  }

  lemma ChainGets()
    ensures Get([("a", "@b"), ("b", "@c"), ("c", "v")], "a") == Some("@b")
    ensures Get([("a", "@b"), ("b", "@c"), ("c", "v")], "b") == Some("@c")
    ensures Get([("a", "@b"), ("b", "@c"), ("c", "v")], "c") == Some("v")
  {
    var chain := [("a", "@b"), ("b", "@c"), ("c", "v")];
    assert chain[1..] == [("b", "@c"), ("c", "v")];
    assert chain[1..][1..] == [("c", "v")];
  }

  /** A value `@key` answers itself, and a value starting `@@` loses one `@`. */
  lemma EscapesResolve()
    ensures GetProperty([("a", "@a")], "a") == Found(Some("@a"))
    ensures GetProperty([("a", "@@b")], "a") == Found(Some("@b"))
  {
    assert Get([("a", "@a")], "a") == Some("@a");
    assert Get([("a", "@@b")], "a") == Some("@@b");
    assert StartsWith("@@b", "@@");
    assert "@@b"[1..] == "@b";
  }

  /** `getProperty(key, defaultValue)`: the stored value as it is, `@`
      references included, or the default when the key is missing. */
  function GetPropertyOrDefault(e: seq<Entry>, key: string, defaultValue: Option<string>): (r: Option<string>)
    ensures Get(e, key).Some? ==> r == Get(e, key)
    ensures Get(e, key).None? ==> r == defaultValue
  {
    match Get(e, key)
    case Some(v) => Some(v)
    case None => defaultValue
  }

  /** The two lookups differ exactly on references: the defaulting one does
      not follow them. */
  lemma DefaultLookupDoesNotFollow(e: seq<Entry>, key: string, d: Option<string>)
    requires Next(e, key).None? && Get(e, key).Some?
    requires !StartsWith(Get(e, key).value, "@@") || Get(e, key).value == "@" + key
    ensures GetProperty(e, key) == Found(GetPropertyOrDefault(e, key, d))
  {
  }

  // ---------------------------------------------------------------------------
  // Files

  /** `new File(path).getParent()` on a Unix file system, for a path in
      normal form: everything before the last separator; the root for a
      file directly under it; null when there is no separator. */
  function Parent(path: string): (r: Option<string>)
    ensures r.None? <==> (forall i :: 0 <= i < |path| ==> path[i] != '/') || path == "/"
    ensures r.Some? ==> |r.value| < |path| && StartsWith(path, r.value)
  {
    var prefixLength := if StartsWith(path, "/") then 1 else 0;
    var index := LastIndexOf(path, '/');
    if index < prefixLength then
      if prefixLength > 0 && |path| > prefixLength then
        assert path[0] == path[..1][0] == '/';
        Some(path[..prefixLength])
      else
        assert prefixLength > 0 ==> path == path[..1] == "/";
        None
    else Some(path[..index])
  }

  function LastIndexOf(s: string, c: char): (r: int)
    ensures -1 <= r < |s|
    ensures r >= 0 ==> s[r] == c
    ensures forall j :: r < j < |s| ==> s[j] != c
    decreases |s|
  {
    if s == [] then -1
    else if s[|s| - 1] == c then |s| - 1
    else LastIndexOf(s[..|s| - 1], c)
  }

  /** `getPropertiesPath`: the added file, resolved against the directory of
      the file that names it. */
  function GetPropertiesPath(resource: string, addFile: string): (r: string)
    ensures EndsWith(r, addFile)
    ensures Parent(resource).None? ==> r == addFile
  {
    match Parent(resource)
    case None => addFile
    case Some(dir) => dir + "/" + addFile
  }

  /** A file inside a directory names its added files in that directory;
      a bare file name names them bare. */
  lemma PathsAreSiblings(dir: string, file: string, addFile: string)
    requires dir != [] && forall i :: 0 <= i < |file| ==> file[i] != '/'
    ensures GetPropertiesPath(dir + "/" + file, addFile) == dir + "/" + addFile
    ensures GetPropertiesPath(file, addFile) == addFile
  {
    var path := dir + "/" + file;
    assert path[|dir|] == '/';
    assert forall j :: |dir| < j < |path| ==> path[j] == file[j - |dir| - 1];
    assert LastIndexOf(path, '/') == |dir|;
    assert path[..|dir|] == dir;
  }

  /** `addPropertyFile`'s name rule: the `.properties` extension may be left
      off. */
  function FileName(name: string): (r: string)
    ensures EndsWith(r, PROPERTY_EXTENSION)
    ensures EndsWith(name, PROPERTY_EXTENSION) ==> r == name
    ensures !EndsWith(name, PROPERTY_EXTENSION) ==> |r| == |name| + |PROPERTY_EXTENSION| && r[..|name|] == name
  {
    if EndsWith(name, PROPERTY_EXTENSION) then name
    else
      var r := name + PROPERTY_EXTENSION;
      assert r[|r| - |PROPERTY_EXTENSION|..] == PROPERTY_EXTENSION;
      r
  }

  lemma FileNameIdempotent(name: string)
    ensures FileName(FileName(name)) == FileName(name)
  {
  }

  /** The key that names the `i`-th added file. */
  function AddKey(i: nat): string {
    ADD_PROPERTY_PREFIX + NatToString(i)
  }

  /** The resources the class loader can find, by name, with the entries of
      each properties file. */
  type Resources = map<string, seq<Entry>>

  ghost predicate WellFormed(fs: Resources) {
    forall n :: n in fs ==> DistinctKeys(fs[n])
  }

  /** The two static fields: the merged map and the names of the files read. */
  datatype Store = Store(props: seq<Entry>, files: set<string>)

  /** What a load keeps: the map stays sorted, every file read is a
      resource, and no key is lost. */
  ghost predicate Grows(fs: Resources, s: Store, r: Store) {
    && Sorted(r.props)
    && s.files <= r.files <= s.files + fs.Keys
    && KeySet(s.props) <= KeySet(r.props)
  }

  /** `load(name)`: a missing resource is reported and leaves everything as
      it was (it is not marked as read). Otherwise the name is marked as
      read, the file's entries are put into the map, and the files it names
      under `add.property.file.1`, `.2`, .. (up to the first missing number)
      are added, each resolved against this file's directory. */
  function Load(fs: Resources, s: Store, name: string): (r: Store)
    requires WellFormed(fs) && Sorted(s.props) && name !in s.files
    ensures Grows(fs, s, r)
    ensures name in fs ==> name in r.files
    ensures name !in fs ==> r == s
    decreases |fs.Keys - s.files|, 0, 0
  {
    if name !in fs then s
    else
      var p := fs[name];
      var props := PutAll(s.props, p);
      PutAllKeys(s.props, p);
      FewerUnvisited(fs.Keys, s.files, name);
      AddFiles(fs, Store(props, s.files + {name}), name, p, 1)
  }

  /** The loop over the numbered keys of one file, from number `i` on. */
  function AddFiles(fs: Resources, s: Store, base: string, p: seq<Entry>, i: nat): (r: Store)
    requires WellFormed(fs) && Sorted(s.props) && i >= 1
    requires forall j :: 1 <= j < i ==> AddKey(j) in KeySet(p)
    ensures Grows(fs, s, r)
    decreases |fs.Keys - s.files|, 2, |p| + 1 - i
  {
    match Get(p, AddKey(i))
    case None => s
    case Some(addfile) =>
      var s1 := AddPropertyFile(fs, s, GetPropertiesPath(base, addfile));
      NamedUpTo(p, i);
      AddKeysBounded(p, i);
      SubsetCard(fs.Keys - s1.files, fs.Keys - s.files);
      AddFiles(fs, s1, base, p, i + 1)
  }

  /** `addPropertyFile(name)`: reads the file under its full name unless a
      file of that name has been read already. */
  function AddPropertyFile(fs: Resources, s: Store, name: string): (r: Store)
    requires WellFormed(fs) && Sorted(s.props)
    ensures Grows(fs, s, r)
    ensures FileName(name) in s.files ==> r == s
    ensures FileName(name) in fs ==> FileName(name) in r.files
    ensures FileName(name) !in fs ==> r == s
    decreases |fs.Keys - s.files|, 1, 0
  {
    var full := FileName(name);
    if full in s.files then s else Load(fs, s, full)
  }

  lemma PutAllKeys(e: seq<Entry>, p: seq<Entry>)
    requires Sorted(e)
    ensures KeySet(e) <= KeySet(PutAll(e, p))
  {
    forall k | k in KeySet(e)
      ensures k in KeySet(PutAll(e, p))
    {
      PutAllKeeps(e, p, k);
    }
  }

  lemma {:induction false} PutAllKeeps(e: seq<Entry>, p: seq<Entry>, k: string)
    requires Sorted(e) && Get(e, k).Some?
    ensures Get(PutAll(e, p), k).Some?
    decreases |p|
  {
    if p != [] {
      PutThenGet(e, p[0].0, p[0].1, k);
      PutAllKeeps(Put(e, p[0].0, p[0].1), p[1..], k);
    }
  }

  lemma {:induction false} SubsetCard<T>(a: set<T>, b: set<T>)
    requires a <= b
    ensures |a| <= |b|
    decreases |a|
  {
    if a != {} {
      var x :| x in a;
      SubsetCard(a - {x}, b - {x});
    }
  }

  /** The numbers `1..n` as added-file keys. */
  ghost function AddKeySet(n: nat): set<string> {
    set j | 1 <= j <= n :: AddKey(j)
  }

  /** The added-file keys of distinct numbers are distinct. */
  lemma {:induction false} AddKeySetCard(n: nat)
    ensures |AddKeySet(n)| == n
    decreases n
  {
    if n > 0 {
      AddKeySetCard(n - 1);
      var rest := AddKeySet(n - 1);
      assert AddKey(n) !in rest by {
        forall j | 1 <= j <= n - 1
          ensures AddKey(j) != AddKey(n)
        {
          PrefixedNumbersDistinct(ADD_PROPERTY_PREFIX, j, n);
        }
      }
      assert AddKeySet(n) == rest + {AddKey(n)} by {
        forall x | x in AddKeySet(n)
          ensures x in rest + {AddKey(n)}
        {
          var j :| 1 <= j <= n && x == AddKey(j);
          if j < n {
            assert x in rest;
          }
        }
      }
    }
  }

  lemma NamedUpTo(p: seq<Entry>, i: nat)
    requires forall j :: 1 <= j < i ==> AddKey(j) in KeySet(p)
    requires AddKey(i) in KeySet(p)
    ensures forall j :: 1 <= j < i + 1 ==> AddKey(j) in KeySet(p)
  {
  }

  /** A file can name no more added files than it has entries. */
  lemma AddKeysBounded(p: seq<Entry>, i: nat)
    requires forall j :: 1 <= j < i + 1 ==> AddKey(j) in KeySet(p)
    ensures i <= |p|
  {
    var keys := AddKeySet(i);
    AddKeySetCard(i);
    assert keys <= KeySet(p);
    SubsetCard(keys, KeySet(p));
    KeySetCard(p);
  }

  lemma {:induction false} KeySetCard(e: seq<Entry>)
    ensures |KeySet(e)| <= |e|
    decreases |e|
  {
    if e != [] {
      var init := e[..|e| - 1];
      KeySetCard(init);
      assert KeySet(e) == KeySet(init) + {e[|e| - 1].0} by {
        forall x | x in KeySet(e)
          ensures x in KeySet(init) + {e[|e| - 1].0}
        {
          var i :| 0 <= i < |e| && e[i].0 == x;
          if i < |e| - 1 {
            assert init[i].0 == x;
          }
        }
      }
    }
  }

  /** Adding the same file twice reads it once: the second call changes
      nothing, whether or not the first found the resource. */
  lemma AddPropertyFileIdempotent(fs: Resources, s: Store, name: string)
    requires WellFormed(fs) && Sorted(s.props)
    ensures AddPropertyFile(fs, AddPropertyFile(fs, s, name), name) == AddPropertyFile(fs, s, name)
  {
  }

  /** Every key of a file that is read is in the map afterwards, and a file
      that names no further files contributes its entries over the map's. */
  lemma LoadMerges(fs: Resources, s: Store, name: string)
    requires WellFormed(fs) && Sorted(s.props) && name !in s.files && name in fs
    ensures forall k :: Get(fs[name], k).Some? ==> Get(Load(fs, s, name).props, k).Some?
    ensures Get(fs[name], AddKey(1)).None? ==>
              && Load(fs, s, name).files == s.files + {name}
              && forall k :: Get(Load(fs, s, name).props, k) ==
                               if Get(fs[name], k).Some? then Get(fs[name], k) else Get(s.props, k)
  {
    var p := fs[name];
    var merged := PutAll(s.props, p);
    forall k | Get(p, k).Some?
      ensures Get(Load(fs, s, name).props, k).Some?
    {
      PutAllOverrides(s.props, p, k);
      assert k in KeySet(merged);
    }
    if Get(p, AddKey(1)).None? {
      forall k
        ensures Get(Load(fs, s, name).props, k) == if Get(p, k).Some? then Get(p, k) else Get(s.props, k)
      {
        PutAllOverrides(s.props, p, k);
      }
    }
  }

  // ---------------------------------------------------------------------------
  // Values by prefix

  /** `loadProperties(propertyName)`: null for a null or empty name; else the
      entries of the resource `propertyName + ".properties"` (the extension is
      appended even when the name already carries it), or null when no class
      loader finds that resource. */
  function LoadProperties(fs: Resources, propertyName: Option<string>): (r: Option<seq<Entry>>)
    ensures propertyName.None? || propertyName == Some("") ==> r.None?
    ensures propertyName.Some? && propertyName.value != "" ==>
              var resource := propertyName.value + PROPERTY_EXTENSION;
              && EndsWith(resource, PROPERTY_EXTENSION)
              && (r.Some? <==> resource in fs)
              && (r.Some? ==> r.value == fs[resource])
  {
    if propertyName.None? || propertyName.value == "" then None
    else
      var resource := propertyName.value + PROPERTY_EXTENSION;
      assert resource[|resource| - |PROPERTY_EXTENSION|..] == PROPERTY_EXTENSION;
      if resource in fs then Some(fs[resource]) else None
  }

  /** `getPropertiesValues(propertyName, keyPrefix)`: the values of the keys
      of one properties file that start with the prefix; null when the file
      cannot be loaded or the prefix is null. */
  function GetPropertiesValues(fs: Resources, propertyName: Option<string>, keyPrefix: Option<string>)
    : (r: Option<set<Option<string>>>)
    ensures r.None? <==> LoadProperties(fs, propertyName).None? || keyPrefix.None?
    // the names come from the file itself, so no lookup yields null
    ensures r.Some? ==> None !in r.value
    ensures r.Some? ==>
              var p := LoadProperties(fs, propertyName).value;
              forall v :: Some(v) in r.value ==>
                exists j :: 0 <= j < |p| && StartsWith(p[j].0, keyPrefix.value) && p[j].1 == v
  {
    match LoadProperties(fs, propertyName)
    case None => None
    case Some(p) =>
      var keyEnum := GetPropertyNamesOf(Some(KeysOf(p)), keyPrefix);
      if keyEnum.None? then None
      else
        var names := keyEnum.value;
        var r := GetPropertiesValuesOf(Some(p), keyEnum);
        forall i | 0 <= i < |names|
          ensures names[i] in KeySet(p)
        {
          assert names[i] in KeysOf(p);
        }
        forall v | Some(v) in r.value
          ensures exists j :: 0 <= j < |p| && StartsWith(p[j].0, keyPrefix.value) && p[j].1 == v
        {
          var i :| 0 <= i < |names| && Some(v) == Get(p, names[i]);
          var j :| 0 <= j < |p| && p[j] == (names[i], v);
          assert names[i] in KeysOf(p) && StartsWith(names[i], keyPrefix.value);
        }
        r
  }

  /** For a well-formed file the values by prefix are exactly the values of
      the file's entries whose key has the prefix. */
  lemma PrefixValuesAreEntries(fs: Resources, propertyName: string, keyPrefix: string)
    requires WellFormed(fs) && propertyName != "" && propertyName + PROPERTY_EXTENSION in fs
    ensures var p := fs[propertyName + PROPERTY_EXTENSION];
            var r := GetPropertiesValues(fs, Some(propertyName), Some(keyPrefix));
            && r.Some? && None !in r.value
            && forall v :: Some(v) in r.value <==>
                 exists j :: 0 <= j < |p| && StartsWith(p[j].0, keyPrefix) && p[j].1 == v
  {
  }
}
