/** The `caches` object of a service worker: the named caches of the origin,
    in creation order. Each name is one generation of the worker's cache.
    The functions give the value semantics over a list of generations; class
    CacheStorage holds the cache objects themselves. */
module Generations {
  import opened Http
  import opened Cache

  /** One named cache and its entries. */
  datatype Generation = Generation(name: string, entries: seq<Entry>)

  /** The cache names in creation order, as `caches.keys()` lists them. */
  function Names(gs: seq<Generation>): (ns: seq<string>)
    ensures |ns| == |gs|
    ensures forall i :: 0 <= i < |gs| ==> ns[i] == gs[i].name
  {
    if gs == [] then [] else [gs[0].name] + Names(gs[1..])
  }

  /** One cache per name. */
  ghost predicate DistinctNames(gs: seq<Generation>)
  {
    forall i, j :: 0 <= i < j < |gs| ==> gs[i].name != gs[j].name
  }

  /** The position of the cache called `name`, if there is one. */
  function IndexOf(gs: seq<Generation>, name: string): (r: Option<nat>)
    ensures r.None? <==> name !in Names(gs)
    ensures r.Some? ==> r.value < |gs| && gs[r.value].name == name
  {
    if gs == [] then None
    else if gs[0].name == name then Some(0)
    else match IndexOf(gs[1..], name)
      case None => None
      case Some(k) => Some(k + 1)
  }

  /** The entries of the cache called `name`; a cache that does not exist
      yet reads as empty (it is what `caches.open(name)` would create). */
  function EntriesOf(gs: seq<Generation>, name: string): seq<Entry>
  {
    match IndexOf(gs, name)
    case None => []
    case Some(k) => gs[k].entries
  }

  /** `caches.open(name)`: an existing cache is reused; otherwise an empty
      one is created after the others. */
  function Opened(gs: seq<Generation>, name: string): (r: seq<Generation>)
    ensures name in Names(r)
    ensures forall n :: EntriesOf(r, n) == EntriesOf(gs, n)
    ensures DistinctNames(gs) ==> DistinctNames(r)
  {
    if name in Names(gs) then gs
    else
      AppendedEmpty(gs, name);
      assert Names(gs + [Generation(name, [])])[|gs|] == name;
      gs + [Generation(name, [])]
  }

  /** The caches after the one called `name` was given the entries `es`. */
  function Replaced(gs: seq<Generation>, name: string, es: seq<Entry>): (r: seq<Generation>)
    ensures |r| == |gs| && Names(r) == Names(gs)
  {
    seq(|gs|, i requires 0 <= i < |gs| => if gs[i].name == name then Generation(name, es) else gs[i])
  }

  /** `caches.delete(n)` for every name `n` in `dropped`: the other caches
      keep their order. */
  function Retained(gs: seq<Generation>, dropped: set<string>): seq<Generation>
  {
    if gs == [] then []
    else if gs[0].name in dropped then Retained(gs[1..], dropped)
    else [gs[0]] + Retained(gs[1..], dropped)
  }

  /** `caches.match(url)`: the caches are searched in creation order and the
      first one holding `url` answers. */
  function MatchAll(gs: seq<Generation>, url: string): (r: Option<Response>)
    ensures r.None? <==> forall i :: 0 <= i < |gs| ==> Lookup(gs[i].entries, url).None?
  {
    if gs == [] then None
    else match Lookup(gs[0].entries, url)
      case Some(resp) => Some(resp)
      case None => MatchAll(gs[1..], url)
  }

  // ---------------------------------------------------------------------
  // Properties of the operations on generations

  lemma {:induction false} IndexOfAppend(gs: seq<Generation>, g: Generation, n: string)
    requires g.name !in Names(gs)
    ensures IndexOf(gs + [g], n) == if n == g.name then Some(|gs|) else IndexOf(gs, n)
  {
    if gs == [] {
      assert gs + [g] == [g];
    } else {
      assert (gs + [g])[1..] == gs[1..] + [g];
      assert Names(gs) == [gs[0].name] + Names(gs[1..]);
      IndexOfAppend(gs[1..], g, n);
    }
  }

  lemma AppendedEmpty(gs: seq<Generation>, name: string)
    requires name !in Names(gs)
    ensures forall n :: EntriesOf(gs + [Generation(name, [])], n) == EntriesOf(gs, n)
  {
    forall n ensures EntriesOf(gs + [Generation(name, [])], n) == EntriesOf(gs, n) {
      IndexOfAppend(gs, Generation(name, []), n);
    }
  }

  /** A hit comes from the oldest cache that holds the URL. */
  lemma {:induction false} MatchAllFirst(gs: seq<Generation>, url: string)
    requires MatchAll(gs, url).Some?
    ensures exists i :: 0 <= i < |gs| && Lookup(gs[i].entries, url) == MatchAll(gs, url) &&
                        (forall j :: 0 <= j < i ==> Lookup(gs[j].entries, url).None?)
  {
    if Lookup(gs[0].entries, url).None? {
      MatchAllFirst(gs[1..], url);
      var i :| 0 <= i < |gs[1..]| && Lookup(gs[1..][i].entries, url) == MatchAll(gs[1..], url) &&
               (forall j :: 0 <= j < i ==> Lookup(gs[1..][j].entries, url).None?);
      assert Lookup(gs[i + 1].entries, url) == MatchAll(gs, url);
      forall j | 0 <= j < i + 1 ensures Lookup(gs[j].entries, url).None? {
        if j > 0 { assert gs[j] == gs[1..][j - 1]; }
      }
    }
  }

  /** With one cache per name, `IndexOf` finds the only cache with that name. */
  lemma IndexOfDistinct(gs: seq<Generation>, k: nat)
    requires DistinctNames(gs) && k < |gs|
    ensures IndexOf(gs, gs[k].name) == Some(k)
  {
    var r := IndexOf(gs, gs[k].name);
    assert gs[k].name in Names(gs) by { assert Names(gs)[k] == gs[k].name; }
  }

  /** The cache a miss skipped holds no entry for the URL: when no cache
      matches, the cache called `name` has no entry for it either. */
  lemma MissInEveryCache(gs: seq<Generation>, name: string, url: string)
    requires MatchAll(gs, url).None?
    ensures Lookup(EntriesOf(gs, name), url).None?
  {
  }

  /** Replacing one cache's entries changes what that name reads and nothing
      else. */
  lemma ReplacedEntries(gs: seq<Generation>, name: string, es: seq<Entry>)
    requires DistinctNames(gs) && name in Names(gs)
    ensures EntriesOf(Replaced(gs, name, es), name) == es
    ensures forall n :: n != name ==> EntriesOf(Replaced(gs, name, es), n) == EntriesOf(gs, n)
    ensures DistinctNames(Replaced(gs, name, es))
  {
    var r := Replaced(gs, name, es);
    assert Names(r) == Names(gs);
    forall n ensures IndexOf(r, n) == IndexOf(gs, n) {
      IndexOfSameNames(r, gs, n);
    }
    forall i, j | 0 <= i < j < |r| ensures r[i].name != r[j].name {
      assert Names(r)[i] == r[i].name && Names(r)[j] == r[j].name;
    }
  }

  lemma {:induction false} IndexOfSameNames(a: seq<Generation>, b: seq<Generation>, n: string)
    requires Names(a) == Names(b)
    ensures IndexOf(a, n) == IndexOf(b, n)
  {
    if a != [] {
      assert Names(a[1..]) == Names(a)[1..] == Names(b)[1..] == Names(b[1..]);
      IndexOfSameNames(a[1..], b[1..], n);
    }
  }

  /** Deleting names that no cache carries changes nothing. */
  lemma {:induction false} RetainedNone(gs: seq<Generation>, dropped: set<string>)
    requires forall i :: 0 <= i < |gs| ==> gs[i].name !in dropped
    ensures Retained(gs, dropped) == gs
  {
    if gs != [] {
      RetainedNone(gs[1..], dropped);
      assert gs == [gs[0]] + gs[1..];
    }
  }

  /** Deleting a name no cache carries changes nothing. */
  lemma {:induction false} RetainedAbsent(gs: seq<Generation>, name: string)
    requires name !in Names(gs)
    ensures Retained(gs, {name}) == gs
  {
    if gs != [] {
      assert Names(gs) == [gs[0].name] + Names(gs[1..]);
      RetainedAbsent(gs[1..], name);
      assert gs == [gs[0]] + gs[1..];
    }
  }

  /** With one cache per name, deleting a name removes exactly its cache. */
  lemma {:induction false} RetainedAt(gs: seq<Generation>, k: nat)
    requires DistinctNames(gs) && k < |gs|
    ensures Retained(gs, {gs[k].name}) == gs[..k] + gs[k + 1..]
  {
    var t := gs[1..];
    if k == 0 {
      RetainedNone(t, {gs[0].name});
    } else {
      assert DistinctNames(t) by {
        forall i, j | 0 <= i < j < |t| ensures t[i].name != t[j].name {
          assert t[i] == gs[i + 1] && t[j] == gs[j + 1];
        }
      }
      assert t[k - 1] == gs[k];
      RetainedAt(t, k - 1);
      assert gs[..k] == [gs[0]] + t[..k - 1];
      assert gs[k + 1..] == t[k..];
    }
  }

  /** Deleting one set of names and then another deletes their union. */
  lemma {:induction false} RetainedTwice(gs: seq<Generation>, a: set<string>, b: set<string>)
    ensures Retained(Retained(gs, a), b) == Retained(gs, a + b)
  {
    if gs != [] {
      RetainedTwice(gs[1..], a, b);
      if gs[0].name !in a {
        assert Retained(gs, a) == [gs[0]] + Retained(gs[1..], a);
        assert Retained(gs, a)[1..] == Retained(gs[1..], a);
      }
    }
  }

  // ---------------------------------------------------------------------
  // The storage object

  /** The cache objects under their names, as values. */
  function ViewOf(names: seq<string>, stores: seq<Store>): (v: seq<Generation>)
    requires |names| == |stores|
    reads stores
    ensures |v| == |names|
    ensures forall i :: 0 <= i < |names| ==> v[i] == Generation(names[i], stores[i].entries)
  {
    if names == [] then [] else [Generation(names[0], stores[0].entries)] + ViewOf(names[1..], stores[1..])
  }

  /** The `caches` object: the cache objects in creation order, under their
      names. */
  class CacheStorage {
    var names: seq<string>
    var stores: seq<Store>
    ghost var Repr: set<object>

    ghost predicate Valid()
      reads this, Repr
    {
      && this in Repr
      && |names| == |stores|
      && Distinct(names)
      && Distinct(stores)
      && AllIn(stores, Repr)
      && StoresValid(stores)
    }

    constructor ()
      ensures Valid() && fresh(Repr) && View() == []
    {
      names, stores := [], [];
      Repr := {this};
    }

    /** The caches as values: each name with the entries its cache holds. */
    function View(): (v: seq<Generation>)
      reads this, Repr
      requires Valid()
      ensures |v| == |names| && Names(v) == names && DistinctNames(v)
      ensures forall i :: 0 <= i < |names| ==> v[i] == Generation(names[i], stores[i].entries)
    {
      ViewOf(names, stores)
    }

    /** `caches.open(name)`: resolves to the cache called `name`, created
        empty after the others when there is none; `k` is its position. */
    method Open(name: string) returns (cache: Store, ghost k: nat)
      requires Valid()
      modifies this
      ensures Valid() && fresh(Repr - old(Repr))
      ensures View() == Opened(old(View()), name)
      ensures k < |names| && names[k] == name && stores[k] == cache
    {
      var v := View();
      match IndexOf(v, name)
      case Some(i) =>
        cache, k := stores[i], i;
        assert names[k] == name;
      case None =>
        assert Names(v) == names;
        cache := Create(name);
        k := |names| - 1;
    }

    /** The creating half of `caches.open`: a new empty cache under a name
        not in use, after the others. */
    method Create(name: string) returns (cache: Store)
      requires Valid() && name !in names
      modifies this
      ensures Valid() && fresh(cache) && Repr == old(Repr) + {cache}
      ensures names == old(names) + [name] && stores == old(stores) + [cache]
      ensures View() == old(View()) + [Generation(name, [])]
    {
      ghost var v := View();
      var oldNames, oldStores := names, stores;
      cache := new Store();
      names, stores := names + [name], stores + [cache];
      Repr := Repr + {cache};
      DistinctAppend(oldNames, name);
      DistinctAppend(oldStores, cache);
      StoresAppend(oldStores, old(Repr), cache, Repr);
      assert ViewOf(oldNames, oldStores) == v;
      ViewOfAppend(oldNames, oldStores, name, cache);
    }

    /** `caches.delete(name)`: resolves to whether a cache was found. */
    method Delete(name: string) returns (found: bool)
      requires Valid()
      modifies this
      ensures Valid() && Repr == old(Repr)
      ensures found == (name in Names(old(View())))
      ensures View() == Retained(old(View()), {name})
    {
      var v := View();
      match IndexOf(v, name)
      case None =>
        found := false;
        RetainedAbsent(v, name);
      case Some(k) =>
        found := true;
        RetainedAt(v, k);
        RemoveAt(k);
    }

    /** The removing half of `caches.delete`: the cache at position `k` is
        dropped from the list, the others keep their order. */
    method RemoveAt(k: nat)
      requires Valid() && k < |names|
      modifies this
      ensures Valid() && Repr == old(Repr)
      ensures names == Without(old(names), k) && stores == Without(old(stores), k)
      ensures View() == old(View())[..k] + old(View())[k + 1..]
    {
      ghost var v := View();
      var oldNames, oldStores := names, stores;
      names, stores := Without(names, k), Without(stores, k);
      DistinctWithout(oldNames, k);
      DistinctWithout(oldStores, k);
      StoresWithout(oldStores, Repr, k);
      assert ViewOf(oldNames, oldStores) == v;
      ViewOfWithout(oldNames, oldStores, k);
    }
  }

  /** Reading the caches again after only the cache at position `k` changed:
      the view is the old one with that cache's entries replaced. */
  lemma ViewOfReplaced(names: seq<string>, stores: seq<Store>, k: nat, before: seq<Generation>)
    requires |names| == |stores| == |before| && k < |names| && Distinct(names)
    requires before[k].name == names[k]
    requires forall i :: 0 <= i < |names| && i != k ==> before[i] == Generation(names[i], stores[i].entries)
    ensures ViewOf(names, stores) == Replaced(before, names[k], stores[k].entries)
  {
    var w, r := ViewOf(names, stores), Replaced(before, names[k], stores[k].entries);
    forall i | 0 <= i < |w| ensures w[i] == r[i] {
      if i != k {
        assert names[i] != names[k];
      }
    }
  }

  /** Every cache object is in the footprint `repr`. */
  ghost predicate AllIn(stores: seq<Store>, repr: set<object>)
  {
    forall i :: 0 <= i < |stores| ==> stores[i] in repr
  }

  /** Every cache object keeps one entry per URL. */
  ghost predicate StoresValid(stores: seq<Store>)
    reads stores
  {
    forall i :: 0 <= i < |stores| ==> stores[i].Valid()
  }

  lemma StoresAppend(stores: seq<Store>, repr: set<object>, cache: Store, repr': set<object>)
    requires AllIn(stores, repr) && StoresValid(stores)
    requires repr <= repr' && cache in repr' && cache.Valid()
    ensures AllIn(stores + [cache], repr') && StoresValid(stores + [cache])
  {
    var t := stores + [cache];
    forall i | 0 <= i < |t| ensures t[i] in repr' && t[i].Valid() {
      if i < |stores| {
        assert t[i] == stores[i];
      }
    }
  }

  lemma StoresWithout(stores: seq<Store>, repr: set<object>, k: nat)
    requires AllIn(stores, repr) && StoresValid(stores) && k < |stores|
    ensures AllIn(Without(stores, k), repr) && StoresValid(Without(stores, k))
  {
    var t := Without(stores, k);
    forall i | 0 <= i < |t| ensures t[i] in repr && t[i].Valid() {
      assert t[i] == stores[if i < k then i else i + 1];
    }
  }

  lemma DistinctAppend<T>(s: seq<T>, x: T)
    requires Distinct(s) && x !in s
    ensures Distinct(s + [x])
  {
    var t := s + [x];
    forall i, j | 0 <= i < j < |t| ensures t[i] != t[j] {
      if j < |s| {
        assert t[i] == s[i] && t[j] == s[j];
      } else {
        assert t[i] == s[i];
      }
    }
  }

  lemma DistinctWithout<T>(s: seq<T>, k: nat)
    requires Distinct(s) && k < |s|
    ensures Distinct(Without(s, k))
  {
    var t := Without(s, k);
    forall i, j | 0 <= i < j < |t| ensures t[i] != t[j] {
      var i', j' := if i < k then i else i + 1, if j < k then j else j + 1;
      assert t[i] == s[i'] && t[j] == s[j'];
    }
  }

  /** The list without its element at position `k`. */
  function Without<T>(s: seq<T>, k: nat): (r: seq<T>)
    requires k < |s|
    ensures |r| == |s| - 1
    ensures forall i :: 0 <= i < k ==> r[i] == s[i]
    ensures forall i :: k <= i < |r| ==> r[i] == s[i + 1]
  {
    s[..k] + s[k + 1..]
  }

  lemma ViewOfAppend(names: seq<string>, stores: seq<Store>, name: string, cache: Store)
    requires |names| == |stores|
    ensures ViewOf(names + [name], stores + [cache]) == ViewOf(names, stores) + [Generation(name, cache.entries)]
  {
    var a, b := ViewOf(names + [name], stores + [cache]), ViewOf(names, stores) + [Generation(name, cache.entries)];
    forall i | 0 <= i < |a| ensures a[i] == b[i] {
      if i < |names| {
        assert (names + [name])[i] == names[i] && (stores + [cache])[i] == stores[i];
      }
    }
  }

  lemma ViewOfWithout(names: seq<string>, stores: seq<Store>, k: nat)
    requires |names| == |stores| && k < |names|
    ensures ViewOf(Without(names, k), Without(stores, k)) == ViewOf(names, stores)[..k] + ViewOf(names, stores)[k + 1..]
  {
    var a, b := ViewOf(Without(names, k), Without(stores, k)), ViewOf(names, stores)[..k] + ViewOf(names, stores)[k + 1..];
    forall i | 0 <= i < |a| ensures a[i] == b[i] {
      if i < k {
        assert b[i] == ViewOf(names, stores)[i];
      } else {
        assert b[i] == ViewOf(names, stores)[i + 1];
      }
    }
  }
}
