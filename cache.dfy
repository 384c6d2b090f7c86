/** One cache of the Cache API: an ordered list of (request URL, response)
    entries with at most one entry per URL. The functions give the value
    semantics; class Store is the mutable cache object the worker holds. */
module Cache {
  import opened Http

  /** A stored entry, keyed by the request URL. */
  type Entry = (string, Response)

  /** The keys in insertion order, as `cache.keys()` lists them. */
  function KeysOf(es: seq<Entry>): (ks: seq<string>)
    ensures |ks| == |es|
    ensures forall i :: 0 <= i < |es| ==> ks[i] == es[i].0
  {
    if es == [] then [] else [es[0].0] + KeysOf(es[1..])
  }

  /** One entry per request URL. */
  ghost predicate DistinctKeys(es: seq<Entry>)
  {
    forall i, j :: 0 <= i < j < |es| ==> es[i].0 != es[j].0
  }

  /** `cache.match(url)`: the response stored under `url`, if any. */
  function Lookup(es: seq<Entry>, url: string): (r: Option<Response>)
    ensures r.None? <==> url !in KeysOf(es)
    ensures r.Some? ==> (url, r.value) in es
  {
    if es == [] then None
    else if es[0].0 == url then Some(es[0].1)
    else Lookup(es[1..], url)
  }

  /** `cache.delete(url)`: every entry stored under `url` is dropped, the
      others keep their order. */
  function Removed(es: seq<Entry>, url: string): (r: seq<Entry>)
    ensures url !in KeysOf(r)
    ensures |r| <= |es|
    ensures url !in KeysOf(es) ==> r == es
  {
    if es == [] then []
    else if es[0].0 == url then Removed(es[1..], url)
    else [es[0]] + Removed(es[1..], url)
  }

  /** The status of a partial response. */
  const PARTIAL_CONTENT := 206

  /** Whether the Cache API stores a response at all: `put` and `addAll`
      reject a partial (206) response, OK though it is. */
  predicate Storable(r: Response)
  {
    r.status != PARTIAL_CONTENT
  }

  /** `cache.put(url, response)` of a storable response. As in the Cache API's batch operation, the
      old entry for `url` is removed first and the new one is appended, so an
      overwritten key moves to the newest position. */
  function Inserted(es: seq<Entry>, url: string, resp: Response): seq<Entry>
  {
    Removed(es, url) + [(url, resp)]
  }

  /** The responses `cache.addAll(urls)` collects: one per URL when every
      fetch settles to an OK, storable response, nothing when any of them
      fails. */
  function FetchAll(urls: seq<string>, network: Network): (r: Option<seq<Response>>)
    ensures r.Some? ==> |r.value| == |urls|
    ensures r.Some? <==> forall i :: 0 <= i < |urls| ==>
      network(GetRequest(urls[i])).Success? && Ok(network(GetRequest(urls[i])).response)
      && Storable(network(GetRequest(urls[i])).response)
    ensures r.Some? ==> forall i :: 0 <= i < |urls| ==>
      network(GetRequest(urls[i])) == Success(r.value[i])
  {
    if urls == [] then Some([])
    else
      var n := |urls| - 1;
      match FetchAll(urls[..n], network)
      case None => None
      case Some(rs) =>
        match network(GetRequest(urls[n]))
        case Failure => None
        case Success(resp) => if Ok(resp) && Storable(resp) then Some(rs + [resp]) else None
  }

  /** The entries after putting `urls[i]` -> `rs[i]` in order. */
  function InsertedAll(es: seq<Entry>, urls: seq<string>, rs: seq<Response>): seq<Entry>
    requires |urls| == |rs|
  {
    if urls == [] then es
    else
      var n := |urls| - 1;
      Inserted(InsertedAll(es, urls[..n], rs[..n]), urls[n], rs[n])
  }

  /** The entries after `cache.addAll(urls)`: all of them stored, or none. */
  function AddedAll(es: seq<Entry>, urls: seq<string>, network: Network): seq<Entry>
  {
    match FetchAll(urls, network)
    case None => es
    case Some(rs) => InsertedAll(es, urls, rs)
  }

  /** No element occurs twice: URLs in a list, names of caches, cache objects. */
  ghost predicate Distinct<T>(s: seq<T>)
  {
    forall i, j :: 0 <= i < j < |s| ==> s[i] != s[j]
  }

  // ---------------------------------------------------------------------
  // Properties of the entry operations

  lemma {:induction false} LookupAppend(a: seq<Entry>, b: seq<Entry>, url: string)
    ensures Lookup(a + b, url) == if url in KeysOf(a) then Lookup(a, url) else Lookup(b, url)
  {
    if a != [] {
      assert (a + b)[1..] == a[1..] + b;
      LookupAppend(a[1..], b, url);
    } else {
      assert a + b == b;
    }
  }

  /** After `put`, the URL maps to the new response and every other URL
      maps to what it mapped to before. */
  lemma InsertedLookup(es: seq<Entry>, url: string, resp: Response, k: string)
    ensures Lookup(Inserted(es, url, resp), k) == if k == url then Some(resp) else Lookup(es, k)
  {
    LookupAppend(Removed(es, url), [(url, resp)], k);
    if k != url {
      RemovedLookup(es, url, k);
    }
  }

  /** After `put`, the URL is the newest key; a URL not stored before is
      simply appended. */
  lemma InsertedKeys(es: seq<Entry>, url: string, resp: Response)
    ensures KeysOf(Inserted(es, url, resp)) == KeysOf(Removed(es, url)) + [url]
    ensures url !in KeysOf(es) ==> Inserted(es, url, resp) == es + [(url, resp)]
  {
    KeysOfAppend(Removed(es, url), [(url, resp)]);
  }

  /** `put` keeps one entry per URL. */
  lemma InsertedDistinct(es: seq<Entry>, url: string, resp: Response)
    requires DistinctKeys(es)
    ensures DistinctKeys(Inserted(es, url, resp))
  {
    var r := Removed(es, url);
    RemovedDistinct(es, url);
    forall i | 0 <= i < |r| ensures r[i].0 != url {
      assert KeysOf(r)[i] == r[i].0;
    }
  }

  lemma {:induction false} RemovedLookup(es: seq<Entry>, url: string, k: string)
    requires k != url
    ensures Lookup(Removed(es, url), k) == Lookup(es, k)
  {
    if es != [] {
      RemovedLookup(es[1..], url, k);
    }
  }

  /** Deleting a key removes exactly that key from the key list. */
  lemma {:induction false} RemovedKeys(es: seq<Entry>, url: string, k: string)
    ensures k in KeysOf(Removed(es, url)) <==> k in KeysOf(es) && k != url
  {
    if es != [] {
      RemovedKeys(es[1..], url, k);
      assert KeysOf(es) == [es[0].0] + KeysOf(es[1..]);
      if es[0].0 != url {
        assert KeysOf(Removed(es, url)) == [es[0].0] + KeysOf(Removed(es[1..], url));
      }
    }
  }

  lemma DistinctCons(e: Entry, t: seq<Entry>)
    requires e.0 !in KeysOf(t) && DistinctKeys(t)
    ensures DistinctKeys([e] + t)
  {
    var r := [e] + t;
    forall i, j | 0 <= i < j < |r| ensures r[i].0 != r[j].0 {
      if i == 0 {
        assert KeysOf(t)[j - 1] == r[j].0;
      } else {
        assert r[i] == t[i - 1] && r[j] == t[j - 1];
      }
    }
  }

  lemma DistinctTail(es: seq<Entry>)
    requires DistinctKeys(es) && es != []
    ensures DistinctKeys(es[1..]) && es[0].0 !in KeysOf(es[1..])
  {
    var t := es[1..];
    forall i, j | 0 <= i < j < |t| ensures t[i].0 != t[j].0 {
      assert t[i] == es[i + 1] && t[j] == es[j + 1];
    }
    forall i | 0 <= i < |t| ensures KeysOf(t)[i] != es[0].0 {
      assert t[i] == es[i + 1];
    }
  }

  lemma {:induction false} RemovedDistinct(es: seq<Entry>, url: string)
    requires DistinctKeys(es)
    ensures DistinctKeys(Removed(es, url))
  {
    if es != [] {
      var t := es[1..];
      DistinctTail(es);
      RemovedDistinct(t, url);
      if es[0].0 != url {
        RemovedKeys(t, url, es[0].0);
        DistinctCons(es[0], Removed(t, url));
      }
    }
  }

  /** With one entry per key, deleting the oldest key drops exactly the oldest
      entry. */
  lemma RemovedOldest(es: seq<Entry>)
    requires DistinctKeys(es) && es != []
    ensures Removed(es, es[0].0) == es[1..]
  {
    DistinctTail(es);
  }

  /** Deleting from two lists put together deletes from each of them. */
  lemma {:induction false} RemovedAppend(a: seq<Entry>, b: seq<Entry>, url: string)
    ensures Removed(a + b, url) == Removed(a, url) + Removed(b, url)
  {
    var ab := a + b;
    if a == [] {
      assert ab == b;
    } else {
      assert ab[0] == a[0] && ab[1..] == a[1..] + b;
      RemovedAppend(a[1..], b, url);
      if a[0].0 == url {
        assert Removed(ab, url) == Removed(ab[1..], url);
        assert Removed(a, url) == Removed(a[1..], url);
      } else {
        assert Removed(ab, url) == [a[0]] + Removed(ab[1..], url);
        assert Removed(a, url) == [a[0]] + Removed(a[1..], url);
        AppendAssoc([a[0]], Removed(a[1..], url), Removed(b, url));
      }
    }
  }

  /** Deleting a key stored only in the middle entry drops that entry. */
  lemma RemovedSplit(p: seq<Entry>, e: Entry, q: seq<Entry>)
    requires e.0 !in KeysOf(p) && e.0 !in KeysOf(q)
    ensures Removed(p + [e] + q, e.0) == p + q
  {
    var u := e.0;
    RemovedAppend(p + [e], q, u);
    RemovedAppend(p, [e], u);
    assert [e][0] == e && [e][1..] == [];
    assert Removed([e], u) == Removed([e][1..], u) == [];
    assert Removed(p, u) == p && Removed(q, u) == q;
    assert Removed(p + [e], u) == p;
  }

  /** With one entry per key, deleting the key at position `i` drops exactly
      that entry, and the others keep their order. */
  lemma RemovedAtPos(es: seq<Entry>, i: nat)
    requires DistinctKeys(es) && i < |es|
    ensures Removed(es, es[i].0) == es[..i] + es[i + 1..]
  {
    var p, q := es[..i], es[i + 1..];
    assert es == p + [es[i]] + q;
    forall j | 0 <= j < |p| ensures KeysOf(p)[j] != es[i].0 {
      assert p[j] == es[j];
    }
    forall j | 0 <= j < |q| ensures KeysOf(q)[j] != es[i].0 {
      assert q[j] == es[i + 1 + j];
    }
    RemovedSplit(p, es[i], q);
  }

  lemma KeysOfAppend(a: seq<Entry>, b: seq<Entry>)
    ensures KeysOf(a + b) == KeysOf(a) + KeysOf(b)
  {
    assert |KeysOf(a + b)| == |KeysOf(a) + KeysOf(b)|;
    forall i | 0 <= i < |a + b| ensures KeysOf(a + b)[i] == (KeysOf(a) + KeysOf(b))[i] {
      if i < |a| {
        assert (a + b)[i] == a[i];
      } else {
        assert (a + b)[i] == b[i - |a|];
      }
    }
  }

  /** The suffix of a list of entries lists the suffix of its keys. */
  lemma KeysOfSuffix(es: seq<Entry>, k: nat)
    requires k <= |es|
    ensures KeysOf(es[k..]) == KeysOf(es)[k..]
  {
  }

  /** Storing distinct URLs one by one into a store that holds none of them
      appends them, in order, after the old keys. */
  lemma {:induction false} InsertedAllKeys(es: seq<Entry>, urls: seq<string>, rs: seq<Response>)
    requires |urls| == |rs| && Distinct(urls)
    requires forall i :: 0 <= i < |urls| ==> urls[i] !in KeysOf(es)
    ensures KeysOf(InsertedAll(es, urls, rs)) == KeysOf(es) + urls
  {
    if urls != [] {
      var n := |urls| - 1;
      var u, r := urls[n], rs[n];
      var prev := InsertedAll(es, urls[..n], rs[..n]);
      InsertedAllKeys(es, urls[..n], rs[..n]);
      LastNotInPrefix(urls);
      assert u !in KeysOf(prev) by {
        assert KeysOf(prev) == KeysOf(es) + urls[..n];
      }
      assert Inserted(prev, u, r) == prev + [(u, r)];
      KeysOfAppend(prev, [(u, r)]);
      assert KeysOf([(u, r)]) == [u];
      SplitLast(urls);
      AppendAssoc(KeysOf(es), urls[..n], [u]);
    }
  }

  lemma AppendAssoc<T>(a: seq<T>, b: seq<T>, c: seq<T>)
    ensures (a + b) + c == a + (b + c)
  {
  }

  lemma SplitLast<T>(s: seq<T>)
    requires s != []
    ensures s[..|s| - 1] + [s[|s| - 1]] == s
  {
  }

  lemma LastNotInPrefix(urls: seq<string>)
    requires Distinct(urls) && urls != []
    ensures urls[|urls| - 1] !in urls[..|urls| - 1]
    ensures Distinct(urls[..|urls| - 1])
  {
    var n := |urls| - 1;
    forall j | 0 <= j < n ensures urls[..n][j] != urls[n] {
      assert urls[..n][j] == urls[j];
    }
  }

  /** After storing distinct URLs one by one, each maps to its own response. */
  lemma {:induction false} InsertedAllLookup(es: seq<Entry>, urls: seq<string>, rs: seq<Response>, i: nat)
    requires |urls| == |rs| && Distinct(urls) && i < |urls|
    ensures Lookup(InsertedAll(es, urls, rs), urls[i]) == Some(rs[i])
  {
    var n := |urls| - 1;
    var prev := InsertedAll(es, urls[..n], rs[..n]);
    InsertedLookup(prev, urls[n], rs[n], urls[i]);
    if i < n {
      InsertedAllLookup(es, urls[..n], rs[..n], i);
      assert urls[i] == urls[..n][i] && rs[i] == rs[..n][i];
      assert urls[i] != urls[n];
    }
  }

  /** Storing URLs one by one leaves every other URL as it was. */
  lemma {:induction false} InsertedAllOther(es: seq<Entry>, urls: seq<string>, rs: seq<Response>, k: string)
    requires |urls| == |rs| && k !in urls
    ensures Lookup(InsertedAll(es, urls, rs), k) == Lookup(es, k)
  {
    if urls != [] {
      var n := |urls| - 1;
      SplitLast(urls);
      InsertedAllOther(es, urls[..n], rs[..n], k);
      InsertedLookup(InsertedAll(es, urls[..n], rs[..n]), urls[n], rs[n], k);
    }
  }

  /** `cache.addAll` is all or nothing: on success every URL is stored with the
      response fetched for it; on any failure the entries are as before. Either
      way every other URL keeps its response. */
  lemma AddedAllSemantics(es: seq<Entry>, urls: seq<string>, network: Network)
    requires Distinct(urls)
    ensures FetchAll(urls, network).None? ==> AddedAll(es, urls, network) == es
    ensures FetchAll(urls, network).Some? ==>
      forall i :: 0 <= i < |urls| ==>
        Lookup(AddedAll(es, urls, network), urls[i]) == Some(FetchAll(urls, network).value[i]) &&
        network(GetRequest(urls[i])) == Success(FetchAll(urls, network).value[i])
    ensures forall k :: k !in urls ==> Lookup(AddedAll(es, urls, network), k) == Lookup(es, k)
  {
    if FetchAll(urls, network).Some? {
      var rs := FetchAll(urls, network).value;
      forall i | 0 <= i < |urls|
        ensures Lookup(AddedAll(es, urls, network), urls[i]) == Some(rs[i])
      {
        InsertedAllLookup(es, urls, rs, i);
      }
      forall k | k !in urls
        ensures Lookup(AddedAll(es, urls, network), k) == Lookup(es, k)
      {
        InsertedAllOther(es, urls, rs, k);
      }
    }
  }

  /** A successful `cache.addAll` of distinct URLs the cache does not hold
      appends them, in order, after the old keys. */
  lemma AddedAllKeys(es: seq<Entry>, urls: seq<string>, network: Network)
    requires Distinct(urls)
    requires forall u :: u in urls ==> u !in KeysOf(es)
    requires FetchAll(urls, network).Some?
    ensures KeysOf(AddedAll(es, urls, network)) == KeysOf(es) + urls
  {
    InsertedAllKeys(es, urls, FetchAll(urls, network).value);
  }

  // ---------------------------------------------------------------------
  // The cache object

  /** A cache object (what `caches.open(name)` resolves to). */
  class Store {
    var entries: seq<Entry>

    ghost predicate Valid()
      reads this
    {
      DistinctKeys(entries)
    }

    constructor ()
      ensures Valid() && entries == []
    {
      entries := [];
    }

    /** `cache.put(url, response)`: resolves (`stored`) unless the response
        is partial, which it rejects without storing anything. */
    method Put(url: string, resp: Response) returns (stored: bool)
      requires Valid()
      modifies this
      ensures Valid()
      ensures stored == Storable(resp)
      ensures entries == if stored then Inserted(old(entries), url, resp) else old(entries)
    {
      if !Storable(resp) {
        return false;
      }
      InsertedDistinct(entries, url, resp);
      entries := Inserted(entries, url, resp);
      stored := true;
    }

    /** `cache.delete(url)`: resolves to whether an entry was found. */
    method Delete(url: string) returns (found: bool)
      requires Valid()
      modifies this
      ensures Valid()
      ensures found == (url in KeysOf(old(entries)))
      ensures entries == Removed(old(entries), url)
    {
      found := url in KeysOf(entries);
      RemovedDistinct(entries, url);
      entries := Removed(entries, url);
    }

    /** `cache.addAll(urls)`: fetch every URL, then store all responses in
        order, or store nothing and reject when any fetch fails, is not OK
        or is partial. */
    method AddAll(urls: seq<string>, network: Network) returns (ok: bool)
      requires Valid()
      modifies this
      ensures Valid()
      ensures ok == FetchAll(urls, network).Some?
      ensures entries == AddedAll(old(entries), urls, network)
    {
      var fetched := FetchEach(urls, network);
      if fetched.None? {
        return false;
      }
      var responses := fetched.value;
      ok := true;
      var i := 0;
      while i < |urls|
        invariant 0 <= i <= |urls|
        invariant Valid()
        invariant entries == InsertedAll(old(entries), urls[..i], responses[..i])
      {
        assert urls[..i + 1][..i] == urls[..i] && responses[..i + 1][..i] == responses[..i];
        InsertedDistinct(entries, urls[i], responses[i]);
        entries := Inserted(entries, urls[i], responses[i]);
        i := i + 1;
      }
      assert urls[..|urls|] == urls && responses[..|urls|] == responses;
    }
  }

  /** The fetch phase of `cache.addAll`: request every URL in turn and give up
      at the first failure, non-OK or partial response. */
  method FetchEach(urls: seq<string>, network: Network) returns (r: Option<seq<Response>>)
    ensures r == FetchAll(urls, network)
  {
    var responses: seq<Response> := [];
    var i := 0;
    while i < |urls|
      invariant 0 <= i <= |urls|
      invariant FetchAll(urls[..i], network) == Some(responses)
    {
      assert urls[..i + 1][..i] == urls[..i];
      match network(GetRequest(urls[i]))
      case Failure =>
        FetchAllPrefixFails(urls, network, i + 1);
        return None;
      case Success(resp) =>
        if !Ok(resp) || !Storable(resp) {
          FetchAllPrefixFails(urls, network, i + 1);
          return None;
        }
        responses := responses + [resp];
      i := i + 1;
    }
    assert urls[..|urls|] == urls;
    r := Some(responses);
  }

  /** When a prefix of the URLs cannot all be fetched, neither can the whole list. */
  lemma FetchAllPrefixFails(urls: seq<string>, network: Network, k: nat)
    requires k <= |urls| && FetchAll(urls[..k], network).None?
    ensures FetchAll(urls, network).None?
  {
    var p := urls[..k];
    var i :| 0 <= i < |p| && !(network(GetRequest(p[i])).Success? && Ok(network(GetRequest(p[i])).response)
      && Storable(network(GetRequest(p[i])).response));
    assert p[i] == urls[i];
  }
}
