/** Saving the known addresses, and loading them again. */
module AddrSave {
  import opened AddrBook
  import opened AddrFile
  import opened AddrMgr
  import opened Options

  const SERIALISATION_VERSION := 1

  datatype SavedAddress = SavedAddress(addr: Key, timestamp: Time, attempts: int,
                                       lastAttempt: Option<Time>, lastSuccess: Option<Time>)

  /** A file of peers. `home` stands for the secret key, on which alone the choice of a tried list depends. */
  datatype Saved = Saved(version: int, home: Key -> TriedNo, addresses: seq<SavedAddress>,
                         newBuckets: seq<seq<Key>>, triedBuckets: seq<seq<Key>>)

  function Entry(k: Key, ka: KnownAddress): SavedAddress
    reads ka
  {
    SavedAddress(k, ka.timestamp, ka.attempts, ka.lastAttempt, ka.lastSuccess)
  }

  // ---------------------------------------------------------------- saving

  /**
    The file has every address once, and the keys of every bucket and list. References and tried flags are not in
    it.
   */
  ghost predicate Saves(a: AddrManager, s: Saved)
    reads a, a.addrIndex.Values
  {
    && s.version == SERIALISATION_VERSION && s.home == a.home && |s.addresses| == |a.addrIndex|
    && (forall k :: k in a.addrIndex ==> Entry(k, a.addrIndex[k]) in s.addresses)
    && (forall e :: e in s.addresses ==> e.addr in a.addrIndex && e == Entry(e.addr, a.addrIndex[e.addr]))
    && ListsOf(s.newBuckets, a.Books().buckets) && s.triedBuckets == a.Books().tried
  }

  method ListKeys(keys: set<Key>) returns (l: seq<Key>)
    ensures Distinct(l) && Elems(l) == keys
  {
    l := [];
    var left := keys;
    while left != {}
      invariant left <= keys && Distinct(l) && Elems(l) == keys - left
    {
      var k :| k in left;
      DistinctSnoc(l, k);
      assert Elems(l + [k]) == Elems(l) + {k};
      l := l + [k];
      left := left - {k};
    }
  }

  method ListAddresses(a: AddrManager) returns (l: seq<SavedAddress>)
    ensures |l| == |a.addrIndex|
    ensures forall k :: k in a.addrIndex ==> Entry(k, a.addrIndex[k]) in l
    ensures forall e :: e in l ==> e.addr in a.addrIndex && e == Entry(e.addr, a.addrIndex[e.addr])
  {
    l := [];
    var left := a.addrIndex.Keys;
    while left != {}
      invariant left <= a.addrIndex.Keys && |l| + |left| == |a.addrIndex|
      invariant forall k :: k in a.addrIndex && k !in left ==> Entry(k, a.addrIndex[k]) in l
      invariant forall e :: e in l ==> e.addr in a.addrIndex && e == Entry(e.addr, a.addrIndex[e.addr])
    {
      var k :| k in left;
      l := l + [Entry(k, a.addrIndex[k])];
      left := left - {k};
    }
  }

  /** `savePeers`. */
  method SavePeers(a: AddrManager) returns (s: Saved)
    ensures Saves(a, s) && s.version == 1
  {
    var addresses := ListAddresses(a);
    var newBuckets := [];
    for i := 0 to |a.addrNew|
      invariant |newBuckets| == i
      invariant forall b :: 0 <= b < i ==> Distinct(newBuckets[b]) && Elems(newBuckets[b]) == a.addrNew[b].Keys
    {
      var l := ListKeys(a.addrNew[i].Keys);
      newBuckets := newBuckets + [l];
    }
    var triedBuckets := [];
    for i := 0 to |a.addrTried|
      invariant |triedBuckets| == i && forall b :: 0 <= b < i ==> triedBuckets[b] == KeysOf(a.addrTried[b])
    {
      triedBuckets := triedBuckets + [KeysOf(a.addrTried[i])];
    }
    s := Saved(SERIALISATION_VERSION, a.home, addresses, newBuckets, triedBuckets);
    assert Sets(newBuckets) == a.Books().buckets;
    assert triedBuckets == a.Books().tried;
  }

  // ---------------------------------------------------------------- loading

  /** Version and addresses can be read. */
  predicate Readable(s: Saved, parse: Key -> Option<Key>) {
    s.version == SERIALISATION_VERSION && forall i :: 0 <= i < |s.addresses| ==> parse(s.addresses[i].addr).Some?
  }

  /** The last entry for an address counts. */
  function EntryFor(l: seq<SavedAddress>, parse: Key -> Option<Key>, k: Key): Option<SavedAddress> {
    if l == [] then None
    else if parse(l[|l| - 1].addr) == Some(k) then Some(l[|l| - 1])
    else EntryFor(l[..|l| - 1], parse, k)
  }

  ghost function KeysIn(l: seq<SavedAddress>, parse: Key -> Option<Key>): set<Key> {
    set e | e in l && parse(e.addr).Some? :: parse(e.addr).value
  }

  /** All that is loaded of an address itself. The time it was last seen is not: it counts as seen now. */
  ghost predicate Restored(ka: KnownAddress, e: Option<SavedAddress>, now: Time)
    reads ka
  {
    && e.Some? && ka.timestamp == now
    && ka.attempts == e.value.attempts && ka.lastAttempt == e.value.lastAttempt && ka.lastSuccess == e.value.lastSuccess
  }

  lemma {:induction false} EntriesSnoc(l: seq<SavedAddress>, e: SavedAddress, parse: Key -> Option<Key>, key: Key)
    requires parse(e.addr) == Some(key)
    ensures KeysIn(l + [e], parse) == KeysIn(l, parse) + {key}
    ensures forall k :: EntryFor(l + [e], parse, k) == if k == key then Some(e) else EntryFor(l, parse, k)
  {
    var l' := l + [e];
    assert l'[..|l|] == l;
    forall k | k in KeysIn(l, parse) ensures k in KeysIn(l', parse) {
      var e :| e in l && parse(e.addr) == Some(k);
      assert e in l';
    }
    assert e in l';
  }

  /** The addresses are known as the entries say, and are in no bucket or list yet. */
  ghost predicate Known(a: AddrManager, l: seq<SavedAddress>, parse: Key -> Option<Key>, now: Time)
    reads a, a.addrIndex.Values
  {
    && a.addrIndex.Keys == KeysIn(l, parse)
    && forall k :: k in a.addrIndex ==>
         && a.addrIndex[k].key == k && !a.addrIndex[k].tried && a.addrIndex[k].refs == 0
         && Restored(a.addrIndex[k], EntryFor(l, parse, k), now)
  }

  /** The addresses of the file. `parse` gives the key of the address a text stands for. */
  method LoadAddresses(a: AddrManager, l: seq<SavedAddress>, parse: Key -> Option<Key>, now: Time) returns (ok: bool)
    requires a.addrIndex == map[]
    modifies a`addrIndex
    ensures ok <==> forall i :: 0 <= i < |l| ==> parse(l[i].addr).Some?
    ensures (forall k :: k in a.addrIndex ==> fresh(a.addrIndex[k])) && (ok ==> Known(a, l, parse, now))
  {
    hide Known;
    assert l[..0] == [];
    NoKeys(a, parse, now);
    for i := 0 to |l|
      invariant (forall k :: k in a.addrIndex ==> fresh(a.addrIndex[k])) && Known(a, l[..i], parse, now)
      invariant forall j :: 0 <= j < i ==> parse(l[j].addr).Some?
    {
      var key := parse(l[i].addr);
      if key == None {
        return false;
      }
      assert l[..i + 1] == l[..i] + [l[i]];
      LoadAddress(a, l[i], key.value, l[..i], parse, now);
    }
    assert l[..|l|] == l;
    return true;
  }

  method LoadAddress(a: AddrManager, e: SavedAddress, key: Key, ghost l: seq<SavedAddress>, parse: Key -> Option<Key>,
                     now: Time)
    requires Known(a, l, parse, now) && parse(e.addr) == Some(key)
    modifies a`addrIndex
    ensures Known(a, l + [e], parse, now) && a.addrIndex.Keys == old(a.addrIndex.Keys) + {key}
      && fresh(a.addrIndex[key])
    ensures forall k :: k in old(a.addrIndex) && k != key ==> a.addrIndex[k] == old(a.addrIndex[k])
  {
    hide EntryFor, KeysIn;
    var ka := new KnownAddress(key, now);
    ka.attempts, ka.lastAttempt, ka.lastSuccess := e.attempts, e.lastAttempt, e.lastSuccess;
    a.addrIndex := a.addrIndex[key := ka];
    EntriesSnoc(l, e, parse, key);
  }

  lemma {:induction false} NoKeys(a: AddrManager, parse: Key -> Option<Key>, now: Time)
    requires a.addrIndex == map[]
    ensures Known(a, [], parse, now)
  {
  }

  /** The books say what follows from the keys filed so far. */
  ghost predicate Filing(a: AddrManager, nbs: seq<seq<Key>>, tbs: seq<seq<Key>>)
    reads a, a.addrIndex.Values
  {
    a.Filed() && a.Books() == Tally(a.addrIndex.Keys, nbs, tbs) && Named(nbs) + Named(tbs) <= a.addrIndex.Keys
  }

  lemma {:induction false} Lengths(a: AddrManager, nbs: seq<seq<Key>>, tbs: seq<seq<Key>>)
    requires Filing(a, nbs, tbs)
    ensures |a.addrNew| == |nbs| && |a.addrTried| == |tbs|
    ensures a.nNew == |Named(nbs)| && a.nTried == Total(tbs)
    ensures forall b :: 0 <= b < |tbs| ==> tbs[b] == KeysOf(a.addrTried[b])
    ensures forall k :: k in a.addrIndex ==>
      a.addrIndex[k].refs == Mentions(nbs, k) && (a.addrIndex[k].tried <==> k in Named(tbs))
  {
    assert |a.Books().buckets| == |nbs| && |a.Books().tried| == |tbs|;
    forall k | k in a.addrIndex
      ensures a.addrIndex[k].refs == Mentions(nbs, k) && (a.addrIndex[k].tried <==> k in Named(tbs))
    {
      assert a.Books().info[k] == Tally(a.addrIndex.Keys, nbs, tbs).info[k];
    }
  }

  method FileNewKey(a: AddrManager, b: nat, k: Key, ka: KnownAddress, ghost nbs: seq<seq<Key>>,
                    ghost tbs: seq<seq<Key>>)
    requires Filing(a, nbs, tbs) && b < |nbs| && k in a.addrIndex && a.addrIndex[k] == ka
    modifies a`addrNew, a`nNew, ka`refs
    ensures Filing(a, nbs[b := nbs[b] + [k]], tbs)
  {
    hide Named, Tally, AddrManager.Books, AddrManager.Filed;
    Lengths(a, nbs, tbs);
    Raise(a, k, ka);
    a.SetBucket(b, k, ka);
    TallyNew(a.addrIndex.Keys, nbs, tbs, b, k);
    OneMore(nbs, b, k);
  }

  /** One reference more, the first of which makes the address a new one. */
  method Raise(a: AddrManager, k: Key, ka: KnownAddress)
    requires a.Filed() && k in a.addrIndex && a.addrIndex[k] == ka
    modifies a`nNew, ka`refs
    ensures a.Filed()
    ensures var bk := old(a.Books());
      a.Books() == bk.(info := bk.info[k := bk.info[k].(refs := bk.info[k].refs + 1)],
                       nNew := bk.nNew + if bk.info[k].refs == 0 then 1 else 0)
  {
    ghost var bk := a.Books();
    if ka.refs == 0 {
      a.nNew := a.nNew + 1;
    }
    ka.refs := ka.refs + 1;
    assert a.Books().info == bk.info[k := bk.info[k].(refs := bk.info[k].refs + 1)];
    assert a.Books().buckets == bk.buckets && a.Books().tried == bk.tried;
  }

  /** The keys of one new bucket, up to the first that is not known. */
  method FileNew(a: AddrManager, b: nat, ks: seq<Key>, ghost nbs: seq<seq<Key>>, ghost tbs: seq<seq<Key>>)
    returns (ok: bool, ghost n: nat)
    requires Filing(a, nbs, tbs) && b < |nbs| && nbs[b] == []
    modifies a`addrNew, a`nNew, a.addrIndex.Values`refs
    ensures n <= |ks| && Filing(a, nbs[b := ks[..n]], tbs)
    ensures if ok then n == |ks| else n < |ks| && ks[n] !in a.addrIndex
  {
    hide Filing;
    assert nbs[b := ks[..0]] == nbs;
    for i := 0 to |ks|
      invariant Filing(a, nbs[b := ks[..i]], tbs)
    {
      if ks[i] !in a.addrIndex {
        return false, i;
      }
      ghost var part := nbs[b := ks[..i]];
      FileNewKey(a, b, ks[i], a.addrIndex[ks[i]], part, tbs);
      assert part[b] + [ks[i]] == ks[..i + 1];
      assert part[b := part[b] + [ks[i]]] == nbs[b := ks[..i + 1]];
    }
    return true, |ks|;
  }

  method FileAllNew(a: AddrManager, ls: seq<seq<Key>>, ghost nbs: seq<seq<Key>>, ghost tbs: seq<seq<Key>>)
    returns (ok: bool, ghost part: seq<seq<Key>>, ghost b: nat, ghost n: nat)
    requires Filing(a, nbs, tbs) && Upto(nbs, ls, 0, 0)
    modifies a`addrNew, a`nNew, a.addrIndex.Values`refs
    ensures Filing(a, part, tbs) && Upto(part, ls, b, n)
    ensures if ok then part == ls else b < |ls| && n < |ls[b]| && ls[b][n] !in a.addrIndex
  {
    hide Filing;
    part := nbs;
    for i := 0 to |ls|
      invariant Filing(a, part, tbs) && Upto(part, ls, i, 0)
    {
      var ok', n' := FileNew(a, i, ls[i], part, tbs);
      part := part[i := ls[i][..n']];
      if !ok' {
        return false, part, i, n';
      }
    }
    return true, part, |ls|, 0;
  }

  method FileTriedKey(a: AddrManager, b: nat, k: Key, ka: KnownAddress, ghost nbs: seq<seq<Key>>,
                      ghost tbs: seq<seq<Key>>)
    requires Filing(a, nbs, tbs) && b < |tbs| && k in a.addrIndex && a.addrIndex[k] == ka
    modifies a`addrTried, a`nTried, ka`tried
    ensures Filing(a, nbs, tbs[b := tbs[b] + [k]])
  {
    hide Named, Mentions, Total, Sets, AddrManager.Books, AddrManager.Filed;
    Lengths(a, nbs, tbs);
    Indexed(a, k);
    assert KeysOf(a.addrTried[b] + [ka]) == tbs[b] + [k];
    Enter(a, k, ka);
    a.SetTried(b, a.addrTried[b] + [ka]);
    TallyTried(a.addrIndex.Keys, nbs, tbs, b, k);
    OneMore(tbs, b, k);
  }

  /** An address and the entries of the lists have one object each. */
  lemma {:induction false} Indexed(a: AddrManager, k: Key)
    requires a.Filed() && k in a.addrIndex
    ensures a.addrIndex[k].key == k
    ensures forall b, i :: 0 <= b < |a.addrTried| && 0 <= i < |a.addrTried[b]| ==>
      a.addrTried[b][i].key in a.addrIndex && a.addrIndex[a.addrTried[b][i].key] == a.addrTried[b][i]
  {
  }

  /** A tried address more. */
  method Enter(a: AddrManager, k: Key, ka: KnownAddress)
    requires a.Filed() && k in a.addrIndex && a.addrIndex[k] == ka
    modifies a`nTried, ka`tried
    ensures a.Filed()
    ensures var bk := old(a.Books());
      a.Books() == bk.(info := bk.info[k := bk.info[k].(tried := true)], nTried := bk.nTried + 1)
  {
    ghost var bk := a.Books();
    ka.tried := true;
    a.nTried := a.nTried + 1;
    assert a.Books().info == bk.info[k := bk.info[k].(tried := true)];
    assert a.Books().buckets == bk.buckets && a.Books().tried == bk.tried;
  }

  /** The keys of one tried list, up to the first that is not known. */
  method FileTried(a: AddrManager, b: nat, ks: seq<Key>, ghost nbs: seq<seq<Key>>, ghost tbs: seq<seq<Key>>)
    returns (ok: bool, ghost n: nat)
    requires Filing(a, nbs, tbs) && b < |tbs| && tbs[b] == []
    modifies a`addrTried, a`nTried, a.addrIndex.Values`tried
    ensures n <= |ks| && Filing(a, nbs, tbs[b := ks[..n]])
    ensures if ok then n == |ks| else n < |ks| && ks[n] !in a.addrIndex
  {
    hide Filing;
    assert tbs[b := ks[..0]] == tbs;
    for i := 0 to |ks|
      invariant Filing(a, nbs, tbs[b := ks[..i]])
    {
      if ks[i] !in a.addrIndex {
        return false, i;
      }
      ghost var part := tbs[b := ks[..i]];
      FileTriedKey(a, b, ks[i], a.addrIndex[ks[i]], nbs, part);
      assert part[b] + [ks[i]] == ks[..i + 1];
      assert part[b := part[b] + [ks[i]]] == tbs[b := ks[..i + 1]];
    }
    return true, |ks|;
  }

  method FileAllTried(a: AddrManager, ls: seq<seq<Key>>, ghost nbs: seq<seq<Key>>, ghost tbs: seq<seq<Key>>)
    returns (ok: bool, ghost part: seq<seq<Key>>, ghost b: nat, ghost n: nat)
    requires Filing(a, nbs, tbs) && Upto(tbs, ls, 0, 0)
    modifies a`addrTried, a`nTried, a.addrIndex.Values`tried
    ensures Filing(a, nbs, part) && Upto(part, ls, b, n)
    ensures if ok then part == ls else b < |ls| && n < |ls[b]| && ls[b][n] !in a.addrIndex
  {
    hide Filing;
    part := tbs;
    for i := 0 to |ls|
      invariant Filing(a, nbs, part) && Upto(part, ls, i, 0)
    {
      var ok', n' := FileTried(a, i, ls[i], nbs, part);
      part := part[i := ls[i][..n']];
      if !ok' {
        return false, part, i, n';
      }
    }
    return true, part, |ls|, 0;
  }

  /** The checks at the end: every address is in a bucket or in a list, and not in both. */
  method CheckAll(a: AddrManager, ghost nbs: seq<seq<Key>>, ghost tbs: seq<seq<Key>>) returns (ok: bool)
    requires Filing(a, nbs, tbs)
    ensures ok <==> Passes(a.addrIndex.Keys, nbs, tbs)
  {
    hide Named, Mentions, Filing;
    Lengths(a, nbs, tbs);
    var left := a.addrIndex.Keys;
    while left != {}
      invariant left <= a.addrIndex.Keys
      invariant forall k :: k in a.addrIndex && k !in left ==> (k in Named(nbs) <==> k !in Named(tbs))
    {
      var k :| k in left;
      NamedIn(nbs, k);
      if (a.addrIndex[k].refs == 0 && !a.addrIndex[k].tried) || (a.addrIndex[k].refs > 0 && a.addrIndex[k].tried) {
        return false;
      }
      left := left - {k};
    }
    FiledKeys(a, nbs, tbs);
    return true;
  }

  lemma {:induction false} FiledKeys(a: AddrManager, nbs: seq<seq<Key>>, tbs: seq<seq<Key>>)
    requires Filing(a, nbs, tbs)
    ensures Named(nbs) + Named(tbs) <= a.addrIndex.Keys
  {
  }

  /** No address at all. */
  ghost predicate Blank(a: AddrManager)
    reads a
  {
    && a.addrIndex == map[] && |a.addrNew| == NEW_BUCKET_COUNT && |a.addrTried| == TRIED_BUCKET_COUNT
    && (forall b :: 0 <= b < |a.addrNew| ==> a.addrNew[b] == map[])
    && (forall b :: 0 <= b < |a.addrTried| ==> a.addrTried[b] == [])
  }

  /**
    Of a file that is refused nothing was counted: it could not be read, or the key it names first is not among its
    addresses.
   */
  predicate Untouched(s: Saved, parse: Key -> Option<Key>) {
    !Readable(s, parse) ||
    match FirstNamed(s.newBuckets + s.triedBuckets)
    case None => true
    case Some(k) => EntryFor(s.addresses, parse, k) == None
  }

  /** What a file that is accepted says about every address. */
  ghost predicate AllRestored(a: AddrManager, s: Saved, parse: Key -> Option<Key>, now: Time)
    reads a, a.addrIndex.Values
  {
    && a.addrIndex.Keys == KeysIn(s.addresses, parse)
    && forall k :: k in a.addrIndex ==> Restored(a.addrIndex[k], EntryFor(s.addresses, parse, k), now)
  }

  ghost predicate Accepted(s: Saved, parse: Key -> Option<Key>) {
    Readable(s, parse) && Passes(KeysIn(s.addresses, parse), s.newBuckets, s.triedBuckets)
  }

  /** `deserializePeers` of a file that was found and decoded. */
  method DeserializePeers(a: AddrManager, s: Saved, parse: Key -> Option<Key>, now: Time) returns (ok: bool)
    requires Blank(a) && a.nNew == a.nTried == 0 && |s.newBuckets| == NEW_BUCKET_COUNT
      && |s.triedBuckets| == TRIED_BUCKET_COUNT
    modifies a
    ensures (ok <==> Accepted(s, parse)) && (s.version != 1 ==> !ok)
    ensures ok ==> a.home == s.home && Filing(a, s.newBuckets, s.triedBuckets) && AllRestored(a, s, parse, now)
    ensures !ok ==> (a.nNew == a.nTried == 0 <==> Untouched(s, parse))
  {
    hide Filing, EntryFor, KeysIn, Passes, FirstNamed;
    if s.version != SERIALISATION_VERSION {
      return false;
    }
    a.home := s.home;
    ok := LoadAddresses(a, s.addresses, parse, now);
    if ok {
      ghost var nbs, tbs := FilingStart(a, s, parse, now);
      ok := FileAll(a, s, parse, nbs, tbs);
    }
  }

  /** Its buckets and lists, and the checks. */
  method FileAll(a: AddrManager, s: Saved, parse: Key -> Option<Key>, ghost nbs: seq<seq<Key>>,
                 ghost tbs: seq<seq<Key>>)
    returns (ok: bool)
    requires a.addrIndex.Keys == KeysIn(s.addresses, parse) && Readable(s, parse)
    requires Filing(a, nbs, tbs) && Upto(nbs, s.newBuckets, 0, 0) && Upto(tbs, s.triedBuckets, 0, 0) && Total(tbs) == 0
    modifies a`addrNew, a`nNew, a`addrTried, a`nTried, a.addrIndex.Values`refs, a.addrIndex.Values`tried
    ensures ok <==> Accepted(s, parse)
    ensures ok ==> Filing(a, s.newBuckets, s.triedBuckets)
    ensures !ok ==> (a.nNew == a.nTried == 0 <==> Untouched(s, parse))
  {
    hide Filing, Total, Upto, KeysIn, Readable, Passes, Untouched;
    ghost var part, b, n;
    ok, part, b, n := FileAllNew(a, s.newBuckets, nbs, tbs);
    if !ok {
      NewRefused(a, s, parse, part, tbs, b, n);
      return;
    }
    ok, part, b, n := FileAllTried(a, s.triedBuckets, s.newBuckets, tbs);
    if !ok {
      TriedRefused(a, s, parse, part, b, n);
      return;
    }
    ok := CheckAll(a, s.newBuckets, s.triedBuckets);
    AllFiled(a, s, parse);
  }

  lemma {:induction false} EntryKnown(l: seq<SavedAddress>, parse: Key -> Option<Key>, k: Key)
    ensures k in KeysIn(l, parse) <==> EntryFor(l, parse, k).Some?
  {
    if l == [] {
    } else {
      var m, e := l[..|l| - 1], l[|l| - 1];
      EntryKnown(m, parse, k);
      assert l == m + [e] && e in l;
      if k in KeysIn(m, parse) {
        var f :| f in m && parse(f.addr) == Some(k);
        assert f in l;
      }
    }
  }

  lemma {:induction false} FilingStart(a: AddrManager, s: Saved, parse: Key -> Option<Key>, now: Time)
    returns (nbs: seq<seq<Key>>, tbs: seq<seq<Key>>)
    requires Known(a, s.addresses, parse, now) && a.nNew == a.nTried == 0
    requires |a.addrNew| == |s.newBuckets| && (forall b :: 0 <= b < |a.addrNew| ==> a.addrNew[b] == map[])
    requires |a.addrTried| == |s.triedBuckets| && (forall b :: 0 <= b < |a.addrTried| ==> a.addrTried[b] == [])
    ensures Filing(a, nbs, tbs) && Upto(nbs, s.newBuckets, 0, 0) && Upto(tbs, s.triedBuckets, 0, 0) && Total(tbs) == 0
    ensures a.addrIndex.Keys == KeysIn(s.addresses, parse)
  {
    hide Named, Total, Restored, EntryFor, KeysIn;
    nbs, tbs := seq(|s.newBuckets|, _ => []), seq(|s.triedBuckets|, _ => []);
    NothingNamed(nbs);
    NothingNamed(tbs);
    EmptyBooks(a, nbs, tbs);
  }

  lemma {:induction false} EmptyBooks(a: AddrManager, nbs: seq<seq<Key>>, tbs: seq<seq<Key>>)
    requires (forall k :: k in a.addrIndex ==> !a.addrIndex[k].tried && a.addrIndex[k].refs == 0)
      && a.nNew == a.nTried == 0
    requires |a.addrNew| == |nbs| && forall b :: 0 <= b < |nbs| ==> a.addrNew[b] == map[] && nbs[b] == []
    requires |a.addrTried| == |tbs| && forall b :: 0 <= b < |tbs| ==> a.addrTried[b] == [] && tbs[b] == []
    requires Named(nbs) == Named(tbs) == {} && Total(tbs) == 0
    ensures a.Books() == Tally(a.addrIndex.Keys, nbs, tbs)
  {
    hide Named, Total, Mentions;
    forall k ensures Mentions(nbs, k) == 0 { NamedIn(nbs, k); }
    var bk := a.Books();
    assert bk.info == Tally(a.addrIndex.Keys, nbs, tbs).info;
    assert forall b :: 0 <= b < |nbs| ==> bk.buckets[b] == {} == Elems(nbs[b]);
    assert bk.buckets == Sets(nbs);
    assert bk.tried == tbs;
  }

  lemma {:induction false} NewRefused(a: AddrManager, s: Saved, parse: Key -> Option<Key>, part: seq<seq<Key>>,
                                      tbs: seq<seq<Key>>, b: nat, n: nat)
    requires Filing(a, part, tbs) && Total(tbs) == 0 && Readable(s, parse)
      && a.addrIndex.Keys == KeysIn(s.addresses, parse)
    requires Upto(part, s.newBuckets, b, n) && b < |s.newBuckets| && n < |s.newBuckets[b]|
      && s.newBuckets[b][n] !in a.addrIndex
    ensures !Accepted(s, parse) && (a.nNew == a.nTried == 0 <==> Untouched(s, parse))
  {
    hide Named, Total, Upto, Mentions, EntryFor, KeysIn, FirstNamed;
    Lengths(a, part, tbs);
    FirstUnknown(a.addrIndex.Keys, part, s.newBuckets, b, n);
    FirstCat(s.newBuckets, s.triedBuckets);
    EntryKnown(s.addresses, parse, FirstNamed(s.newBuckets).value);
  }

  lemma {:induction false} TriedRefused(a: AddrManager, s: Saved, parse: Key -> Option<Key>, part: seq<seq<Key>>,
                                        b: nat, n: nat)
    requires Filing(a, s.newBuckets, part) && Readable(s, parse) && a.addrIndex.Keys == KeysIn(s.addresses, parse)
    requires Upto(part, s.triedBuckets, b, n) && b < |s.triedBuckets| && n < |s.triedBuckets[b]|
      && s.triedBuckets[b][n] !in a.addrIndex
    ensures !Accepted(s, parse) && (a.nNew == a.nTried == 0 <==> Untouched(s, parse))
  {
    hide Named, Total, Upto, Mentions, EntryFor, KeysIn, FirstNamed;
    Lengths(a, s.newBuckets, part);
    FirstUnknown(a.addrIndex.Keys, part, s.triedBuckets, b, n);
    FirstCat(s.newBuckets, s.triedBuckets);
    NothingNamed(s.newBuckets);
    NothingNamed(part);
    FirstIsNamed(s.newBuckets);
    EntryKnown(s.addresses, parse, FirstNamed(s.newBuckets + s.triedBuckets).value);
  }

  lemma {:induction false} AllFiled(a: AddrManager, s: Saved, parse: Key -> Option<Key>)
    requires Filing(a, s.newBuckets, s.triedBuckets) && Readable(s, parse)
      && a.addrIndex.Keys == KeysIn(s.addresses, parse)
    ensures a.nNew == a.nTried == 0 <==> Untouched(s, parse)
  {
    hide Named, Total, Mentions, EntryFor, KeysIn, FirstNamed;
    Lengths(a, s.newBuckets, s.triedBuckets);
    FirstCat(s.newBuckets, s.triedBuckets);
    NothingNamed(s.newBuckets);
    NothingNamed(s.triedBuckets);
    FirstIsNamed(s.newBuckets);
    FirstIsNamed(s.triedBuckets);
    var f := FirstNamed(s.newBuckets + s.triedBuckets);
    if f.Some? { EntryKnown(s.addresses, parse, f.value); }
  }

  /** A file of peers that was looked for. */
  datatype PeersFile = Missing | Malformed | Peers(saved: Saved)

  /** `reset`, with another secret key. The counters stay as they are. */
  method Reset(a: AddrManager, home: Key -> TriedNo)
    modifies a
    ensures Blank(a) && a.home == home && a.nNew == old(a.nNew) && a.nTried == old(a.nTried)
  {
    a.addrIndex := map[];
    a.home := home;
    a.addrNew := seq(NEW_BUCKET_COUNT, _ => map[]);
    a.addrTried := seq(TRIED_BUCKET_COUNT, _ => []);
  }

  /**
    `loadPeers` at the start. A file is accepted if and only if exactly its addresses are filed, each as new or as
    tried.
    Then the accounts are in order if and only if the file is orderly. A file that is refused leaves no address, but the
    accounts are in order only if it named none of its addresses before.
   */
  method LoadPeers(a: AddrManager, file: PeersFile, parse: Key -> Option<Key>, now: Time, home: Key -> TriedNo)
    returns (ok: bool)
    requires a.Inv() && a.addrIndex == map[]
    requires file.Peers? ==>
      |file.saved.newBuckets| == NEW_BUCKET_COUNT && |file.saved.triedBuckets| == TRIED_BUCKET_COUNT
    modifies a
    ensures ok <==> file.Missing? || (file.Peers? && Accepted(file.saved, parse))
    ensures ok && file.Peers? ==> var s := file.saved;
      && a.home == s.home && Filing(a, s.newBuckets, s.triedBuckets) && AllRestored(a, s, parse, now)
      && (a.Inv() <==> Orderly(s.newBuckets, s.triedBuckets, s.home))
    ensures !(ok && file.Peers?) ==> Blank(a) && (a.Inv() <==> file.Peers? ==> Untouched(file.saved, parse))
  {
    hide AddrManager.Inv, Orderly, Filing, Untouched, KeysIn, EntryFor, Passes;
    NoneKnown(a);
    if file.Missing? {
      return true;
    }
    ok := false;
    if file.Peers? {
      ok := DeserializePeers(a, file.saved, parse, now);
    }
    if ok {
      FiledSane(a, file.saved);
    } else {
      Reset(a, home);
      BlankSane(a);
    }
  }

  lemma {:induction false} NoneKnown(a: AddrManager)
    requires a.Inv() && a.addrIndex == map[]
    ensures Blank(a) && a.nNew == a.nTried == 0
  {
    var bk := a.Books();
    assert Among(bk.info, true) == {} == Among(bk.info, false);
    assert |bk.tried| == TRIED_BUCKET_COUNT && |bk.buckets| == NEW_BUCKET_COUNT;
    forall b | 0 <= b < |a.addrNew| ensures a.addrNew[b] == map[] {
      assert forall k :: k in a.addrNew[b] ==> k in a.addrIndex;
      assert a.addrNew[b].Keys == {};
    }
    TriedTotal(bk, a.home);
    NothingNamed(bk.tried);
    assert forall b :: 0 <= b < |a.addrTried| ==> KeysOf(a.addrTried[b]) == bk.tried[b] == [];
  }

  lemma {:induction false} BlankSane(a: AddrManager)
    requires Blank(a)
    ensures a.Inv() <==> a.nNew == a.nTried == 0
  {
    var bk := a.Books();
    assert Among(bk.info, true) == {} == Among(bk.info, false);
  }

  lemma {:induction false} FiledSane(a: AddrManager, s: Saved)
    requires Filing(a, s.newBuckets, s.triedBuckets) && Passes(a.addrIndex.Keys, s.newBuckets, s.triedBuckets)
      && a.home == s.home
    requires |s.newBuckets| == NEW_BUCKET_COUNT && |s.triedBuckets| == TRIED_BUCKET_COUNT
    ensures a.Inv() <==> Orderly(s.newBuckets, s.triedBuckets, s.home)
  {
    hide Sane, Orderly, Passes, Tally;
    LoadedSane(a.addrIndex.Keys, s.newBuckets, s.triedBuckets, s.home);
  }

  lemma {:induction false} EntryThere(l: seq<SavedAddress>, parse: Key -> Option<Key>, k: Key)
    ensures EntryFor(l, parse, k).Some? ==>
      EntryFor(l, parse, k).value in l && parse(EntryFor(l, parse, k).value.addr) == Some(k)
  {
    if l == [] {
    } else {
      EntryThere(l[..|l| - 1], parse, k);
    }
  }

  /** A saved file is accepted, and orderly. */
  lemma {:induction false} SavedAccepted(a: AddrManager, s: Saved, parse: Key -> Option<Key>)
    requires a.Inv() && Saves(a, s) && forall k :: k in a.addrIndex ==> parse(k) == Some(k)
    ensures KeysIn(s.addresses, parse) == a.addrIndex.Keys && Accepted(s, parse)
      && Orderly(s.newBuckets, s.triedBuckets, s.home)
    ensures |s.newBuckets| == NEW_BUCKET_COUNT && |s.triedBuckets| == TRIED_BUCKET_COUNT
    ensures Tally(a.addrIndex.Keys, s.newBuckets, s.triedBuckets) == a.Books()
  {
    hide Sane, Orderly, Passes, Tally, ListsOf;
    assert a.Books().info.Keys == a.addrIndex.Keys;
    SavedKeys(a, s, parse);
    SavedOrderly(a.Books(), a.home, s.newBuckets);
  }

  lemma {:induction false} SavedKeys(a: AddrManager, s: Saved, parse: Key -> Option<Key>)
    requires Saves(a, s) && forall k :: k in a.addrIndex ==> parse(k) == Some(k)
    ensures KeysIn(s.addresses, parse) == a.addrIndex.Keys && Readable(s, parse)
  {
    forall k | k in a.addrIndex ensures k in KeysIn(s.addresses, parse) {
      assert Entry(k, a.addrIndex[k]) in s.addresses;
    }
    forall i | 0 <= i < |s.addresses| ensures parse(s.addresses[i].addr) == Some(s.addresses[i].addr) {
      assert s.addresses[i] in s.addresses;
    }
  }

  lemma {:induction false} SavedEntry(a: AddrManager, s: Saved, parse: Key -> Option<Key>, k: Key)
    requires Saves(a, s) && (forall k :: k in a.addrIndex ==> parse(k) == Some(k)) && k in a.addrIndex
    ensures EntryFor(s.addresses, parse, k) == Some(Entry(k, a.addrIndex[k]))
  {
    SavedKeys(a, s, parse);
    EntryKnown(s.addresses, parse, k);
    EntryThere(s.addresses, parse, k);
  }

  /**
    What is saved by a manager whose accounts are in order is loaded again as it was, but for when addresses were
    last seen.
   */
  method SaveThenLoad(a: AddrManager, parse: Key -> Option<Key>, now: Time, fresh': Key -> TriedNo)
    returns (a': AddrManager)
    requires a.Inv() && forall k :: k in a.addrIndex ==> parse(k) == Some(k)
    ensures fresh(a') && a'.Inv() && a'.home == a.home && a'.Books() == a.Books()
    ensures a'.addrIndex.Keys == a.addrIndex.Keys
    ensures forall k :: k in a.addrIndex ==>
      && a'.addrIndex[k].attempts == a.addrIndex[k].attempts && a'.addrIndex[k].timestamp == now
      && a'.addrIndex[k].lastAttempt == a.addrIndex[k].lastAttempt
      && a'.addrIndex[k].lastSuccess == a.addrIndex[k].lastSuccess
  {
    hide Sane, Orderly, Passes, Tally, Filing, Saves, AllRestored, Accepted, KeysIn, EntryFor, AddrManager.Books,
         AddrManager.Inv;
    var s := SavePeers(a);
    a' := new AddrManager(fresh');
    SavedAccepted(a, s, parse);
    var _ := LoadPeers(a', Peers(s), parse, now, fresh');
    LoadedAgain(a, a', s, parse, now);
  }

  lemma {:induction false} LoadedAgain(a: AddrManager, a': AddrManager, s: Saved, parse: Key -> Option<Key>, now: Time)
    requires Saves(a, s) && (forall k :: k in a.addrIndex ==> parse(k) == Some(k))
      && KeysIn(s.addresses, parse) == a.addrIndex.Keys
    requires Tally(a.addrIndex.Keys, s.newBuckets, s.triedBuckets) == a.Books()
    requires Filing(a', s.newBuckets, s.triedBuckets) && AllRestored(a', s, parse, now)
    ensures a'.Books() == a.Books() && a'.addrIndex.Keys == a.addrIndex.Keys
    ensures forall k :: k in a.addrIndex ==> Entry(k, a'.addrIndex[k]) == Entry(k, a.addrIndex[k]).(timestamp := now)
  {
    hide Tally, AddrManager.Books, AddrManager.Filed, KeysIn, EntryFor;
    forall k | k in a.addrIndex ensures EntryFor(s.addresses, parse, k) == Some(Entry(k, a.addrIndex[k])) {
      SavedEntry(a, s, parse, k);
    }
  }

  /** A file with one address, and these keys in its first bucket. */
  function OneBucket(ks: seq<Key>, home: Key -> TriedNo): Saved {
    Saved(SERIALISATION_VERSION, home, [SavedAddress("a", 0, 0, None, None)],
          [ks] + seq(NEW_BUCKET_COUNT - 1, _ => []), seq(TRIED_BUCKET_COUNT, _ => []))
  }

  /** Refused files that count, and accepted ones that are not orderly, exist. */
  lemma {:induction false} BadFiles(home: Key -> TriedNo)
    ensures var s := OneBucket(["a", "b"], home); !Accepted(s, k => Some(k)) && !Untouched(s, k => Some(k))
    ensures var s := OneBucket(["a", "a"], home);
      Accepted(s, k => Some(k)) && !Orderly(s.newBuckets, s.triedBuckets, home)
  {
    hide Mentions;
    var parse: Key -> Option<Key> := k => Some(k);
    var s, t := OneBucket(["a", "b"], home), OneBucket(["a", "a"], home);
    assert s.addresses[0] in s.addresses;
    assert KeysIn(s.addresses, parse) == {"a"};
    assert "b" in s.newBuckets[0];
    NamedIn(s.newBuckets, "b");
    NothingNamed(t.newBuckets[1..]);
    NothingNamed(t.triedBuckets);
    assert Named(t.newBuckets) == {"a"};
    assert t.newBuckets[0][0] == t.newBuckets[0][1];
  }
}

