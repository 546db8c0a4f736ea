/** The saved form of the books: keys in buckets and lists, from which everything else is worked out. */
module AddrFile {
  import opened AddrBook
  import opened Options

  /** How often a key is named. */
  function Mentions(ls: seq<seq<Key>>, k: Key): nat {
    if ls == [] then 0 else multiset(ls[0])[k] + Mentions(ls[1..], k)
  }

  function Total(ls: seq<seq<Key>>): nat {
    if ls == [] then 0 else |ls[0]| + Total(ls[1..])
  }

  ghost function Elems(l: seq<Key>): set<Key> {
    set k | k in l
  }

  ghost function Sets(ls: seq<seq<Key>>): (ss: seq<set<Key>>)
    ensures |ss| == |ls| && forall b :: 0 <= b < |ls| ==> ss[b] == Elems(ls[b])
  {
    seq(|ls|, b requires 0 <= b < |ls| => Elems(ls[b]))
  }

  /** The keys that are named. */
  ghost function Named(ls: seq<seq<Key>>): set<Key> {
    if ls == [] then {} else Elems(ls[0]) + Named(ls[1..])
  }

  /** The books of which only the keys in the buckets and lists are known. */
  ghost function Tally(keys: set<Key>, nbs: seq<seq<Key>>, tbs: seq<seq<Key>>): Book {
    Book(map k | k in keys :: Info(k in Named(tbs), Mentions(nbs, k)), Sets(nbs), tbs, |Named(nbs)|, Total(tbs))
  }

  predicate Distinct(l: seq<Key>) {
    forall i, j :: 0 <= i < j < |l| ==> l[i] != l[j]
  }

  // ---------------------------------------------------------------- counting

  lemma {:induction false} NamedIn(ls: seq<seq<Key>>, k: Key)
    ensures k in Named(ls) <==> exists b :: 0 <= b < |ls| && k in ls[b]
    ensures k in Named(ls) <==> Mentions(ls, k) > 0
  {
    if ls == [] {
    } else {
      NamedIn(ls[1..], k);
      assert forall b :: 0 < b < |ls| ==> ls[b] == ls[1..][b - 1];
      if k in Named(ls[1..]) {
        var b :| 0 <= b < |ls[1..]| && k in ls[1..][b];
        assert k in ls[b + 1];
      }
    }
  }

  /** A key more in one list. */
  lemma {:induction false} OneMore(ls: seq<seq<Key>>, b: nat, k: Key)
    requires b < |ls|
    ensures var ls' := ls[b := ls[b] + [k]];
      Named(ls') == Named(ls) + {k} && Total(ls') == Total(ls) + 1
    decreases b
  {
    var ls' := ls[b := ls[b] + [k]];
    if b == 0 {
      assert ls'[1..] == ls[1..];
    } else {
      assert ls'[1..] == ls[1..][b - 1 := ls[1..][b - 1] + [k]];
      OneMore(ls[1..], b - 1, k);
    }
  }

  lemma {:induction false} OneMention(ls: seq<seq<Key>>, b: nat, k: Key, j: Key)
    requires b < |ls|
    ensures Mentions(ls[b := ls[b] + [k]], j) == Mentions(ls, j) + (if j == k then 1 else 0)
    decreases b
  {
    var ls' := ls[b := ls[b] + [k]];
    if b == 0 {
      assert ls'[1..] == ls[1..];
    } else {
      assert ls'[1..] == ls[1..][b - 1 := ls[1..][b - 1] + [k]];
      OneMention(ls[1..], b - 1, k, j);
    }
  }

  lemma {:induction false} DistinctSnoc(l: seq<Key>, k: Key)
    ensures Distinct(l + [k]) <==> Distinct(l) && k !in l
  {
    var l' := l + [k];
    if Distinct(l') {
      forall i, j | 0 <= i < j < |l| ensures l[i] != l[j] { assert l'[i] != l'[j]; }
      forall i | 0 <= i < |l| ensures l[i] != k { assert l'[i] != l'[|l|]; }
    }
  }

  /** A list without repetition has every key once, and as many as it is long. */
  lemma {:induction false} DistinctOnce(l: seq<Key>)
    ensures Distinct(l) <==> forall k :: multiset(l)[k] <= 1
    ensures |Elems(l)| <= |l| && (Distinct(l) <==> |Elems(l)| == |l|)
  {
    if l == [] {
    } else {
      var n := |l| - 1;
      var m, x := l[..n], l[n];
      hide Distinct;
      DistinctOnce(m);
      DistinctSnoc(m, x);
      assert l == m + [x];
      assert Elems(l) == Elems(m) + {x};
      assert forall k :: multiset(l)[k] == multiset(m)[k] + (if k == x then 1 else 0);
      assert x in m <==> multiset(m)[x] > 0;
    }
  }

  /** A key is named in at least as many lists as it is in, and in just as many if no list has it twice. */
  lemma {:induction false} CountMentions(ls: seq<seq<Key>>, k: Key)
    ensures Count(Sets(ls), k) <= Mentions(ls, k)
    ensures Count(Sets(ls), k) == Mentions(ls, k) <==> forall b :: 0 <= b < |ls| ==> multiset(ls[b])[k] <= 1
  {
    if ls == [] {
    } else {
      assert Sets(ls)[1..] == Sets(ls[1..]);
      CountMentions(ls[1..], k);
      assert forall b :: 0 < b < |ls| ==> ls[b] == ls[1..][b - 1];
      assert k in ls[0] <==> multiset(ls[0])[k] > 0;
    }
  }

  /** Lists that share nothing and repeat nothing. */
  lemma {:induction false} TotalNamed(ls: seq<seq<Key>>)
    requires forall k :: Mentions(ls, k) <= 1
    ensures Total(ls) == |Named(ls)|
  {
    if ls == [] {
    } else {
      forall k
        ensures multiset(ls[0])[k] <= 1 && Mentions(ls[1..], k) <= 1 && !(k in Elems(ls[0]) && k in Named(ls[1..]))
      {
        assert Mentions(ls, k) <= 1;
        NamedIn(ls[1..], k);
      }
      DistinctOnce(ls[0]);
      TotalNamed(ls[1..]);
      assert Elems(ls[0]) !! Named(ls[1..]);
    }
  }

  // ---------------------------------------------------------------- filing keys

  lemma {:induction false} TallyNew(keys: set<Key>, nbs: seq<seq<Key>>, tbs: seq<seq<Key>>, b: nat, k: Key)
    requires b < |nbs| && k in keys
    ensures var bk := Tally(keys, nbs, tbs);
      Tally(keys, nbs[b := nbs[b] + [k]], tbs) ==
        PutNew(bk, b, k).(nNew := bk.nNew + if bk.info[k].refs == 0 then 1 else 0)
  {
    hide Mentions, Named, Total;
    var bk, nbs' := Tally(keys, nbs, tbs), nbs[b := nbs[b] + [k]];
    var bk' := Tally(keys, nbs', tbs);
    forall j | j in keys ensures bk'.info[j] == PutNew(bk, b, k).info[j] { OneMention(nbs, b, k, j); }
    assert bk'.info == PutNew(bk, b, k).info;
    assert Elems(nbs[b] + [k]) == Elems(nbs[b]) + {k};
    assert bk'.buckets == PutNew(bk, b, k).buckets;
    OneMore(nbs, b, k);
    NamedIn(nbs, k);
    assert k in Named(nbs) ==> Named(nbs) + {k} == Named(nbs);
    assert bk.info[k].refs == Mentions(nbs, k);
  }

  lemma {:induction false} TallyTried(keys: set<Key>, nbs: seq<seq<Key>>, tbs: seq<seq<Key>>, b: nat, k: Key)
    requires b < |tbs| && k in keys
    ensures var bk := Tally(keys, nbs, tbs);
      Tally(keys, nbs, tbs[b := tbs[b] + [k]]) ==
        bk.(info := bk.info[k := bk.info[k].(tried := true)], tried := tbs[b := tbs[b] + [k]], nTried := bk.nTried + 1)
  {
    OneMore(tbs, b, k);
    var bk := Tally(keys, nbs, tbs);
    assert Tally(keys, nbs, tbs[b := tbs[b] + [k]]).info == bk.info[k := bk.info[k].(tried := true)];
  }

  // ---------------------------------------------------------------- what was saved

  /** The lists have the keys of the buckets, in any order. */
  ghost predicate ListsOf(nbs: seq<seq<Key>>, buckets: seq<set<Key>>) {
    Sets(nbs) == buckets && forall b :: 0 <= b < |nbs| ==> Distinct(nbs[b])
  }

  /** Nothing is lost by saving only the keys: references, tried flags and counters are worked out again. */
  lemma {:induction false} ImplicitInBuckets(bk: Book, home: Key -> TriedNo, nbs: seq<seq<Key>>)
    requires Sane(bk, home, {}) && ListsOf(nbs, bk.buckets)
    ensures Tally(bk.info.Keys, nbs, bk.tried) == bk
  {
    hide NewOk, Mentions, Named, Total, Count, Distinct;
    var t := Tally(bk.info.Keys, nbs, bk.tried);
    TriedTotal(bk, home);
    forall k | k in bk.info ensures Mentions(nbs, k) == bk.info[k].refs {
      CountOnce(nbs, k);
      EachInItsPlace(bk, home, k);
    }
    assert t.info == bk.info;
    forall k ensures k in Named(nbs) <==> k in Among(bk.info, false) { NamedNew(bk, home, nbs, k); }
    assert Named(nbs) == Among(bk.info, false);
  }

  lemma {:induction false} CountOnce(ls: seq<seq<Key>>, k: Key)
    requires forall b :: 0 <= b < |ls| ==> Distinct(ls[b])
    ensures Mentions(ls, k) == Count(Sets(ls), k)
  {
    hide Distinct;
    forall b | 0 <= b < |ls| ensures multiset(ls[b])[k] <= 1 { DistinctOnce(ls[b]); }
    CountMentions(ls, k);
  }

  lemma {:induction false} NamedNew(bk: Book, home: Key -> TriedNo, nbs: seq<seq<Key>>, k: Key)
    requires Sane(bk, home, {}) && Sets(nbs) == bk.buckets
    ensures k in Named(nbs) <==> k in Among(bk.info, false)
  {
    NamedIn(nbs, k);
    CountZero(bk.buckets, k);
    assert forall b :: 0 <= b < |nbs| ==> (k in nbs[b] <==> k in bk.buckets[b]);
    if k in bk.info { EachInItsPlace(bk, home, k); }
  }

  lemma {:induction false} TriedTotal(bk: Book, home: Key -> TriedNo)
    requires TriedOk(bk, home) && Accounted(bk, home, {})
    ensures Named(bk.tried) == Among(bk.info, true) && Total(bk.tried) == |Named(bk.tried)|
  {
    forall k ensures k in Named(bk.tried) <==> k in Among(bk.info, true) {
      NamedIn(bk.tried, k);
    }
    OnceEach(bk.tried, home, 0);
    TotalNamed(bk.tried);
  }

  /** Keys that are each in their own list, and there once. */
  lemma {:induction false} OnceEach(ls: seq<seq<Key>>, home: Key -> TriedNo, from: nat)
    requires forall b :: 0 <= b < |ls| ==> Distinct(ls[b])
    requires forall b, i :: 0 <= b < |ls| && 0 <= i < |ls[b]| ==> home(ls[b][i]) == from + b
    ensures forall k :: Mentions(ls, k) <= 1
    decreases |ls|
  {
    hide Distinct;
    if ls == [] {
    } else {
      OnceEach(ls[1..], home, from + 1);
      DistinctOnce(ls[0]);
      forall k ensures Mentions(ls, k) <= 1 {
        NamedIn(ls[1..], k);
      }
    }
  }

  // ---------------------------------------------------------------- any file

  /** Exactly the known addresses are filed, each as new or as tried. */
  ghost predicate Passes(keys: set<Key>, nbs: seq<seq<Key>>, tbs: seq<seq<Key>>) {
    Named(nbs) + Named(tbs) == keys && Named(nbs) !! Named(tbs)
  }

  /** Nothing is filed twice where it may be once, or in the wrong list, and there is not too much of anything. */
  ghost predicate Orderly(nbs: seq<seq<Key>>, tbs: seq<seq<Key>>, home: Key -> TriedNo) {
    && (forall b :: 0 <= b < |nbs| ==> Distinct(nbs[b]) && |nbs[b]| <= 65)
    && (forall k :: Mentions(nbs, k) <= 8)
    && (forall b :: 0 <= b < |tbs| ==> Distinct(tbs[b]) && |tbs[b]| <= 256)
    && (forall b, i :: 0 <= b < |tbs| && 0 <= i < |tbs[b]| ==> home(tbs[b][i]) == b)
  }

  /** The checks made on loading do not see to that: what passes them is in order if and only if the file is orderly. */
  lemma {:induction false} LoadedSane(keys: set<Key>, nbs: seq<seq<Key>>, tbs: seq<seq<Key>>, home: Key -> TriedNo)
    requires Passes(keys, nbs, tbs) && |nbs| == NEW_BUCKET_COUNT && |tbs| == TRIED_BUCKET_COUNT
    ensures Sane(Tally(keys, nbs, tbs), home, {}) <==> Orderly(nbs, tbs, home)
  {
    hide Sane, Orderly;
    if Orderly(nbs, tbs, home) { OrderlySane(keys, nbs, tbs, home); }
    if Sane(Tally(keys, nbs, tbs), home, {}) { SaneOrderly(keys, nbs, tbs, home); }
  }

  lemma {:induction false} OrderlySane(keys: set<Key>, nbs: seq<seq<Key>>, tbs: seq<seq<Key>>, home: Key -> TriedNo)
    requires Passes(keys, nbs, tbs) && |nbs| == NEW_BUCKET_COUNT && |tbs| == TRIED_BUCKET_COUNT
      && Orderly(nbs, tbs, home)
    ensures Sane(Tally(keys, nbs, tbs), home, {})
  {
    hide NewOk, TriedOk, Accounted, Orderly, Mentions, Named, Total;
    var bk := Tally(keys, nbs, tbs);
    OrderlyNew(keys, nbs, tbs, home);
    OrderlyTried(keys, nbs, tbs, home);
    OrderlyAccounted(keys, nbs, tbs, home);
    TriedTotal(bk, home);
    assert Among(bk.info, false) == Named(nbs);
  }

  lemma {:induction false} OrderlyNew(keys: set<Key>, nbs: seq<seq<Key>>, tbs: seq<seq<Key>>, home: Key -> TriedNo)
    requires Passes(keys, nbs, tbs) && |nbs| == NEW_BUCKET_COUNT && Orderly(nbs, tbs, home)
    ensures NewOk(Tally(keys, nbs, tbs))
  {
    hide Distinct;
    forall b, k | 0 <= b < |nbs| && k in nbs[b] ensures k in Named(nbs) { NamedIn(nbs, k); }
    forall b | 0 <= b < |nbs| ensures |Elems(nbs[b])| <= |nbs[b]| { DistinctOnce(nbs[b]); }
  }

  lemma {:induction false} OrderlyTried(keys: set<Key>, nbs: seq<seq<Key>>, tbs: seq<seq<Key>>, home: Key -> TriedNo)
    requires Passes(keys, nbs, tbs) && |tbs| == TRIED_BUCKET_COUNT && Orderly(nbs, tbs, home)
    ensures TriedOk(Tally(keys, nbs, tbs), home)
  {
    forall b, i | 0 <= b < |tbs| && 0 <= i < |tbs[b]| ensures tbs[b][i] in Named(tbs) { NamedIn(tbs, tbs[b][i]); }
  }

  lemma {:induction false} OrderlyAccounted(keys: set<Key>, nbs: seq<seq<Key>>, tbs: seq<seq<Key>>,
                                            home: Key -> TriedNo)
    requires Passes(keys, nbs, tbs) && |tbs| == TRIED_BUCKET_COUNT && Orderly(nbs, tbs, home)
    ensures Accounted(Tally(keys, nbs, tbs), home, {})
  {
    hide Distinct, Count, Mentions, Named;
    forall k | k in keys
      ensures if k in Named(tbs) then Mentions(nbs, k) == 0 && k in tbs[home(k)]
        else Mentions(nbs, k) == Count(Sets(nbs), k) >= 1
    {
      NamedIn(nbs, k);
      NamedIn(tbs, k);
      CountOnce(nbs, k);
    }
  }

  lemma {:induction false} SaneOrderly(keys: set<Key>, nbs: seq<seq<Key>>, tbs: seq<seq<Key>>, home: Key -> TriedNo)
    requires Passes(keys, nbs, tbs) && |nbs| == NEW_BUCKET_COUNT && |tbs| == TRIED_BUCKET_COUNT
      && Sane(Tally(keys, nbs, tbs), home, {})
    ensures Orderly(nbs, tbs, home)
  {
    hide Accounted, Count, Counted, Mentions, Named, Total;
    assert Tally(keys, nbs, tbs).tried == tbs;
    forall k ensures Mentions(nbs, k) <= NEW_BUCKETS_PER_ADDRESS { SaneMentions(keys, nbs, tbs, home, k); }
    forall b | 0 <= b < |nbs| ensures Distinct(nbs[b]) && |nbs[b]| <= NEW_BUCKET_SIZE + 1 {
      forall k ensures multiset(nbs[b])[k] <= 1 {
        SaneMentions(keys, nbs, tbs, home, k);
        CountMentions(nbs, k);
      }
      DistinctOnce(nbs[b]);
      assert Tally(keys, nbs, tbs).buckets[b] == Elems(nbs[b]);
    }
  }

  lemma {:induction false} SaneMentions(keys: set<Key>, nbs: seq<seq<Key>>, tbs: seq<seq<Key>>, home: Key -> TriedNo,
                                        k: Key)
    requires Passes(keys, nbs, tbs) && |tbs| == TRIED_BUCKET_COUNT && Accounted(Tally(keys, nbs, tbs), home, {})
    ensures Mentions(nbs, k) == Count(Sets(nbs), k) <= NEW_BUCKETS_PER_ADDRESS
  {
    hide Count, Mentions, Named, Total;
    NamedIn(nbs, k);
    CountMentions(nbs, k);
    assert k in keys ==> k in Tally(keys, nbs, tbs).info;
  }

  /** What was saved passes the checks, and is orderly. */
  lemma {:induction false} SavedOrderly(bk: Book, home: Key -> TriedNo, nbs: seq<seq<Key>>)
    requires Sane(bk, home, {}) && ListsOf(nbs, bk.buckets)
    ensures Tally(bk.info.Keys, nbs, bk.tried) == bk && Passes(bk.info.Keys, nbs, bk.tried)
      && Orderly(nbs, bk.tried, home)
    ensures |nbs| == NEW_BUCKET_COUNT && |bk.tried| == TRIED_BUCKET_COUNT
  {
    hide Distinct, Orderly, Named, Tally, Total;
    forall k ensures k in Named(nbs) <==> k in Among(bk.info, false) { NamedNew(bk, home, nbs, k); }
    TriedTotal(bk, home);
    ImplicitInBuckets(bk, home, nbs);
    LoadedSane(bk.info.Keys, nbs, bk.tried, home);
  }

  // ---------------------------------------------------------------- files that are refused

  /** The key that is named first. */
  function FirstNamed(ls: seq<seq<Key>>): Option<Key> {
    if ls == [] then None else if ls[0] != [] then Some(ls[0][0]) else FirstNamed(ls[1..])
  }

  lemma {:induction false} FirstAt(ls: seq<seq<Key>>) returns (b: nat)
    ensures FirstNamed(ls) == None ==> forall c :: 0 <= c < |ls| ==> ls[c] == []
    ensures FirstNamed(ls).Some? ==>
      b < |ls| && ls[b] != [] && FirstNamed(ls) == Some(ls[b][0]) && forall c :: 0 <= c < b ==> ls[c] == []
  {
    b := 0;
    if ls == [] || ls[0] != [] {
    } else {
      b := FirstAt(ls[1..]);
      b := b + 1;
      assert forall c :: 0 < c < |ls| ==> ls[c] == ls[1..][c - 1];
    }
  }

  lemma {:induction false} NothingNamed(ls: seq<seq<Key>>)
    ensures Named(ls) == {} <==> forall c :: 0 <= c < |ls| ==> ls[c] == []
    ensures Named(ls) == {} <==> Total(ls) == 0
    ensures Named(ls) == {} <==> FirstNamed(ls) == None
  {
    if ls == [] {
    } else {
      NothingNamed(ls[1..]);
      assert forall c :: 0 < c < |ls| ==> ls[c] == ls[1..][c - 1];
      assert ls[0] != [] ==> ls[0][0] in Elems(ls[0]);
    }
  }

  /** The lists before number `b`, and the first `n` keys of that one. */
  ghost predicate Upto(part: seq<seq<Key>>, ls: seq<seq<Key>>, b: nat, n: nat) {
    && |part| == |ls| && b <= |ls| && (forall c :: 0 <= c < b ==> part[c] == ls[c])
    && (b < |ls| ==> n <= |ls[b]| && part[b] == ls[b][..n])
    && forall c :: b < c < |ls| ==> part[c] == []
  }

  /** When the first unknown key is met, nothing was filed if and only if it is the first of all. */
  lemma {:induction false} FirstUnknown(keys: set<Key>, part: seq<seq<Key>>, ls: seq<seq<Key>>, b: nat, n: nat)
    requires Upto(part, ls, b, n) && Named(part) <= keys && b < |ls| && n < |ls[b]| && ls[b][n] !in keys
    ensures FirstNamed(ls).Some? && (Named(part) == {} <==> FirstNamed(ls).value !in keys) && !(Named(ls) <= keys)
  {
    NothingNamed(part);
    var f := FirstAt(ls);
    NamedIn(ls, ls[b][n]);
    NamedIn(part, ls[f][0]);
    if Named(part) == {} {
      assert part[b] == [] && n == 0;
    } else if f < b || (f == b && n > 0) {
      assert part[f] != [] && part[f][0] == ls[f][0];
    }
  }

  lemma {:induction false} FirstCat(xs: seq<seq<Key>>, ys: seq<seq<Key>>)
    ensures FirstNamed(xs + ys) == if FirstNamed(xs).Some? then FirstNamed(xs) else FirstNamed(ys)
  {
    if xs == [] {
      assert xs + ys == ys;
    } else {
      assert (xs + ys)[1..] == xs[1..] + ys;
      FirstCat(xs[1..], ys);
    }
  }

  lemma {:induction false} FirstIsNamed(ls: seq<seq<Key>>)
    ensures FirstNamed(ls).Some? ==> FirstNamed(ls).value in Named(ls)
  {
    if ls == [] {
    } else {
      FirstIsNamed(ls[1..]);
    }
  }
}