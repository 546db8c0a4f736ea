/** The books an address manager keeps: reference counts, buckets and counters, and when they agree. */
module AddrBook {
  type Key = string

  const NEW_BUCKET_COUNT := 1024
  const NEW_BUCKET_SIZE := 64
  const NEW_BUCKETS_PER_ADDRESS := 8
  const TRIED_BUCKET_COUNT := 64
  const TRIED_BUCKET_SIZE := 256

  type TriedNo = b: int | 0 <= b < TRIED_BUCKET_COUNT

  datatype Info = Info(tried: bool, refs: int)

  /** What is known of each address, the keys in each new bucket and in each tried list, and the counters. */
  datatype Book = Book(info: map<Key, Info>, buckets: seq<set<Key>>, tried: seq<seq<Key>>, nNew: int, nTried: int)

  /** In how many new buckets a key is. */
  function Count(buckets: seq<set<Key>>, k: Key): nat {
    if buckets == [] then 0 else (if k in buckets[0] then 1 else 0) + Count(buckets[1..], k)
  }

  ghost function Among(info: map<Key, Info>, tried: bool): set<Key> {
    set k | k in info && info[k].tried == tried
  }

  /** New buckets hold untried addresses only, and none holds too many. */
  ghost predicate NewOk(bk: Book) {
    && |bk.buckets| == NEW_BUCKET_COUNT
    && (forall b, k :: 0 <= b < |bk.buckets| && k in bk.buckets[b] ==> k in bk.info && !bk.info[k].tried)
    && (forall b :: 0 <= b < |bk.buckets| ==> |bk.buckets[b]| <= NEW_BUCKET_SIZE + 1)
  }

  /** Tried lists hold tried addresses only, each at most once and in its own list, and none is too long. */
  ghost predicate TriedOk(bk: Book, home: Key -> TriedNo) {
    && |bk.tried| == TRIED_BUCKET_COUNT
    && (forall b, i :: 0 <= b < |bk.tried| && 0 <= i < |bk.tried[b]| ==>
          bk.tried[b][i] in bk.info && bk.info[bk.tried[b][i]].tried && home(bk.tried[b][i]) == b)
    && (forall b, i, j :: 0 <= b < |bk.tried| && 0 <= i < j < |bk.tried[b]| ==> bk.tried[b][i] != bk.tried[b][j])
    && (forall b :: 0 <= b < |bk.tried| ==> |bk.tried[b]| <= TRIED_BUCKET_SIZE)
  }

  /** Every address is accounted for, except that those in `loose` may be nowhere. */
  ghost predicate Accounted(bk: Book, home: Key -> TriedNo, loose: set<Key>)
    requires |bk.tried| == TRIED_BUCKET_COUNT
  {
    forall k :: k in bk.info ==>
      if bk.info[k].tried then bk.info[k].refs == 0 && k in bk.tried[home(k)]
      else bk.info[k].refs == Count(bk.buckets, k) <= NEW_BUCKETS_PER_ADDRESS && (bk.info[k].refs >= 1 || k in loose)
  }

  ghost predicate Counted(bk: Book) {
    bk.nNew == |Among(bk.info, false)| && bk.nTried == |Among(bk.info, true)|
  }

  ghost predicate Sane(bk: Book, home: Key -> TriedNo, loose: set<Key>) {
    NewOk(bk) && TriedOk(bk, home) && Accounted(bk, home, loose) && Counted(bk)
  }

  // ---------------------------------------------------------------- what that means

  /** The counters add up to the number of known addresses. */
  lemma {:induction false} CountersAddUp(bk: Book, home: Key -> TriedNo)
    requires Sane(bk, home, {})
    ensures bk.nNew + bk.nTried == |bk.info|
  {
    assert Among(bk.info, false) + Among(bk.info, true) == bk.info.Keys;
    assert Among(bk.info, false) !! Among(bk.info, true);
  }

  lemma {:induction false} CountZero(buckets: seq<set<Key>>, k: Key)
    ensures Count(buckets, k) == 0 <==> forall b :: 0 <= b < |buckets| ==> k !in buckets[b]
  {
    if buckets == [] {
    } else {
      CountZero(buckets[1..], k);
      assert forall b :: 0 < b < |buckets| ==> buckets[b] == buckets[1..][b - 1];
    }
  }

  /** There are 1024 new buckets of at most 65 addresses, and 64 tried lists of at most 256. */
  lemma {:induction false} Bounds(bk: Book, home: Key -> TriedNo)
    requires Sane(bk, home, {})
    ensures |bk.buckets| == 1024 && forall b :: 0 <= b < |bk.buckets| ==> |bk.buckets[b]| <= 65
    ensures |bk.tried| == 64 && forall b :: 0 <= b < |bk.tried| ==> |bk.tried[b]| <= 256
  {
  }

  ghost predicate Holds(bk: Book, b: int, i: int, k: Key) {
    0 <= b < |bk.tried| && 0 <= i < |bk.tried[b]| && bk.tried[b][i] == k
  }

  /**
    Where a key is: in no tried list and 1 to 8 new buckets, or in exactly one place of one tried list and no new
    bucket.
   */
  lemma {:induction false} EachInItsPlace(bk: Book, home: Key -> TriedNo, k: Key)
    requires Sane(bk, home, {}) && k in bk.info
    ensures bk.info[k].refs == Count(bk.buckets, k)
    ensures !bk.info[k].tried ==> 1 <= Count(bk.buckets, k) <= 8
    ensures !bk.info[k].tried ==> forall b :: 0 <= b < |bk.tried| ==> k !in bk.tried[b]
    ensures bk.info[k].tried ==> Count(bk.buckets, k) == 0 && k in bk.tried[home(k)]
    ensures bk.info[k].tried ==> forall b, i, c, j :: Holds(bk, b, i, k) && Holds(bk, c, j, k) ==> b == c && i == j
  {
    if bk.info[k].tried { CountZero(bk.buckets, k); }
  }

  lemma {:induction false} CountUpdate(buckets: seq<set<Key>>, b: nat, s: set<Key>, k: Key)
    requires b < |buckets|
    ensures Count(buckets[b := s], k) ==
            Count(buckets, k) + (if k in s then 1 else 0) - (if k in buckets[b] then 1 else 0)
  {
    if b == 0 {
      assert buckets[b := s][1..] == buckets[1..];
    } else {
      assert buckets[b := s][1..] == buckets[1..][b - 1 := s];
      CountUpdate(buckets[1..], b - 1, s, k);
    }
  }

  // ---------------------------------------------------------------- steps

  /** A new address, not in any bucket yet. */
  function AddKey(bk: Book, k: Key): Book {
    bk.(info := bk.info[k := Info(false, 0)], nNew := bk.nNew + 1)
  }

  function PutNew(bk: Book, b: nat, k: Key): Book
    requires b < |bk.buckets| && k in bk.info
  {
    bk.(info := bk.info[k := bk.info[k].(refs := bk.info[k].refs + 1)], buckets := bk.buckets[b := bk.buckets[b] + {k}])
  }

  function TakeNew(bk: Book, b: nat, k: Key): Book
    requires b < |bk.buckets| && k in bk.info
  {
    bk.(info := bk.info[k := bk.info[k].(refs := bk.info[k].refs - 1)], buckets := bk.buckets[b := bk.buckets[b] - {k}])
  }

  function DropKey(bk: Book, k: Key): Book {
    bk.(info := bk.info - {k}, nNew := bk.nNew - 1)
  }

  /** From nowhere to the end of its tried list. */
  function Promote(bk: Book, b: nat, k: Key): Book
    requires b < |bk.tried| && k in bk.info
  {
    bk.(info := bk.info[k := bk.info[k].(tried := true)], tried := bk.tried[b := bk.tried[b] + [k]],
      nNew := bk.nNew - 1, nTried := bk.nTried + 1)
  }

  /** From nowhere to place `i` of its tried list, the address that was there going to new bucket `nb`. */
  function Evict(bk: Book, b: nat, i: nat, k: Key, nb: nat): Book
    requires b < |bk.tried| && i < |bk.tried[b]| && k in bk.info && bk.tried[b][i] in bk.info && nb < |bk.buckets|
  {
    var rm := bk.tried[b][i];
    bk.(info := bk.info[k := bk.info[k].(tried := true)][rm := Info(false, bk.info[rm].refs + 1)],
        buckets := bk.buckets[nb := bk.buckets[nb] + {rm}], tried := bk.tried[b := bk.tried[b][i := k]])
  }

  /** The steps of it. */
  lemma {:induction false} EvictSteps(bk: Book, k: Key, b: nat, i: nat, nb: nat, refs: int, bk': Book)
    requires b < |bk.tried| && i < |bk.tried[b]| && nb < |bk.buckets| && k in bk.info && bk.tried[b][i] in bk.info
    requires bk.info[k] == Info(false, 0) && bk.info[bk.tried[b][i]].refs == refs
    requires bk' == bk.(info := bk.info[k := Info(true, 0)][bk.tried[b][i] := Info(false, refs + 1)],
                        tried := bk.tried[b := bk.tried[b][i := k]], nNew := bk.nNew + 1,
                        buckets := bk.buckets[nb := bk.buckets[nb] + {bk.tried[b][i]}])
    ensures bk' == Evict(bk.(nNew := bk.nNew + 1), b, i, k, nb)
  {
  }

  lemma {:induction false} AddKeySane(bk: Book, home: Key -> TriedNo, k: Key)
    requires Sane(bk, home, {}) && k !in bk.info
    ensures Sane(AddKey(bk, k), home, {k})
  {
    hide NewOk, TriedOk, Accounted, Among;
    AddKeyNew(bk, k);
    AddKeyTried(bk, home, k);
    AddKeyAccounted(bk, home, k);
    AddKeyAmong(bk.info, k);
  }

  lemma {:induction false} AddKeyAmong(info: map<Key, Info>, k: Key)
    requires k !in info
    ensures k !in Among(info, false) && Among(info[k := Info(false, 0)], false) == Among(info, false) + {k}
    ensures Among(info[k := Info(false, 0)], true) == Among(info, true)
  {
  }

  lemma {:induction false} AddKeyNew(bk: Book, k: Key)
    requires NewOk(bk) && k !in bk.info
    ensures NewOk(AddKey(bk, k))
  {
  }

  lemma {:induction false} AddKeyTried(bk: Book, home: Key -> TriedNo, k: Key)
    requires TriedOk(bk, home) && k !in bk.info
    ensures TriedOk(AddKey(bk, k), home) && |bk.tried| == TRIED_BUCKET_COUNT
  {
  }

  lemma {:induction false} AddKeyAccounted(bk: Book, home: Key -> TriedNo, k: Key)
    requires NewOk(bk) && |bk.tried| == TRIED_BUCKET_COUNT && Accounted(bk, home, {}) && k !in bk.info
    ensures Accounted(AddKey(bk, k), home, {k})
  {
    CountZero(bk.buckets, k);
  }

  lemma {:induction false} PutNewSane(bk: Book, home: Key -> TriedNo, loose: set<Key>, b: nat, k: Key)
    requires Sane(bk, home, loose) && b < |bk.buckets| && k in bk.info && !bk.info[k].tried
    requires k !in bk.buckets[b] && bk.info[k].refs < NEW_BUCKETS_PER_ADDRESS && |bk.buckets[b]| <= NEW_BUCKET_SIZE
    ensures Sane(PutNew(bk, b, k), home, loose - {k})
  {
    var bk' := PutNew(bk, b, k);
    forall j | j in bk.info ensures Count(bk'.buckets, j) == Count(bk.buckets, j) + (if j == k then 1 else 0) {
      CountUpdate(bk.buckets, b, bk.buckets[b] + {k}, j);
    }
    SameAmong(bk.info, bk'.info);
  }

  lemma {:induction false} TakeNewSane(bk: Book, home: Key -> TriedNo, loose: set<Key>, b: nat, k: Key)
    requires Sane(bk, home, loose) && b < |bk.buckets| && k in bk.buckets[b]
    ensures k in bk.info && Sane(TakeNew(bk, b, k), home, loose + {k})
  {
    var bk' := TakeNew(bk, b, k);
    forall j | j in bk.info ensures Count(bk'.buckets, j) == Count(bk.buckets, j) - (if j == k then 1 else 0) {
      CountUpdate(bk.buckets, b, bk.buckets[b] - {k}, j);
    }
    SameAmong(bk.info, bk'.info);
  }

  lemma {:induction false} SameAmong(info: map<Key, Info>, info': map<Key, Info>)
    requires forall k :: k in info <==> k in info'
    requires forall k :: k in info ==> info'[k].tried == info[k].tried
    ensures Among(info', false) == Among(info, false) && Among(info', true) == Among(info, true)
  {
  }

  lemma {:induction false} DropKeySane(bk: Book, home: Key -> TriedNo, loose: set<Key>, k: Key)
    requires Sane(bk, home, loose) && k in bk.info && !bk.info[k].tried && bk.info[k].refs == 0
    ensures Sane(DropKey(bk, k), home, loose - {k})
  {
    var bk' := DropKey(bk, k);
    CountZero(bk.buckets, k);
    assert Among(bk'.info, false) == Among(bk.info, false) - {k};
    assert Among(bk'.info, true) == Among(bk.info, true);
  }

  /** An address that is in a bucket is not loose. */
  lemma {:induction false} TightenSane(bk: Book, home: Key -> TriedNo, loose: set<Key>, k: Key)
    requires Sane(bk, home, loose) && (k in bk.info ==> bk.info[k].refs != 0)
    ensures Sane(bk, home, loose - {k})
  {
  }

  lemma {:induction false} LoosenSane(bk: Book, home: Key -> TriedNo, loose: set<Key>, more: set<Key>)
    requires Sane(bk, home, loose) && loose <= more
    ensures Sane(bk, home, more)
  {
  }

  lemma {:induction false} PromoteSane(bk: Book, home: Key -> TriedNo, k: Key, b: nat)
    requires Sane(bk, home, {k}) && k in bk.info && !bk.info[k].tried && bk.info[k].refs == 0
    requires b == home(k) && |bk.tried[b]| < TRIED_BUCKET_SIZE
    ensures Sane(Promote(bk, b, k), home, {})
  {
    hide NewOk, Accounted, Count;
    Nowhere(bk, home, k);
    PromoteTried(bk, home, k, b);
    PromoteAccounted(bk, home, k, b);
    PromoteNew(bk, home, k, b);
    var bk' := Promote(bk, b, k);
    MoveAmong(bk.info, bk'.info, k, k);
  }

  /** An untried address without references is in no bucket and in no list. */
  lemma {:induction false} Nowhere(bk: Book, home: Key -> TriedNo, k: Key)
    requires Sane(bk, home, {k}) && k in bk.info && !bk.info[k].tried && bk.info[k].refs == 0
    ensures forall b :: 0 <= b < |bk.buckets| ==> k !in bk.buckets[b]
    ensures forall b :: 0 <= b < |bk.tried| ==> k !in bk.tried[b]
  {
    CountZero(bk.buckets, k);
  }

  lemma {:induction false} PromoteNew(bk: Book, home: Key -> TriedNo, k: Key, b: nat)
    requires NewOk(bk) && b < |bk.tried| && k in bk.info && forall c :: 0 <= c < |bk.buckets| ==> k !in bk.buckets[c]
    ensures NewOk(Promote(bk, b, k))
  {
  }

  lemma {:induction false} PromoteTried(bk: Book, home: Key -> TriedNo, k: Key, b: nat)
    requires TriedOk(bk, home) && k in bk.info && b == home(k) && |bk.tried[b]| < TRIED_BUCKET_SIZE
    requires forall c :: 0 <= c < |bk.tried| ==> k !in bk.tried[c]
    ensures TriedOk(Promote(bk, b, k), home)
  {
  }

  lemma {:induction false} PromoteAccounted(bk: Book, home: Key -> TriedNo, k: Key, b: nat)
    requires |bk.tried| == TRIED_BUCKET_COUNT && Accounted(bk, home, {k}) && k in bk.info && bk.info[k].refs == 0
      && b == home(k)
    ensures Accounted(Promote(bk, b, k), home, {})
  {
    var bk' := Promote(bk, b, k);
    assert bk'.tried[b][|bk.tried[b]|] == k;
    forall j | j in bk.info && bk.info[j].tried ensures j in bk'.tried[home(j)] {
      var i :| 0 <= i < |bk.tried[home(j)]| && bk.tried[home(j)][i] == j;
      assert bk'.tried[home(j)][i] == j;
    }
  }

  /** `k` becomes tried, and `rm`, if it is another one, untried. */
  lemma {:induction false} MoveAmong(info: map<Key, Info>, info': map<Key, Info>, k: Key, rm: Key)
    requires k in info && !info[k].tried && rm in info && (rm == k || info[rm].tried)
    requires forall j :: j in info <==> j in info'
    requires forall j :: j in info ==>
      info'[j].tried == if j == k then true else if j == rm then false else info[j].tried
    ensures |Among(info', false)| == |Among(info, false)| - (if rm == k then 1 else 0)
    ensures |Among(info', true)| == |Among(info, true)| + (if rm == k then 1 else 0)
  {
    AmongMoves(info, info', true, {k}, {rm} - {k});
    AmongMoves(info, info', false, {rm} - {k}, {k});
  }

  lemma {:induction false} AmongMoves(info: map<Key, Info>, info': map<Key, Info>, v: bool, come: set<Key>,
                                      go: set<Key>)
    requires (forall j :: j in info <==> j in info') && come <= info.Keys && go <= Among(info, v)
      && come !! Among(info, v)
    requires forall j :: j in info ==> (info'[j].tried == v <==> j in come || (info[j].tried == v && j !in go))
    ensures |Among(info', v)| == |Among(info, v)| + |come| - |go|
  {
    assert Among(info', v) == (Among(info, v) - go) + come;
  }

  lemma {:induction false} EvictSane(bk: Book, home: Key -> TriedNo, k: Key, b: nat, i: nat, nb: nat)
    requires Sane(bk, home, {k}) && k in bk.info && !bk.info[k].tried && bk.info[k].refs == 0
    requires b == home(k) && i < |bk.tried[b]| && nb < |bk.buckets| && |bk.buckets[nb]| <= NEW_BUCKET_SIZE
    ensures bk.tried[b][i] in bk.info && Sane(Evict(bk, b, i, k, nb), home, {})
  {
    var rm := bk.tried[b][i];
    hide NewOk, Accounted, Count;
    Nowhere(bk, home, k);
    assert rm in bk.info && bk.info[rm].tried && home(rm) == b by { InList(bk, home, b, i); }
    EvictNew(bk, home, k, b, i, nb);
    EvictTried(bk, home, k, b, i, nb);
    EvictAccounted(bk, home, k, b, i, nb);
    var bk' := Evict(bk, b, i, k, nb);
    MoveAmong(bk.info, bk'.info, k, rm);
  }

  lemma {:induction false} InList(bk: Book, home: Key -> TriedNo, b: nat, i: nat)
    requires TriedOk(bk, home) && b < |bk.tried| && i < |bk.tried[b]|
    ensures bk.tried[b][i] in bk.info && bk.info[bk.tried[b][i]].tried && home(bk.tried[b][i]) == b
  {
  }

  lemma {:induction false} EvictNew(bk: Book, home: Key -> TriedNo, k: Key, b: nat, i: nat, nb: nat)
    requires NewOk(bk) && b < |bk.tried| && i < |bk.tried[b]| && nb < |bk.buckets|
      && |bk.buckets[nb]| <= NEW_BUCKET_SIZE
    requires k in bk.info && bk.tried[b][i] in bk.info && k != bk.tried[b][i]
    requires forall c :: 0 <= c < |bk.buckets| ==> k !in bk.buckets[c]
    ensures NewOk(Evict(bk, b, i, k, nb))
  {
  }

  lemma {:induction false} EvictTried(bk: Book, home: Key -> TriedNo, k: Key, b: nat, i: nat, nb: nat)
    requires TriedOk(bk, home) && b == home(k) && i < |bk.tried[b]| && nb < |bk.buckets|
    requires k in bk.info && bk.tried[b][i] in bk.info && k != bk.tried[b][i]
    requires forall c :: 0 <= c < |bk.tried| ==> k !in bk.tried[c]
    ensures TriedOk(Evict(bk, b, i, k, nb), home)
  {
    var rm, bk' := bk.tried[b][i], Evict(bk, b, i, k, nb);
    forall c, j | 0 <= c < |bk'.tried| && 0 <= j < |bk'.tried[c]|
      ensures bk'.tried[c][j] in bk'.info && bk'.info[bk'.tried[c][j]].tried && home(bk'.tried[c][j]) == c
    {
      if !(c == b && j == i) {
        assert bk'.tried[c][j] == bk.tried[c][j] != rm;
      }
    }
  }

  lemma {:induction false} EvictAccounted(bk: Book, home: Key -> TriedNo, k: Key, b: nat, i: nat, nb: nat)
    requires |bk.tried| == TRIED_BUCKET_COUNT && Accounted(bk, home, {k}) && k in bk.info && !bk.info[k].tried
      && bk.info[k].refs == 0
    requires b == home(k) && i < |bk.tried[b]| && nb < |bk.buckets| && NewOk(bk)
    requires bk.tried[b][i] in bk.info && bk.info[bk.tried[b][i]].tried
    ensures Accounted(Evict(bk, b, i, k, nb), home, {})
  {
    var rm, bk' := bk.tried[b][i], Evict(bk, b, i, k, nb);
    CountZero(bk.buckets, rm);
    forall j | j in bk.info ensures Count(bk'.buckets, j) == Count(bk.buckets, j) + (if j == rm then 1 else 0) {
      CountUpdate(bk.buckets, nb, bk.buckets[nb] + {rm}, j);
    }
    assert bk'.tried[b][i] == k;
    forall j | j in bk.info && bk.info[j].tried && j != rm ensures j in bk'.tried[home(j)] {
      var x :| 0 <= x < |bk.tried[home(j)]| && bk.tried[home(j)][x] == j;
      assert bk'.tried[home(j)][x] == j;
    }
  }
}
