/** The address manager: known addresses shared by an index, the new buckets and the tried lists. */
module AddrMgr {
  import opened AddrBook
  import opened Options

  type Time = int

  const MINUTE := 60
  const DAY := 86400

  /** A known address. Its network address may be replaced, but never its key. */
  class KnownAddress {
    const key: Key
    var timestamp: Time
    var attempts: int
    /** `None` before the first attempt, and the first success. */
    var lastAttempt: Option<Time>
    var lastSuccess: Option<Time>
    var tried: bool
    var refs: int

    constructor (key: Key, timestamp: Time)
      ensures this.key == key && this.timestamp == timestamp && !tried && refs == 0
      ensures attempts == 0 && lastAttempt == None && lastSuccess == None
    {
      this.key, this.timestamp := key, timestamp;
      attempts, lastAttempt, lastSuccess := 0, None, None;
      tried, refs := false, 0;
    }

    /** `isBad`. */
    predicate IsBad(now: Time)
      reads this
    {
      if lastAttempt.Some? && lastAttempt.value > now - MINUTE then false
      else if timestamp > now + 10 * MINUTE then true
      else if timestamp < now - 30 * DAY then true
      else if lastSuccess == None && attempts >= 3 then true
      else (lastSuccess == None || lastSuccess.value <= now - 7 * DAY) && attempts >= 10
    }

    /** An address that was tried within the last minute is not bad. */
    lemma {:induction false} JustTried(now: Time)
      requires lastAttempt.Some? && now - 60 < lastAttempt.value
      ensures !IsBad(now)
    {
    }

    /**
      Any other is bad if and only if it claims to be from more than ten minutes ahead, was not seen for thirty days,
      has failed three times and never succeeded, or has failed ten times and not succeeded within the week.
     */
    lemma {:induction false} BadExactly(now: Time)
      requires lastAttempt == None || lastAttempt.value <= now - 60
      ensures IsBad(now) <==>
        || timestamp > now + 600 || timestamp < now - 2592000
        || (attempts >= 3 && lastSuccess == None)
        || (attempts >= 10 && (lastSuccess == None || lastSuccess.value <= now - 604800))
    {
    }
  }

  function KeysOf(l: seq<KnownAddress>): (ks: seq<Key>)
    ensures |ks| == |l| && forall i :: 0 <= i < |l| ==> ks[i] == l[i].key
  {
    seq(|l|, i requires 0 <= i < |l| => l[i].key)
  }

  class AddrManager {
    var addrIndex: map<Key, KnownAddress>
    var addrNew: seq<map<Key, KnownAddress>>
    var addrTried: seq<seq<KnownAddress>>
    var nTried: int
    var nNew: int
    /** `getTriedBucket`, which depends on the address only. */
    var home: Key -> TriedNo

    /** The pointers agree: an address has one object, filed under its key wherever it is. */
    ghost predicate Filed()
      reads this
    {
      && (forall k :: k in addrIndex ==> addrIndex[k].key == k)
      && (forall b, k :: 0 <= b < |addrNew| && k in addrNew[b] ==> k in addrIndex && addrNew[b][k] == addrIndex[k])
      && (forall b, i :: 0 <= b < |addrTried| && 0 <= i < |addrTried[b]| ==>
            addrTried[b][i].key in addrIndex && addrIndex[addrTried[b][i].key] == addrTried[b][i])
    }

    ghost function Books(): Book
      reads this, addrIndex.Values
    {
      Book(map k | k in addrIndex :: Info(addrIndex[k].tried, addrIndex[k].refs),
           seq(|addrNew|, b requires 0 <= b < |addrNew| reads this => addrNew[b].Keys),
           seq(|addrTried|, b requires 0 <= b < |addrTried| reads this => KeysOf(addrTried[b])), nNew, nTried)
    }

    ghost predicate Inv()
      reads this, addrIndex.Values
    {
      Filed() && Sane(Books(), home, {})
    }

    /** `New`. */
    constructor (home: Key -> TriedNo)
      ensures Inv() && addrIndex == map[]
    {
      this.home := home;
      addrIndex := map[];
      addrNew := seq(NEW_BUCKET_COUNT, _ => map[]);
      addrTried := seq(TRIED_BUCKET_COUNT, _ => []);
      nTried, nNew := 0, 0;
      new;
      assert Among(Books().info, true) == {} == Among(Books().info, false);
    }

    /** Take an address out of a new bucket. */
    method TakeOut(bucket: nat, k: Key, v: KnownAddress, ghost loose: set<Key>)
      requires Filed() && Sane(Books(), home, loose) && bucket < |addrNew| && k in addrNew[bucket]
        && addrNew[bucket][k] == v
      modifies this`addrNew, v`refs
      ensures Filed() && Sane(Books(), home, loose + {k}) && Books() == TakeNew(old(Books()), bucket, k)
      ensures addrNew == old(addrNew)[bucket := old(addrNew)[bucket] - {k}]
    {
      hide NewOk, TriedOk, Accounted, Counted;
      ghost var bk := Books();
      addrNew := addrNew[bucket := addrNew[bucket] - {k}];
      v.refs := v.refs - 1;
      TakeNewSane(bk, home, loose, bucket, k);
      assert Books().info == TakeNew(bk, bucket, k).info;
      assert Books().buckets == TakeNew(bk, bucket, k).buckets && Books().tried == bk.tried;
      assert Books() == TakeNew(bk, bucket, k);
    }

    /** Forget an address that is in no bucket any more. */
    method Forget(k: Key, ghost loose: set<Key>)
      requires Filed() && Sane(Books(), home, loose) && k in addrIndex && !addrIndex[k].tried && addrIndex[k].refs == 0
      modifies this`addrIndex, this`nNew
      ensures Filed() && Sane(Books(), home, loose - {k}) && addrIndex == old(addrIndex) - {k}
    {
      hide NewOk, TriedOk, Accounted, Counted;
      ghost var bk := Books();
      assert bk.info[k] == Info(false, 0);
      Unheld(k, loose);
      nNew := nNew - 1;
      addrIndex := addrIndex - {k};
      DropKeySane(bk, home, loose, k);
      assert Books().info == DropKey(bk, k).info && Books().buckets == bk.buckets && Books().tried == bk.tried;
      assert Books() == DropKey(bk, k);
    }

    /** An address without references is not in any bucket or list. */
    lemma {:induction false} Unheld(k: Key, loose: set<Key>)
      requires Filed() && Sane(Books(), home, loose) && k in addrIndex && !addrIndex[k].tried && addrIndex[k].refs == 0
      ensures forall b :: 0 <= b < |addrNew| ==> k !in addrNew[b]
      ensures forall b, i :: 0 <= b < |addrTried| && 0 <= i < |addrTried[b]| ==> addrTried[b][i].key != k
    {
      var bk := Books();
      assert bk.info[k] == Info(false, 0);
      CountZero(bk.buckets, k);
      forall b | 0 <= b < |addrNew| ensures k !in addrNew[b] { assert k !in bk.buckets[b]; }
      forall b, i | 0 <= b < |addrTried| && 0 <= i < |addrTried[b]| ensures addrTried[b][i].key != k {
        assert bk.tried[b][i] == addrTried[b][i].key;
      }
    }

    /** Expire one address of a bucket; it is forgotten when that was its last bucket. */
    method Remove(bucket: nat, k: Key, v: KnownAddress, ghost loose: set<Key>)
      requires Filed() && Sane(Books(), home, loose) && bucket < |addrNew| && k in addrNew[bucket]
        && addrNew[bucket][k] == v && k !in loose
      modifies this`addrNew, this`addrIndex, this`nNew, v`refs
      ensures Filed() && Sane(Books(), home, loose)
      ensures addrNew == old(addrNew)[bucket := old(addrNew)[bucket] - {k}]
      ensures addrIndex == if v.refs == 0 then old(addrIndex) - {k} else old(addrIndex)
    {
      hide NewOk, TriedOk, Accounted, Counted;
      Untried(bucket, k, loose);
      TakeOut(bucket, k, v, loose);
      if v.refs == 0 {
        Forget(k, loose + {k});
      } else {
        TightenSane(Books(), home, loose + {k}, k);
      }
      assert loose + {k} - {k} == loose;
    }

    lemma {:induction false} Untried(bucket: nat, k: Key, loose: set<Key>)
      requires Filed() && Sane(Books(), home, loose) && bucket < |addrNew| && k in addrNew[bucket]
      ensures k in addrIndex && !addrIndex[k].tried
    {
      assert k in Books().buckets[bucket];
      assert Books().info[k] == Info(addrIndex[k].tried, addrIndex[k].refs);
    }

    /** Only addresses of `bucket` are missing from the index, and the rest of the bucket is as it was. */
    ghost predicate Shrunk(index: map<Key, KnownAddress>, bucket: map<Key, KnownAddress>, left: map<Key, KnownAddress>)
      reads this
    {
      && (forall k :: k in addrIndex ==> k in index && addrIndex[k] == index[k])
      && (forall k :: k in index ==> k in addrIndex || k in bucket)
      && (forall k :: k in left ==> k in bucket && left[k] == bucket[k])
    }

    /** Expire one address in the course of a traversal. */
    method RemoveOne(bucket: nat, k: Key, v: KnownAddress, now: Time, ghost loose: set<Key>,
                     ghost start: map<Key, KnownAddress>, ghost index: map<Key, KnownAddress>, ghost t: Traversal)
      requires Filed() && Sane(Books(), home, loose) && bucket < |addrNew| && k in addrNew[bucket]
        && addrNew[bucket][k] == v && k !in loose
      requires Shrunk(index, start, addrNew[bucket]) && Surveys(t, start, now)
      modifies this`addrNew, this`addrIndex, this`nNew, v`refs
      ensures Filed() && Sane(Books(), home, loose) && |addrNew| == old(|addrNew|)
      ensures addrNew == old(addrNew)[bucket := addrNew[bucket]]
        && addrNew[bucket].Keys == old(addrNew[bucket]).Keys - {k}
      ensures Shrunk(index, start, addrNew[bucket]) && Surveys(t, start, now)
    {
      hide Sane, Books, Filed;
      Remove(bucket, k, v, loose);
    }

    /** One address visited by `expireNew`. */
    method ExpireOne(bucket: nat, k: Key, v: KnownAddress, now: Time, oldest: Option<Key>, ghost loose: set<Key>,
                     ghost start: map<Key, KnownAddress>, ghost index: map<Key, KnownAddress>, ghost t: Traversal)
      returns (oldest': Option<Key>)
      requires Filed() && Sane(Books(), home, loose) && bucket < |addrNew| && k in addrNew[bucket]
        && addrNew[bucket][k] == v && k !in loose
      requires Shrunk(index, start, addrNew[bucket]) && Surveys(t, start, now)
      requires Expiring(t, addrNew[bucket].Keys, oldest) && k in t.todo
      modifies this`addrNew, this`addrIndex, this`nNew, v`refs
      ensures Filed() && Sane(Books(), home, loose) && |addrNew| == old(|addrNew|)
      ensures addrNew == old(addrNew)[bucket := addrNew[bucket]] && Shrunk(index, start, addrNew[bucket])
      ensures Surveys(t.(todo := t.todo - {k}), start, now)
        && Expiring(t.(todo := t.todo - {k}), addrNew[bucket].Keys, oldest')
    {
      hide Sane, Books, Filed, Expiring;
      assert v == start[k] && (v.IsBad(now) <==> k in t.bad) && v.timestamp == t.times[k];
      if v.IsBad(now) {
        RemoveOne(bucket, k, v, now, loose, start, index, t);
        VisitBad(t, old(addrNew[bucket]).Keys, oldest, k);
        return oldest;
      }
      VisitGood(t, addrNew[bucket].Keys, oldest, k);
      if oldest == None || v.timestamp <= addrNew[bucket][oldest.value].timestamp {
        return Some(k);
      }
      return oldest;
    }

    /** The traversal of `expireNew`. */
    method ExpireBad(bucket: nat, now: Time, ghost loose: set<Key>) returns (oldest: Option<Key>, ghost t: Traversal)
      requires Filed() && Sane(Books(), home, loose) && bucket < |addrNew|
        && forall k :: k in addrNew[bucket] ==> k !in loose
      modifies this`addrNew, this`addrIndex, this`nNew, addrNew[bucket].Values`refs
      ensures Filed() && Sane(Books(), home, loose) && |addrNew| == old(|addrNew|)
      ensures addrNew == old(addrNew)[bucket := addrNew[bucket]]
        && Shrunk(old(addrIndex), old(addrNew[bucket]), addrNew[bucket])
      ensures t.todo == {} && Surveys(t, old(addrNew[bucket]), now) && Expiring(t, addrNew[bucket].Keys, oldest)
    {
      hide Sane, Books, Filed, Expiring, Surveys;
      ghost var start := addrNew[bucket];
      t := Survey(start, now);
      var todo := addrNew[bucket].Keys;
      oldest := None;
      while todo != {}
        invariant Filed() && Sane(Books(), home, loose) && |addrNew| == old(|addrNew|)
        invariant addrNew == old(addrNew)[bucket := addrNew[bucket]] && Shrunk(old(addrIndex), start, addrNew[bucket])
        invariant t.todo == todo && Surveys(t, start, now) && Expiring(t, addrNew[bucket].Keys, oldest)
      {
        var k :| k in todo;
        Unvisited(t, addrNew[bucket].Keys, oldest, k);
        oldest := ExpireOne(bucket, k, addrNew[bucket][k], now, oldest, loose, start, old(addrIndex), t);
        todo := todo - {k};
        t := t.(todo := todo);
      }
    }

    /** `expireNew`: what goes is what is bad, and the oldest of the rest. */
    method ExpireNew(bucket: nat, now: Time, ghost loose: set<Key>)
      returns (ghost t: Traversal, ghost oldest: Option<Key>)
      requires Filed() && Sane(Books(), home, loose) && bucket < |addrNew|
        && forall k :: k in addrNew[bucket] ==> k !in loose
      modifies this`addrNew, this`addrIndex, this`nNew, addrNew[bucket].Values`refs
      ensures Filed() && Sane(Books(), home, loose) && |addrNew| == old(|addrNew|)
      ensures addrNew == old(addrNew)[bucket := addrNew[bucket]]
        && Shrunk(old(addrIndex), old(addrNew[bucket]), addrNew[bucket])
      ensures Surveys(t, old(addrNew[bucket]), now) && Expired(t, addrNew[bucket].Keys, oldest)
    {
      hide Sane, Books, Filed, Surveys;
      var last;
      last, t := ExpireBad(bucket, now, loose);
      oldest := last;
      if last.Some? {
        RemoveOne(bucket, last.value, addrNew[bucket][last.value], now, loose, old(addrNew[bucket]), old(addrIndex), t);
      }
    }

    /** Put an address into a new bucket it is not in. */
    method PutIn(bucket: nat, addr: Key, ka: KnownAddress)
      requires Filed() && Sane(Books(), home, {addr}) && bucket < |addrNew| && addr in addrIndex
        && addrIndex[addr] == ka
      requires addr !in addrNew[bucket] && !ka.tried && ka.refs < NEW_BUCKETS_PER_ADDRESS
        && |addrNew[bucket].Keys| <= NEW_BUCKET_SIZE
      modifies this`addrNew, ka`refs
      ensures Inv() && addrNew == old(addrNew)[bucket := old(addrNew)[bucket][addr := ka]]
        && ka.refs == old(ka.refs) + 1
    {
      hide NewOk, TriedOk, Accounted, Counted, Filed;
      ghost var bk := Books();
      ghost var bk' := PutNew(bk, bucket, addr);
      PutNewSane(bk, home, {addr}, bucket, addr);
      AddRef(addr, ka);
      SetBucket(bucket, addr, ka);
      assert Books() == bk' && {addr} - {addr} == {};
    }

    method AddRef(addr: Key, ka: KnownAddress)
      requires Filed() && addr in addrIndex && addrIndex[addr] == ka
      modifies ka`refs
      ensures Filed() && ka.refs == old(ka.refs) + 1
      ensures Books() == old(Books()).(info := old(Books()).info[addr := Info(ka.tried, ka.refs)])
    {
      ghost var bk := Books();
      ka.refs := ka.refs + 1;
      assert Books().info == bk.info[addr := Info(ka.tried, ka.refs)];
      assert Books().buckets == bk.buckets && Books().tried == bk.tried;
    }

    method SetBucket(bucket: nat, addr: Key, ka: KnownAddress)
      requires Filed() && bucket < |addrNew| && addr in addrIndex && addrIndex[addr] == ka
      modifies this`addrNew
      ensures Filed() && addrNew == old(addrNew)[bucket := old(addrNew)[bucket][addr := ka]]
      ensures Books() == old(Books()).(buckets := old(Books()).buckets[bucket := old(Books()).buckets[bucket] + {addr}])
    {
      ghost var bk := Books();
      addrNew := addrNew[bucket := addrNew[bucket][addr := ka]];
      assert addrNew[bucket].Keys == old(addrNew[bucket]).Keys + {addr};
      assert Books().buckets == bk.buckets[bucket := bk.buckets[bucket] + {addr}] && Books().tried == bk.tried;
    }

    /** The addresses of a bucket are known, and none is the object of an address that is not in it. */
    lemma {:induction false} BucketValues(bucket: nat, addr: Key)
      requires Filed() && bucket < |addrNew| && addr in addrIndex
      ensures addrNew[bucket].Values <= addrIndex.Values
      ensures addr !in addrNew[bucket] ==> addrIndex[addr] !in addrNew[bucket].Values
    {
      forall v | v in addrNew[bucket].Values
        ensures v in addrIndex.Values && (addr !in addrNew[bucket] ==> v != addrIndex[addr])
      {
        var k :| k in addrNew[bucket] && addrNew[bucket][k] == v;
        assert addrIndex[k] == v && v.key == k && addrIndex[addr].key == addr;
      }
    }

    /** A full bucket loses at least one address. */
    method MakeRoom(addr: Key, ka: KnownAddress, bucket: nat, now: Time)
      returns (ghost t: Traversal, ghost oldest: Option<Key>)
      requires Filed() && Sane(Books(), home, {addr}) && bucket < |addrNew| && addr in addrIndex
        && addrIndex[addr] == ka
      requires addr !in addrNew[bucket] && addrNew[bucket].Keys != {}
      modifies this`addrNew, this`addrIndex, this`nNew, addrNew[bucket].Values`refs
      ensures Filed() && Sane(Books(), home, {addr}) && |addrNew| == old(|addrNew|) && addr in addrIndex
        && addrIndex[addr] == ka
      ensures addr !in addrNew[bucket] && |addrNew[bucket].Keys| <= NEW_BUCKET_SIZE && ka.refs == old(ka.refs)
      ensures forall k :: k in addrIndex ==> k in old(addrIndex) && addrIndex[k] == old(addrIndex)[k]
      ensures forall k :: k in old(addrIndex) ==> k in addrIndex || k in old(addrNew[bucket])
      ensures addrNew == old(addrNew)[bucket := addrNew[bucket]]
      ensures Surveys(t, old(addrNew[bucket]), now) && Expired(t, addrNew[bucket].Keys, oldest)
      ensures forall k :: k in addrNew[bucket] ==>
        k in old(addrNew[bucket]) && addrNew[bucket][k] == old(addrNew[bucket])[k]
    {
      hide NewOk, TriedOk, Accounted, Counted, Books;
      BucketSize(bucket, {addr});
      BucketValues(bucket, addr);
      t, oldest := ExpireNew(bucket, now, {addr});
      ExpiredSmaller(t, addrNew[bucket].Keys, oldest);
    }

    /** The second half of `updateAddress`: an address that may go into one more new bucket. */
    method FileNew(addr: Key, ka: KnownAddress, bucket: nat, now: Time)
      returns (ghost t: Traversal, ghost oldest: Option<Key>)
      requires Filed() && Sane(Books(), home, {addr}) && bucket < |addrNew| && addr in addrIndex
        && addrIndex[addr] == ka
      requires !ka.tried && ka.refs < NEW_BUCKETS_PER_ADDRESS
      modifies this`addrNew, this`addrIndex, this`nNew, addrIndex.Values`refs
      ensures Inv() && addr in addrIndex && addrIndex[addr] == ka && addr in addrNew[bucket]
      ensures forall k :: k in addrIndex ==> k in old(addrIndex) && addrIndex[k] == old(addrIndex)[k]
      ensures forall k :: k in old(addrIndex) ==> k in addrIndex || k in old(addrNew[bucket])
      ensures addrNew == old(addrNew)[bucket := addrNew[bucket]] && addrNew[bucket][addr] == ka
      ensures Surveys(t, old(addrNew[bucket]), now) && FiledIn(old(addrNew[bucket]), addrNew[bucket], addr, t, oldest)
    {
      hide Sane, Books, Expired, Surveys;
      t := Survey(addrNew[bucket], now);
      oldest := None;
      if addr in addrNew[bucket] {
        Placed(bucket, addr);
        return;
      }
      t, oldest := FileIn(addr, ka, bucket, now);
    }

    /** The same, the address not being in the bucket yet. */
    method FileIn(addr: Key, ka: KnownAddress, bucket: nat, now: Time)
      returns (ghost t: Traversal, ghost oldest: Option<Key>)
      requires Filed() && Sane(Books(), home, {addr}) && bucket < |addrNew| && addr in addrIndex
        && addrIndex[addr] == ka
      requires addr !in addrNew[bucket] && !ka.tried && ka.refs < NEW_BUCKETS_PER_ADDRESS
      modifies this`addrNew, this`addrIndex, this`nNew, addrIndex.Values`refs
      ensures Inv() && addr in addrIndex && addrIndex[addr] == ka && addr in addrNew[bucket]
      ensures forall k :: k in addrIndex ==> k in old(addrIndex) && addrIndex[k] == old(addrIndex)[k]
      ensures forall k :: k in old(addrIndex) ==> k in addrIndex || k in old(addrNew[bucket])
      ensures addrNew == old(addrNew)[bucket := addrNew[bucket]] && addrNew[bucket][addr] == ka
      ensures Surveys(t, old(addrNew[bucket]), now) && FiledIn(old(addrNew[bucket]), addrNew[bucket], addr, t, oldest)
    {
      hide Sane, Books, Filed, Expired, FiledIn, Surveys;
      BucketValues(bucket, addr);
      t, oldest := EnsureRoom(addr, ka, bucket, now);
      NowIn(old(addrNew[bucket]), addrNew[bucket], addr, ka, t, oldest);
      PutIn(bucket, addr, ka);
    }

    method EnsureRoom(addr: Key, ka: KnownAddress, bucket: nat, now: Time)
      returns (ghost t: Traversal, ghost oldest: Option<Key>)
      requires Filed() && Sane(Books(), home, {addr}) && bucket < |addrNew| && addr in addrIndex
        && addrIndex[addr] == ka
      requires addr !in addrNew[bucket] && addrNew[bucket].Values <= addrIndex.Values && ka !in addrNew[bucket].Values
      modifies this`addrNew, this`addrIndex, this`nNew, addrNew[bucket].Values`refs
      ensures Filed() && Sane(Books(), home, {addr}) && |addrNew| == old(|addrNew|) && addr in addrIndex
        && addrIndex[addr] == ka
      ensures addr !in addrNew[bucket] && |addrNew[bucket].Keys| <= NEW_BUCKET_SIZE && ka.refs == old(ka.refs)
      ensures forall k :: k in addrIndex ==> k in old(addrIndex) && addrIndex[k] == old(addrIndex)[k]
      ensures forall k :: k in old(addrIndex) ==> k in addrIndex || k in old(addrNew[bucket])
      ensures addrNew == old(addrNew)[bucket := addrNew[bucket]] && Surveys(t, old(addrNew[bucket]), now)
      ensures if |old(addrNew[bucket]).Keys| > NEW_BUCKET_SIZE then Expired(t, addrNew[bucket].Keys, oldest)
        else addrNew[bucket] == old(addrNew[bucket])
      ensures forall k :: k in addrNew[bucket] ==>
        k in old(addrNew[bucket]) && addrNew[bucket][k] == old(addrNew[bucket])[k]
    {
      hide Sane, Books, Filed, Expired, Surveys;
      t := Survey(addrNew[bucket], now);
      oldest := None;
      if |addrNew[bucket].Keys| > NEW_BUCKET_SIZE {
        t, oldest := MakeRoom(addr, ka, bucket, now);
      }
    }

    /** An address that is in a bucket is accounted for. */
    lemma {:induction false} Placed(bucket: nat, addr: Key)
      requires Filed() && Sane(Books(), home, {addr}) && bucket < |addrNew| && addr in addrNew[bucket]
      ensures Inv()
    {
      var bk := Books();
      assert addr in bk.buckets[bucket];
      CountZero(bk.buckets, addr);
      TightenSane(bk, home, {addr}, addr);
      assert {addr} - {addr} == {};
    }

    lemma {:induction false} BucketSize(bucket: nat, loose: set<Key>)
      requires Sane(Books(), home, loose) && bucket < |addrNew|
      ensures |addrNew[bucket].Keys| <= NEW_BUCKET_SIZE + 1
    {
      assert Books().buckets[bucket] == addrNew[bucket].Keys;
    }

    /**
      `updateAddress`: afterwards the address is known. `draw` is the random number, `bucket` the
      value of `getNewBucket`. Only addresses expired from that bucket can have been forgotten.
     */
    method UpdateAddress(addr: Key, timestamp: Time, newServices: bool, bucket: nat, draw: nat, now: Time)
      returns (ghost t: Traversal, ghost oldest: Option<Key>)
      requires Inv() && bucket < NEW_BUCKET_COUNT
      modifies this`addrIndex, this`addrNew, this`nNew, addrIndex.Values`refs, addrIndex.Values`timestamp
      ensures Inv() && addr in addrIndex
      ensures forall k :: k in addrIndex && k != addr ==> k in old(addrIndex)
      ensures forall k :: k in addrIndex && k in old(addrIndex) ==> addrIndex[k] == old(addrIndex)[k]
      ensures forall k :: k in old(addrIndex) ==>
        k in addrIndex || (bucket < old(|addrNew|) && k in old(addrNew)[bucket])
      ensures addrIndex[addr].timestamp ==
        if addr in old(addrIndex) && timestamp <= old(addrIndex[addr].timestamp) && !newServices
        then old(addrIndex[addr].timestamp) else timestamp
      ensures bucket < |addrNew| == old(|addrNew|) && addrNew == old(addrNew)[bucket := addrNew[bucket]]
      ensures addr in old(addrIndex) && old(Settled(addr, draw)) ==>
        addrNew == old(addrNew) && addrIndex == old(addrIndex)
      ensures !(addr in old(addrIndex) && old(Settled(addr, draw))) ==>
        Surveys(t, old(addrNew[bucket]), now) && FiledIn(old(addrNew[bucket]), addrNew[bucket], addr, t, oldest)
      ensures addr !in old(addrIndex) ==> addr in addrNew[bucket]
      ensures addr in old(addrIndex) && !old(addrIndex[addr].tried) && 0 < old(addrIndex[addr].refs) < 8 ==>
        draw % (2 * old(addrIndex[addr].refs)) == 0 ==> addr in addrNew[bucket]
    {
      hide NewOk, TriedOk, Accounted, Counted, Books;
      NewCount();
      t := Survey(addrNew[bucket], now);
      oldest := None;
      if addr in addrIndex {
        var ka := addrIndex[addr];
        if timestamp > ka.timestamp || newServices {
          ka.timestamp := timestamp;
          assert Books() == old(Books()) by { SameBooks(); }
        }
        if ka.tried {
          return;
        }
        if ka.refs == NEW_BUCKETS_PER_ADDRESS {
          return;
        }
        Referenced(addr);
        var factor := 2 * ka.refs;
        if draw % factor != 0 {
          return;
        }
        LoosenSane(Books(), home, {}, {addr});
        t, oldest := FileNew(addr, ka, bucket, now);
      } else {
        var ka := new KnownAddress(addr, timestamp);
        Introduce(addr, ka);
        t, oldest := FileNew(addr, ka, bucket, now);
      }
    }

    /** A known address that gets no further bucket: tried, in eight of them, or out of luck. */
    ghost predicate Settled(addr: Key, draw: nat)
      requires addr in addrIndex
      reads this, addrIndex.Values
    {
      var ka := addrIndex[addr];
      ka.tried || ka.refs == NEW_BUCKETS_PER_ADDRESS || (ka.refs > 0 && draw % (2 * ka.refs) != 0)
    }

    /** A new address in the index. */
    method Introduce(addr: Key, ka: KnownAddress)
      requires Inv() && addr !in addrIndex && ka.key == addr && !ka.tried && ka.refs == 0 && ka !in addrIndex.Values
      modifies this`addrIndex, this`nNew
      ensures Filed() && Sane(Books(), home, {addr}) && addrIndex == old(addrIndex)[addr := ka]
    {
      hide NewOk, TriedOk, Accounted, Counted;
      ghost var bk := Books();
      addrIndex := addrIndex[addr := ka];
      nNew := nNew + 1;
      AddKeySane(bk, home, addr);
      assert Books().info == AddKey(bk, addr).info && Books().buckets == bk.buckets && Books().tried == bk.tried;
      assert Books() == AddKey(bk, addr);
    }

    lemma {:induction false} NewCount()
      requires Inv()
      ensures |addrNew| == NEW_BUCKET_COUNT && |addrTried| == TRIED_BUCKET_COUNT
    {
      assert |Books().buckets| == |addrNew| && |Books().tried| == |addrTried|;
    }

    /**
      An untried address has a reference, so that the random number has a range; at most eight, and all from
      buckets.
     */
    lemma {:induction false} Referenced(addr: Key)
      requires Inv() && addr in addrIndex && !addrIndex[addr].tried
      ensures 1 <= addrIndex[addr].refs <= NEW_BUCKETS_PER_ADDRESS
      ensures exists b :: 0 <= b < |addrNew| && addr in addrNew[b]
    {
      var bk := Books();
      assert bk.info[addr] == Info(false, addrIndex[addr].refs);
      CountZero(bk.buckets, addr);
      var b :| 0 <= b < |bk.buckets| && addr in bk.buckets[b];
      assert addr in addrNew[b];
    }

    /** The books do not depend on timestamps. */
    twostate lemma SameBooks()
      requires addrIndex == old(addrIndex) && addrNew == old(addrNew) && addrTried == old(addrTried)
        && nNew == old(nNew) && nTried == old(nTried)
      requires forall k :: k in addrIndex ==>
        addrIndex[k].tried == old(addrIndex[k].tried) && addrIndex[k].refs == old(addrIndex[k].refs)
      ensures Books() == old(Books())
    {
      assert Books().info == old(Books()).info;
      assert Books().buckets == old(Books()).buckets && Books().tried == old(Books()).tried;
    }

    /** `pickTried`: the first of the oldest. */
    method PickTried(bucket: nat) returns (entry: nat)
      requires bucket < |addrTried| && addrTried[bucket] != []
      ensures entry < |addrTried[bucket]|
      ensures forall i :: 0 <= i < |addrTried[bucket]| ==>
        addrTried[bucket][entry].timestamp <= addrTried[bucket][i].timestamp
      ensures forall i :: 0 <= i < entry ==> addrTried[bucket][entry].timestamp < addrTried[bucket][i].timestamp
    {
      var l := addrTried[bucket];
      entry := 0;
      for e := 0 to |l|
        invariant entry < |l| && entry <= e && (e == 0 ==> entry == 0)
        invariant forall i :: 0 <= i < e ==> l[entry].timestamp <= l[i].timestamp
        invariant forall i :: 0 <= i < entry ==> l[entry].timestamp < l[i].timestamp
      {
        if e == 0 || l[entry].timestamp > l[e].timestamp {
          entry := e;
        }
      }
    }

    /** Take an address out of every new bucket; `oldBucket` is the first it was in. */
    method TakeOutOfAll(addr: Key, ka: KnownAddress) returns (oldBucket: int)
      requires Inv() && addr in addrIndex && addrIndex[addr] == ka && !ka.tried
      modifies this`addrNew, ka`refs
      ensures Filed() && Sane(Books(), home, {addr}) && |addrNew| == old(|addrNew|) && ka.refs == 0
      ensures 0 <= oldBucket < |addrNew| && |addrNew[oldBucket].Keys| <= NEW_BUCKET_SIZE
      ensures addrNew == Without(old(addrNew), addr) && FirstIn(old(addrNew), addr, oldBucket)
    {
      hide Sane, Books, Filed;
      oldBucket := -1;
      ghost var held :| 0 <= held < |addrNew| && addr in addrNew[held] by { Referenced(addr); }
      LoosenSane(Books(), home, {}, {addr});
      for i := 0 to |addrNew|
        invariant |addrNew| == old(|addrNew|) && Filed() && Sane(Books(), home, {addr})
        invariant forall b :: 0 <= b < i ==> addrNew[b] == old(addrNew)[b] - {addr}
        invariant forall b :: i <= b < |addrNew| ==> addrNew[b] == old(addrNew)[b]
        invariant oldBucket == -1 ==> i <= held && forall b :: 0 <= b < i ==> addr !in old(addrNew)[b]
        invariant oldBucket != -1 ==>
          FirstIn(old(addrNew), addr, oldBucket) && oldBucket < i && |addrNew[oldBucket].Keys| <= NEW_BUCKET_SIZE
      {
        var found := TakeOutOf(i, addr, ka);
        if found && oldBucket == -1 {
          oldBucket := i;
        }
      }
      Unreferenced(addr);
    }

    method TakeOutOf(bucket: nat, addr: Key, ka: KnownAddress) returns (found: bool)
      requires Filed() && Sane(Books(), home, {addr}) && bucket < |addrNew| && addr in addrIndex
        && addrIndex[addr] == ka
      modifies this`addrNew, ka`refs
      ensures Filed() && Sane(Books(), home, {addr}) && (found <==> addr in old(addrNew)[bucket])
      ensures addrNew == old(addrNew)[bucket := old(addrNew)[bucket] - {addr}]
        && (found ==> |addrNew[bucket].Keys| <= NEW_BUCKET_SIZE)
    {
      hide Sane, Books;
      found := addr in addrNew[bucket];
      if found {
        BucketSize(bucket, {addr});
        TakeOut(bucket, addr, ka, {addr});
        assert {addr} + {addr} == {addr};
        assert addrNew[bucket].Keys == old(addrNew)[bucket].Keys - {addr};
      } else {
        assert addrNew[bucket] - {addr} == addrNew[bucket];
      }
    }

    lemma {:induction false} Unreferenced(addr: Key)
      requires Filed() && Sane(Books(), home, {addr}) && addr in addrIndex && !addrIndex[addr].tried
      requires forall b :: 0 <= b < |addrNew| ==> addr !in addrNew[b]
      ensures addrIndex[addr].refs == 0
    {
      var bk := Books();
      assert bk.info[addr] == Info(false, addrIndex[addr].refs);
      forall b | 0 <= b < |bk.buckets| ensures addr !in bk.buckets[b] {}
      CountZero(bk.buckets, addr);
    }

    /** The books while the counter has been lowered for an address that is still to be moved. */
    ghost function Owing(): Book
      reads this, addrIndex.Values
    {
      Books().(nNew := nNew + 1)
    }

    /** One new address less, before it is moved. */
    method LowerNew()
      requires Filed()
      modifies this`nNew
      ensures Filed() && Owing() == old(Books())
    {
      ghost var bk := Books();
      nNew := nNew - 1;
      assert Books().buckets == bk.buckets && Books().tried == bk.tried && Books().info == bk.info;
    }

    /** One new address more, in that bucket. */
    method RaiseNew(newBucket: nat, key: Key, rmka: KnownAddress)
      requires Filed() && newBucket < |addrNew| && key in addrIndex && addrIndex[key] == rmka
      modifies this`addrNew, this`nNew
      ensures Filed() && addrNew == old(addrNew)[newBucket := old(addrNew)[newBucket][key := rmka]]
      ensures var bs := old(Books()).buckets;
        Books() == old(Owing()).(buckets := bs[newBucket := bs[newBucket] + {key}])
    {
      ghost var bk := Books();
      nNew := nNew + 1;
      assert Books().buckets == bk.buckets && Books().tried == bk.tried && Books().info == bk.info;
      SetBucket(newBucket, key, rmka);
    }

    /** The end of `Good` when the tried list has room. */
    method Enlist(addr: Key, ka: KnownAddress, bucket: nat)
      requires Filed() && Sane(Owing(), home, {addr}) && addr in addrIndex && addrIndex[addr] == ka && !ka.tried
        && ka.refs == 0
      requires bucket == home(addr) && bucket < |addrTried| && |addrTried[bucket]| < TRIED_BUCKET_SIZE
      modifies this`addrTried, this`nTried, ka`tried
      ensures Inv() && ka.tried && addrTried == old(addrTried)[bucket := old(addrTried)[bucket] + [ka]]
    {
      hide NewOk, TriedOk, Accounted, Counted;
      ghost var bk := Owing();
      PromoteSane(bk, home, addr, bucket);
      ghost var bk' := Promote(bk, bucket, addr);
      ka.tried := true;
      nTried := nTried + 1;
      assert Books() == bk'.(tried := bk.tried) by {
        assert Books().info == bk'.info;
        assert Books().tried == bk.tried && Books().buckets == bk.buckets;
      }
      SetTried(bucket, addrTried[bucket] + [ka]);
      assert KeysOf(old(addrTried[bucket]) + [ka]) == bk.tried[bucket] + [addr];
      assert Books() == bk';
    }

    method SetTried(bucket: nat, l: seq<KnownAddress>)
      requires Filed() && bucket < |addrTried|
      requires forall i :: 0 <= i < |l| ==> l[i].key in addrIndex && addrIndex[l[i].key] == l[i]
      modifies this`addrTried
      ensures Filed() && addrTried == old(addrTried)[bucket := l]
      ensures Books() == old(Books()).(tried := old(Books()).tried[bucket := KeysOf(l)])
    {
      ghost var bk := Books();
      addrTried := addrTried[bucket := l];
      assert Books().tried == bk.tried[bucket := KeysOf(l)] && Books().buckets == bk.buckets;
    }

    /** The end of `Good` when the tried list is full: `ka` takes the place of `rmka`, which becomes new again. */
    method Replace(addr: Key, ka: KnownAddress, bucket: nat, entry: nat, rmka: KnownAddress, newBucket: nat)
      requires Filed() && Sane(Owing(), home, {addr}) && addr in addrIndex && addrIndex[addr] == ka && !ka.tried
        && ka.refs == 0
      requires bucket == home(addr) && bucket < |addrTried| && entry < |addrTried[bucket]|
        && rmka == addrTried[bucket][entry]
      requires newBucket < |addrNew| && |addrNew[newBucket].Keys| <= NEW_BUCKET_SIZE
      modifies this`addrTried, this`addrNew, this`nNew, ka`tried, rmka`tried, rmka`refs
      ensures Inv() && ka.tried && !rmka.tried && rmka.key in addrIndex && addrIndex[rmka.key] == rmka != ka
      ensures Swapped(ka, bucket, entry, newBucket, old(addrTried), addrTried, old(addrNew), addrNew)
    {
      hide Sane, Filed, Books, Evict;
      ghost var bk := Books();
      BookLines(addr, bucket, entry, newBucket);
      Listed(bucket, entry, addr);
      BookLines(rmka.key, bucket, entry, newBucket);
      EvictSane(Owing(), home, addr, bucket, entry, newBucket);
      ghost var refs := rmka.refs;
      TakePlace(addr, ka, bucket, entry, rmka);
      RaiseNew(newBucket, rmka.key, rmka);
      EvictSteps(bk, addr, bucket, entry, newBucket, refs, Books());
    }

    /** The lines of the books concerned. */
    lemma {:induction false} BookLines(k: Key, bucket: nat, entry: nat, newBucket: nat)
      requires k in addrIndex && bucket < |addrTried| && entry < |addrTried[bucket]| && newBucket < |addrNew|
      ensures k in Books().info && Books().info[k] == Info(addrIndex[k].tried, addrIndex[k].refs)
      ensures |Books().tried| == |addrTried| && |Books().tried[bucket]| == |addrTried[bucket]|
      ensures Books().tried[bucket][entry] == addrTried[bucket][entry].key && Books().nNew == nNew
      ensures |Books().buckets| == |addrNew| && Books().buckets[newBucket] == addrNew[newBucket].Keys
    {
    }

    method TakePlace(addr: Key, ka: KnownAddress, bucket: nat, entry: nat, rmka: KnownAddress)
      requires Filed() && addr in addrIndex && addrIndex[addr] == ka && !ka.tried
      requires bucket < |addrTried| && entry < |addrTried[bucket]| && rmka == addrTried[bucket][entry] && rmka.tried
      modifies this`addrTried, ka`tried, rmka`tried, rmka`refs
      ensures Filed() && ka.tried && !rmka.tried && ka.refs == old(ka.refs) && rmka.refs == old(rmka.refs) + 1
      ensures addrTried == old(addrTried)[bucket := old(addrTried)[bucket][entry := ka]]
      ensures var bk := old(Books());
        Books() == bk.(info := bk.info[addr := Info(true, ka.refs)][rmka.key := Info(false, rmka.refs)],
                       tried := bk.tried[bucket := bk.tried[bucket][entry := addr]])
    {
      ghost var l := addrTried[bucket];
      Flip(addr, ka, rmka.key, rmka);
      SetTried(bucket, addrTried[bucket][entry := ka]);
      assert KeysOf(l[entry := ka]) == KeysOf(l)[entry := addr];
    }

    /** One address is tried now, and another one new. */
    method Flip(addr: Key, ka: KnownAddress, key: Key, rmka: KnownAddress)
      requires Filed() && addr in addrIndex && addrIndex[addr] == ka && !ka.tried && key in addrIndex
        && addrIndex[key] == rmka && rmka.tried
      modifies ka`tried, rmka`tried, rmka`refs
      ensures Filed() && ka.tried && !rmka.tried && ka.refs == old(ka.refs) && rmka.refs == old(rmka.refs) + 1
      ensures var bk := old(Books());
        Books() == bk.(info := bk.info[addr := Info(true, ka.refs)][key := Info(false, rmka.refs)])
    {
      ghost var bk := Books();
      ka.tried := true;
      rmka.tried := false;
      rmka.refs := rmka.refs + 1;
      assert Books().info == bk.info[addr := Info(true, ka.refs)][key := Info(false, rmka.refs)];
      assert Books().tried == bk.tried && Books().buckets == bk.buckets;
    }

    /** A listed address is tried. */
    lemma {:induction false} Listed(bucket: nat, entry: nat, addr: Key)
      requires Filed() && Sane(Owing(), home, {addr}) && bucket < |addrTried| && entry < |addrTried[bucket]|
      ensures addrTried[bucket][entry].key in addrIndex
        && addrIndex[addrTried[bucket][entry].key] == addrTried[bucket][entry]
      ensures addrTried[bucket][entry].tried
    {
      var bk := Books();
      assert bk.tried[bucket][entry] == addrTried[bucket][entry].key;
      assert bk.info[addrTried[bucket][entry].key].tried;
    }

    /**
      `Good`: no address is forgotten, and this one is tried from now on, at the end of its list or in the place of
      the oldest there, which goes back to a new bucket. `spare` is the value of `getNewBucket` for it.
     */
    method Good(addr: Key, now: Time, spare: nat)
      returns (ghost evicted: Option<Key>, ghost entry: nat, ghost newBucket: nat)
      requires Inv() && spare < NEW_BUCKET_COUNT
      modifies this`addrTried, this`addrNew, this`nNew, this`nTried, addrIndex.Values
      ensures Inv() && addrIndex == old(addrIndex)
      ensures addr in addrIndex ==> addrIndex[addr].tried && addrIndex[addr].attempts == 0
      ensures addr in addrIndex ==> addrIndex[addr].lastSuccess == addrIndex[addr].lastAttempt == Some(now)
      ensures forall k :: k in addrIndex && k != addr ==>
        addrIndex[k].tried == (old(addrIndex[k].tried) && evicted != Some(k))
      ensures addr !in addrIndex || old(addr in addrIndex && addrIndex[addr].tried) ==>
        evicted == None && addrNew == old(addrNew) && addrTried == old(addrTried)
      ensures addr in addrIndex && !old(addrIndex[addr].tried) ==>
        |old(addrTried)| > home(addr) && |old(addrNew)| > spare &&
        Moved(addrIndex[addr], home(addr), spare, old(addrTried), addrTried, old(addrNew), addrNew, evicted, entry,
          newBucket)
    {
      hide Sane, Books;
      evicted, entry, newBucket := None, 0, 0;
      NewCount();
      if addr !in addrIndex {
        return;
      }
      var ka := addrIndex[addr];
      ka.lastSuccess, ka.lastAttempt, ka.attempts := Some(now), Some(now), 0;
      SameBooks();
      if ka.tried {
        return;
      }
      evicted, entry, newBucket := Move(addr, ka, spare);
    }

    /** The rest of `Good`: the address moves to its tried list. The case that it was in no bucket cannot arise. */
    method Move(addr: Key, ka: KnownAddress, spare: nat)
      returns (ghost evicted: Option<Key>, ghost place: nat, ghost back: nat)
      requires Inv() && addr in addrIndex && addrIndex[addr] == ka && !ka.tried && spare < |addrNew|
        && |addrTried| == TRIED_BUCKET_COUNT
      modifies this`addrTried, this`addrNew, this`nNew, this`nTried, addrIndex.Values`tried, addrIndex.Values`refs
      ensures Inv() && ka.tried
      ensures forall k :: k in addrIndex && k != addr ==>
        addrIndex[k].tried == (old(addrIndex[k].tried) && evicted != Some(k))
      ensures Moved(ka, home(addr), spare, old(addrTried), addrTried, old(addrNew), addrNew, evicted, place, back)
    {
      hide Sane, Books, Filed, Moved, FirstIn, Without;
      evicted, place, back := None, 0, 0;
      var oldBucket := TakeOutOfAll(addr, ka);
      LowerNew();
      if oldBucket == -1 {
        return;
      }
      evicted, place, back := MoveTo(addr, ka, oldBucket, spare, old(addrNew));
    }

    /** The address being in no bucket any more, it is entered in its tried list. */
    method MoveTo(addr: Key, ka: KnownAddress, oldBucket: nat, spare: nat, ghost bs: seq<map<Key, KnownAddress>>)
      returns (ghost evicted: Option<Key>, ghost place: nat, ghost back: nat)
      requires Filed() && Sane(Owing(), home, {addr}) && addr in addrIndex && addrIndex[addr] == ka && !ka.tried
        && ka.refs == 0 && ka.key == addr
      requires addrNew == Without(bs, addr) && FirstIn(bs, addr, oldBucket) && oldBucket < |addrNew|
        && |addrNew[oldBucket].Keys| <= NEW_BUCKET_SIZE
      requires spare < |addrNew| && |addrTried| == TRIED_BUCKET_COUNT
      modifies this`addrTried, this`addrNew, this`nNew, this`nTried, addrIndex.Values`tried, addrIndex.Values`refs
      ensures Inv() && ka.tried
      ensures forall k :: k in addrIndex && k != addr ==>
        addrIndex[k].tried == (old(addrIndex[k].tried) && evicted != Some(k))
      ensures Moved(ka, home(addr), spare, old(addrTried), addrTried, bs, addrNew, evicted, place, back)
    {
      hide Sane, Books, FirstIn;
      evicted, place, back := None, 0, 0;
      var bucket: nat := home(addr);
      if |addrTried[bucket]| < TRIED_BUCKET_SIZE {
        Enlist(addr, ka, bucket);
        return;
      }
      evicted, place, back := PutInstead(addr, ka, bucket, oldBucket, spare);
    }

    /** There being no room in the list, another address has to go. */
    method PutInstead(addr: Key, ka: KnownAddress, bucket: nat, oldBucket: nat, spare: nat)
      returns (ghost evicted: Option<Key>, ghost place: nat, ghost back: nat)
      requires Filed() && Sane(Owing(), home, {addr}) && addr in addrIndex && addrIndex[addr] == ka && !ka.tried
        && ka.refs == 0
      requires bucket == home(addr) && bucket < |addrTried| && |addrTried[bucket]| >= TRIED_BUCKET_SIZE
      requires spare < |addrNew| && oldBucket < |addrNew| && |addrNew[oldBucket].Keys| <= NEW_BUCKET_SIZE
      modifies this`addrTried, this`addrNew, this`nNew, addrIndex.Values`tried, addrIndex.Values`refs
      ensures Inv() && ka.tried && Oldest(old(addrTried[bucket]), place)
        && evicted == Some(old(addrTried[bucket])[place].key)
      ensures forall k :: k in addrIndex && k != addr ==>
        addrIndex[k].tried == (old(addrIndex[k].tried) && evicted != Some(k))
      ensures back == if |old(addrNew[spare]).Keys| < NEW_BUCKET_SIZE then spare else oldBucket
      ensures Swapped(ka, bucket, place, back, old(addrTried), addrTried, old(addrNew), addrNew)
    {
      hide Sane, Books;
      var entry := PickTried(bucket);
      var rmka := addrTried[bucket][entry];
      Listed(bucket, entry, addr);
      var newBucket := spare;
      if |addrNew[newBucket].Keys| >= NEW_BUCKET_SIZE {
        newBucket := oldBucket;
      }
      Replace(addr, ka, bucket, entry, rmka, newBucket);
      evicted, place, back := Some(rmka.key), entry, newBucket;
    }

    /** `numAddresses`: the number of known addresses. */
    method NumAddresses() returns (n: int)
      requires Inv()
      ensures n == |addrIndex.Keys|
    {
      ghost var bk := Books();
      CountersAddUp(bk, home);
      assert bk.info.Keys == addrIndex.Keys;
      return nTried + nNew;
    }
  }

  lemma {:induction false} ExpiredSmaller(t: Traversal, left: set<Key>, oldest: Option<Key>)
    requires Expired(t, left, oldest) && t.keys != {}
    ensures |left| < |t.keys|
  {
    var gone :| gone in t.keys && gone !in left;
    Fewer(left, t.keys - {gone});
  }

  lemma {:induction false} Fewer(a: set<Key>, b: set<Key>)
    requires a <= b
    ensures |a| <= |b|
  {
    assert b == a + (b - a);
  }

  lemma {:induction false} Survey(bucket: map<Key, KnownAddress>, now: Time) returns (t: Traversal)
    ensures t.todo == bucket.Keys && Surveys(t, bucket, now) && Expiring(t, bucket.Keys, None)
  {
    t := Traversal(bucket.Keys, set k | k in bucket
      && bucket[k].IsBad(now), map k | k in bucket :: bucket[k].timestamp, bucket.Keys);
  }

  lemma {:induction false} VisitBad(t: Traversal, left: set<Key>, oldest: Option<Key>, k: Key)
    requires Expiring(t, left, oldest) && k in t.todo && k in t.bad
    ensures Expiring(t.(todo := t.todo - {k}), left - {k}, oldest)
  {
  }

  lemma {:induction false} VisitGood(t: Traversal, left: set<Key>, oldest: Option<Key>, k: Key)
    requires Expiring(t, left, oldest) && k in t.todo && k !in t.bad
    ensures oldest.Some? ==> oldest.value in left && oldest.value in t.times
    ensures var t' := t.(todo := t.todo - {k});
      if oldest == None || t.times[k] <= t.times[oldest.value] then Expiring(t', left, Some(k))
      else Expiring(t', left, oldest)
  {
  }

  lemma {:induction false} Unvisited(t: Traversal, left: set<Key>, oldest: Option<Key>, k: Key)
    requires Expiring(t, left, oldest) && k in t.todo
    ensures k in left
  {
  }

  /** A bucket being traversed: its keys, which of them are bad, their times, and the keys still to visit. */
  datatype Traversal = Traversal(keys: set<Key>, bad: set<Key>, times: map<Key, Time>, todo: set<Key>)

  ghost predicate Surveys(t: Traversal, bucket: map<Key, KnownAddress>, now: Time)
    reads bucket.Values
  {
    && t.keys == bucket.Keys == t.times.Keys
    && forall k :: k in bucket ==> (k in t.bad <==> bucket[k].IsBad(now)) && t.times[k] == bucket[k].timestamp
  }

  ghost predicate Expiring(t: Traversal, left: set<Key>, oldest: Option<Key>) {
    && t.keys == t.times.Keys && (forall k :: k in left ==> k in t.keys) && (forall k :: k in t.todo ==> k in left)
    && (forall k :: k in t.keys && k !in t.todo ==> (k in left <==> k !in t.bad))
    && (oldest == None ==> forall k :: k in t.keys && k !in t.todo ==> k in t.bad)
    && (oldest.Some? ==> oldest.value in left && oldest.value !in t.todo)
    && (oldest.Some? ==> forall k :: k in left && k !in t.todo ==> t.times[oldest.value] <= t.times[k])
  }

  /** The buckets without one address. */
  ghost function Without(bs: seq<map<Key, KnownAddress>>, k: Key): (r: seq<map<Key, KnownAddress>>)
    ensures |r| == |bs| && forall i :: 0 <= i < |bs| ==> r[i] == bs[i] - {k}
  {
    seq(|bs|, i requires 0 <= i < |bs| => bs[i] - {k})
  }

  ghost predicate FirstIn(bs: seq<map<Key, KnownAddress>>, k: Key, b: int) {
    0 <= b < |bs| && k in bs[b] && forall c :: 0 <= c < b ==> k !in bs[c]
  }

  /** The first of the oldest entries. */
  ghost predicate Oldest(l: seq<KnownAddress>, entry: nat)
    reads l
  {
    && entry < |l| && (forall i :: 0 <= i < |l| ==> l[entry].timestamp <= l[i].timestamp)
    && forall i :: 0 <= i < entry ==> l[entry].timestamp < l[i].timestamp
  }

  /** `ka` is in that place of its list, and what was there is in bucket `back`. */
  ghost predicate Swapped(ka: KnownAddress, home: nat, place: nat, back: nat,
                          tried: seq<seq<KnownAddress>>, tried': seq<seq<KnownAddress>>,
                          bs: seq<map<Key, KnownAddress>>, bs': seq<map<Key, KnownAddress>>)
  {
    && home < |tried| && place < |tried[home]| && back < |bs|
    && tried' == tried[home := tried[home][place := ka]]
    && bs' == bs[back := bs[back][tried[home][place].key := tried[home][place]]]
  }

  /**
    Address `ka` has moved from its new buckets to the end of its tried list or, if that was full, to the place of the
    oldest entry, which is back in bucket `spare` or, if that is full, in the first bucket `ka` was in.
   */
  ghost predicate Moved(ka: KnownAddress, home: nat, spare: nat, tried: seq<seq<KnownAddress>>,
                        tried': seq<seq<KnownAddress>>,
                        bs: seq<map<Key, KnownAddress>>, bs': seq<map<Key, KnownAddress>>, evicted: Option<Key>,
                        entry: nat, back: nat)
    requires home < |tried| && spare < |bs|
    reads tried[home]
  {
    var l, rest := tried[home], Without(bs, ka.key);
    if |l| < 256 then
      evicted == None && tried' == tried[home := l + [ka]] && bs' == rest
    else
      && Oldest(l, entry) && evicted == Some(l[entry].key) && tried' == tried[home := l[entry := ka]]
      && back < |bs| && bs' == rest[back := rest[back][l[entry].key := l[entry]]]
      && (if |rest[spare].Keys| < 64 then back == spare else FirstIn(bs, ka.key, back))
  }

  /** The bucket has `addr` too: as it was but for that, unless it was overfull and addresses had to go. */
  ghost predicate FiledIn(before: map<Key, KnownAddress>, after: map<Key, KnownAddress>, addr: Key, t: Traversal,
                          oldest: Option<Key>) {
    && addr in after && (forall k :: k in after && k != addr ==> k in before && after[k] == before[k])
    && (addr in before ==> after == before)
    && (addr !in before && |before.Keys| <= 64 ==> after.Keys == before.Keys + {addr})
    && (addr !in before && |before.Keys| > 64 ==> Expired(t, after.Keys - {addr}, oldest))
  }

  lemma {:induction false} NowIn(before: map<Key, KnownAddress>, mid: map<Key, KnownAddress>, addr: Key,
                                 ka: KnownAddress, t: Traversal, oldest: Option<Key>)
    requires addr !in before && addr !in mid && (forall k :: k in mid ==> k in before && mid[k] == before[k])
    requires if |before.Keys| > NEW_BUCKET_SIZE then Expired(t, mid.Keys, oldest) else mid == before
    ensures FiledIn(before, mid[addr := ka], addr, t, oldest)
  {
    hide Expired;
    PutKeys(mid, mid[addr := ka], addr, ka);
  }

  lemma {:induction false} PutKeys(mid: map<Key, KnownAddress>, after: map<Key, KnownAddress>, addr: Key,
                                   ka: KnownAddress)
    requires addr !in mid && after == mid[addr := ka]
    ensures after.Keys == mid.Keys + {addr} && after.Keys - {addr} == mid.Keys
  {
  }

  /** What is left of a bucket: not the bad addresses, and of the others not the oldest. */
  ghost predicate Expired(t: Traversal, left: set<Key>, oldest: Option<Key>) {
    && t.keys == t.times.Keys && (forall k :: k in left <==> k in t.keys && k !in t.bad && oldest != Some(k))
    && (oldest == None ==> forall k :: k in t.keys ==> k in t.bad)
    && (oldest.Some? ==> oldest.value in t.keys && oldest.value !in t.bad)
    && (oldest.Some? ==> forall k :: k in t.keys && k !in t.bad ==> t.times[oldest.value] <= t.times[k])
  }
}
