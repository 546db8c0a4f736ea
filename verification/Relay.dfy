/** How a node asks its peers for the messages they announce: one retry chain per message. */
module Relay {
  type Hash = string
  type Peer = string

  /**
    A scheduled retry: the message, the channel its announcements go to, and the peers not yet asked and asked
    once.
   */
  datatype Timer = Timer(hash: Hash, chan: nat, pending: seq<Peer>, requested: seq<Peer>)

  /**
    Channels are never reused. `sent` and `absorbed` are history: the requests of, and announcements to, each
    channel's chain.
   */
  datatype Server = Server(received: set<Hash>, requestMsg: map<Hash, nat>, queues: map<nat, seq<Peer>>,
                           timers: seq<Timer>, next: nat,
                           sent: multiset<(nat, Peer)>, absorbed: multiset<(nat, Peer)>)

  const EMPTY := Server({}, map[], map[], [], 0, multiset{}, multiset{})

  /** One step: a peer announces a message, a timer fires, a message arrives, or the cache drops one. */
  datatype Event = Announce(peer: Peer, hash: Hash) | Fire(timer: nat) | Receive(hash: Hash) | Drop(hash: Hash)

  /** `handleRelayHashMsg` for one hash. */
  function OnAnnounce(s: Server, cp: Peer, h: Hash): Server
    requires h in s.requestMsg ==> s.requestMsg[h] in s.queues
  {
    if h in s.received then s
    else if h in s.requestMsg then
      var c := s.requestMsg[h];
      s.(queues := s.queues[c := s.queues[c] + [cp]], absorbed := s.absorbed + multiset{(c, cp)})
    else
      var c := s.next;
      s.(requestMsg := s.requestMsg[h := c], queues := s.queues[c := []], timers := s.timers +
        [Timer(h, c, [], [cp])], next := c + 1,
         sent := s.sent + multiset{(c, cp)}, absorbed := s.absorbed + multiset{(c, cp)})
  }

  /** Whom to ask next: the latest peer not asked yet, else the latest asked once; what is left of both lists. */
  function Choose(pending: seq<Peer>, requested: seq<Peer>): (r: (bool, Peer, seq<Peer>, seq<Peer>))
    ensures r.0 <==> |pending| + |requested| > 0
    ensures r.0 ==> 2 * |r.2| + |r.3| + 1 == 2 * |pending| + |requested|
  {
    if |pending| > 0 then (true, pending[|pending| - 1], pending[..|pending| - 1], requested + [pending[|pending| - 1]])
    else if |requested| > 0 then (true, requested[|requested| - 1], [], requested[..|requested| - 1])
    else (false, "", [], [])
  }

  /** `handleRequest`: the timer at `i` fires. */
  function OnFire(s: Server, i: nat): Server
    requires i < |s.timers| && s.timers[i].chan in s.queues
  {
    var t := s.timers[i];
    var (need, peer, pending, requested) := Choose(t.pending + s.queues[t.chan], t.requested);
    var s' := s.(queues := s.queues[t.chan := []], timers := s.timers[..i] + s.timers[i + 1..]);
    if need && t.hash !in s.received then
      s'.(timers := s'.timers + [Timer(t.hash, t.chan, pending, requested)], sent := s.sent + multiset{(t.chan, peer)})
    else s'.(requestMsg := s.requestMsg - {t.hash})
  }

  // ---------------------------------------------------------------- what every step keeps

  /** Every timer is for a message being requested, on its channel, and no two are for the same one. */
  ghost predicate TimersOk(s: Server) {
    && (forall i :: 0 <= i < |s.timers| ==>
       s.timers[i].hash in s.requestMsg && s.requestMsg[s.timers[i].hash] == s.timers[i].chan)
    && (forall i, j :: 0 <= i < j < |s.timers| ==> s.timers[i].hash != s.timers[j].hash)
  }

  /** Every message being requested has a timer. */
  ghost predicate Covered(s: Server) {
    forall h :: h in s.requestMsg ==> HasTimer(s.timers, h)
  }

  ghost predicate HasTimer(timers: seq<Timer>, h: Hash) {
    exists i :: 0 <= i < |timers| && timers[i].hash == h
  }

  /** Every message being requested has a channel of its own. */
  ghost predicate ChannelsOk(s: Server) {
    && (forall h :: h in s.requestMsg ==> s.requestMsg[h] < s.next && s.requestMsg[h] in s.queues)
    && (forall g, h :: g in s.requestMsg && h in s.requestMsg && s.requestMsg[g] == s.requestMsg[h] ==> g == h)
  }

  /** A message is being requested exactly when one chain for it is live, on a channel of its own. */
  ghost predicate OneChainEach(s: Server) {
    TimersOk(s) && Covered(s) && ChannelsOk(s)
  }

  /** Every announcement a live chain absorbed is good for two requests to that peer: made, or still owed. */
  ghost predicate Balanced(s: Server) {
    && (forall i, p :: 0 <= i < |s.timers| && s.timers[i].chan in s.queues ==>
          s.sent[(s.timers[i].chan, p)] + Owed(s, s.timers[i], p) == 2 * s.absorbed[(s.timers[i].chan, p)])
    && (forall c, p :: s.sent[(c, p)] <= 2 * s.absorbed[(c, p)])
    && (forall c, p :: c >= s.next ==> s.sent[(c, p)] == 0 && s.absorbed[(c, p)] == 0)
  }

  /** The requests a chain may still make to a peer. */
  ghost function Owed(s: Server, t: Timer, p: Peer): int
    requires t.chan in s.queues
  {
    2 * (multiset(s.queues[t.chan])[p] + multiset(t.pending)[p]) + multiset(t.requested)[p]
  }

  ghost predicate Inv(s: Server) {
    OneChainEach(s) && Balanced(s)
  }

  lemma {:induction false} AnnounceKeeps(s: Server, cp: Peer, h: Hash)
    requires Inv(s)
    ensures Inv(OnAnnounce(s, cp, h))
  {
    if h !in s.received {
      if h in s.requestMsg {
        AbsorbKeeps(s, cp, h, s.requestMsg[h], OnAnnounce(s, cp, h));
      } else {
        StartKeeps(s, cp, h, s.next, OnAnnounce(s, cp, h));
      }
    }
  }

  /** An announcement absorbed by a live chain. */
  lemma {:induction false} AbsorbKeeps(s: Server, cp: Peer, h: Hash, c: nat, s': Server)
    requires Inv(s) && h in s.requestMsg && c == s.requestMsg[h] && c in s.queues && h !in s.received
      && s' == OnAnnounce(s, cp, h)
    ensures Inv(s')
  {
    AbsorbChains(s, cp, h, s');
    hide OneChainEach, Owed;
    forall i, p | 0 <= i < |s'.timers| && s'.timers[i].chan in s'.queues
      ensures s'.sent[(s'.timers[i].chan, p)] + Owed(s', s'.timers[i], p) == 2 * s'.absorbed[(s'.timers[i].chan, p)]
    {
      AbsorbOwed(s, cp, h, c, s', i, p);
    }
  }

  lemma {:induction false} AbsorbChains(s: Server, cp: Peer, h: Hash, s': Server)
    requires OneChainEach(s) && h in s.requestMsg && h !in s.received && s' == OnAnnounce(s, cp, h)
    ensures OneChainEach(s')
  {
    hide HasTimer;
  }

  lemma {:induction false} AbsorbOwed(s: Server, cp: Peer, h: Hash, c: nat, s': Server, i: nat, p: Peer)
    requires Inv(s) && h in s.requestMsg && c == s.requestMsg[h] && c in s.queues && h !in s.received
      && s' == OnAnnounce(s, cp, h)
    requires i < |s.timers| && s.timers[i].chan in s.queues
    ensures s'.sent[(s.timers[i].chan, p)] + Owed(s', s.timers[i], p) == 2 * s'.absorbed[(s.timers[i].chan, p)]
  {
    hide Covered;
    var t := s.timers[i];
    assert s.sent[(t.chan, p)] + Owed(s, t, p) == 2 * s.absorbed[(t.chan, p)];
  }

  /** An announcement that starts a chain. */
  lemma {:induction false} StartKeeps(s: Server, cp: Peer, h: Hash, c: nat, s': Server)
    requires Inv(s) && h !in s.requestMsg && h !in s.received && c == s.next && s' == OnAnnounce(s, cp, h)
    ensures Inv(s')
  {
    hide Covered;
    StartChains(s, cp, h, s');
    var n := |s.timers|;
    forall i, p | 0 <= i < |s'.timers| && s'.timers[i].chan in s'.queues
      ensures s'.sent[(s'.timers[i].chan, p)] + Owed(s', s'.timers[i], p) == 2 * s'.absorbed[(s'.timers[i].chan, p)]
    {
      if i < n {
        var t := s.timers[i];
        assert s.sent[(t.chan, p)] + Owed(s, t, p) == 2 * s.absorbed[(t.chan, p)];
      }
    }
  }

  lemma {:induction false} StartChains(s: Server, cp: Peer, h: Hash, s': Server)
    requires OneChainEach(s) && h !in s.requestMsg && h !in s.received && s' == OnAnnounce(s, cp, h)
    ensures OneChainEach(s')
  {
    hide Covered;
    StartCovered(s, cp, h, s');
  }

  lemma {:induction false} StartCovered(s: Server, cp: Peer, h: Hash, s': Server)
    requires Covered(s) && h !in s.requestMsg && h !in s.received && s' == OnAnnounce(s, cp, h)
    ensures Covered(s')
  {
    var n := |s.timers|;
    forall g | g in s'.requestMsg ensures HasTimer(s'.timers, g) {
      if g == h {
        assert s'.timers[n].hash == h;
      } else {
        assert HasTimer(s.timers, g);
        var i :| 0 <= i < n && s.timers[i].hash == g;
        assert s'.timers[i].hash == g;
      }
    }
  }

  /** Choosing moves a peer from not asked to asked once, or out of the books, for one request. */
  lemma {:induction false} ChooseCounts(pending: seq<Peer>, requested: seq<Peer>, p: Peer)
    ensures var (need, peer, pending', requested') := Choose(pending, requested);
      need ==> 2 * multiset(pending')[p] + multiset(requested')[p] + (if p == peer then 1 else 0)
               == 2 * multiset(pending)[p] + multiset(requested)[p]
  {
    if |pending| > 0 {
      assert pending == pending[..|pending| - 1] + [pending[|pending| - 1]];
    } else if |requested| > 0 {
      assert requested == requested[..|requested| - 1] + [requested[|requested| - 1]];
    }
  }

  lemma {:induction false} FireKeeps(s: Server, i: nat)
    requires Inv(s) && i < |s.timers|
    ensures s.timers[i].chan in s.queues && Inv(OnFire(s, i))
  {
    var t := s.timers[i];
    var s' := OnFire(s, i);
    FireChains(s, i, s');
    FireBalanced(s, i, s');
  }

  lemma {:induction false} FireChains(s: Server, i: nat, s': Server)
    requires OneChainEach(s) && i < |s.timers| && s.timers[i].chan in s.queues && s' == OnFire(s, i)
    ensures OneChainEach(s')
  {
    FireTimers(s, i, s');
    forall h | h in s'.requestMsg ensures HasTimer(s'.timers, h) {
      assert HasTimer(s.timers, h);
      var j :| 0 <= j < |s.timers| && s.timers[j].hash == h;
      if j == i {
        assert s'.timers[|s.timers| - 1].hash == h;
      } else {
        assert s'.timers[if j < i then j else j - 1].hash == h;
      }
    }
  }

  lemma {:induction false} FireTimers(s: Server, i: nat, s': Server)
    requires TimersOk(s) && i < |s.timers| && s.timers[i].chan in s.queues && s' == OnFire(s, i)
    ensures TimersOk(s')
  {
    var t, n := s.timers[i], |s.timers|;
    forall j | 0 <= j < |s'.timers|
      ensures j < n - 1 ==> s'.timers[j] == s.timers[if j < i then j else j + 1] && s'.timers[j].hash != t.hash
      ensures j == n - 1 ==> s'.timers[j].hash == t.hash && s'.timers[j].chan == t.chan && t.hash in s'.requestMsg
    {
    }
  }

  lemma {:induction false} FireBalanced(s: Server, i: nat, s': Server)
    requires Inv(s) && i < |s.timers| && s.timers[i].chan in s.queues && s' == OnFire(s, i)
    ensures Balanced(s')
  {
    hide Covered, Choose;
    var t := s.timers[i];
    forall j, p | 0 <= j < |s'.timers| && s'.timers[j].chan in s'.queues
      ensures s'.sent[(s'.timers[j].chan, p)] + Owed(s', s'.timers[j], p) == 2 * s'.absorbed[(s'.timers[j].chan, p)]
    {
      if j == |s.timers| - 1 {
        FireOwed(s, i, s', p);
      } else {
        FireOtherOwed(s, i, s', j, p);
      }
    }
    forall c, p ensures s'.sent[(c, p)] <= 2 * s'.absorbed[(c, p)] {
      if c == t.chan && |s'.timers| == |s.timers| { FireOwed(s, i, s', p); }
    }
  }

  /** What another chain owes is as before. */
  lemma {:induction false} FireOtherOwed(s: Server, i: nat, s': Server, j: nat, p: Peer)
    requires Inv(s) && i < |s.timers| && s.timers[i].chan in s.queues && s' == OnFire(s, i)
    requires j < |s'.timers| && j != |s.timers| - 1 && s'.timers[j].chan in s'.queues
    ensures s'.sent[(s'.timers[j].chan, p)] + Owed(s', s'.timers[j], p) == 2 * s'.absorbed[(s'.timers[j].chan, p)]
  {
    hide Covered, Choose;
    var t, u := s.timers[i], s.timers[if j < i then j else j + 1];
    assert s'.timers[j] == u && u.hash != t.hash && u.chan != t.chan;
    assert s.sent[(u.chan, p)] + Owed(s, u, p) == 2 * s.absorbed[(u.chan, p)];
  }

  /** A chain that goes on has made one request more, and owes one less. */
  lemma {:induction false} FireOwed(s: Server, i: nat, s': Server, p: Peer)
    requires Inv(s) && i < |s.timers| && s.timers[i].chan in s.queues && s' == OnFire(s, i) && |s'.timers| == |s.timers|
    ensures var t := s'.timers[|s.timers| - 1];
      t.chan in s'.queues && s'.sent[(t.chan, p)] + Owed(s', t, p) == 2 * s'.absorbed[(t.chan, p)]
  {
    var t := s.timers[i];
    var pending := t.pending + s.queues[t.chan];
    ChooseCounts(pending, t.requested, p);
    assert s.sent[(t.chan, p)] + Owed(s, t, p) == 2 * s.absorbed[(t.chan, p)];
    assert multiset(pending)[p] == multiset(t.pending)[p] + multiset(s.queues[t.chan])[p];
  }

  // ---------------------------------------------------------------- runs

  /** An event that cannot happen changes nothing. */
  function Next(s: Server, e: Event): Server
    requires (forall h :: h in s.requestMsg ==> s.requestMsg[h] in s.queues)
      && (forall i :: 0 <= i < |s.timers| ==> s.timers[i].chan in s.queues)
  {
    match e
    case Announce(cp, h) => OnAnnounce(s, cp, h)
    case Fire(i) => if i < |s.timers| then OnFire(s, i) else s
    case Receive(h) => s.(received := s.received + {h})
    case Drop(h) => s.(received := s.received - {h})
  }

  lemma {:induction false} NextKeeps(s: Server, e: Event)
    requires Inv(s)
    ensures Inv(Next(s, e))
  {
    match e
    case Announce(cp, h) => AnnounceKeeps(s, cp, h);
    case Fire(i) => if i < |s.timers| { FireKeeps(s, i); }
    case Receive(h) =>
      assert Inv(Next(s, e)) by { SameBalance(s, Next(s, e)); }
    case Drop(h) =>
      assert Inv(Next(s, e)) by { SameBalance(s, Next(s, e)); }
  }

  lemma {:induction false} SameBalance(s: Server, s': Server)
    requires Inv(s) && s' == s.(received := s'.received)
    ensures Inv(s')
  {
    forall i, p | 0 <= i < |s'.timers| && s'.timers[i].chan in s'.queues
      ensures s'.sent[(s'.timers[i].chan, p)] + Owed(s', s'.timers[i], p) == 2 * s'.absorbed[(s'.timers[i].chan, p)]
    {
      assert Owed(s', s'.timers[i], p) == Owed(s, s.timers[i], p);
    }
  }

  ghost function Run(s: Server, es: seq<Event>): (s': Server)
    requires Inv(s)
    ensures Inv(s')
    decreases |es|
  {
    if es == [] then s else
      NextKeeps(s, es[0]);
      Run(Next(s, es[0]), es[1..])
  }

  // ---------------------------------------------------------------- a chain ends

  /** How many more requests the chain for `h` can make if nobody announces it again. */
  ghost function Left(s: Server, h: Hash): nat
    requires Inv(s)
  {
    if h in s.requestMsg then
      assert HasTimer(s.timers, h);
      var i :| 0 <= i < |s.timers| && s.timers[i].hash == h;
      var t := s.timers[i];
      2 * (|s.queues[t.chan]| + |t.pending|) + |t.requested|
    else 0
  }

  lemma {:induction false} LeftAt(s: Server, i: nat)
    requires Inv(s) && i < |s.timers|
    ensures var t := s.timers[i];
      t.hash in s.requestMsg && t.chan in s.queues
        && Left(s, t.hash) == 2 * (|s.queues[t.chan]| + |t.pending|) + |t.requested|
  {
  }

  lemma {:induction false} NoneLeft(s: Server, h: Hash)
    requires Inv(s) && h !in s.requestMsg
    ensures Left(s, h) == 0
  {
  }

  /**
    A firing timer ends its chain or uses up one request; a chain ends of itself only when both requests of every
    announcement were made.
   */
  lemma {:induction false} FireProgress(s: Server, i: nat)
    requires Inv(s) && i < |s.timers|
    ensures s.timers[i].chan in s.queues && Inv(OnFire(s, i))
    ensures var h, s' := s.timers[i].hash, OnFire(s, i); h in s'.requestMsg ==> Left(s', h) == Left(s, h) - 1
    ensures var t, s' := s.timers[i], OnFire(s, i);
      t.hash !in s'.requestMsg && t.hash !in s.received ==>
        forall p :: s'.sent[(t.chan, p)] == 2 * s'.absorbed[(t.chan, p)]
  {
    hide Covered, Left;
    FireKeeps(s, i);
    LeftAt(s, i);
    var s', t := OnFire(s, i), s.timers[i];
    if t.hash in s'.requestMsg {
      LeftAt(s', |s.timers| - 1);
    } else if t.hash !in s.received {
      forall p ensures s'.sent[(t.chan, p)] == 2 * s'.absorbed[(t.chan, p)] {
        assert s.sent[(t.chan, p)] + Owed(s, t, p) == 2 * s.absorbed[(t.chan, p)];
        assert t.pending == [] && s.queues[t.chan] == [] && t.requested == [];
      }
    }
  }

  // ---------------------------------------------------------------- what an event does

  /** The timer of `h` is the only one for it, and this one. */
  ghost predicate OnlyTimer(s: Server, t: Timer) {
    t in s.timers && forall u :: u in s.timers && u.hash == t.hash ==> u == t
  }

  /** A message neither received nor being requested is requested at once from the peer that announces it. */
  lemma {:induction false} AnnounceAsks(s: Server, cp: Peer, h: Hash)
    requires Inv(s) && h !in s.received && h !in s.requestMsg
    ensures var s' := OnAnnounce(s, cp, h);
      && Inv(s') && s'.received == s.received && s'.requestMsg == s.requestMsg[h := s.next]
      && s'.sent == s.sent + multiset{(s.next, cp)} && s'.absorbed == s.absorbed + multiset{(s.next, cp)}
      && OnlyTimer(s', Timer(h, s.next, [], [cp])) && Left(s', h) == 1
  {
    hide Covered, Balanced, Left;
    AnnounceKeeps(s, cp, h);
    var s' := OnAnnounce(s, cp, h);
    assert s'.timers[|s.timers|] == Timer(h, s.next, [], [cp]);
    LeftAt(s', |s.timers|);
  }

  /** Whom a chain asks next: the latest peer not asked yet, else the latest one asked once. */
  ghost predicate AsksNext(s: Server, t: Timer, p: Peer)
    requires t.chan in s.queues
  {
    var waiting := t.pending + s.queues[t.chan];
    if waiting != [] then p == waiting[|waiting| - 1] else t.requested != [] && p == t.requested[|t.requested| - 1]
  }

  /** For one being requested, the peer is good for two requests more. None is made yet, but it is asked next. */
  lemma {:induction false} AnnounceAbsorbed(s: Server, cp: Peer, h: Hash)
    requires Inv(s) && h !in s.received && h in s.requestMsg
    ensures var s' := OnAnnounce(s, cp, h);
      && Inv(s') && s'.received == s.received && s'.requestMsg == s.requestMsg && s'.timers == s.timers
      && s'.sent == s.sent && s'.absorbed == s.absorbed + multiset{(s.requestMsg[h], cp)}
      && Left(s', h) == Left(s, h) + 2
      && s.requestMsg[h] in s.queues && s'.queues == s.queues[s.requestMsg[h] := s.queues[s.requestMsg[h]] + [cp]]
      && forall i :: 0 <= i < |s'.timers| && s'.timers[i].hash == h ==>
         s'.timers[i].chan in s'.queues && AsksNext(s', s'.timers[i], cp)
  {
    hide Covered, Balanced, Left;
    AnnounceKeeps(s, cp, h);
    var i := TimerOf(s, h);
    LeftAt(s, i);
    LeftAt(OnAnnounce(s, cp, h), i);
  }

  /** One that was received is not requested. */
  lemma {:induction false} AnnounceIgnored(s: Server, cp: Peer, h: Hash)
    requires Inv(s) && h in s.received
    ensures OnAnnounce(s, cp, h) == s
  {
  }

  /** A timer that fires before the message arrived makes one request, as long as there is one left, and goes on. */
  lemma {:induction false} FireAsks(s: Server, i: nat) returns (p: Peer)
    requires Inv(s) && i < |s.timers| && s.timers[i].hash !in s.received && Left(s, s.timers[i].hash) > 0
    ensures var t, s' := s.timers[i], OnFire(s, i);
      && AsksNext(s, t, p) && s'.sent == s.sent + multiset{(t.chan, p)} && s'.absorbed == s.absorbed
      && s'.requestMsg == s.requestMsg && s'.received == s.received && s'.queues == s.queues[t.chan := []]
    ensures var t := s.timers[i]; var waiting, n := t.pending + s.queues[t.chan], |t.requested|;
      OnlyTimer(OnFire(s, i), if waiting != [] then Timer(t.hash, t.chan, waiting[..|waiting| - 1], t.requested + [p])
                              else Timer(t.hash, t.chan, [], t.requested[..n - 1]))
  {
    hide Covered, Balanced, Left;
    LeftAt(s, i);
    var t, s' := s.timers[i], OnFire(s, i);
    p := Choose(t.pending + s.queues[t.chan], t.requested).1;
    FireTimers(s, i, s');
    assert s'.timers[|s.timers| - 1].hash == t.hash;
  }

  /** With none left, or once the message has arrived, it makes no request and ends the chain. */
  lemma {:induction false} FireEnds(s: Server, i: nat)
    requires Inv(s) && i < |s.timers| && (s.timers[i].hash in s.received || Left(s, s.timers[i].hash) == 0)
    ensures var t, s' := s.timers[i], OnFire(s, i);
      && s'.sent == s.sent && s'.absorbed == s.absorbed && s'.received == s.received
      && s'.requestMsg == s.requestMsg - {t.hash} && s'.timers == s.timers[..i] + s.timers[i + 1..]
  {
    hide Covered, Balanced, Left;
    LeftAt(s, i);
  }

  /** A firing timer does nothing to other chains. */
  lemma {:induction false} FireOther(s: Server, i: nat, g: Hash)
    requires Inv(s) && i < |s.timers| && s.timers[i].hash != g
    ensures s.timers[i].chan in s.queues && Inv(OnFire(s, i))
    ensures (g in s.requestMsg <==> g in OnFire(s, i).requestMsg) && Left(OnFire(s, i), g) == Left(s, g)
  {
    hide Inv, Left, OnFire;
    FireKeeps(s, i);
    var s' := OnFire(s, i);
    FireElsewhere(s, i, g, s');
    if g !in s.requestMsg {
      NoneLeft(s, g);
      NoneLeft(s', g);
    } else {
      var j := TimerOf(s, g);
      LeftAt(s, j);
      LeftAt(s', if j < i then j else j - 1);
    }
  }

  lemma {:induction false} TimerOf(s: Server, g: Hash) returns (j: nat)
    requires Inv(s) && g in s.requestMsg
    ensures j < |s.timers| && s.timers[j].hash == g
  {
    hide Balanced;
    assert HasTimer(s.timers, g);
    j :| 0 <= j < |s.timers| && s.timers[j].hash == g;
  }

  /** The other messages keep their timers and queues. */
  lemma {:induction false} FireElsewhere(s: Server, i: nat, g: Hash, s': Server)
    requires Inv(s) && i < |s.timers| && s.timers[i].hash != g && s.timers[i].chan in s.queues && s' == OnFire(s, i)
    ensures g in s.requestMsg <==> g in s'.requestMsg
    ensures forall j :: 0 <= j < |s.timers| && s.timers[j].hash == g ==>
      var j' := if j < i then j else j - 1;
      && j' < |s'.timers| && s'.timers[j'] == s.timers[j]
      && s.timers[j].chan in s.queues && s.timers[j].chan in s'.queues
      && s'.queues[s.timers[j].chan] == s.queues[s.timers[j].chan]
  {
    hide Balanced, Choose, Covered;
  }

  /** Neither does an announcement of another message, nor the arrival or loss of any. */
  lemma {:induction false} OtherEvent(s: Server, e: Event, g: Hash)
    requires Inv(s) && !e.Fire? && (e.Announce? ==> e.hash != g)
    ensures Inv(Next(s, e)) && (g in s.requestMsg <==> g in Next(s, e).requestMsg) && Left(Next(s, e), g) == Left(s, g)
  {
    hide Balanced, Covered, Left, Next;
    NextKeeps(s, e);
    var s' := Next(s, e);
    EventElsewhere(s, e, g, s');
    if g !in s.requestMsg {
      NoneLeft(s, g);
      NoneLeft(s', g);
    } else {
      var j := TimerOf(s, g);
      LeftAt(s, j);
      LeftAt(s', j);
    }
  }

  lemma {:induction false} EventElsewhere(s: Server, e: Event, g: Hash, s': Server)
    requires Inv(s) && !e.Fire? && (e.Announce? ==> e.hash != g) && s' == Next(s, e)
    ensures g in s.requestMsg <==> g in s'.requestMsg
    ensures forall j :: 0 <= j < |s.timers| && s.timers[j].hash == g ==>
      && j < |s'.timers| && s'.timers[j] == s.timers[j]
      && s.timers[j].chan in s.queues && s.timers[j].chan in s'.queues
      && s'.queues[s.timers[j].chan] == s.queues[s.timers[j].chan]
  {
    hide Balanced, Covered;
  }

  /** How often a timer for `h` fires in a run. */
  ghost function Fires(s: Server, es: seq<Event>, h: Hash): nat
    requires Inv(s)
    decreases |es|
  {
    if es == [] then 0 else
      NextKeeps(s, es[0]);
      (if es[0].Fire? && es[0].timer < |s.timers| && s.timers[es[0].timer].hash == h then 1 else 0) +
        Fires(Next(s, es[0]), es[1..], h)
  }

  /** Without further announcements a chain fires at most once more than it has requests left, and then it is over. */
  lemma {:induction false} ChainEnds(s: Server, es: seq<Event>, h: Hash)
    requires Inv(s) && forall i :: 0 <= i < |es| && es[i].Announce? ==> es[i].hash != h
    ensures h in Run(s, es).requestMsg ==> h in s.requestMsg && Fires(s, es, h) + Left(Run(s, es), h) == Left(s, h)
    ensures h !in Run(s, es).requestMsg ==> Fires(s, es, h) <= if h in s.requestMsg then Left(s, h) + 1 else 0
    decreases |es|
  {
    if es == [] {
    } else {
      var e := es[0];
      NextKeeps(s, e);
      ChainEnds(Next(s, e), es[1..], h);
      if e.Fire? {
        if e.timer < |s.timers| {
          if s.timers[e.timer].hash == h { FireProgress(s, e.timer); } else { FireOther(s, e.timer, h); }
        }
      } else {
        OtherEvent(s, e, h);
      }
    }
  }

  // ---------------------------------------------------------------- a message that arrived

  /** Channel `c` was given out, and if a live chain has it, it is that of `h`. */
  ghost predicate ChannelOf(s: Server, h: Hash, c: nat) {
    c < s.next && forall g :: g in s.requestMsg && s.requestMsg[g] == c ==> g == h
  }

  /** One step while `h` is known: no request on its channel, no new chain for it. */
  lemma {:induction false} ArrivedStep(s: Server, e: Event, h: Hash, c: nat)
    requires Inv(s) && h in s.received && ChannelOf(s, h, c) && e != Drop(h)
    ensures var s' := Next(s, e);
      && h in s'.received && ChannelOf(s', h, c) && (h in s'.requestMsg ==> h in s.requestMsg)
      && forall p :: s'.sent[(c, p)] == s.sent[(c, p)]
  {
    hide Covered, Balanced;
  }

  /**
    Once a message has arrived, and for as long as it is not dropped from the cache, no run asks for it again: its chain
    makes no request, ends with its next timer, and no other one starts.
   */
  lemma {:induction false} NoRequestsOnceArrived(s: Server, es: seq<Event>, h: Hash, c: nat)
    requires Inv(s) && h in s.received && ChannelOf(s, h, c) && forall i :: 0 <= i < |es| ==> es[i] != Drop(h)
    ensures forall p :: Run(s, es).sent[(c, p)] == s.sent[(c, p)]
    ensures h in Run(s, es).requestMsg ==> h in s.requestMsg
    ensures Fires(s, es, h) <= (if h in s.requestMsg then 1 else 0)
    decreases |es|
  {
    hide Covered, Balanced;
    if es == [] {
    } else {
      var e := es[0];
      NextKeeps(s, e);
      ArrivedStep(s, e, h, c);
      NoRequestsOnceArrived(Next(s, e), es[1..], h, c);
      if e.Fire? && e.timer < |s.timers| && s.timers[e.timer].hash == h { FireEnds(s, e.timer); }
    }
  }

  /** That the message arrives makes it known, and the timer that fires next ends the chain without a request. */
  lemma {:induction false} ArrivalEnds(s: Server, i: nat)
    requires Inv(s) && i < |s.timers|
    ensures var h := s.timers[i].hash; var s' := Next(s, Receive(h));
      && Inv(s') && h in s'.received && s'.timers == s.timers && s'.sent == s.sent
      && h !in Next(s', Fire(i)).requestMsg && Next(s', Fire(i)).sent == s.sent
  {
    NextKeeps(s, Receive(s.timers[i].hash));
    FireEnds(Next(s, Receive(s.timers[i].hash)), i);
  }

  /**
    In every run from the start, no peer is asked more than twice per announcement of its own that the chain
    absorbed.
   */
  lemma {:induction false} AtMostTwoRequests(es: seq<Event>, c: nat, p: Peer)
    ensures Inv(EMPTY) && Run(EMPTY, es).sent[(c, p)] <= 2 * Run(EMPTY, es).absorbed[(c, p)]
  {
    assert Inv(EMPTY);
    assert Inv(Run(EMPTY, es));
  }

  // ---------------------------------------------------------------- the handlers

  class ConnServer {
    var messagesSent: set<Hash>
    var requestMsg: map<Hash, nat>
    var queues: map<nat, seq<Peer>>
    var timers: seq<Timer>
    var next: nat
    ghost var sent: multiset<(nat, Peer)>
    ghost var absorbed: multiset<(nat, Peer)>

    ghost function State(): Server
      reads this
    {
      Server(messagesSent, requestMsg, queues, timers, next, sent, absorbed)
    }

    constructor ()
      ensures State() == EMPTY && Inv(State())
    {
      messagesSent, requestMsg, queues, timers, next := {}, map[], map[], [], 0;
      sent, absorbed := multiset{}, multiset{};
    }

    /** `handleRelayHashMsg`: one announcement per hash, in order. */
    method HandleRelayHashMsg(cp: Peer, relay: seq<Hash>)
      requires Inv(State())
      modifies this
      ensures Inv(State()) && State() == Run(old(State()), Announcements(cp, relay))
    {
      assert Announcements(cp, relay)[0..] == Announcements(cp, relay);
      for i := 0 to |relay|
        invariant Inv(State())
        invariant Run(old(State()), Announcements(cp, relay)) == Run(State(), Announcements(cp, relay)[i..])
      {
        AnnounceKeeps(State(), cp, relay[i]);
        assert Announcements(cp, relay)[i..][1..] == Announcements(cp, relay)[i + 1..];
        HandleOne(cp, relay[i]);
      }
    }

    method HandleOne(cp: Peer, hash: Hash)
      requires Inv(State())
      modifies this
      ensures State() == OnAnnounce(old(State()), cp, hash)
    {
      hide Balanced, Covered;
      if hash in messagesSent {
        return;
      }
      if hash in requestMsg {
        var c := requestMsg[hash];
        queues := queues[c := queues[c] + [cp]];
        absorbed := absorbed + multiset{(c, cp)};
      } else {
        var c := next;
        next := next + 1;
        requestMsg, queues := requestMsg[hash := c], queues[c := []];
        sent, absorbed := sent + multiset{(c, cp)}, absorbed + multiset{(c, cp)};
        timers := timers + [Timer(hash, c, [], [cp])];
      }
    }

    /** Take everything out of a channel. */
    method Drain(chan: nat, pending: seq<Peer>) returns (pendingCps: seq<Peer>)
      requires chan in queues
      modifies this`queues
      ensures pendingCps == pending + old(queues)[chan] && queues == old(queues)[chan := []]
    {
      pendingCps := pending;
      while |queues[chan]| > 0
        invariant chan in queues && queues == old(queues)[chan := queues[chan]]
        invariant pendingCps + queues[chan] == pending + old(queues)[chan]
        decreases |queues[chan]|
      {
        pendingCps := pendingCps + [queues[chan][0]];
        queues := queues[chan := queues[chan][1..]];
      }
    }

    /** `handleRequest`, run by the timer at `i`. */
    method HandleRequest(i: nat)
      requires Inv(State()) && i < |timers|
      modifies this
      ensures Inv(State()) && State() == OnFire(old(State()), i)
    {
      hide Inv;
      FireKeeps(State(), i);
      var t := timers[i];
      timers := timers[..i] + timers[i + 1..];
      var requestedCps := t.requested;
      var pendingCps := Drain(t.chan, t.pending);
      var requestPeer: Peer := "";
      var needToRequest := true;
      if |pendingCps| > 0 {
        requestPeer := pendingCps[|pendingCps| - 1];
        pendingCps := pendingCps[..|pendingCps| - 1];
        requestedCps := requestedCps + [requestPeer];
      } else if |requestedCps| > 0 {
        requestPeer := requestedCps[|requestedCps| - 1];
        requestedCps := requestedCps[..|requestedCps| - 1];
      } else {
        needToRequest := false;
      }
      if needToRequest && t.hash !in messagesSent {
        sent := sent + multiset{(t.chan, requestPeer)};
        timers := timers + [Timer(t.hash, t.chan, pendingCps, requestedCps)];
      } else {
        requestMsg := requestMsg - {t.hash};
      }
    }
  }

  function Announcements(cp: Peer, relay: seq<Hash>): (es: seq<Event>)
    ensures |es| == |relay| && forall i :: 0 <= i < |relay| ==> es[i] == Announce(cp, relay[i])
  {
    seq(|relay|, i requires 0 <= i < |relay| => Announce(cp, relay[i]))
  }
}
