/** Exactly when overlapping connects that all succeed part the two tables. */
module Overlap {
  import opened Wrappers
  import opened Ipv4
  import opened Peers
  import opened Wireguard
  import opened Handlers
  import opened Sequential
  import opened Registry

  /** A run of connects by pairwise distinct keys in which every call succeeds. */
  ghost predicate AllConnect(s: State) {
    && (forall i :: i in s.calls ==> Connecting(s.calls[i]))
    && (forall i, j :: i in s.calls && j in s.calls && s.calls[i].key == s.calls[j].key ==> i == j)
  }

  predicate Connecting(c: Call) {
    c.Negotiated? || c.Holding? || c.Installed? || c.Connected?
  }

  ghost predicate Smooth(hash: Bytes -> string, states: seq<State>, actions: seq<Action>) {
    && IsRun(hash, states, actions)
    && states[0].calls == map[] && Consistent(hash, states[0].world)
    && (forall i :: 0 <= i < |states| ==> AllConnect(states[i]))
    && (forall i :: 0 <= i < |actions| ==> actions[i].Run? ==> actions[i].ok)
  }

  /** The run has served every request that arrived. */
  ghost predicate Finished(s: State) {
    forall i :: i in s.calls ==> s.calls[i].Connected?
  }

  /** A request that has set its kernel peer still has one, and its row, while there, is at its address. */
  ghost predicate Placed(w: World, c: Call) {
    && (c.Installed? || c.Connected? ==> c.key in w.kernel)
    && (c.Connected? && c.key in w.store ==> w.store[c.key].address == c.address)
  }

  ghost predicate AllPlaced(s: State) {
    AddressesUnique(s.world.store) && forall i :: i in s.calls ==> Placed(s.world, s.calls[i])
  }

  lemma StepKeepsPlaced(hash: Bytes -> string, s: State, a: Action)
    requires AllPlaced(s) && AllConnect(s) && Enabled(s, a) && (a.Run? ==> a.ok)
    requires AllConnect(Next(hash, s, a))
    ensures AllPlaced(Next(hash, s, a))
  {
    var s' := Next(hash, s, a);
    StoreStaysUnique(hash, s, a);
    forall i | i in s'.calls ensures Placed(s'.world, s'.calls[i]) {
      if i != a.id {
        assert Placed(s.world, s.calls[i]) && s'.calls[i] == s.calls[i];
        assert a.Run? ==> s.calls[a.id].key != s.calls[i].key;
      } else if a.Run? {
        assert Placed(s.world, s.calls[i]);
      }
    }
  }

  lemma {:induction false} RunKeepsPlaced(hash: Bytes -> string, states: seq<State>, actions: seq<Action>, n: nat)
    requires Smooth(hash, states, actions) && n < |states|
    ensures AllPlaced(states[n])
  {
    if n > 0 {
      RunKeepsPlaced(hash, states, actions, n - 1);
      assert AllConnect(states[n - 1]) && AllConnect(states[n]);
      StepKeepsPlaced(hash, states[n - 1], actions[n - 1]);
    }
  }

  /** Once a request holds an address it keeps it to the end. */
  lemma {:induction false} AddressIsKept(
    hash: Bytes -> string, states: seq<State>, actions: seq<Action>, n: nat, m: nat, id: nat)
    requires Smooth(hash, states, actions) && n <= m < |states|
    requires id in states[n].calls && Holds(states[n].calls[id])
    ensures id in states[m].calls
    ensures var c, d := states[n].calls[id], states[m].calls[id];
            d.key == c.key && (d.Holding? || d.Installed? || d.Connected?) && d.address == c.address
    decreases m
  {
    if n < m {
      AddressIsKept(hash, states, actions, n, m - 1, id);
      assert AllConnect(states[m]);
    } else {
      assert AllConnect(states[n]);
    }
  }

  /** When every request has connected, the tables agree if and only if no two of the requests
      ever held the same address at once. */
  lemma AgreeIffNoSharedAddress(hash: Bytes -> string, states: seq<State>, actions: seq<Action>)
    requires Smooth(hash, states, actions) && Finished(states[|actions|])
    ensures Consistent(hash, states[|actions|].world) <==> forall n :: 0 <= n < |states| ==> NoSharedAddress(states[n])
  {
    var last := |actions|;
    if forall n :: 0 <= n < |states| ==> NoSharedAddress(states[n]) {
      WithoutSharingTheyAgree(hash, states, actions);
    } else {
      var n: nat :| n < |states| && !NoSharedAddress(states[n]);
      var s := states[n];
      var i, j :| i in s.calls && j in s.calls && SameHeld(s.calls[i], s.calls[j]) && i != j;
      AddressIsKept(hash, states, actions, n, last, i);
      AddressIsKept(hash, states, actions, n, last, j);
      RunKeepsPlaced(hash, states, actions, last);
      SharedPlaceIsInconsistent(hash, states[last], i, j);
    }
  }

  lemma WithoutSharingTheyAgree(hash: Bytes -> string, states: seq<State>, actions: seq<Action>)
    requires Smooth(hash, states, actions) && Finished(states[|actions|])
    requires forall n :: 0 <= n < |states| ==> NoSharedAddress(states[n])
    ensures Consistent(hash, states[|actions|].world)
  {
    var last := |actions|;
    forall n | 0 <= n < |states| ensures NoSharedKey(states[n]) {
      assert AllConnect(states[n]);
    }
    forall n | 0 <= n < |actions| ensures CleanupSucceeds(states[n], actions[n]) {
      assert AllConnect(states[n]);
    }
    EveryInterleavingAgrees(hash, states, actions);
    RunKeepsPlaced(hash, states, actions, last);
    assert forall k :: !Served(states[last], k);
  }

  /** Two finished requests cannot both have their row at one address, yet both have a peer. */
  lemma SharedPlaceIsInconsistent(hash: Bytes -> string, s: State, i: nat, j: nat)
    requires AllPlaced(s) && AllConnect(s) && Finished(s) && i in s.calls && j in s.calls && i != j
    requires s.calls[i].address == s.calls[j].address
    ensures !Consistent(hash, s.world)
  {
    var c, d := s.calls[i], s.calls[j];
    assert Placed(s.world, c) && Placed(s.world, d) && c.key != d.key;
    assert c.key !in s.world.store || d.key !in s.world.store;
  }

  /** Two requests side by side. */
  function Pair(a: Call, b: Call): map<nat, Call> {
    map[0 := a, 1 := b]
  }

  lemma PairConnects(w: World, a: Call, b: Call)
    requires Connecting(a) && Connecting(b) && a.key != b.key
    ensures AllConnect(State(w, Pair(a, b)))
  {
  }

  /** A smooth run, one action longer. */
  lemma Extend(hash: Bytes -> string, states: seq<State>, actions: seq<Action>, a: Action, s: State)
    returns (states': seq<State>, actions': seq<Action>)
    requires Smooth(hash, states, actions) && Enabled(states[|actions|], a) && (a.Run? ==> a.ok)
    requires s == Next(hash, states[|actions|], a) && AllConnect(s)
    ensures Smooth(hash, states', actions') && |actions'| + 1 == |states'| == |states| + 1 && states'[|actions'|] == s
    ensures forall i :: 0 <= i < |states| ==> states'[i] == states[i]
  {
    hide Next, Enabled, AllConnect, Consistent;
    states', actions' := states + [s], actions + [a];
  }

  lemma RunFirst(
    hash: Bytes -> string, states: seq<State>, actions: seq<Action>, w: World, a: Call, b: Call, w': World, a': Call)
    returns (states': seq<State>, actions': seq<Action>)
    requires Smooth(hash, states, actions) && states[|actions|] == State(w, Pair(a, b))
    requires Connecting(a') && Connecting(b) && a.key == a'.key != b.key
    requires !Done(a) && Advance(hash, w, a, true) == (w', a')
    ensures Smooth(hash, states', actions') && |actions'| + 1 == |states'| == |states| + 1
    ensures states'[|actions'|] == State(w', Pair(a', b))
    ensures forall i :: 0 <= i < |states| ==> states'[i] == states[i]
  {
    hide Smooth, AllConnect, Advance;
    PairConnects(w', a', b);
    assert Pair(a, b)[0 := a'] == Pair(a', b);
    states', actions' := Extend(hash, states, actions, Run(0, true), State(w', Pair(a', b)));
  }

  lemma RunSecond(
    hash: Bytes -> string, states: seq<State>, actions: seq<Action>, w: World, a: Call, b: Call, w': World, b': Call)
    returns (states': seq<State>, actions': seq<Action>)
    requires Smooth(hash, states, actions) && states[|actions|] == State(w, Pair(a, b))
    requires Connecting(a) && Connecting(b') && a.key != b.key == b'.key
    requires !Done(b) && Advance(hash, w, b, true) == (w', b')
    ensures Smooth(hash, states', actions') && |actions'| + 1 == |states'| == |states| + 1
    ensures states'[|actions'|] == State(w', Pair(a, b'))
    ensures forall i :: 0 <= i < |states| ==> states'[i] == states[i]
  {
    hide Smooth, AllConnect, Advance;
    PairConnects(w', a, b');
    assert Pair(a, b)[1 := b'] == Pair(a, b');
    states', actions' := Extend(hash, states, actions, Run(1, true), State(w', Pair(a, b')));
  }

  lemma BothArrive(hash: Bytes -> string, w: World, a: Call, b: Call)
    returns (states: seq<State>, actions: seq<Action>)
    requires Consistent(hash, w) && a.Negotiated? && b.Negotiated? && a.key != b.key
    ensures Smooth(hash, states, actions) && states[0].world == w && states[|actions|] == State(w, Pair(a, b))
  {
    states, actions := [State(w, map[])], [];
    states, actions := Extend(hash, states, actions, Arrive(0, a), State(w, map[0 := a]));
    PairConnects(w, a, b);
    states, actions := Extend(hash, states, actions, Arrive(1, b), State(w, Pair(a, b)));
  }

  /** From any consistent tables with fewer than 65,023 rows, two connects by different keys that both
      allocate before either stores share an address, and end with the tables apart though every
      call succeeded. */
  lemma OverlappingConnectsPartTheTables(
    hash: Bytes -> string, w: World, a: string, b: string, pskA: Bytes, pskB: Bytes)
    returns (states: seq<State>, actions: seq<Action>)
    requires Consistent(hash, w) && |w.store| < CAPACITY && a != b
    ensures Smooth(hash, states, actions) && Finished(states[|actions|]) && states[0].world == w
    ensures Allocate(w.store).Some?
    ensures var ip := Allocate(w.store).value;
            states[|actions|].calls == Pair(Connected(a, pskA, ip), Connected(b, pskB, ip))
    ensures !Consistent(hash, states[|actions|].world)
  {
    AllocateFailsOnlyWhenFull(w.store);
    var ip := Allocate(w.store).value;
    states, actions := BothAllocate(hash, w, a, b, pskA, pskB, ip);
    var shared := |actions|;
    var atShared := states[shared];
    SharingPair(w, Holding(a, pskA, ip), Holding(b, pskB, ip));
    states, actions := BothFinish(hash, states, actions, w, a, b, pskA, pskB, ip);
    assert states[shared] == atShared && !NoSharedAddress(states[shared]);
    hide Smooth, NoSharedAddress, Consistent, Allocate;
    AgreeIffNoSharedAddress(hash, states, actions);
  }

  lemma SharingPair(w: World, a: Call, b: Call)
    requires SameHeld(a, b)
    ensures !NoSharedAddress(State(w, Pair(a, b)))
  {
    var s := State(w, Pair(a, b));
    assert SameHeld(s.calls[0], s.calls[1]);
  }

  /** Both are given the one address on offer. */
  lemma BothAllocate(
    hash: Bytes -> string, w: World, a: string, b: string, pskA: Bytes, pskB: Bytes, ip: string)
    returns (states: seq<State>, actions: seq<Action>)
    requires Consistent(hash, w) && a != b && Allocate(w.store) == Some(ip)
    ensures Smooth(hash, states, actions) && states[0].world == w && |states| == |actions| + 1
    ensures states[|actions|] == State(w, Pair(Holding(a, pskA, ip), Holding(b, pskB, ip)))
  {
    hide Allocate, Consistent;
    var na, nb, ha, hb := Negotiated(a, pskA), Negotiated(b, pskB), Holding(a, pskA, ip), Holding(b, pskB, ip);
    states, actions := BothArrive(hash, w, na, nb);
    hide Smooth;
    states, actions := RunFirst(hash, states, actions, w, na, nb, w, ha);
    states, actions := RunSecond(hash, states, actions, w, ha, nb, w, hb);
  }

  lemma BothFinish(
    hash: Bytes -> string, states: seq<State>, actions: seq<Action>, w: World, a: string, b: string, pskA: Bytes,
    pskB: Bytes, ip: string)
    returns (states': seq<State>, actions': seq<Action>)
    requires Smooth(hash, states, actions) && |states| == |actions| + 1 && a != b
    requires states[|actions|] == State(w, Pair(Holding(a, pskA, ip), Holding(b, pskB, ip)))
    ensures Smooth(hash, states', actions') && |states| <= |states'| == |actions'| + 1
    ensures states'[|actions'|].calls == Pair(Connected(a, pskA, ip), Connected(b, pskB, ip))
    ensures forall i :: 0 <= i < |states| ==> states'[i] == states[i]
  {
    hide Smooth, WithPeer, Insert;
    var ha, hb, ia, ib := Holding(a, pskA, ip), Holding(b, pskB, ip), Installed(a, pskA, ip), Installed(b, pskB, ip);
    var ca, cb := Connected(a, pskA, ip), Connected(b, pskB, ip);
    var w1 := Advance(hash, w, ha, true).0;
    states', actions' := RunFirst(hash, states, actions, w, ha, hb, w1, ia);
    var w2 := Advance(hash, w1, hb, true).0;
    states', actions' := RunSecond(hash, states', actions', w1, ia, hb, w2, ib);
    var w3 := Advance(hash, w2, ia, true).0;
    states', actions' := RunFirst(hash, states', actions', w2, ia, ib, w3, ca);
    var w4 := Advance(hash, w3, ib, true).0;
    states', actions' := RunSecond(hash, states', actions', w3, ca, ib, w4, cb);
  }

  // ---------- a connect and a disconnect for one key ----------

  lemma Grow(hash: Bytes -> string, states: seq<State>, actions: seq<Action>, a: Action, s: State)
    returns (states': seq<State>, actions': seq<Action>)
    requires IsRun(hash, states, actions) && Enabled(states[|actions|], a) && s == Next(hash, states[|actions|], a)
    ensures IsRun(hash, states', actions') && states'[0] == states[0]
    ensures |actions'| + 1 == |states'| && states'[|actions'|] == s
    ensures (forall b :: b in actions ==> b.Run? ==> b.ok) && (a.Run? ==> a.ok)
            ==> forall b :: b in actions' ==> b.Run? ==> b.ok
  {
    states', actions' := states + [s], actions + [a];
  }

  /** A disconnect has removed the kernel peer and not yet the row; now a connect for the same key
      runs to its end, and then the disconnect deletes the row the connect has just written. */
  lemma SameKeyRequestsPartTheTables(hash: Bytes -> string, w: World, key: string, psk: Bytes)
    returns (states: seq<State>, actions: seq<Action>)
    requires Consistent(hash, w) && key in w.store && |w.store| < CAPACITY
    ensures IsRun(hash, states, actions) && states[0] == State(w, map[])
    ensures forall b :: b in actions ==> b.Run? ==> b.ok
    ensures Allocate(w.store).Some?
    ensures var ip, last := Allocate(w.store).value, states[|actions|];
            && last.calls == Pair(Disconnected(key), Connected(key, psk, ip))
            && key in last.world.kernel && key !in last.world.store && !Consistent(hash, last.world)
  {
    hide IsRun, Allocate;
    AllocateFailsOnlyWhenFull(w.store);
    var ip := Allocate(w.store).value;
    var w1 := World(w.store, w.kernel - {key});
    states, actions := HalfDisconnect(hash, w, key, psk);
    states, actions := ConnectBeside(hash, states, actions, w1, key, psk, ip);
    var w3 := states[|actions|].world;
    var w4 := World(w3.store - {key}, w3.kernel);
    var done := Pair(Disconnected(key), Connected(key, psk, ip));
    states, actions := Grow(hash, states, actions, Run(0, true), State(w4, done));
  }

  lemma HalfDisconnect(hash: Bytes -> string, w: World, key: string, psk: Bytes)
    returns (states: seq<State>, actions: seq<Action>)
    requires key in w.store
    ensures IsRun(hash, states, actions) && |states| == |actions| + 1 && states[0] == State(w, map[])
    ensures forall b :: b in actions ==> b.Run? ==> b.ok
    ensures states[|actions|] == State(World(w.store, w.kernel - {key}), Pair(Unplugged(key), Negotiated(key, psk)))
  {
    states, actions := [State(w, map[])], [];
    assert IsRun(hash, states, actions);
    hide IsRun, Allocate;
    states, actions := Grow(hash, states, actions, Arrive(0, Leaving(key)), State(w, map[0 := Leaving(key)]));
    states, actions := Grow(hash, states, actions, Run(0, true), State(w, map[0 := Known(key)]));
    var w1 := World(w.store, w.kernel - {key});
    states, actions := Grow(hash, states, actions, Run(0, true), State(w1, map[0 := Unplugged(key)]));
    var n := Negotiated(key, psk);
    states, actions := Grow(hash, states, actions, Arrive(1, n), State(w1, Pair(Unplugged(key), n)));
  }

  /** The connect's three calls, while the disconnect waits before its last. */
  lemma ConnectBeside(
    hash: Bytes -> string, states: seq<State>, actions: seq<Action>, w: World, key: string, psk: Bytes, ip: string)
    returns (states': seq<State>, actions': seq<Action>)
    requires IsRun(hash, states, actions) && |states| == |actions| + 1 && Allocate(w.store) == Some(ip)
    requires forall b :: b in actions ==> b.Run? ==> b.ok
    requires states[|actions|] == State(w, Pair(Unplugged(key), Negotiated(key, psk)))
    ensures IsRun(hash, states', actions') && |states'| == |actions'| + 1 && states'[0] == states[0]
    ensures forall b :: b in actions' ==> b.Run? ==> b.ok
    ensures states'[|actions'|].calls == Pair(Unplugged(key), Connected(key, psk, ip))
    ensures key in states'[|actions'|].world.store && key in states'[|actions'|].world.kernel
  {
    hide IsRun, Allocate;
    var u := Unplugged(key);
    states', actions' := Grow(hash, states, actions, Run(1, true), State(w, Pair(u, Holding(key, psk, ip))));
    var w2 := World(w.store, WithPeer(w.kernel, key, psk, Cidr(ip)));
    states', actions' := Grow(hash, states', actions', Run(1, true), State(w2, Pair(u, Installed(key, psk, ip))));
    var w3 := World(Insert(w.store, key, Row(ip, hash(psk))), w2.kernel);
    states', actions' := Grow(hash, states', actions', Run(1, true), State(w3, Pair(u, Connected(key, psk, ip))));
  }
}
