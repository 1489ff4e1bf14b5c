/** Any number of connect and disconnect requests served at once, interleaved call by call. */
module Registry {
  import opened Wrappers
  import opened Ipv4
  import opened Peers
  import opened Wireguard
  import opened Handlers
  import opened Sequential

  datatype State = State(world: World, calls: map<nat, Call>)

  /** A request reaches its first store or `wg` call, or makes its next one with the given luck. */
  datatype Action = Arrive(id: nat, call: Call) | Run(id: nat, ok: bool)

  predicate Enabled(s: State, a: Action) {
    match a
    case Arrive(id, call) => id !in s.calls && (call.Negotiated? || call.Leaving?)
    case Run(id, _) => id in s.calls && !Done(s.calls[id])
  }

  function Next(hash: Bytes -> string, s: State, a: Action): State
    requires Enabled(s, a)
  {
    match a
    case Arrive(id, call) => s.(calls := s.calls[id := call])
    case Run(id, ok) =>
      var (w, c) := Advance(hash, s.world, s.calls[id], ok);
      State(w, s.calls[id := c])
  }

  function KeyOf(s: State, a: Action): string
    requires Enabled(s, a)
  {
    match a
    case Arrive(_, call) => call.key
    case Run(id, _) => s.calls[id].key
  }

  /** states[i] is where the run stands before actions[i]. */
  ghost predicate IsRun(hash: Bytes -> string, states: seq<State>, actions: seq<Action>) {
    && |states| == |actions| + 1
    && forall i :: 0 <= i < |actions|
                   ==> Enabled(states[i], actions[i]) && states[i + 1] == Next(hash, states[i], actions[i])
  }

  /** Has been given an address whose row is not there yet. */
  predicate Holds(c: Call) {
    c.Holding? || c.Installed? || c.CleaningUp?
  }

  /** Has set its kernel peer and neither stored nor removed it. */
  predicate MidWrite(c: Call) {
    c.Installed? || c.CleaningUp?
  }

  predicate SameHeld(c: Call, d: Call) {
    Holds(c) && Holds(d) && c.address == d.address
  }

  predicate SameServed(c: Call, d: Call) {
    !Done(c) && !Done(d) && c.key == d.key
  }

  ghost predicate NoSharedAddress(s: State) {
    forall i, j :: i in s.calls && j in s.calls && SameHeld(s.calls[i], s.calls[j]) ==> i == j
  }

  ghost predicate NoSharedKey(s: State) {
    forall i, j :: i in s.calls && j in s.calls && SameServed(s.calls[i], s.calls[j]) ==> i == j
  }

  ghost predicate CleanupSucceeds(s: State, a: Action)
    requires Enabled(s, a)
  {
    a.Run? && s.calls[a.id].CleaningUp? ==> a.ok
  }

  /** Some request for key `k` is being served. */
  ghost predicate Served(s: State, k: string) {
    exists i :: i in s.calls && !Done(s.calls[i]) && s.calls[i].key == k
  }

  ghost predicate BeingWritten(s: State, k: string) {
    exists i :: i in s.calls && MidWrite(s.calls[i]) && s.calls[i].key == k
  }

  /** What holds between any two calls: a peer not being written matches its row, one being
      written is as its request set it, and addresses on hold have no row. */
  ghost predicate Inv(hash: Bytes -> string, s: State) {
    && AddressesUnique(s.world.store)
    && (forall k :: k in s.world.kernel && !BeingWritten(s, k) ==> Matches(hash, s.world, k))
    && (forall i :: i in s.calls ==> CallInv(s.world, s.calls[i]))
  }

  ghost predicate CallInv(w: World, c: Call) {
    && (Holds(c) ==> c.address !in Addresses(w.store))
    && (MidWrite(c) ==> c.key in w.kernel && w.kernel[c.key] == KernelPeer(c.psk, Some(Cidr(c.address))))
    && (c.Unplugged? ==> c.key !in w.kernel)
  }

  /** The step changes nothing, in either table, of any key but its own. */
  ghost predicate TouchesOwnKeyOnly(hash: Bytes -> string, s: State, a: Action)
    requires Enabled(s, a)
  {
    forall k :: k != KeyOf(s, a) ==> SameFor(k, s.world, Next(hash, s, a).world)
  }

  /** A held address is in no other peer's kernel entry and in no row. */
  lemma HeldAddressIsFree(hash: Bytes -> string, s: State, id: nat)
    requires Inv(hash, s) && NoSharedAddress(s) && NoSharedKey(s)
    requires id in s.calls && Holds(s.calls[id])
    ensures var c := s.calls[id];
            WithPeer(s.world.kernel, c.key, c.psk, Cidr(c.address))
            == s.world.kernel[c.key := KernelPeer(c.psk, Some(Cidr(c.address)))]
    ensures var c := s.calls[id];
            forall row: Row :: row.address == c.address
                               ==> Insert(s.world.store, c.key, row) == s.world.store[c.key := row]
  {
    var c := s.calls[id];
    assert CallInv(s.world, c);
    forall k | k in s.world.kernel && k != c.key
      ensures WithoutAddress(s.world.kernel[k], Cidr(c.address)) == s.world.kernel[k]
    {
      if BeingWritten(s, k) {
        var j :| j in s.calls && MidWrite(s.calls[j]) && s.calls[j].key == k;
        assert CallInv(s.world, s.calls[j]);
        CidrInjective(s.calls[j].address, c.address);
      } else {
        assert Matches(hash, s.world, k);
        assert s.world.store[k].address in Addresses(s.world.store);
        CidrInjective(s.world.store[k].address, c.address);
      }
    }
    forall k | k in s.world.store ensures s.world.store[k].address != c.address {
      assert s.world.store[k].address in Addresses(s.world.store);
    }
  }

  /** One step touches its own key only, so what is known of every other key and call stays. */
  lemma StepTouchesOwnKey(hash: Bytes -> string, s: State, a: Action)
    requires Inv(hash, s) && NoSharedAddress(s) && NoSharedKey(s) && Enabled(s, a)
    ensures TouchesOwnKeyOnly(hash, s, a)
  {
    if a.Run? {
      var c := s.calls[a.id];
      if Holds(c) {
        HeldAddressIsFree(hash, s, a.id);
      }
      hide Inv, NoSharedAddress, NoSharedKey;
      AdvanceTouchesOwnKey(hash, s.world, c, a.ok);
    }
  }

  lemma AdvanceTouchesOwnKey(hash: Bytes -> string, w: World, c: Call, ok: bool)
    requires !Done(c)
    requires Holds(c) ==> WithPeer(w.kernel, c.key, c.psk, Cidr(c.address))
                          == w.kernel[c.key := KernelPeer(c.psk, Some(Cidr(c.address)))]
    requires Holds(c) ==> Insert(w.store, c.key, Row(c.address, hash(c.psk)))
                          == w.store[c.key := Row(c.address, hash(c.psk))]
    ensures forall k :: k != c.key ==> SameFor(k, w, Advance(hash, w, c, ok).0)
  {
    hide WithPeer, Insert, Allocate;
  }

  /** The call that moved has its part of the invariant afterwards. */
  lemma MovedCallInv(hash: Bytes -> string, s: State, a: Action)
    requires Inv(hash, s) && NoSharedAddress(s) && NoSharedKey(s) && Enabled(s, a) && CleanupSucceeds(s, a)
    ensures CallInv(Next(hash, s, a).world, Next(hash, s, a).calls[a.id])
  {
    if a.Run? {
      assert CallInv(s.world, s.calls[a.id]);
      hide Inv, NoSharedAddress, NoSharedKey;
      AdvanceKeepsCallInv(hash, s.world, s.calls[a.id], a.ok);
    }
  }

  lemma AdvanceKeepsCallInv(hash: Bytes -> string, w: World, c: Call, ok: bool)
    requires !Done(c) && CallInv(w, c) && (c.CleaningUp? ==> ok)
    ensures CallInv(Advance(hash, w, c, ok).0, Advance(hash, w, c, ok).1)
  {
    hide Insert, LeastFree;
  }

  /** Another call's part survives: its key is untouched and its address is not the one stored. */
  lemma OtherCallInv(hash: Bytes -> string, s: State, a: Action, i: nat)
    requires Inv(hash, s) && NoSharedAddress(s) && NoSharedKey(s) && Enabled(s, a)
    requires i in s.calls && i != a.id
    ensures CallInv(Next(hash, s, a).world, s.calls[i])
  {
    var c := s.calls[i];
    var s' := Next(hash, s, a);
    assert CallInv(s.world, c);
    StepTouchesOwnKey(hash, s, a);
    if a.Run? && !Done(c) {
      assert !SameServed(c, s.calls[a.id]) && !SameHeld(c, s.calls[a.id]);
      assert SameFor(c.key, s.world, s'.world);
      if Holds(c) {
        forall k | k in s'.world.store ensures s'.world.store[k].address != c.address {
          if k in s.world.store {
            assert s.world.store[k].address in Addresses(s.world.store);
          }
          assert k != KeyOf(s, a) ==> SameFor(k, s.world, s'.world);
        }
      }
    }
  }

  lemma NotWrittenBefore(hash: Bytes -> string, s: State, a: Action, k: string)
    requires Enabled(s, a) && !BeingWritten(Next(hash, s, a), k)
    requires a.Run? && KeyOf(s, a) == k ==> !MidWrite(s.calls[a.id])
    ensures !BeingWritten(s, k)
  {
    forall j | j in s.calls && MidWrite(s.calls[j]) ensures s.calls[j].key != k {
      if j != a.id {
        assert Next(hash, s, a).calls[j] == s.calls[j];
      }
    }
  }

  lemma PeersStillMatch(hash: Bytes -> string, s: State, a: Action, k: string)
    requires Inv(hash, s) && NoSharedAddress(s) && NoSharedKey(s) && Enabled(s, a) && CleanupSucceeds(s, a)
    requires k in Next(hash, s, a).world.kernel && !BeingWritten(Next(hash, s, a), k)
    ensures Matches(hash, Next(hash, s, a).world, k)
  {
    var s' := Next(hash, s, a);
    StepTouchesOwnKey(hash, s, a);
    if a.Run? && k == KeyOf(s, a) && MidWrite(s.calls[a.id]) {
      HeldAddressIsFree(hash, s, a.id);
      assert CallInv(s.world, s.calls[a.id]);
      assert s'.calls[a.id].key == k;
    } else {
      NotWrittenBefore(hash, s, a, k);
      if k != KeyOf(s, a) {
        assert SameFor(k, s.world, s'.world);
      } else if a.Run? {
        assert s'.calls[a.id].key == k;
        assert CallInv(s.world, s.calls[a.id]);
      }
    }
  }

  lemma StoreStaysUnique(hash: Bytes -> string, s: State, a: Action)
    requires AddressesUnique(s.world.store) && Enabled(s, a)
    ensures AddressesUnique(Next(hash, s, a).world.store)
  {
    if a.Run? && s.calls[a.id].Installed? {
      var c := s.calls[a.id];
      InsertKeepsTable(s.world.store, c.key, Row(c.address, hash(c.psk)));
    }
  }

  lemma StepKeepsInv(hash: Bytes -> string, s: State, a: Action)
    requires Inv(hash, s) && NoSharedAddress(s) && NoSharedKey(s) && Enabled(s, a) && CleanupSucceeds(s, a)
    ensures Inv(hash, Next(hash, s, a))
  {
    var s' := Next(hash, s, a);
    StoreStaysUnique(hash, s, a);
    forall k | k in s'.world.kernel && !BeingWritten(s', k) ensures Matches(hash, s'.world, k) {
      PeersStillMatch(hash, s, a, k);
    }
    forall i | i in s'.calls ensures CallInv(s'.world, s'.calls[i]) {
      if i == a.id {
        MovedCallInv(hash, s, a);
      } else {
        OtherCallInv(hash, s, a, i);
      }
    }
  }

  /** No two in-flight connects hold one address, no two in-flight requests serve one key,
      and no clean-up fails, anywhere in the run. */
  ghost predicate WellBehaved(hash: Bytes -> string, states: seq<State>, actions: seq<Action>)
    requires IsRun(hash, states, actions)
  {
    && (forall i :: 0 <= i < |states| ==> NoSharedAddress(states[i]) && NoSharedKey(states[i]))
    && (forall i :: 0 <= i < |actions| ==> CleanupSucceeds(states[i], actions[i]))
  }

  lemma {:induction false} RunKeepsInv(hash: Bytes -> string, states: seq<State>, actions: seq<Action>, n: nat)
    requires IsRun(hash, states, actions) && WellBehaved(hash, states, actions) && n < |states|
    requires states[0].calls == map[] && Consistent(hash, states[0].world)
    ensures Inv(hash, states[n])
  {
    if n > 0 {
      RunKeepsInv(hash, states, actions, n - 1);
      StepKeepsInv(hash, states[n - 1], actions[n - 1]);
    } else {
      assert forall k :: !BeingWritten(states[0], k);
    }
  }

  /** In every interleaving of any number of requests, with any of their calls failing: under the
      three hypotheses every kernel peer not being served has its row, and no step takes another
      peer's address, changes its PSK or deletes its row. */
  lemma EveryInterleavingAgrees(hash: Bytes -> string, states: seq<State>, actions: seq<Action>)
    requires IsRun(hash, states, actions) && WellBehaved(hash, states, actions)
    requires states[0].calls == map[] && Consistent(hash, states[0].world)
    ensures forall n, k :: 0 <= n < |states| && k in states[n].world.kernel && !Served(states[n], k)
                           ==> Matches(hash, states[n].world, k)
    ensures forall n :: 0 <= n < |actions| ==> TouchesOwnKeyOnly(hash, states[n], actions[n])
  {
    forall n, k | 0 <= n < |states| && k in states[n].world.kernel && !Served(states[n], k)
      ensures Matches(hash, states[n].world, k)
    {
      RunKeepsInv(hash, states, actions, n);
      assert !BeingWritten(states[n], k);
    }
    forall n | 0 <= n < |actions| ensures TouchesOwnKeyOnly(hash, states[n], actions[n]) {
      RunKeepsInv(hash, states, actions, n);
      StepTouchesOwnKey(hash, states[n], actions[n]);
    }
  }

  /** Every request for `c`'s key is done, and both tables have for it what `c` was accepted with. */
  ghost predicate InService(hash: Bytes -> string, s: State, c: Call)
    requires c.Connected?
  {
    && (forall i :: i in s.calls && s.calls[i].key == c.key ==> Done(s.calls[i]))
    && c.key in s.world.kernel && s.world.kernel[c.key] == KernelPeer(c.psk, Some(Cidr(c.address)))
    && c.key in s.world.store && s.world.store[c.key] == Row(c.address, hash(c.psk))
  }

  /** Storing the row puts the client in service. */
  lemma StoringPutsInService(hash: Bytes -> string, s: State, id: nat)
    requires Inv(hash, s) && NoSharedAddress(s) && NoSharedKey(s)
    requires id in s.calls && s.calls[id].Installed?
    ensures var c := s.calls[id];
            InService(hash, Next(hash, s, Run(id, true)), Connected(c.key, c.psk, c.address))
  {
    var c := s.calls[id];
    assert CallInv(s.world, c);
    forall i | i in s.calls && s.calls[i].key == c.key && i != id ensures Done(s.calls[i]) {
      assert !SameServed(s.calls[i], c);
    }
  }

  lemma AdvanceKeepsKey(hash: Bytes -> string, w: World, c: Call, ok: bool)
    requires !Done(c)
    ensures Advance(hash, w, c, ok).1.key == c.key
  {
    hide WithPeer, Insert, Allocate;
  }

  /** A step of a request for another key takes nobody out of service. */
  lemma StepKeepsInService(hash: Bytes -> string, s: State, a: Action, c: Call)
    requires c.Connected? && InService(hash, s, c)
    requires Inv(hash, s) && NoSharedAddress(s) && NoSharedKey(s) && Enabled(s, a) && KeyOf(s, a) != c.key
    ensures InService(hash, Next(hash, s, a), c)
  {
    StepTouchesOwnKey(hash, s, a);
    assert SameFor(c.key, s.world, Next(hash, s, a).world);
    hide Inv, NoSharedAddress, NoSharedKey, TouchesOwnKeyOnly, Advance;
    if a.Run? {
      AdvanceKeepsKey(hash, s.world, s.calls[a.id], a.ok);
    }
  }

  /** An accepted client keeps its peer, its PSK, its address and its row for as long as no new
      request comes for its key, whatever the requests for other keys do and however they fail. */
  lemma {:induction false} AcceptedClientKeepsService(
    hash: Bytes -> string, states: seq<State>, actions: seq<Action>, m: nat, n: nat, id: nat)
    requires IsRun(hash, states, actions) && WellBehaved(hash, states, actions)
    requires states[0].calls == map[] && Consistent(hash, states[0].world)
    requires m < n < |states| && actions[m] == Run(id, true) && states[m].calls[id].Installed?
    requires NoneArrives(states[m], states[n], states[m].calls[id].key)
    ensures var c := states[m].calls[id];
            InService(hash, states[n], Connected(c.key, c.psk, c.address))
    decreases n
  {
    hide Inv, NoSharedAddress, NoSharedKey, Next, Consistent, NoneArrives, InService;
    var c := states[m].calls[id];
    RunKeepsInv(hash, states, actions, n - 1);
    var s, a := states[n - 1], actions[n - 1];
    if n == m + 1 {
      StoringPutsInService(hash, s, id);
    } else {
      CallsStay(hash, states, actions, m, n - 1);
      NoneArrivedBefore(hash, states[m], s, a, c.key);
      AcceptedClientKeepsService(hash, states, actions, m, n - 1, id);
      NotOfAServedKey(hash, states[m], s, a, Connected(c.key, c.psk, c.address));
      StepKeepsInService(hash, s, a, Connected(c.key, c.psk, c.address));
    }
  }

  /** Every request for `key` that has arrived by `later` had arrived by `s`. */
  ghost predicate NoneArrives(s: State, later: State, key: string) {
    forall i :: i in later.calls && later.calls[i].key == key ==> i in s.calls
  }

  lemma NoneArrivedBefore(hash: Bytes -> string, early: State, s: State, a: Action, key: string)
    requires Enabled(s, a) && NoneArrives(early, Next(hash, s, a), key)
    ensures NoneArrives(early, s, key)
  {
    forall i | i in s.calls && s.calls[i].key == key ensures i in early.calls {
      assert Next(hash, s, a).calls[i].key == key;
    }
  }

  /** With its requests all done and none arriving, a step is for another key. */
  lemma NotOfAServedKey(hash: Bytes -> string, early: State, s: State, a: Action, c: Call)
    requires c.Connected? && InService(hash, s, c) && Enabled(s, a)
    requires early.calls.Keys <= s.calls.Keys && NoneArrives(early, Next(hash, s, a), c.key)
    ensures KeyOf(s, a) != c.key
  {
  }

  lemma {:induction false} CallsStay(hash: Bytes -> string, states: seq<State>, actions: seq<Action>, m: nat, n: nat)
    requires IsRun(hash, states, actions) && m <= n < |states|
    ensures states[m].calls.Keys <= states[n].calls.Keys
  {
    if m < n {
      CallsStay(hash, states, actions, m, n - 1);
    }
  }

  // ---------- what holds of every interleaving, with no hypothesis ----------

  /** A request is served for the key it arrived with, and a connect with the PSK it arrived with. */
  lemma {:induction false} RequestKeepsItsKey(
    hash: Bytes -> string, states: seq<State>, actions: seq<Action>, m: nat, n: nat)
    requires IsRun(hash, states, actions) && m < n < |states| && actions[m].Arrive?
    ensures var id, c := actions[m].id, actions[m].call;
            && id in states[n].calls && states[n].calls[id].key == c.key
            && var d := states[n].calls[id];
               if c.Negotiated? then
                 && (d.Negotiated? || Holds(d) || d.Connected? || d.Refused?)
                 && (d.Negotiated? || Holds(d) || d.Connected? ==> d.psk == c.psk)
               else d.Leaving? || d.Known? || d.Unplugged? || d.Disconnected? || d.Refused?
    decreases n
  {
    hide Allocate, WithPeer, Insert;
    if m + 1 < n {
      RequestKeepsItsKey(hash, states, actions, m, n - 1);
    }
  }

  /** How many of the first n actions are calls made by request `id`. */
  function RunsOf(actions: seq<Action>, id: nat, n: nat): nat
    requires n <= |actions|
  {
    if n == 0 then 0
    else RunsOf(actions, id, n - 1) + if actions[n - 1].Run? && actions[n - 1].id == id then 1 else 0
  }

  lemma EachCallCounts(hash: Bytes -> string, w: World, c: Call, ok: bool)
    requires !Done(c)
    ensures StepsLeft(Advance(hash, w, c, ok).1) < StepsLeft(c)
  {
  }

  /** No request makes more than four calls, and one that has made four is done. */
  lemma {:induction false} FourCallsAtMost(
    hash: Bytes -> string, states: seq<State>, actions: seq<Action>, id: nat, n: nat)
    requires IsRun(hash, states, actions) && states[0].calls == map[] && n < |states|
    ensures if id in states[n].calls then RunsOf(actions, id, n) + StepsLeft(states[n].calls[id]) <= 4
            else RunsOf(actions, id, n) == 0
    ensures RunsOf(actions, id, n) <= 4
    ensures RunsOf(actions, id, n) == 4 ==> id in states[n].calls && Done(states[n].calls[id])
  {
    hide Advance;
    if n > 0 {
      FourCallsAtMost(hash, states, actions, id, n - 1);
      var s, a := states[n - 1], actions[n - 1];
      if a.Run? {
        EachCallCounts(hash, s.world, s.calls[a.id], a.ok);
      }
    }
  }

  /** Request `id` makes the rest of its calls in a row, with the given luck. */
  function RestInARow(hash: Bytes -> string, s: State, id: nat, o: Outcomes): State
    requires id in s.calls
    decreases StepsLeft(s.calls[id])
  {
    if Done(s.calls[id]) then s
    else
      EachCallCounts(hash, s.world, s.calls[id], Outcome(s.calls[id], o));
      RestInARow(hash, Next(hash, s, Run(id, Outcome(s.calls[id], o))), id, o)
  }

  /** That does to the tables what the request alone does, and leaves every other request as it was. */
  lemma {:induction false} RestIsFinish(hash: Bytes -> string, s: State, id: nat, o: Outcomes)
    requires id in s.calls
    ensures var (w, c) := Finish(hash, s.world, s.calls[id], o);
            RestInARow(hash, s, id, o) == State(w, s.calls[id := c])
    decreases StepsLeft(s.calls[id])
  {
    if Done(s.calls[id]) {
      assert s.calls[id := s.calls[id]] == s.calls;
    } else {
      var ok := Outcome(s.calls[id], o);
      EachCallCounts(hash, s.world, s.calls[id], ok);
      var s' := Next(hash, s, Run(id, ok));
      hide Advance;
      RestIsFinish(hash, s', id, o);
      var c := Finish(hash, s'.world, s'.calls[id], o).1;
      assert s'.calls[id := c] == s.calls[id := c];
    }
  }

  /** Distinct addresses in each table, all of them usable, on hold ones included. */
  ghost predicate Sound(s: State) {
    && AddressesUnique(s.world.store) && AddressesUsable(s.world.store) && AllowedUnique(s.world.kernel)
    && forall i :: i in s.calls && Holds(s.calls[i]) ==> UsableText(s.calls[i].address)
  }

  lemma RemovalSize(t: Table, key: string)
    ensures |t - {key}| == |t| - (if key in t then 1 else 0)
  {
    assert (t - {key}).Keys == t.Keys - {key};
    assert |(t - {key}).Keys| == |t - {key}| && |t.Keys| == |t|;
  }

  lemma AdvanceKeepsStore(hash: Bytes -> string, w: World, c: Call, ok: bool)
    requires AddressesUnique(w.store) && AddressesUsable(w.store)
    requires !Done(c) && (Holds(c) ==> UsableText(c.address))
    ensures var w' := Advance(hash, w, c, ok).0;
            AddressesUnique(w'.store) && AddressesUsable(w'.store) && -1 <= |w'.store| - |w.store| <= 1
  {
    hide UsableText;
    var w' := Advance(hash, w, c, ok).0;
    if c.Installed? && ok {
      InsertKeepsTable(w.store, c.key, Row(c.address, hash(c.psk)));
    } else if c.Unplugged? && ok && c.key in w.store {
      RemovalSize(w.store, c.key);
      assert w'.store == w.store - {c.key};
    } else {
      assert w'.store == w.store;
    }
  }

  lemma AdvanceKeepsKernel(hash: Bytes -> string, w: World, c: Call, ok: bool)
    requires AllowedUnique(w.kernel) && !Done(c)
    ensures AllowedUnique(Advance(hash, w, c, ok).0.kernel)
  {
    if c.Holding? {
      WithPeerEffect(w.kernel, c.key, c.psk, Cidr(c.address));
    }
  }

  lemma HeldIsUsable(hash: Bytes -> string, w: World, c: Call, ok: bool)
    requires !Done(c) && (Holds(c) ==> UsableText(c.address))
    ensures var c' := Advance(hash, w, c, ok).1;
            Holds(c') ==> UsableText(c'.address)
  {
  }

  lemma StepKeepsSound(hash: Bytes -> string, s: State, a: Action)
    requires Sound(s) && Enabled(s, a)
    ensures Sound(Next(hash, s, a))
    ensures -1 <= |Next(hash, s, a).world.store| - |s.world.store| <= 1
  {
    if a.Run? {
      AdvanceKeepsStore(hash, s.world, s.calls[a.id], a.ok);
      AdvanceKeepsKernel(hash, s.world, s.calls[a.id], a.ok);
      HeldIsUsable(hash, s.world, s.calls[a.id], a.ok);
    }
  }

  /** Whatever the interleaving: addresses stay distinct and usable, never the server's own
      10.8.0.1, and a step changes the row count by at most one. */
  lemma {:induction false} EveryStoreIsSound(hash: Bytes -> string, states: seq<State>, actions: seq<Action>, n: nat)
    requires IsRun(hash, states, actions) && Sound(states[0]) && n < |states|
    ensures Sound(states[n])
    ensures Dotted(1) !in Addresses(states[n].world.store)
    ensures n > 0 ==> -1 <= |states[n].world.store| - |states[n - 1].world.store| <= 1
  {
    if n > 0 {
      EveryStoreIsSound(hash, states, actions, n - 1);
      StepKeepsSound(hash, states[n - 1], actions[n - 1]);
    }
    if Dotted(1) in Addresses(states[n].world.store) {
      var k :| k in states[n].world.store && states[n].world.store[k].address == Dotted(1);
      var v: nat :| Usable(v) && Dotted(v) == Dotted(1);
      DottedInjective(v, 1);
      assert false;
    }
  }
}
