/** Exactly when the two tables agree about a key, after any requests with any failures. */
module Agreement {
  import opened Wrappers
  import opened Ipv4
  import opened Peers
  import opened Wireguard
  import opened Handlers
  import opened Sequential
  import opened Registry
  import opened Overlap

  /** The last thing a request did to one key's entry of one table. A kernel peer is stripped when
      its address is given to another key. */
  datatype Change =
    | Nobody
    | SetBy(id: nat, psk: Bytes, address: string)
    | RemovedBy(id: nat)
    | StrippedBy(id: nat)

  /** The last change to the kernel peer of `k`, given the one before the action. */
  function KernelAfter(s: State, a: Action, k: string, last: Change): Change
    requires Enabled(s, a)
  {
    if a.Arrive? || !a.ok then last
    else
      match s.calls[a.id]
      case Holding(key, psk, address) =>
        if key == k then SetBy(a.id, psk, address)
        else if last.SetBy? && last.address == address then StrippedBy(a.id)
        else last
      case CleaningUp(key, _, _) => if key == k then RemovedBy(a.id) else last
      case Known(key) => if key == k then RemovedBy(a.id) else last
      case _ => last
  }

  /** The last change to the row of `k`, given the one before the action. An insert removes the row
      another key has at its address. */
  function RowAfter(s: State, a: Action, k: string, last: Change): Change
    requires Enabled(s, a)
  {
    if a.Arrive? || !a.ok then last
    else
      match s.calls[a.id]
      case Installed(key, psk, address) =>
        if key == k then SetBy(a.id, psk, address)
        else if k in s.world.store && s.world.store[k].address == address then RemovedBy(a.id)
        else last
      case Unplugged(key) => if key == k && k in s.world.store then RemovedBy(a.id) else last
      case _ => last
  }

  /** The last change to the kernel peer of `k` in the first `n` actions. */
  ghost function LastKernel(hash: Bytes -> string, states: seq<State>, actions: seq<Action>, k: string, n: nat): Change
    requires IsRun(hash, states, actions) && n < |states|
  {
    if n == 0 then Nobody
    else KernelAfter(states[n - 1], actions[n - 1], k, LastKernel(hash, states, actions, k, n - 1))
  }

  /** The last change to the row of `k` in the first `n` actions. */
  ghost function LastRow(hash: Bytes -> string, states: seq<State>, actions: seq<Action>, k: string, n: nat): Change
    requires IsRun(hash, states, actions) && n < |states|
  {
    if n == 0 then Nobody
    else RowAfter(states[n - 1], actions[n - 1], k, LastRow(hash, states, actions, k, n - 1))
  }

  /** The two tables do not disagree about `k`. */
  ghost predicate Agree(hash: Bytes -> string, w: World, k: string) {
    k in w.kernel ==> Matches(hash, w, k)
  }

  /** The peer was never touched, or removed, or it is still as the request left it that was also the
      last to write the row. */
  predicate SameRequest(kernel: Change, row: Change) {
    kernel.Nobody? || kernel.RemovedBy? || (kernel.SetBy? && row.SetBy? && kernel.id == row.id)
  }

  /** The row a request stores if it gets that far. */
  function RowFor(hash: Bytes -> string, c: Call): Row
    requires Holds(c)
  {
    Row(c.address, hash(c.psk))
  }

  function SetRow(hash: Bytes -> string, c: Change): Row
    requires c.SetBy?
  {
    Row(c.address, hash(c.psk))
  }

  /** The same, but by a request for that row instead of that very request. */
  predicate SameRow(hash: Bytes -> string, kernel: Change, row: Change) {
    kernel.Nobody? || kernel.RemovedBy? || (kernel.SetBy? && row.SetBy? && SetRow(hash, kernel) == SetRow(hash, row))
  }

  // ---------- what the last changes say about the entries ----------

  ghost predicate KernelEntry(hash: Bytes -> string, w: World, k: string, kernel: Change) {
    match kernel
    case Nobody => k in w.kernel ==> Matches(hash, w, k)
    case SetBy(_, psk, address) => k in w.kernel && w.kernel[k] == KernelPeer(psk, Some(Cidr(address)))
    case RemovedBy(_) => k !in w.kernel
    case StrippedBy(_) => k in w.kernel && w.kernel[k].allowed == None
  }

  /** A row no request has written is at an address that none holds or was the last to set for `k`. */
  ghost predicate RowEntry(hash: Bytes -> string, s: State, k: string, kernel: Change, row: Change) {
    match row
    case Nobody => k in s.world.store ==> NobodyHas(s, kernel, s.world.store[k].address)
    case SetBy(id, _, _) => k in s.world.store && s.world.store[k] == SetRow(hash, row)
    case _ => k !in s.world.store
  }

  ghost predicate NobodyHas(s: State, kernel: Change, address: string) {
    && (kernel.SetBy? ==> kernel.address != address)
    && forall i :: i in s.calls && Holds(s.calls[i]) ==> s.calls[i].address != address
  }

  /** No request has got as far as its first change unless there is a last change to the peer. */
  ghost predicate Untouched(s: State, k: string, row: Change) {
    row.Nobody? && forall i :: i in s.calls && s.calls[i].key == k ==> !MidWrite(s.calls[i]) && !s.calls[i].Unplugged?
  }

  ghost predicate Entries(hash: Bytes -> string, s: State, k: string, kernel: Change, row: Change) {
    && KernelEntry(hash, s.world, k, kernel) && RowEntry(hash, s, k, kernel, row)
    && (kernel.Nobody? ==> Untouched(s, k, row))
  }

  /** Giving an address to another key strips the peer of `k` exactly when it was last set with it. */
  lemma RivalKeepsKernelEntry(hash: Bytes -> string, s: State, id: nat, k: string, kernel: Change, row: Change)
    requires Entries(hash, s, k, kernel, row) && id in s.calls && s.calls[id].Holding? && s.calls[id].key != k
    ensures KernelEntry(hash, Next(hash, s, Run(id, true)).world, k, KernelAfter(s, Run(id, true), k, kernel))
  {
    var c := s.calls[id];
    if kernel.SetBy? {
      CidrInjective(kernel.address, c.address);
    } else if kernel.Nobody? && k in s.world.kernel {
      CidrInjective(s.world.store[k].address, c.address);
    }
    hide Cidr;
  }

  lemma StepKeepsKernelEntry(hash: Bytes -> string, s: State, a: Action, k: string, kernel: Change, row: Change)
    requires Enabled(s, a) && Entries(hash, s, k, kernel, row)
    ensures KernelEntry(hash, Next(hash, s, a).world, k, KernelAfter(s, a, k, kernel))
  {
    hide Allocate, Cidr;
    if a.Run? && a.ok && s.calls[a.id].Holding? && s.calls[a.id].key != k {
      RivalKeepsKernelEntry(hash, s, a.id, k, kernel, row);
    } else if a.Run? && a.ok && s.calls[a.id].Installed? {
      assert Next(hash, s, a).world.kernel == s.world.kernel;
      hide WithPeer;
    } else {
      assert Next(hash, s, a).world.kernel == s.world.kernel || s.calls[a.id].key == k || !s.calls[a.id].Holding?;
      hide Insert;
    }
  }

  /** While a row is there nobody is given its address. */
  lemma NobodyGets(hash: Bytes -> string, s: State, a: Action, k: string, kernel: Change, address: string)
    requires Enabled(s, a) && address in Addresses(s.world.store) && NobodyHas(s, kernel, address)
    ensures NobodyHas(Next(hash, s, a), KernelAfter(s, a, k, kernel), address)
  {
    hide WithPeer, Insert, Cidr, LeastFree;
  }

  lemma StepKeepsRowEntry(hash: Bytes -> string, s: State, a: Action, k: string, kernel: Change, row: Change)
    requires Enabled(s, a) && Entries(hash, s, k, kernel, row)
    ensures RowEntry(hash, Next(hash, s, a), k, KernelAfter(s, a, k, kernel), RowAfter(s, a, k, row))
  {
    if row.Nobody? && k in s.world.store {
      NobodyGets(hash, s, a, k, kernel, s.world.store[k].address);
    }
    hide WithPeer, Cidr, KernelEntry, Allocate, NobodyHas, Addresses, KernelAfter;
  }

  lemma StepKeepsUntouched(hash: Bytes -> string, s: State, a: Action, k: string, kernel: Change, row: Change)
    requires Enabled(s, a) && Entries(hash, s, k, kernel, row) && KernelAfter(s, a, k, kernel).Nobody?
    ensures Untouched(Next(hash, s, a), k, RowAfter(s, a, k, row))
  {
    hide WithPeer, Insert, Allocate, Cidr, KernelEntry;
  }

  lemma {:induction false} RunKeepsEntries(
    hash: Bytes -> string, states: seq<State>, actions: seq<Action>, k: string, n: nat)
    requires IsRun(hash, states, actions) && n < |states|
    requires states[0].calls == map[] && Consistent(hash, states[0].world)
    ensures AddressesUnique(states[n].world.store)
    ensures Entries(hash, states[n], k, LastKernel(hash, states, actions, k, n), LastRow(hash, states, actions, k, n))
  {
    if n > 0 {
      hide Entries, Next, Enabled, Consistent, KernelAfter, RowAfter;
      RunKeepsEntries(hash, states, actions, k, n - 1);
      var s, a := states[n - 1], actions[n - 1];
      var kernel, row := LastKernel(hash, states, actions, k, n - 1), LastRow(hash, states, actions, k, n - 1);
      StoreStaysUnique(hash, s, a);
      StepKeepsKernelEntry(hash, s, a, k, kernel, row);
      StepKeepsRowEntry(hash, s, a, k, kernel, row);
      if KernelAfter(s, a, k, kernel).Nobody? {
        StepKeepsUntouched(hash, s, a, k, kernel, row);
      }
    }
  }

  lemma EntriesDecide(hash: Bytes -> string, s: State, k: string, kernel: Change, row: Change)
    requires Entries(hash, s, k, kernel, row)
    ensures Agree(hash, s.world, k) <==> SameRow(hash, kernel, row)
  {
    if kernel.SetBy? && k in s.world.store {
      CidrInjective(kernel.address, s.world.store[k].address);
    }
  }

  // ---------- when that takes the same request ----------

  /** Two connects for one key that hold one address at once, as when a client asks again, have
      negotiated PSKs that hash differently. */
  ghost predicate RetriesDiffer(hash: Bytes -> string, s: State) {
    forall i, j :: i in s.calls && j in s.calls && SameHeld(s.calls[i], s.calls[j]) && i != j
                   ==> s.calls[i].key == s.calls[j].key ==> hash(s.calls[i].psk) != hash(s.calls[j].psk)
  }

  /** A request still under way would not write the row another one has written, or set its peer for. */
  ghost predicate Apart(hash: Bytes -> string, c: Call, id: nat, k: string, kernel: Change, row: Change) {
    c.key == k && Holds(c) ==>
      && (row.SetBy? ==> RowFor(hash, c) != SetRow(hash, row))
      && (kernel.SetBy? && MidWrite(c) && kernel.id != id ==> RowFor(hash, c) != SetRow(hash, kernel))
  }

  ghost predicate Requests(hash: Bytes -> string, s: State, k: string, kernel: Change, row: Change) {
    && (row.SetBy? ==> row.id in s.calls && s.calls[row.id].Connected?)
    && (kernel.SetBy? ==> kernel.id in s.calls && SetOnce(hash, s.calls[kernel.id], k, kernel))
    && (kernel.SetBy? && row.SetBy? ==> (kernel.id == row.id <==> SetRow(hash, kernel) == SetRow(hash, row)))
  }

  /** The request that set the peer is past that call, and stores the row for it if it gets that far. */
  ghost predicate SetOnce(hash: Bytes -> string, c: Call, k: string, kernel: Change)
    requires kernel.SetBy?
  {
    c.key == k && !c.Negotiated? && !c.Holding? && (MidWrite(c) ==> RowFor(hash, c) == SetRow(hash, kernel))
  }

  ghost predicate RequestInv(hash: Bytes -> string, s: State, k: string, kernel: Change, row: Change) {
    && Requests(hash, s, k, kernel, row)
    && forall i :: i in s.calls ==> Apart(hash, s.calls[i], i, k, kernel, row)
  }

  /** Setting and storing keep apart what different requests set and store. */
  lemma StepKeepsPairing(hash: Bytes -> string, s: State, a: Action, k: string, kernel: Change, row: Change)
    requires Enabled(s, a) && a.Run? && Requests(hash, s, k, kernel, row)
    requires Apart(hash, s.calls[a.id], a.id, k, kernel, row)
    ensures var kernel', row' := KernelAfter(s, a, k, kernel), RowAfter(s, a, k, row);
            kernel'.SetBy? && row'.SetBy?
            ==> (kernel'.id == row'.id <==> SetRow(hash, kernel') == SetRow(hash, row'))
  {
  }

  lemma StepKeepsRequests(hash: Bytes -> string, s: State, a: Action, k: string, kernel: Change, row: Change)
    requires Enabled(s, a) && RequestInv(hash, s, k, kernel, row)
    ensures Requests(hash, Next(hash, s, a), k, KernelAfter(s, a, k, kernel), RowAfter(s, a, k, row))
  {
    if a.Run? {
      assert Apart(hash, s.calls[a.id], a.id, k, kernel, row);
      StepKeepsPairing(hash, s, a, k, kernel, row);
    }
    hide WithPeer, Insert, Allocate, Cidr, Apart, RequestInv;
  }

  /** The request that moved: a newly given address is in no row. */
  lemma MovedIsApart(hash: Bytes -> string, s: State, a: Action, k: string, kernel: Change, row: Change)
    requires Enabled(s, a) && a.Run? && RowEntry(hash, s, k, kernel, row)
    requires Apart(hash, s.calls[a.id], a.id, k, kernel, row)
    ensures var c := Next(hash, s, a).calls[a.id];
            Apart(hash, c, a.id, k, KernelAfter(s, a, k, kernel), RowAfter(s, a, k, row))
  {
    if s.calls[a.id].Negotiated? {
      assert row.SetBy? ==> s.world.store[k].address in Addresses(s.world.store);
      hide Addresses;
    }
    hide WithPeer, Insert, Cidr, LeastFree, UsableText;
  }

  /** Any other request, when its rival writes. */
  lemma OtherIsApart(
    hash: Bytes -> string, s: State, a: Action, k: string, kernel: Change, row: Change, i: nat)
    requires Enabled(s, a) && RetriesDiffer(hash, s) && i in s.calls && i != a.id
    requires Apart(hash, s.calls[i], i, k, kernel, row)
    ensures Apart(hash, s.calls[i], i, k, KernelAfter(s, a, k, kernel), RowAfter(s, a, k, row))
  {
    if a.Run? && SameHeld(s.calls[i], s.calls[a.id]) && s.calls[a.id].key == s.calls[i].key {
      assert hash(s.calls[i].psk) != hash(s.calls[a.id].psk);
    }
    hide RetriesDiffer;
  }

  lemma {:induction false} RunKeepsRequests(
    hash: Bytes -> string, states: seq<State>, actions: seq<Action>, k: string, n: nat)
    requires IsRun(hash, states, actions) && n < |states|
    requires states[0].calls == map[] && Consistent(hash, states[0].world)
    requires forall i :: 0 <= i < n ==> RetriesDiffer(hash, states[i])
    ensures var kernel, row := LastKernel(hash, states, actions, k, n), LastRow(hash, states, actions, k, n);
            RequestInv(hash, states[n], k, kernel, row)
  {
    if n > 0 {
      hide RequestInv, Entries, RetriesDiffer, Next, Enabled, Consistent, KernelAfter, RowAfter;
      RunKeepsRequests(hash, states, actions, k, n - 1);
      RunKeepsEntries(hash, states, actions, k, n - 1);
      StepKeepsRequestInv(
        hash, states[n - 1], actions[n - 1], k, LastKernel(hash, states, actions, k, n - 1),
        LastRow(hash, states, actions, k, n - 1));
    }
  }

  lemma StepKeepsRequestInv(hash: Bytes -> string, s: State, a: Action, k: string, kernel: Change, row: Change)
    requires Enabled(s, a) && RequestInv(hash, s, k, kernel, row) && RetriesDiffer(hash, s)
    requires Entries(hash, s, k, kernel, row)
    ensures RequestInv(hash, Next(hash, s, a), k, KernelAfter(s, a, k, kernel), RowAfter(s, a, k, row))
  {
    var s' := Next(hash, s, a);
    StepKeepsRequests(hash, s, a, k, kernel, row);
    forall i | i in s'.calls
      ensures Apart(hash, s'.calls[i], i, k, KernelAfter(s, a, k, kernel), RowAfter(s, a, k, row))
    {
      if i in s.calls {
        assert Apart(hash, s.calls[i], i, k, kernel, row);
        if i == a.id {
          MovedIsApart(hash, s, a, k, kernel, row);
        } else {
          OtherIsApart(hash, s, a, k, kernel, row, i);
          assert s'.calls[i] == s.calls[i];
        }
      }
    }
  }

  // ---------- the theorem ----------

  /** At every moment of every run, with any requests, any of their calls failing and any addresses
      and keys shared: the tables agree about a key if and only if no request has changed its kernel
      peer, or the last change removed it, or it is still as some request set it and a request for
      the same address and PSK hash was the last to change the row. */
  lemma AgreeIffSameRow(hash: Bytes -> string, states: seq<State>, actions: seq<Action>, n: nat)
    requires IsRun(hash, states, actions) && n < |states|
    requires states[0].calls == map[] && Consistent(hash, states[0].world)
    ensures forall k :: Agree(hash, states[n].world, k)
              <==> SameRow(hash, LastKernel(hash, states, actions, k, n), LastRow(hash, states, actions, k, n))
    ensures Consistent(hash, states[n].world) <==> forall k :: Agree(hash, states[n].world, k)
  {
    RunKeepsEntries(hash, states, actions, "", n);
    forall k ensures Agree(hash, states[n].world, k)
               <==> SameRow(hash, LastKernel(hash, states, actions, k, n), LastRow(hash, states, actions, k, n))
    {
      RunKeepsEntries(hash, states, actions, k, n);
      EntriesDecide(hash, states[n], k, LastKernel(hash, states, actions, k, n), LastRow(hash, states, actions, k, n));
    }
    ConsistentIsAgreement(hash, states[n].world);
  }

  lemma ConsistentIsAgreement(hash: Bytes -> string, w: World)
    requires AddressesUnique(w.store)
    ensures Consistent(hash, w) <==> forall k :: Agree(hash, w, k)
  {
    if forall k :: Agree(hash, w, k) {
      forall k | k in w.kernel ensures Matches(hash, w, k) {
        assert Agree(hash, w, k);
      }
    }
  }

  /** When moreover PSKs do not repeat, that takes the very request that set the peer: the tables
      agree about a key if and only if no request has changed its kernel peer, or the last change
      removed it, or it is still as one request set it, and that one was the last to change the row. */
  lemma {:induction false} AgreeIffSameRequest(
    hash: Bytes -> string, states: seq<State>, actions: seq<Action>, n: nat)
    requires IsRun(hash, states, actions) && n < |states|
    requires states[0].calls == map[] && Consistent(hash, states[0].world)
    requires forall i :: 0 <= i < n ==> RetriesDiffer(hash, states[i])
    ensures forall k :: Agree(hash, states[n].world, k)
              <==> SameRequest(LastKernel(hash, states, actions, k, n), LastRow(hash, states, actions, k, n))
    ensures Consistent(hash, states[n].world)
            <==> forall k :: SameRequest(LastKernel(hash, states, actions, k, n), LastRow(hash, states, actions, k, n))
  {
    AgreeIffSameRow(hash, states, actions, n);
    forall k ensures SameRequest(LastKernel(hash, states, actions, k, n), LastRow(hash, states, actions, k, n))
               <==> SameRow(hash, LastKernel(hash, states, actions, k, n), LastRow(hash, states, actions, k, n))
    {
      RunKeepsRequests(hash, states, actions, k, n);
    }
    hide Agree, Consistent;
  }

  // ---------- PSKs that never repeat ----------

  /** No two connects that arrive for one key bring PSKs that hash alike. */
  ghost predicate PsksDiffer(hash: Bytes -> string, actions: seq<Action>) {
    forall m, n :: 0 <= m < n < |actions| && SameKeyArrives(actions[m], actions[n])
                   ==> hash(actions[m].call.psk) != hash(actions[n].call.psk)
  }

  predicate SameKeyArrives(a: Action, b: Action) {
    a.Arrive? && b.Arrive? && a.call.Negotiated? && b.call.Negotiated? && a.call.key == b.call.key
  }

  ghost predicate HasArrived(actions: seq<Action>, n: nat, id: nat, c: Call)
    requires n <= |actions|
  {
    Holds(c) || c.Negotiated? ==> exists m :: 0 <= m < n && actions[m] == Arrive(id, Negotiated(c.key, c.psk))
  }

  lemma {:induction false} CallsHaveArrived(
    hash: Bytes -> string, states: seq<State>, actions: seq<Action>, n: nat, id: nat)
    requires IsRun(hash, states, actions) && states[0].calls == map[] && n < |states| && id in states[n].calls
    ensures HasArrived(actions, n, id, states[n].calls[id])
  {
    var s, a := states[n - 1], actions[n - 1];
    if id in s.calls {
      CallsHaveArrived(hash, states, actions, n - 1, id);
    } else {
      assert a.Arrive? && a.id == id;
    }
  }

  /** PSKs that hash differently whenever they are for one key are enough for `AgreeIffSameRequest`. */
  lemma FreshPsksAreEnough(hash: Bytes -> string, states: seq<State>, actions: seq<Action>, n: nat)
    requires IsRun(hash, states, actions) && states[0].calls == map[] && n < |states|
    requires PsksDiffer(hash, actions)
    ensures RetriesDiffer(hash, states[n])
  {
    var s := states[n];
    forall i, j | i in s.calls && j in s.calls && SameHeld(s.calls[i], s.calls[j]) && i != j
                  && s.calls[i].key == s.calls[j].key
      ensures hash(s.calls[i].psk) != hash(s.calls[j].psk)
    {
      CallsHaveArrived(hash, states, actions, n, i);
      CallsHaveArrived(hash, states, actions, n, j);
      var l :| 0 <= l < n && actions[l] == Arrive(i, Negotiated(s.calls[i].key, s.calls[i].psk));
      var m :| 0 <= m < n && actions[m] == Arrive(j, Negotiated(s.calls[j].key, s.calls[j].psk));
      assert SameKeyArrives(actions[l], actions[m]) && SameKeyArrives(actions[m], actions[l]);
    }
  }

  // ---------- a client that asks again too soon ----------

  /** Two connects for one key, every call of both succeeding: the kernel is left with the PSK of
      the second and the row with the hash of the first. */
  lemma RetryPartsTheTables(hash: Bytes -> string, w: World, key: string, psk: Bytes, retry: Bytes)
    returns (states: seq<State>, actions: seq<Action>)
    requires Consistent(hash, w) && |w.store| < CAPACITY && hash(psk) != hash(retry)
    ensures IsRun(hash, states, actions) && states[0] == State(w, map[])
    ensures forall b :: b in actions ==> b.Run? ==> b.ok
    ensures Allocate(w.store).Some?
    ensures var ip, last := Allocate(w.store).value, states[|actions|];
            && last.calls == Pair(Connected(key, psk, ip), Connected(key, retry, ip))
            && key in last.world.kernel && last.world.kernel[key].psk == retry
            && key in last.world.store && last.world.store[key].pskHash == hash(psk)
            && !Consistent(hash, last.world)
  {
    AllocateFailsOnlyWhenFull(w.store);
    var ip := Allocate(w.store).value;
    states, actions := BothHold(hash, w, key, psk, key, retry, ip);
    states, actions := BothWrite(hash, states, actions, w, key, psk, retry, ip);
    assert !Matches(hash, states[|actions|].world, key);
  }

  /** The first of two requests makes its next call. */
  lemma MoveFirst(
    hash: Bytes -> string, states: seq<State>, actions: seq<Action>, w: World, a: Call, b: Call, w': World, a': Call)
    returns (states': seq<State>, actions': seq<Action>)
    requires IsRun(hash, states, actions) && |states| == |actions| + 1 && states[|actions|] == State(w, Pair(a, b))
    requires forall b :: b in actions ==> b.Run? ==> b.ok
    requires !Done(a) && Advance(hash, w, a, true) == (w', a')
    ensures IsRun(hash, states', actions') && |states'| == |actions'| + 1 && states'[0] == states[0]
    ensures forall b :: b in actions' ==> b.Run? ==> b.ok
    ensures states'[|actions'|] == State(w', Pair(a', b))
  {
    hide IsRun, Advance;
    assert Pair(a, b)[0 := a'] == Pair(a', b);
    states', actions' := Grow(hash, states, actions, Run(0, true), State(w', Pair(a', b)));
  }

  /** The second of two requests makes its next call. */
  lemma MoveSecond(
    hash: Bytes -> string, states: seq<State>, actions: seq<Action>, w: World, a: Call, b: Call, w': World, b': Call)
    returns (states': seq<State>, actions': seq<Action>)
    requires IsRun(hash, states, actions) && |states| == |actions| + 1 && states[|actions|] == State(w, Pair(a, b))
    requires forall b :: b in actions ==> b.Run? ==> b.ok
    requires !Done(b) && Advance(hash, w, b, true) == (w', b')
    ensures IsRun(hash, states', actions') && |states'| == |actions'| + 1 && states'[0] == states[0]
    ensures forall b :: b in actions' ==> b.Run? ==> b.ok
    ensures states'[|actions'|] == State(w', Pair(a, b'))
  {
    hide IsRun, Advance;
    assert Pair(a, b)[1 := b'] == Pair(a, b');
    states', actions' := Grow(hash, states, actions, Run(1, true), State(w', Pair(a, b')));
  }

  /** The first sets its peer, the second sets its own over it and stores its row, and then the
      first stores its row over that. */
  lemma BothWrite(
    hash: Bytes -> string, states: seq<State>, actions: seq<Action>, w: World, key: string, psk: Bytes, retry: Bytes,
    ip: string)
    returns (states': seq<State>, actions': seq<Action>)
    requires IsRun(hash, states, actions) && |states| == |actions| + 1
    requires forall b :: b in actions ==> b.Run? ==> b.ok
    requires states[|actions|] == State(w, Pair(Holding(key, psk, ip), Holding(key, retry, ip)))
    ensures IsRun(hash, states', actions') && |states'| == |actions'| + 1 && states'[0] == states[0]
    ensures forall b :: b in actions' ==> b.Run? ==> b.ok
    ensures var last := states'[|actions'|];
            && last.calls == Pair(Connected(key, psk, ip), Connected(key, retry, ip))
            && key in last.world.kernel && last.world.kernel[key].psk == retry
            && key in last.world.store && last.world.store[key].pskHash == hash(psk)
  {
    hide IsRun;
    var h1, h2 := Holding(key, psk, ip), Holding(key, retry, ip);
    var i1, i2 := Installed(key, psk, ip), Installed(key, retry, ip);
    var c1, c2 := Connected(key, psk, ip), Connected(key, retry, ip);
    var w1, w2 := Advance(hash, w, h1, true).0, Advance(hash, Advance(hash, w, h1, true).0, h2, true).0;
    states', actions' := MoveFirst(hash, states, actions, w, h1, h2, w1, i1);
    states', actions' := MoveSecond(hash, states', actions', w1, i1, h2, w2, i2);
    var w3 := Advance(hash, w2, i2, true).0;
    states', actions' := MoveSecond(hash, states', actions', w2, i1, i2, w3, c2);
    var w4 := Advance(hash, w3, i1, true).0;
    states', actions' := MoveFirst(hash, states', actions', w3, i1, c2, w4, c1);
  }

  lemma BothHold(
    hash: Bytes -> string, w: World, a: string, pskA: Bytes, b: string, pskB: Bytes, ip: string)
    returns (states: seq<State>, actions: seq<Action>)
    requires Allocate(w.store) == Some(ip)
    ensures IsRun(hash, states, actions) && |states| == |actions| + 1 && states[0] == State(w, map[])
    ensures forall b :: b in actions ==> b.Run? ==> b.ok
    ensures states[|actions|] == State(w, Pair(Holding(a, pskA, ip), Holding(b, pskB, ip)))
  {
    states, actions := [State(w, map[])], [];
    assert IsRun(hash, states, actions);
    hide IsRun, Allocate;
    var n1, n2, h1, h2 := Negotiated(a, pskA), Negotiated(b, pskB), Holding(a, pskA, ip), Holding(b, pskB, ip);
    states, actions := Grow(hash, states, actions, Arrive(0, n1), State(w, map[0 := n1]));
    states, actions := Grow(hash, states, actions, Arrive(1, n2), State(w, Pair(n1, n2)));
    states, actions := MoveFirst(hash, states, actions, w, n1, n2, w, h1);
    states, actions := MoveSecond(hash, states, actions, w, h1, n2, w, h2);
  }

  // ---------- a rival that gives up ----------

  /** Two connects for different keys are given one address. The second takes it from the first's
      peer, then fails to store its row and cleans up; the first is accepted and left with no
      address in the kernel. */
  lemma RivalStripsTheClient(hash: Bytes -> string, w: World, a: string, b: string, pskA: Bytes, pskB: Bytes)
    returns (states: seq<State>, actions: seq<Action>)
    requires Consistent(hash, w) && |w.store| < CAPACITY && a != b
    ensures IsRun(hash, states, actions) && states[0] == State(w, map[]) && Allocate(w.store).Some?
    ensures var ip, last := Allocate(w.store).value, states[|actions|];
            && last.calls == Pair(Connected(a, pskA, ip), Refused(b, 500, "failed to store peer information"))
            && b !in last.world.kernel && a in last.world.kernel && last.world.kernel[a] == KernelPeer(pskA, None)
            && a in last.world.store && last.world.store[a] == Row(ip, hash(pskA))
            && !Consistent(hash, last.world)
  {
    AllocateFailsOnlyWhenFull(w.store);
    var ip := Allocate(w.store).value;
    var ha, hb, ia, ib := Holding(a, pskA, ip), Holding(b, pskB, ip), Installed(a, pskA, ip), Installed(b, pskB, ip);
    states, actions := BothHold(hash, w, a, pskA, b, pskB, ip);
    hide IsRun, Allocate;
    var w1 := Advance(hash, w, ha, true).0;
    states, actions := MoveFirst(hash, states, actions, w, ha, hb, w1, ia);
    var w2 := Advance(hash, w1, hb, true).0;
    states, actions := MoveSecond(hash, states, actions, w1, ia, hb, w2, ib);
    assert a in w2.kernel && w2.kernel[a] == KernelPeer(pskA, None);
    states, actions := SecondGivesUp(hash, states, actions, w2, ia, ib);
    assert !Matches(hash, states[|actions|].world, a);
  }

  /** The second cannot store its row and cleans up, and then the first stores its own. */
  lemma SecondGivesUp(hash: Bytes -> string, states: seq<State>, actions: seq<Action>, w: World, a: Call, b: Call)
    returns (states': seq<State>, actions': seq<Action>)
    requires IsRun(hash, states, actions) && |states| == |actions| + 1
    requires a.Installed? && b.Installed? && states[|actions|] == State(w, Pair(a, b))
    ensures IsRun(hash, states', actions') && |states'| == |actions'| + 1 && states'[0] == states[0]
    ensures states'[|actions'|] ==
            State(World(Insert(w.store, a.key, RowFor(hash, a)), w.kernel - {b.key}),
                  Pair(Connected(a.key, a.psk, a.address), Refused(b.key, 500, "failed to store peer information")))
  {
    hide IsRun, Insert;
    var cleaning := CleaningUp(b.key, b.psk, b.address);
    var refused := Refused(b.key, 500, "failed to store peer information");
    var without := World(w.store, w.kernel - {b.key});
    var stored := World(Insert(w.store, a.key, RowFor(hash, a)), w.kernel - {b.key});
    assert Pair(a, b)[1 := cleaning] == Pair(a, cleaning) && Pair(a, cleaning)[1 := refused] == Pair(a, refused);
    states', actions' := Grow(hash, states, actions, Run(1, false), State(w, Pair(a, cleaning)));
    states', actions' := Grow(hash, states', actions', Run(1, true), State(without, Pair(a, refused)));
    var connected := Connected(a.key, a.psk, a.address);
    assert Pair(a, refused)[0 := connected] == Pair(connected, refused);
    states', actions' := Grow(hash, states', actions', Run(0, true), State(stored, Pair(connected, refused)));
  }
}
