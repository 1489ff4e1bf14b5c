/** GetLimiter called by any number of threads: a look under the read lock, then, if nothing is
    there, another under the write lock before anything is stored. */
module LimiterCache {
  /** Limiters are known by the order of their creation. */
  datatype Thread =
    | Start(key: string)                    // asks for the read lock
    | Reading(key: string)                  // holds it, looks the key up
    | Found(key: string, id: nat)           // holds it, has its answer
    | Missed(key: string)                   // holds it, found nothing
    | Announcing(key: string)               // holds no lock, asks to be the next writer
    | Draining(key: string)                 // next writer, waits for the readers to leave
    | Writing(key: string)                  // holds the write lock, looks again
    | Creating(key: string)                 // holds it, found nothing again
    | Storing(key: string, id: nat)         // holds it, has a new limiter
    | Leaving(key: string, id: nat)         // holds it, has its answer
    | Returned(key: string, id: nat)

  /** `log` has the key each limiter was created for, in order. */
  datatype State = State(ips: map<string, nat>, log: seq<string>, threads: map<nat, Thread>)

  predicate HoldsRead(t: Thread) {
    t.Reading? || t.Found? || t.Missed?
  }

  predicate HoldsWrite(t: Thread) {
    t.Writing? || t.Creating? || t.Storing? || t.Leaving?
  }

  /** Once a writer is announced, no new reader is let in. */
  predicate IsWriter(t: Thread) {
    t.Draining? || HoldsWrite(t)
  }

  ghost predicate NoWriter(s: State) {
    forall j :: j in s.threads ==> !IsWriter(s.threads[j])
  }

  ghost predicate NoReader(s: State) {
    forall j :: j in s.threads ==> !HoldsRead(s.threads[j])
  }

  /** Can the thread make its next move? */
  ghost predicate CanStep(s: State, i: nat) {
    && i in s.threads
    && match s.threads[i]
       case Start(_) => NoWriter(s)
       case Announcing(_) => NoWriter(s)
       case Draining(_) => NoReader(s)
       case Returned(_, _) => false
       case _ => true
  }

  function Step(s: State, i: nat): State
    requires i in s.threads
  {
    match s.threads[i]
    case Start(key) => s.(threads := s.threads[i := Reading(key)])
    case Reading(key) =>
      s.(threads := s.threads[i := if key in s.ips then Found(key, s.ips[key]) else Missed(key)])
    case Found(key, id) => s.(threads := s.threads[i := Returned(key, id)])
    case Missed(key) => s.(threads := s.threads[i := Announcing(key)])
    case Announcing(key) => s.(threads := s.threads[i := Draining(key)])
    case Draining(key) => s.(threads := s.threads[i := Writing(key)])
    case Writing(key) =>
      s.(threads := s.threads[i := if key in s.ips then Leaving(key, s.ips[key]) else Creating(key)])
    case Creating(key) => s.(log := s.log + [key], threads := s.threads[i := Storing(key, |s.log|)])
    case Storing(key, id) => s.(ips := s.ips[key := id], threads := s.threads[i := Leaving(key, id)])
    case Leaving(key, id) => s.(threads := s.threads[i := Returned(key, id)])
    case Returned(_, _) => s
  }

  /** A new call comes in, or some thread makes a move it can make. */
  datatype Action = Call(i: nat, key: string) | Move(i: nat)

  ghost predicate Enabled(s: State, a: Action) {
    match a
    case Call(i, _) => i !in s.threads
    case Move(i) => CanStep(s, i)
  }

  function Next(s: State, a: Action): State
    requires a.Move? ==> a.i in s.threads
  {
    match a
    case Call(i, key) => s.(threads := s.threads[i := Start(key)])
    case Move(i) => Step(s, i)
  }

  ghost predicate IsRun(states: seq<State>, actions: seq<Action>) {
    && |states| == |actions| + 1 && states[0] == State(map[], [], map[])
    && forall n :: 0 <= n < |actions| ==> Enabled(states[n], actions[n]) && states[n + 1] == Next(states[n], actions[n])
  }

  /** One writer, announced or inside, at most; and no reader beside one that is inside. */
  ghost predicate Locked(s: State) {
    && (forall i, j :: i in s.threads && j in s.threads && IsWriter(s.threads[i]) && IsWriter(s.threads[j]) ==> i == j)
    && forall i, j :: i in s.threads && j in s.threads && HoldsWrite(s.threads[i]) ==> !HoldsRead(s.threads[j])
  }

  ghost predicate ThreadInv(s: State, t: Thread) {
    && (t.Found? || t.Leaving? || t.Returned? ==> t.key in s.ips && s.ips[t.key] == t.id)
    && (t.Creating? || t.Storing? ==> t.key !in s.ips)
    && (t.Storing? ==> t.id == |s.log| - 1 && t.id >= 0 && s.log[t.id] == t.key)
  }

  ghost predicate SomeStoring(s: State) {
    exists i :: i in s.threads && s.threads[i].Storing?
  }

  ghost predicate Inv(s: State) {
    && Locked(s)
    && (forall i :: i in s.threads ==> ThreadInv(s, s.threads[i]))
    && (forall k :: k in s.ips ==> s.ips[k] < |s.log| && s.log[s.ips[k]] == k)
    && (forall n :: 0 <= n < |s.log| && !(s.log[n] in s.ips && s.ips[s.log[n]] == n)
                   ==> SomeStoring(s) && n == |s.log| - 1)
  }

  /** A thread takes a role only when the lock lets it. */
  lemma RolesAreGranted(s: State, a: Action)
    requires Enabled(s, a)
    ensures var t := Next(s, a).threads[a.i];
            && (IsWriter(t) ==> a.i in s.threads && (IsWriter(s.threads[a.i]) || NoWriter(s)))
            && (HoldsWrite(t)
                ==> a.i in s.threads && IsWriter(s.threads[a.i]) && (HoldsWrite(s.threads[a.i]) || NoReader(s)))
            && (HoldsRead(t) ==> a.i in s.threads && (HoldsRead(s.threads[a.i]) || NoWriter(s)))
            && !(HoldsRead(t) && HoldsWrite(t))
    ensures forall j :: j in s.threads && j != a.i ==> Next(s, a).threads[j] == s.threads[j]
    ensures Next(s, a).threads.Keys == s.threads.Keys + {a.i}
  {
  }

  lemma StepKeepsLocked(s: State, a: Action)
    requires Locked(s) && Enabled(s, a)
    ensures Locked(Next(s, a))
  {
    RolesAreGranted(s, a);
    hide Next, Enabled, HoldsRead;
  }

  lemma StepKeepsThread(s: State, a: Action, j: nat)
    requires Inv(s) && Enabled(s, a) && j in s.threads && j != a.i
    ensures ThreadInv(Next(s, a), s.threads[j])
  {
    assert ThreadInv(s, s.threads[j]);
    if a.Move? {
      assert ThreadInv(s, s.threads[a.i]);
    }
  }

  lemma StepKeepsTable(s: State, a: Action)
    requires Inv(s) && Enabled(s, a)
    ensures var s' := Next(s, a);
            && (forall k :: k in s'.ips ==> s'.ips[k] < |s'.log| && s'.log[s'.ips[k]] == k)
            && (forall n :: 0 <= n < |s'.log| && !(s'.log[n] in s'.ips && s'.ips[s'.log[n]] == n)
                   ==> SomeStoring(s') && n == |s'.log| - 1)
  {
    var s' := Next(s, a);
    if a.Call? || !s.threads[a.i].Storing? {
      if SomeStoring(s) {
        var i :| i in s.threads && s.threads[i].Storing?;
        assert IsWriter(s.threads[i]) && s'.threads[i] == s.threads[i];
      }
      if a.Move? && s.threads[a.i].Creating? {
        assert s'.threads[a.i].Storing?;
      }
    } else {
      var t := s.threads[a.i];
      assert ThreadInv(s, t);
    }
  }

  lemma StepKeepsEntries(s: State, a: Action)
    requires Inv(s) && Enabled(s, a)
    ensures forall k :: k in s.ips ==> k in Next(s, a).ips && Next(s, a).ips[k] == s.ips[k]
  {
    if a.Move? {
      assert ThreadInv(s, s.threads[a.i]);
    }
  }

  lemma MovedThreadInv(s: State, a: Action)
    requires Inv(s) && Enabled(s, a)
    ensures ThreadInv(Next(s, a), Next(s, a).threads[a.i])
  {
    if a.Move? {
      assert ThreadInv(s, s.threads[a.i]);
    }
  }

  lemma StepKeepsInv(s: State, a: Action)
    requires Inv(s) && Enabled(s, a)
    ensures Inv(Next(s, a))
  {
    var s' := Next(s, a);
    StepKeepsLocked(s, a);
    StepKeepsTable(s, a);
    MovedThreadInv(s, a);
    hide Locked, ThreadInv, SomeStoring;
    forall j | j in s'.threads ensures ThreadInv(s', s'.threads[j]) {
      if j != a.i {
        StepKeepsThread(s, a, j);
      }
    }
  }

  lemma {:induction false} InvHolds(states: seq<State>, actions: seq<Action>, n: nat)
    requires IsRun(states, actions) && n < |states|
    ensures Inv(states[n])
  {
    if n > 0 {
      InvHolds(states, actions, n - 1);
      StepKeepsInv(states[n - 1], actions[n - 1]);
    }
  }

  /** Limiters of returned calls are told apart by the keys the calls hold, and each was created for one. */
  lemma ReturnedLimiters(states: seq<State>, actions: seq<Action>, n: nat)
    requires IsRun(states, actions) && n < |states|
    ensures forall i, j :: i in states[n].threads && j in states[n].threads
              && states[n].threads[i].Returned? && states[n].threads[j].Returned?
              ==> (states[n].threads[i].id == states[n].threads[j].id
                   <==> states[n].threads[i].key == states[n].threads[j].key)
    ensures forall p, q :: 0 <= p < q < |states[n].log| ==> states[n].log[p] != states[n].log[q]
    ensures forall i :: i in states[n].threads && states[n].threads[i].Returned? ==>
              var t := states[n].threads[i];
              t.id < |states[n].log| && states[n].log[t.id] == t.key
  {
    InvHolds(states, actions, n);
    var s := states[n];
    forall i, j | i in s.threads && j in s.threads && s.threads[i].Returned? && s.threads[j].Returned?
      ensures s.threads[i].id == s.threads[j].id <==> s.threads[i].key == s.threads[j].key
    {
      assert ThreadInv(s, s.threads[i]) && ThreadInv(s, s.threads[j]);
    }
    forall i | i in s.threads && s.threads[i].Returned?
      ensures s.threads[i].id < |s.log| && s.log[s.threads[i].id] == s.threads[i].key
    {
      assert ThreadInv(s, s.threads[i]);
    }
    forall p, q | 0 <= p < q < |s.log| ensures s.log[p] != s.log[q] {
      assert s.log[p] in s.ips && s.ips[s.log[p]] == p;
      if SomeStoring(s) {
        var i :| i in s.threads && s.threads[i].Storing?;
        assert ThreadInv(s, s.threads[i]);
      }
    }
  }

  /** A call holds on to the key it was called with. */
  lemma {:induction false} CallKeepsItsKey(states: seq<State>, actions: seq<Action>, m: nat, n: nat)
    requires IsRun(states, actions) && m < n < |states| && actions[m].Call?
    ensures actions[m].i in states[n].threads && states[n].threads[actions[m].i].key == actions[m].key
    decreases n
  {
    if m + 1 < n {
      CallKeepsItsKey(states, actions, m, n - 1);
    }
  }

  /** The call that the m-th action made has returned by the n-th state, with this limiter. */
  ghost predicate Returns(states: seq<State>, actions: seq<Action>, m: nat, n: nat, id: nat)
    requires |states| == |actions| + 1
  {
    && m < n < |states| && actions[m].Call? && actions[m].i in states[n].threads
    && states[n].threads[actions[m].i].Returned? && states[n].threads[actions[m].i].id == id
  }

  /** In every interleaving, two calls that have returned have one limiter if and only if they were
      called with one key; a call's limiter was created for the key it was called with; and no two
      limiters are ever created for the same key. */
  lemma OneLimiterPerKey(states: seq<State>, actions: seq<Action>, n: nat)
    requires IsRun(states, actions) && n < |states|
    ensures forall p: nat, q: nat, x: nat, y: nat ::
              Returns(states, actions, p, n, x) && Returns(states, actions, q, n, y)
              ==> (x == y <==> actions[p].key == actions[q].key)
    ensures forall p: nat, x: nat :: Returns(states, actions, p, n, x)
              ==> x < |states[n].log| && states[n].log[x] == actions[p].key
    ensures forall x, y :: 0 <= x < y < |states[n].log| ==> states[n].log[x] != states[n].log[y]
  {
    ReturnedLimiters(states, actions, n);
    forall p: nat, x: nat | Returns(states, actions, p, n, x)
      ensures states[n].threads[actions[p].i].key == actions[p].key
    {
      CallKeepsItsKey(states, actions, p, n);
    }
    hide IsRun;
  }

  /** A new reader is kept out only by a writer that is announced or inside, so readers share the
      lock; the next writer waits for a writer before it to be done, and then for the readers. */
  lemma WhoWaitsForWhom(s: State, i: nat)
    requires i in s.threads && !s.threads[i].Returned?
    ensures CanStep(s, i) <==>
            forall j :: j in s.threads ==>
              var t := s.threads[j];
              && (s.threads[i].Start? || s.threads[i].Announcing?
                  ==> !t.Draining? && !t.Writing? && !t.Creating? && !t.Storing? && !t.Leaving?)
              && (s.threads[i].Draining? ==> !t.Reading? && !t.Found? && !t.Missed?)
  {
  }

  /** The moves a call still has before it, at most. */
  function MovesLeft(t: Thread): nat {
    match t
    case Start(_) => 9
    case Reading(_) => 8
    case Missed(_) => 7
    case Announcing(_) => 6
    case Draining(_) => 5
    case Writing(_) => 4
    case Creating(_) => 3
    case Storing(_, _) => 2
    case Found(_, _) => 1
    case Leaving(_, _) => 1
    case Returned(_, _) => 0
  }

  /** How many of the first n actions are moves of call `i`. */
  function MovesOf(actions: seq<Action>, i: nat, n: nat): nat
    requires n <= |actions|
  {
    if n == 0 then 0 else MovesOf(actions, i, n - 1) + if actions[n - 1] == Move(i) then 1 else 0
  }

  lemma EachMoveCounts(s: State, i: nat)
    requires CanStep(s, i)
    ensures MovesLeft(Step(s, i).threads[i]) < MovesLeft(s.threads[i])
  {
  }

  lemma OnlyItsOwnThread(s: State, a: Action, i: nat)
    requires Enabled(s, a) && a.i != i
    ensures i in Next(s, a).threads <==> i in s.threads
    ensures i in s.threads ==> Next(s, a).threads[i] == s.threads[i]
  {
  }

  /** No call makes more than nine moves, and one that has made nine has returned. */
  lemma {:induction false} NineMovesAtMost(states: seq<State>, actions: seq<Action>, i: nat, n: nat)
    requires IsRun(states, actions) && n < |states|
    ensures if i in states[n].threads then MovesOf(actions, i, n) + MovesLeft(states[n].threads[i]) <= 9
            else MovesOf(actions, i, n) == 0
    ensures MovesOf(actions, i, n) <= 9
    ensures MovesOf(actions, i, n) == 9 ==> i in states[n].threads && states[n].threads[i].Returned?
  {
    if n > 0 {
      NineMovesAtMost(states, actions, i, n - 1);
      var s, a := states[n - 1], actions[n - 1];
      if a == Move(i) {
        EachMoveCounts(s, i);
      } else if a.i != i {
        OnlyItsOwnThread(s, a, i);
        hide Next, Enabled;
      }
      hide CanStep, Step, MovesLeft;
    }
  }

  /** An entry, once stored, is never replaced. */
  lemma {:induction false} EntriesAreKept(states: seq<State>, actions: seq<Action>, m: nat, n: nat)
    requires IsRun(states, actions) && m <= n < |states|
    ensures forall k :: k in states[m].ips ==> k in states[n].ips && states[n].ips[k] == states[m].ips[k]
    decreases n
  {
    hide Inv, Next, Enabled;
    if m < n {
      EntriesAreKept(states, actions, m, n - 1);
      InvHolds(states, actions, n - 1);
      StepKeepsEntries(states[n - 1], actions[n - 1]);
    }
  }

  /** While a call is unfinished, some unfinished call can move: whoever holds a lock, or has been
      announced as writer once the readers have left, or else anyone. */
  lemma SomeoneCanAlwaysMove(states: seq<State>, actions: seq<Action>, n: nat, i: nat)
    returns (j: nat)
    requires IsRun(states, actions) && n < |states|
    requires i in states[n].threads && !states[n].threads[i].Returned?
    ensures j in states[n].threads && !states[n].threads[j].Returned? && CanStep(states[n], j)
  {
    var s := states[n];
    InvHolds(states, actions, n);
    if !NoReader(s) {
      j :| j in s.threads && HoldsRead(s.threads[j]);
    } else if !NoWriter(s) {
      j :| j in s.threads && IsWriter(s.threads[j]);
    } else {
      j := i;
    }
  }
}
