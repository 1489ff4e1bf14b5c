/** Many negotiations at once against one kernel table. */
module PskAgreement {
  import opened Wrappers
  import opened Wireguard
  import opened Psk
  import opened ReadLine
  import opened Negotiation

  datatype Client = Waiting | Finished(psk: Bytes) | Gone
  datatype Server =
    | Listening                 // reads the hello and derives
    | Ready(answer: Answer)     // programs the peer
    | Programmed(answer: Answer) // writes the reply
    | Replied(answer: Answer)
    | Dropped                   // ended before programming

  /** One connection. `toClient` is what the server has written that the client will read. */
  datatype Conn = Conn(seed: Bytes, key: string, token: string, client: Client, server: Server, toClient: Bytes)

  /** Connections are numbered in the order they were opened. */
  datatype State = State(conns: seq<Conn>, kernel: Kernel)

  datatype Action =
    | Open(seed: Bytes, key: string, token: string)  // the client sends its hello
    | Serve(i: nat, rnd: Randomness)                 // the server reads and answers it
    | ServerDrops(i: nat)                            // the connection breaks before the hello is read
    | Program(i: nat, ok: bool)                      // wg set
    | Write(i: nat, failsAfter: Option<nat>)         // the reply, or part of it
    | Receive(i: nat)                                // the client reads the response line or the end
    | ClientDies(i: nat)

  predicate CanMove(c: Conn, a: Action) {
    match a
    case Open(_, _, _) => false
    case Serve(_, _) => c.server.Listening?
    case ServerDrops(_) => c.server.Listening?
    case Program(_, _) => c.server.Ready?
    case Write(_, _) => c.server.Programmed?
    case Receive(_) => c.client.Waiting? && (c.server.Replied? || c.server.Dropped?)
    case ClientDies(_) => c.client.Waiting?
  }

  predicate Enabled(s: State, a: Action) {
    a.Open? || (a.i < |s.conns| && CanMove(s.conns[a.i], a))
  }

  function Moved(u: Setup, c: Conn, a: Action): Conn
    requires CanMove(c, a)
  {
    match a
    case Serve(_, rnd) =>
      var answer := AnswerTo(u, HelloLine(u, c.seed, c.key, c.token), rnd);
      c.(server := match answer case None => Dropped case Some(x) => Ready(x))
    case ServerDrops(_) => c.(server := Dropped)
    case Program(_, ok) => c.(server := if ok then Programmed(c.server.answer) else Dropped)
    case Write(_, failsAfter) =>
      c.(server := Replied(c.server.answer), toClient := Cut(c.server.answer.line, failsAfter))
    case Receive(_) =>
      var line := CutLine(c.toClient);
      var result := if line.None? then None else NegotiatedFrom(u, c.seed, line.value.0);
      c.(client := match result case None => Gone case Some(n) => Finished(n.psk))
    case ClientDies(_) => c.(client := Gone)
  }

  function Next(u: Setup, s: State, a: Action): State
    requires Enabled(s, a)
  {
    if a.Open? then s.(conns := s.conns + [Conn(a.seed, a.key, a.token, Waiting, Listening, [])])
    else
      var c := s.conns[a.i];
      State(s.conns[a.i := Moved(u, c, a)],
            if a.Program? && a.ok
            then WithPeer(s.kernel, c.server.answer.key, c.server.answer.psk, u.cfg.allowedIP)
            else s.kernel)
  }

  ghost predicate IsRun(u: Setup, states: seq<State>, actions: seq<Action>) {
    && |states| == |actions| + 1 && states[0].conns == []
    && forall n :: 0 <= n < |actions|
                   ==> Enabled(states[n], actions[n]) && states[n + 1] == Next(u, states[n], actions[n])
  }

  // ---------- one connection ----------

  /** Whatever the server derived for this connection, its client derives from the whole reply. */
  ghost predicate GoodAnswer(u: Setup, seed: Bytes, key: string, a: Answer) {
    && a.key == key
    && CutLine(a.line).Some? && NegotiatedFrom(u, seed, CutLine(a.line).value.0) == Some(Announced(u, a.psk))
    && forall n :: 0 <= n < |a.line| ==> CutLine(a.line[..n]).None?
  }

  ghost predicate ConnInv(u: Setup, c: Conn) {
    && (c.server.Ready? || HasProgrammed(c) ==> GoodAnswer(u, c.seed, c.key, c.server.answer))
    && (c.server.Ready? || HasProgrammed(c) ==> u.auth.Some? ==> u.auth.value(c.token, c.key))
    && (if c.server.Replied? then PartOf(c.toClient, c.server.answer.line) else c.toClient == [])
    && (c.client.Finished? ==> c.server.Replied? && c.client.psk == c.server.answer.psk)
  }

  predicate HasProgrammed(c: Conn) {
    c.server.Programmed? || c.server.Replied?
  }

  /** `part` is what got out of `line` before the write failed, or all of it. */
  ghost predicate PartOf(part: Bytes, line: Bytes) {
    |part| <= |line| && part == line[..|part|]
  }

  lemma AnswersAreGood(u: Setup, c: Conn, rnd: Randomness)
    requires Lawful(u.crypto) && Faithful(u.wire)
    requires AnswerTo(u, HelloLine(u, c.seed, c.key, c.token), rnd).Some?
    ensures GoodAnswer(u, c.seed, c.key, AnswerTo(u, HelloLine(u, c.seed, c.key, c.token), rnd).value)
  {
    var a := AnswerTo(u, HelloLine(u, c.seed, c.key, c.token), rnd).value;
    ReplyCarriesThePsk(u, c.seed, c.key, c.token, rnd, 0);
    forall n | 0 <= n < |a.line| ensures CutLine(a.line[..n]).None? {
      ReplyCarriesThePsk(u, c.seed, c.key, c.token, rnd, n);
    }
  }

  lemma MovedKeepsConnInv(u: Setup, c: Conn, a: Action)
    requires Lawful(u.crypto) && Faithful(u.wire) && ConnInv(u, c) && CanMove(c, a)
    ensures ConnInv(u, Moved(u, c, a)) && Moved(u, c, a).key == c.key
  {
    if a.Serve? {
      if Moved(u, c, a).server.Ready? {
        AnswersAreGood(u, c, a.rnd);
        OwnHelloAnsweredIff(u, c.seed, c.key, c.token, a.rnd);
      }
    } else if a.Write? {
      assert c.server.answer.line[..|c.server.answer.line|] == c.server.answer.line;
    } else if a.Receive? && c.server.Replied? {
      var line := c.server.answer.line;
      assert |c.toClient| == |line| ==> c.toClient == line;
    }
  }

  ghost predicate AllConnInv(u: Setup, s: State) {
    forall i :: 0 <= i < |s.conns| ==> ConnInv(u, s.conns[i])
  }

  lemma {:induction false} ConnInvHolds(u: Setup, states: seq<State>, actions: seq<Action>, n: nat)
    requires Lawful(u.crypto) && Faithful(u.wire) && IsRun(u, states, actions) && n < |states|
    ensures AllConnInv(u, states[n])
  {
    if n > 0 {
      ConnInvHolds(u, states, actions, n - 1);
      var s, a := states[n - 1], actions[n - 1];
      if !a.Open? {
        MovedKeepsConnInv(u, s.conns[a.i], a);
      }
    }
  }

  // ---------- whom the kernel lets in ----------

  /** The n-th state's connections are those opened in the first n actions, in order, each with the
      seed, key and token it was opened with. */
  lemma {:induction false} OpenedConnIsThere(u: Setup, states: seq<State>, actions: seq<Action>, m: nat, n: nat)
    requires IsRun(u, states, actions) && m < n < |states| && actions[m].Open?
    ensures var i := |states[m].conns|;
            && i < |states[n].conns| && states[n].conns[i].seed == actions[m].seed
            && states[n].conns[i].key == actions[m].key && states[n].conns[i].token == actions[m].token
    decreases n
  {
    if m + 1 < n {
      OpenedConnIsThere(u, states, actions, m, n - 1);
    }
  }

  lemma {:induction false} ConnWasOpened(u: Setup, states: seq<State>, actions: seq<Action>, n: nat, i: nat)
    returns (m: nat)
    requires IsRun(u, states, actions) && n < |states| && i < |states[n].conns|
    ensures m < n && |states[m].conns| == i
    ensures actions[m] == Open(states[n].conns[i].seed, states[n].conns[i].key, states[n].conns[i].token)
  {
    if i < |states[n - 1].conns| {
      m := ConnWasOpened(u, states, actions, n - 1, i);
    } else {
      m := n - 1;
    }
  }

  /** Somebody opened a connection for `key` with a token that the check, if there is one, accepts. */
  ghost predicate LetIn(u: Setup, actions: seq<Action>, n: nat, key: string)
    requires n <= |actions|
  {
    exists m :: 0 <= m < n && actions[m].Open? && actions[m].key == key
                && (u.auth.Some? ==> u.auth.value(actions[m].token, key))
  }

  /** In every interleaving, from a kernel without peers, every peer in it is one that a client asked
      for with a token the check accepts. */
  lemma {:induction false} EveryPeerIsLetIn(u: Setup, states: seq<State>, actions: seq<Action>, n: nat)
    requires Lawful(u.crypto) && Faithful(u.wire) && IsRun(u, states, actions) && n < |states|
    requires states[0].kernel == map[]
    ensures forall k :: k in states[n].kernel ==> LetIn(u, actions, n, k)
  {
    if n > 0 {
      EveryPeerIsLetIn(u, states, actions, n - 1);
      var s, a := states[n - 1], actions[n - 1];
      if a.Program? && a.ok {
        ConnInvHolds(u, states, actions, n - 1);
        assert ConnInv(u, s.conns[a.i]);
        var m := ConnWasOpened(u, states, actions, n - 1, a.i);
        assert LetIn(u, actions, n, s.conns[a.i].key);
      }
      forall k | k in s.kernel ensures LetIn(u, actions, n, k) {
        assert LetIn(u, actions, n - 1, k);
      }
    }
  }

  // ---------- one negotiation from end to end ----------

  /** The state these moves lead to, if each is possible in its turn. */
  function Play(u: Setup, s: State, moves: seq<Action>): Option<State>
    decreases |moves|
  {
    if moves == [] then Some(s)
    else if Enabled(s, moves[0]) then Play(u, Next(u, s, moves[0]), moves[1..])
    else None
  }

  lemma PlayOn(u: Setup, s: State, a: Action, moves: seq<Action>)
    requires Enabled(s, a)
    ensures Play(u, s, [a] + moves) == Play(u, Next(u, s, a), moves)
  {
    assert ([a] + moves)[1..] == moves;
  }

  /** Beside any others, a connection whose moves come one after the other: if there is no check or it
      accepts the token, and a salt is drawn, the client ends with the PSK that the kernel then has for
      its key; otherwise it ends with nothing and the kernel is as before. */
  lemma UndisturbedNegotiation(u: Setup, s: State, seed: Bytes, key: string, token: string, rnd: Randomness)
    returns (c: Conn)
    requires Lawful(u.crypto) && Faithful(u.wire)
    ensures var i := |s.conns|;
            if (u.auth.Some? ==> u.auth.value(token, key)) && rnd.salt.Some?
            then
              && c.client.Finished?
              && Play(u, s, [Open(seed, key, token), Serve(i, rnd), Program(i, true), Write(i, None), Receive(i)])
                 == Some(State(s.conns + [c], WithPeer(s.kernel, key, c.client.psk, u.cfg.allowedIP)))
            else
              && c.client.Gone?
              && Play(u, s, [Open(seed, key, token), Serve(i, rnd), Receive(i)]) == Some(State(s.conns + [c], s.kernel))
  {
    var c0 := Conn(seed, key, token, Waiting, Listening, []);
    OwnHelloAnsweredIff(u, seed, key, token, rnd);
    if AnswerTo(u, HelloLine(u, seed, key, token), rnd).Some? {
      AnswersAreGood(u, c0, rnd);
      hide AnswerTo, HelloLine, Lawful, Faithful;
      c := AnsweredPlays(u, s, c0, rnd);
    } else {
      hide AnswerTo, HelloLine, Lawful, Faithful;
      c := UnansweredPlays(u, s, c0, rnd);
    }
  }

  lemma AnsweredPlays(u: Setup, s: State, c0: Conn, rnd: Randomness) returns (c: Conn)
    requires c0 == Conn(c0.seed, c0.key, c0.token, Waiting, Listening, [])
    requires AnswerTo(u, HelloLine(u, c0.seed, c0.key, c0.token), rnd).Some?
    requires GoodAnswer(u, c0.seed, c0.key, AnswerTo(u, HelloLine(u, c0.seed, c0.key, c0.token), rnd).value)
    ensures var i := |s.conns|;
            && c.client.Finished?
            && var moves :=
                 [Open(c0.seed, c0.key, c0.token), Serve(i, rnd), Program(i, true), Write(i, None), Receive(i)];
               Play(u, s, moves)
               == Some(State(s.conns + [c], WithPeer(s.kernel, c0.key, c.client.psk, u.cfg.allowedIP)))
  {
    hide Play, AnswerTo, HelloLine, WithPeer, NegotiatedFrom;
    var i := |s.conns|;
    var a := AnswerTo(u, HelloLine(u, c0.seed, c0.key, c0.token), rnd).value;
    c := c0.(client := Finished(a.psk), server := Replied(a), toClient := a.line);
    var kernel := WithPeer(s.kernel, c0.key, a.psk, u.cfg.allowedIP);
    var open, serve, program, write, receive :=
      Open(c0.seed, c0.key, c0.token), Serve(i, rnd), Program(i, true), Write(i, None), Receive(i);
    assert [open] + [serve, program, write, receive] == [open, serve, program, write, receive];
    assert [serve] + [program, write, receive] == [serve, program, write, receive];
    assert [program] + [write, receive] == [program, write, receive] && [write] + [receive] == [write, receive];
    assert [receive] + [] == [receive];
    OpenPlays(u, s, c0.seed, c0.key, c0.token, [serve, program, write, receive]);
    ConnPlays(u, s.conns, s.kernel, c0, serve, [program, write, receive]);
    ConnPlays(u, s.conns, s.kernel, c0.(server := Ready(a)), program, [write, receive]);
    ConnPlays(u, s.conns, kernel, c0.(server := Programmed(a)), write, [receive]);
    ConnPlays(u, s.conns, kernel, c0.(server := Replied(a), toClient := a.line), receive, []);
    NothingPlays(u, State(s.conns + [c], kernel));
  }

  lemma UnansweredPlays(u: Setup, s: State, c0: Conn, rnd: Randomness) returns (c: Conn)
    requires c0 == Conn(c0.seed, c0.key, c0.token, Waiting, Listening, [])
    requires AnswerTo(u, HelloLine(u, c0.seed, c0.key, c0.token), rnd).None?
    ensures var i := |s.conns|;
            && c.client.Gone?
            && Play(u, s, [Open(c0.seed, c0.key, c0.token), Serve(i, rnd), Receive(i)])
               == Some(State(s.conns + [c], s.kernel))
  {
    hide Play, AnswerTo, HelloLine, NegotiatedFrom;
    var i := |s.conns|;
    c := c0.(client := Gone, server := Dropped);
    var open, serve, receive := Open(c0.seed, c0.key, c0.token), Serve(i, rnd), Receive(i);
    assert [open] + [serve, receive] == [open, serve, receive];
    assert [serve] + [receive] == [serve, receive] && [receive] + [] == [receive];
    OpenPlays(u, s, c0.seed, c0.key, c0.token, [serve, receive]);
    ConnPlays(u, s.conns, s.kernel, c0, serve, [receive]);
    ConnPlays(u, s.conns, s.kernel, c0.(server := Dropped), receive, []);
    NothingPlays(u, State(s.conns + [c], s.kernel));
  }

  lemma NothingPlays(u: Setup, s: State)
    ensures Play(u, s, []) == Some(s)
  {
  }

  lemma OpenPlays(u: Setup, s: State, seed: Bytes, key: string, token: string, moves: seq<Action>)
    ensures Play(u, s, [Open(seed, key, token)] + moves)
            == Play(u, State(s.conns + [Conn(seed, key, token, Waiting, Listening, [])], s.kernel), moves)
  {
    PlayOn(u, s, Open(seed, key, token), moves);
  }

  /** The newest connection makes a move. */
  lemma ConnPlays(u: Setup, conns: seq<Conn>, kernel: Kernel, c: Conn, a: Action, moves: seq<Action>)
    requires !a.Open? && a.i == |conns| && CanMove(c, a)
    ensures var kernel' := if a.Program? && a.ok
                           then WithPeer(kernel, c.server.answer.key, c.server.answer.psk, u.cfg.allowedIP) else kernel;
            Play(u, State(conns + [c], kernel), [a] + moves)
            == Play(u, State(conns + [Moved(u, c, a)], kernel'), moves)
  {
    hide Moved;
    PlayOn(u, State(conns + [c], kernel), a, moves);
    assert (conns + [c])[a.i := Moved(u, c, a)] == conns + [Moved(u, c, a)];
  }

  // ---------- who programmed a key last ----------

  predicate Programs(s: State, a: Action, key: string) {
    a.Program? && a.ok && Enabled(s, a) && s.conns[a.i].server.answer.key == key
  }

  /** The connection whose `wg set` for `key` was the last to succeed. */
  ghost function LastProgrammer(states: seq<State>, actions: seq<Action>, key: string, n: nat): Option<nat>
    requires |states| == |actions| + 1 && n <= |actions|
  {
    if n == 0 then None
    else if Programs(states[n - 1], actions[n - 1], key) then Some(actions[n - 1].i)
    else LastProgrammer(states, actions, key, n - 1)
  }

  /** With no hypothesis on the interleaving: the PSK in the kernel is the one that the last
      negotiation to program the key derived. */
  lemma {:induction false} InstalledIsLastProgrammed(
    u: Setup, states: seq<State>, actions: seq<Action>, key: string, n: nat)
    requires IsRun(u, states, actions) && n < |states|
    ensures var last := LastProgrammer(states, actions, key, n);
            last.Some? ==>
              && last.value < |states[n].conns| && HasProgrammed(states[n].conns[last.value])
              && key in states[n].kernel
              && states[n].kernel[key].psk == states[n].conns[last.value].server.answer.psk
  {
    if n > 0 {
      InstalledIsLastProgrammed(u, states, actions, key, n - 1);
    }
  }

  /** No two connections have programmed one key with the same PSK. */
  ghost predicate DistinctPsks(s: State) {
    forall i, j :: 0 <= i < |s.conns| && 0 <= j < |s.conns| && SamePsk(s.conns[i], s.conns[j]) ==> i == j
  }

  predicate SamePsk(c: Conn, d: Conn) {
    HasProgrammed(c) && HasProgrammed(d) && c.key == d.key && c.server.answer.psk == d.server.answer.psk
  }

  /** With no hypothesis on the interleaving: a client that has finished holds the PSK installed for
      its key if its own negotiation was the last to program that key, and, where no two negotiations
      derived one PSK, only if. */
  lemma FinishedHoldsInstalledIff(u: Setup, states: seq<State>, actions: seq<Action>, n: nat, i: nat)
    requires Lawful(u.crypto) && Faithful(u.wire) && IsRun(u, states, actions) && n < |states|
    requires i < |states[n].conns| && states[n].conns[i].client.Finished?
    ensures states[n].conns[i].key in states[n].kernel
    ensures LastProgrammer(states, actions, states[n].conns[i].key, n) == Some(i) ==> HoldsInstalled(states[n], i)
    ensures DistinctPsks(states[n]) ==>
              (HoldsInstalled(states[n], i) <==> LastProgrammer(states, actions, states[n].conns[i].key, n) == Some(i))
  {
    var s, key := states[n], states[n].conns[i].key;
    ConnInvHolds(u, states, actions, n);
    assert ConnInv(u, s.conns[i]);
    ProgrammedHasLast(u, states, actions, n, i);
    InstalledIsLastProgrammed(u, states, actions, key, n);
    var last := LastProgrammer(states, actions, key, n).value;
    LastHasKey(u, states, actions, key, n);
    assert HoldsInstalled(s, i) ==> SamePsk(s.conns[i], s.conns[last]);
  }

  ghost predicate HoldsInstalled(s: State, i: nat)
    requires i < |s.conns| && s.conns[i].client.Finished? && s.conns[i].key in s.kernel
  {
    s.kernel[s.conns[i].key].psk == s.conns[i].client.psk
  }

  lemma {:induction false} LastHasKey(u: Setup, states: seq<State>, actions: seq<Action>, key: string, n: nat)
    requires Lawful(u.crypto) && Faithful(u.wire) && IsRun(u, states, actions) && n < |states|
    ensures var last := LastProgrammer(states, actions, key, n);
            last.Some? ==> last.value < |states[n].conns| && states[n].conns[last.value].key == key
  {
    if n > 0 {
      var s, a := states[n - 1], actions[n - 1];
      LastHasKey(u, states, actions, key, n - 1);
      ConnInvHolds(u, states, actions, n - 1);
      if Programs(s, a, key) {
        assert ConnInv(u, s.conns[a.i]);
      }
      hide Lawful, Faithful, ConnInv, AllConnInv;
    }
  }

  lemma {:induction false} ProgrammedHasLast(u: Setup, states: seq<State>, actions: seq<Action>, n: nat, i: nat)
    requires Lawful(u.crypto) && Faithful(u.wire) && IsRun(u, states, actions) && n < |states|
    requires i < |states[n].conns| && HasProgrammed(states[n].conns[i])
    ensures LastProgrammer(states, actions, states[n].conns[i].key, n).Some?
  {
    if n > 0 {
      ConnInvHolds(u, states, actions, n - 1);
      var s, a := states[n - 1], actions[n - 1];
      if i < |s.conns| {
        assert ConnInv(u, s.conns[i]);
        if !a.Open? && a.i == i {
          MovedKeepsConnInv(u, s.conns[i], a);
        }
        if HasProgrammed(s.conns[i]) {
          ProgrammedHasLast(u, states, actions, n - 1, i);
        }
      }
    }
  }

  /** The key whose `wg set` was the last of all to succeed. */
  ghost function LastKey(states: seq<State>, actions: seq<Action>, n: nat): Option<string>
    requires |states| == |actions| + 1 && n <= |actions|
  {
    if n == 0 then None
    else
      var s, a := states[n - 1], actions[n - 1];
      if a.Program? && a.ok && Enabled(s, a) then Some(s.conns[a.i].server.answer.key)
      else LastKey(states, actions, n - 1)
  }

  /** Every peer is given the one configured address, so only the last one programmed has it. */
  lemma {:induction false} OnlyTheLastPeerHasTheAddress(u: Setup, states: seq<State>, actions: seq<Action>, n: nat)
    requires IsRun(u, states, actions) && states[0].kernel == map[] && n < |states|
    ensures forall k :: k in states[n].kernel ==>
              states[n].kernel[k].allowed
              == if LastKey(states, actions, n) == Some(k) then Some(u.cfg.allowedIP) else None
    ensures LastKey(states, actions, n).Some? ==> LastKey(states, actions, n).value in states[n].kernel
  {
    if n > 0 {
      OnlyTheLastPeerHasTheAddress(u, states, actions, n - 1);
    }
  }

  // ---------- at most one live negotiation a key ----------

  /** Its client still waits, or its server may still program the peer or write. */
  predicate Live(c: Conn) {
    c.client.Waiting? || c.server.Listening? || c.server.Ready? || c.server.Programmed?
  }

  lemma LiveIffItCanMove(c: Conn)
    ensures Live(c) <==> exists a :: CanMove(c, a)
  {
    var i: nat := 0;
    assert c.client.Waiting? ==> CanMove(c, ClientDies(i));
    assert c.server.Listening? ==> CanMove(c, ServerDrops(i));
    assert c.server.Ready? ==> CanMove(c, Program(i, true));
    assert c.server.Programmed? ==> CanMove(c, Write(i, None));
  }

  ghost predicate OneLivePerKey(s: State) {
    forall i, j :: 0 <= i < j < |s.conns| && s.conns[i].key == s.conns[j].key
                   ==> !(Live(s.conns[i]) && Live(s.conns[j]))
  }

  /** A later connection for the same key finds every earlier one over. */
  ghost predicate EarlierAreOver(s: State) {
    forall i, j :: 0 <= i < j < |s.conns| && s.conns[i].key == s.conns[j].key ==> !Live(s.conns[i])
  }

  lemma StepKeepsEarlierOver(u: Setup, s: State, a: Action)
    requires Enabled(s, a) && EarlierAreOver(s) && OneLivePerKey(Next(u, s, a))
    ensures EarlierAreOver(Next(u, s, a))
  {
    var s' := Next(u, s, a);
    forall i, j | 0 <= i < j < |s'.conns| && s'.conns[i].key == s'.conns[j].key ensures !Live(s'.conns[i]) {
      if j < |s.conns| {
        assert s.conns[i].key == s.conns[j].key;
        assert !Live(s.conns[i]);
      } else {
        assert Live(s'.conns[j]);
      }
    }
  }

  /** No connection after the i-th programs the i-th's key. */
  ghost predicate NoneLater(s: State, i: nat)
    requires i < |s.conns|
  {
    forall j :: i < j < |s.conns| && s.conns[j].key == s.conns[i].key ==> !HasProgrammed(s.conns[j])
  }

  /** Of the connections that have programmed a key, the newest was the last to do so. */
  ghost predicate NewestIsLast(states: seq<State>, actions: seq<Action>, n: nat)
    requires |states| == |actions| + 1 && n < |states|
  {
    forall i :: 0 <= i < |states[n].conns| && HasProgrammed(states[n].conns[i]) && NoneLater(states[n], i) ==>
      LastProgrammer(states, actions, states[n].conns[i].key, n) == Some(i)
  }

  /** A connection keeps its key, and what it has programmed. */
  lemma KeepsKeyAndAnswer(u: Setup, s: State, a: Action, i: nat)
    requires Enabled(s, a) && i < |s.conns|
    ensures var c, d := s.conns[i], Next(u, s, a).conns[i];
            && d.key == c.key
            && (HasProgrammed(c) ==> HasProgrammed(d) && d.server.answer == c.server.answer)
            && (HasProgrammed(d) && !HasProgrammed(c) ==> a == Program(i, true))
  {
  }

  lemma NoneLaterBefore(u: Setup, s: State, a: Action, i: nat)
    requires Enabled(s, a) && i < |s.conns| && NoneLater(Next(u, s, a), i)
    ensures NoneLater(s, i)
  {
    KeepsKeyAndAnswer(u, s, a, i);
    forall j | i < j < |s.conns| && s.conns[j].key == s.conns[i].key ensures !HasProgrammed(s.conns[j]) {
      KeepsKeyAndAnswer(u, s, a, j);
    }
  }

  lemma StepKeepsNewest(u: Setup, states: seq<State>, actions: seq<Action>, n: nat)
    requires IsRun(u, states, actions) && 0 < n < |states| && NewestIsLast(states, actions, n - 1)
    requires EarlierAreOver(states[n - 1]) && AllConnInv(u, states[n - 1])
    ensures NewestIsLast(states, actions, n)
  {
    var s, a, s' := states[n - 1], actions[n - 1], states[n];
    forall i | 0 <= i < |s'.conns| && HasProgrammed(s'.conns[i]) && NoneLater(s', i)
      ensures LastProgrammer(states, actions, s'.conns[i].key, n) == Some(i)
    {
      assert i < |s.conns|;
      KeepsKeyAndAnswer(u, s, a, i);
      NoneLaterBefore(u, s, a, i);
      if a.Program? && a.ok {
        ProgramIsOfTheNewest(u, s, a, i);
      }
    }
  }

  /** A `wg set` for the key of the newest that has programmed it is that connection's own. */
  lemma ProgramIsOfTheNewest(u: Setup, s: State, a: Action, i: nat)
    requires Enabled(s, a) && a.Program? && a.ok && EarlierAreOver(s) && ConnInv(u, s.conns[a.i])
    requires i < |s.conns| && HasProgrammed(Next(u, s, a).conns[i]) && NoneLater(Next(u, s, a), i)
    ensures s.conns[a.i].server.answer.key == s.conns[i].key <==> a.i == i
  {
    var c := s.conns[a.i];
    assert Live(c) && c.server.answer.key == c.key;
    if c.key == s.conns[i].key && a.i != i {
      assert HasProgrammed(Next(u, s, a).conns[a.i]);
    }
  }

  lemma {:induction false} NewestHolds(u: Setup, states: seq<State>, actions: seq<Action>, n: nat)
    requires Lawful(u.crypto) && Faithful(u.wire) && IsRun(u, states, actions) && n < |states|
    requires forall m :: 0 <= m < |states| ==> OneLivePerKey(states[m])
    ensures EarlierAreOver(states[n]) && NewestIsLast(states, actions, n)
  {
    if n > 0 {
      hide Lawful, Faithful, AllConnInv, OneLivePerKey, EarlierAreOver, NewestIsLast, Next, Enabled;
      NewestHolds(u, states, actions, n - 1);
      ConnInvHolds(u, states, actions, n - 1);
      assert Enabled(states[n - 1], actions[n - 1]) && states[n] == Next(u, states[n - 1], actions[n - 1]);
      assert OneLivePerKey(states[n]);
      StepKeepsEarlierOver(u, states[n - 1], actions[n - 1]);
      StepKeepsNewest(u, states, actions, n);
    }
  }

  /** With many clients and at most one live negotiation a key: a client that has finished holds
      exactly the PSK installed for its key for as long as no later connection programs that key,
      and, where no two negotiations derived one PSK, no longer. */
  lemma FinishedClientsAgree(u: Setup, states: seq<State>, actions: seq<Action>, n: nat, i: nat)
    requires Lawful(u.crypto) && Faithful(u.wire) && IsRun(u, states, actions) && n < |states|
    requires forall m :: 0 <= m < |states| ==> OneLivePerKey(states[m])
    requires i < |states[n].conns| && states[n].conns[i].client.Finished?
    ensures states[n].conns[i].key in states[n].kernel
    ensures NoneLater(states[n], i) ==> HoldsInstalled(states[n], i)
    ensures DistinctPsks(states[n]) ==> (HoldsInstalled(states[n], i) <==> NoneLater(states[n], i))
  {
    var s := states[n];
    NewestHolds(u, states, actions, n);
    ConnInvHolds(u, states, actions, n);
    assert ConnInv(u, s.conns[i]);
    FinishedHoldsInstalledIff(u, states, actions, n, i);
    if !NoneLater(s, i) {
      var j: nat :| i < j < |s.conns| && s.conns[j].key == s.conns[i].key && HasProgrammed(s.conns[j]);
      var newest := Newest(s, j);
    }
  }

  /** The newest connection that has programmed the j-th's key. */
  lemma {:induction false} Newest(s: State, j: nat) returns (newest: nat)
    requires j < |s.conns| && HasProgrammed(s.conns[j])
    ensures j <= newest < |s.conns| && s.conns[newest].key == s.conns[j].key
    ensures HasProgrammed(s.conns[newest]) && NoneLater(s, newest)
    decreases |s.conns| - j
  {
    if NoneLater(s, j) {
      newest := j;
    } else {
      var k: nat :| j < k < |s.conns| && s.conns[k].key == s.conns[j].key && HasProgrammed(s.conns[k]);
      newest := Newest(s, k);
    }
  }

  /** In particular a client that has just finished holds the installed PSK, and its negotiation was
      the last to program the key. */
  lemma JustFinishedClientAgrees(u: Setup, states: seq<State>, actions: seq<Action>, n: nat)
    requires Lawful(u.crypto) && Faithful(u.wire) && IsRun(u, states, actions) && n < |actions|
    requires forall m :: 0 <= m < |states| ==> OneLivePerKey(states[m])
    requires actions[n].Receive? && states[n + 1].conns[actions[n].i].client.Finished?
    ensures var c := states[n + 1].conns[actions[n].i];
            && c.key in states[n + 1].kernel && states[n + 1].kernel[c.key].psk == c.client.psk
            && LastProgrammer(states, actions, c.key, n + 1) == Some(actions[n].i)
  {
    var i := actions[n].i;
    NewestHolds(u, states, actions, n);
    NewestHolds(u, states, actions, n + 1);
    assert Live(states[n].conns[i]);
    assert forall j :: i < j < |states[n + 1].conns| ==> states[n + 1].conns[j] == states[n].conns[j];
    assert NoneLater(states[n + 1], i);
    ConnInvHolds(u, states, actions, n + 1);
    assert ConnInv(u, states[n + 1].conns[i]);
    FinishedClientsAgree(u, states, actions, n + 1, i);
  }
}
