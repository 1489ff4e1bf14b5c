/** The relay's two tasks interleaved step by step over the shared client address. */
module Interleaving {
  import opened Wrappers
  import opened Framing
  import opened Relay

  /** Task 1: reading, holding a frame, or holding a frame whose target it has looked up. */
  datatype Down = Reading | GotFrame(payload: Bytes) | LookedUp(payload: Bytes, target: Option<Addr>)

  /** Task 2: receiving, holding a datagram, holding one whose sender is recorded, or ended. */
  datatype Up = Receiving | Got(data: Bytes, from: Addr) | Recorded(data: Bytes) | Stopped

  datatype State = State(inbox: Bytes, down: Down, client: Option<Addr>, sent: seq<(Bytes, Addr)>, up: Up, out: Bytes)

  const INITIAL := State([], Reading, None, [], Receiving, [])

  /** Bytes arrive on TCP; task 1 reads a frame, looks up the client, sends; task 2 receives a
      datagram or fails to, records its sender, writes it or, with `Some(k)`, fails after k bytes. */
  datatype Action =
    | Arrive(more: Bytes) | ReadFrame | Lookup | Send
    | Recv(data: Bytes, from: Addr) | RecvFails | Record | Write(failsAfter: Option<nat>)

  predicate Enabled(s: State, a: Action) {
    match a
    case Arrive(_) => true
    case ReadFrame => s.down.Reading? && !Incomplete(s.inbox)
    case Lookup => s.down.GotFrame?
    case Send => s.down.LookedUp?
    case Recv(data, _) => s.up.Receiving? && |data| <= MAX_DATAGRAM
    case RecvFails => s.up.Receiving?
    case Record => s.up.Got?
    case Write(_) => s.up.Recorded?
  }

  function Next(s: State, a: Action): State
    requires Enabled(s, a)
  {
    match a
    case Arrive(more) => s.(inbox := s.inbox + more)
    case ReadFrame =>
      var n := FrameLength(s.inbox);
      s.(inbox := s.inbox[2 + n..], down := GotFrame(s.inbox[2..2 + n]))
    case Lookup => s.(down := LookedUp(s.down.payload, s.client))
    case Send =>
      s.(down := Reading,
         sent := if s.down.target.Some? then s.sent + [(s.down.payload, s.down.target.value)] else s.sent)
    case Recv(data, from) => s.(up := Got(data, from))
    case RecvFails => s.(up := Stopped)
    case Record => s.(client := Some(s.up.from), up := Recorded(s.up.data))
    case Write(failsAfter) =>
      var frame := EncodeFrame(s.up.data);
      if failsAfter.Some?
      then s.(up := Stopped, out := s.out + Part(frame, failsAfter.value))
      else s.(up := Receiving, out := s.out + frame)
  }

  /** The state these actions lead to from the start, if each is possible in its turn. */
  function Exec(acts: seq<Action>): Option<State> {
    if acts == [] then Some(INITIAL)
    else
      var p, a := Exec(acts[..|acts| - 1]), acts[|acts| - 1];
      if p.Some? && Enabled(p.value, a) then Some(Next(p.value, a)) else None
  }

  // ---------- what a list of actions says happened ----------

  /** All the bytes that arrived on TCP. */
  function Arrived(acts: seq<Action>): Bytes {
    if acts == [] then []
    else
      var before, last := acts[..|acts| - 1], acts[|acts| - 1];
      if last.Arrive? then Arrived(before) + last.more else Arrived(before)
  }

  /** All the datagrams received on UDP. */
  function Datagrams(acts: seq<Action>): seq<Bytes> {
    if acts == [] then []
    else
      var before, last := acts[..|acts| - 1], acts[|acts| - 1];
      if last.Recv? then Datagrams(before) + [last.data] else Datagrams(before)
  }

  /** The sender of the latest datagram received. */
  function LatestFrom(acts: seq<Action>): Option<Addr> {
    if acts == [] then None
    else
      var last := acts[|acts| - 1];
      if last.Recv? then Some(last.from) else LatestFrom(acts[..|acts| - 1])
  }

  /** The most recently recorded sender. */
  function LatestRecorded(acts: seq<Action>): Option<Addr> {
    if acts == [] then None
    else
      var before := acts[..|acts| - 1];
      if acts[|acts| - 1].Record? then LatestFrom(before) else LatestRecorded(before)
  }

  /** How many bytes of its frame the write that failed got out, if one has failed. */
  function FailedWrite(acts: seq<Action>): Option<nat> {
    if acts == [] then None
    else
      var last := acts[|acts| - 1];
      if last.Write? && last.failsAfter.Some? then last.failsAfter else FailedWrite(acts[..|acts| - 1])
  }

  function Lookups(acts: seq<Action>): nat {
    if acts == [] then 0
    else Lookups(acts[..|acts| - 1]) + if acts[|acts| - 1].Lookup? then 1 else 0
  }

  /** The actions before the j-th lookup. */
  function BeforeLookup(acts: seq<Action>, j: nat): (before: seq<Action>)
    requires j < Lookups(acts)
    ensures |before| < |acts| && before == acts[..|before|] && acts[|before|].Lookup? && Lookups(before) == j
  {
    var init := acts[..|acts| - 1];
    if j < Lookups(init) then
      var before := BeforeLookup(init, j);
      assert before == acts[..|before|];
      before
    else init
  }

  /** What the j-th lookup must answer, from the list of actions alone. */
  function LookupAnswer(acts: seq<Action>): nat -> Option<Addr> {
    (j: nat) => if j < Lookups(acts) then LatestRecorded(BeforeLookup(acts, j)) else None
  }

  /** A lookup finds an address exactly when some local datagram was recorded before it. */
  lemma {:induction false} AnswerIsSomeIffRecorded(acts: seq<Action>, s: State)
    requires Exec(acts) == Some(s)
    ensures LatestRecorded(acts).Some? <==> exists i :: 0 <= i < |acts| && acts[i].Record?
    ensures s.up.Got? ==> LatestFrom(acts) == Some(s.up.from)
    ensures s.client == LatestRecorded(acts)
  {
    if acts != [] {
      var n := |acts| - 1;
      var p := Exec(acts[..n]).value;
      AnswerIsSomeIffRecorded(acts[..n], p);
      if i :| 0 <= i < |acts| && acts[i].Record? {
        assert i < n ==> acts[..n][i].Record?;
      }
      if i :| 0 <= i < n && acts[..n][i].Record? {
        assert acts[i].Record?;
      }
    }
  }

  /** Sent, and about to be sent. */
  function Committed(s: State): seq<(Bytes, Addr)> {
    if s.down.LookedUp? && s.down.target.Some? then s.sent + [(s.down.payload, s.down.target.value)] else s.sent
  }

  /** Frames task 1 has read. */
  function FramesRead(acts: seq<Action>, s: State): nat {
    Lookups(acts) + if s.down.GotFrame? then 1 else 0
  }

  ghost predicate DownInv(acts: seq<Action>, s: State) {
    var all := Decode(Arrived(acts));
    var n := FramesRead(acts, s);
    && n <= |all.frames|
    && Decode(s.inbox) == Decoded(all.frames[n..], all.rest)
    && (s.down.GotFrame? ==> s.down.payload == all.frames[n - 1])
    && Committed(s) == Forwarded(all.frames[..Lookups(acts)], LookupAnswer(acts))
  }

  /** Forwarding depends only on the answers to the lookups made. */
  lemma {:induction false} ForwardedAgrees(frames: seq<Bytes>, f: nat -> Option<Addr>, g: nat -> Option<Addr>)
    requires forall j: nat :: j < |frames| ==> f(j) == g(j)
    ensures Forwarded(frames, f) == Forwarded(frames, g)
  {
    if frames != [] {
      ForwardedAgrees(frames[..|frames| - 1], f, g);
    }
  }

  lemma EarlierAnswers(acts: seq<Action>, j: nat)
    requires acts != [] && j < Lookups(acts[..|acts| - 1])
    ensures LookupAnswer(acts)(j) == LookupAnswer(acts[..|acts| - 1])(j)
  {
  }

  /** The sender's answers to the lookups already made stay what they were. */
  lemma ForwardedStays(acts: seq<Action>, a: Action, frames: seq<Bytes>)
    requires |frames| <= Lookups(acts)
    ensures Forwarded(frames, LookupAnswer(acts + [a])) == Forwarded(frames, LookupAnswer(acts))
  {
    assert (acts + [a])[..|acts|] == acts;
    forall j: nat | j < |frames| ensures LookupAnswer(acts + [a])(j) == LookupAnswer(acts)(j) {
      EarlierAnswers(acts + [a], j);
    }
    ForwardedAgrees(frames, LookupAnswer(acts + [a]), LookupAnswer(acts));
  }

  /** Appending to a stream and to what is left of it after n frames keeps the two in step. */
  lemma AppendBoth(stream: Bytes, left: Bytes, n: nat, more: Bytes)
    requires n <= |Decode(stream).frames| && Decode(left) == Decoded(Decode(stream).frames[n..], Decode(stream).rest)
    ensures Decode(stream).frames <= Decode(stream + more).frames
    ensures Decode(left + more) == Decoded(Decode(stream + more).frames[n..], Decode(stream + more).rest)
  {
    hide Decode;
    var frames, rest := Decode(stream).frames, Decode(stream).rest;
    var late := Decode(rest + more);
    assert Decode(stream + more) == Decoded(frames + late.frames, late.rest) by {
      DecodeAppended(stream, more);
    }
    assert Decode(left + more) == Decoded(frames[n..] + late.frames, late.rest) by {
      DecodeAppended(left, more);
    }
    assert (frames + late.frames)[n..] == frames[n..] + late.frames;
  }

  /** What one more action adds to each account of the run. */
  lemma Snoc(acts: seq<Action>, a: Action)
    ensures Arrived(acts + [a]) == Arrived(acts) + if a.Arrive? then a.more else []
    ensures Lookups(acts + [a]) == Lookups(acts) + if a.Lookup? then 1 else 0
  {
    assert (acts + [a])[..|acts|] == acts;
    assert !a.Arrive? ==> Arrived(acts) + [] == Arrived(acts);
  }

  lemma ArriveStep(acts: seq<Action>, p: State, more: Bytes)
    requires DownInv(acts, p)
    ensures DownInv(acts + [Arrive(more)], Next(p, Arrive(more)))
  {
    hide Decode, Forwarded, LookupAnswer, Arrived, Lookups;
    var n, k := FramesRead(acts, p), Lookups(acts);
    var before, after := Decode(Arrived(acts)).frames, Decode(Arrived(acts) + more).frames;
    AppendBoth(Arrived(acts), p.inbox, n, more);
    Snoc(acts, Arrive(more));
    assert after[..k] == before[..k];
    ForwardedStays(acts, Arrive(more), before[..k]);
  }

  lemma QuietState(p: State, a: Action)
    requires Enabled(p, a) && !a.Arrive? && !a.ReadFrame? && !a.Lookup?
    ensures var s := Next(p, a);
            && Committed(s) == Committed(p) && s.inbox == p.inbox && s.down.GotFrame? == p.down.GotFrame?
            && (s.down.GotFrame? ==> s.down.payload == p.down.payload)
  {
  }

  lemma QuietStep(acts: seq<Action>, p: State, a: Action)
    requires DownInv(acts, p) && Enabled(p, a) && !a.Arrive? && !a.ReadFrame? && !a.Lookup?
    ensures DownInv(acts + [a], Next(p, a))
  {
    QuietState(p, a);
    hide Decode, Next, Enabled, Arrived, Lookups, Forwarded, LookupAnswer, Committed;
    Snoc(acts, a);
    assert Arrived(acts + [a]) == Arrived(acts);
    ForwardedStays(acts, a, Decode(Arrived(acts)).frames[..Lookups(acts)]);
  }

  lemma FirstFrame(s: Bytes)
    requires !Incomplete(s)
    ensures var n := FrameLength(s);
            Decode(s) == Decoded([s[2..2 + n]] + Decode(s[2 + n..]).frames, Decode(s[2 + n..]).rest)
  {
  }

  lemma ReadStep(acts: seq<Action>, p: State)
    requires DownInv(acts, p) && Enabled(p, ReadFrame)
    ensures DownInv(acts + [ReadFrame], Next(p, ReadFrame))
  {
    var s := Next(p, ReadFrame);
    FirstFrame(p.inbox);
    hide Decode, Forwarded, LookupAnswer, Arrived, Lookups;
    Snoc(acts, ReadFrame);
    assert Arrived(acts + [ReadFrame]) == Arrived(acts);
    var all, n := Decode(Arrived(acts)), FramesRead(acts, p);
    assert all.frames[n..][0] == s.down.payload && all.frames[n..][1..] == all.frames[n + 1..];
    ForwardedStays(acts, ReadFrame, all.frames[..Lookups(acts)]);
  }

  /** The answer to the lookup made now. */
  lemma NewAnswer(acts: seq<Action>)
    ensures Lookups(acts + [Lookup]) == Lookups(acts) + 1
    ensures LookupAnswer(acts + [Lookup])(Lookups(acts)) == LatestRecorded(acts)
  {
    var acts' := acts + [Lookup];
    assert acts'[..|acts|] == acts;
    assert BeforeLookup(acts', Lookups(acts)) == acts;
  }

  lemma ForwardedSnoc(frames: seq<Bytes>, n: nat, answer: nat -> Option<Addr>)
    requires n < |frames|
    ensures Forwarded(frames[..n + 1], answer)
            == Forwarded(frames[..n], answer) + if answer(n).Some? then [(frames[n], answer(n).value)] else []
  {
    assert frames[..n + 1][..n] == frames[..n];
  }

  lemma LookupStep(acts: seq<Action>, p: State)
    requires DownInv(acts, p) && Enabled(p, Lookup) && p.client == LatestRecorded(acts)
    ensures DownInv(acts + [Lookup], Next(p, Lookup))
  {
    hide Decode, Arrived, Lookups, LookupAnswer, Forwarded;
    var n, all := Lookups(acts), Decode(Arrived(acts));
    Snoc(acts, Lookup);
    assert Arrived(acts + [Lookup]) == Arrived(acts);
    NewAnswer(acts);
    ForwardedSnoc(all.frames, n, LookupAnswer(acts + [Lookup]));
    ForwardedStays(acts, Lookup, all.frames[..n]);
  }

  lemma DownStep(acts: seq<Action>, p: State, a: Action)
    requires DownInv(acts, p) && Enabled(p, a) && p.client == LatestRecorded(acts)
    ensures DownInv(acts + [a], Next(p, a))
  {
    match a {
      case Arrive(more) => ArriveStep(acts, p, more);
      case ReadFrame => ReadStep(acts, p);
      case Lookup => LookupStep(acts, p);
      case _ => QuietStep(acts, p, a);
    }
  }

  lemma {:induction false} DownInvHolds(acts: seq<Action>, s: State)
    requires Exec(acts) == Some(s)
    ensures DownInv(acts, s)
  {
    if acts != [] {
      hide DownInv;
      var n := |acts| - 1;
      var p := Exec(acts[..n]).value;
      DownInvHolds(acts[..n], p);
      AnswerIsSomeIffRecorded(acts[..n], p);
      DownStep(acts[..n], p, acts[n]);
      assert acts[..n] + [acts[n]] == acts;
    }
  }

  /** In every interleaving, what has been sent to the local client (with the datagram about to
      be) is exactly the decoded frames, in order, whose lookup came after some local datagram was
      recorded, each to the sender most recently recorded before that lookup. */
  lemma EveryInterleavingForwards(acts: seq<Action>, s: State)
    requires Exec(acts) == Some(s)
    ensures Lookups(acts) <= |Decode(Arrived(acts)).frames|
    ensures Committed(s) == Forwarded(Decode(Arrived(acts)).frames[..Lookups(acts)], LookupAnswer(acts))
    ensures forall j: nat :: j < Lookups(acts) ==>
              (LookupAnswer(acts)(j).Some? <==> exists i :: 0 <= i < |BeforeLookup(acts, j)| && acts[i].Record?)
  {
    DownInvHolds(acts, s);
    forall j: nat | j < Lookups(acts)
      ensures LookupAnswer(acts)(j).Some? <==> exists i :: 0 <= i < |BeforeLookup(acts, j)| && acts[i].Record?
    {
      var before := BeforeLookup(acts, j);
      var p := ClientStaysKnown(acts, s, |before|);
      AnswerIsSomeIffRecorded(before, p);
      assert forall i :: 0 <= i < |before| ==> before[i] == acts[i];
    }
  }

  /** Every prefix of a run is a run, and the client's address, once learnt, is never unset. */
  lemma {:induction false} ClientStaysKnown(acts: seq<Action>, s: State, n: nat) returns (p: State)
    requires Exec(acts) == Some(s) && n <= |acts|
    ensures Exec(acts[..n]) == Some(p)
    ensures p.client.Some? ==> s.client.Some?
    decreases |acts|
  {
    if n == |acts| {
      p := s;
      assert acts[..n] == acts;
    } else {
      var m := |acts| - 1;
      var q := Exec(acts[..m]).value;
      p := ClientStaysKnown(acts[..m], q, n);
      assert acts[..m][..n] == acts[..n];
    }
  }

  // ---------- the other way ----------

  ghost predicate UpInv(acts: seq<Action>, s: State) {
    var ds := Datagrams(acts);
    && AllFit(ds)
    && match s.up
       case Receiving => s.out == EncodeAll(ds) && FailedWrite(acts).None?
       case Got(data, _) => InHand(ds, data, s.out) && FailedWrite(acts).None?
       case Recorded(data) => InHand(ds, data, s.out) && FailedWrite(acts).None?
       case Stopped => Ended(ds, FailedWrite(acts), s.out)
  }

  /** The last datagram is still to be written. */
  ghost predicate InHand(ds: seq<Bytes>, data: Bytes, out: Bytes) {
    ds != [] && data == ds[|ds| - 1] && out == EncodeAll(ds[..|ds| - 1])
  }

  /** All the datagrams are written, or all but the last and as much of that as got out. */
  ghost predicate Ended(ds: seq<Bytes>, failed: Option<nat>, out: Bytes) {
    match failed
    case None => out == EncodeAll(ds)
    case Some(k) => ds != [] && out == EncodeAll(ds[..|ds| - 1]) + Part(EncodeFrame(ds[|ds| - 1]), k)
  }

  lemma UpSnoc(acts: seq<Action>, a: Action)
    ensures Datagrams(acts + [a]) == Datagrams(acts) + if a.Recv? then [a.data] else []
    ensures FailedWrite(acts + [a]) == if a.Write? && a.failsAfter.Some? then a.failsAfter else FailedWrite(acts)
  {
    assert (acts + [a])[..|acts|] == acts;
    assert Datagrams(acts) + [] == Datagrams(acts);
  }

  lemma UpStep(acts: seq<Action>, p: State, a: Action)
    requires UpInv(acts, p) && Enabled(p, a)
    ensures UpInv(acts + [a], Next(p, a))
  {
    var ds := Datagrams(acts);
    UpSnoc(acts, a);
    hide Datagrams, FailedWrite, EncodeFrame, EncodeAll, Part;
    assert ds + [] == ds;
    if a.Write? {
      EncodeAllSnoc(ds[..|ds| - 1], p.up.data);
      assert ds[..|ds| - 1] + [p.up.data] == ds;
    } else if a.Recv? {
      assert (ds + [a.data])[..|ds|] == ds;
    }
  }

  lemma {:induction false} UpInvHolds(acts: seq<Action>, s: State)
    requires Exec(acts) == Some(s)
    ensures UpInv(acts, s)
  {
    if acts != [] {
      hide UpInv;
      var n := |acts| - 1;
      var p := Exec(acts[..n]).value;
      UpInvHolds(acts[..n], p);
      UpStep(acts[..n], p, acts[n]);
      assert acts[..n] + [acts[n]] == acts;
    }
  }

  /** In every interleaving, the bytes written to TCP decode to the datagrams received on UDP, in
      order, none missing but the last: never part of one, and all of them unless the last is still
      to be written or its write has failed. */
  lemma EveryInterleavingWrites(acts: seq<Action>, s: State)
    requires Exec(acts) == Some(s)
    ensures UpInv(acts, s)
    ensures var ds, got := Datagrams(acts), Decode(s.out).frames;
            got <= ds && |ds| <= |got| + 1
    ensures s.up.Receiving? || (s.up.Stopped? && FailedWrite(acts).None?)
            ==> Decode(s.out) == Decoded(Datagrams(acts), [])
  {
    UpInvHolds(acts, s);
    hide Decode, EncodeAll, EncodeFrame, Exec, Datagrams, FailedWrite, AllFit, InHand, Ended;
    var ds := Datagrams(acts);
    match s.up
    case Receiving => WholeYieldsAll(ds);
    case Got(data, _) => InHandDecodes(ds, data, s.out);
    case Recorded(data) => InHandDecodes(ds, data, s.out);
    case Stopped => EndedDecodes(ds, FailedWrite(acts), s.out);
  }

  lemma InHandDecodes(ds: seq<Bytes>, data: Bytes, out: Bytes)
    requires AllFit(ds) && InHand(ds, data, out)
    ensures Decode(out).frames <= ds && |ds| <= |Decode(out).frames| + 1
  {
    WholeYieldsAll(ds[..|ds| - 1]);
  }

  lemma EndedDecodes(ds: seq<Bytes>, failed: Option<nat>, out: Bytes)
    requires AllFit(ds) && Ended(ds, failed, out)
    ensures Decode(out).frames <= ds && |ds| <= |Decode(out).frames| + 1
    ensures failed.None? ==> Decode(out) == Decoded(ds, [])
  {
    hide Decode, EncodeAll, EncodeFrame;
    if failed.None? {
      WholeYieldsAll(ds);
    } else {
      var n := |ds| - 1;
      var frame := EncodeFrame(ds[n]);
      CutYieldsPrefix(ds, n, if failed.value <= |frame| then failed.value else |frame|);
      assert frame[..|frame|] == frame;
      DecodeEncoded(ds[..n], Part(frame, failed.value));
    }
  }

  // ---------- the tasks can go on ----------

  lemma ExecSnoc(acts: seq<Action>, s: State, a: Action)
    requires Exec(acts) == Some(s) && Enabled(s, a)
    ensures Exec(acts + [a]) == Some(Next(s, a))
  {
    assert (acts + [a])[..|acts|] == acts;
  }

  predicate OfTask1(a: Action) {
    a.ReadFrame? || a.Lookup? || a.Send?
  }

  /** What task 1 still has to do before it waits for bytes. */
  function Task1Work(s: State): nat {
    2 * |s.inbox| + match s.down case GotFrame(_) => 2 case LookedUp(_, _) => 1 case Reading => 0
  }

  predicate Task1Waits(s: State) {
    s.down.Reading? && Incomplete(s.inbox)
  }

  lemma Task1Moves(acts: seq<Action>, s: State) returns (a: Action, t: State)
    requires Exec(acts) == Some(s) && !Task1Waits(s)
    ensures OfTask1(a) && Exec(acts + [a]) == Some(t) && Task1Work(t) < Task1Work(s)
    ensures Arrived(acts + [a]) == Arrived(acts)
  {
    a := if s.down.Reading? then ReadFrame else if s.down.GotFrame? then Lookup else Send;
    t := Next(s, a);
    ExecSnoc(acts, s, a);
    Snoc(acts, a);
    hide Exec, Arrived;
    assert Arrived(acts) + [] == Arrived(acts);
  }

  lemma Task1HasFinished(acts: seq<Action>, s: State)
    requires Exec(acts) == Some(s) && Task1Waits(s)
    ensures s.sent == Forwarded(Decode(Arrived(acts)).frames, LookupAnswer(acts))
  {
    EveryInterleavingForwards(acts, s);
    AllLookedUp(acts, s);
  }

  /** Whatever has happened, task 1 by its own moves can come to having sent every whole frame that has
      arrived, each to the sender recorded last before its lookup, if there was one. */
  lemma {:induction false} Task1CanFinish(acts: seq<Action>, s: State)
    returns (more: seq<Action>, t: State)
    requires Exec(acts) == Some(s)
    ensures (forall a :: a in more ==> OfTask1(a)) && Exec(acts + more) == Some(t)
    ensures t.down.Reading? && Incomplete(t.inbox) && Arrived(acts + more) == Arrived(acts)
    ensures t.sent == Forwarded(Decode(Arrived(acts)).frames, LookupAnswer(acts + more))
    decreases Task1Work(s)
  {
    hide Exec, Arrived, Decode, Forwarded, LookupAnswer, Task1Work, OfTask1, Incomplete;
    if Task1Waits(s) {
      more, t := [], s;
      assert acts + more == acts;
      Task1HasFinished(acts, s);
    } else {
      var a, next := Task1Moves(acts, s);
      more, t := Task1CanFinish(acts + [a], next);
      assert (acts + [a]) + more == acts + ([a] + more);
      more := [a] + more;
    }
  }

  lemma AllLookedUp(acts: seq<Action>, s: State)
    requires Exec(acts) == Some(s) && s.down.Reading? && Incomplete(s.inbox)
    ensures var frames := Decode(Arrived(acts)).frames;
            Lookups(acts) == |frames| && frames[..Lookups(acts)] == frames && Committed(s) == s.sent
  {
    DownInvHolds(acts, s);
    assert Decode(s.inbox).frames == [];
  }

  /** Unless it has ended, task 2 by its own moves can come to having written every datagram received,
      ready for any that fits its buffer. */
  lemma Task2CanFinish(acts: seq<Action>, s: State)
    returns (more: seq<Action>, t: State)
    requires Exec(acts) == Some(s) && !s.up.Stopped?
    ensures more <= [Record, Write(None)] || more == [Write(None)]
    ensures Exec(acts + more) == Some(t) && Decode(t.out) == Decoded(Datagrams(acts), [])
    ensures forall data, from :: |data| <= 65535 ==> Enabled(t, Recv(data, from))
  {
    hide Exec, Datagrams, Decode, EncodeFrame;
    more, t := [], s;
    var start := if s.up.Got? then acts + [Record] else acts;
    if s.up.Got? {
      ExecSnoc(acts, s, Record);
      UpSnoc(acts, Record);
      more, t := [Record], Next(s, Record);
    }
    assert Datagrams(acts) + [] == Datagrams(acts);
    assert acts + more == start;
    if !s.up.Receiving? {
      ExecSnoc(start, t, Write(None));
      UpSnoc(start, Write(None));
      assert Datagrams(start) + [] == Datagrams(start);
      assert start + [Write(None)] == acts + (more + [Write(None)]);
      more, t := more + [Write(None)], Next(t, Write(None));
    }
    EveryInterleavingWrites(acts + more, t);
  }

  // ---------- whose address a lookup finds ----------

  /** `q` is the last datagram received among these actions. */
  ghost predicate LastRecv(acts: seq<Action>, q: nat) {
    q < |acts| && acts[q].Recv? && forall i :: q < i < |acts| ==> !acts[i].Recv?
  }

  /** `r` is the last recording among these actions. */
  ghost predicate LastRecord(acts: seq<Action>, r: nat) {
    r < |acts| && acts[r].Record? && forall i :: r < i < |acts| ==> !acts[i].Record?
  }

  lemma {:induction false} LatestFromIs(acts: seq<Action>, q: nat)
    requires LastRecv(acts, q)
    ensures LatestFrom(acts) == Some(acts[q].from)
  {
    if q < |acts| - 1 {
      LatestFromIs(acts[..|acts| - 1], q);
    }
  }

  /** A lookup made after these actions finds the sender of the last datagram received before the last
      recording. */
  lemma {:induction false} LatestRecordedIs(acts: seq<Action>, r: nat, q: nat)
    requires LastRecord(acts, r) && LastRecv(acts[..r], q)
    ensures LatestRecorded(acts) == Some(acts[q].from)
  {
    if r < |acts| - 1 {
      assert acts[..|acts| - 1][..r] == acts[..r];
      LatestRecordedIs(acts[..|acts| - 1], r, q);
    } else {
      LatestFromIs(acts[..r], q);
    }
  }
}
