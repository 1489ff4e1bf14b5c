/** The UDP-over-TCP relay: one task each way, and the local client's address between them. */
module Relay {
  import opened Wrappers
  import opened Framing

  type Addr = string

  // ---------- the two loops on their own ----------

  function Flatten(chunks: seq<Bytes>): Bytes {
    if chunks == [] then [] else chunks[0] + Flatten(chunks[1..])
  }

  /** Taking part of the first segment, or all of it, moves bytes from the stream to the buffer. */
  lemma TakeFromHead(buf: Bytes, head: Bytes, tail: seq<Bytes>, take: nat)
    requires take <= |head|
    ensures var left := if take == |head| then tail else [head[take..]] + tail;
            buf + Flatten([head] + tail) == (buf + head[..take]) + Flatten(left)
  {
    var rest := Flatten(tail);
    assert ([head] + tail)[1..] == tail && ([head[take..]] + tail)[1..] == tail;
    assert head == head[..take] + head[take..];
    assert buf + (head + rest) == (buf + head[..take]) + (head[take..] + rest);
    assert take == |head| ==> head[take..] + rest == rest;
  }

  /** The read half of the TCP stream, as the segments it is delivered in. */
  class TcpReader {
    var chunks: seq<Bytes>

    constructor (chunks: seq<Bytes>)
      ensures this.chunks == chunks
    {
      this.chunks := chunks;
    }

    /** The bytes still to come, however they are cut. */
    ghost function Pending(): Bytes
      reads this
    {
      Flatten(chunks)
    }

    /** Reads n bytes across as many segments as it takes; fails when the stream ends first. */
    method ReadExact(n: nat) returns (r: Option<Bytes>)
      modifies this
      ensures n <= |old(Pending())| ==> r == Some(old(Pending())[..n]) && Pending() == old(Pending())[n..]
      ensures n > |old(Pending())| ==> r == None
    {
      var buf := [];
      while |buf| < n
        invariant |buf| <= n && buf + Pending() == old(Pending())
        decreases |chunks|, n - |buf|
      {
        if chunks == [] {
          return None;
        }
        var take := if |chunks[0]| <= n - |buf| then |chunks[0]| else n - |buf|;
        var head, tail := chunks[0], chunks[1..];
        TakeFromHead(buf, head, tail, take);
        buf := buf + head[..take];
        chunks := if take == |head| then tail else [head[take..]] + tail;
      }
      assert old(Pending())[..n] == buf && old(Pending())[n..] == Pending();
      return Some(buf);
    }
  }

  /** What is sent to the local client when the j-th address lookup answers `lookup(j)`. */
  function Forwarded(frames: seq<Bytes>, lookup: nat -> Option<Addr>): seq<(Bytes, Addr)> {
    if frames == [] then []
    else
      var n := |frames| - 1;
      Forwarded(frames[..n], lookup) + (match lookup(n) case None => [] case Some(a) => [(frames[n], a)])
  }

  /** The indices, in order, of the first n frames whose lookup finds an address. */
  ghost function Found(lookup: nat -> Option<Addr>, n: nat): seq<nat> {
    if n == 0 then [] else Found(lookup, n - 1) + if lookup(n - 1).Some? then [n - 1] else []
  }

  lemma {:induction false} FoundIs(lookup: nat -> Option<Addr>, n: nat)
    ensures var idx := Found(lookup, n);
            && (forall i, j :: 0 <= i < j < |idx| ==> idx[i] < idx[j])
            && (forall i :: 0 <= i < |idx| ==> idx[i] < n && lookup(idx[i]).Some?)
            && (forall j: nat :: j < n && lookup(j).Some? ==> j in idx)
  {
    if n > 0 {
      FoundIs(lookup, n - 1);
      var before, idx := Found(lookup, n - 1), Found(lookup, n);
      assert idx == before || (idx == before + [n - 1] && lookup(n - 1).Some?);
      forall i | 0 <= i < |idx|
        ensures idx[i] < n && lookup(idx[i]).Some? && forall h :: 0 <= h < i ==> idx[h] < idx[i]
      {
        assert i < |before| ==> idx[i] == before[i];
        assert forall h :: 0 <= h < i && h < |before| ==> idx[h] == before[h] < n - 1;
      }
    }
  }

  lemma {:induction false} ForwardedAt(frames: seq<Bytes>, lookup: nat -> Option<Addr>, i: nat)
    requires i < |Found(lookup, |frames|)|
    ensures i < |Forwarded(frames, lookup)|
    ensures var j := Found(lookup, |frames|)[i];
            j < |frames| && lookup(j).Some? && Forwarded(frames, lookup)[i] == (frames[j], lookup(j).value)
  {
    var n := |frames| - 1;
    SentSize(frames[..n], lookup);
    if i < |Found(lookup, n)| {
      ForwardedAt(frames[..n], lookup, i);
    }
  }

  lemma {:induction false} SentSize(frames: seq<Bytes>, lookup: nat -> Option<Addr>)
    ensures |Forwarded(frames, lookup)| == |Found(lookup, |frames|)|
  {
    if frames != [] {
      SentSize(frames[..|frames| - 1], lookup);
    }
  }

  /** Exactly the frames whose lookup finds an address are sent, each once, in order, whole, and to
      the address found for it. */
  lemma ForwardedIsFound(frames: seq<Bytes>, lookup: nat -> Option<Addr>)
    ensures var idx := Found(lookup, |frames|);
            && |Forwarded(frames, lookup)| == |idx|
            && (forall i, j :: 0 <= i < j < |idx| ==> idx[i] < idx[j])
            && (forall j: nat :: j < |frames| && lookup(j).Some? ==> j in idx)
            && forall i :: 0 <= i < |idx| ==>
                 idx[i] < |frames| && lookup(idx[i]).Some?
                 && Forwarded(frames, lookup)[i] == (frames[idx[i]], lookup(idx[i]).value)
  {
    var idx := Found(lookup, |frames|);
    FoundIs(lookup, |frames|);
    SentSize(frames, lookup);
    hide Forwarded, Found;
    forall i | 0 <= i < |idx| ensures Forwarded(frames, lookup)[i] == (frames[idx[i]], lookup(idx[i]).value) {
      ForwardedAt(frames, lookup, i);
    }
  }

  /** What is sent of the first j frames. */
  function FirstForwarded(frames: seq<Bytes>, j: nat, lookup: nat -> Option<Addr>): seq<(Bytes, Addr)>
    requires j <= |frames|
  {
    Forwarded(frames[..j], lookup)
  }

  lemma ForwardedNext(frames: seq<Bytes>, j: nat, lookup: nat -> Option<Addr>)
    requires j < |frames|
    ensures FirstForwarded(frames, j + 1, lookup)
            == FirstForwarded(frames, j, lookup) + if lookup(j).Some? then [(frames[j], lookup(j).value)] else []
  {
    assert frames[..j + 1][..j] == frames[..j];
  }

  lemma ForwardedEnds(frames: seq<Bytes>, lookup: nat -> Option<Addr>)
    ensures FirstForwarded(frames, 0, lookup) == []
    ensures FirstForwarded(frames, |frames|, lookup) == Forwarded(frames, lookup)
  {
    assert frames[..|frames|] == frames;
  }

  lemma DecodeOnce(s: Bytes)
    ensures if Incomplete(s) then Decode(s).frames == []
            else Decode(s).frames == [s[2..2 + FrameLength(s)]] + Decode(s[2 + FrameLength(s)..]).frames
  {
  }

  /** The stream still to come decodes to the frames from the j-th on. */
  ghost predicate StillToCome(pending: Bytes, frames: seq<Bytes>, j: nat) {
    j <= |frames| && Decode(pending).frames == frames[j..]
  }

  lemma NextFrame(pending: Bytes, frames: seq<Bytes>, j: nat)
    requires StillToCome(pending, frames, j)
    ensures |pending| < 2 || |pending| - 2 < (pending[0] as int) + (pending[1] as int) * 256 ==> j == |frames|
    ensures |pending| >= 2 && |pending| - 2 >= (pending[0] as int) + (pending[1] as int) * 256 ==>
              var n := (pending[0] as int) + (pending[1] as int) * 256;
              j < |frames| && frames[j] == pending[2..2 + n] && StillToCome(pending[2 + n..], frames, j + 1)
  {
    hide Decode;
    DecodeOnce(pending);
    if !Incomplete(pending) {
      assert frames[j..][0] == frames[j] && frames[j..][1..] == frames[j + 1..];
    }
  }

  /** Task 1, TCP to UDP. What it sends depends on the stream's bytes and the lookups alone, not
      on how the bytes are cut into segments. */
  method TcpToUdp(reader: TcpReader, lookup: nat -> Option<Addr>) returns (sent: seq<(Bytes, Addr)>)
    modifies reader
    ensures sent == Forwarded(Decode(old(reader.Pending())).frames, lookup)
  {
    hide *;
    sent := [];
    ghost var all := Decode(reader.Pending()).frames;
    ForwardedEnds(all, lookup);
    assert StillToCome(reader.Pending(), all, 0) by {
      AllToCome(reader.Pending());
    }
    var j := 0;
    while true
      invariant 0 <= j <= |all|
      invariant StillToCome(reader.Pending(), all, j)
      invariant sent == FirstForwarded(all, j, lookup)
      decreases |reader.Pending()|
    {
      ghost var pending := reader.Pending();
      NextFrame(pending, all, j);
      var lenBuf := reader.ReadExact(2);
      if lenBuf.None? {
        return;
      }
      var len := (lenBuf.value[0] as int) + (lenBuf.value[1] as int) * 256;
      var payload := reader.ReadExact(len);
      if payload.None? {
        return;
      }
      assert payload.value == pending[2..2 + len] && reader.Pending() == pending[2 + len..];
      ForwardedNext(all, j, lookup);
      var target := lookup(j);
      if target.Some? {
        sent := sent + [(payload.value, target.value)];
      }
      j := j + 1;
    }
  }

  lemma AllToCome(pending: Bytes)
    ensures StillToCome(pending, Decode(pending).frames, 0)
  {
  }

  function Payloads(ds: seq<(Bytes, Addr)>): seq<Bytes> {
    seq(|ds|, i requires 0 <= i < |ds| => Received(ds[i].0))
  }

  /** A datagram longer than the buffer would be cut to it. */
  function Received(d: Bytes): (r: Bytes)
    ensures r <= d && |r| == if |d| <= 65535 then |d| else 65535
  {
    if |d| <= MAX_DATAGRAM then d else d[..MAX_DATAGRAM]
  }

  /** Whatever fails, the far end decodes whole datagrams, in order, from the first on; it misses none
      before the write that fails, and none at all when nothing fails. */
  ghost predicate FarEndGets(out: Bytes, all: seq<Bytes>, failsAfter: nat -> Option<nat>) {
    && Decode(out).frames <= all
    && match FirstFailure(failsAfter, |all|)
       case None => Decode(out) == Decoded(all, [])
       case Some(j) => all[..j] <= Decode(out).frames
  }

  method NewBuffer() returns (buf: array<byte>)
    ensures fresh(buf) && buf.Length == MAX_DATAGRAM
  {
    buf := new byte[MAX_DATAGRAM];
  }

  /** Puts a datagram into the buffer, or as much of it as fits. */
  method RecvFrom(buf: array<byte>, data: Bytes) returns (len: nat)
    requires buf.Length == MAX_DATAGRAM
    modifies buf
    ensures len <= buf.Length && buf[..len] == Received(data)
  {
    len := if |data| <= buf.Length then |data| else buf.Length;
    forall i | 0 <= i < len {
      buf[i] := data[i];
    }
  }

  /** What gets out of a frame when its write fails after k bytes. */
  function Part(frame: Bytes, k: nat): (part: Bytes)
    ensures part <= frame && |part| == if k <= |frame| then k else |frame|
  {
    if k <= |frame| then frame[..k] else frame
  }

  /** The first of n writes that fails. */
  function FirstFailure(failsAfter: nat -> Option<nat>, n: nat): (r: Option<nat>)
    ensures r.Some? ==> r.value < n && failsAfter(r.value).Some?
  {
    if n == 0 then None
    else if FirstFailure(failsAfter, n - 1).Some? then FirstFailure(failsAfter, n - 1)
    else if failsAfter(n - 1).Some? then Some(n - 1)
    else None
  }

  lemma {:induction false} FirstFailureIs(failsAfter: nat -> Option<nat>, n: nat)
    ensures var r := FirstFailure(failsAfter, n);
            && (r.None? <==> forall j: nat :: j < n ==> failsAfter(j).None?)
            && (r.Some? ==> forall j: nat :: j < r.value ==> failsAfter(j).None?)
  {
    if n > 0 {
      FirstFailureIs(failsAfter, n - 1);
    }
  }

  /** All the frames of `all`, or those before the first write that fails and what gets out of that one. */
  function Written(all: seq<Bytes>, failsAfter: nat -> Option<nat>): Bytes {
    match FirstFailure(failsAfter, |all|)
    case None => EncodeAll(all)
    case Some(j) => EncodeAll(all[..j]) + Part(EncodeFrame(all[j]), failsAfter(j).value)
  }

  /** Task 2, UDP to TCP, over one receive buffer. `failsAfter(j)` is how much of the j-th write
      gets out when that write fails. The last sender is recorded, its datagram written or not. */
  method UdpToTcp(datagrams: seq<(Bytes, Addr)>, failsAfter: nat -> Option<nat>)
    returns (out: Bytes, client: Option<Addr>)
    ensures out == Written(Payloads(datagrams), failsAfter)
    ensures FarEndGets(out, Payloads(datagrams), failsAfter)
    ensures client == match FirstFailure(failsAfter, |datagrams|)
                      case None => if datagrams == [] then None else Some(datagrams[|datagrams| - 1].1)
                      case Some(j) => Some(datagrams[j].1)
  {
    hide *;
    out, client := [], None;
    ghost var all := Payloads(datagrams);
    PayloadsArrive(datagrams, failsAfter);
    var buf := NewBuffer();
    var j := 0;
    while j < |datagrams|
      invariant 0 <= j <= |datagrams| == |all|
      invariant out == FirstFrames(all, j)
      invariant FirstFailure(failsAfter, j).None?
      invariant if j == 0 then client.None? else client == Some(datagrams[j - 1].1)
    {
      var (data, addr) := datagrams[j];
      var len := RecvFrom(buf, data);
      client := Some(addr);
      var tcpData := Header(len) + buf[..len];
      PayloadFrame(datagrams, j, len, buf[..len]);
      var failed := failsAfter(j);
      if failed.Some? {
        WrittenUpTo(all, failsAfter, j);
        out := out + Part(tcpData, failed.value);
        return;
      }
      NoFailureYet(all, failsAfter, j);
      out := out + tcpData;
      j := j + 1;
    }
    WrittenWhole(all, failsAfter);
  }

  lemma PayloadsArrive(datagrams: seq<(Bytes, Addr)>, failsAfter: nat -> Option<nat>)
    ensures var all := Payloads(datagrams);
            && |all| == |datagrams| && FirstFrames(all, 0) == [] && FirstFailure(failsAfter, 0).None?
            && FarEndGets(Written(all, failsAfter), all, failsAfter)
  {
    WrittenDecodes(Payloads(datagrams), failsAfter);
  }

  function FirstFrames(all: seq<Bytes>, j: nat): Bytes
    requires j <= |all|
  {
    EncodeAll(all[..j])
  }

  lemma PayloadFrame(ds: seq<(Bytes, Addr)>, j: nat, len: nat, data: Bytes)
    requires j < |ds| && data == Received(ds[j].0) && len == |data|
    ensures |Payloads(ds)| == |ds| && Header(len) + data == EncodeFrame(Payloads(ds)[j])
  {
  }

  lemma NoFailureYet(all: seq<Bytes>, failsAfter: nat -> Option<nat>, j: nat)
    requires j < |all| && FirstFailure(failsAfter, j).None? && failsAfter(j).None?
    ensures FirstFailure(failsAfter, j + 1).None?
    ensures FirstFrames(all, j + 1) == FirstFrames(all, j) + EncodeFrame(all[j])
  {
    EncodeAllSnoc(all[..j], all[j]);
    assert all[..j] + [all[j]] == all[..j + 1];
  }

  lemma {:induction false} FailsFirstAt(failsAfter: nat -> Option<nat>, j: nat, n: nat)
    requires j < n && failsAfter(j).Some? && FirstFailure(failsAfter, j).None?
    ensures FirstFailure(failsAfter, n) == Some(j)
  {
    if j < n - 1 {
      FailsFirstAt(failsAfter, j, n - 1);
    }
  }

  lemma WrittenUpTo(all: seq<Bytes>, failsAfter: nat -> Option<nat>, j: nat)
    requires j < |all| && failsAfter(j).Some? && FirstFailure(failsAfter, j).None?
    ensures FirstFailure(failsAfter, |all|) == Some(j)
    ensures Written(all, failsAfter) == FirstFrames(all, j) + Part(EncodeFrame(all[j]), failsAfter(j).value)
  {
    FailsFirstAt(failsAfter, j, |all|);
    hide EncodeAll, EncodeFrame, Part, FirstFailure;
  }

  lemma WrittenWhole(all: seq<Bytes>, failsAfter: nat -> Option<nat>)
    requires FirstFailure(failsAfter, |all|).None?
    ensures Written(all, failsAfter) == FirstFrames(all, |all|)
  {
    assert all[..|all|] == all;
  }

  lemma WrittenDecodes(all: seq<Bytes>, failsAfter: nat -> Option<nat>)
    requires AllFit(all)
    ensures FarEndGets(Written(all, failsAfter), all, failsAfter)
  {
    hide Decode, EncodeAll, EncodeFrame;
    match FirstFailure(failsAfter, |all|)
    case None => WholeYieldsAll(all);
    case Some(j) =>
      var frame, k := EncodeFrame(all[j]), failsAfter(j).value;
      CutYieldsPrefix(all, j, if k <= |frame| then k else |frame|);
      assert frame[..|frame|] == frame;
      DecodeEncoded(all[..j], Part(frame, k));
  }

  lemma WholeYieldsAll(all: seq<Bytes>)
    requires AllFit(all)
    ensures Decode(EncodeAll(all)) == Decoded(all, [])
  {
    DecodeEncoded(all, []);
    assert EncodeAll(all) + [] == EncodeAll(all) && all + [] == all;
  }

  /** A stream cut inside frame j still decodes to the first of the datagrams. */
  lemma CutYieldsPrefix(all: seq<Bytes>, j: nat, k: nat)
    requires AllFit(all) && j < |all| && k <= |EncodeFrame(all[j])|
    ensures Decode(EncodeAll(all[..j]) + EncodeFrame(all[j])[..k]).frames <= all
  {
    var whole := EncodeAll(all[..j]) + EncodeFrame(all[j]);
    var n := |EncodeAll(all[..j])| + k;
    EncodeAllSnoc(all[..j], all[j]);
    assert all[..j] + [all[j]] == all[..j + 1];
    assert whole[..n] == EncodeAll(all[..j]) + EncodeFrame(all[j])[..k];
    TruncationYieldsPrefix(whole, n);
    WholeYieldsAll(all[..j + 1]);
  }
}
