/** Reading a response byte by byte up to a newline. */
module ReadLine {
  import opened Wrappers

  const NEWLINE: byte := 10
  const CAP := 1048576

  /** The bytes before the first newline and those after it, if there is a newline. */
  function CutLine(s: Bytes): (r: Option<(Bytes, Bytes)>)
    ensures r.Some? <==> NEWLINE in s
    ensures r.Some? ==> s == r.value.0 + [NEWLINE] + r.value.1 && NEWLINE !in r.value.0
  {
    if s == [] then None
    else if s[0] == NEWLINE then Some(([], s[1..]))
    else
      match CutLine(s[1..])
      case None => None
      case Some((line, rest)) => Some(([s[0]] + line, rest))
  }

  /** A newline-free line followed by a newline is what is cut off. */
  lemma {:induction false} CutLineOf(line: Bytes, rest: Bytes)
    requires NEWLINE !in line
    ensures CutLine(line + [NEWLINE] + rest) == Some((line, rest))
  {
    var s := line + [NEWLINE] + rest;
    if line == [] {
      assert s[1..] == rest;
    } else {
      assert s[1..] == line[1..] + [NEWLINE] + rest && line[0] in line;
      CutLineOf(line[1..], rest);
      assert [line[0]] + line[1..] == line;
    }
  }

  /** A TLS stream: the bytes still to come before it is closed or breaks. */
  class Stream {
    var pending: Bytes

    constructor (pending: Bytes)
      ensures this.pending == pending
    {
      this.pending := pending;
    }

    /** One byte, or None at the end of the stream. */
    method Read() returns (b: Option<byte>)
      modifies this
      ensures old(pending) == [] ==> b.None? && pending == []
      ensures old(pending) != [] ==> b == Some(old(pending)[0]) && pending == old(pending)[1..]
    {
      if pending == [] {
        return None;
      }
      b := Some(pending[0]);
      pending := pending[1..];
    }
  }

  /** Gives exactly the bytes before the first newline, and fails exactly when the stream ends first. */
  method ReadResponse(stream: Stream) returns (r: Option<Bytes>)
    modifies stream
    ensures r.Some? <==> 10 in old(stream.pending)
    ensures r.Some? ==> 10 !in r.value && old(stream.pending) == r.value + [10] + stream.pending
    ensures r == match CutLine(old(stream.pending)) case None => None case Some((line, _)) => Some(line)
  {
    hide CutLine, SoFar;
    NothingRead(stream.pending);
    var buf := [];
    ghost var whole := stream.pending;
    while true
      invariant SoFar(whole, buf, stream.pending)
      decreases |stream.pending|
    {
      ghost var before := stream.pending;
      var b := stream.Read();
      if b.None? {
        EndReached(whole, buf);
        return None;
      }
      if b.value == NEWLINE {
        LineFound(whole, buf, before);
        return Some(buf);
      }
      ByteRead(whole, buf, before);
      buf := buf + [b.value];
    }
  }

  /** The bytes read hold no newline, and the others are still to come. */
  ghost predicate SoFar(whole: Bytes, buf: Bytes, pending: Bytes) {
    NEWLINE !in buf && whole == buf + pending
  }

  lemma NothingRead(whole: Bytes)
    ensures SoFar(whole, [], whole)
  {
  }

  lemma EndReached(whole: Bytes, buf: Bytes)
    requires SoFar(whole, buf, [])
    ensures NEWLINE !in whole && CutLine(whole).None?
  {
    assert whole == buf;
  }

  lemma LineFound(whole: Bytes, buf: Bytes, pending: Bytes)
    requires SoFar(whole, buf, pending) && pending != [] && pending[0] == NEWLINE
    ensures CutLine(whole) == Some((buf, pending[1..]))
    ensures NEWLINE in whole && NEWLINE !in buf && whole == buf + [NEWLINE] + pending[1..]
  {
    assert whole == buf + [NEWLINE] + pending[1..];
    CutLineOf(buf, pending[1..]);
  }

  lemma ByteRead(whole: Bytes, buf: Bytes, pending: Bytes)
    requires SoFar(whole, buf, pending) && pending != [] && pending[0] != NEWLINE
    ensures SoFar(whole, buf + [pending[0]], pending[1..])
  {
  }

  datatype Capped = Line(line: Bytes) | Closed | TooLarge

  /** The capped loop succeeds exactly when a newline comes at offset 2^20 or before; otherwise it
      reports a long line or, when no more than 2^20 bytes come at all, a closed stream. */
  method ReadCapped(stream: Stream) returns (r: Capped)
    modifies stream
    ensures r.Line?
            <==> exists i :: 0 <= i < |old(stream.pending)| && i <= 0x10_0000 && old(stream.pending)[i] == 10
    ensures r.Line? ==> 10 !in r.line && old(stream.pending) == r.line + [10] + stream.pending
    ensures r.Closed? ==> |old(stream.pending)| <= 0x10_0000
    ensures r.TooLarge? ==> |old(stream.pending)| > 0x10_0000
  {
    var buf := [];
    ghost var whole := stream.pending;
    while true
      invariant NEWLINE !in buf && whole == buf + stream.pending && |buf| <= CAP
      decreases |stream.pending|
    {
      ghost var before := stream.pending;
      var b := stream.Read();
      if b.None? {
        assert whole == buf;
        return Closed;
      }
      assert before == [b.value] + stream.pending;
      if b.value == NEWLINE {
        assert whole == buf + [NEWLINE] + stream.pending && whole[|buf|] == NEWLINE;
        return Line(buf);
      }
      buf := buf + [b.value];
      assert whole == buf + stream.pending;
      if |buf| > CAP {
        assert forall i :: 0 <= i <= CAP ==> whole[i] == buf[i] && buf[i] in buf;
        return TooLarge;
      }
    }
  }
}
