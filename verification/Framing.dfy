/** Datagrams in a byte stream: a two-byte little-endian length before each. */
module Framing {
  import opened Wrappers

  /** The receive buffer, and so the longest datagram, of the UDP side. */
  const MAX_DATAGRAM := 65535

  /** The length is cast to 16 bits, so a longer datagram would be framed with a wrong length. */
  function EncodeFrame(d: Bytes): Bytes {
    Header(|d|) + d
  }

  /** `(len as u16).to_le_bytes()`. */
  function Header(len: nat): (h: Bytes)
    ensures |h| == 2
  {
    [len % 256, len % 65536 / 256]
  }

  /** On the wire: the length modulo 2^16, low byte first, and then the datagram. */
  lemma FrameOnTheWire(d: Bytes)
    ensures var s := EncodeFrame(d);
            && |s| == |d| + 2 && s[2..] == d
            && (s[0] as int) + 256 * (s[1] as int) == |d| % 65536
            && (|d| <= 65535 ==> FrameLength(s) == |d| && !Incomplete(s))
  {
    var n := |d| % 65536;
    assert n % 256 == |d| % 256;
    assert n == 256 * (n / 256) + n % 256;
  }

  lemma HeaderOfBytes(low: byte, high: byte)
    ensures Header((low as int) + (high as int) * 256) == [low, high]
  {
    var n := (low as int) + (high as int) * 256;
    assert n < 65536 && n / 256 == high && n % 256 == low;
    assert n % 65536 == n;
  }

  function EncodeAll(ds: seq<Bytes>): Bytes {
    if ds == [] then [] else EncodeFrame(ds[0]) + EncodeAll(ds[1..])
  }

  ghost predicate AllFit(ds: seq<Bytes>) {
    forall i :: 0 <= i < |ds| ==> |ds[i]| <= MAX_DATAGRAM
  }

  function FrameLength(s: Bytes): nat
    requires |s| >= 2
  {
    (s[0] as int) + (s[1] as int) * 256
  }

  /** True when `s` does not yet hold a whole frame. */
  predicate Incomplete(s: Bytes) {
    |s| < 2 || |s| - 2 < FrameLength(s)
  }

  datatype Decoded = Decoded(frames: seq<Bytes>, rest: Bytes)

  /** The whole frames at the front of `s`, and the bytes left over. */
  function Decode(s: Bytes): Decoded
    decreases |s|
  {
    if Incomplete(s) then Decoded([], s)
    else
      var n := FrameLength(s);
      var tail := Decode(s[2 + n..]);
      Decoded([s[2..2 + n]] + tail.frames, tail.rest)
  }

  lemma DecodeFrame(d: Bytes, rest: Bytes)
    requires |d| <= MAX_DATAGRAM
    ensures Decode(EncodeFrame(d) + rest) == Decoded([d] + Decode(rest).frames, Decode(rest).rest)
  {
    var s := EncodeFrame(d) + rest;
    assert FrameLength(s) == |d|;
    assert s[2..2 + |d|] == d && s[2 + |d|..] == rest;
  }

  lemma EncodeAllCons(ds: seq<Bytes>, rest: Bytes)
    requires ds != []
    ensures EncodeAll(ds) + rest == EncodeFrame(ds[0]) + (EncodeAll(ds[1..]) + rest)
  {
  }

  /** Decoding gives back exactly the datagrams that were encoded, and the unfinished rest. */
  lemma {:induction false} DecodeEncoded(ds: seq<Bytes>, rest: Bytes)
    requires AllFit(ds)
    ensures Decode(EncodeAll(ds) + rest) == Decoded(ds + Decode(rest).frames, Decode(rest).rest)
  {
    hide Decode, EncodeFrame;
    var more := Decode(rest).frames;
    if ds == [] {
      assert EncodeAll(ds) + rest == rest && ds + more == more;
    } else {
      var tail := EncodeAll(ds[1..]) + rest;
      assert Decode(tail) == Decoded(ds[1..] + more, Decode(rest).rest) by {
        DecodeEncoded(ds[1..], rest);
      }
      assert EncodeAll(ds) + rest == EncodeFrame(ds[0]) + tail by {
        EncodeAllCons(ds, rest);
      }
      assert [ds[0]] + (ds[1..] + more) == ds + more;
      DecodeFrame(ds[0], tail);
    }
  }

  /** The cast loses nothing exactly when the datagram fits the receive buffer. */
  lemma CastIsLosslessIffFits(d: Bytes)
    ensures Decode(EncodeFrame(d)) == Decoded([d], []) <==> |d| <= MAX_DATAGRAM
  {
    var s := EncodeFrame(d);
    if |d| <= MAX_DATAGRAM {
      DecodeFrame(d, []);
      assert s + [] == s;
    } else {
      assert !Incomplete(s);
      assert |Decode(s).frames[0]| == FrameLength(s) <= MAX_DATAGRAM;
    }
  }

  lemma EncodeFirst(s: Bytes)
    requires !Incomplete(s)
    ensures FrameLength(s) <= MAX_DATAGRAM && EncodeFrame(s[2..2 + FrameLength(s)]) == s[..2 + FrameLength(s)]
  {
    var n := FrameLength(s);
    HeaderOfBytes(s[0], s[1]);
    hide Header;
    assert Header(n) == [s[0], s[1]];
    assert s[..2 + n] == [s[0], s[1]] + s[2..2 + n];
  }

  lemma PrependFirst(s: Bytes, tail: Decoded)
    requires !Incomplete(s)
    requires AllFit(tail.frames) && EncodeAll(tail.frames) + tail.rest == s[2 + FrameLength(s)..]
    ensures var frames := [s[2..2 + FrameLength(s)]] + tail.frames;
            AllFit(frames) && EncodeAll(frames) + tail.rest == s
  {
    var n := FrameLength(s);
    var frames := [s[2..2 + n]] + tail.frames;
    EncodeFirst(s);
    EncodeAllCons(frames, tail.rest);
    assert frames[1..] == tail.frames;
    hide EncodeAll, EncodeFrame, FrameLength, Incomplete;
    assert s[..2 + n] + s[2 + n..] == s;
  }

  /** Encoding the decoded frames again and appending the rest gives the stream back. */
  lemma {:induction false} EncodeDecoded(s: Bytes)
    ensures AllFit(Decode(s).frames) && Incomplete(Decode(s).rest)
    ensures EncodeAll(Decode(s).frames) + Decode(s).rest == s
    decreases |s|
  {
    if Incomplete(s) {
      assert EncodeAll([]) + s == s;
    } else {
      var left := s[2 + FrameLength(s)..];
      EncodeDecoded(left);
      PrependFirst(s, Decode(left));
    }
  }

  /** A stream is whole frames followed by an unfinished rest in exactly one way. */
  lemma {:induction false} SplitIsUnique(s: Bytes, frames: seq<Bytes>, rest: Bytes)
    ensures AllFit(frames) && Incomplete(rest) && EncodeAll(frames) + rest == s <==> Decode(s) == Decoded(frames, rest)
  {
    if AllFit(frames) && Incomplete(rest) && EncodeAll(frames) + rest == s {
      DecodeEncoded(frames, rest);
      assert frames + [] == frames;
    }
    EncodeDecoded(s);
  }

  /** Bytes that arrive later only add frames after those already decoded. */
  lemma DecodeAppended(s: Bytes, more: Bytes)
    ensures Decode(s + more)
            == Decoded(Decode(s).frames + Decode(Decode(s).rest + more).frames, Decode(Decode(s).rest + more).rest)
  {
    EncodeDecoded(s);
    var d := Decode(s);
    assert s + more == EncodeAll(d.frames) + (d.rest + more);
    DecodeEncoded(d.frames, d.rest + more);
  }

  /** A stream cut off anywhere yields the first of the frames the whole stream yields, and
      never a part of one. */
  lemma {:induction false} TruncationYieldsPrefix(s: Bytes, n: nat)
    requires n <= |s|
    ensures Decode(s[..n]).frames <= Decode(s).frames
  {
    hide Decode;
    DecodeAppended(s[..n], s[n..]);
    assert s[..n] + s[n..] == s;
  }

  lemma {:induction false} EncodeAllSnoc(ds: seq<Bytes>, d: Bytes)
    ensures EncodeAll(ds + [d]) == EncodeAll(ds) + EncodeFrame(d)
  {
    hide EncodeFrame;
    if ds == [] {
      assert ds + [d] == [d];
      assert EncodeAll([d]) == EncodeFrame(d) + EncodeAll([]);
    } else {
      EncodeAllSnoc(ds[1..], d);
      assert (ds + [d])[1..] == ds[1..] + [d];
    }
  }
}
