/** The newline-delimited JSON negotiation, many clients at once. */
module Negotiation {
  import opened Wrappers
  import opened Wireguard
  import opened Psk
  import opened ReadLine

  datatype Hello = Hello(ekB64: string, wgPubkey: string, authToken: string)
  datatype Reply = Reply(ctB64: string, serverWGPubkey: string, serverEndpoint: string, hkdfSaltB64: string)

  /** The JSON codecs of both messages. */
  datatype Wire = Wire(
    putHello: Hello -> Bytes, getHello: Bytes -> Option<Hello>,
    putReply: Reply -> Bytes, getReply: Bytes -> Option<Reply>)

  /** Each message reads back as written, trailing newline or not, and its text holds no newline. */
  ghost predicate Faithful(w: Wire) {
    && (forall h :: w.getHello(w.putHello(h) + [NEWLINE]) == Some(h) && NEWLINE !in w.putHello(h))
    && (forall r :: w.getReply(w.putReply(r)) == Some(r) && NEWLINE !in w.putReply(r))
  }

  datatype Config = Config(serverWGPubkey: string, serverEndpoint: string, allowedIP: string)

  /** What a deployment fixes: the primitives, the codecs, the announced facts, the token check. */
  datatype Setup = Setup(crypto: Crypto, wire: Wire, cfg: Config, auth: Option<(string, string) -> bool>)

  /** A hello worth answering: the key to program, the PSK for it, and the line to send back. */
  datatype Answer = Answer(key: string, psk: Bytes, line: Bytes)

  /** The reply that goes with a negotiated PSK. */
  function ReplyFor(u: Setup, n: NegotiateResult): Reply {
    Reply(u.crypto.toB64(n.ciphertext), u.cfg.serverWGPubkey, u.cfg.serverEndpoint, u.crypto.toB64(n.salt))
  }

  function AnswerTo(u: Setup, rawHello: Bytes, rnd: Randomness): Option<Answer> {
    match u.wire.getHello(rawHello)
    case None => None
    case Some(hello) =>
      if u.auth.Some? && !u.auth.value(hello.authToken, hello.wgPubkey) then None
      else
        match u.crypto.fromB64(hello.ekB64)
        case None => None
        case Some(ek) =>
          match Negotiate(u.crypto, ek, rnd)
          case None => None
          case Some(n) =>
            var reply := ReplyFor(u, n);
            Some(Answer(hello.wgPubkey, n.psk, u.wire.putReply(reply) + [NEWLINE]))
  }

  /** The client's hello line for the key pair that `seed` generates. */
  function HelloLine(u: Setup, seed: Bytes, key: string, token: string): Bytes {
    u.wire.putHello(Hello(u.crypto.toB64(u.crypto.keygen(seed).1), key, token)) + [NEWLINE]
  }

  /** What the client ends up with. */
  datatype Negotiated = Negotiated(psk: Bytes, serverWGPubkey: string, serverEndpoint: string)

  /** What the client makes of a response line. */
  function NegotiatedFrom(u: Setup, seed: Bytes, line: Bytes): Option<Negotiated> {
    match u.wire.getReply(line)
    case None => None
    case Some(reply) =>
      match ClientDerive(u.crypto, u.crypto.keygen(seed).0, reply.ctB64, reply.hkdfSaltB64)
      case None => None
      case Some(psk) => Some(Negotiated(psk, reply.serverWGPubkey, reply.serverEndpoint))
  }

  /** The PSK together with the server's configured key and endpoint. */
  function Announced(u: Setup, psk: Bytes): Negotiated {
    Negotiated(psk, u.cfg.serverWGPubkey, u.cfg.serverEndpoint)
  }

  /** What gets out of a line, all of it unless the write fails. */
  function Cut(line: Bytes, failsAfter: Option<nat>): (out: Bytes)
    ensures out <= line
    ensures |out| == if failsAfter.Some? && failsAfter.value <= |line| then failsAfter.value else |line|
  {
    if failsAfter.Some? && failsAfter.value <= |line| then line[..failsAfter.value] else line
  }

  // ---------- each end on its own ----------

  class Connection {
    const incoming: Stream
    var outgoing: Bytes

    constructor (incoming: Stream)
      ensures this.incoming == incoming && outgoing == []
    {
      this.incoming := incoming;
      outgoing := [];
    }
  }

  /** One negotiation on the server. The peer is programmed before a byte of the reply is written,
      so a failed write leaves a peer whose client has no reply. */
  method HandleConn(u: Setup, conn: Connection, wg: Manager, rnd: Randomness, setOk: bool, failsAfter: Option<nat>)
    returns (r: Option<Bytes>)
    modifies conn, conn.incoming, wg
    ensures var hello := CutLine(old(conn.incoming.pending));
            var answer := if hello.None? then None else AnswerTo(u, hello.value.0 + [NEWLINE], rnd);
            if answer.None? || !setOk
            then r == None && wg.peers == old(wg.peers) && conn.outgoing == old(conn.outgoing)
            else
              && wg.peers == WithPeer(old(wg.peers), answer.value.key, answer.value.psk, u.cfg.allowedIP)
              && conn.outgoing == old(conn.outgoing) + Cut(answer.value.line, failsAfter)
              && r == if failsAfter.Some? then None else Some(answer.value.psk)
  {
    var line := ReadResponse(conn.incoming);
    if line.None? {
      return None;
    }
    var hello := u.wire.getHello(line.value + [NEWLINE]);
    if hello.None? {
      return None;
    }
    if u.auth.Some? && !u.auth.value(hello.value.authToken, hello.value.wgPubkey) {
      return None;
    }
    var ek := u.crypto.fromB64(hello.value.ekB64);
    if ek.None? {
      return None;
    }
    var n := Negotiate(u.crypto, ek.value, rnd);
    if n.None? {
      return None;
    }
    var ok := wg.SetPeer(hello.value.wgPubkey, n.value.psk, u.cfg.allowedIP, setOk);
    if !ok {
      return None;
    }
    var resp := ReplyFor(u, n.value);
    var out := u.wire.putReply(resp) + [NEWLINE];
    conn.outgoing := conn.outgoing + Cut(out, failsAfter);
    if failsAfter.Some? {
      return None;
    }
    return Some(n.value.psk);
  }

  /** The client: send the hello, read the response line, derive. `incoming` is all the server will send. */
  method ClientNegotiate(u: Setup, conn: Connection, seed: Bytes, key: string, token: string, sendOk: bool)
    returns (r: Option<Negotiated>)
    modifies conn, conn.incoming
    ensures !sendOk ==> r == None && conn.outgoing == old(conn.outgoing)
    ensures sendOk ==> conn.outgoing == old(conn.outgoing) + HelloLine(u, seed, key, token)
    ensures sendOk ==> var resp := CutLine(old(conn.incoming.pending));
                       r == if resp.None? then None else NegotiatedFrom(u, seed, resp.value.0)
  {
    var (dk, ek) := u.crypto.keygen(seed);
    var hello := Hello(u.crypto.toB64(ek), key, token);
    if !sendOk {
      return None;
    }
    conn.outgoing := conn.outgoing + (u.wire.putHello(hello) + [NEWLINE]);
    var responseBuf := ReadResponse(conn.incoming);
    if responseBuf.None? {
      return None;
    }
    var resp := u.wire.getReply(responseBuf.value);
    if resp.None? {
      return None;
    }
    var psk := ClientDerive(u.crypto, dk, resp.value.ctB64, resp.value.hkdfSaltB64);
    if psk.None? {
      return None;
    }
    return Some(Negotiated(psk.value, resp.value.serverWGPubkey, resp.value.serverEndpoint));
  }

  /** A client's own hello is answered exactly when there is no token check, or the check accepts its
      token for its key, and a salt is drawn. */
  lemma OwnHelloAnsweredIff(u: Setup, seed: Bytes, key: string, token: string, rnd: Randomness)
    requires Lawful(u.crypto) && Faithful(u.wire)
    ensures AnswerTo(u, HelloLine(u, seed, key, token), rnd).Some?
            <==> (u.auth.Some? ==> u.auth.value(token, key)) && rnd.salt.Some?
  {
    var (dk, ek) := u.crypto.keygen(seed);
    var hello := Hello(u.crypto.toB64(ek), key, token);
    assert u.wire.getHello(u.wire.putHello(hello) + [NEWLINE]) == Some(hello);
    assert u.crypto.fromB64(hello.ekB64) == Some(ek);
    BothEndsDeriveTheSame(u.crypto, seed, rnd);
  }

  /** Any other bytes are answered exactly when they parse, the check accepts, the key decodes and
      passes its own check, and a salt is drawn; and then for the key they name. */
  lemma AnsweredIff(u: Setup, rawHello: Bytes, rnd: Randomness)
    ensures AnswerTo(u, rawHello, rnd).Some?
            <==> && u.wire.getHello(rawHello).Some?
                 && var h := u.wire.getHello(rawHello).value;
                    && (u.auth.Some? ==> u.auth.value(h.authToken, h.wgPubkey))
                    && u.crypto.fromB64(h.ekB64).Some? && u.crypto.isEk(u.crypto.fromB64(h.ekB64).value)
                    && rnd.salt.Some?
    ensures AnswerTo(u, rawHello, rnd).Some?
            ==> AnswerTo(u, rawHello, rnd).value.key == u.wire.getHello(rawHello).value.wgPubkey
  {
  }

  /** The client accepts exactly a line that parses and holds a ciphertext and a salt to derive from. */
  lemma NegotiatesFromIff(u: Setup, seed: Bytes, line: Bytes)
    ensures NegotiatedFrom(u, seed, line).Some?
            <==> && u.wire.getReply(line).Some?
                 && var r := u.wire.getReply(line).value;
                    && u.crypto.fromB64(r.ctB64).Some? && u.crypto.isCt(u.crypto.fromB64(r.ctB64).value)
                    && u.crypto.fromB64(r.hkdfSaltB64).Some?
  {
  }

  /** A whole reply to a client's own hello gives that client the PSK programmed for its key and the
      server's own key and endpoint; a reply cut short gives it nothing. */
  lemma ReplyCarriesThePsk(u: Setup, seed: Bytes, key: string, token: string, rnd: Randomness, n: nat)
    requires Lawful(u.crypto) && Faithful(u.wire)
    requires AnswerTo(u, HelloLine(u, seed, key, token), rnd).Some?
    ensures var a := AnswerTo(u, HelloLine(u, seed, key, token), rnd).value;
            && a.key == key
            && CutLine(a.line).Some? && NegotiatedFrom(u, seed, CutLine(a.line).value.0) == Some(Announced(u, a.psk))
            && (n <= |a.line| ==> (CutLine(a.line[..n]).Some? <==> n == |a.line|))
  {
    var (dk, ek) := u.crypto.keygen(seed);
    var hello := Hello(u.crypto.toB64(ek), key, token);
    assert u.wire.getHello(u.wire.putHello(hello) + [NEWLINE]) == Some(hello);
    assert u.crypto.fromB64(hello.ekB64) == Some(ek);
    BothEndsDeriveTheSame(u.crypto, seed, rnd);
    var r := Negotiate(u.crypto, ek, rnd).value;
    var reply := ReplyFor(u, r);
    var text := u.wire.putReply(reply);
    assert u.wire.getReply(text) == Some(reply) && NEWLINE !in text;
    CutLineOf(text, []);
    assert text + [NEWLINE] + [] == text + [NEWLINE];
    if n < |text + [NEWLINE]| {
      assert forall i :: 0 <= i < n ==> (text + [NEWLINE])[..n][i] == text[i];
    }
  }
}
