/** The connect and disconnect handlers, and each one's steps over the store and the kernel. */
module Handlers {
  import opened Wrappers
  import opened Peers
  import opened Wireguard
  import opened Psk

  /** The two tables the handlers keep in step. */
  datatype World = World(store: Table, kernel: Kernel)

  /** Where one request stands: each state but the last three names the call it makes next. */
  datatype Call =
    | Negotiated(key: string, psk: Bytes)                     // AllocateIP
    | Holding(key: string, psk: Bytes, address: string)       // wg set
    | Installed(key: string, psk: Bytes, address: string)     // AddPeer
    | CleaningUp(key: string, psk: Bytes, address: string)    // wg set ... remove, after a failed AddPeer
    | Leaving(key: string)                                    // GetPeer
    | Known(key: string)                                      // wg set ... remove
    | Unplugged(key: string)                                  // RemovePeer
    | Connected(key: string, psk: Bytes, address: string)
    | Disconnected(key: string)
    | Refused(key: string, status: int, message: string)

  predicate Done(c: Call) {
    c.Connected? || c.Disconnected? || c.Refused?
  }

  function Cidr(address: string): string {
    address + "/32"
  }

  lemma CidrInjective(a: string, b: string)
    ensures Cidr(a) == Cidr(b) <==> a == b
  {
    assert Cidr(a)[..|Cidr(a)| - 3] == a && Cidr(b)[..|Cidr(b)| - 3] == b;
  }

  /** One call of one request: `ok` is whether that store or `wg` call succeeds. */
  function Advance(hash: Bytes -> string, w: World, c: Call, ok: bool): (World, Call)
    requires !Done(c)
  {
    match c
    case Negotiated(key, psk) =>
      if ok && Allocate(w.store).Some?
      then (w, Holding(key, psk, Allocate(w.store).value))
      else (w, Refused(key, 500, "failed to allocate IP address"))
    case Holding(key, psk, address) =>
      if ok
      then (w.(kernel := WithPeer(w.kernel, key, psk, Cidr(address))), Installed(key, psk, address))
      else (w, Refused(key, 500, "failed to configure WireGuard peer"))
    case Installed(key, psk, address) =>
      if ok
      then (w.(store := Insert(w.store, key, Row(address, hash(psk)))), Connected(key, psk, address))
      else (w, CleaningUp(key, psk, address))
    case CleaningUp(key, _, _) =>
      (if ok then w.(kernel := w.kernel - {key}) else w, Refused(key, 500, "failed to store peer information"))
    case Leaving(key) =>
      if ok && key in w.store then (w, Known(key)) else (w, Refused(key, 404, "peer not found"))
    case Known(key) =>
      if ok
      then (w.(kernel := w.kernel - {key}), Unplugged(key))
      else (w, Refused(key, 500, "failed to remove WireGuard peer"))
    case Unplugged(key) =>
      if ok && key in w.store
      then (w.(store := w.store - {key}), Disconnected(key))
      else (w, Refused(key, 500, "failed to remove peer from store"))
  }

  /** Which of one request's calls succeed. */
  datatype Outcomes = Outcomes(queryOk: bool, wgOk: bool, execOk: bool, cleanupOk: bool)

  function Outcome(c: Call, o: Outcomes): bool {
    match c
    case Negotiated(_, _) => o.queryOk
    case Holding(_, _, _) => o.wgOk
    case Installed(_, _, _) => o.execOk
    case CleaningUp(_, _, _) => o.cleanupOk
    case Leaving(_) => o.queryOk
    case Known(_) => o.wgOk
    case _ => o.execOk
  }

  function StepsLeft(c: Call): nat {
    match c
    case Negotiated(_, _) => 4
    case Holding(_, _, _) => 3
    case Installed(_, _, _) => 2
    case CleaningUp(_, _, _) => 1
    case Leaving(_) => 3
    case Known(_) => 2
    case Unplugged(_) => 1
    case _ => 0
  }

  /** A request that runs to its end with nothing in between. */
  function Finish(hash: Bytes -> string, w: World, c: Call, o: Outcomes): (World, Call)
    decreases StepsLeft(c)
  {
    if Done(c) then (w, c)
    else
      var (w', c') := Advance(hash, w, c, Outcome(c, o));
      Finish(hash, w', c', o)
  }

  datatype ClientHello = ClientHello(ekB64: string, wgPubkey: string, authToken: string)
  datatype ServerResponse = ServerResponse(
    ctB64: string, serverWGPubkey: string, serverEndpoint: string, hkdfSaltB64: string, allowedIP: string)
  datatype Response = Accepted(body: ServerResponse) | Gone | Error(status: int, message: string)

  /** What the connect handler makes of a request before it touches either table. */
  function Validate(
    crypto: Crypto, hello: Option<ClientHello>, rnd: Randomness): (r: (Option<NegotiateResult>, Response))
  {
    if hello.None? then (None, Error(400, "invalid request body"))
    else if hello.value.ekB64 == "" then (None, Error(400, "missing encapsulation key (ek_b64)"))
    else if hello.value.wgPubkey == "" then (None, Error(400, "missing WireGuard public key (wg_pubkey)"))
    else if crypto.fromB64(hello.value.ekB64).None? then (None, Error(400, "invalid base64 encapsulation key"))
    else (Negotiate(crypto, crypto.fromB64(hello.value.ekB64).value, rnd), Error(500, "PSK negotiation failed"))
  }

  /** The connect handler on given tables: what becomes of them, and the reply. */
  function ServeConnect(
    crypto: Crypto, hash: Bytes -> string, serverWGPubkey: string, serverEndpoint: string,
    w: World, hello: Option<ClientHello>, rnd: Randomness, o: Outcomes): (World, Response)
  {
    var (result, refusal) := Validate(crypto, hello, rnd);
    if result.None? then (w, refusal)
    else
      var (w', c) := Finish(hash, w, Negotiated(hello.value.wgPubkey, result.value.psk), o);
      if c.Connected? then
        (w', Accepted(ServerResponse(
               crypto.toB64(result.value.ciphertext), serverWGPubkey, serverEndpoint,
               crypto.toB64(result.value.salt), c.address)))
      else (w', if c.Refused? then Error(c.status, c.message) else Gone)
  }

  /** The disconnect handler on given tables. */
  function ServeDisconnect(hash: Bytes -> string, w: World, wgPubkey: Option<string>, o: Outcomes): (World, Response) {
    if wgPubkey.None? then (w, Error(400, "invalid request body"))
    else if wgPubkey.value == "" then (w, Error(400, "missing WireGuard public key (wg_pubkey)"))
    else
      var (w', c) := Finish(hash, w, Leaving(wgPubkey.value), o);
      (w', if c.Refused? then Error(c.status, c.message) else Gone)
  }

  class Handler {
    const store: SQLiteStore
    const wgMgr: Manager
    const serverWGPubkey: string
    const serverEndpoint: string

    constructor (store: SQLiteStore, wgMgr: Manager, serverWGPubkey: string, serverEndpoint: string)
      ensures this.store == store && this.wgMgr == wgMgr
      ensures this.serverWGPubkey == serverWGPubkey && this.serverEndpoint == serverEndpoint
    {
      this.store := store;
      this.wgMgr := wgMgr;
      this.serverWGPubkey := serverWGPubkey;
      this.serverEndpoint := serverEndpoint;
    }

    function Tables(): World
      reads this, store, wgMgr
    {
      World(store.rows, wgMgr.peers)
    }

    /** A body that is not JSON arrives as None. */
    method HandleConnect(
      crypto: Crypto, hash: Bytes -> string, hello: Option<ClientHello>, rnd: Randomness, o: Outcomes)
      returns (resp: Response)
      modifies store, wgMgr
      ensures (Tables(), resp)
              == ServeConnect(crypto, hash, serverWGPubkey, serverEndpoint, old(Tables()), hello, rnd, o)
    {
      if hello.None? {
        return Error(400, "invalid request body");
      }
      var key := hello.value.wgPubkey;
      if hello.value.ekB64 == "" {
        return Error(400, "missing encapsulation key (ek_b64)");
      }
      if key == "" {
        return Error(400, "missing WireGuard public key (wg_pubkey)");
      }
      var ekBytes := crypto.fromB64(hello.value.ekB64);
      if ekBytes.None? {
        return Error(400, "invalid base64 encapsulation key");
      }
      var result := Negotiate(crypto, ekBytes.value, rnd);
      if result.None? {
        return Error(500, "PSK negotiation failed");
      }
      var psk := result.value.psk;
      ConnectUnfolds(hash, Tables(), key, psk, o);
      var allocatedIP := store.AllocateIP(o.queryOk);
      if allocatedIP.None? {
        return Error(500, "failed to allocate IP address");
      }
      var ok := wgMgr.SetPeer(key, psk, Cidr(allocatedIP.value), o.wgOk);
      if !ok {
        return Error(500, "failed to configure WireGuard peer");
      }
      ok := store.AddPeer(Peer(key, Row(allocatedIP.value, hash(psk))), o.execOk);
      if !ok {
        ok := wgMgr.RemovePeer(key, o.cleanupOk);
        return Error(500, "failed to store peer information");
      }
      return Accepted(ServerResponse(
        crypto.toB64(result.value.ciphertext), serverWGPubkey, serverEndpoint,
        crypto.toB64(result.value.salt), allocatedIP.value));
    }

    method HandleDisconnect(ghost hash: Bytes -> string, wgPubkey: Option<string>, o: Outcomes)
      returns (resp: Response)
      modifies store, wgMgr
      ensures (Tables(), resp) == ServeDisconnect(hash, old(Tables()), wgPubkey, o)
    {
      if wgPubkey.None? {
        return Error(400, "invalid request body");
      }
      var key := wgPubkey.value;
      if key == "" {
        return Error(400, "missing WireGuard public key (wg_pubkey)");
      }
      DisconnectUnfolds(hash, Tables(), key, o);
      var peer := store.GetPeer(key, o.queryOk);
      if peer.None? {
        return Error(404, "peer not found");
      }
      var ok := wgMgr.RemovePeer(key, o.wgOk);
      if !ok {
        return Error(500, "failed to remove WireGuard peer");
      }
      ok := store.RemovePeer(key, o.execOk);
      if !ok {
        return Error(500, "failed to remove peer from store");
      }
      return Gone;
    }
  }

  /** A connect's whole effect, by the first of its calls that fails; `a` is the address on offer. */
  function ConnectEffect(
    hash: Bytes -> string, w: World, key: string, psk: Bytes, a: Option<string>, o: Outcomes): (World, Call) {
    if !o.queryOk || a.None? then (w, Refused(key, 500, "failed to allocate IP address"))
    else if !o.wgOk then (w, Refused(key, 500, "failed to configure WireGuard peer"))
    else
      var kernel := WithPeer(w.kernel, key, psk, Cidr(a.value));
      if o.execOk then (World(Insert(w.store, key, Row(a.value, hash(psk))), kernel), Connected(key, psk, a.value))
      else
        var left := if o.cleanupOk then kernel - {key} else kernel;
        (World(w.store, left), Refused(key, 500, "failed to store peer information"))
  }

  lemma ConnectUnfolds(hash: Bytes -> string, w: World, key: string, psk: Bytes, o: Outcomes)
    ensures Finish(hash, w, Negotiated(key, psk), o) == ConnectEffect(hash, w, key, psk, Allocate(w.store), o)
  {
    var c0 := Negotiated(key, psk);
    var (w1, c1) := Advance(hash, w, c0, o.queryOk);
    assert Finish(hash, w, c0, o) == Finish(hash, w1, c1, o);
    if c1.Holding? {
      var (w2, c2) := Advance(hash, w1, c1, o.wgOk);
      assert Finish(hash, w1, c1, o) == Finish(hash, w2, c2, o);
      if c2.Installed? {
        var (w3, c3) := Advance(hash, w2, c2, o.execOk);
        assert Finish(hash, w2, c2, o) == Finish(hash, w3, c3, o);
        if c3.CleaningUp? {
          var (w4, c4) := Advance(hash, w3, c3, o.cleanupOk);
          assert Finish(hash, w3, c3, o) == Finish(hash, w4, c4, o);
        }
      }
    }
  }

  function DisconnectEffect(w: World, key: string, o: Outcomes): (World, Call) {
    if !o.queryOk || key !in w.store then (w, Refused(key, 404, "peer not found"))
    else if !o.wgOk then (w, Refused(key, 500, "failed to remove WireGuard peer"))
    else if !o.execOk then (World(w.store, w.kernel - {key}), Refused(key, 500, "failed to remove peer from store"))
    else (World(w.store - {key}, w.kernel - {key}), Disconnected(key))
  }

  lemma DisconnectUnfolds(hash: Bytes -> string, w: World, key: string, o: Outcomes)
    ensures Finish(hash, w, Leaving(key), o) == DisconnectEffect(w, key, o)
  {
    var c0 := Leaving(key);
    var (w1, c1) := Advance(hash, w, c0, o.queryOk);
    assert Finish(hash, w, c0, o) == Finish(hash, w1, c1, o);
    if c1.Known? {
      var (w2, c2) := Advance(hash, w1, c1, o.wgOk);
      assert Finish(hash, w1, c1, o) == Finish(hash, w2, c2, o);
      if c2.Unplugged? {
        var (w3, c3) := Advance(hash, w2, c2, o.execOk);
        assert Finish(hash, w2, c2, o) == Finish(hash, w3, c3, o);
      }
    }
  }

  // ---------- which requests are refused, and how ----------

  /** What is refused before the tables leaves them alone: a 400 for a body, a field or a text that is
      not there or does not decode, a 500 for a key that fails its check or a salt not drawn. */
  lemma ConnectRefusesEarly(
    crypto: Crypto, hash: Bytes -> string, serverWGPubkey: string, serverEndpoint: string,
    w: World, hello: Option<ClientHello>, rnd: Randomness, o: Outcomes)
    ensures var (w', resp) := ServeConnect(crypto, hash, serverWGPubkey, serverEndpoint, w, hello, rnd, o);
            if hello.None? then w' == w && resp == Error(400, "invalid request body")
            else
              var ek, key := hello.value.ekB64, hello.value.wgPubkey;
              && (ek == "" ==> w' == w && resp == Error(400, "missing encapsulation key (ek_b64)"))
              && (ek != "" && key == "" ==> w' == w && resp == Error(400, "missing WireGuard public key (wg_pubkey)"))
              && (ek != "" && key != "" && crypto.fromB64(ek).None?
                  ==> w' == w && resp == Error(400, "invalid base64 encapsulation key"))
              && (ek != "" && key != "" && crypto.fromB64(ek).Some?
                  && (!crypto.isEk(crypto.fromB64(ek).value) || rnd.salt.None?)
                  ==> w' == w && resp == Error(500, "PSK negotiation failed"))
  {
  }

  /** Every other request is accepted exactly when an address is free and its calls succeed, with that
      address; the first that does not decides the 500. */
  lemma ConnectAnswers(
    crypto: Crypto, hash: Bytes -> string, serverWGPubkey: string, serverEndpoint: string,
    w: World, hello: ClientHello, rnd: Randomness, o: Outcomes)
    requires hello.ekB64 != "" && hello.wgPubkey != "" && rnd.salt.Some?
    requires crypto.fromB64(hello.ekB64).Some? && crypto.isEk(crypto.fromB64(hello.ekB64).value)
    ensures var (w', resp) := ServeConnect(crypto, hash, serverWGPubkey, serverEndpoint, w, Some(hello), rnd, o);
            if !o.queryOk || Allocate(w.store).None? then w' == w && resp == Error(500, "failed to allocate IP address")
            else if !o.wgOk then w' == w && resp == Error(500, "failed to configure WireGuard peer")
            else if !o.execOk then
              && w'.store == w.store && (o.cleanupOk ==> hello.wgPubkey !in w'.kernel)
              && resp == Error(500, "failed to store peer information")
            else
              && resp.Accepted? && resp.body.allowedIP == Allocate(w.store).value
              && resp.body.serverWGPubkey == serverWGPubkey && resp.body.serverEndpoint == serverEndpoint
  {
    var psk := Negotiate(crypto, crypto.fromB64(hello.ekB64).value, rnd).value.psk;
    ConnectUnfolds(hash, w, hello.wgPubkey, psk, o);
    hide Finish, Allocate, WithPeer, Insert;
  }

  /** What an accepted connect has done to the tables, and its reply. */
  lemma AcceptedMeans(
    crypto: Crypto, hash: Bytes -> string, serverWGPubkey: string, serverEndpoint: string,
    w: World, hello: ClientHello, rnd: Randomness, o: Outcomes)
    requires ServeConnect(crypto, hash, serverWGPubkey, serverEndpoint, w, Some(hello), rnd, o).1.Accepted?
    ensures crypto.fromB64(hello.ekB64).Some? && Allocate(w.store).Some?
    ensures Negotiate(crypto, crypto.fromB64(hello.ekB64).value, rnd).Some?
    ensures var r := Negotiate(crypto, crypto.fromB64(hello.ekB64).value, rnd).value;
            var key, ip := hello.wgPubkey, Allocate(w.store).value;
            ServeConnect(crypto, hash, serverWGPubkey, serverEndpoint, w, Some(hello), rnd, o)
            == (World(Insert(w.store, key, Row(ip, hash(r.psk))), WithPeer(w.kernel, key, r.psk, Cidr(ip))),
                Accepted(ServerResponse(
                  crypto.toB64(r.ciphertext), serverWGPubkey, serverEndpoint, crypto.toB64(r.salt), ip)))
  {
    var ek := crypto.fromB64(hello.ekB64);
    if ek.Some? && Negotiate(crypto, ek.value, rnd).Some? {
      ConnectUnfolds(hash, w, hello.wgPubkey, Negotiate(crypto, ek.value, rnd).value.psk, o);
    }
    hide Finish, Allocate, WithPeer, Insert, Negotiate;
  }

  /** A disconnect without a key is a 400, for a key without a row or after a failed query a 404, and
      any other failure a 500; a 404 or 400 leaves both tables alone. */
  lemma DisconnectAnswers(hash: Bytes -> string, w: World, wgPubkey: Option<string>, o: Outcomes)
    ensures var (w', resp) := ServeDisconnect(hash, w, wgPubkey, o);
            if wgPubkey.None? then w' == w && resp == Error(400, "invalid request body")
            else if wgPubkey.value == "" then w' == w && resp == Error(400, "missing WireGuard public key (wg_pubkey)")
            else if !o.queryOk || wgPubkey.value !in w.store then w' == w && resp == Error(404, "peer not found")
            else if !o.wgOk then w' == w && resp == Error(500, "failed to remove WireGuard peer")
            else
              && w'.kernel == w.kernel - {wgPubkey.value}
              && if !o.execOk
                 then w'.store == w.store && resp == Error(500, "failed to remove peer from store")
                 else w'.store == w.store - {wgPubkey.value} && resp == Gone
  {
    if wgPubkey.Some? {
      DisconnectUnfolds(hash, w, wgPubkey.value, o);
      hide Finish;
    }
  }
}
