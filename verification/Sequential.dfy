/** Requests served one after the other: what each keeps, and what a run of them keeps. */
module Sequential {
  import opened Wrappers
  import opened Ipv4
  import opened Peers
  import opened Wireguard
  import opened Psk
  import opened Handlers

  /** Kernel peer `k` has a row with the same address and the hash of its PSK. */
  ghost predicate Matches(hash: Bytes -> string, w: World, k: string)
    requires k in w.kernel
  {
    && k in w.store
    && w.kernel[k].allowed == Some(Cidr(w.store[k].address))
    && hash(w.kernel[k].psk) == w.store[k].pskHash
  }

  /** The kernel table is a part of the store table, with equal addresses and PSKs. */
  ghost predicate Consistent(hash: Bytes -> string, w: World) {
    AddressesUnique(w.store) && forall k :: k in w.kernel ==> Matches(hash, w, k)
  }

  /** Nothing about key `k` differs between the two worlds. */
  ghost predicate SameFor(k: string, w: World, w': World) {
    && (k in w.store <==> k in w'.store) && (k in w.store ==> w.store[k] == w'.store[k])
    && (k in w.kernel <==> k in w'.kernel) && (k in w.kernel ==> w.kernel[k] == w'.kernel[k])
  }

  /** Giving out an address no row holds takes it from no kernel peer and evicts no row. */
  lemma FreshAddressDisturbsNobody(hash: Bytes -> string, w: World, key: string, psk: Bytes, address: string)
    requires Consistent(hash, w) && address !in Addresses(w.store)
    ensures var kernel := WithPeer(w.kernel, key, psk, Cidr(address));
            kernel == w.kernel[key := KernelPeer(psk, Some(Cidr(address)))]
    ensures var row := Row(address, hash(psk));
            Insert(w.store, key, row) == w.store[key := row]
  {
    forall k | k in w.kernel && k != key ensures WithoutAddress(w.kernel[k], Cidr(address)) == w.kernel[k] {
      assert Matches(hash, w, k);
      assert w.store[k].address in Addresses(w.store);
      CidrInjective(w.store[k].address, address);
    }
    forall k | k in w.store ensures w.store[k].address != address {
      assert w.store[k].address in Addresses(w.store);
    }
  }

  /** The one way a lone connect can part the tables: its clean-up fails. */
  predicate CleanupFails(w: World, o: Outcomes) {
    o.queryOk && Allocate(w.store).Some? && o.wgOk && !o.execOk && !o.cleanupOk
  }

  lemma EffectKeepsConsistent(hash: Bytes -> string, w: World, key: string, psk: Bytes, a: Option<string>, o: Outcomes)
    requires Consistent(hash, w) && (a.Some? ==> a.value !in Addresses(w.store))
    ensures Consistent(hash, ConnectEffect(hash, w, key, psk, a, o).0)
            <==> !(o.queryOk && a.Some? && o.wgOk && !o.execOk && !o.cleanupOk)
    ensures forall k :: k != key ==> SameFor(k, w, ConnectEffect(hash, w, key, psk, a, o).0)
  {
    if o.queryOk && a.Some? && o.wgOk {
      FreshAddressDisturbsNobody(hash, w, key, psk, a.value);
      if o.execOk {
        AddingKeepsConsistent(hash, w, key, psk, a.value);
      } else if o.cleanupOk {
        RemovingKeepsConsistent(hash, w, key);
        assert w.kernel[key := KernelPeer(psk, Some(Cidr(a.value)))] - {key} == w.kernel - {key};
      } else {
        UnstoredPeerIsInconsistent(hash, w, key, psk, a.value);
      }
    }
  }

  lemma AddingKeepsConsistent(hash: Bytes -> string, w: World, key: string, psk: Bytes, address: string)
    requires Consistent(hash, w) && address !in Addresses(w.store)
    ensures var row, peer := Row(address, hash(psk)), KernelPeer(psk, Some(Cidr(address)));
            Consistent(hash, World(w.store[key := row], w.kernel[key := peer]))
  {
    var w' := World(w.store[key := Row(address, hash(psk))], w.kernel[key := KernelPeer(psk, Some(Cidr(address)))]);
    forall k | k in w'.kernel ensures Matches(hash, w', k) {
      assert k != key ==> Matches(hash, w, k);
    }
    forall k | k in w.store ensures w.store[k].address != address {
      assert w.store[k].address in Addresses(w.store);
    }
  }

  lemma UnstoredPeerIsInconsistent(hash: Bytes -> string, w: World, key: string, psk: Bytes, address: string)
    requires address !in Addresses(w.store)
    ensures !Consistent(hash, World(w.store, w.kernel[key := KernelPeer(psk, Some(Cidr(address)))]))
  {
    var w' := World(w.store, w.kernel[key := KernelPeer(psk, Some(Cidr(address)))]);
    assert key in w.store ==> w.store[key].address in Addresses(w.store);
    if key in w.store {
      CidrInjective(w.store[key].address, address);
    }
    assert !Matches(hash, w', key);
  }

  lemma RemovingKeepsConsistent(hash: Bytes -> string, w: World, key: string)
    requires Consistent(hash, w)
    ensures Consistent(hash, World(w.store, w.kernel - {key}))
    ensures Consistent(hash, World(w.store - {key}, w.kernel - {key}))
  {
    forall k | k in w.kernel && k != key
      ensures Matches(hash, World(w.store, w.kernel - {key}), k)
      ensures Matches(hash, World(w.store - {key}, w.kernel - {key}), k)
    {
      assert Matches(hash, w, k);
    }
  }

  /** A connect leaves the tables consistent exactly when it does not end in a failed clean-up,
      and it never touches another key. */
  lemma ConnectKeepsConsistent(hash: Bytes -> string, w: World, key: string, psk: Bytes, o: Outcomes)
    requires Consistent(hash, w)
    ensures Consistent(hash, Finish(hash, w, Negotiated(key, psk), o).0) <==> !CleanupFails(w, o)
    ensures forall k :: k != key ==> SameFor(k, w, Finish(hash, w, Negotiated(key, psk), o).0)
  {
    ConnectUnfolds(hash, w, key, psk, o);
    EffectKeepsConsistent(hash, w, key, psk, Allocate(w.store), o);
  }

  /** A client that sends its own generated key, as non-empty text, under a non-empty key of its own
      is accepted exactly when a salt is drawn, an address is free, and the query, `wg` and the
      insert succeed. */
  lemma OwnHelloAcceptedIff(
    crypto: Crypto, hash: Bytes -> string, serverWGPubkey: string, serverEndpoint: string,
    w: World, seed: Bytes, key: string, token: string, rnd: Randomness, o: Outcomes)
    requires Lawful(crypto) && crypto.toB64(crypto.keygen(seed).1) != "" && key != ""
    ensures var hello := ClientHello(crypto.toB64(crypto.keygen(seed).1), key, token);
            var resp := ServeConnect(crypto, hash, serverWGPubkey, serverEndpoint, w, Some(hello), rnd, o).1;
            resp.Accepted?
            <==> rnd.salt.Some? && o.queryOk && o.wgOk && o.execOk
                 && exists v :: Usable(v) && Dotted(v) !in Addresses(w.store)
  {
    var hello := ClientHello(crypto.toB64(crypto.keygen(seed).1), key, token);
    OwnKeyDecodes(crypto, seed, rnd);
    AllocateFailsOnlyWhenFull(w.store);
    hide ServeConnect, Allocate, Addresses, Dotted, Lawful;
    if rnd.salt.None? {
      ConnectRefusesEarly(crypto, hash, serverWGPubkey, serverEndpoint, w, Some(hello), rnd, o);
    } else {
      ConnectAnswers(crypto, hash, serverWGPubkey, serverEndpoint, w, hello, rnd, o);
    }
  }

  lemma OwnKeyDecodes(crypto: Crypto, seed: Bytes, rnd: Randomness)
    requires Lawful(crypto)
    ensures var ek := crypto.keygen(seed).1;
            crypto.fromB64(crypto.toB64(ek)) == Some(ek) && crypto.isEk(ek)
  {
    var r := crypto.encaps(crypto.keygen(seed).1, rnd.coins);
  }

  /** A client whose connect is accepted derives, from the ciphertext and the salt in the reply, the
      PSK that the kernel now has for its key, at the address in the reply, and whose hash is in its
      row beside that address; no row had the address before. */
  lemma AcceptedClientHoldsThePsk(
    crypto: Crypto, hash: Bytes -> string, serverWGPubkey: string, serverEndpoint: string,
    w: World, seed: Bytes, key: string, token: string, rnd: Randomness, o: Outcomes)
    requires Lawful(crypto)
    requires var hello := ClientHello(crypto.toB64(crypto.keygen(seed).1), key, token);
             ServeConnect(crypto, hash, serverWGPubkey, serverEndpoint, w, Some(hello), rnd, o).1.Accepted?
    ensures var hello := ClientHello(crypto.toB64(crypto.keygen(seed).1), key, token);
            var (w', resp) := ServeConnect(crypto, hash, serverWGPubkey, serverEndpoint, w, Some(hello), rnd, o);
            var b := resp.body;
            var derived := ClientDerive(crypto, crypto.keygen(seed).0, b.ctB64, b.hkdfSaltB64);
            && derived.Some? && b.allowedIP !in Addresses(w.store)
            && key in w'.kernel && w'.kernel[key] == KernelPeer(derived.value, Some(b.allowedIP + "/32"))
            && key in w'.store && w'.store[key] == Row(b.allowedIP, hash(derived.value))
            && b.serverWGPubkey == serverWGPubkey && b.serverEndpoint == serverEndpoint
  {
    var ek := crypto.keygen(seed).1;
    var hello := ClientHello(crypto.toB64(ek), key, token);
    OwnKeyDecodes(crypto, seed, rnd);
    BothEndsDeriveTheSame(crypto, seed, rnd);
    AcceptedMeans(crypto, hash, serverWGPubkey, serverEndpoint, w, hello, rnd, o);
    hide ServeConnect, Allocate, Negotiate, ClientDerive, Lawful, Addresses;
  }

  /** A disconnect keeps the tables consistent whatever fails, and never touches another key. */
  lemma DisconnectKeepsConsistent(hash: Bytes -> string, w: World, key: string, o: Outcomes)
    requires Consistent(hash, w)
    ensures Consistent(hash, Finish(hash, w, Leaving(key), o).0)
    ensures forall k :: k != key ==> SameFor(k, w, Finish(hash, w, Leaving(key), o).0)
  {
    DisconnectUnfolds(hash, w, key, o);
    RemovingKeepsConsistent(hash, w, key);
  }

  /** A disconnect succeeds exactly when its row exists and its three calls succeed; then the key
      is in neither table. One that removed only the kernel peer can be sent again, with the result
      a whole disconnect would have had. */
  lemma DisconnectCanBeRetried(hash: Bytes -> string, w: World, key: string, half: Outcomes, again: Outcomes)
    requires half.queryOk && half.wgOk && !half.execOk
    ensures var (w', c) := Finish(hash, w, Leaving(key), again);
            (c.Disconnected? <==> key in w.store && again.queryOk && again.wgOk && again.execOk)
            && (c.Disconnected? ==> key !in w'.store && key !in w'.kernel)
    ensures var (wHalf, _) := Finish(hash, w, Leaving(key), half);
            again.queryOk && again.wgOk && again.execOk
            ==> Finish(hash, wHalf, Leaving(key), again) == Finish(hash, w, Leaving(key), again)
  {
    var (wHalf, _) := Finish(hash, w, Leaving(key), half);
    DisconnectUnfolds(hash, w, key, half);
    DisconnectUnfolds(hash, w, key, again);
    DisconnectUnfolds(hash, wHalf, key, again);
    assert w.kernel - {key} - {key} == w.kernel - {key};
  }

  datatype Request = Connect(key: string, psk: Bytes, o: Outcomes) | Disconnect(key: string, o: Outcomes)

  function Serve(hash: Bytes -> string, w: World, r: Request): World {
    match r
    case Connect(key, psk, o) => Finish(hash, w, Negotiated(key, psk), o).0
    case Disconnect(key, o) => Finish(hash, w, Leaving(key), o).0
  }

  function ServeAll(hash: Bytes -> string, w: World, rs: seq<Request>): World {
    if rs == [] then w else Serve(hash, ServeAll(hash, w, rs[..|rs| - 1]), rs[|rs| - 1])
  }

  lemma ServeTwo(hash: Bytes -> string, w: World, r: Request, r': Request)
    ensures ServeAll(hash, w, [r]) == Serve(hash, w, r)
    ensures ServeAll(hash, w, [r, r']) == Serve(hash, Serve(hash, w, r), r')
  {
    hide Serve;
    assert [r][..0] == [] && [r, r'][..1] == [r];
  }

  lemma ThereAndBack(hash: Bytes -> string, w: World, key: string, psk: Bytes, o: Outcomes)
    requires Consistent(hash, w) && Allocate(w.store).Some? && o.queryOk && o.wgOk && o.execOk
    ensures var connected := Finish(hash, w, Negotiated(key, psk), o).0;
            && key in connected.store && key in connected.kernel
            && Finish(hash, connected, Leaving(key), o).0 == World(w.store - {key}, w.kernel - {key})
  {
    var ip := Allocate(w.store).value;
    ConnectUnfolds(hash, w, key, psk, o);
    FreshAddressDisturbsNobody(hash, w, key, psk, ip);
    var connected := World(w.store[key := Row(ip, hash(psk))], w.kernel[key := KernelPeer(psk, Some(Cidr(ip)))]);
    hide Finish, Allocate, WithPeer, Insert, Consistent, Addresses;
    assert Finish(hash, w, Negotiated(key, psk), o).0 == connected;
    DisconnectUnfolds(hash, connected, key, o);
    assert connected.store - {key} == w.store - {key} && connected.kernel - {key} == w.kernel - {key};
  }

  /** A connect followed by a disconnect for its key, every call succeeding: in between the key is in
      both tables, and afterwards they are as before but without the key. */
  lemma DisconnectUndoesConnect(hash: Bytes -> string, w: World, key: string, psk: Bytes, o: Outcomes)
    requires Consistent(hash, w) && |w.store| < CAPACITY && o.queryOk && o.wgOk && o.execOk
    ensures var connected := ServeAll(hash, w, [Connect(key, psk, o)]);
            && key in connected.store && key in connected.kernel
            && ServeAll(hash, w, [Connect(key, psk, o), Disconnect(key, o)])
               == World(w.store - {key}, w.kernel - {key})
  {
    hide Finish, Allocate, ServeAll, Consistent;
    AllocateFailsOnlyWhenFull(w.store);
    ThereAndBack(hash, w, key, psk, o);
    ServeTwo(hash, w, Connect(key, psk, o), Disconnect(key, o));
  }

  /** No connect of the run ends in a failed clean-up. */
  predicate NoCleanupFailure(hash: Bytes -> string, w: World, rs: seq<Request>) {
    rs == []
    || var before, last := rs[..|rs| - 1], rs[|rs| - 1];
       NoCleanupFailure(hash, w, before) && !(last.Connect? && CleanupFails(ServeAll(hash, w, before), last.o))
  }

  /** The tables are consistent at the start and after every request of the run. */
  ghost predicate AlwaysConsistent(hash: Bytes -> string, w: World, rs: seq<Request>) {
    Consistent(hash, ServeAll(hash, w, rs)) && (rs == [] || AlwaysConsistent(hash, w, rs[..|rs| - 1]))
  }

  /** Over a whole run with any failures, the tables are consistent all the way exactly when
      no clean-up failed. */
  lemma {:induction false} RunKeepsConsistent(hash: Bytes -> string, w: World, rs: seq<Request>)
    requires Consistent(hash, w)
    ensures AlwaysConsistent(hash, w, rs) <==> NoCleanupFailure(hash, w, rs)
  {
    if rs != [] {
      var before := rs[..|rs| - 1];
      RunKeepsConsistent(hash, w, before);
      var w' := ServeAll(hash, w, before);
      if Consistent(hash, w') {
        match rs[|rs| - 1] {
          case Connect(key, psk, o) => ConnectKeepsConsistent(hash, w', key, psk, o);
          case Disconnect(key, o) => DisconnectKeepsConsistent(hash, w', key, o);
        }
      }
    }
  }

  /** Connects by the keys in turn, every call succeeding, from empty tables. */
  function ConnectAll(hash: Bytes -> string, peers: seq<(string, Bytes)>): World {
    if peers == [] then World(map[], map[])
    else
      var (key, psk) := peers[|peers| - 1];
      Finish(hash, ConnectAll(hash, peers[..|peers| - 1]), Negotiated(key, psk), Outcomes(true, true, true, true)).0
  }

  ghost predicate DistinctKeys(peers: seq<(string, Bytes)>) {
    forall i, j :: 0 <= i < j < |peers| ==> peers[i].0 != peers[j].0
  }

  ghost function KeysOf(peers: seq<(string, Bytes)>): set<string> {
    set i | 0 <= i < |peers| :: peers[i].0
  }

  /** The first n usable addresses, in order. */
  ghost function Texts(n: nat): seq<string>
    requires n <= CAPACITY
  {
    seq(n, k requires 0 <= k < n => NthText(k))
  }

  /** Both tables hold exactly the given peers, each with its own PSK and the address beside it. */
  ghost predicate Registered(hash: Bytes -> string, peers: seq<(string, Bytes)>, texts: seq<string>, w: World)
    requires |peers| == |texts|
  {
    && w.store.Keys == w.kernel.Keys == KeysOf(peers)
    && (forall k :: 0 <= k < |peers| ==> w.store[peers[k].0] == Row(texts[k], hash(peers[k].1)))
    && (forall k :: 0 <= k < |peers| ==> w.kernel[peers[k].0] == KernelPeer(peers[k].1, Some(Cidr(texts[k]))))
  }

  lemma RegisteredSnoc(
    hash: Bytes -> string, peers: seq<(string, Bytes)>, texts: seq<string>, w: World, key: string, psk: Bytes,
    text: string)
    requires |peers| == |texts| && DistinctKeys(peers + [(key, psk)])
    requires Registered(hash, peers, texts, w)
    ensures key !in w.store
    ensures Registered(hash, peers + [(key, psk)], texts + [text],
              World(w.store[key := Row(text, hash(psk))], w.kernel[key := KernelPeer(psk, Some(Cidr(text)))]))
  {
    var all := peers + [(key, psk)];
    var n := |peers|;
    assert all[n].0 == key;
    forall k | 0 <= k < n ensures peers[k].0 != key && peers[k].0 in KeysOf(peers) {
      assert all[k] == peers[k] && all[k].0 != all[n].0;
    }
    forall s | s in KeysOf(peers) + {key} ensures s in KeysOf(all) {
      assert s == key || exists k :: 0 <= k < n && all[k].0 == peers[k].0 == s;
    }
  }

  ghost predicate InOrder(hash: Bytes -> string, peers: seq<(string, Bytes)>, w: World)
    requires |peers| <= CAPACITY
  {
    && Registered(hash, peers, Texts(|peers|), w)
    && Addresses(w.store) == FirstTexts(|peers|)
    && Consistent(hash, w)
  }

  lemma NobodyInOrder(hash: Bytes -> string)
    ensures InOrder(hash, [], World(map[], map[]))
  {
  }

  /** The k-th of up to 65,023 successive connects by distinct keys gets the k-th usable address,
      10.8.((k+1)/254).(1+(k+1)%254), in the store and in the kernel alike. */
  lemma {:induction false} KthPeerGetsKthAddress(hash: Bytes -> string, peers: seq<(string, Bytes)>)
    requires |peers| <= CAPACITY && DistinctKeys(peers)
    ensures InOrder(hash, peers, ConnectAll(hash, peers))
  {
    hide InOrder, Finish;
    if peers == [] {
      NobodyInOrder(hash);
    } else {
      var n := |peers| - 1;
      KthPeerGetsKthAddress(hash, peers[..n]);
      AnotherPeer(hash, peers[..n], ConnectAll(hash, peers[..n]), peers[n].0, peers[n].1);
      assert peers[..n] + [(peers[n].0, peers[n].1)] == peers;
    }
  }

  lemma AnotherPeer(hash: Bytes -> string, peers: seq<(string, Bytes)>, w: World, key: string, psk: Bytes)
    requires |peers| < CAPACITY && DistinctKeys(peers + [(key, psk)])
    requires InOrder(hash, peers, w)
    ensures var o := Outcomes(true, true, true, true);
            InOrder(hash, peers + [(key, psk)], Finish(hash, w, Negotiated(key, psk), o).0)
  {
    hide NthText, Finish, Consistent, Registered;
    var n := |peers|;
    NextConnect(hash, w, n, key, psk);
    assert Texts(n) + [NthText(n)] == Texts(n + 1);
    RegisteredSnoc(hash, peers, Texts(n), w, key, psk, NthText(n));
    AddressesOfUpdate(w.store, key, Row(NthText(n), hash(psk)));
    FirstTextsSnoc(n);
  }

  lemma NextConnect(hash: Bytes -> string, w: World, n: nat, key: string, psk: Bytes)
    requires n < CAPACITY && Consistent(hash, w) && Addresses(w.store) == FirstTexts(n)
    ensures var w' := Finish(hash, w, Negotiated(key, psk), Outcomes(true, true, true, true)).0;
            && w' == World(
                       w.store[key := Row(NthText(n), hash(psk))],
                       w.kernel[key := KernelPeer(psk, Some(Cidr(NthText(n))))])
            && Consistent(hash, w')
  {
    var a := NthText(n);
    assert Allocate(w.store) == Some(a) by {
      LeastFreeIsNth(n);
    }
    ConnectUnfolds(hash, w, key, psk, Outcomes(true, true, true, true));
    FreshAddressDisturbsNobody(hash, w, key, psk, a);
    AddingKeepsConsistent(hash, w, key, psk, a);
  }

  lemma FirstTextsSnoc(n: nat)
    requires n < CAPACITY
    ensures FirstTexts(n + 1) == FirstTexts(n) + {NthText(n)}
  {
  }

  lemma AddressesOfUpdate(t: Table, key: string, row: Row)
    requires key !in t
    ensures Addresses(t[key := row]) == Addresses(t) + {row.address}
  {
    var t' := t[key := row];
    assert t'[key].address in Addresses(t');
    forall s | s in Addresses(t) ensures s in Addresses(t') {
      var k :| k in t && t[k].address == s;
      assert t'[k].address == s;
    }
  }
}
