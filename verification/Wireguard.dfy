/** The kernel's peer table, as `wg set` changes it. */
module Wireguard {
  import opened Wrappers

  /** A peer's preshared key, and the one allowed address it holds, if it still does. */
  datatype KernelPeer = KernelPeer(psk: Bytes, allowed: Option<string>)
  type Kernel = map<string, KernelPeer>

  /** Cryptokey routing: an allowed address belongs to at most one peer. */
  ghost predicate AllowedUnique(kernel: Kernel) {
    forall j, k :: j in kernel && k in kernel && kernel[j].allowed.Some? && kernel[j].allowed == kernel[k].allowed
                   ==> j == k
  }

  /** What `peer` is left with once `allowed` has been given to someone else. */
  function WithoutAddress(peer: KernelPeer, allowed: string): KernelPeer {
    if peer.allowed == Some(allowed) then peer.(allowed := None) else peer
  }

  /** `wg set IFACE peer KEY preshared-key PSK allowed-ips ALLOWED`. */
  function WithPeer(kernel: Kernel, key: string, psk: Bytes, allowed: string): Kernel {
    (map k | k in kernel :: WithoutAddress(kernel[k], allowed))[key := KernelPeer(psk, Some(allowed))]
  }

  class Manager {
    var peers: Kernel

    constructor ()
      ensures peers == map[]
    {
      peers := map[];
    }

    /** `runOk` is whether the command succeeds; a failed command changes nothing. */
    method SetPeer(key: string, psk: Bytes, allowed: string, runOk: bool) returns (ok: bool)
      modifies this
      ensures ok == runOk
      ensures peers == if runOk then WithPeer(old(peers), key, psk, allowed) else old(peers)
    {
      if runOk {
        peers := map k | k in peers :: WithoutAddress(peers[k], allowed);
        peers := peers[key := KernelPeer(psk, Some(allowed))];
      }
      return runOk;
    }

    /** Removing a peer the interface does not have succeeds and changes nothing. */
    method RemovePeer(key: string, runOk: bool) returns (ok: bool)
      modifies this
      ensures ok == runOk
      ensures peers == if runOk then old(peers) - {key} else old(peers)
    {
      if runOk {
        peers := peers - {key};
      }
      return runOk;
    }
  }

  /** Setting a peer gives it that PSK and that address, keeps every address with one peer, leaves every
      other PSK alone, and takes an address from another peer exactly when that peer held the address
      given. */
  lemma WithPeerEffect(kernel: Kernel, key: string, psk: Bytes, allowed: string)
    requires AllowedUnique(kernel)
    ensures AllowedUnique(WithPeer(kernel, key, psk, allowed))
    ensures WithPeer(kernel, key, psk, allowed)[key] == KernelPeer(psk, Some(allowed))
    ensures WithPeer(kernel, key, psk, allowed).Keys == kernel.Keys + {key}
    ensures forall k :: k in kernel && k != key ==>
              WithPeer(kernel, key, psk, allowed)[k].psk == kernel[k].psk
    ensures forall k :: k in kernel && k != key ==>
              (WithPeer(kernel, key, psk, allowed)[k] == kernel[k] <==> kernel[k].allowed != Some(allowed))
    ensures forall k :: k in kernel && k != key && kernel[k].allowed == Some(allowed) ==>
              WithPeer(kernel, key, psk, allowed)[k].allowed == None
  {
    var after := WithPeer(kernel, key, psk, allowed);
    forall j, k | j in after && k in after && after[j].allowed.Some? && after[j].allowed == after[k].allowed
      ensures j == k
    {
      assert j != key ==> after[j] == WithoutAddress(kernel[j], allowed);
      assert k != key ==> after[k] == WithoutAddress(kernel[k], allowed);
    }
  }
}
