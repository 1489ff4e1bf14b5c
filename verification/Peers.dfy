/** The SQLite peer table and its address allocator. */
module Peers {
  import opened Wrappers
  import opened Ipv4

  /** One row's columns beside its primary key wg_pubkey. */
  datatype Row = Row(address: string, pskHash: string)
  datatype Peer = Peer(pubkey: string, row: Row)

  /** The rows, by primary key. */
  type Table = map<string, Row>

  /** The UNIQUE constraint on allowed_ip. */
  ghost predicate AddressesUnique(t: Table) {
    forall j, k :: j in t && k in t && t[j].address == t[k].address ==> j == k
  }

  /** Every row's address is one the allocator can hand out: never .0, .255 or 10.8.0.1. */
  ghost predicate AddressesUsable(t: Table) {
    forall k :: k in t ==> UsableText(t[k].address)
  }

  ghost predicate UsableText(s: string) {
    exists v: nat :: Usable(v) && Dotted(v) == s
  }

  function Addresses(t: Table): set<string> {
    set k | k in t :: t[k].address
  }

  /** The address SELECT-and-scan chooses on table `t`. */
  function Allocate(t: Table): (r: Option<string>)
    ensures r.Some? ==> UsableText(r.value) && r.value !in Addresses(t)
    ensures r.None? ==> forall v :: Usable(v) ==> Dotted(v) in Addresses(t)
  {
    match LeastFree(Addresses(t), 2)
    case None => None
    case Some(v) => Some(Dotted(v))
  }

  /** INSERT OR REPLACE: every row in conflict on the key or on the address goes first. */
  function Insert(t: Table, key: string, row: Row): Table {
    (map k | k in t && k != key && t[k].address != row.address :: t[k])[key := row]
  }

  class SQLiteStore {
    var rows: Table

    constructor ()
      ensures rows == map[]
    {
      rows := map[];
    }

    /** `execOk` is whether the statement succeeds; a failed statement changes nothing. */
    method AddPeer(p: Peer, execOk: bool) returns (ok: bool)
      modifies this
      ensures ok == execOk
      ensures rows == if execOk then Insert(old(rows), p.pubkey, p.row) else old(rows)
    {
      if !execOk {
        return false;
      }
      var kept := map k | k in rows && k != p.pubkey && rows[k].address != p.row.address :: rows[k];
      rows := kept[p.pubkey := p.row];
      return true;
    }

    /** Deleting no row is an error too. */
    method RemovePeer(pubkey: string, execOk: bool) returns (ok: bool)
      modifies this
      ensures ok <==> execOk && pubkey in old(rows)
      ensures rows == if execOk then old(rows) - {pubkey} else old(rows)
    {
      if !execOk {
        return false;
      }
      var affected := if pubkey in rows then 1 else 0;
      rows := rows - {pubkey};
      if affected == 0 {
        return false;
      }
      return true;
    }

    method GetPeer(pubkey: string, queryOk: bool) returns (r: Option<Peer>)
      ensures r.Some? <==> queryOk && pubkey in rows
      ensures r.Some? ==> r.value == Peer(pubkey, rows[pubkey])
    {
      if queryOk && pubkey in rows {
        return Some(Peer(pubkey, rows[pubkey]));
      }
      return None;
    }

    /** Scans the address column into a lookup table, then tries 65,533 offsets from 10.8.0.2.
        The answer is the numerically least usable address that no row holds. */
    method AllocateIP(queryOk: bool) returns (r: Option<string>)
      ensures !queryOk ==> r == None
      ensures queryOk ==> r == Allocate(rows)
    {
      if !queryOk {
        return None;
      }
      var taken := {};
      var pending := rows.Keys;
      while pending != {}
        invariant pending <= rows.Keys
        invariant taken == (set k | k in rows && k !in pending :: rows[k].address)
        decreases |pending|
      {
        var k :| k in pending;
        taken := taken + {rows[k].address};
        pending := pending - {k};
      }
      assert taken == Addresses(rows);

      var baseIP := new byte[16];
      forall i | 0 <= i < 16 {
        baseIP[i] := BASE[i];
      }
      assert baseIP[..] == BASE && HostPart(baseIP[..]) == 2;
      var i := 0;
      while i < 65533
        invariant 0 <= i <= 65533
        invariant baseIP[..14] == BASE[..14] && HostPart(baseIP[..]) == 2
        invariant TakenBelow(taken, NextHost(2 + i))
      {
        var candidate := IncrementIP(baseIP, i);
        CandidateText(candidate[..], i);
        var candidateStr := IPString(candidate[..]);
        if candidateStr !in taken {
          LeastFreeIs(taken, NextHost(2 + i));
          return Some(candidateStr);
        }
        TakenStep(taken, i);
        i := i + 1;
      }
      TakenBelowAll(taken);
      return None;
    }
  }

  lemma CandidateText(ip: Bytes, i: nat)
    requires |ip| == 16 && ip[..14] == BASE[..14] && i < 65533
    requires HostPart(ip) == NextHost(2 + i) % 65536
    ensures ip[..12] == BASE[..12]
    ensures Usable(NextHost(2 + i)) && IPString(ip) == Dotted(NextHost(2 + i))
  {
    assert Usable(NextHost(2 + i)) by {
      CandidatesAreUsable(i, 0);
    }
    var v: nat := NextHost(2 + i);
    assert HostPart(ip) == v;
    HostText(ip);
  }

  ghost predicate TakenBelow(taken: set<string>, n: int) {
    forall v :: 2 <= v < n && Usable(v) ==> Dotted(v) in taken
  }

  lemma TakenStep(taken: set<string>, i: nat)
    requires i < 65533 && TakenBelow(taken, NextHost(2 + i))
    requires Usable(NextHost(2 + i)) && Dotted(NextHost(2 + i)) in taken
    ensures TakenBelow(taken, NextHost(3 + i))
  {
    forall v | 2 <= v < NextHost(3 + i) && Usable(v) ensures Dotted(v) in taken {
      assert v <= NextHost(2 + i);
    }
  }

  lemma TakenBelowAll(taken: set<string>)
    requires TakenBelow(taken, NextHost(65535))
    ensures LeastFree(taken, 2).None?
  {
    assert forall v :: Usable(v) ==> v < NextHost(65535);
  }

  lemma LeastFreeIs(taken: set<string>, v: nat)
    requires Usable(v) && Dotted(v) !in taken
    requires TakenBelow(taken, v)
    ensures LeastFree(taken, 2) == Some(v)
  {
    var r := LeastFree(taken, 2);
    assert r.Some? && r.value >= v && r.value <= v;
  }

  /** The allocated address is the numerically least usable one that no row holds. */
  lemma AllocateIsLeast(t: Table, v: nat)
    requires Usable(v)
    ensures Allocate(t) == Some(Dotted(v)) <==> Dotted(v) !in Addresses(t) && TakenBelow(Addresses(t), v)
  {
    if Allocate(t) == Some(Dotted(v)) {
      DottedInjective(LeastFree(Addresses(t), 2).value, v);
    } else if Dotted(v) !in Addresses(t) && TakenBelow(Addresses(t), v) {
      LeastFreeIs(Addresses(t), v);
    }
  }

  /** Read as text, without the functions that print it: the allocated address is 10.8.h.l for the
      least usable 256 * h + l that no row's address reads as, and there is none when there is no such. */
  lemma AllocatedAddressReads(t: Table, v: nat)
    requires Usable(v)
    ensures Allocate(t).Some? && Reads(Allocate(t).value, v)
            <==> (forall k :: k in t ==> !Reads(t[k].address, v))
                 && forall u :: 2 <= u < v && Usable(u) ==> exists k :: k in t && Reads(t[k].address, u)
  {
    AllocateIsLeast(t, v);
    forall u: nat, s | Usable(u) ensures Reads(s, u) <==> s == Dotted(u) {
      ReadsIff(s, u);
    }
    hide Reads, Dotted, LeastFree, UsableText;
    forall u | 2 <= u && Usable(u)
      ensures Dotted(u) in Addresses(t) <==> exists k :: k in t && Reads(t[k].address, u)
    {
      if Dotted(u) in Addresses(t) {
        var k :| k in t && t[k].address == Dotted(u);
        assert Reads(t[k].address, u);
      }
    }
  }

  /** The allocated address lies in 10.8.0.0/24 exactly while one of 10.8.0.2 to 10.8.0.254 has no
      row, and so in particular while there are fewer than 253 rows. */
  lemma AllocatesInFirst24IffFree(t: Table)
    ensures (exists v :: 2 <= v <= 254 && Allocate(t) == Some(Dotted(v)))
            <==> (exists v :: 2 <= v <= 254 && Dotted(v) !in Addresses(t))
    ensures |t| < 253 ==> exists v :: 2 <= v <= 254 && Allocate(t) == Some(Dotted(v))
  {
    hide LeastFree, Dotted, Addresses, UsableText;
    var taken := Addresses(t);
    var r := LeastFree(taken, 2);
    if v :| 2 <= v <= 254 && Dotted(v) !in taken {
      assert r.Some? && r.value <= v;
      assert Allocate(t) == Some(Dotted(r.value));
    } else {
      First24IsLarge(taken);
      AddressesBound(t);
    }
    if v :| 2 <= v <= 254 && Allocate(t) == Some(Dotted(v)) {
      assert Dotted(v) !in taken;
    }
  }

  lemma First24IsLarge(taken: set<string>)
    requires forall v :: 2 <= v <= 254 ==> Dotted(v) in taken
    ensures |taken| >= 253
  {
    hide Dotted;
    var n := 253;
    forall s | s in FirstTexts(n) ensures s in taken {
      var k: nat :| k < n && s == NthText(k);
      assert Nth(k) == k + 2;
    }
    hide FirstTexts;
    FirstTextsSize(n);
    SubsetSize(FirstTexts(n), taken);
  }

  lemma {:induction false} AddressesBound(t: Table)
    ensures |Addresses(t)| <= |t|
  {
    if t.Keys == {} {
      assert Addresses(t) == {};
    } else {
      var k :| k in t.Keys;
      var rest := t - {k};
      AddressesBound(rest);
      assert |rest| == |t| - 1 by {
        assert rest.Keys == t.Keys - {k};
      }
      forall s | s in Addresses(t) ensures s in Addresses(rest) + {t[k].address} {
        var j :| j in t && t[j].address == s;
        assert j != k ==> j in rest;
      }
      SubsetSize(Addresses(t), Addresses(rest) + {t[k].address});
    }
  }

  /** Allocation fails exactly when all 65,023 addresses are taken, so never on a smaller table. */
  lemma AllocateFailsOnlyWhenFull(t: Table)
    ensures Allocate(t).None? <==> forall v :: Usable(v) ==> Dotted(v) in Addresses(t)
    ensures |t| < CAPACITY ==> Allocate(t).Some?
  {
    if Allocate(t).None? {
      FullSetIsLarge(Addresses(t));
      AddressesBound(t);
    }
  }

  /** The rows an insertion evicts because they hold its address under another key. */
  ghost function Evicted(t: Table, key: string, row: Row): set<string> {
    set k | k in t && k != key && t[k].address == row.address
  }

  lemma EvictedSize(t: Table, key: string, row: Row)
    requires AddressesUnique(t)
    ensures |Evicted(t, key, row)| <= 1
  {
    var e := Evicted(t, key, row);
    if e != {} {
      var k :| k in e;
      assert e == {k};
    }
  }

  lemma InsertSize(t: Table, key: string, row: Row)
    ensures |Insert(t, key, row)| == |t| + 1 - |Evicted(t, key, row)| - (if key in t then 1 else 0)
  {
    var e, n := Evicted(t, key, row), Insert(t, key, row);
    assert n.Keys == t.Keys - e - {key} + {key} && e <= t.Keys && key !in e;
    assert |n| == |n.Keys| && |t| == |t.Keys|;
    hide Evicted, Insert;
    KeysLeft(t.Keys, e, key);
  }

  lemma KeysLeft(keys: set<string>, gone: set<string>, key: string)
    requires gone <= keys && key !in gone
    ensures |keys - gone - {key} + {key}| == |keys| + 1 - |gone| - (if key in keys then 1 else 0)
  {
    var kept := keys - gone - {key};
    assert keys == (keys - gone) + gone;
    if key in keys {
      assert keys - gone == kept + {key};
    } else {
      assert keys - gone == kept;
    }
  }

  /** INSERT OR REPLACE puts the row there, keeps every other row but one at its address, and so keeps
      both constraints, evicts at most one other row, and so changes
      the row count by -1, 0 or +1. */
  lemma InsertKeepsTable(t: Table, key: string, row: Row)
    requires AddressesUnique(t)
    ensures AddressesUnique(Insert(t, key, row))
    ensures AddressesUsable(t) && UsableText(row.address) ==> AddressesUsable(Insert(t, key, row))
    ensures |Insert(t, key, row)| == |t| + 1 - |Evicted(t, key, row)| - (if key in t then 1 else 0)
    ensures -1 <= |Insert(t, key, row)| - |t| <= 1
    ensures key in Insert(t, key, row) && Insert(t, key, row)[key] == row
    ensures forall k :: k != key ==> (k in Insert(t, key, row) <==> k in t && t[k].address != row.address)
    ensures forall k :: k != key && k in Insert(t, key, row) ==> Insert(t, key, row)[k] == t[k]
  {
    EvictedSize(t, key, row);
    InsertSize(t, key, row);
  }
}
