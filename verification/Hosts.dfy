/** The limiter's key is the whole remote address: what that leaves of a limit for a host. */
module Hosts {
  import opened Wrappers
  import opened Text
  import opened RateLimit

  /** `r.RemoteAddr`: host and port. */
  function RemoteAddr(host: string, port: nat): string {
    host + ":" + Decimal(port)
  }

  /** What stands before and after the last colon. */
  lemma LastColon(h: string, d: string, h': string, d': string)
    requires Free(d, ':') && Free(d', ':') && h + ":" + d == h' + ":" + d'
    ensures h == h' && d == d'
  {
    var s := h + ":" + d;
    if |h| < |h'| {
      assert s[|h'|] == d[|h'| - |h| - 1] && d[|h'| - |h| - 1] in d;
    } else if |h'| < |h| {
      assert s[|h|] == d'[|h| - |h'| - 1] && d'[|h| - |h'| - 1] in d';
    }
    assert s[..|h|] == h && s[..|h|] == h' && s[|h| + 1..] == d && s[|h| + 1..] == d';
  }

  lemma RemoteAddrInjective(h: string, p: nat, h': string, p': nat)
    ensures RemoteAddr(h, p) == RemoteAddr(h', p') <==> h == h' && p == p'
  {
    hide Decimal;
    if RemoteAddr(h, p) == RemoteAddr(h', p') {
      LastColon(h, Decimal(p), h', Decimal(p'));
      DecimalValue(p);
      DecimalValue(p');
    }
  }

  /** A request by a host from one of its ports. */
  datatype Visit = Visit(host: string, port: nat, at: real)

  function Keyed(v: Visit): Arrival {
    Arrival(RemoteAddr(v.host, v.port), v.at)
  }

  function Arrivals(vs: seq<Visit>): seq<Arrival> {
    seq(|vs|, i requires 0 <= i < |vs| => Keyed(vs[i]))
  }

  predicate Admits(before: seq<Visit>, v: Visit) {
    Request(BucketOf(ServeAll(Arrivals(before)), Keyed(v)), v.at).0
  }

  /** How many requests of the host are admitted, over all its ports. */
  function HostAdmitted(vs: seq<Visit>, host: string): nat {
    if vs == [] then 0
    else
      var before, v := vs[..|vs| - 1], vs[|vs| - 1];
      HostAdmitted(before, host) + if v.host == host && Admits(before, v) then 1 else 0
  }

  /** The same, over the given ports only. */
  function PortsAdmitted(vs: seq<Visit>, host: string, ports: set<nat>): nat {
    if vs == [] then 0
    else
      var before, v := vs[..|vs| - 1], vs[|vs| - 1];
      PortsAdmitted(before, host, ports) + if v.host == host && v.port in ports && Admits(before, v) then 1 else 0
  }

  function PortsOf(vs: seq<Visit>, host: string): set<nat> {
    set v | v in vs && v.host == host :: v.port
  }

  lemma ArrivalsSnoc(vs: seq<Visit>)
    requires vs != []
    ensures var n := |vs| - 1;
            Arrivals(vs)[..n] == Arrivals(vs[..n]) && |Arrivals(vs)| == n + 1 && Arrivals(vs)[n] == Keyed(vs[n])
  {
  }

  lemma OnePortMore(vs: seq<Visit>, host: string, p: nat)
    requires vs != []
    ensures var n, key := |vs| - 1, RemoteAddr(host, p);
            AdmittedOf(Arrivals(vs), key)
            == AdmittedOf(Arrivals(vs[..n]), key)
               + if vs[n].host == host && vs[n].port == p && Admits(vs[..n], vs[n]) then 1 else 0
  {
    hide ServeAll, BucketOf, Request, Arrivals, RemoteAddr;
    var n := |vs| - 1;
    ArrivalsSnoc(vs);
    RemoteAddrInjective(vs[n].host, vs[n].port, host, p);
  }

  /** One more port adds what its own key is admitted. */
  lemma {:induction false} AddPort(vs: seq<Visit>, host: string, ports: set<nat>, p: nat)
    requires p !in ports
    ensures PortsAdmitted(vs, host, ports + {p})
            == PortsAdmitted(vs, host, ports) + AdmittedOf(Arrivals(vs), RemoteAddr(host, p))
  {
    if vs != [] {
      var n := |vs| - 1;
      AddPort(vs[..n], host, ports, p);
      OnePortMore(vs, host, p);
      hide AdmittedOf, Admits, Arrivals, RemoteAddr;
    }
  }

  /** Requests in order of time, none before `lo` and none after `hi`. */
  ghost predicate Timed(rs: seq<Arrival>, lo: real, hi: real) {
    && (forall i :: 0 <= i < |rs| ==> lo <= rs[i].at <= hi)
    && forall i, j :: 0 <= i <= j < |rs| ==> rs[i].at <= rs[j].at
  }

  lemma {:induction false} TimesAreTimed(rs: seq<Arrival>, key: string, lo: real, hi: real)
    requires Timed(rs, lo, hi)
    ensures InWindow(lo, hi, TimesOf(rs, key))
    ensures rs != [] ==> InWindow(lo, rs[|rs| - 1].at, TimesOf(rs, key))
  {
    if rs != [] {
      var n := |rs| - 1;
      var last := rs[n].at;
      assert Timed(rs[..n], lo, last);
      TimesAreTimed(rs[..n], key, lo, last);
      var before := TimesOf(rs[..n], key);
      assert TimesOf(rs, key) == if rs[n].key == key then before + [last] else before;
      hide TimesOf, Timed;
    }
  }

  lemma {:induction false} TimesOfJoin(earlier: seq<Arrival>, window: seq<Arrival>, key: string)
    ensures TimesOf(earlier + window, key) == TimesOf(earlier, key) + TimesOf(window, key)
  {
    if window == [] {
      assert earlier + window == earlier;
    } else {
      var n, all := |window| - 1, earlier + window;
      TimesOfJoin(earlier, window[..n], key);
      assert all[..|all| - 1] == earlier + window[..n] && all[|all| - 1] == window[n];
    }
  }

  /** How many requests at these times a key is admitted, from a bucket full at the first. */
  function FromFull(times: seq<real>): nat {
    if times == [] then 0 else Admitted(Bucket(BURST as real, times[0]), times)
  }

  lemma KeyAdmitted(rs: seq<Arrival>, key: string)
    ensures AdmittedOf(rs, key) == FromFull(TimesOf(rs, key))
  {
    hide ServeAll;
    KeysAreIndependent(rs, key);
  }

  lemma FromFullBound(before: seq<real>, within: seq<real>, start: real, from: real, to: real)
    requires InWindow(start, from, before) && InWindow(from, to, within) && start <= from <= to
    ensures FromFull(before + within) as real <= FromFull(before) as real + 100.0 + (to - from) / 36.0
  {
    if within == [] {
      assert before + within == before;
    } else if before == [] {
      assert before + within == within;
      AdmittedIsPaidFor(Bucket(BURST as real, within[0]), within[0], within, to);
    } else {
      assert (before + within)[0] == before[0];
      WindowBound(before[0], before, within, from, to);
    }
  }

  /** One key's share of a window, whatever other keys do. */
  lemma KeyWindowBound(earlier: seq<Arrival>, window: seq<Arrival>, key: string, start: real, from: real, to: real)
    requires Timed(earlier, start, from) && Timed(window, from, to) && start <= from <= to
    ensures AdmittedOf(earlier + window, key) as real <= AdmittedOf(earlier, key) as real + 100.0 + (to - from) / 36.0
  {
    hide *;
    KeyAdmitted(earlier, key);
    KeyAdmitted(earlier + window, key);
    TimesOfJoin(earlier, window, key);
    TimesAreTimed(earlier, key, start, from);
    TimesAreTimed(window, key, from, to);
    FromFullBound(TimesOf(earlier, key), TimesOf(window, key), start, from, to);
  }

  lemma ArrivalsJoin(earlier: seq<Visit>, window: seq<Visit>)
    ensures Arrivals(earlier + window) == Arrivals(earlier) + Arrivals(window)
  {
  }

  /** What one port can get in a window of T seconds: 100 + T/36, rounded down. */
  function Share(from: real, to: real): nat
    requires from <= to
  {
    (100.0 + (to - from) / 36.0).Floor
  }

  lemma {:induction false} PortsWindowBound(
    earlier: seq<Visit>, window: seq<Visit>, host: string, ports: set<nat>, start: real, from: real, to: real)
    requires Timed(Arrivals(earlier), start, from) && Timed(Arrivals(window), from, to) && start <= from <= to
    ensures PortsAdmitted(earlier + window, host, ports)
            <= PortsAdmitted(earlier, host, ports) + |ports| * Share(from, to)
    decreases |ports|
  {
    hide Arrivals, Timed, PortsAdmitted, AdmittedOf, RemoteAddr;
    if ports == {} {
      NoPorts(earlier + window, host);
      NoPorts(earlier, host);
    } else {
      var p :| p in ports;
      var rest := ports - {p};
      assert ports == rest + {p};
      PortsWindowBound(earlier, window, host, rest, start, from, to);
      AddPort(earlier + window, host, rest, p);
      AddPort(earlier, host, rest, p);
      ArrivalsJoin(earlier, window);
      assert |ports| == |rest| + 1;
      KeyWindowBound(Arrivals(earlier), Arrivals(window), RemoteAddr(host, p), start, from, to);
      OneMoreShare(|rest|, Share(from, to));
    }
  }

  lemma OneMoreShare(n: nat, share: nat)
    ensures (n + 1) * share == n * share + share
  {
  }

  lemma {:induction false} NoPorts(vs: seq<Visit>, host: string)
    ensures PortsAdmitted(vs, host, {}) == 0
  {
    if vs != [] {
      NoPorts(vs[..|vs| - 1], host);
    }
  }

  /** A window adds to the host's count what it adds to the count of the ports used in it. */
  lemma {:induction false} HostIsItsPorts(earlier: seq<Visit>, window: seq<Visit>, host: string, ports: set<nat>)
    requires PortsOf(window, host) <= ports
    ensures HostAdmitted(earlier + window, host) - HostAdmitted(earlier, host)
            == PortsAdmitted(earlier + window, host, ports) - PortsAdmitted(earlier, host, ports)
  {
    if window == [] {
      assert earlier + window == earlier;
    } else {
      var n := |window| - 1;
      forall p | p in PortsOf(window[..n], host) ensures p in ports {
        var v :| v in window[..n] && v.host == host && v.port == p;
        assert v in window;
      }
      HostIsItsPorts(earlier, window[..n], host, ports);
      assert (earlier + window)[..|earlier| + n] == earlier + window[..n];
      assert window[n] in window && (window[n].host == host ==> window[n].port in PortsOf(window, host));
    }
  }

  /** In any window of T seconds, whatever came before, a host is admitted at most 100 + T/36 requests,
      rounded down, for each of the ports it uses there. */
  lemma HostWindowBound(earlier: seq<Visit>, window: seq<Visit>, host: string, start: real, from: real, to: real)
    requires Timed(Arrivals(earlier), start, from) && Timed(Arrivals(window), from, to) && start <= from <= to
    ensures HostAdmitted(earlier + window, host)
            <= HostAdmitted(earlier, host) + |PortsOf(window, host)| * Share(from, to)
  {
    hide *;
    var ports := PortsOf(window, host);
    PortsWindowBound(earlier, window, host, ports, start, from, to);
    HostIsItsPorts(earlier, window, host, ports);
  }

  // ---------- that many get in ----------

  function PortsBelow(m: nat): (ports: set<nat>)
    ensures |ports| == m && forall p: nat :: p in ports <==> p < m
  {
    if m == 0 then {} else PortsBelow(m - 1) + {m - 1}
  }

  /** One request at time t from each of the ports 0 to m - 1. */
  function Round(host: string, t: real, m: nat): seq<Visit> {
    seq(m, (p: nat) => Visit(host, p, t))
  }

  function Rounds(host: string, times: seq<real>, m: nat): seq<Visit> {
    if times == [] then [] else Rounds(host, times[..|times| - 1], m) + Round(host, times[|times| - 1], m)
  }

  lemma {:induction false} RoundTimes(host: string, t: real, m: nat, p: nat)
    ensures TimesOf(Arrivals(Round(host, t, m)), RemoteAddr(host, p)) == if p < m then [t] else []
  {
    if m > 0 {
      RoundTimes(host, t, m - 1, p);
      var vs := Round(host, t, m);
      assert vs[..m - 1] == Round(host, t, m - 1);
      ArrivalsSnoc(vs);
      RemoteAddrInjective(host, p, host, m - 1);
    }
  }

  /** Each port's requests come at the given times. */
  lemma {:induction false} RoundsTimes(host: string, times: seq<real>, m: nat, p: nat)
    requires p < m
    ensures TimesOf(Arrivals(Rounds(host, times, m)), RemoteAddr(host, p)) == times
  {
    if times != [] {
      var n := |times| - 1;
      assert Rounds(host, times, m) == Rounds(host, times[..n], m) + Round(host, times[n], m);
      hide Arrivals, TimesOf, Round, RemoteAddr, Rounds;
      RoundsTimes(host, times[..n], m, p);
      RoundTimes(host, times[n], m, p);
      ArrivalsJoin(Rounds(host, times[..n], m), Round(host, times[n], m));
      TimesOfJoin(Arrivals(Rounds(host, times[..n], m)), Arrivals(Round(host, times[n], m)), RemoteAddr(host, p));
    }
  }

  lemma TimedJoin(a: seq<Arrival>, b: seq<Arrival>, lo: real, mid: real, hi: real)
    requires Timed(a, lo, mid) && Timed(b, mid, hi) && lo <= mid <= hi
    ensures Timed(a + b, lo, hi)
  {
  }

  lemma {:induction false} RoundsAreTimed(host: string, times: seq<real>, m: nat, from: real, to: real)
    requires InWindow(from, to, times)
    ensures Timed(Arrivals(Rounds(host, times, m)), from, to)
    ensures PortsOf(Rounds(host, times, m), host) <= PortsBelow(m)
  {
    if times != [] {
      var n := |times| - 1;
      assert InWindow(from, times[n], times[..n]);
      RoundsAreTimed(host, times[..n], m, from, times[n]);
      var before, round := Rounds(host, times[..n], m), Round(host, times[n], m);
      assert Timed(Arrivals(round), times[n], to);
      assert PortsOf(before + round, host) == PortsOf(before, host) + PortsOf(round, host);
      hide Arrivals, Timed, Round;
      ArrivalsJoin(before, round);
      TimedJoin(Arrivals(before), Arrivals(round), from, times[n], to);
    }
  }

  /** The m ports together are admitted what each is. */
  lemma {:induction false} PortsAddUp(vs: seq<Visit>, host: string, m: nat, share: nat)
    requires forall p: nat :: p < m ==> AdmittedOf(Arrivals(vs), RemoteAddr(host, p)) == share
    ensures PortsAdmitted(vs, host, PortsBelow(m)) == m * share
  {
    hide PortsAdmitted, AdmittedOf, RemoteAddr, Arrivals;
    if m == 0 {
      assert PortsBelow(0) == {};
      NoPorts(vs, host);
    } else {
      PortsAddUp(vs, host, m - 1, share);
      assert PortsBelow(m) == PortsBelow(m - 1) + {m - 1};
      AddPort(vs, host, PortsBelow(m - 1), m - 1);
      OneMoreShare(m - 1, share);
    }
  }

  /** What a port with a full bucket gets in by asking as soon as it has a token again. */
  lemma GreedyShare(from: real, to: real)
    requires from <= to
    ensures var times := GreedyTimes(100.0, from, Share(from, to));
            InWindow(from, to, times) && FromFull(times) == Share(from, to)
  {
    var share := Share(from, to);
    GreedyFits(100.0, from, to, share);
    GreedyIsAdmitted(Bucket(BURST as real, from), from, share);
    assert GreedyTimes(100.0, from, share)[0] == from;
  }

  /** Every port doing so, the host gets m shares in. */
  lemma GreedyHost(host: string, from: real, to: real, m: nat) returns (vs: seq<Visit>)
    requires from <= to
    ensures Timed(Arrivals(vs), from, to) && PortsOf(vs, host) <= PortsBelow(m)
    ensures HostAdmitted(vs, host) == m * Share(from, to)
  {
    hide Arrivals, Timed, HostAdmitted, PortsAdmitted, AdmittedOf, RemoteAddr, Rounds, GreedyTimes, FromFull, Share;
    var share, times := Share(from, to), GreedyTimes(100.0, from, Share(from, to));
    GreedyShare(from, to);
    vs := Rounds(host, times, m);
    RoundsAreTimed(host, times, m, from, to);
    forall p: nat | p < m ensures AdmittedOf(Arrivals(vs), RemoteAddr(host, p)) == share {
      KeyAdmitted(Arrivals(vs), RemoteAddr(host, p));
      RoundsTimes(host, times, m, p);
    }
    PortsAddUp(vs, host, m, share);
    HostGetsItsPorts(vs, host, PortsBelow(m));
  }

  lemma HostGetsItsPorts(vs: seq<Visit>, host: string, ports: set<nat>)
    requires PortsOf(vs, host) <= ports
    ensures HostAdmitted(vs, host) == PortsAdmitted(vs, host, ports)
  {
    HostIsItsPorts([], vs, host, ports);
    assert [] + vs == vs;
  }

  /** Any visits before, and then visits in a window in which the host uses at most m ports. */
  ghost predicate HostWindow(
    start: real, earlier: seq<Visit>, window: seq<Visit>, host: string, m: nat, from: real, to: real) {
    && Timed(Arrivals(earlier), start, from) && Timed(Arrivals(window), from, to) && start <= from
    && |PortsOf(window, host)| <= m
  }

  /** So a window of T seconds admits a host that uses at most m ports at most n requests, whatever
      anyone asks before and in it, if and only if m times 100 + T/36, rounded down, is at most n. */
  lemma HostMostInWindow(host: string, from: real, to: real, m: nat, n: nat)
    requires from <= to
    ensures (forall start, earlier, window :: HostWindow(start, earlier, window, host, m, from, to)
               ==> HostAdmitted(earlier + window, host) <= HostAdmitted(earlier, host) + n)
            <==> m * Share(from, to) <= n
  {
    hide HostAdmitted, Share;
    if m * Share(from, to) <= n {
      forall start, earlier, window | HostWindow(start, earlier, window, host, m, from, to)
        ensures HostAdmitted(earlier + window, host) <= HostAdmitted(earlier, host) + n
      {
        HostWindowBound(earlier, window, host, start, from, to);
        FewerPorts(|PortsOf(window, host)|, m, Share(from, to));
      }
    } else {
      var vs := GreedyWindow(host, from, to, m);
      assert HostAdmitted([] + vs, host) > HostAdmitted([], host) + n;
    }
  }

  lemma FewerPorts(k: nat, m: nat, share: nat)
    requires k <= m
    ensures k * share <= m * share
  {
  }

  lemma GreedyWindow(host: string, from: real, to: real, m: nat) returns (vs: seq<Visit>)
    requires from <= to
    ensures HostWindow(from, [], vs, host, m, from, to)
    ensures HostAdmitted([] + vs, host) == HostAdmitted([], host) + m * Share(from, to)
  {
    vs := GreedyHost(host, from, to, m);
    assert [] + vs == vs;
    SubsetSize(PortsOf(vs, host), PortsBelow(m));
  }

  /** In particular the limit is one for a port, not for a host: m ports get 100 * m requests in at
      one instant. */
  lemma PortsMultiplyTheLimit(host: string, t: real, m: nat) returns (vs: seq<Visit>)
    ensures HostAdmitted(vs, host) == 100 * m && PortsOf(vs, host) <= PortsBelow(m)
    ensures forall v :: v in vs ==> v.at == t
  {
    hide HostAdmitted;
    vs := GreedyHost(host, t, t, m);
    forall v | v in vs ensures v.at == t {
      var i :| 0 <= i < |vs| && vs[i] == v;
      assert Arrivals(vs)[i].at == v.at;
    }
  }
}
