/** The per-address limiter cache and the token bucket behind it. */
module RateLimit {
  const BURST := 100
  const SECONDS_PER_TOKEN := 36.0

  /** The tokens in the bucket at time `now`, if it held `tokens` at time `last`. */
  function Level(tokens: real, last: real, now: real): real {
    var elapsed := if now < last then 0.0 else now - last;
    var filled := tokens + elapsed / SECONDS_PER_TOKEN;
    if filled > BURST as real then BURST as real else filled
  }

  /** A bucket: starts full, gains a token every 36 s up to 100, and gives one to each request
      it admits. */
  class Limiter {
    var tokens: real
    var last: real

    constructor (now: real)
      ensures tokens == BURST as real && last == now
    {
      tokens := BURST as real;
      last := now;
    }

    method Allow(now: real) returns (ok: bool)
      modifies this
      ensures (ok, Bucket(tokens, last)) == Request(old(Bucket(tokens, last)), now)
    {
      var level := Level(tokens, last, now);
      if level < 1.0 {
        return false;
      }
      tokens := level - 1.0;
      last := now;
      return true;
    }
  }

  datatype Bucket = Bucket(tokens: real, last: real)

  function Request(b: Bucket, now: real): (bool, Bucket) {
    var level := Level(b.tokens, b.last, now);
    if level < 1.0 then (false, b) else (true, Bucket(level - 1.0, now))
  }

  /** The bucket after requests at the given times. */
  function After(b: Bucket, times: seq<real>): Bucket {
    if times == [] then b else Request(After(b, times[..|times| - 1]), times[|times| - 1]).1
  }

  /** How many of the requests are admitted. */
  function Admitted(b: Bucket, times: seq<real>): nat {
    if times == [] then 0
    else
      var before := times[..|times| - 1];
      Admitted(b, before) + if Request(After(b, before), times[|times| - 1]).0 then 1 else 0
  }

  ghost predicate Ordered(start: real, times: seq<real>) {
    && (forall i :: 0 <= i < |times| ==> start <= times[i])
    && forall i, j :: 0 <= i <= j < |times| ==> times[i] <= times[j]
  }

  ghost predicate Fill(b: Bucket, start: real) {
    0.0 <= b.tokens <= BURST as real && b.last <= start
  }

  /** Requests admitted so far are paid for by what the bucket held and what it gained since. */
  lemma {:induction false} AdmittedIsPaidFor(b: Bucket, start: real, times: seq<real>, now: real)
    requires Fill(b, start) && Ordered(start, times) && start <= now && (times != [] ==> times[|times| - 1] <= now)
    ensures var e := After(b, times);
            && 0.0 <= e.tokens <= BURST as real && e.last <= now
            && Admitted(b, times) as real + Level(e.tokens, e.last, now)
               <= Level(b.tokens, b.last, start) + (now - start) / SECONDS_PER_TOKEN
  {
    if times != [] {
      var n := |times| - 1;
      AdmittedIsPaidFor(b, start, times[..n], times[n]);
    }
  }

  lemma AfterLast(b: Bucket, times: seq<real>)
    requires times != []
    ensures var n := |times| - 1;
            && After(b, times) == Request(After(b, times[..n]), times[n]).1
            && Admitted(b, times)
               == Admitted(b, times[..n]) + if Request(After(b, times[..n]), times[n]).0 then 1 else 0
  {
  }

  lemma {:induction false} AfterJoins(b: Bucket, earlier: seq<real>, times: seq<real>)
    ensures After(b, earlier + times) == After(After(b, earlier), times)
    ensures Admitted(b, earlier + times) == Admitted(b, earlier) + Admitted(After(b, earlier), times)
  {
    if times == [] {
      assert earlier + times == earlier;
    } else {
      var n := |times| - 1;
      var all, last := earlier + times, times[n];
      assert all[..|all| - 1] == earlier + times[..n] && all[|all| - 1] == last;
      AfterJoins(b, earlier, times[..n]);
      AfterLast(b, all);
      AfterLast(After(b, earlier), times);
      hide After, Admitted, Request;
    }
  }

  /** A request that comes, by its clock, before the last one admitted finds the tokens left then, no
      more and no fewer. */
  lemma EarlierClockGainsNothing(b: Bucket, now: real)
    requires 0.0 <= b.tokens <= BURST as real && now <= b.last
    ensures Level(b.tokens, b.last, now) == b.tokens
    ensures Request(b, now) == if b.tokens >= 1.0 then (true, Bucket(b.tokens - 1.0, now)) else (false, b)
  {
  }

  /** Of any requests for one key, those in any window of T seconds see at most 100 + T/36 admitted. */
  lemma {:induction false} WindowBound(t0: real, earlier: seq<real>, window: seq<real>, from: real, to: real)
    requires Ordered(t0, earlier) && Ordered(from, window) && t0 <= from <= to
    requires forall i :: 0 <= i < |earlier| ==> earlier[i] <= from
    requires forall i :: 0 <= i < |window| ==> window[i] <= to
    ensures var full := Bucket(BURST as real, t0);
            Admitted(full, earlier + window) as real <= Admitted(full, earlier) as real + 100.0 + (to - from) / 36.0
  {
    var full := Bucket(BURST as real, t0);
    AdmittedIsPaidFor(full, t0, earlier, from);
    AdmittedIsPaidFor(After(full, earlier), from, window, to);
    AfterJoins(full, earlier, window);
  }

  /** n requests at time t, then k more at t + 36, t + 72, ... */
  function Burst(t: real, n: nat, k: nat): seq<real> {
    seq(n, _ => t) + seq(k, (i: nat) => t + 36.0 * (i + 1) as real)
  }

  lemma {:induction false} BurstIsAdmitted(t: real, n: nat, k: nat)
    requires n <= 100 && (k > 0 ==> n == 100)
    ensures var full := Bucket(BURST as real, t);
            && Admitted(full, Burst(t, n, k)) == n + k
            && After(full, Burst(t, n, k)) == Bucket(100.0 - n as real, t + 36.0 * k as real)
    decreases n + k
  {
    var times := Burst(t, n, k);
    if k > 0 {
      BurstIsAdmitted(t, n, k - 1);
      assert times[..|times| - 1] == Burst(t, n, k - 1);
      assert times[|times| - 1] == t + 36.0 * k as real;
    } else if n > 0 {
      BurstIsAdmitted(t, n - 1, 0);
      assert times[..|times| - 1] == Burst(t, n - 1, 0);
    }
  }

  /** The bound is met: one hour can see 200 requests admitted, twice the "100 requests per hour". */
  lemma TwoHundredInAnHour(t: real)
    ensures var times := Burst(t, 100, 100);
            && Ordered(t, times) && (forall i :: 0 <= i < |times| ==> times[i] <= t + 3600.0)
            && Admitted(Bucket(BURST as real, t), times) == 200
  {
    BurstIsAdmitted(t, 100, 100);
  }

  // ---------- exactly how many ----------

  ghost predicate InWindow(from: real, to: real, times: seq<real>) {
    Ordered(from, times) && forall i :: 0 <= i < |times| ==> times[i] <= to
  }

  /** The earliest time, from `from` on, by which `level` and what is gained since make i tokens. */
  function GreedyTime(level: real, from: real, i: nat): real {
    if i as real <= level then from else from + 36.0 * (i as real - level)
  }

  function GreedyTimes(level: real, from: real, n: nat): seq<real> {
    seq(n, (j: nat) => GreedyTime(level, from, j + 1))
  }

  /** What the bucket holds when the n-th token is there, if it was left so at the one before. */
  lemma GreedyLevel(level: real, from: real, n: nat)
    requires 0.0 <= level <= BURST as real && n > 0
    ensures var t', t := GreedyTime(level, from, n), GreedyTime(level, from, n + 1);
            && t' <= t
            && Level(level - n as real + (t' - from) / 36.0, t', t) == level - n as real + (t - from) / 36.0 >= 1.0
  {
  }

  lemma FirstLevel(b: Bucket, from: real)
    requires Fill(b, from)
    ensures var level := Level(b.tokens, b.last, from);
            var t := GreedyTime(level, from, 1);
            0.0 <= level <= BURST as real && Level(b.tokens, b.last, t) == level + (t - from) / 36.0 >= 1.0
  {
  }

  /** Requests that each come as soon as a token is there are all admitted. */
  lemma {:induction false} GreedyIsAdmitted(b: Bucket, from: real, n: nat)
    requires Fill(b, from)
    ensures var level := Level(b.tokens, b.last, from);
            var times := GreedyTimes(level, from, n);
            && Admitted(b, times) == n
            && (n > 0 ==> var t := GreedyTime(level, from, n);
                          After(b, times) == Bucket(level - n as real + (t - from) / 36.0, t))
  {
    var level := Level(b.tokens, b.last, from);
    var times := GreedyTimes(level, from, n);
    FirstLevel(b, from);
    if n > 0 {
      GreedyIsAdmitted(b, from, n - 1);
      assert times[..n - 1] == GreedyTimes(level, from, n - 1);
      assert times[n - 1] == GreedyTime(level, from, n);
      hide GreedyTimes, GreedyTime, Level, Fill;
      if n > 1 {
        GreedyLevel(level, from, n - 1);
      }
    }
  }

  /** A window that gains enough is long enough for them. */
  lemma GreedyFits(level: real, from: real, to: real, n: nat)
    requires from <= to && n as real <= level + (to - from) / 36.0
    ensures InWindow(from, to, GreedyTimes(level, from, n))
  {
    assert 36.0 * ((to - from) / 36.0) == to - from;
  }

  /** From a bucket that holds `level` tokens when a window of T seconds begins, the window admits at
      most n requests, whenever they come, exactly when level + T/36 is less than n + 1. */
  lemma MostInWindow(b: Bucket, from: real, to: real, n: nat)
    requires Fill(b, from) && from <= to
    ensures (forall times :: InWindow(from, to, times) ==> Admitted(b, times) <= n)
            <==> Level(b.tokens, b.last, from) + (to - from) / 36.0 < n as real + 1.0
  {
    hide Admitted, After, GreedyTimes, Fill, Ordered;
    var level := Level(b.tokens, b.last, from);
    if level + (to - from) / 36.0 < n as real + 1.0 {
      forall times | InWindow(from, to, times) ensures Admitted(b, times) <= n {
        AdmittedIsPaidFor(b, from, times, to);
      }
    } else {
      GreedyFits(level, from, to, n + 1);
      GreedyIsAdmitted(b, from, n + 1);
    }
  }

  /** An hour admits at most 100 requests exactly when it begins with less than one token. */
  lemma HourAdmitsHundredIff(b: Bucket, from: real)
    requires Fill(b, from)
    ensures (forall times :: InWindow(from, from + 3600.0, times) ==> Admitted(b, times) <= 100)
            <==> Level(b.tokens, b.last, from) < 1.0
  {
    MostInWindow(b, from, from + 3600.0, 100);
  }

  // ---------- many keys ----------

  /** A request: the key it is counted under, and its time. */
  datatype Arrival = Arrival(key: string, at: real)

  /** The bucket of a key, full if the key is new. */
  function BucketOf(buckets: map<string, Bucket>, r: Arrival): Bucket {
    if r.key in buckets then buckets[r.key] else Bucket(BURST as real, r.at)
  }

  /** All the buckets after a list of requests by any keys. */
  function ServeAll(rs: seq<Arrival>): map<string, Bucket> {
    if rs == [] then map[]
    else
      var buckets, r := ServeAll(rs[..|rs| - 1]), rs[|rs| - 1];
      buckets[r.key := Request(BucketOf(buckets, r), r.at).1]
  }

  /** How many of the key's requests are admitted. */
  function AdmittedOf(rs: seq<Arrival>, key: string): nat {
    if rs == [] then 0
    else
      var before, r := rs[..|rs| - 1], rs[|rs| - 1];
      AdmittedOf(before, key) + if r.key == key && Request(BucketOf(ServeAll(before), r), r.at).0 then 1 else 0
  }

  /** When the key's requests came. */
  function TimesOf(rs: seq<Arrival>, key: string): seq<real> {
    if rs == [] then []
    else
      var before, r := TimesOf(rs[..|rs| - 1], key), rs[|rs| - 1];
      if r.key == key then before + [r.at] else before
  }

  /** However the requests of different keys are mixed, those of one key are decided by that key's
      requests alone, from a bucket that was full at its first. */
  lemma {:induction false} KeysAreIndependent(rs: seq<Arrival>, key: string)
    ensures var times := TimesOf(rs, key);
            if times == [] then key !in ServeAll(rs) && AdmittedOf(rs, key) == 0
            else
              var full := Bucket(BURST as real, times[0]);
              && key in ServeAll(rs) && ServeAll(rs)[key] == After(full, times)
              && AdmittedOf(rs, key) == Admitted(full, times)
  {
    if rs != [] {
      var before, r := rs[..|rs| - 1], rs[|rs| - 1];
      KeysAreIndependent(before, key);
      if r.key == key {
        var earlier := TimesOf(before, key);
        assert TimesOf(rs, key)[..|earlier|] == earlier;
        if earlier == [] {
          assert After(Bucket(BURST as real, r.at), []) == Bucket(BURST as real, r.at);
        }
      }
    }
  }

  /** The cache, one request at a time. */
  class IPRateLimiter {
    var ips: map<string, Limiter>

    /** No two keys share a limiter. */
    ghost predicate Valid()
      reads this
    {
      forall j, k :: j in ips && k in ips && ips[j] == ips[k] ==> j == k
    }

    /** Every key's bucket. */
    ghost function Buckets(): map<string, Bucket>
      reads this, ips.Values
    {
      map k | k in ips :: Bucket(ips[k].tokens, ips[k].last)
    }

    constructor ()
      ensures Valid() && Buckets() == map[]
    {
      ips := map[];
    }

    /** A known key gets its own limiter, a new one a fresh, full one; no entry is ever replaced. */
    method GetLimiter(ip: string, now: real) returns (limiter: Limiter)
      requires Valid()
      modifies this
      ensures Valid() && ip in ips && limiter == ips[ip]
      ensures ip in old(ips) ==> ips == old(ips)
      ensures ip !in old(ips) ==> fresh(limiter) && ips == old(ips)[ip := limiter]
                                  && Bucket(limiter.tokens, limiter.last) == Bucket(BURST as real, now)
    {
      if ip in ips {
        return ips[ip];
      }
      limiter := new Limiter(now);
      ips := ips[ip := limiter];
    }

    /** The middleware: passes a request on exactly when its key's own bucket admits it, and leaves
        every other key's bucket alone. */
    method Admit(ip: string, now: real) returns (ok: bool)
      requires Valid()
      modifies this, ips.Values
      ensures Valid()
      ensures ok == Request(BucketOf(old(Buckets()), Arrival(ip, now)), now).0
      ensures Buckets() == old(Buckets())[ip := Request(BucketOf(old(Buckets()), Arrival(ip, now)), now).1]
    {
      var limiter := GetLimiter(ip, now);
      ok := limiter.Allow(now);
    }
  }
}
