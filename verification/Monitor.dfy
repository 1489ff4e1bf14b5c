/** The tunnel monitor: three failed polls in a row end it with one "failed" event. */
module Monitor {
  import opened Wrappers

  /** Poll n ends three polls in a row that found the tunnel down. */
  predicate Triple(up: nat -> bool, n: nat) {
    n >= 2 && !up(n - 2) && !up(n - 1) && !up(n)
  }

  /** The last `k` polls before poll n found the tunnel down, and the one before them did not. */
  predicate DownFor(up: nat -> bool, n: nat, k: nat) {
    k <= n && (forall i :: n - k <= i < n ==> !up(i)) && (k < n ==> up(n - k - 1))
  }

  /** The first `n` polls of the endless loop: the poll that emitted "failed", if one did; the
      loop ends there. The answer holds for every length, so for every infinite sequence of polls. */
  method Start(up: nat -> bool, n: nat) returns (emitted: Option<nat>)
    ensures emitted.Some? ==> emitted.value < n && Triple(up, emitted.value)
    ensures emitted.Some? ==> forall m: nat :: m < emitted.value ==> !Triple(up, m)
    ensures emitted.None? ==> forall m: nat :: m < n ==> !Triple(up, m)
  {
    var consecutiveFails := 0;
    var poll := 0;
    while poll < n
      invariant poll <= n
      invariant consecutiveFails <= 2 && DownFor(up, poll, consecutiveFails)
      invariant forall m: nat :: m < poll ==> !Triple(up, m)
    {
      var isUp := up(poll);
      if !isUp {
        consecutiveFails := consecutiveFails + 1;
        if consecutiveFails >= 3 {
          return Some(poll);
        }
      } else {
        consecutiveFails := 0;
      }
      poll := poll + 1;
    }
    return None;
  }

  /** When poll n is made: 15 s after the start, then every 30 s. */
  function PollTime(n: nat): real {
    15.0 + 30.0 * (n + 1) as real
  }

  /** The first poll at time `t` or later. */
  function FirstPoll(t: real): nat
    requires t >= 15.0
  {
    var ticks := ((t - 15.0) / 30.0).Floor;
    if PollTimeAt(ticks) >= t && ticks >= 1 then ticks - 1 else ticks
  }

  function PollTimeAt(ticks: int): real {
    15.0 + 30.0 * ticks as real
  }

  lemma FirstPollIsSoon(t: real)
    requires t >= 15.0
    ensures t <= PollTime(FirstPoll(t)) <= t + 30.0
  {
    var x := (t - 15.0) / 30.0;
    assert x.Floor as real <= x < x.Floor as real + 1.0;
    assert 30.0 * x == t - 15.0;
  }

  /** Nothing can end the monitor in its first 105 s, however many polls fail. */
  lemma NeverInTheFirst105Seconds(up: nat -> bool, n: nat)
    requires Triple(up, n)
    ensures PollTime(n) >= 105.0
  {
  }

  /** With polls exactly on time, any stretch of 90 s or more that begins no earlier than the
      initial delay ends and finds the tunnel down throughout contains a triple. */
  lemma NinetySecondsDownTriggers(upAt: real -> bool, up: nat -> bool, from: real, to: real)
    requires forall n: nat :: up(n) == upAt(PollTime(n))
    requires 15.0 <= from && from + 90.0 <= to
    requires forall t: real :: from <= t <= to ==> !upAt(t)
    ensures exists n: nat :: Triple(up, n) && PollTime(n) <= to
  {
    FirstPollIsSoon(from);
    var n := FirstPoll(from);
    assert PollTime(n + 1) == PollTime(n) + 30.0 && PollTime(n + 2) == PollTime(n) + 60.0;
    assert !up(n) && !up(n + 1) && !up(n + 2);
    assert Triple(up, n + 2);
  }

  /** A tunnel down for less than 60 s can pass unseen: no three polls fall into such a stretch. */
  lemma ShortOutageNeverTriggers(upAt: real -> bool, up: nat -> bool, from: real, to: real)
    requires forall n: nat :: up(n) == upAt(PollTime(n))
    requires to < from + 60.0
    requires forall t: real :: !(from <= t <= to) ==> upAt(t)
    ensures forall n: nat :: !Triple(up, n)
  {
    forall n: nat | n >= 2 ensures !Triple(up, n) {
      assert PollTime(n) == PollTime(n - 2) + 60.0;
      assert up(n) || up(n - 2);
    }
  }
}
