/** Counting failures that fall inside a time interval. */
module FailureWindows {

  /** Fifteen minutes in microseconds, the length of every failure window and every block. */
  const WINDOW: int := 900_000_000

  ghost predicate Ordered(log: seq<int>) {
    forall i, j :: 0 <= i <= j < |log| ==> log[i] <= log[j]
  }

  /** Any entry is a whole window later than the one `n` places before it. */
  ghost predicate Spread(log: seq<int>, n: nat) {
    forall i, j :: 0 <= i && j == i + n && j < |log| ==> log[j] - log[i] >= WINDOW
  }

  /** One more entry keeps the order and the spread if it is late enough itself. */
  lemma AppendKeeps(log: seq<int>, n: nat, now: int)
    requires Ordered(log) && Spread(log, n) && n > 0
    requires |log| > 0 ==> log[|log| - 1] <= now
    requires |log| >= n ==> now - log[|log| - n] >= WINDOW
    ensures Ordered(log + [now]) && Spread(log + [now], n)
  {
  }

  function CountWithin(log: seq<int>, from: int, to: int): nat {
    if log == [] then 0
    else
      var last := |log| - 1;
      CountWithin(log[..last], from, to) + if from <= log[last] < to then 1 else 0
  }

  lemma {:induction false} EarlyEntriesDoNotCount(log: seq<int>, k: nat, from: int, to: int)
    requires k <= |log| && forall i :: 0 <= i < k ==> log[i] < from
    ensures CountWithin(log, from, to) <= |log| - k
  {
    if log != [] {
      var last := |log| - 1;
      EarlyEntriesDoNotCount(log[..last], if k <= last then k else last, from, to);
    }
  }

  /** No half-open interval one window long holds more than `n` entries of a spread-out log. */
  lemma {:induction false} SpreadBoundsCount(log: seq<int>, n: nat, from: int)
    requires Ordered(log) && Spread(log, n)
    ensures CountWithin(log, from, from + WINDOW) <= n
  {
    if log != [] {
      var last := |log| - 1;
      if from <= log[last] < from + WINDOW && |log| > n {
        assert log[last] - log[last - n] >= WINDOW;
        EarlyEntriesDoNotCount(log, |log| - n, from, from + WINDOW);
      } else if from <= log[last] < from + WINDOW {
        EarlyEntriesDoNotCount(log, 0, from, from + WINDOW);
      } else {
        SpreadBoundsCount(log[..last], n, from);
      }
    }
  }

  /** The entries from position `k` on are inside the interval, the others before it. */
  lemma {:induction false} CountsTheRest(log: seq<int>, k: nat, from: int)
    requires k <= |log| && forall i :: 0 <= i < k ==> log[i] < from
    requires forall i :: k <= i < |log| ==> from <= log[i] < from + WINDOW
    ensures CountWithin(log, from, from + WINDOW) == |log| - k
  {
    if log != [] {
      var last := |log| - 1;
      CountsTheRest(log[..last], if k <= last then k else last, from);
    }
  }
}
