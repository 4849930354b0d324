/** The fixed-window limiter of one sender, and what it lets through over a whole run. */
module RateLimiter {
  import opened MachineIntegers

  const WINDOW_MS := 1000
  const MAX_PER_WINDOW := 100

  type Millis = U64

  /** When the current window opened and how many messages passed in it. */
  datatype Window = Window(start: Millis, count: nat)

  /** The entry the map makes for a sender it has not seen. */
  const FRESH := Window(0, 0)

  /** Unsigned subtraction: a reading before `start` looks like a very long time after it. */
  function Elapsed(now: Millis, start: Millis): (ms: Millis)
    ensures start <= now ==> ms == now - start
    ensures now < start ==> ms == U64_RANGE + now - start
  {
    (now - start) % U64_RANGE
  }

  predicate Passes(w: Window, now: Millis) {
    Elapsed(now, w.start) >= WINDOW_MS || w.count < MAX_PER_WINDOW
  }

  function Check(w: Window, now: Millis): Window {
    if Elapsed(now, w.start) >= WINDOW_MS then Window(now, 1)
    else if w.count >= MAX_PER_WINDOW then w
    else w.(count := w.count + 1)
  }

  /** How many of the readings in `[from, to)` pass. */
  function Admitted(w: Window, times: seq<Millis>, from: int, to: int): nat
    decreases |times|
  {
    if times == [] then 0 else
      (if Passes(w, times[0]) && from <= times[0] < to then 1 else 0)
      + Admitted(Check(w, times[0]), times[1..], from, to)
  }

  /** The readings do not go back, nor before `least`. */
  ghost predicate Ordered(least: int, times: seq<Millis>) {
    && (forall i | 0 <= i < |times| :: least <= times[i])
    && (forall i, j | 0 <= i < j < |times| :: times[i] <= times[j])
  }

  /** Windows that fit, at least partly, into `ms` milliseconds. */
  function Windows(ms: int): nat {
    if ms <= 0 then 0 else (ms + WINDOW_MS - 1) / WINDOW_MS
  }

  function Max(a: int, b: int): int {
    if a < b then b else a
  }

  lemma WindowsMonotone(a: int, b: int)
    requires a <= b
    ensures Windows(a) <= Windows(b)
  {
  }

  lemma WindowsUnfold(ms: int)
    requires 0 < ms
    ensures Windows(ms) == 1 + Windows(ms - WINDOW_MS)
  {
  }

  lemma OrderedTail(least: int, times: seq<Millis>)
    requires Ordered(least, times) && times != []
    ensures Ordered(times[0], times[1..])
  {
  }

  lemma {:induction false} NothingLater(w: Window, times: seq<Millis>, from: int, to: int)
    requires Ordered(to, times)
    ensures Admitted(w, times, from, to) == 0
    decreases |times|
  {
    if times != [] {
      NothingLater(Check(w, times[0]), times[1..], from, to);
    }
  }

  /**
   From a running window on: what is left of it, plus a full window for every further one that
   can still open before `to`.
   */
  lemma {:induction false} AdmittedFromNow(w: Window, times: seq<Millis>, from: int, to: int)
    requires Ordered(w.start, times) && Ordered(from, times) && w.count <= MAX_PER_WINDOW
    ensures Admitted(w, times, from, to)
            <= MAX_PER_WINDOW - w.count + MAX_PER_WINDOW * Windows(to - Max(from, w.start + WINDOW_MS))
    decreases |times|
  {
    if times != [] {
      var t := times[0];
      OrderedTail(from, times);
      if to <= t {
        NothingLater(w, times, from, to);
      } else {
        AdmittedFromNow(Check(w, t), times[1..], from, to);
        if w.start + WINDOW_MS <= t {
          WindowsUnfold(to - t);
          WindowsMonotone(to - t, to - Max(from, w.start + WINDOW_MS));
        }
      }
    }
  }

  /** The bound over any half-open interval, from any state: only one window can straddle its start. */
  lemma {:induction false} AdmittedInInterval(w: Window, times: seq<Millis>, from: int, to: int)
    requires Ordered(w.start, times) && w.count <= MAX_PER_WINDOW
    ensures Admitted(w, times, from, to) <= MAX_PER_WINDOW * (1 + Windows(to - from))
    decreases |times|
  {
    if times != [] {
      OrderedTail(w.start, times);
      if times[0] < from {
        AdmittedInInterval(Check(w, times[0]), times[1..], from, to);
      } else {
        AdmittedFromNow(w, times, from, to);
        WindowsMonotone(to - Max(from, w.start + WINDOW_MS), to - from);
      }
    }
  }

  /** At most 100 pass in a window of the limiter's own. */
  lemma WindowBound(w: Window, times: seq<Millis>)
    requires Ordered(w.start, times) && w.count <= MAX_PER_WINDOW
    ensures Admitted(w, times, w.start, w.start + WINDOW_MS) <= MAX_PER_WINDOW - w.count
  {
    AdmittedFromNow(w, times, w.start, w.start + WINDOW_MS);
  }

  /** For a sender never seen before: 100 * (1 + ceil(L / 1000)) in any interval of L ms. */
  lemma RateBound(times: seq<Millis>, from: int, to: int)
    requires Ordered(0, times)
    ensures Admitted(FRESH, times, from, to) <= MAX_PER_WINDOW * (1 + Windows(to - from))
  {
    AdmittedInInterval(FRESH, times, from, to);
  }

  // ---- refusals ----

  /** The answers to a list of readings. */
  function Verdicts(w: Window, times: seq<Millis>): (v: seq<bool>)
    ensures |v| == |times|
    decreases |times|
  {
    if times == [] then [] else [Passes(w, times[0])] + Verdicts(Check(w, times[0]), times[1..])
  }

  function After(w: Window, times: seq<Millis>): Window
    decreases |times|
  {
    if times == [] then w else After(Check(w, times[0]), times[1..])
  }

  lemma {:induction false} VerdictsInTwoParts(w: Window, times: seq<Millis>, later: seq<Millis>)
    ensures Verdicts(w, times + later) == Verdicts(w, times) + Verdicts(After(w, times), later)
    ensures After(w, times + later) == After(After(w, times), later)
    decreases |times|
  {
    if times == [] {
      assert times + later == later;
    } else {
      assert (times + later)[1..] == times[1..] + later;
      VerdictsInTwoParts(Check(w, times[0]), times[1..], later);
    }
  }

  /** A refused reading leaves no trace: without it every other answer is the same. */
  lemma RefusalLeavesNoTrace(w: Window, before: seq<Millis>, t: Millis, later: seq<Millis>)
    requires Verdicts(w, before + ([t] + later))[|before|] == false
    ensures var v := Verdicts(w, before + ([t] + later));
            Verdicts(w, before + later) == v[..|before|] + v[|before| + 1..]
  {
    VerdictsInTwoParts(w, before, [t] + later);
    VerdictsInTwoParts(w, before, later);
    assert ([t] + later)[1..] == later;
  }

  /** Refusals alone leave the window as it is. */
  lemma {:induction false} RefusalsKeepWindow(w: Window, times: seq<Millis>)
    requires forall i | 0 <= i < |times| :: !Verdicts(w, times)[i]
    ensures After(w, times) == w
    decreases |times|
  {
    if times != [] {
      assert !Verdicts(w, times)[0];
      forall i | 0 <= i < |times| - 1 ensures !Verdicts(w, times[1..])[i] {
        assert !Verdicts(w, times)[i + 1];
      }
      RefusalsKeepWindow(w, times[1..]);
    }
  }

  /** However often a sender was refused, a second after its last message passed the next one passes. */
  lemma PassesAfterOneSecond(w: Window, t: Millis, refused: seq<Millis>, now: Millis)
    requires w.start <= t && Passes(w, t) && t + 1000 <= now
    requires forall i | 0 <= i < |refused| :: !Verdicts(Check(w, t), refused)[i]
    ensures Passes(After(Check(w, t), refused), now)
  {
    RefusalsKeepWindow(Check(w, t), refused);
  }

  // ---- the exact maximum ----

  /**
   The most that can pass in `ms` milliseconds once windows open by using a place: full windows
   only, or one that opened just before and 99 of its places in front of them. The second needs a
   millisecond of its own.
   */
  function Peak(ms: int): nat
    requires ms >= 1
  {
    if ms % WINDOW_MS == 1 then MAX_PER_WINDOW * Windows(ms) else MAX_PER_WINDOW - 1 + MAX_PER_WINDOW * Windows(ms)
  }

  lemma PeakCovers(ms: int)
    requires ms >= 1
    ensures MAX_PER_WINDOW * Windows(ms) <= Peak(ms)
    ensures MAX_PER_WINDOW - 1 + MAX_PER_WINDOW * Windows(ms - 1) <= Peak(ms)
  {
  }

  /** A window that opens within the interval, and all that follow it. */
  lemma AdmittedFromOpening(w: Window, times: seq<Millis>, from: int, to: int)
    requires times != [] && Ordered(w.start, times) && w.start + WINDOW_MS <= times[0] && from <= times[0]
    ensures Admitted(w, times, from, to) <= MAX_PER_WINDOW * Windows(to - from)
  {
    var t := times[0];
    OrderedTail(w.start, times);
    if t < to {
      AdmittedFromNow(Check(w, t), times[1..], from, to);
      WindowsUnfold(to - t);
      WindowsMonotone(to - t, to - from);
    } else {
      NothingLater(w, times, from, to);
    }
  }

  lemma {:induction false} AtMostPeakFrom(w: Window, times: seq<Millis>, from: int, to: int)
    requires Ordered(w.start, times) && 1 <= w.count <= MAX_PER_WINDOW && from < to
    ensures Admitted(w, times, from, to) <= Peak(to - from)
    decreases |times|
  {
    if times != [] {
      OrderedTail(w.start, times);
      PeakCovers(to - from);
      if times[0] < from {
        AtMostPeakFrom(Check(w, times[0]), times[1..], from, to);
      } else if w.start + WINDOW_MS <= times[0] {
        AdmittedFromOpening(w, times, from, to);
      } else {
        AdmittedFromNow(w, times, from, to);
        WindowsMonotone(to - Max(from, w.start + WINDOW_MS), to - from - 1);
      }
    }
  }

  /** No run passes more than the peak in any interval, once the clock is past its first second. */
  lemma AtMostPeak(times: seq<Millis>, from: int, to: int)
    requires Ordered(WINDOW_MS, times) && from < to
    ensures Admitted(FRESH, times, from, to) <= Peak(to - from)
  {
    if times != [] {
      OrderedTail(WINDOW_MS, times);
      if times[0] < from {
        AtMostPeakFrom(Check(FRESH, times[0]), times[1..], from, to);
      } else {
        AdmittedFromOpening(FRESH, times, from, to);
        PeakCovers(to - from);
      }
    }
  }

  function Repeat(t: Millis, n: nat): seq<Millis> {
    seq(n, _ => t)
  }

  lemma {:induction false} Burst(w: Window, t: Millis, n: nat, rest: seq<Millis>, from: int, to: int)
    requires w.start <= t < w.start + WINDOW_MS && w.count + n <= MAX_PER_WINDOW && from <= t < to
    ensures Admitted(w, Repeat(t, n) + rest, from, to) == n + Admitted(w.(count := w.count + n), rest, from, to)
    decreases n
  {
    if n == 0 {
      assert Repeat(t, n) + rest == rest;
    } else {
      assert (Repeat(t, n) + rest)[1..] == Repeat(t, n - 1) + rest;
      Burst(w.(count := w.count + 1), t, n - 1, rest, from, to);
    }
  }

  /** A reading a second or more after the window opened opens the next one. */
  lemma Opens(w: Window, t: Millis, rest: seq<Millis>, from: int, to: int)
    requires w.start + WINDOW_MS <= t
    ensures Admitted(w, [t] + rest, from, to)
            == (if from <= t < to then 1 else 0) + Admitted(Window(t, 1), rest, from, to)
  {
  }

  lemma RepeatOrdered(t: Millis, n: nat, rest: seq<Millis>)
    requires Ordered(t, rest)
    ensures Ordered(t, Repeat(t, n) + rest)
  {
  }

  lemma HeadOrdered(least: int, t: Millis, rest: seq<Millis>)
    requires least <= t && Ordered(t, rest)
    ensures Ordered(least, [t] + rest)
  {
  }

  /** `n` windows used up at the instant they open, a second apart, the first at `t`. */
  function Train(t: Millis, n: nat): seq<Millis>
    requires t + WINDOW_MS * n < U64_RANGE
    decreases n
  {
    if n == 0 then [] else [t] + (Repeat(t, MAX_PER_WINDOW - 1) + Train(t + WINDOW_MS, n - 1))
  }

  lemma {:induction false} TrainOrdered(t: Millis, n: nat)
    requires t + WINDOW_MS * n < U64_RANGE
    ensures Ordered(t, Train(t, n))
    decreases n
  {
    if n > 0 {
      var rest := Train(t + WINDOW_MS, n - 1);
      TrainOrdered(t + WINDOW_MS, n - 1);
      RepeatOrdered(t, MAX_PER_WINDOW - 1, rest);
      HeadOrdered(t, t, Repeat(t, MAX_PER_WINDOW - 1) + rest);
    }
  }

  lemma {:induction false} TrainPasses(w: Window, t: Millis, n: nat, from: int, to: int)
    requires t + WINDOW_MS * n < U64_RANGE && w.start + WINDOW_MS <= t
    requires from <= t && t + WINDOW_MS * n < to + WINDOW_MS
    ensures Admitted(w, Train(t, n), from, to) == MAX_PER_WINDOW * n
    decreases n
  {
    if n > 0 {
      var rest := Train(t + WINDOW_MS, n - 1);
      Opens(w, t, Repeat(t, MAX_PER_WINDOW - 1) + rest, from, to);
      Burst(Window(t, 1), t, MAX_PER_WINDOW - 1, rest, from, to);
      TrainPasses(Window(t, MAX_PER_WINDOW), t + WINDOW_MS, n - 1, from, to);
    }
  }

  /** A window opened in time and used up at its very end, and a train right behind it. */
  lemma StraddlingRun(n: nat, to: int) returns (times: seq<Millis>)
    requires 2000 + WINDOW_MS * n < U64_RANGE && 1000 + WINDOW_MS * n < to && 1999 < to
    ensures Ordered(WINDOW_MS, times) && Admitted(FRESH, times, 1999, to) == 99 + MAX_PER_WINDOW * n
  {
    var train := Train(2000, n);
    var first := Repeat(1999, 99) + train;
    times := [1000] + first;
    TrainOrdered(2000, n);
    RepeatOrdered(1999, 99, train);
    HeadOrdered(WINDOW_MS, 1000, first);
    Opens(FRESH, 1000, first, 1999, to);
    Burst(Window(1000, 1), 1999, 99, train, 1999, to);
    TrainPasses(Window(1000, 100), 2000, n, 1999, to);
  }

  /** For every length some run passes the peak: the bound is the maximum. */
  lemma PeakAttained(ms: int) returns (times: seq<Millis>, from: int)
    requires 1 <= ms <= U64_RANGE - 4000
    ensures Ordered(WINDOW_MS, times) && Admitted(FRESH, times, from, from + ms) == Peak(ms)
  {
    var n := Windows(ms);
    if ms % WINDOW_MS == 1 {
      times, from := Train(1000, n), 1000;
      TrainOrdered(1000, n);
      TrainPasses(FRESH, 1000, n, from, from + ms);
    } else {
      from := 1999;
      times := StraddlingRun(n, from + ms);
    }
  }

  // ---- the promise of 100 messages a second ----

  lemma {:induction false} WiderIntervalAdmitsMore(w: Window, times: seq<Millis>, from: int, to: int, wider: int)
    requires to <= wider
    ensures Admitted(w, times, from, to) <= Admitted(w, times, from, wider)
    decreases |times|
  {
    if times != [] {
      WiderIntervalAdmitsMore(Check(w, times[0]), times[1..], from, to, wider);
    }
  }

  /** No run lets more than 100 through in any interval of `length` ms. */
  ghost predicate HundredPer(length: int) {
    forall times, from: int, to: int | Ordered(WINDOW_MS, times) && to == from + length ::
      Admitted(FRESH, times, from, to) <= MAX_PER_WINDOW
  }

  /** Read as a sliding limit, 100 is kept for single instants only. */
  lemma HundredPerInstantOnly(length: nat)
    ensures HundredPer(length) <==> length <= 1
  {
    if length <= 1 {
      forall times, from: int, to: int | Ordered(WINDOW_MS, times) && to == from + length
        ensures Admitted(FRESH, times, from, to) <= MAX_PER_WINDOW
      {
        AtMostPeak(times, from, from + 1);
        WiderIntervalAdmitsMore(FRESH, times, from, to, from + 1);
      }
    } else {
      var times, from := PeakAttained(2);
      WiderIntervalAdmitsMore(FRESH, times, from, from + 2, from + length);
    }
  }
}
