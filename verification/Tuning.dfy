/** The auto-tuner: measures the candidates in rounds, drops those that cost too
    much, and after a fixed number of rounds names the cheapest. */
module Tuning {
  import opened Wrappers
  import opened SkipList
  import opened Sets
  import Bits

  /** One finished round: who was unskipped when it began, and who was measured. */
  datatype Round = Round(start: set<nat>, order: seq<nat>)

  /** Everyone who was there at the start was measured exactly once, in increasing order. */
  ghost predicate Complete(r: Round)
  {
    Ascending(r.order) && forall x :: x in r.order <==> x in r.start
  }

  function Calls(history: seq<Round>): nat
  {
    if history == [] then 0 else Calls(history[..|history| - 1]) + |history[|history| - 1].order|
  }

  lemma {:induction false} AscendingIsShort(s: seq<nat>, n: nat)
    requires Ascending(s) && forall x | x in s :: x < n
    ensures |s| <= n
  {
    if s != [] {
      var last := s[|s| - 1];
      assert last in s;
      var rest := s[..|s| - 1];
      assert forall i | 0 <= i < |rest| :: rest[i] < last;
      AscendingIsShort(rest, last);
    }
  }

  lemma CallsAppend(history: seq<Round>, r: Round)
    ensures Calls(history + [r]) == Calls(history) + |r.order|
  {
    assert (history + [r])[..|history|] == history;
  }

  lemma {:induction false} FewCalls(history: seq<Round>, n: nat)
    requires forall i | 0 <= i < |history| :: |history[i].order| <= n
    ensures Calls(history) <= n * |history|
  {
    if history != [] { FewCalls(history[..|history| - 1], n); }
  }

  // ----- the round under way -----

  /** `order` has been measured since the round began with `start`, and `current` is next. */
  ghost predicate Underway(start: set<nat>, order: seq<nat>, live: set<nat>, current: nat)
  {
    && current in live && live <= start && Ascending(order)
    && (forall x :: x in order <==> x in start && x < current)
    && (forall x | x in start && x >= current :: x in live)
  }

  /** One measurement: either the round goes on with the next candidate, or it is
      complete and the next one starts with those left at the smallest of them. */
  lemma Advance(start: set<nat>, order: seq<nat>, live: set<nat>, current: nat, next: nat, left: set<nat>)
    requires Underway(start, order, live, current) && Follows(live, current, next)
    requires left == live || (live != {current} && left == live - {current})
    ensures next > current ==> Underway(start, order + [current], left, next)
    ensures next <= current ==> Complete(Round(start, order + [current])) && Underway(left, [], left, next)
  {
    var order' := order + [current];
    assert forall i | 0 <= i < |order| :: order[i] in order;
    assert Ascending(order');
    if next > current {
      forall x ensures x in order' <==> x in start && x < next {}
    } else {
      forall x ensures x in order' <==> x in start {}
    }
  }

  /** The rounds so far: all complete, each among those its predecessor left. */
  ghost predicate Logged(history: seq<Round>, start: set<nat>, order: seq<nat>, live: set<nat>, current: nat, n: nat)
  {
    && Underway(start, order, live, current)
    && (forall x | x in start :: x < n)
    && (forall r | r in history :: Complete(r) && forall x | x in r.start :: x < n)
    && (forall i | 0 < i < |history| :: history[i].start <= history[i - 1].start)
    && (history != [] ==> start <= history[|history| - 1].start)
  }

  lemma LogAdvances(history: seq<Round>, start: set<nat>, order: seq<nat>, live: set<nat>, current: nat, n: nat,
                    next: nat, left: set<nat>)
    requires Logged(history, start, order, live, current, n) && Follows(live, current, next)
    requires left == live || (live != {current} && left == live - {current})
    ensures next > current ==> Logged(history, start, order + [current], left, next, n)
    ensures next <= current ==> Logged(history + [Round(start, order + [current])], left, [], left, next, n)
  {
    Advance(start, order, live, current, next, left);
  }

  lemma LogBounds(history: seq<Round>, start: set<nat>, order: seq<nat>, live: set<nat>, current: nat, n: nat)
    requires Logged(history, start, order, live, current, n)
    ensures Calls(history) <= n * |history| && |order| < n
  {
    forall i | 0 <= i < |history| ensures |history[i].order| <= n {
      assert history[i] in history;
      AscendingIsShort(history[i].order, n);
    }
    FewCalls(history, n);
    AscendingIsShort(order, current);
  }

  lemma CallBudget(n: nat, rounds: nat, last: nat, calls: nat, extra: nat)
    requires calls <= n * rounds && extra < n && rounds < last
    ensures calls + extra < n * last
  {
    Bits.MulMonotone(n, rounds + 1, last);
  }

  lemma LogCurrent(history: seq<Round>, start: set<nat>, order: seq<nat>, live: set<nat>, current: nat, n: nat)
    requires Logged(history, start, order, live, current, n)
    ensures current in live && current < n
  {
  }

  /** `cost` is the least of the estimates and of `highest`, and `idx` the first
      candidate with it if that is below `highest`. */
  predicate Least(estimates: seq<real>, highest: real, cost: real, idx: nat)
  {
    && idx < |estimates| && cost <= highest
    && (forall i | 0 <= i < |estimates| :: cost <= estimates[i])
    && if cost < highest then cost == estimates[idx] && forall i | 0 <= i < idx :: cost < estimates[i]
       else idx == 0
  }

  class AutoTune<Config> {
    const kMinSamples: nat
    const highest: real
    const candidates: seq<Config>
    const list: NextWithSkip
    var best: Option<nat>
    var configIdx: nat
    var roundsComplete: nat
    var skipIfAbove: real
    ghost var start: set<nat>
    ghost var order: seq<nat>
    ghost var history: seq<Round>

    /** The round that declares the winner. */
    function LastRound(): nat { 3 * kMinSamples / 2 + 1 }

    ghost predicate Valid()
      reads this, list
    {
      && list.Valid() && |list.links| == |candidates| > 0
      && Logged(history, start, order, list.live, configIdx, |candidates|) && |history| == roundsComplete
      && roundsComplete <= LastRound() && (best.Some? <==> roundsComplete == LastRound())
      && (best.Some? ==> best.value < |candidates| && order == [])
      && (roundsComplete < kMinSamples ==> skipIfAbove == 0.0)
    }

    /** How often the caller has reported a cost. */
    ghost function Notified(): nat
      reads this
    {
      Calls(history) + |order|
    }

    /** `candidates` is what is passed to SetCandidates. */
    constructor (kMinSamples: nat, highest: real, candidates: seq<Config>)
      requires 0 < |candidates| < K_MAX_NUM
      ensures Valid() && fresh(list) && best.None? && Notified() == 0 && configIdx == 0
      ensures this.kMinSamples == kMinSamples && this.highest == highest && this.candidates == candidates
    {
      this.kMinSamples := kMinSamples;
      this.highest := highest;
      this.candidates := candidates;
      list := new NextWithSkip(|candidates|);
      best, configIdx, roundsComplete, skipIfAbove := None, 0, 0, 0.0;
      start, order, history := UpTo(|candidates|), [], [];
    }

    method NextConfig() returns (c: Config)
      requires Valid()
      ensures configIdx in list.live && configIdx < |candidates| && c == candidates[configIdx]
    {
      c := candidates[configIdx];
    }

    /** The first candidate with the least estimate; 0 if none is below the highest number. */
    method Cheapest(estimates: seq<real>) returns (bestCost: real, idxMin: nat)
      requires |estimates| > 0
      ensures Least(estimates, highest, bestCost, idxMin)
    {
      bestCost := highest;
      idxMin := 0;
      for i := 0 to |estimates|
        invariant idxMin < |estimates| && bestCost <= highest
        invariant forall j | 0 <= j < i :: bestCost <= estimates[j]
        invariant if bestCost < highest
                  then bestCost == estimates[idxMin] && forall j | 0 <= j < idxMin :: bestCost < estimates[j]
                  else idxMin == 0
      {
        if estimates[i] < bestCost {
          bestCost := estimates[i];
          idxMin := i;
        }
      }
    }

    /** Once there are enough samples, every round sets the threshold a quarter above
        the least estimate, and the last one names the candidate it belongs to. */
    ghost predicate Decided(estimates: seq<real>)
      reads this
    {
      if roundsComplete >= kMinSamples then
        exists idxMin: nat :: DecidedBy(estimates, idxMin)
      else best == None && skipIfAbove == 0.0
    }

    ghost predicate DecidedBy(estimates: seq<real>, idxMin: nat)
      reads this
    {
      && Least(estimates, highest, skipIfAbove / 1.25, idxMin)
      && best == if roundsComplete == 3 * kMinSamples / 2 + 1 then Some(idxMin) else None
    }

    /** The bookkeeping at the end of a round. */
    method EndRound(estimates: seq<real>)
      requires |estimates| > 0 && best.None?
      requires roundsComplete < kMinSamples ==> skipIfAbove == 0.0
      modifies this`roundsComplete, this`skipIfAbove, this`best
      ensures roundsComplete == old(roundsComplete) + 1 && Decided(estimates)
      ensures best.Some? <==> roundsComplete == 3 * kMinSamples / 2 + 1
    {
      roundsComplete := roundsComplete + 1;
      if roundsComplete >= kMinSamples {
        var bestCost, idxMin := Cheapest(estimates);
        skipIfAbove := bestCost * 1.25;
        if roundsComplete == LastRound() {
          best := Some(idxMin);
        }
        assert skipIfAbove / 1.25 == bestCost;
        assert DecidedBy(estimates, idxMin);
      }
    }

    /** `estimates` is the current cost estimate of every candidate, whatever it may be. */
    method NotifyCost(estimates: seq<real>)
      requires Valid() && best.None? && |estimates| == |candidates|
      modifies this, list
      ensures Valid() && Notified() == old(Notified()) + 1
      ensures best.Some? <==> |history| == 3 * kMinSamples / 2 + 1
      ensures Follows(old(list.live), old(configIdx), configIdx)
      ensures list.live ==
        if old(roundsComplete) >= kMinSamples && estimates[old(configIdx)] > old(skipIfAbove) &&
           old(list.live) != {old(configIdx)}
        then old(list.live) - {old(configIdx)} else old(list.live)
      ensures if configIdx > old(configIdx) then
          start == old(start) && order == old(order) + [old(configIdx)] && history == old(history) &&
          roundsComplete == old(roundsComplete) && skipIfAbove == old(skipIfAbove) && best.None?
        else
          start == list.live && order == [] &&
          history == old(history) + [Round(old(start), old(order) + [old(configIdx)])] &&
          roundsComplete == old(roundsComplete) + 1 && Decided(estimates)
    {
      hide Ring, Logged, Follows, Calls;
      LogCurrent(history, start, order, list.live, configIdx, |candidates|);
      var myIdx := configIdx;
      var myCost := if roundsComplete >= kMinSamples then estimates[configIdx] else 0.0;
      configIdx := list.Next(configIdx);
      if myCost > skipIfAbove {
        list.Skip(myIdx);
      }
      LogAdvances(history, start, order, old(list.live), myIdx, |candidates|, configIdx, list.live);
      ghost var round := Round(start, order + [myIdx]);
      if configIdx > myIdx {
        order := order + [myIdx];
      } else {
        CallsAppend(history, round);
        history := history + [round];
        start, order := list.live, [];
        EndRound(estimates);
        DecisionSound(estimates);
      }
    }

    /** A winner is one of the candidates. */
    lemma DecisionSound(estimates: seq<real>)
      requires |estimates| == |candidates| && 1 <= roundsComplete <= LastRound() && Decided(estimates)
      ensures roundsComplete < kMinSamples ==> skipIfAbove == 0.0
      ensures best.Some? <==> roundsComplete == LastRound()
      ensures best.Some? ==> best.value < |candidates|
    {
    }

    /** Every round is at most one call per candidate, so tuning cannot take longer. */
    lemma BoundedCalls()
      requires Valid()
      ensures Notified() <= |candidates| * (3 * kMinSamples / 2 + 1)
      ensures best.None? ==> Notified() < |candidates| * (3 * kMinSamples / 2 + 1)
      ensures best.Some? <==> |history| == 3 * kMinSamples / 2 + 1
    {
      LogBounds(history, start, order, list.live, configIdx, |candidates|);
      if best.None? { CallBudget(|candidates|, roundsComplete, LastRound(), Calls(history), |order|); }
    }

    /** The caller's loop: it ends, and soon enough, whatever the costs are. */
    method Run(estimates: nat -> seq<real>) returns (calls: nat)
      requires Valid() && best.None? && Notified() == 0
      requires forall i :: |estimates(i)| == |candidates|
      modifies this, list
      ensures Valid() && best.Some? && |history| == 3 * kMinSamples / 2 + 1
      ensures calls == Notified() <= |candidates| * (3 * kMinSamples / 2 + 1)
    {
      calls := 0;
      BoundedCalls();
      while best.None?
        invariant Valid() && calls == Notified() <= |candidates| * LastRound()
        decreases |candidates| * LastRound() - calls
      {
        BoundedCalls();
        NotifyCost(estimates(calls));
        calls := calls + 1;
        BoundedCalls();
      }
    }
  }
}
