/** The section tracker: which sections of a test case each run of it enters.
    A tracker is named by the path of locations that leads to it from the root. */
module Sections {

  /** A test case, or a section of one; a location stands for a name and a source line. */
  datatype Section = Section(location: nat, subsections: seq<Section>)

  type Path = seq<nat>

  datatype CycleState = NotStarted | Executing | ExecutingChildren | NeedsAnotherRun | CompletedSuccessfully | Failed

  datatype RunState = RunNotStarted | RunExecuting | CompletedCycle

  datatype Tracker = Tracker(state: CycleState, children: seq<nat>)

  type Trackers = map<Path, Tracker>

  /** A tracker that was never touched is as a new one. */
  function At(m: Trackers, p: Path): Tracker
  {
    if p in m then m[p] else Tracker(NotStarted, [])
  }

  // ----- what the runs should do -----

  predicate DistinctSiblings(s: Section)
  {
    && (forall i, j | 0 <= i < j < |s.subsections| :: s.subsections[i].location != s.subsections[j].location)
    && (forall i | 0 <= i < |s.subsections| :: DistinctSiblings(s.subsections[i]))
  }

  function Leaves(s: Section): (n: nat)
    ensures n >= 1
    decreases s, |s.subsections| + 1
  {
    if s.subsections == [] then 1 else LeavesBefore(s, |s.subsections|)
  }

  /** The leaves of the first `n` subsections. */
  function LeavesBefore(s: Section, n: nat): (l: nat)
    requires n <= |s.subsections|
    ensures l >= n
    decreases s, n
  {
    if n == 0 then 0 else LeavesBefore(s, n - 1) + Leaves(s.subsections[n - 1])
  }

  function Child(s: Section, p: Path, i: nat): Path
    requires i < |s.subsections|
  {
    p + [s.subsections[i].location]
  }

  /** For every leaf in document order, the sections on the way to it below `p`. */
  function Routes(s: Section, p: Path): (r: seq<seq<Path>>)
    ensures |r| == Leaves(s)
    decreases s, |s.subsections| + 1
  {
    if s.subsections == [] then [[]] else RoutesFirst(s, p, |s.subsections|)
  }

  function RoutesFirst(s: Section, p: Path, n: nat): (r: seq<seq<Path>>)
    requires n <= |s.subsections|
    ensures |r| == LeavesBefore(s, n)
    decreases s, n
  {
    if n == 0 then []
    else RoutesFirst(s, p, n - 1) + Through(Child(s, p, n - 1), Routes(s.subsections[n - 1], Child(s, p, n - 1)))
  }

  /** Routes that enter `p` first. */
  function Through(p: Path, routes: seq<seq<Path>>): (r: seq<seq<Path>>)
    ensures |r| == |routes| && forall i | 0 <= i < |r| :: r[i] == [p] + routes[i]
  {
    seq(|routes|, i requires 0 <= i < |routes| => [p] + routes[i])
  }

  // ----- how far a section has come -----

  /** Of the first `k` leaves of `s`, those in subsection `i`. */
  function Done(s: Section, i: nat, k: int): int
    requires i < |s.subsections|
  {
    var d := k - LeavesBefore(s, i);
    if d <= 0 then 0 else if d >= Leaves(s.subsections[i]) then Leaves(s.subsections[i]) else d
  }

  function Locations(s: Section, n: nat): seq<nat>
    requires n <= |s.subsections|
  {
    seq(n, i requires 0 <= i < n => s.subsections[i].location)
  }

  /** The trackers of `s` at `p` after `k` of its leaves have been run. */
  ghost predicate Progress(m: Trackers, s: Section, p: Path, k: int)
    decreases s, 1
  {
    && 0 <= k <= Leaves(s)
    && (k == 0 ==> At(m, p) == Tracker(NotStarted, []))
    && (k == Leaves(s) ==> At(m, p).state == CompletedSuccessfully)
    && (0 < k < Leaves(s) ==>
          At(m, p) == Tracker(ExecutingChildren, Locations(s, |s.subsections|)) && ChildrenProgress(m, s, p, k))
  }

  ghost predicate ChildrenProgress(m: Trackers, s: Section, p: Path, k: int)
    decreases s, 0
  {
    forall i | 0 <= i < |s.subsections| :: Progress(m, s.subsections[i], Child(s, p, i), Done(s, i, k))
  }

  ghost predicate SameBelow(m: Trackers, m': Trackers, p: Path)
  {
    forall q: Path | p <= q :: At(m, q) == At(m', q)
  }

  lemma {:induction false} ProgressStays(m: Trackers, m': Trackers, s: Section, p: Path, k: int)
    requires Progress(m, s, p, k) && SameBelow(m, m', p)
    ensures Progress(m', s, p, k)
  {
    if 0 < k < Leaves(s) {
      forall i | 0 <= i < |s.subsections| ensures Progress(m', s.subsections[i], Child(s, p, i), Done(s, i, k)) {
        assert SameBelow(m, m', Child(s, p, i)) by {
          forall q: Path | Child(s, p, i) <= q ensures At(m, q) == At(m', q) {
            assert p <= Child(s, p, i) <= q;
          }
        }
        ProgressStays(m, m', s.subsections[i], Child(s, p, i), Done(s, i, k));
      }
    }
  }

  predicate IsComplete(m: Trackers, p: Path)
  {
    At(m, p).state == CompletedSuccessfully || At(m, p).state == Failed
  }

  predicate IsOpen(m: Trackers, p: Path)
  {
    At(m, p).state != NotStarted && !IsComplete(m, p)
  }

  function WithState(m: Trackers, p: Path, state: CycleState): Trackers
  {
    m[p := At(m, p).(state := state)]
  }

  function Parent(p: Path): Path
    requires p != []
  {
    p[..|p| - 1]
  }

  // ----- lemmas about progress -----

  lemma {:induction false} LeavesBeforeMonotone(s: Section, i: nat, n: nat)
    requires i <= n <= |s.subsections|
    ensures LeavesBefore(s, i) <= LeavesBefore(s, n)
  {
    if i < n { LeavesBeforeMonotone(s, i, n - 1); }
  }

  lemma {:induction false} RouteAt(s: Section, p: Path, n: nat, i: nat, k: nat)
    requires i < n <= |s.subsections| && LeavesBefore(s, i) <= k < LeavesBefore(s, i + 1)
    ensures k < LeavesBefore(s, n)
    ensures RoutesFirst(s, p, n)[k]
         == [Child(s, p, i)] + Routes(s.subsections[i], Child(s, p, i))[k - LeavesBefore(s, i)]
  {
    LeavesBeforeMonotone(s, i + 1, n);
    if i < n - 1 { RouteAt(s, p, n - 1, i, k); }
  }

  lemma ChildrenProgressStays(m: Trackers, m': Trackers, s: Section, p: Path, k: int)
    requires ChildrenProgress(m, s, p, k)
    requires forall q: Path | p < q :: At(m, q) == At(m', q)
    ensures ChildrenProgress(m', s, p, k)
  {
    forall i | 0 <= i < |s.subsections| ensures Progress(m', s.subsections[i], Child(s, p, i), Done(s, i, k)) {
      ProgressStays(m, m', s.subsections[i], Child(s, p, i), Done(s, i, k));
    }
  }

  lemma CompleteMeansDone(m: Trackers, s: Section, p: Path, k: int)
    requires Progress(m, s, p, k)
    ensures IsComplete(m, p) <==> k == Leaves(s)
    ensures At(m, p).state == CompletedSuccessfully <==> k == Leaves(s)
  {
  }

  lemma DoneIsAll(s: Section, i: nat, k: int)
    requires i < |s.subsections|
    ensures Done(s, i, k) == Leaves(s.subsections[i]) <==> k >= LeavesBefore(s, i + 1)
    ensures LeavesBefore(s, i + 1) <= Leaves(s)
  {
    LeavesBeforeMonotone(s, i + 1, |s.subsections|);
  }

  /** All subsections are complete exactly when all leaves are done. */
  lemma CompleteWhenDone(m: Trackers, s: Section, p: Path, k: int)
    requires s.subsections != [] && ChildrenProgress(m, s, p, k) && k <= Leaves(s)
    ensures (forall c | c in Locations(s, |s.subsections|) :: IsComplete(m, p + [c])) <==> k == Leaves(s)
  {
    var n := |s.subsections|;
    var locations := Locations(s, n);
    forall i | 0 <= i < n ensures IsComplete(m, p + [locations[i]]) <==> k >= LeavesBefore(s, i + 1) {
      assert Progress(m, s.subsections[i], Child(s, p, i), Done(s, i, k));
      CompleteMeansDone(m, s.subsections[i], Child(s, p, i), Done(s, i, k));
      DoneIsAll(s, i, k);
    }
    if k == Leaves(s) {
      forall c | c in locations ensures IsComplete(m, p + [c]) {
        var i :| 0 <= i < n && locations[i] == c;
        DoneIsAll(s, i, k);
      }
    } else {
      assert locations[n - 1] in locations;
    }
  }

  /** What happens below one subsection leaves its siblings alone. */
  lemma SiblingStays(m: Trackers, m': Trackers, s: Section, p: Path, i: nat, j: nat, k: int)
    requires DistinctSiblings(s) && i < |s.subsections| && j < |s.subsections| && i != j
    requires forall q: Path | q != p && !(Child(s, p, i) <= q) :: At(m', q) == At(m, q)
    requires Progress(m, s.subsections[j], Child(s, p, j), k)
    ensures Progress(m', s.subsections[j], Child(s, p, j), k)
  {
    forall q: Path | Child(s, p, j) <= q ensures At(m, q) == At(m', q) {
      assert q[|p|] == s.subsections[j].location != s.subsections[i].location;
    }
    ProgressStays(m, m', s.subsections[j], Child(s, p, j), k);
  }

  /** The trackers of a running section at `p` before its `i`th subsection, in the
      run for leaf `k`: the subsections before it are settled for this run. */
  ghost predicate Midway(m: Trackers, s: Section, p: Path, i: nat, k: int)
    requires i <= |s.subsections|
  {
    && At(m, p) == Tracker(if LeavesBefore(s, i) <= k then Executing else ExecutingChildren,
                           Locations(s, if k > 0 then |s.subsections| else i))
    && (forall j | 0 <= j < i :: Progress(m, s.subsections[j], Child(s, p, j), Done(s, j, k + 1)))
    && (k > 0 ==> forall j | i <= j < |s.subsections| :: Progress(m, s.subsections[j], Child(s, p, j), Done(s, j, k)))
  }

  /** The subsection the loop comes to is known exactly if this is not the first run. */
  lemma NextSubsection(m: Trackers, s: Section, p: Path, i: nat, k: int)
    requires DistinctSiblings(s) && i < |s.subsections| && 0 <= k < Leaves(s) && Midway(m, s, p, i, k)
    ensures s.subsections[i].location in At(m, p).children <==> k > 0
    ensures k > 0 ==> Progress(m, s.subsections[i], Child(s, p, i), Done(s, i, k))
    ensures k == 0 ==> Done(s, i, k) == 0
    ensures LeavesBefore(s, i) > k ==> Done(s, i, k) == 0 && Done(s, i, k + 1) == 0
    ensures LeavesBefore(s, i) <= k ==>
      Done(s, i, k + 1) == if k < LeavesBefore(s, i + 1) then Done(s, i, k) + 1 else Leaves(s.subsections[i])
    ensures LeavesBefore(s, i) <= k ==> (k < LeavesBefore(s, i + 1) <==> Done(s, i, k) < Leaves(s.subsections[i]))
  {
    hide Progress, Leaves;
    if k > 0 { assert Locations(s, |s.subsections|)[i] == s.subsections[i].location; }
  }

  lemma BodyStarts(m: Trackers, s: Section, p: Path, k: int)
    requires 0 <= k < Leaves(s) && At(m, p).state == Executing
    requires k == 0 ==> At(m, p).children == []
    requires k > 0 ==> At(m, p).children == Locations(s, |s.subsections|) && ChildrenProgress(m, s, p, k)
    ensures Midway(m, s, p, 0, k) && LeavesBefore(s, 0) == 0
  {
    hide Progress;
  }

  lemma BodyEnds(m: Trackers, s: Section, p: Path, k: int)
    requires 0 <= k < Leaves(s) && Midway(m, s, p, |s.subsections|, k)
    ensures s.subsections == [] ==> LeavesBefore(s, 0) <= k && Routes(s, p)[k] == []
    ensures s.subsections != [] ==>
      LeavesBefore(s, |s.subsections|) > k &&
      At(m, p) == Tracker(ExecutingChildren, Locations(s, |s.subsections|)) && ChildrenProgress(m, s, p, k + 1)
  {
    hide Progress, RoutesFirst;
  }

  lemma RegisteredChildren(m: Trackers, p: Path, location: nat)
    ensures At(Registered(m, p, location), p).children ==
            if location in At(m, p).children then At(m, p).children else At(m, p).children + [location]
  {
    assert p + [location] != p;
  }

  lemma LocationsGrow(s: Section, i: nat)
    requires i < |s.subsections|
    ensures Locations(s, i) + [s.subsections[i].location] == Locations(s, i + 1)
  {
  }

  /** What one section under `p` changes: it is known afterwards, and one more of its
      leaves is done if it ran. */
  ghost predicate Passed(m: Trackers, m': Trackers, s: Section, p: Path, k: int, ran: bool)
  {
    && (forall q: Path | q != p && !(p + [s.location] <= q) :: At(m', q) == At(m, q))
    && At(m', p).children == At(Registered(m, p, s.location), p).children
    && At(m', p).state == (if ran then ExecutingChildren else At(m, p).state)
    && Progress(m', s, p + [s.location], if ran then k + 1 else k)
  }

  lemma PassedFrame(m: Trackers, m': Trackers, s: Section, p: Path, k: int, ran: bool)
    requires Passed(m, m', s, p, k, ran)
    ensures forall q: Path | !(p <= q) :: At(m', q) == At(m, q)
  {
    forall q: Path | !(p <= q) ensures At(m', q) == At(m, q) {
      ShorterPrefix(p, s.location, q);
    }
  }

  lemma ShorterPrefix(p: Path, c: nat, q: Path)
    ensures p + [c] <= q ==> p <= q
  {
    if p + [c] <= q { assert p <= p + [c]; }
  }

  lemma OneMoreSubsection(m: Trackers, m': Trackers, s: Section, p: Path, i: nat, k: int)
    requires DistinctSiblings(s) && i < |s.subsections| && 0 <= k < Leaves(s) && Midway(m, s, p, i, k)
    requires Passed(m, m', s.subsections[i], p, Done(s, i, k), LeavesBefore(s, i) <= k < LeavesBefore(s, i + 1))
    ensures Midway(m', s, p, i + 1, k)
  {
    hide Leaves, LeavesBefore;
    LeavesBeforeMonotone(s, i, i + 1);
    NextSubsection(m, s, p, i, k);
    RegisteredChildren(m, p, s.subsections[i].location);
    LocationsGrow(s, i);
    assert At(m', p) == Tracker(if LeavesBefore(s, i + 1) <= k then Executing else ExecutingChildren,
                                Locations(s, if k > 0 then |s.subsections| else i + 1));
    OthersStay(m, m', s, p, i, k);
  }

  lemma OthersStay(m: Trackers, m': Trackers, s: Section, p: Path, i: nat, k: int)
    requires DistinctSiblings(s) && i < |s.subsections| && Midway(m, s, p, i, k)
    requires forall q: Path | q != p && !(Child(s, p, i) <= q) :: At(m', q) == At(m, q)
    ensures forall j | 0 <= j < i :: Progress(m', s.subsections[j], Child(s, p, j), Done(s, j, k + 1))
    ensures k > 0 ==> forall j | i < j < |s.subsections| :: Progress(m', s.subsections[j], Child(s, p, j), Done(s, j, k))
  {
    forall j | 0 <= j < i ensures Progress(m', s.subsections[j], Child(s, p, j), Done(s, j, k + 1)) {
      SiblingStays(m, m', s, p, i, j, Done(s, j, k + 1));
    }
    if k > 0 {
      forall j | i < j < |s.subsections| ensures Progress(m', s.subsections[j], Child(s, p, j), Done(s, j, k)) {
        SiblingStays(m, m', s, p, i, j, Done(s, j, k));
      }
    }
  }

  lemma ClosedWhenDone(m: Trackers, s: Section, p: Path, k: int)
    requires s.subsections != [] && 0 <= k < Leaves(s)
    requires At(m, p) == Tracker(ExecutingChildren, Locations(s, |s.subsections|)) && ChildrenProgress(m, s, p, k + 1)
    ensures Closed(m, p)
         == Tracker(if k + 1 == Leaves(s) then CompletedSuccessfully else ExecutingChildren, Locations(s, |s.subsections|))
  {
    hide Leaves, ChildrenProgress, IsComplete, Locations;
    CompleteWhenDone(m, s, p, k + 1);
  }

  lemma ProgressMade(m: Trackers, s: Section, p: Path, k: int)
    requires 0 < k <= Leaves(s)
    requires k == Leaves(s) ==> At(m, p).state == CompletedSuccessfully
    requires k < Leaves(s) ==>
               At(m, p) == Tracker(ExecutingChildren, Locations(s, |s.subsections|)) && ChildrenProgress(m, s, p, k)
    ensures Progress(m, s, p, k)
  {
    hide Leaves, ChildrenProgress, Locations;
  }

  lemma LeafHasOne(s: Section)
    requires s.subsections == []
    ensures Leaves(s) == 1
  {
  }

  /** Closing a section whose body has run counts one more leaf. */
  lemma ClosingCounts(m: Trackers, m': Trackers, s: Section, p: Path, k: int)
    requires 0 <= k < Leaves(s)
    requires s.subsections == [] ==> At(m, p).state == Executing
    requires s.subsections != [] ==>
               At(m, p) == Tracker(ExecutingChildren, Locations(s, |s.subsections|)) && ChildrenProgress(m, s, p, k + 1)
    requires At(m', p) == Closed(m, p) && forall q | q != p :: At(m', q) == At(m, q)
    ensures Progress(m', s, p, k + 1)
  {
    hide Leaves, Progress, ChildrenProgress, Locations;
    if s.subsections == [] {
      LeafHasOne(s);
    } else {
      ClosedWhenDone(m, s, p, k);
      hide Closed;
      ChildrenProgressStays(m, m', s, p, k + 1);
    }
    ProgressMade(m', s, p, k + 1);
  }

  /** Opening a section whose surroundings are marked marks at most its parent. */
  lemma OpeningMarksTheParent(m: Trackers, p: Path)
    requires p != [] && forall q: Path | q < Parent(p) :: At(m, q).state == ExecutingChildren
    ensures forall q | q != p && q != Parent(p) :: Opened(m, q, p) == At(m, q)
    ensures Opened(m, p, p) == At(m, p).(state := Executing)
    ensures Opened(m, Parent(p), p) == At(m, Parent(p)).(state := ExecutingChildren)
  {
    if Parent(p) != [] { assert Parent(Parent(p)) < Parent(p); }
  }

  lemma ProperPrefix(q: Path, p: Path)
    requires p != []
    ensures q < p <==> q <= Parent(p)
  {
  }

  /** What the parent's list says about a section agrees with how far it has come. */
  ghost predicate Known(m: Trackers, s: Section, p: Path, k: int)
  {
    if s.location in At(m, p).children then Progress(m, s, p + [s.location], k) else k == 0
  }

  lemma KnownSection(m: Trackers, s: Section, p: Path, k: int)
    requires Known(m, s, p, k)
    ensures Progress(Registered(m, p, s.location), s, p + [s.location], k)
    ensures forall q: Path | q != p && q != p + [s.location] :: At(Registered(m, p, s.location), q) == At(m, q)
    ensures At(Registered(m, p, s.location), p).state == At(m, p).state
    ensures IsComplete(Registered(m, p, s.location), p + [s.location]) <==> k == Leaves(s)
    ensures k == 0 || k == Leaves(s) ==> !IsOpen(Registered(m, p, s.location), p + [s.location])
  {
    assert p + [s.location] != p;
  }

  lemma NothingKnown(m: Trackers, s: Section)
    requires At(m, []).children == []
    ensures Known(m, s, [], 0)
  {
  }

  lemma Pushed(stack: seq<Path>, p: Path)
    ensures (stack + [p])[|stack + [p]| - 1] == p && (stack + [p])[..|stack + [p]| - 1] == stack
  {
  }

  lemma Regrouped(earlier: seq<Path>, p: Path, route: seq<Path>)
    ensures earlier + [p] + route == earlier + ([p] + route)
  {
  }

  lemma SkippedSection(m: Trackers, s: Section, p: Path, k: int)
    requires Known(m, s, p, k)
    ensures Passed(m, Registered(m, p, s.location), s, p, k, false)
  {
    hide Progress;
    KnownSection(m, s, p, k);
    assert p + [s.location] <= p + [s.location];
  }

  lemma OpenedSection(before: Trackers, inside: Trackers, s: Section, p: Path, k: int)
    requires Known(before, s, p, k) && k < Leaves(s)
    requires forall q :: At(inside, q) == Opened(Registered(before, p, s.location), q, p + [s.location])
    requires forall q: Path | q < p :: At(before, q).state == ExecutingChildren
    ensures forall q: Path | q != p && q != p + [s.location] :: At(inside, q) == At(before, q)
    ensures At(inside, p) == At(Registered(before, p, s.location), p).(state := ExecutingChildren)
    ensures forall q: Path | q < p + [s.location] :: At(inside, q).state == ExecutingChildren
    ensures At(inside, p + [s.location]).state == Executing
    ensures k == 0 ==> At(inside, p + [s.location]).children == []
    ensures k > 0 ==> At(inside, p + [s.location]).children == Locations(s, |s.subsections|)
    ensures k > 0 ==> ChildrenProgress(inside, s, p + [s.location], k)
  {
    var c, m := p + [s.location], Registered(before, p, s.location);
    assert Parent(c) == p;
    KnownSection(before, s, p, k);
    OpeningMarksTheParent(m, c);
    forall q: Path | q < c ensures At(inside, q).state == ExecutingChildren { ProperPrefix(q, c); }
    if k > 0 { ChildrenProgressStays(m, inside, s, c, k); }
  }

  lemma RanSection(before: Trackers, inside: Trackers, ran: Trackers, after: Trackers, s: Section, p: Path, k: int)
    requires forall q: Path | q != p && q != p + [s.location] :: At(inside, q) == At(before, q)
    requires At(inside, p) == At(Registered(before, p, s.location), p).(state := ExecutingChildren)
    requires forall q: Path | !(p + [s.location] <= q) :: At(ran, q) == At(inside, q)
    requires forall q: Path | q != p + [s.location] :: At(after, q) == At(ran, q)
    requires Progress(after, s, p + [s.location], k + 1)
    ensures Passed(before, after, s, p, k, true)
  {
    assert !(p + [s.location] <= p);
  }

  class RunContext {
    var trackers: Trackers
    var current: Path
    var runState: RunState
    var activeSections: seq<Path>
    /** The sections the reporter was told about, oldest first. */
    var entered: seq<Path>

    constructor ()
      ensures trackers == map[] && runState == RunNotStarted && activeSections == [] && entered == []
    {
      trackers, current, runState, activeSections, entered := map[], [], RunNotStarted, [], [];
    }

    method StartRun()
      modifies this
      ensures trackers == map[[] := Tracker(NotStarted, [])] && current == [] && runState == RunExecuting
      ensures activeSections == old(activeSections) && entered == old(entered)
    {
      trackers := map[[] := Tracker(NotStarted, [])];
      current := [];
      runState := RunExecuting;
    }

    method StartCycle()
      modifies this`current, this`runState
      ensures current == [] && runState == RunExecuting
    {
      current := [];
      runState := RunExecuting;
    }

    /** Marks a tracker as executing children, and its ancestors up to the first
        that is so marked already. */
    method OpenChild(p: Path)
      modifies this`trackers
      ensures forall q :: At(trackers, q) == if Reached(old(trackers), q, p) then At(old(trackers), q).(state := ExecutingChildren)
                                             else At(old(trackers), q)
      decreases |p|
    {
      if At(trackers, p).state != ExecutingChildren {
        trackers := WithState(trackers, p, ExecutingChildren);
        if p != [] {
          ReachedElsewhere(old(trackers), trackers, p);
          OpenChild(Parent(p));
        }
      }
    }

    method Open(p: Path)
      modifies this`trackers, this`current
      ensures current == p
      ensures At(trackers, p) == At(old(trackers), p).(state := Executing)
      ensures forall q | q != p ::
                At(trackers, q) == if p != [] && Reached(old(trackers), q, Parent(p))
                                   then At(old(trackers), q).(state := ExecutingChildren) else At(old(trackers), q)
    {
      trackers := WithState(trackers, p, Executing);
      current := p;
      if p != [] {
        ReachedElsewhere(old(trackers), trackers, p);
        OpenChild(Parent(p));
      }
    }

    /** Closing the current tracker: it is complete if it ran no children, or if they
        all are; either way the cycle is over. */
    method Close(p: Path)
      requires current == p && p != []
      requires At(trackers, p).state in {Executing, ExecutingChildren, NeedsAnotherRun}
      modifies this`trackers, this`current, this`runState
      ensures current == Parent(p) && runState == CompletedCycle
      ensures forall q | q != p :: At(trackers, q) == At(old(trackers), q)
      ensures At(trackers, p) == Closed(old(trackers), p)
    {
      var t := At(trackers, p);
      match t.state {
        case Executing => trackers := WithState(trackers, p, CompletedSuccessfully);
        case ExecutingChildren =>
          if forall c | c in t.children :: IsComplete(trackers, p + [c]) {
            trackers := WithState(trackers, p, CompletedSuccessfully);
          }
        case NeedsAnotherRun =>
      }
      current := Parent(p);
      runState := CompletedCycle;
    }

    /** Finds or makes the tracker of a section under the current one, and opens it
        if the cycle is still under way and the section is not complete. */
    method Acquire(location: nat) returns (p: Path)
      modifies this`trackers, this`current
      ensures p == old(current) + [location]
      ensures var m := Registered(old(trackers), old(current), location);
        if runState == CompletedCycle || IsComplete(m, p) then trackers == m && current == old(current)
        else current == p && forall q :: At(trackers, q) == Opened(m, q, p)
    {
      p := current + [location];
      trackers := Registered(trackers, current, location);
      if runState != CompletedCycle {
        if !IsComplete(trackers, p) {
          Open(p);
        }
      }
    }

    method SectionStarted(location: nat) returns (included: bool)
      modifies this`trackers, this`current, this`activeSections, this`entered
      ensures var p, m := old(current) + [location], Registered(old(trackers), old(current), location);
        if runState == CompletedCycle || IsComplete(m, p) then
          trackers == m && current == old(current) && included == IsOpen(m, p)
        else included && current == p && forall q :: At(trackers, q) == Opened(m, q, p)
      ensures var p := old(current) + [location];
        activeSections == (if included then old(activeSections) + [p] else old(activeSections)) &&
        entered == (if included then old(entered) + [p] else old(entered))
    {
      var p := Acquire(location);
      if !IsOpen(trackers, p) {
        return false;
      }
      activeSections := activeSections + [p];
      entered := entered + [p];
      return true;
    }

    method SectionEnded()
      requires activeSections != [] ==> var p := activeSections[|activeSections| - 1];
        current == p && p != [] && At(trackers, p).state in {Executing, ExecutingChildren, NeedsAnotherRun}
      modifies this`trackers, this`current, this`runState, this`activeSections
      ensures old(activeSections) == [] ==> trackers == old(trackers) && current == old(current) && activeSections == []
      ensures old(activeSections) != [] ==> var p := old(activeSections)[|old(activeSections)| - 1];
        activeSections == old(activeSections)[..|old(activeSections)| - 1] &&
        current == Parent(p) && runState == CompletedCycle &&
        At(trackers, p) == Closed(old(trackers), p) && forall q | q != p :: At(trackers, q) == At(old(trackers), q)
    {
      if activeSections != [] {
        Close(activeSections[|activeSections| - 1]);
        activeSections := activeSections[..|activeSections| - 1];
      }
    }

    // ----- running -----

    /** What is around a running tracker: every ancestor is executing children. */
    ghost predicate Surrounded()
      reads this`trackers, this`current
    {
      forall q: Path | q < current :: At(trackers, q).state == ExecutingChildren
    }

    /** One section of the test function: its body runs if the tracker lets it in. */
    method RunSection(s: Section, ghost k: int)
      requires DistinctSiblings(s) && Surrounded()
      requires At(trackers, current).state in {Executing, ExecutingChildren}
      requires runState == RunExecuting || (runState == CompletedCycle && k == 0)
      requires Known(trackers, s, current, k)
      modifies this
      ensures current == old(current) && activeSections == old(activeSections)
      ensures var ran := old(runState) == RunExecuting && k < Leaves(s);
        Passed(old(trackers), trackers, s, current, k, ran) &&
        runState == (if ran then CompletedCycle else old(runState)) &&
        entered == old(entered) + if ran then [current + [s.location]] + Routes(s, current + [s.location])[k] else []
      decreases s, 2
    {
      hide Leaves, LeavesBefore, Progress, Routes, ChildrenProgress, Passed, Registered, Opened, Closed, IsOpen,
           IsComplete, Known;
      ghost var p, before := current + [s.location], trackers;
      KnownSection(before, s, current, k);
      SkippedSection(before, s, current, k);
      var included := SectionStarted(s.location);
      if included {
        ghost var inside := trackers;
        OpenedSection(before, inside, s, Parent(p), k);
        Pushed(old(activeSections), p);
        Regrouped(old(entered), p, Routes(s, p)[k]);
        RunBody(s, k);
        ghost var ran := trackers;
        SectionEnded();
        ClosingCounts(ran, trackers, s, p, k);
        RanSection(before, inside, ran, trackers, s, current, k);
      }
    }

    /** The body of a section: its subsections in order. */
    method RunBody(s: Section, ghost k: int)
      requires DistinctSiblings(s) && Surrounded() && runState == RunExecuting
      requires At(trackers, current).state == Executing && 0 <= k < Leaves(s)
      requires k == 0 ==> At(trackers, current).children == []
      requires k > 0 ==>
        At(trackers, current).children == Locations(s, |s.subsections|) && ChildrenProgress(trackers, s, current, k)
      modifies this
      ensures current == old(current) && activeSections == old(activeSections)
      ensures forall q: Path | !(current <= q) :: At(trackers, q) == At(old(trackers), q)
      ensures entered == old(entered) + Routes(s, current)[k]
      ensures s.subsections == [] ==> runState == RunExecuting && trackers == old(trackers)
      ensures s.subsections != [] ==> runState == CompletedCycle
      ensures s.subsections != [] ==>
                At(trackers, current) == Tracker(ExecutingChildren, Locations(s, |s.subsections|)) &&
                ChildrenProgress(trackers, s, current, k + 1)
      decreases s, 1
    {
      hide Leaves, LeavesBefore, Midway, ChildrenProgress, Routes;
      BodyStarts(trackers, s, current, k);
      for i := 0 to |s.subsections|
        invariant current == old(current) && activeSections == old(activeSections)
        invariant forall q: Path | !(current <= q) :: At(trackers, q) == At(old(trackers), q)
        invariant i == 0 ==> trackers == old(trackers)
        invariant Midway(trackers, s, current, i, k)
        invariant runState == if LeavesBefore(s, i) <= k then RunExecuting else CompletedCycle
        invariant entered == old(entered) + if LeavesBefore(s, i) <= k then [] else Routes(s, current)[k]
      {
        LeavesBeforeMonotone(s, i, i + 1);
        RunNext(s, i, k);
      }
      BodyEnds(trackers, s, current, k);
    }

    /** One step of that loop. */
    method RunNext(s: Section, i: nat, ghost k: int)
      requires DistinctSiblings(s) && Surrounded() && i < |s.subsections| && 0 <= k < Leaves(s)
      requires Midway(trackers, s, current, i, k)
      requires runState == if LeavesBefore(s, i) <= k then RunExecuting else CompletedCycle
      modifies this
      ensures current == old(current) && activeSections == old(activeSections)
      ensures forall q: Path | !(current <= q) :: At(trackers, q) == At(old(trackers), q)
      ensures Midway(trackers, s, current, i + 1, k)
      ensures runState == if LeavesBefore(s, i + 1) <= k then RunExecuting else CompletedCycle
      ensures entered
           == old(entered) + if LeavesBefore(s, i) <= k < LeavesBefore(s, i + 1) then Routes(s, current)[k] else []
      decreases s, 0
    {
      hide Leaves, LeavesBefore;
      NextSubsection(trackers, s, current, i, k);
      RunSection(s.subsections[i], Done(s, i, k));
      PassedFrame(old(trackers), trackers, s.subsections[i], current, Done(s, i, k),
                  LeavesBefore(s, i) <= k < LeavesBefore(s, i + 1));
      OneMoreSubsection(old(trackers), trackers, s, current, i, k);
      if LeavesBefore(s, i) <= k < LeavesBefore(s, i + 1) { RouteAt(s, current, |s.subsections|, i, k); }
    }

    /** The cycle loop: runs of the test function until its tracker is complete.
        Returns what each cycle entered. */
    method RunTest(test: Section) returns (cycles: seq<seq<Path>>)
      requires DistinctSiblings(test) && activeSections == []
      modifies this
      ensures cycles == Routes(test, [test.location]) && |cycles| == Leaves(test)
    {
      hide Leaves, Routes, Known, Progress;
      StartRun();
      NothingKnown(trackers, test);
      cycles := [];
      var completed := false;
      while !completed
        invariant activeSections == [] && |cycles| <= Leaves(test)
        invariant cycles == Routes(test, [test.location])[..|cycles|]
        invariant completed <==> |cycles| == Leaves(test)
        invariant Known(trackers, test, [], |cycles|)
        decreases Leaves(test) - |cycles|
      {
        entered := [];
        var t := RunCycle(test, |cycles|);
        cycles := cycles + [entered];
        CompleteMeansDone(trackers, test, t, |cycles|);
        completed := At(trackers, t).state == CompletedSuccessfully;
      }
    }

    /** One cycle: find the test case's tracker, run the test function, close it. */
    method RunCycle(test: Section, ghost k: int) returns (t: Path)
      requires DistinctSiblings(test) && activeSections == [] && entered == []
      requires 0 <= k < Leaves(test) && Known(trackers, test, [], k)
      modifies this
      ensures t == [test.location]
      ensures activeSections == [] && entered == Routes(test, [test.location])[k]
      ensures Known(trackers, test, [], k + 1) && Progress(trackers, test, [test.location], k + 1)
    {
      hide Leaves, LeavesBefore, Progress;
      StartCycle();
      ghost var before := trackers;
      KnownSection(before, test, [], k);
      t := Acquire(test.location);
      ghost var inside := trackers;
      OpenedSection(before, inside, test, [], k);
      RunBody(test, k);
      ghost var ran := trackers;
      Close(t);
      ClosingCounts(ran, trackers, test, t, k);
      RanSection(before, inside, ran, trackers, test, [], k);
    }
  }

  function Closed(m: Trackers, p: Path): Tracker
  {
    var t := At(m, p);
    if t.state == Executing ||
       (t.state == ExecutingChildren && forall c | c in t.children :: IsComplete(m, p + [c])) then
      t.(state := CompletedSuccessfully)
    else t
  }

  /** Whether marking goes up from `p` as far as `q`. */
  ghost predicate Reached(m: Trackers, q: Path, p: Path)
    ensures Reached(m, q, p) ==> q <= p
    decreases |p|
  {
    q == p || (p != [] && At(m, p).state != ExecutingChildren && Reached(m, q, Parent(p)))
  }

  lemma {:induction false} ReachedFromShorter(m: Trackers, m': Trackers, q: Path, p: Path, changed: Path)
    requires |p| < |changed| && forall r | r != changed :: At(m, r) == At(m', r)
    ensures Reached(m, q, p) <==> Reached(m', q, p)
    decreases |p|
  {
    if p != [] { ReachedFromShorter(m, m', q, Parent(p), changed); }
  }

  lemma ReachedElsewhere(m: Trackers, m': Trackers, p: Path)
    requires p != [] && forall q | q != p :: At(m, q) == At(m', q)
    ensures forall q :: Reached(m, q, Parent(p)) <==> Reached(m', q, Parent(p))
  {
    forall q ensures Reached(m, q, Parent(p)) <==> Reached(m', q, Parent(p)) {
      ReachedFromShorter(m, m', q, Parent(p), p);
    }
  }

  /** Makes sure the tracker at `p` has a child for the location, a new one if need be. */
  function Registered(m: Trackers, p: Path, location: nat): Trackers
  {
    if location in At(m, p).children then m
    else m[p := At(m, p).(children := At(m, p).children + [location])][p + [location] := Tracker(NotStarted, [])]
  }

  /** The tracker at `q` after the one at `p` was opened. */
  ghost function Opened(m: Trackers, q: Path, p: Path): Tracker
    requires p != []
  {
    if q == p then At(m, p).(state := Executing)
    else if Reached(m, q, Parent(p)) then At(m, q).(state := ExecutingChildren)
    else At(m, q)
  }

  /** A tracker is open exactly while it is being run or has to be run again. */
  lemma OpenStates(m: Trackers, p: Path)
    ensures IsOpen(m, p) <==> At(m, p).state in {Executing, ExecutingChildren, NeedsAnotherRun}
    ensures IsComplete(m, p) <==> At(m, p).state in {CompletedSuccessfully, Failed}
  {
  }

  /** Closing an open tracker completes it if it ran no children or all of them are
      complete, and otherwise leaves it as it is: one that has to be run again stays so. */
  lemma ClosingCompletes(m: Trackers, m': Trackers, p: Path)
    requires IsOpen(m, p) && At(m', p) == Closed(m, p)
    ensures At(m', p).children == At(m, p).children
    ensures At(m, p).state == Executing ==> IsComplete(m', p)
    ensures At(m, p).state == ExecutingChildren ==>
      (IsComplete(m', p) <==> forall c | c in At(m, p).children :: IsComplete(m, p + [c]))
    ensures !IsComplete(m', p) ==> At(m', p) == At(m, p)
    ensures At(m, p).state == NeedsAnotherRun ==> At(m', p) == At(m, p)
  {
  }

  // ----- what the routes amount to -----

  /** `q` is the path of a section somewhere below `s`, which is at `p`. */
  ghost predicate IsSectionPath(s: Section, p: Path, q: Path)
  {
    exists i | 0 <= i < |s.subsections| :: q == Child(s, p, i) || IsSectionPath(s.subsections[i], Child(s, p, i), q)
  }

  lemma {:induction false} FindSubsection(s: Section, n: nat, k: nat) returns (i: nat)
    requires n <= |s.subsections| && k < LeavesBefore(s, n)
    ensures i < n && LeavesBefore(s, i) <= k < LeavesBefore(s, i + 1)
  {
    if LeavesBefore(s, n - 1) <= k { i := n - 1; } else { i := FindSubsection(s, n - 1, k); }
  }

  /** No two runs take the same route. */
  lemma {:induction false} RoutesDistinct(s: Section, p: Path, j: nat, k: nat)
    requires DistinctSiblings(s) && j < k < Leaves(s)
    ensures Routes(s, p)[j] != Routes(s, p)[k]
  {
    var n := |s.subsections|;
    var a := FindSubsection(s, n, j);
    var b := FindSubsection(s, n, k);
    RouteAt(s, p, n, a, j);
    RouteAt(s, p, n, b, k);
    if a == b {
      RoutesDistinct(s.subsections[a], Child(s, p, a), j - LeavesBefore(s, a), k - LeavesBefore(s, a));
      assert Routes(s, p)[j][1..] == Routes(s.subsections[a], Child(s, p, a))[j - LeavesBefore(s, a)];
      assert Routes(s, p)[k][1..] == Routes(s.subsections[a], Child(s, p, a))[k - LeavesBefore(s, a)];
    } else {
      assert Routes(s, p)[j][0] == Child(s, p, a) && Routes(s, p)[k][0] == Child(s, p, b);
      assert Child(s, p, a)[|p|] != Child(s, p, b)[|p|];
    }
  }

  /** Every section is entered by some run. */
  lemma {:induction false} EverySectionRuns(s: Section, p: Path, q: Path) returns (k: nat)
    requires IsSectionPath(s, p, q)
    ensures k < Leaves(s) && q in Routes(s, p)[k]
  {
    var n := |s.subsections|;
    var i :| 0 <= i < n && (q == Child(s, p, i) || IsSectionPath(s.subsections[i], Child(s, p, i), q));
    var inner := 0;
    if q != Child(s, p, i) { inner := EverySectionRuns(s.subsections[i], Child(s, p, i), q); }
    k := LeavesBefore(s, i) + inner;
    RouteAt(s, p, n, i, k);
  }

  /** And nothing else is. */
  lemma {:induction false} OnlySectionsRun(s: Section, p: Path, q: Path, k: nat)
    requires k < Leaves(s) && q in Routes(s, p)[k]
    ensures IsSectionPath(s, p, q)
  {
    var n := |s.subsections|;
    if n > 0 {
      var i := FindSubsection(s, n, k);
      RouteAt(s, p, n, i, k);
      var c := Child(s, p, i);
      if q != c { OnlySectionsRun(s.subsections[i], c, q, k - LeavesBefore(s, i)); }
    }
  }
}
