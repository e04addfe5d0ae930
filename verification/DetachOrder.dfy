// The order in which detaching tells the modules (src/loader/module_graph.cpp): a module that
// loses its last reference goes after everything that depends on it, while process_detach
// also takes modules by their place in the table, whoever refers to them.
module DetachOrder {
  import opened GraphState

  ghost predicate Lists(ms: Table, j: nat, d: nat) { j < |ms| && ms[j].state == Attached && d in ms[j].dependencies }

  ghost function AttachedDependents(ms: Table, d: nat): set<nat> { set j: nat | j < |ms| && Lists(ms, j, d) }

  // The references to d that do not come from attached modules.
  ghost function Slack(ms: Table, d: nat): int
    requires d < |ms|
  {
    ms[d].Refs() - |AttachedDependents(ms, d)|
  }

  // ---------------------------------------------------------------- one detachment after another

  ghost predicate IsAttached(ms: Table, i: nat) { i < |ms| && ms[i].state == Attached }

  // log lists the modules that have been detached, each once.
  ghost predicate DetachedBy(before: Table, after: Table, log: seq<nat>) {
    && |after| == |before| && Distinct(log)
    && (forall i: nat :: IsAttached(before, i) <==> IsAttached(after, i) || i in log)
    && (forall i: nat :: i in log ==> !IsAttached(after, i))
    && forall i: nat :: i < |before| ==> after[i].dependencies == before[i].dependencies
  }

  // From the given place on, each module goes after the attached ones that depend on it.
  ghost predicate OwnersFirst(before: Table, log: seq<nat>, first: nat) {
    forall k, j: nat :: first <= k < |log| && Lists(before, j, log[k]) ==> GoneBefore(log, k, j)
  }

  ghost predicate GoneBefore(log: seq<nat>, k: int, j: nat) { 0 <= k <= |log| && j in log[..k] }

  // So many references to each module have been given back without a dependent going.
  ghost predicate SlackFalls(before: Table, after: Table, given: multiset<nat>) {
    |after| == |before| && forall d: nat :: d < |before| ==> Slack(before, d) == Slack(after, d) + given[d]
  }

  lemma NothingDetached(ms: Table)
    ensures DetachedBy(ms, ms, []) && OwnersFirst(ms, [], 0) && SlackFalls(ms, ms, multiset{})
  {
  }

  lemma Joined(a: Table, b: Table, c: Table, first: seq<nat>, second: seq<nat>)
    requires DetachedBy(a, b, first) && DetachedBy(b, c, second)
    ensures DetachedBy(a, c, first + second)
  {
    var log := first + second;
    forall j, k | 0 <= j < k < |log| ensures log[j] != log[k] {
      if j < |first| <= k {
        assert first[j] in first && second[k - |first|] in second;
        assert !IsAttached(b, first[j]) && IsAttached(b, second[k - |first|]);
      }
    }
  }

  lemma OwnersFirstJoined(a: Table, b: Table, first: seq<nat>, second: seq<nat>, from: nat)
    requires DetachedBy(a, b, first) && OwnersFirst(a, first, from) && OwnersFirst(b, second, 0) && from <= |first|
    ensures OwnersFirst(a, first + second, from)
  {
    var log := first + second;
    forall k, j: nat | from <= k < |log| && Lists(a, j, log[k]) ensures GoneBefore(log, k, j) {
      if k < |first| {
        assert GoneBefore(first, k, j);
        assert log[..k] == first[..k];
      } else {
        assert log[..k] == first + second[..k - |first|];
        assert IsAttached(a, j);
        if IsAttached(b, j) {
          assert Lists(b, j, second[k - |first|]);
          assert GoneBefore(second, k - |first|, j);
        }
      }
    }
  }

  lemma SlackFallsMore(a: Table, b: Table, c: Table, first: multiset<nat>, second: multiset<nat>)
    requires SlackFalls(a, b, first) && SlackFalls(b, c, second)
    ensures SlackFalls(a, c, first + second)
  {
    hide Slack;
  }

  // A reference to d is given back.
  lemma Released(ms: Table, d: nat)
    requires d < |ms| && ms[d].staticRefs > 0
    ensures var now := ms[d := ms[d].(staticRefs := ms[d].staticRefs - 1)];
      DetachedBy(ms, now, []) && SlackFalls(ms, now, multiset{d})
  {
    var now := ms[d := ms[d].(staticRefs := ms[d].staticRefs - 1)];
    forall e: nat | e < |ms| ensures Slack(ms, e) == Slack(now, e) + multiset{d}[e] {
      assert AttachedDependents(now, e) == AttachedDependents(ms, e);
    }
  }

  // An attached module goes.
  lemma Gone(ms: Table, i: nat)
    requires i < |ms| && ms[i].state == Attached && Distinct(ms[i].dependencies)
    ensures var now := ms[i := Dropped(ms[i])];
      DetachedBy(ms, now, [i]) && SlackFalls(now, ms, multiset(ms[i].dependencies))
  {
    var now := ms[i := Dropped(ms[i])];
    var deps := ms[i].dependencies;
    var given: multiset<nat> := multiset(deps);
    forall d: nat | d < |ms| ensures Slack(now, d) == Slack(ms, d) + given[d] {
      DistinctMultiplicity(deps, d);
      assert AttachedDependents(now, d) == AttachedDependents(ms, d) - {i};
      if d in deps { assert Lists(ms, i, d) && i in AttachedDependents(ms, d); }
    }
  }

  lemma NetSlack(before: Table, dropped: Table, after: Table, given: multiset<nat>)
    requires SlackFalls(dropped, before, given) && SlackFalls(dropped, after, given)
    ensures SlackFalls(before, after, multiset{})
  {
    hide Slack;
  }

  // Counting a dynamic reference less changes nothing of this.
  lemma DetachesAfterCount(before: Table, counted: Table, after: Table, log: seq<nat>, i: nat)
    requires i < |before| && before[i].dynamicRefs > 0
    requires counted == before[i := before[i].(dynamicRefs := before[i].dynamicRefs - 1)]
    requires (after == counted && log == []) || Detaches(counted, after, log, 0, multiset{})
    ensures DetachedBy(before, after, log) && OwnersFirst(before, log, 0)
  {
    hide SlackFalls, Distinct;
    NothingDetached(counted);
    forall j: nat, d: nat ensures Lists(before, j, d) <==> Lists(counted, j, d) { }
    forall j: nat ensures IsAttached(before, j) <==> IsAttached(counted, j) { }
  }

  // A module nobody attached depends on may go first.
  lemma NoOwnerLeft(ms: Table, leaving: set<nat>, d: nat)
    requires Dependents(ms, leaving, d) == {} && LeavingNotAttached(ms, leaving)
    ensures forall j: nat :: !Lists(ms, j, d)
  {
    forall j: nat ensures !Lists(ms, j, d) {
      assert Lists(ms, j, d) ==> j in Dependents(ms, leaving, d);
    }
  }

  lemma RootGoesFirst(before: Table, dropped: Table, rest: seq<nat>, i: nat)
    requires DetachedBy(before, dropped, [i]) && OwnersFirst(dropped, rest, 0)
    ensures OwnersFirst(before, [i] + rest, 1)
    ensures (forall j: nat :: !Lists(before, j, i)) ==> OwnersFirst(before, [i] + rest, 0)
  {
    OwnersFirstJoined(before, dropped, [i], rest, 1);
  }

  // Modules are detached, owners first from the given place on, while references to what
  // stays or goes are given back.
  ghost predicate Detaches(before: Table, after: Table, log: seq<nat>, first: nat, given: multiset<nat>) {
    first <= |log| && DetachedBy(before, after, log) && OwnersFirst(before, log, first)
        && SlackFalls(before, after, given)
  }

  lemma DetachesNothing(ms: Table)
    ensures Detaches(ms, ms, [], 0, multiset{})
  {
    NothingDetached(ms);
  }

  lemma DetachesReleased(ms: Table, d: nat)
    requires d < |ms| && ms[d].staticRefs > 0
    ensures Detaches(ms, ms[d := ms[d].(staticRefs := ms[d].staticRefs - 1)], [], 0, multiset{d})
  {
    Released(ms, d);
  }

  lemma DetachesMore(a: Table, b: Table, c: Table, first: seq<nat>, second: seq<nat>, from: nat, g: multiset<nat>,
                     h: multiset<nat>)
    requires Detaches(a, b, first, from, g) && Detaches(b, c, second, 0, h)
    ensures Detaches(a, c, first + second, from, g + h)
  {
    hide Slack;
    Joined(a, b, c, first, second);
    OwnersFirstJoined(a, b, first, second, from);
    SlackFallsMore(a, b, c, g, h);
  }

  lemma DetachesRoot(before: Table, after: Table, rest: seq<nat>, i: nat)
    requires i < |before| && before[i].state == Attached && Distinct(before[i].dependencies)
    requires Detaches(before[i := Dropped(before[i])], after, rest, 0, multiset(before[i].dependencies))
    ensures Detaches(before, after, [i] + rest, 1, multiset{})
    ensures (forall j: nat :: !Lists(before, j, i)) ==> Detaches(before, after, [i] + rest, 0, multiset{})
  {
    hide Slack;
    var dropped := before[i := Dropped(before[i])];
    Gone(before, i);
    Joined(before, dropped, after, [i], rest);
    RootGoesFirst(before, dropped, rest, i);
    NetSlack(before, dropped, after, multiset(before[i].dependencies));
  }

  // ---------------------------------------------------------------- who lasts how long

  // A chain of owners from a module up to one that is referred to from elsewhere, all of them
  // attached and none before place k of the table.
  ghost predicate Chain(ms: Table, chain: seq<nat>, k: nat) {
    && chain != [] && (forall x :: 0 <= x < |chain| ==> k <= chain[x] && IsAttached(ms, chain[x]))
    && (forall x :: 0 <= x < |chain| - 1 ==> Lists(ms, chain[x + 1], chain[x]))
    && Slack(ms, chain[|chain| - 1]) > 0
  }

  // Module i is still attached when process_detach comes to place k.
  ghost predicate HeldUntil(ms: Table, i: nat, k: nat) { exists chain :: Chain(ms, chain, k) && chain[0] == i }

  lemma HeldUntilUnfolds(ms: Table, i: nat, k: nat)
    ensures HeldUntil(ms, i, k) <==>
            k <= i && IsAttached(ms, i)
            && (Slack(ms, i) > 0 || exists j: nat :: Lists(ms, j, i) && HeldUntil(ms, j, k))
  {
    if HeldUntil(ms, i, k) {
      var chain :| Chain(ms, chain, k) && chain[0] == i;
      if |chain| > 1 {
        var rest := chain[1..];
        forall x | 0 <= x < |rest| - 1 ensures Lists(ms, rest[x + 1], rest[x]) {
          assert Lists(ms, chain[(x + 1) + 1], chain[x + 1]);
        }
        assert Chain(ms, rest, k) && rest[0] == chain[1];
        assert Lists(ms, chain[0 + 1], chain[0]);
      }
    }
    if k <= i && IsAttached(ms, i) {
      if Slack(ms, i) > 0 { assert Chain(ms, [i], k); }
      else if j: nat :| Lists(ms, j, i) && HeldUntil(ms, j, k) {
        var chain :| Chain(ms, chain, k) && chain[0] == j;
        var longer := [i] + chain;
        forall x | 0 <= x < |longer| - 1 ensures Lists(ms, longer[x + 1], longer[x]) {
          if x > 0 { assert Lists(ms, chain[(x - 1) + 1], chain[x - 1]); }
        }
        assert Chain(ms, longer, k) && longer[0] == i;
      }
    }
  }

  lemma HeldLonger(ms: Table, i: nat, k: nat, l: nat)
    requires HeldUntil(ms, i, l) && k <= l
    ensures HeldUntil(ms, i, k)
  {
    var chain :| Chain(ms, chain, l) && chain[0] == i;
    assert Chain(ms, chain, k);
  }

  // A module in front of the place is not, ...
  lemma InFrontIsGone(ms: Table, i: nat, k: nat)
    requires i < k
    ensures !HeldUntil(ms, i, k)
  {
  }

  // ... and one that is referred to from elsewhere goes at its own place.
  lemma ReferredGoesInTurn(ms: Table, i: nat, k: nat)
    requires IsAttached(ms, i) && Slack(ms, i) > 0
    ensures HeldUntil(ms, i, k) <==> k <= i
  {
    HeldUntilUnfolds(ms, i, k);
  }

  // A reference taken by load_library is one from elsewhere.
  lemma DynamicIsSlack(ms: Table, i: nat)
    requires RefsCover(ms, {}, multiset{}) && i < |ms| && ms[i].dynamicRefs > 0
    ensures Slack(ms, i) > 0
  {
    SubsetSize(AttachedDependents(ms, i), Dependents(ms, {}, i));
  }

  ghost predicate LastsExactly(initial: Table, ms: Table, k: nat) {
    forall i: nat :: IsAttached(ms, i) <==> HeldUntil(initial, i, k)
  }

  // An attached module is referred to, so there is a chain.
  lemma {:induction false} AllHeldAtFirst(ms: Table, rank: seq<nat>, clock: nat, i: nat)
    requires Ranked(ms, rank, clock) && AttachedCounted(ms, -1) && IsAttached(ms, i)
    ensures HeldUntil(ms, i, 0)
    decreases clock - rank[i]
  {
    HeldUntilUnfolds(ms, i, 0);
    if Slack(ms, i) <= 0 {
      assert AttachedDependents(ms, i) != {};
      var j :| j in AttachedDependents(ms, i);
      AllHeldAtFirst(ms, rank, clock, j);
    }
  }

  lemma StartsExactly(ms: Table, rank: seq<nat>, clock: nat)
    requires Ranked(ms, rank, clock) && AttachedCounted(ms, -1)
    ensures LastsExactly(ms, ms, 0)
  {
    forall i: nat ensures IsAttached(ms, i) <==> HeldUntil(ms, i, 0) {
      if IsAttached(ms, i) { AllHeldAtFirst(ms, rank, clock, i); }
      HeldUntilUnfolds(ms, i, 0);
    }
  }

  // What one turn of the loop does: module k goes, and besides it exactly what has no
  // references any more.
  ghost predicate Turn(initial: Table, before: Table, after: Table, k: nat) {
    && |initial| == |before| == |after| && SlackFalls(initial, after, multiset{})
    && (forall i: nat :: IsAttached(after, i) ==> IsAttached(before, i) && i != k && after[i].Refs() > 0)
    && (forall i: nat :: IsAttached(before, i) && !IsAttached(after, i) && i != k ==>
          after[i].Refs() == 0 && AttachedDependents(after, i) == {})
    && (forall i: nat :: i < |initial| ==> after[i].dependencies == initial[i].dependencies)
    && forall i: nat :: IsAttached(after, i) ==> IsAttached(initial, i)
  }

  // The turn as seen from module i.
  lemma TurnFor(initial: Table, before: Table, after: Table, k: nat, i: nat)
    requires Turn(initial, before, after, k) && i < |initial|
    ensures |after| == |initial| && Slack(initial, i) == after[i].Refs() - |AttachedDependents(after, i)|
    ensures IsAttached(after, i) ==> IsAttached(before, i) && i != k && after[i].Refs() > 0
    ensures IsAttached(before, i) && !IsAttached(after, i) && i != k ==>
              after[i].Refs() == 0 && AttachedDependents(after, i) == {}
    ensures forall j: nat :: j in AttachedDependents(after, i) <==> Lists(initial, j, i) && IsAttached(after, j)
  {
    assert Slack(initial, i) == Slack(after, i);
    forall j: nat ensures j in AttachedDependents(after, i) <==> Lists(initial, j, i) && IsAttached(after, j) {
      if IsAttached(after, j) { assert IsAttached(initial, j); }
    }
  }

  lemma OwnerRanksHigher(ms: Table, rank: seq<nat>, clock: nat, j: nat, i: nat)
    requires Ranked(ms, rank, clock) && Lists(ms, j, i)
    ensures i < |ms| && rank[i] < rank[j] < clock
  {
  }

  lemma {:induction false} LastsStep(initial: Table, rank: seq<nat>, clock: nat, before: Table, after: Table, k: nat,
                                     i: nat)
    requires Ranked(initial, rank, clock) && LastsExactly(initial, before, k) && Turn(initial, before, after, k)
    requires IsAttached(initial, i)
    ensures IsAttached(after, i) <==> HeldUntil(initial, i, k + 1)
    decreases clock - rank[i]
  {
    hide HeldUntil, Slack, Turn, AttachedDependents, SlackFalls;
    HeldUntilUnfolds(initial, i, k);
    HeldUntilUnfolds(initial, i, k + 1);
    TurnFor(initial, before, after, k, i);
    forall j: nat | Lists(initial, j, i) ensures IsAttached(after, j) <==> HeldUntil(initial, j, k + 1) {
      OwnerRanksHigher(initial, rank, clock, j, i);
      LastsStep(initial, rank, clock, before, after, k, j);
    }
    if HeldUntil(initial, i, k + 1) {
      HeldLonger(initial, i, k, k + 1);
      if Slack(initial, i) <= 0 {
        var j: nat :| Lists(initial, j, i) && HeldUntil(initial, j, k + 1);
        assert j in AttachedDependents(after, i);
      }
    } else if k < i {
      assert forall j :: j in AttachedDependents(after, i) ==> Lists(initial, j, i);
      assert AttachedDependents(after, i) == {};
    }
  }

  lemma LastsOneMore(initial: Table, rank: seq<nat>, clock: nat, before: Table, after: Table, k: nat)
    requires Ranked(initial, rank, clock) && LastsExactly(initial, before, k) && Turn(initial, before, after, k)
    ensures LastsExactly(initial, after, k + 1)
  {
    forall i: nat ensures IsAttached(after, i) <==> HeldUntil(initial, i, k + 1) {
      HeldUntilUnfolds(initial, i, k + 1);
      if IsAttached(initial, i) { LastsStep(initial, rank, clock, before, after, k, i); }
    }
  }

  // A turn in which DetachModule was called on module k.
  lemma TurnTaken(initial: Table, before: Table, after: Table, rank: seq<nat>, clock: nat, k: nat, log: seq<nat>,
                  turn: seq<nat>, first: nat)
    requires DetachedBy(initial, before, log) && SlackFalls(initial, before, multiset{})
    requires Detaches(before, after, turn, first, multiset{})
    requires DetachedOne(before, after, k) || (after == before && !IsAttached(before, k))
    requires Sound(after, rank, clock, {}, multiset{}) && AttachedCounted(after, -1)
    ensures Turn(initial, before, after, k) && SlackFalls(initial, after, multiset{})
  {
    hide Slack, OwnersFirst, Ranked;
    forall i: nat | IsAttached(before, i) && !IsAttached(after, i) && i != k
      ensures after[i].Refs() == 0 && AttachedDependents(after, i) == {}
    {
      assert Rewound(before[i], after[i]) && i in turn;
      NothingRefers(after, i);
    }
  }

  lemma NothingRefers(ms: Table, i: nat)
    requires RefsCover(ms, {}, multiset{}) && i < |ms| && ms[i].staticRefs == 0
    ensures AttachedDependents(ms, i) == {}
  {
    assert Dependents(ms, {}, i) == {};
    assert forall j :: j in AttachedDependents(ms, i) ==> j in Dependents(ms, {}, i);
  }

  // ---------------------------------------------------------------- the order

  // Each module in the log has gone after exactly those of its attached owners that do not
  // last until its place in the table.
  ghost predicate OrderIs(initial: Table, log: seq<nat>) {
    forall b, j: nat :: 0 <= b < |log| && Lists(initial, j, log[b]) ==>
      (GoneBefore(log, b, j) <==> !HeldUntil(initial, j, log[b]))
  }

  lemma OrderStep(initial: Table, before: Table, after: Table, log: seq<nat>, turn: seq<nat>, k: nat)
    requires DetachedBy(initial, before, log) && OrderIs(initial, log) && LastsExactly(initial, before, k)
    requires DetachedBy(before, after, turn) && LastsExactly(initial, after, k + 1)
    requires turn == [] || (turn[0] == k && OwnersFirst(before, turn, 1))
    ensures DetachedBy(initial, after, log + turn) && OrderIs(initial, log + turn)
  {
    var all := log + turn;
    Joined(initial, before, after, log, turn);
    forall b, j: nat | 0 <= b < |all| && Lists(initial, j, all[b])
      ensures GoneBefore(all, b, j) <==> !HeldUntil(initial, j, all[b])
    {
      if b < |log| {
        assert all[..b] == log[..b];
        assert GoneBefore(log, b, j) <==> !HeldUntil(initial, j, log[b]);
      } else if b == |log| {
        assert all[..b] == log;
      } else {
        OrderWithinTurn(initial, before, after, log, turn, k, b - |log|, j);
        assert all[..b] == log + turn[..b - |log|];
      }
    }
  }

  lemma OrderWithinTurn(initial: Table, before: Table, after: Table, log: seq<nat>, turn: seq<nat>, k: nat, b: nat,
                        j: nat)
    requires DetachedBy(initial, before, log) && LastsExactly(initial, before, k)
    requires DetachedBy(before, after, turn) && LastsExactly(initial, after, k + 1)
    requires turn != [] && turn[0] == k && OwnersFirst(before, turn, 1) && 0 < b < |turn| && Lists(initial, j, turn[b])
    ensures j in log || j in turn[..b]
    ensures !HeldUntil(initial, j, turn[b])
  {
    assert IsAttached(initial, j);
    if IsAttached(before, j) {
      assert Lists(before, j, turn[b]);
      assert GoneBefore(turn, b, j);
      assert j in turn;
    }
    assert turn[b] in turn && turn[b] != turn[0];
    assert IsAttached(before, turn[b]);
    HeldUntilUnfolds(initial, turn[b], k);
    if HeldUntil(initial, j, turn[b]) { HeldLonger(initial, j, k + 1, turn[b]); }
  }

  predicate Precedes(log: seq<nat>, i: nat, d: nat) { exists b :: 0 <= b < |log| && log[b] == d && i in log[..b] }

  // Each attached module is detached once. One that depends on another goes before it, unless
  // it lasts until the place of the other in the table: then it goes after it.
  ghost predicate DetachedInOrder(initial: Table, log: seq<nat>) {
    && Distinct(log) && (forall i: nat :: i in log <==> IsAttached(initial, i))
    && forall i: nat, d: nat :: Lists(initial, i, d) && IsAttached(initial, d) ==>
         if HeldUntil(initial, i, d) then Precedes(log, d, i) else Precedes(log, i, d)
  }

  lemma NotBothWays(log: seq<nat>, i: nat, d: nat)
    requires Distinct(log)
    ensures !(Precedes(log, i, d) && Precedes(log, d, i))
  {
  }

  // Every module goes before what it depends on exactly when none lasts until the place of
  // something it depends on.
  lemma OwnersGoFirstExactlyWhen(initial: Table, log: seq<nat>)
    requires DetachedInOrder(initial, log)
    ensures (forall i: nat, d: nat :: Lists(initial, i, d) && IsAttached(initial, d) ==> Precedes(log, i, d)) <==>
            (forall i: nat, d: nat :: Lists(initial, i, d) && IsAttached(initial, d) ==> !HeldUntil(initial, i, d))
  {
    hide HeldUntil, Precedes;
    forall i: nat, d: nat { NotBothWays(log, i, d); }
  }

  // So they do when every module has its dependencies behind it in the table, ...
  lemma DependenciesBehindGoLater(initial: Table, log: seq<nat>)
    requires DetachedInOrder(initial, log)
    requires forall i: nat, d: nat :: Lists(initial, i, d) ==> i < d
    ensures forall i: nat, d: nat :: Lists(initial, i, d) && IsAttached(initial, d) ==> Precedes(log, i, d)
  {
    hide HeldUntil, Precedes;
    forall i: nat, d: nat | Lists(initial, i, d) ensures !HeldUntil(initial, i, d) { InFrontIsGone(initial, i, d); }
  }

  // ... and one that is referred to from elsewhere goes after a dependency in front of it.
  lemma DependencyInFrontGoesFirst(initial: Table, log: seq<nat>, i: nat, d: nat)
    requires DetachedInOrder(initial, log) && Lists(initial, i, d) && IsAttached(initial, d)
    requires d < i && Slack(initial, i) > 0
    ensures Precedes(log, d, i) && !Precedes(log, i, d)
  {
    ReferredGoesInTurn(initial, i, d);
    NotBothWays(log, i, d);
  }

  ghost predicate DetachingSoFar(initial: Table, ms: Table, log: seq<nat>, k: nat) {
    DetachedBy(initial, ms, log) && OrderIs(initial, log) && LastsExactly(initial, ms, k)
        && SlackFalls(initial, ms, multiset{})
  }

  lemma DetachingStarts(ms: Table, rank: seq<nat>, clock: nat)
    requires Sound(ms, rank, clock, {}, multiset{}) && AttachedCounted(ms, -1)
    ensures Ranked(ms, rank, clock) && DetachingSoFar(ms, ms, [], 0)
  {
    StartsExactly(ms, rank, clock);
  }

  lemma DetachingOn(initial: Table, before: Table, after: Table, rank: seq<nat>, clock: nat, k: nat, log: seq<nat>,
                    turn: seq<nat>)
    requires Ranked(initial, rank, clock) && DetachingSoFar(initial, before, log, k)
    requires if IsAttached(before, k)
      then DetachedOne(before, after, k) && Detaches(before, after, turn, 1, multiset{}) && turn[0] == k
      else after == before && turn == [] && Detaches(before, after, [], 0, multiset{})
    requires Sound(after, rank, clock, {}, multiset{}) && AttachedCounted(after, -1)
    ensures DetachingSoFar(initial, after, log + turn, k + 1)
  {
    hide Sound, Ranked, DetachedBy, OwnersFirst, SlackFalls, LastsExactly, OrderIs, Turn, DetachedOne;
    TurnTaken(initial, before, after, rank, clock, k, log, turn, if IsAttached(before, k) then 1 else 0);
    LastsOneMore(initial, rank, clock, before, after, k);
    OrderStep(initial, before, after, log, turn, k);
  }

  lemma DetachingEnds(initial: Table, ms: Table, rank: seq<nat>, clock: nat, log: seq<nat>)
    requires Ranked(initial, rank, clock)
    requires DetachingSoFar(initial, ms, log, |ms|) && forall i: nat :: !IsAttached(ms, i)
    ensures DetachedInOrder(initial, log)
  {
    forall i: nat, d: nat | Lists(initial, i, d) && IsAttached(initial, d)
      ensures if HeldUntil(initial, i, d) then Precedes(log, d, i) else Precedes(log, i, d)
    {
      OwnerRanksHigher(initial, rank, clock, i, d);
      assert IsAttached(initial, i) && i in log && d in log;
      var a :| 0 <= a < |log| && log[a] == i;
      var b :| 0 <= b < |log| && log[b] == d;
      assert GoneBefore(log, b, i) <==> !HeldUntil(initial, i, log[b]);
      PlacesInLog(log, a, b, i, d);
    }
  }

  lemma PlacesInLog(log: seq<nat>, a: nat, b: nat, i: nat, d: nat)
    requires Distinct(log) && a < |log| && b < |log| && log[a] == i && log[b] == d
    ensures GoneBefore(log, b, i) <==> a < b
    ensures Precedes(log, i, d) <==> a < b
    ensures Precedes(log, d, i) <==> b < a
  {
    if a < b { assert log[..b][a] == i; }
    if b < a { assert log[..a][b] == d; }
  }
}
