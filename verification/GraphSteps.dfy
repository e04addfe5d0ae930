// What the methods of the guest module graph rely on: how a table of modules changes while
// modules are detached, attached, loaded and bound to their imports
// (src/loader/module_graph.cpp).
module GraphSteps {
  import opened Ascii
  import opened GraphState
  import opened ModuleNames
  import F = Forwarder

  const MAX_FORWARDER_DEPTH: nat := 32

  datatype Event = AttachEvent(index: nat) | DetachEvent(index: nat)

  datatype Visit = Visit(name: string, target: Target)

  function Level(rank: seq<nat>, i: nat): nat { if i < |rank| then rank[i] else 0 }

  function AttachEvents(log: seq<nat>): seq<Event> {
    seq(|log|, k requires 0 <= k < |log| => AttachEvent(log[k]))
  }

  function DetachEvents(log: seq<nat>): seq<Event> {
    seq(|log|, k requires 0 <= k < |log| => DetachEvent(log[k]))
  }

  lemma DetachEventsAppend(a: seq<nat>, b: seq<nat>)
    ensures DetachEvents(a + b) == DetachEvents(a) + DetachEvents(b)
  {
  }

  ghost predicate Releasable(ms: Table, rank: seq<nat>, bound: nat, d: nat) {
    d < |ms| && ms[d].state != Resolving && Level(rank, d) < bound
  }

  // Nothing changes state except that attached modules may have been unloaded.
  ghost predicate OnlyDetaches(before: Table, after: Table) {
    |after| == |before| && forall i :: 0 <= i < |before| ==>
      && (after[i].state == before[i].state || (before[i].state == Attached && after[i].state == Unloaded))
      && after[i].dependencies == before[i].dependencies
  }

  lemma DetachesOnlyItself(ms: Table)
    ensures Rewinds(ms, ms) && OnlyDetaches(ms, ms)
  {
  }

  lemma DetachingComposes(a: Table, b: Table, c: Table)
    requires Rewinds(a, b) && OnlyDetaches(a, b) && Rewinds(b, c) && OnlyDetaches(b, c)
    ensures Rewinds(a, c) && OnlyDetaches(a, c)
  {
    RewindsCompose(a, b, c);
  }

  lemma StillReleasable(before: Table, after: Table, rank: seq<nat>, bound: nat, d: nat)
    requires Rewinds(before, after) && Releasable(before, rank, bound, d)
    ensures Releasable(after, rank, bound, d)
  {
    assert Rewound(before[d], after[d]);
  }

  lemma NoRefsNoDependents(ms: Table, rank: seq<nat>, clock: nat, leaving: set<nat>, due: multiset<nat>, d: nat)
    requires Sound(ms, rank, clock, leaving, due) && d < |ms| && ms[d].staticRefs == 0
    ensures Dependents(ms, leaving, d) == {}
  {
  }

  // What releasing walks rely on: edges of a finished module go to finished ones of lower rank.
  lemma SoundRanks(ms: Table, rank: seq<nat>, clock: nat, leaving: set<nat>, due: multiset<nat>)
    requires Sound(ms, rank, clock, leaving, due)
    ensures |rank| == |ms|
    ensures forall i: nat, d: nat {:trigger d in ms[i].dependencies} :: i < |ms| && d in ms[i].dependencies ==>
              d < |ms| && ms[d].state != Resolving && (ms[i].state != Resolving ==> rank[d] < rank[i])
  {
  }

  lemma DroppedThenRewound(before: Table, dropped: Table, after: Table, index: nat)
    requires index < |before| && before[index].state == Attached && dropped == before[index := Dropped(before[index])]
    requires Rewinds(dropped, after)
    ensures DetachedOne(before, after, index) && (before[index].Refs() == 0 ==> Rewinds(before, after))
  {
    forall i | 0 <= i < |before| && i != index ensures Rewound(before[i], after[i]) {
      assert Rewound(dropped[i], after[i]);
    }
    assert Rewound(dropped[index], after[index]);
  }

  lemma SoundLeaving(ms: Table, rank: seq<nat>, clock: nat, leaving: set<nat>, due: multiset<nat>)
    requires Sound(ms, rank, clock, leaving, due)
    ensures LeavingNotAttached(ms, leaving)
  {
  }

  lemma UnattachedKeepsClosed(ms: Table, i: nat, s: State)
    requires AttachedClosed(ms) && i < |ms| && ms[i].state != Attached && s != Attached
    ensures AttachedClosed(ms[i := ms[i].(state := s)])
  {
    var now := ms[i := ms[i].(state := s)];
    forall j: nat, d: nat | j < |now| && now[j].state == Attached && d in now[j].dependencies
      ensures d < |now| && now[d].state == Attached
    {
      assert now[j] == ms[j] && d in ms[j].dependencies;
    }
  }

  lemma AttachKeepsClosed(ms: Table, i: nat)
    requires AttachedClosed(ms) && i < |ms|
    requires forall k :: 0 <= k < |ms[i].dependencies| ==> AttachedAt(ms, ms[i].dependencies[k])
    ensures AttachedClosed(ms[i := ms[i].(state := Attached)])
  {
    var now := ms[i := ms[i].(state := Attached)];
    forall j: nat, d: nat | j < |now| && now[j].state == Attached && d in now[j].dependencies
      ensures d < |now| && now[d].state == Attached
    {
      assert now[j].dependencies == ms[j].dependencies && d in ms[j].dependencies;
      if j == i { var k :| 0 <= k < |ms[i].dependencies| && ms[i].dependencies[k] == d; }
    }
  }

  // A module listed by a live one has a reference.
  lemma ListedIsCounted(ms: Table, rank: seq<nat>, clock: nat, i: nat, d: nat)
    requires Sound(ms, rank, clock, {}, multiset{}) && i < |ms| && d in ms[i].dependencies && ms[i].Live()
    ensures d < |ms| && ms[d].staticRefs > 0
  {
    assert i in Dependents(ms, {}, d);
    SubsetSize({i}, Dependents(ms, {}, d));
  }

  lemma AttachEventsAppend(a: seq<nat>, b: seq<nat>)
    ensures AttachEvents(a + b) == AttachEvents(a) + AttachEvents(b)
  {
  }

  predicate AttachedAt(ms: Table, d: nat) { d < |ms| && ms[d].state == Attached }

  // The module being attached was rejected; the others were at most attached or detached.
  ghost predicate RejectedOne(before: Table, after: Table, index: nat) {
    && index < |before| == |after| && SameIdentity(before[index], after[index]) && after[index].state == Rejected
    && after[index].staticRefs <= before[index].staticRefs
    && forall i :: 0 <= i < |after| && i != index ==> Rewound(before[i], after[i])
  }

  lemma EmptyLog(ms: Table)
    ensures InOrder(ms, []) && AttachedBy(ms, ms, [])
  {
  }

  lemma LogIsReady(ms: Table, log: seq<nat>)
    requires InOrder(ms, log)
    ensures forall i :: i in log ==> i < |ms| && ms[i].state == Ready
  {
  }

  // The net effect of an attachment that failed, counted from when the module was ready.
  lemma RejectedOverall(before: Table, after: Table, index: nat)
    requires index < |before| && before[index].state == Ready
    requires RejectedOne(before[index := before[index].(state := Attaching)], after, index)
    ensures Rewinds(before, after)
  {
    var start := before[index := before[index].(state := Attaching)];
    forall i | 0 <= i < |before| ensures Rewound(before[i], after[i]) {
      if i != index { assert Rewound(start[i], after[i]); }
    }
  }

  // ... after some dependencies had been attached and another had failed,
  lemma AttachedThenRejected(start: Table, middle: Table, failed: Table, after: Table, log: seq<nat>, index: nat)
    requires InOrder(start, log) && AttachedBy(start, middle, log) && Rewinds(middle, failed)
    requires index < |start| && start[index].state == Attaching && RejectedOne(failed, after, index)
    ensures RejectedOne(start, after, index)
  {
    LogIsReady(start, log);
    hide InOrder;
    assert Rewound(middle[index], failed[index]) && middle[index] == start[index];
    forall i: nat | i < |start| && i != index ensures Rewound(start[i], after[i]) {
      assert Rewound(middle[i], failed[i]) && Rewound(failed[i], after[i]);
    }
  }

  // ... or after all of them had been attached.
  lemma AttachedThenRewound(start: Table, attached: Table, after: Table, log: seq<nat>, index: nat)
    requires InOrder(start, log) && AttachedBy(start, attached, log)
    requires index < |start| && start[index].state == Attaching && RejectedOne(attached, after, index)
    ensures RejectedOne(start, after, index)
  {
    forall i | 0 <= i < |attached| ensures Rewound(attached[i], attached[i]) { }
    AttachedThenRejected(start, attached, attached, after, log, index);
  }

  lemma FinishLog(before: Table, start: Table, after: Table, log: seq<nat>, index: nat)
    requires index < |before| && before[index].state == Ready
    requires start == before[index := before[index].(state := Attaching)]
    requires InOrder(start, log) && |after| == |before|
    requires after[index] == before[index].(state := Attached)
    requires forall i: nat :: i < |before| && i != index ==>
      after[i] == if i in log then start[i].(state := Attached) else start[i]
    requires forall k :: 0 <= k < |before[index].dependencies| ==>
      before[index].dependencies[k] != index && AttachedAt(after, before[index].dependencies[k])
    ensures InOrder(before, log + [index]) && AttachedBy(before, after, log + [index])
    ensures Rewinds(before, after)
  {
    var full := log + [index];
    forall k, d: nat | 0 <= k < |full| && d in before[full[k]].dependencies ensures Earlier(before, full, k, d) {
      if k < |log| {
        assert full[k] == log[k];
        assert Earlier(start, log, k, d);
        assert full[..k] == log[..k];
      } else {
        var j :| 0 <= j < |before[index].dependencies| && before[index].dependencies[j] == d;
        assert full[..k] == log;
      }
    }
  }

  // ---------------------------------------------------------------- loading

  predicate NamedLive(m: LoadedModule, name: string, provider: Provider) {
    m.provider == provider && m.Live() && IEquals(m.name, name)
  }

  predicate Failed(m: LoadedModule, name: string, provider: Provider) {
    m.provider == provider && Named(m, name) && !m.Live()
  }

  predicate NamedFinished(m: LoadedModule, name: string, provider: Provider) {
    NamedLive(m, name, provider) && m.state != Resolving
  }

  // A name belongs to at most one live module of a provider, and for the profile only if it
  // is listed and not rejected.
  lemma NameFacts(ms: Table, rejected: seq<string>, listed: seq<string>, page: nat, name: string, provider: Provider)
    requires Resources(ms, rejected, listed, page)
    ensures forall i, j {:trigger NamedLive(ms[i], name, provider), NamedLive(ms[j], name, provider)} ::
              0 <= i < |ms| && 0 <= j < |ms| && NamedLive(ms[i], name, provider) && NamedLive(ms[j], name, provider) ==>
                i == j
    ensures forall i :: 0 <= i < |ms| && NamedLive(ms[i], name, Profile) ==>
      IsListed(listed, name) && !IsRejected(rejected, name)
  {
    forall i, j | 0 <= i < j < |ms| && NamedLive(ms[i], name, provider) && NamedLive(ms[j], name, provider)
      ensures false
    {
      IEqualsTransitive(ms[i].name, name, ms[j].name);
    }
    forall i | 0 <= i < |ms| && NamedLive(ms[i], name, Profile)
      ensures IsListed(listed, name) && !IsRejected(rejected, name)
    {
      SameName(rejected, ms[i].name, name);
      SameName(listed, ms[i].name, name);
    }
  }

  lemma SameName(names: seq<string>, a: string, b: string)
    requires IEquals(a, b)
    ensures IsListed(names, a) == IsListed(names, b) && IsRejected(names, a) == IsRejected(names, b)
  {
    forall k | 0 <= k < |names| ensures IEquals(names[k], a) == IEquals(names[k], b) {
      IEqualsTransitive(a, b, names[k]);
      if IEquals(names[k], a) { IEqualsTransitive(names[k], a, b); }
      if IEquals(names[k], b) { IEqualsTransitive(names[k], b, a); }
    }
  }

  lemma NothingAttached(ms: Table)
    requires forall i :: 0 <= i < |ms| ==> ms[i].state != Attached
    ensures AttachedClosed(ms)
  {
  }

  lemma HeldAfterDetach(before: Table, after: Table, tornDown: bool)
    requires Held(before, tornDown) && OnlyDetaches(before, after) && SameIdentities(before, after)
    ensures Held(after, true)
  {
    forall i | 0 <= i < |after| && after[i].dynamicRefs > 0 && after[i].Live() ensures after[i].state == Attached {
      assert SameIdentity(before[i], after[i]);
    }
  }

  lemma DetachedKeepsIdentities(start: Table, before: Table, after: Table, k: nat)
    requires SameIdentities(start, before) && OnlyDetaches(start, before) && k < |before|
    requires after == before || DetachedOne(before, after, k)
    requires OnlyDetaches(before, after)
    ensures SameIdentities(start, after) && OnlyDetaches(start, after)
  {
    forall i | 0 <= i < |start| ensures SameIdentity(start[i], after[i]) {
      assert SameIdentity(start[i], before[i]);
      if after != before && i != k { assert Rewound(before[i], after[i]); }
    }
  }

  // The first k modules are attached if anyone refers to them.
  ghost predicate ReferencedAttached(ms: Table, k: nat) {
    k <= |ms| && forall i :: 0 <= i < k && ms[i].Live() && ms[i].Refs() > 0 ==> ms[i].state == Attached
  }

  lemma NoneReferenced(ms: Table)
    ensures ReferencedAttached(ms, 0)
  {
  }

  lemma OneMoreAttached(before: Table, after: Table, k: nat)
    requires ReferencedAttached(before, k) && k < |before|
    requires AttachesOnly(before, after) || after == before
    requires |after| == |before|
    requires after[k].state == Attached || (after == before && !(before[k].Live() && before[k].Refs() > 0))
    ensures ReferencedAttached(after, k + 1)
  {
  }

  lemma AttachedByOnly(before: Table, after: Table, log: seq<nat>)
    requires AttachedBy(before, after, log) && InOrder(before, log)
    ensures AttachesOnly(before, after)
  {
    LogIsReady(before, log);
  }

  lemma GrowsForNoOwner(before: Table, after: Table)
    requires GrowsFor(before, after, None)
    ensures Grows(before, after)
  {
  }

  // Holding one module more and trying to attach it, seen from before the call.
  lemma HeldMore(before: Table, held: Table, after: Table, index: nat, tornDown: bool)
    requires index < |before| && held == before[index := before[index].(dynamicRefs := before[index].dynamicRefs + 1)]
    requires Settled(before) && Held(before, tornDown) && Evolves(held, after) && Rewinds(held, after)
    requires |after| == |before| && (after[index].state == Attached || !after[index].Live())
    ensures Evolves(before, after) && OneMore(before, after, Some(index)) && Settled(after)
    ensures after[index].state == Attached ==> Held(after, tornDown)
    ensures after[index].state != Attached ==>
      var back := after[index := after[index].(dynamicRefs := before[index].dynamicRefs)];
      Evolves(before, back) && OneMore(before, back, None) && Settled(back) && Held(back, tornDown)
  {
    forall i | 0 <= i < |before| ensures Evolved(before[i], after[i]) && Rewound(held[i], after[i]) {
      assert Evolved(held[i], after[i]);
    }
  }

  // The module a library handle stands for: it is live and mapped there.
  predicate Owns(m: LoadedModule, handle: nat) {
    handle != 0 && m.Live() && m.image.At? && m.image.base == handle
  }

  predicate Named(m: LoadedModule, name: string) { IEquals(m.name, name) }

  predicate BuiltinNamed(names: seq<string>, n: int, name: string) { 0 <= n < |names| && IEquals(names[n], name) }

  lemma IEqualsReflexive(name: string)
    ensures IEquals(name, name)
  {
  }

  // The names the profile may still provide.
  ghost function StillListed(listed: seq<string>, rejected: seq<string>): set<nat> {
    set k: nat | k < |listed| && !IsRejected(rejected, listed[k])
  }

  ghost function Unrejected(listed: seq<string>, rejected: seq<string>): nat { |StillListed(listed, rejected)| }

  lemma FewerLeft(listed: seq<string>, before: seq<string>, after: seq<string>, name: string)
    requires before <= after && IsListed(listed, name) && !IsRejected(before, name) && IsRejected(after, name)
    ensures Unrejected(listed, after) < Unrejected(listed, before)
  {
    var was, now := StillListed(listed, before), StillListed(listed, after);
    RejectedStays(before, after);
    var k :| 0 <= k < |listed| && IEquals(listed[k], name);
    SameName(before, listed[k], name);
    SameName(after, listed[k], name);
    assert k in was && k !in now;
    ProperSubsetSize(now, was, k);
  }

  lemma AtMostListed(listed: seq<string>, rejected: seq<string>)
    ensures Unrejected(listed, rejected) <= |listed|
  {
    SubsetSize(StillListed(listed, rejected), UpTo(|listed|));
  }

  ghost function UpTo(n: nat): (r: set<nat>)
    ensures |r| == n && forall k: nat :: k in r <==> k < n
  {
    if n == 0 then {} else UpTo(n - 1) + {n - 1}
  }

  lemma NoMoreLeft(listed: seq<string>, before: seq<string>, after: seq<string>)
    requires before <= after
    ensures Unrejected(listed, after) <= Unrejected(listed, before)
  {
    RejectedStays(before, after);
    SubsetSize(StillListed(listed, after), StillListed(listed, before));
  }

  lemma RejectedStays(before: seq<string>, after: seq<string>)
    requires before <= after
    ensures forall name :: IsRejected(before, name) ==> IsRejected(after, name)
  {
    forall name | IsRejected(before, name) ensures IsRejected(after, name) {
      var k :| 0 <= k < |before| && IEquals(before[k], name);
      assert after[k] == before[k];
    }
  }

  lemma ProperSubsetSize(a: set<nat>, b: set<nat>, x: nat)
    requires a <= b && x in b && x !in a
    ensures |a| < |b|
  {
    SubsetSize(a, b - {x});
  }

  function CountOr0(counts: seq<nat>, n: nat): nat { if n < |counts| then counts[n] else 0 }

  // The counts of the built-in modules are as before, with one more reference to holder.
  ghost predicate OneMoreCount(before: seq<nat>, after: seq<nat>, holder: Option<nat>) {
    |before| <= |after| && forall n: nat :: n < |after| ==>
      after[n] == CountOr0(before, n) + if holder == Some(n) then 1 else 0
  }

  lemma CountOne(before: seq<nat>, middle: seq<nat>, n: nat)
    requires middle == before || middle == before + [0]
    requires n < |middle|
    ensures OneMoreCount(before, middle[n := middle[n] + 1], Some(n))
  {
  }

  lemma SameCounts(counts: seq<nat>)
    ensures OneMoreCount(counts, counts, None)
  {
  }

  lemma EvolvesNot(ms: Table)
    ensures Evolves(ms, ms) && OneMore(ms, ms, None)
  {
  }

  lemma EvolvedName(before: Table, after: Table, i: nat)
    requires Evolves(before, after) && i < |before|
    ensures after[i].name == before[i].name && after[i].provider == before[i].provider
  {
    assert Evolved(before[i], after[i]);
  }

  predicate AttachedNamed(ms: Table, i: int, name: string, provider: Provider) {
    0 <= i < |ms| && ms[i].state == Attached && NamedFinished(ms[i], name, provider)
  }

  function HeldOnce(ms: Table, i: int): Table
  {
    if 0 <= i < |ms| then ms[i := ms[i].(dynamicRefs := ms[i].dynamicRefs + 1)] else ms
  }

  function HeldLessOnce(ms: Table, i: nat): Table
    requires i < |ms| && ms[i].dynamicRefs > 0
  {
    ms[i := ms[i].(dynamicRefs := ms[i].dynamicRefs - 1)]
  }

  // One dynamic reference less, while others may remain.
  lemma CountDown(ms: Table, rank: seq<nat>, clock: nat, d: nat)
    requires Sound(ms, rank, clock, {}, multiset{}) && d < |ms| && ms[d].dynamicRefs > 0
    ensures var now := ms[d := ms[d].(dynamicRefs := ms[d].dynamicRefs - 1)];
      && Sound(now, rank, clock, {}, multiset{}) && (AttachedClosed(ms) ==> AttachedClosed(now))
      && SameResources(ms, now) && (AttachedCounted(ms, -1) ==> AttachedCounted(now, d))
  {
    hide Sound, AttachedClosed;
    CountStep(ms, rank, clock, d, ms[d].staticRefs, ms[d].dynamicRefs - 1);
    var now := ms[d := ms[d].(staticRefs := ms[d].staticRefs, dynamicRefs := ms[d].dynamicRefs - 1)];
    assert now == ms[d := ms[d].(dynamicRefs := ms[d].dynamicRefs - 1)];
  }

  lemma LetGo(before: Table, now: Table, after: Table, index: nat)
    requires index < |before| && before[index].dynamicRefs > 0 && |after| == |before|
    requires now == before[index := before[index].(dynamicRefs := before[index].dynamicRefs - 1)]
    requires after == now || (Rewinds(now, after) && Evolves(now, after))
    ensures Evolves(before, after) && OneMore(after, before, Some(index))
  {
    forall i | 0 <= i < |before|
      ensures Evolved(before[i], after[i]) && after[i].dynamicRefs == now[i].dynamicRefs
    {
      if after != now { assert Evolved(now[i], after[i]) && Rewound(now[i], after[i]); }
    }
  }

  lemma HeldLess(before: Table, now: Table, after: Table, index: nat, tornDown: bool)
    requires index < |before| && before[index].dynamicRefs > 0 && |after| == |before|
    requires now == before[index := before[index].(dynamicRefs := before[index].dynamicRefs - 1)]
    requires after == now || Rewinds(now, after)
    requires Settled(before) && Held(before, tornDown)
    ensures Settled(after) && Held(after, tornDown)
  {
    assert Settled(now) && Held(now, tornDown);
    if after != now { RewindingEvolves(now, after); }
  }

  lemma SoundDistinct(ms: Table, rank: seq<nat>, clock: nat, leaving: set<nat>, due: multiset<nat>, i: nat)
    requires Sound(ms, rank, clock, leaving, due) && i < |ms|
    ensures Distinct(ms[i].dependencies)
  {
  }

  lemma SoundWithLessDue(ms: Table, rank: seq<nat>, clock: nat, leaving: set<nat>, due: multiset<nat>,
                         less: multiset<nat>)
    requires Sound(ms, rank, clock, leaving, due) && less <= due
    ensures Sound(ms, rank, clock, leaving, less)
  {
  }

  // The table after loading module index failed: earlier modules as before, with each edge
  // from index to one of them counted.
  ghost predicate GrewWithEdges(before: Table, full: Table, index: nat) {
    && |before| == index < |full| && ExcessKept(before, full)
    && forall i :: 0 <= i < index ==>
         && full[i] == before[i].(staticRefs := full[i].staticRefs)
         && before[i].staticRefs + (if i in full[index].dependencies then 1 else 0) <= full[i].staticRefs
  }

  // The first k edges from index to earlier modules have been given up.
  ghost predicate ReleasedPrefix(full: Table, now: Table, index: nat, dependencies: seq<nat>, k: nat) {
    && k <= |dependencies| && index < |now| == |full| && now[index] == full[index]
    && forall i :: 0 <= i < |full| ==>
         && now[i] == full[i].(staticRefs := now[i].staticRefs)
         && now[i].staticRefs + (if i < index && i in dependencies[..k] then 1 else 0) == full[i].staticRefs
  }

  // The end of the highest mapping.
  function TopOf(ms: Table): nat {
    if ms == [] then 0
    else
      var m, rest := ms[|ms| - 1], TopOf(ms[..|ms| - 1]);
      if m.image.At? && m.image.base + m.image.size > rest then m.image.base + m.image.size else rest
  }

  lemma {:induction false} BelowTop(ms: Table, i: nat)
    requires i < |ms|
    ensures ms[i].image.At? ==> ms[i].image.base + ms[i].image.size <= TopOf(ms)
    decreases |ms|
  {
    if i < |ms| - 1 { BelowTop(ms[..|ms| - 1], i); }
  }

  lemma NothingReleased(full: Table, index: nat, dependencies: seq<nat>)
    requires index < |full|
    ensures ReleasedPrefix(full, full, index, dependencies, 0)
  {
  }

  lemma ReleaseStaysAttached(before: Table, full: Table, now: Table, index: nat, dependencies: seq<nat>, k: nat)
    requires GrewWithEdges(before, full, index) && dependencies == full[index].dependencies && Distinct(dependencies)
    requires AttachedCounted(before, -1) && ReleasedPrefix(full, now, index, dependencies, k)
    requires k < |dependencies| && dependencies[k] < index
    requires full[dependencies[k]].state != Resolving
    ensures now[dependencies[k]].state != Resolving
    ensures now[dependencies[k]].Refs() > 1 || now[dependencies[k]].state != Attached
  {
    assert dependencies[k] in full[index].dependencies;
    assert dependencies[k] !in dependencies[..k];
  }

  lemma ReleasedOneMore(full: Table, middle: Table, now: Table, index: nat, dependencies: seq<nat>, k: nat)
    requires ReleasedPrefix(full, middle, index, dependencies, k) && k < |dependencies| && Distinct(dependencies)
    requires dependencies[k] < |full|
    requires if dependencies[k] < index
      then middle[dependencies[k]].staticRefs > 0
           && now == middle[dependencies[k] :=
                              middle[dependencies[k]].(staticRefs := middle[dependencies[k]].staticRefs - 1)]
      else now == middle
    ensures ReleasedPrefix(full, now, index, dependencies, k + 1)
  {
    assert dependencies[..k + 1] == dependencies[..k] + [dependencies[k]];
    assert dependencies[k] !in dependencies[..k];
  }

  lemma TruncatedStates(ms: Table, n: nat)
    requires n <= |ms|
    ensures AttachedCounted(ms, -1) ==> AttachedCounted(ms[..n], -1)
    ensures NoneAttaching(ms) ==> NoneAttaching(ms[..n])
  {
  }

  // The modules loaded on behalf of module index that depend on d.
  ghost function LeftBehind(ms: Table, index: nat, d: nat): set<nat> {
    set i: nat | index < i < |ms| && ms[i].Live() && d in ms[i].dependencies
  }

  lemma DroppedDependents(full: Table, cut: Table, index: nat, d: nat)
    requires |cut| == index < |full| && full[index].Live()
    requires forall i :: 0 <= i < index ==>
      cut[i].Live() == full[i].Live() && cut[i].dependencies == full[i].dependencies
    ensures |Dependents(full, {}, d)| ==
            |Dependents(cut, {}, d)| + |LeftBehind(full, index, d)| + if d in full[index].dependencies then 1 else 0
  {
    var kept, left := Dependents(cut, {}, d), LeftBehind(full, index, d);
    var own: set<nat> := if d in full[index].dependencies then {index} else {};
    forall i: nat ensures i in Dependents(full, {}, d) <==> i in kept || i in left || i in own { }
    assert forall i :: i in kept ==> i < index;
    assert forall i :: i in left ==> index < i;
    hide Dependents, LeftBehind;
    assert Dependents(full, {}, d) == kept + left + own;
    ThreeParts(kept, left, own, index);
  }

  lemma ThreeParts(kept: set<nat>, left: set<nat>, own: set<nat>, index: nat)
    requires forall i :: i in kept ==> i < index
    requires forall i :: i in left ==> index < i
    requires own <= {index}
    ensures |kept + left + own| == |kept| + |left| + |own|
  {
    assert |kept + left| == |kept| + |left| by { assert kept !! left; }
    assert |kept + left + own| == |kept + left| + |own| by { assert (kept + left) !! own; }
  }

  // A failed load gives up the edges of the module itself, but not those of the modules
  // loaded on its behalf: each of these leaves one reference too many behind.
  lemma DroppedExcess(full: Table, now: Table, index: nat, dependencies: seq<nat>, d: nat)
    requires d < index < |full| && dependencies == full[index].dependencies && full[index].Live()
    requires ReleasedPrefix(full, now, index, dependencies, |dependencies|)
    ensures Excess(now[..index], d) == Excess(full, d) + |LeftBehind(full, index, d)|
  {
    hide Dependents, LeftBehind;
    assert dependencies[..|dependencies|] == dependencies;
    DroppedDependents(full, now[..index], index, d);
  }

  // So a count equals the number of dependents, plus what it exceeded it by before, exactly
  // when none of the modules loaded on behalf of the failed one depends on d.
  lemma DroppingKeepsCountsExactlyWhen(full: Table, now: Table, index: nat, d: nat)
    requires d < index < |full| && full[index].Live()
    requires ReleasedPrefix(full, now, index, full[index].dependencies, |full[index].dependencies|)
    ensures now[d].staticRefs == |Dependents(now[..index], {}, d)| + Excess(full, d) <==>
            forall i :: index < i < |full| && full[i].Live() ==> d !in full[i].dependencies
  {
    DroppedExcess(full, now, index, full[index].dependencies, d);
    var left := LeftBehind(full, index, d);
    if i :| index < i < |full| && full[i].Live() && d in full[i].dependencies {
      assert i in left;
    } else {
      assert left == {};
    }
  }

  lemma RollBackTable(before: Table, full: Table, now: Table, index: nat, dependencies: seq<nat>)
    requires GrewWithEdges(before, full, index) && dependencies == full[index].dependencies && full[index].Live()
    requires EdgesInRange(before) && ReleasedPrefix(full, now, index, dependencies, |dependencies|)
    ensures Grows(before, now[..index]) && SameResources(full[..index], now[..index])
    ensures forall d: nat :: d < index ==> Excess(now[..index], d) == Excess(full, d) + |LeftBehind(full, index, d)|
    ensures forall i: nat, d: nat {:trigger d in now[i].dependencies} :: i < index && d in now[i].dependencies ==>
              d < index
  {
    assert dependencies[..|dependencies|] == dependencies;
    forall d: nat | d < index ensures Excess(now[..index], d) == Excess(full, d) + |LeftBehind(full, index, d)| {
      DroppedExcess(full, now, index, dependencies, d);
    }
    forall i: nat, d: nat | i < index && d in now[i].dependencies ensures d < index {
      assert d in before[i].dependencies;
    }
  }

  lemma PushedThenGrown(before: Table, pushed: Table, now: Table)
    requires |pushed| == |before| + 1 && pushed[..|before|] == before && pushed[|before|].dependencies == []
    requires pushed[|before|].state == Resolving && GrowsFor(pushed, now, Some(|before|))
    ensures GrewWithEdges(before, now, |before|) && now[|before|].state == Resolving
  {
    PushedExcess(before, pushed);
    forall i | 0 <= i < |before| ensures before[i] == pushed[i] { assert pushed[..|before|][i] == pushed[i]; }
  }

  lemma PushedExcess(before: Table, pushed: Table)
    requires |pushed| == |before| + 1 && pushed[..|before|] == before && pushed[|before|].dependencies == []
    ensures ExcessKept(before, pushed)
  {
    forall d: nat | d < |before| ensures Excess(before, d) <= Excess(pushed, d) {
      assert pushed[..|before|][d] == pushed[d];
      assert Dependents(pushed, {}, d) == Dependents(before, {}, d);
    }
  }

  lemma FinishedExcess(ms: Table, index: nat, bound: seq<ResolvedImport>)
    requires index < |ms| && ms[index].Live()
    ensures ExcessKept(ms, ms[index := Readied(ms[index], bound)])
  {
    var now := ms[index := Readied(ms[index], bound)];
    forall d: nat | d < |ms| ensures Excess(ms, d) <= Excess(now, d) {
      assert Dependents(now, {}, d) == Dependents(ms, {}, d);
    }
  }

  lemma FinishedGrows(before: Table, pushed: Table, full: Table, now: Table, index: nat, bound: seq<ResolvedImport>)
    requires |before| == index && |pushed| == index + 1 && pushed[..index] == before && pushed[index].dependencies == []
    requires ExcessKept(pushed, full) && index < |full| && full[index].state == Resolving
    requires now == full[index := Readied(full[index], bound)]
    requires index < |now| && NewlyLoaded(now[index])
    requires forall i :: 0 <= i < index ==>
      now[i] == pushed[i].(staticRefs := now[i].staticRefs) && pushed[i].staticRefs <= now[i].staticRefs
    requires forall i :: index < i < |now| ==> NewlyLoaded(now[i])
    ensures Grows(before, now)
  {
    PushedExcess(before, pushed);
    FinishedExcess(full, index, bound);
    forall i | 0 <= i < index
      ensures now[i] == before[i].(staticRefs := now[i].staticRefs) && before[i].staticRefs <= now[i].staticRefs
    {
      assert pushed[i] == pushed[..index][i];
    }
  }

  predicate SameVisit(visits: seq<Visit>, name: string, target: Target) {
    exists k :: 0 <= k < |visits| && IEquals(visits[k].name, name) && visits[k].target == target
  }

  function BuiltinQuery(name: string, target: Target): F.Query {
    match target
    case NamedExport(symbol) => F.Named(name, symbol)
    case OrdinalExport(ordinal) => F.ByOrdinal(name, ordinal)
  }

  ghost predicate BuiltinSupplies(builtins: seq<F.Module>, name: string, target: Target, address: nat) {
    var r := F.Resolve(builtins, BuiltinQuery(name, target), F.MAX_FORWARDER_DEPTH);
    r.Found? && r.entry.address == address
  }

  // Where an address for a name and target comes from: a guest module of that name that has
  // the export, or forwards it over so many links to whoever has it, or the built-in modules.
  ghost predicate Supplied(ms: Table, builtins: seq<F.Module>, name: string, target: Target, address: nat,
                           provider: Option<nat>, links: nat)
    decreases links, 0
  {
    match provider
    case None => BuiltinSupplies(builtins, name, target, address)
    case Some(d) =>
      d < |ms| && Named(ms[d], name)
      && match FirstExport(ms[d].info.exports, target)
         case None => false
         case Some(e) =>
           match e.forward
           case NoForward => address == ExportAddress(ms[d], e.rva)
           case BadForward => false
           case ForwardTo(dll, next) =>
             links > 0 && SuppliedBySome(ms, builtins, Normalize(dll), next, address, links - 1)
  }

  ghost predicate SuppliedBySome(ms: Table, builtins: seq<F.Module>, name: string, target: Target, address: nat,
                                 links: nat)
    decreases links, 1
  {
    exists p :: Supplied(ms, builtins, name, target, address, p, links)
  }

  // A module that forwards the target supplies what the next one does.
  lemma ForwardSupplies(ms: Table, builtins: seq<F.Module>, name: string, target: Target, address: nat, d: nat,
                        e: Export, p: Option<nat>, links: nat)
    requires d < |ms| && Named(ms[d], name) && FirstExport(ms[d].info.exports, target) == Some(e)
    requires e.forward.ForwardTo?
    requires Supplied(ms, builtins, Normalize(e.forward.dll), e.forward.target, address, p, links)
    ensures Supplied(ms, builtins, name, target, address, Some(d), links + 1)
  {
    hide FirstExport, Normalize, IEquals, BuiltinSupplies;
  }

  ghost predicate Offers(ms: Table, i: int, name: string, target: Target) {
    0 <= i < |ms| && NamedFinished(ms[i], name, Profile) && FirstExport(ms[i].info.exports, target).Some?
  }

  // Records keep what they export and where.
  ghost predicate SameExports(before: Table, after: Table) {
    |before| <= |after| && forall i :: 0 <= i < |before| ==>
      after[i].name == before[i].name && after[i].info == before[i].info && after[i].image == before[i].image
  }

  lemma {:induction false} StaysSupplied(before: Table, after: Table, builtins: seq<F.Module>, name: string,
                                         target: Target, address: nat, provider: Option<nat>, links: nat)
    requires Supplied(before, builtins, name, target, address, provider, links) && SameExports(before, after)
    ensures Supplied(after, builtins, name, target, address, provider, links)
    decreases links
  {
    hide FirstExport, BuiltinSupplies, IEquals, Normalize;
    if provider.Some? {
      var e := FirstExport(before[provider.value].info.exports, target).value;
      if e.forward.ForwardTo? {
        var p :| Supplied(before, builtins, Normalize(e.forward.dll), e.forward.target, address, p, links - 1);
        StaysSupplied(before, after, builtins, Normalize(e.forward.dll), e.forward.target, address, p, links - 1);
      }
    }
  }

  lemma GrowingKeepsExports(before: Table, after: Table, owner: Option<nat>)
    requires GrowsFor(before, after, owner)
    ensures SameExports(before, after)
  {
    forall i | 0 <= i < |before|
      ensures after[i].name == before[i].name && after[i].info == before[i].info && after[i].image == before[i].image
    {
      if owner != Some(i) { assert after[i] == before[i].(staticRefs := after[i].staticRefs); }
    }
  }

  lemma SameExportsItself(ms: Table)
    ensures SameExports(ms, ms)
  {
  }

  lemma SameExportsCounted(ms: Table, d: nat)
    requires d < |ms|
    ensures SameExports(ms, ms) && SameExports(ms, ms[d := ms[d].(staticRefs := ms[d].staticRefs + 1)])
  {
  }

  // No module but the owner lists more or fewer modules.
  ghost predicate SameEdges(before: Table, after: Table, owner: Option<nat>) {
    |after| == |before| && forall i: nat :: i < |before| && owner != Some(i) ==>
      after[i].dependencies == before[i].dependencies && after[i].bound == before[i].bound
  }

  lemma SameEdgesItself(ms: Table, owner: Option<nat>)
    ensures SameEdges(ms, ms, owner)
  {
  }

  lemma SameEdgesCounted(ms: Table, owner: Option<nat>, d: nat)
    requires d < |ms|
    ensures SameEdges(ms, ms[d := ms[d].(staticRefs := ms[d].staticRefs + 1)], owner)
  {
  }

  lemma SameEdgesEdge(ms: Table, o: nat, d: nat)
    requires o < |ms| && d < |ms| && o != d
    ensures SameEdges(ms, WithEdge(ms, o, d), Some(o))
  {
  }

  lemma SameExportsEdge(ms: Table, o: nat, d: nat)
    requires o < |ms| && d < |ms| && o != d
    ensures SameExports(ms, WithEdge(ms, o, d))
  {
  }

  // Every resolved import got its address from where it says.
  ghost predicate AllSupplied(ms: Table, builtins: seq<F.Module>, imports: seq<Import>, entries: seq<ResolvedImport>) {
    |entries| <= |imports| && forall k :: 0 <= k < |entries| && entries[k].resolved ==>
      Supplied(ms, builtins, Normalize(imports[k].dll), imports[k].target, entries[k].address, entries[k].provider,
               MAX_FORWARDER_DEPTH)
  }

  lemma StayAllSupplied(before: Table, after: Table, builtins: seq<F.Module>, imports: seq<Import>,
                        entries: seq<ResolvedImport>)
    requires AllSupplied(before, builtins, imports, entries) && SameExports(before, after)
    ensures AllSupplied(after, builtins, imports, entries)
  {
    hide Supplied, Normalize, SameExports;
    forall k | 0 <= k < |entries| && entries[k].resolved
      ensures Supplied(after, builtins, Normalize(imports[k].dll), imports[k].target, entries[k].address,
                       entries[k].provider,
               MAX_FORWARDER_DEPTH)
    {
      StaysSupplied(before, after, builtins, Normalize(imports[k].dll), imports[k].target, entries[k].address,
                    entries[k].provider, MAX_FORWARDER_DEPTH);
    }
  }

  lemma OneMoreSupplied(ms: Table, builtins: seq<F.Module>, imports: seq<Import>, entries: seq<ResolvedImport>,
                        e: ResolvedImport)
    requires AllSupplied(ms, builtins, imports, entries) && |entries| < |imports|
    requires var i := imports[|entries|];
      e.resolved ==> Supplied(ms, builtins, Normalize(i.dll), i.target, e.address, e.provider, MAX_FORWARDER_DEPTH)
    ensures AllSupplied(ms, builtins, imports, entries + [e])
  {
    hide Supplied, Normalize;
  }

  lemma NoneSupplied(ms: Table, builtins: seq<F.Module>, imports: seq<Import>)
    ensures AllSupplied(ms, builtins, imports, [])
  {
  }

  // What the entries say of the owner's imports is what its import table may hold.
  lemma EntriesBound(before: Table, after: Table, builtins: seq<F.Module>, o: nat, imports: seq<Import>,
                     entries: seq<ResolvedImport>)
    requires Bound(before, after, Some(o), entries) && AllSupplied(after, builtins, imports, entries)
    requires |entries| == |imports| && AllResolved(entries) && after[o].info.imports == imports
    ensures SlotsBound(after[o := Readied(after[o], entries)], o)
  {
    hide FirstExport, Normalize, IEquals, BuiltinSupplies;
    var now := after[o := Readied(after[o], entries)];
    forall k: nat | k < |imports| ensures SlotBound(now, o, k) {
      assert Provided(entries[k], |after|) && entries[k].resolved;
      if entries[k].provider.Some? { ProviderIsCounted(entries, k, entries[k].provider.value); }
    }
  }

  lemma {:induction false} ProviderIsCounted(entries: seq<ResolvedImport>, k: nat, g: nat)
    requires k < |entries| && entries[k].resolved && entries[k].provider == Some(g)
    ensures ProviderCount(entries, g) > 0
  {
    if k < |entries| - 1 { ProviderIsCounted(entries[..|entries| - 1], k, g); }
  }

  lemma {:induction false} CountedIsProvider(entries: seq<ResolvedImport>, g: nat) returns (k: nat)
    requires ProviderCount(entries, g) > 0
    ensures k < |entries| && entries[k].resolved && entries[k].provider == Some(g)
  {
    k := |entries| - 1;
    if !(entries[k].resolved && entries[k].provider == Some(g)) { k := CountedIsProvider(entries[..k], g); }
  }

  predicate LiesIn(m: LoadedModule, address: nat) {
    m.image.At? && m.image.base <= address < m.image.base + m.image.size
  }

  // The module exports the target, but not itself.
  ghost predicate LeadsElsewhere(m: LoadedModule, target: Target) {
    match FirstExport(m.info.exports, target)
    case None => false
    case Some(e) => !e.forward.NoForward?
  }

  lemma BoundIsMapped(ms: Table, i: nat, k: nat)
    requires ImportsBound(ms) && AttachedClosed(ms) && MappedWhileLive(ms)
    requires i < |ms| && ms[i].state == Attached && k < |ms[i].info.imports|
    ensures k < |ms[i].bound| && ms[i].bound[k].address != 0
    ensures ms[i].bound[k].provider.Some? ==>
      var d := ms[i].bound[k].provider.value;
      && d < |ms| && (d == i || d in ms[i].dependencies) && ms[d].state == Attached
      && (LiesIn(ms[d], ms[i].bound[k].address) || LeadsElsewhere(ms[d], ms[i].info.imports[k].target))
  {
    hide FirstExport;
    assert SlotsBound(ms, i);
    assert SlotBound(ms, i, k);
  }

  lemma {:induction false} FirstExportAt(exports: seq<Export>, target: Target, k: nat)
    requires k <= |exports| && forall j :: 0 <= j < k ==> !Matches(exports[j], target)
    requires k < |exports| ==> Matches(exports[k], target)
    ensures FirstExport(exports, target) == if k < |exports| then Some(exports[k]) else None
    decreases k
  {
    if k > 0 { FirstExportAt(exports[1..], target, k - 1); }
  }

  lemma GrowsForNobody(ms: Table, owner: Option<nat>)
    requires owner.Some? ==> owner.value < |ms|
    ensures GrowsFor(ms, ms, owner)
  {
  }

  // ---------------------------------------------------------------- imports and edges

  function ProviderCount(entries: seq<ResolvedImport>, d: nat): nat {
    if entries == [] then 0
    else ProviderCount(entries[..|entries| - 1], d)
         + if entries[|entries| - 1].resolved && entries[|entries| - 1].provider == Some(d) then 1 else 0
  }

  // A resolved entry has an address, and its provider, if a guest, is in the table.
  predicate Provided(e: ResolvedImport, n: nat) {
    e.resolved ==> e.address != 0 && (e.provider.Some? ==> e.provider.value < n)
  }

  function StaticsBefore(before: Table, d: nat): nat { if d < |before| then before[d].staticRefs else 0 }

  // What resolving imports has recorded. Resolved entries have addresses. The owner's new
  // edges are exactly the guest modules that provide for it, other than itself; the main
  // image has no edges, but each of its guest imports is counted.
  ghost predicate Bound(before: Table, after: Table, owner: Option<nat>, entries: seq<ResolvedImport>) {
    && (forall k :: 0 <= k < |entries| ==> Provided(entries[k], |after|))
    && match owner
       case None =>
         forall d: nat :: d < |after| ==> StaticsBefore(before, d) + ProviderCount(entries, d) <= after[d].staticRefs
       case Some(o) =>
         && o < |before| && o < |after|
         && (forall d: nat :: d in after[o].dependencies <==>
               d in before[o].dependencies || (d != o && ProviderCount(entries, d) > 0))
  }

  lemma {:induction false} ProviderCountAppend(entries: seq<ResolvedImport>, e: ResolvedImport, d: nat)
    ensures ProviderCount(entries + [e], d) ==
            ProviderCount(entries, d) + if e.resolved && e.provider == Some(d) then 1 else 0
  {
    assert (entries + [e])[..|entries|] == entries;
  }

  lemma EdgeKeepsTheRest(ms: Table, o: nat, d: nat)
    requires o < |ms| && d < |ms| && o != d && ms[o].state == Resolving
    ensures SameResources(ms, WithEdge(ms, o, d)) && (NoneAttaching(ms) ==> NoneAttaching(WithEdge(ms, o, d)))
    ensures AttachedCounted(ms, -1) ==> AttachedCounted(WithEdge(ms, o, d), -1)
  {
  }

  lemma EdgeUpdate(ms: Table, o: nat, d: nat)
    requires o < |ms| && d < |ms| && o != d
    ensures WithEdge(ms, o, d) == ms[o := ms[o].(dependencies := ms[o].dependencies + [d])]
                                    [d := ms[d].(staticRefs := ms[d].staticRefs + 1)]
  {
  }

  predicate AllResolved(entries: seq<ResolvedImport>) { forall k :: 0 <= k < |entries| ==> entries[k].resolved }

  lemma NothingResolved()
    ensures AllResolved([])
  {
  }

  lemma AllResolvedAppend(entries: seq<ResolvedImport>, e: ResolvedImport)
    ensures AllResolved(entries + [e]) <==> AllResolved(entries) && e.resolved
  {
    assert (entries + [e])[|entries|] == e;
    if AllResolved(entries + [e]) {
      forall k | 0 <= k < |entries| ensures entries[k].resolved { assert (entries + [e])[k] == entries[k]; }
    }
  }

  lemma {:induction false} NoProviderBeyond(entries: seq<ResolvedImport>, n: nat, d: nat)
    requires (forall k :: 0 <= k < |entries| ==> Provided(entries[k], n)) && n <= d
    ensures ProviderCount(entries, d) == 0
  {
    if entries != [] { NoProviderBeyond(entries[..|entries| - 1], n, d); }
  }

  lemma NothingBound(ms: Table, owner: Option<nat>)
    requires owner.Some? ==> owner.value < |ms|
    ensures Bound(ms, ms, owner, [])
  {
  }

  lemma BoundThenGrows(a: Table, b: Table, c: Table, owner: Option<nat>, entries: seq<ResolvedImport>)
    requires Bound(a, b, owner, entries) && Grows(b, c) && |a| <= |b|
    ensures Bound(a, c, owner, entries)
  {
    if owner.None? {
      forall d: nat | d < |c| ensures StaticsBefore(a, d) + ProviderCount(entries, d) <= c[d].staticRefs {
        if d < |b| { assert c[d] == b[d].(staticRefs := c[d].staticRefs); } else { NoProviderBeyond(entries, |b|, d); }
      }
    } else {
      assert c[owner.value].dependencies == b[owner.value].dependencies;
    }
  }

  lemma BoundUnresolved(a: Table, b: Table, owner: Option<nat>, entries: seq<ResolvedImport>)
    requires Bound(a, b, owner, entries)
    ensures Bound(a, b, owner, entries + [ResolvedImport(false, 0, None)])
  {
    forall d: nat ensures ProviderCount(entries + [ResolvedImport(false, 0, None)], d) == ProviderCount(entries, d) {
      ProviderCountAppend(entries, ResolvedImport(false, 0, None), d);
    }
  }

  // A built-in module, or the owner itself, provides the address.
  lemma BoundElsewhere(a: Table, b: Table, owner: Option<nat>, entries: seq<ResolvedImport>, e: ResolvedImport)
    requires Bound(a, b, owner, entries) && e.resolved && e.address != 0
    requires e.provider.None? || e.provider == owner
    ensures Bound(a, b, owner, entries + [e])
  {
    forall d: nat
      ensures owner != Some(d) ==> ProviderCount(entries + [e], d) == ProviderCount(entries, d)
    {
      ProviderCountAppend(entries, e, d);
    }
  }

  lemma BoundByCount(a: Table, b: Table, d: nat, entries: seq<ResolvedImport>, e: ResolvedImport)
    requires Bound(a, b, None, entries) && d < |b| && e.resolved && e.address != 0 && e.provider == Some(d)
    ensures Bound(a, b[d := b[d].(staticRefs := b[d].staticRefs + 1)], None, entries + [e])
  {
    forall x: nat ensures ProviderCount(entries + [e], x) == ProviderCount(entries, x) + if x == d then 1 else 0 {
      ProviderCountAppend(entries, e, x);
    }
  }

  lemma BoundAgain(a: Table, b: Table, o: nat, d: nat, entries: seq<ResolvedImport>, e: ResolvedImport)
    requires Bound(a, b, Some(o), entries) && d in b[o].dependencies && d < |b| && d != o
    requires e.resolved && e.address != 0 && e.provider == Some(d)
    ensures Bound(a, b, Some(o), entries + [e])
  {
    forall x: nat ensures ProviderCount(entries + [e], x) == ProviderCount(entries, x) + if x == d then 1 else 0 {
      ProviderCountAppend(entries, e, x);
    }
  }

  lemma BoundByEdge(a: Table, b: Table, o: nat, d: nat, entries: seq<ResolvedImport>, e: ResolvedImport)
    requires Bound(a, b, Some(o), entries) && d < |b| && d != o
    requires e.resolved && e.address != 0 && e.provider == Some(d)
    ensures Bound(a, WithEdge(b, o, d), Some(o), entries + [e])
  {
    forall x: nat ensures ProviderCount(entries + [e], x) == ProviderCount(entries, x) + if x == d then 1 else 0 {
      ProviderCountAppend(entries, e, x);
    }
    var c := WithEdge(b, o, d);
    assert c[o].dependencies == b[o].dependencies + [d] && |c| == |b|;
  }
}
