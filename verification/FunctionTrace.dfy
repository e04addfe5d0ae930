// The lock-free table of functions already traced (remember_function in
// src/diagnostics/trace.cpp), as a machine whose steps are single compare-exchange
// operations of any number of threads, in any order.
module FunctionTrace {

  const CAPACITY: nat := 262144
  const MAX_PROBES: nat := 32

  function Position(f: nat, probe: nat): (p: nat)
    ensures p < CAPACITY
  {
    (f / 16 % CAPACITY + probe) % CAPACITY
  }

  // A call in progress: the next slot it tries.
  datatype Call = Call(function_: nat, probe: nat)

  datatype Return = Return(function_: nat, result: bool)

  datatype State = State(slots: seq<nat>, calls: map<nat, Call>, returned: seq<Return>)

  // Thread t calls remember_function, or makes its next compare-exchange; or a reset clears
  // one slot.
  datatype Action = Enter(t: nat, f: nat) | Probe(t: nat) | Clear(slot: nat)

  predicate IsTable(slots: seq<nat>) { |slots| == CAPACITY }

  function Finish(s: State, t: nat, result: bool): State
    requires t in s.calls
  {
    s.(calls := s.calls - {t}, returned := s.returned + [Return(s.calls[t].function_, result)])
  }

  function Apply(s: State, a: Action): (r: State)
    requires IsTable(s.slots)
    ensures IsTable(r.slots)
  {
    match a
    case Enter(t, f) =>
      if t in s.calls then s
      else if f == 0 then s.(returned := s.returned + [Return(0, false)])
      else s.(calls := s.calls[t := Call(f, 0)])
    case Probe(t) =>
      if t !in s.calls then s
      else
        var f, probe := s.calls[t].function_, s.calls[t].probe;
        var p := Position(f, probe);
        if s.slots[p] == 0 then Finish(s.(slots := s.slots[p := f]), t, true)
        else if s.slots[p] == f || probe + 1 >= MAX_PROBES then Finish(s, t, false)
        else s.(calls := s.calls[t := Call(f, probe + 1)])
    case Clear(slot) => if slot < CAPACITY then s.(slots := s.slots[slot := 0]) else s
  }

  // No reset goes on.
  predicate NoClear(actions: seq<Action>) { forall k :: 0 <= k < |actions| ==> !actions[k].Clear? }

  // The loop of a reset that nobody interferes with, over the first n slots.
  function ClearFirst(n: nat): (r: seq<Action>)
    ensures |r| == n
  {
    seq(n, k requires 0 <= k < n => Clear(k))
  }

  // The results since the reset are what counts from then on.
  function Forget(s: State): State { s.(returned := []) }

  function Run(s: State, actions: seq<Action>): (r: State)
    requires IsTable(s.slots)
    ensures IsTable(r.slots)
  {
    if actions == [] then s else Apply(Run(s, actions[..|actions| - 1]), actions[|actions| - 1])
  }

  // Right after a reset; calls may still be in progress.
  ghost predicate AfterReset(s: State) {
    && IsTable(s.slots) && (forall i :: 0 <= i < CAPACITY ==> s.slots[i] == 0) && s.returned == []
    && forall t :: t in s.calls ==> s.calls[t].function_ != 0 && s.calls[t].probe < MAX_PROBES
  }

  // No call has looked at the table before the reset.
  ghost predicate NoneUnderWay(s: State) { forall t :: t in s.calls ==> s.calls[t].probe == 0 }

  // The first n slots f may use hold other functions.
  ghost predicate Taken(slots: seq<nat>, f: nat, n: nat)
    requires IsTable(slots)
  {
    forall q: nat :: q < n ==> slots[Position(f, q)] != 0 && slots[Position(f, q)] != f
  }

  // f is stored, at the first of its slots that was free.
  ghost predicate StoredAt(slots: seq<nat>, f: nat, q: nat)
    requires IsTable(slots)
  {
    q < MAX_PROBES && slots[Position(f, q)] == f && Taken(slots, f, q)
  }

  ghost predicate Stored(slots: seq<nat>, f: nat)
    requires IsTable(slots)
  {
    exists q: nat :: StoredAt(slots, f, q)
  }

  // What every reachable state satisfies.
  ghost predicate Inv(s: State) {
    && IsTable(s.slots)
    && (forall t :: t in s.calls ==> CallOk(s.slots, s.calls[t]))
    && (forall i :: 0 <= i < |s.returned| ==> ReturnOk(s.slots, s.returned[i]))
    && AtMostOnce(s.returned)
  }

  ghost predicate CallOk(slots: seq<nat>, c: Call)
    requires IsTable(slots)
  {
    c.function_ != 0 && c.probe < MAX_PROBES && Taken(slots, c.function_, c.probe)
  }

  // What a result means: true, the function is stored; false, it is stored, or there is no
  // room for it, or it is no function.
  ghost predicate ReturnOk(slots: seq<nat>, r: Return)
    requires IsTable(slots)
  {
    if r.result then r.function_ != 0 && Stored(slots, r.function_)
    else r.function_ == 0 || Stored(slots, r.function_) || Taken(slots, r.function_, MAX_PROBES)
  }

  ghost predicate AtMostOnce(returned: seq<Return>) {
    forall i, j :: 0 <= i < j < |returned| && returned[i].result && returned[j].result ==>
      returned[i].function_ != returned[j].function_
  }

  // Filling a free slot keeps what calls and results rely on.
  lemma FillKeeps(slots: seq<nat>, p: nat, f: nat)
    requires IsTable(slots) && p < CAPACITY && slots[p] == 0 && f != 0
    ensures forall g, n: nat :: Taken(slots, g, n) ==> Taken(slots[p := f], g, n)
    ensures forall g: nat :: g != 0 && Stored(slots, g) ==> Stored(slots[p := f], g)
  {
    var now := slots[p := f];
    forall g, n: nat | Taken(slots, g, n) ensures Taken(now, g, n) {
      forall q: nat | q < n ensures now[Position(g, q)] != 0 && now[Position(g, q)] != g {
        assert slots[Position(g, q)] != 0;
      }
    }
    forall g: nat | g != 0 && Stored(slots, g) ensures Stored(now, g) {
      var q: nat :| StoredAt(slots, g, q);
      assert StoredAt(now, g, q);
    }
  }

  // A function is stored only once: a free slot before which all are taken means it is not
  // stored yet.
  lemma NotStoredYet(slots: seq<nat>, f: nat, n: nat)
    requires IsTable(slots) && f != 0 && Taken(slots, f, n) && slots[Position(f, n)] == 0
    ensures !Stored(slots, f)
  {
    forall q: nat ensures !StoredAt(slots, f, q) {
      if q > n { assert !Taken(slots, f, q); }
    }
  }

  lemma MoreTaken(slots: seq<nat>, f: nat, n: nat)
    requires IsTable(slots) && Taken(slots, f, n) && slots[Position(f, n)] != 0 && slots[Position(f, n)] != f
    ensures Taken(slots, f, n + 1)
  {
  }

  lemma StepKeepsInv(s: State, a: Action)
    requires Inv(s) && !a.Clear?
    ensures Inv(Apply(s, a))
  {
    hide Position, Taken, Stored;
    var r := Apply(s, a);
    if a.Enter? {
      assert Taken(s.slots, a.f, 0) by { NoneTaken(s.slots, a.f); }
    } else if a.Probe? && a.t in s.calls {
      var f, n := s.calls[a.t].function_, s.calls[a.t].probe;
      assert CallOk(s.slots, s.calls[a.t]);
      var p := Position(f, n);
      if s.slots[p] == 0 {
        NotStoredYet(s.slots, f, n);
        FillKeeps(s.slots, p, f);
        FillStores(s.slots, f, n);
      } else if s.slots[p] == f {
        FoundIsStored(s.slots, f, n);
      } else {
        MoreTaken(s.slots, f, n);
      }
    }
  }

  lemma NoneTaken(slots: seq<nat>, f: nat)
    requires IsTable(slots)
    ensures Taken(slots, f, 0)
  {
  }

  lemma FillStores(slots: seq<nat>, f: nat, n: nat)
    requires IsTable(slots) && f != 0 && n < MAX_PROBES && Taken(slots, f, n) && slots[Position(f, n)] == 0
    ensures Stored(slots[Position(f, n) := f], f)
  {
    FillKeeps(slots, Position(f, n), f);
    assert StoredAt(slots[Position(f, n) := f], f, n);
  }

  lemma FoundIsStored(slots: seq<nat>, f: nat, n: nat)
    requires IsTable(slots) && n < MAX_PROBES && Taken(slots, f, n) && slots[Position(f, n)] == f
    ensures Stored(slots, f)
  {
    assert StoredAt(slots, f, n);
  }

  lemma {:induction false} RunKeepsInv(s: State, actions: seq<Action>)
    requires Inv(s) && NoClear(actions)
    ensures Inv(Run(s, actions))
  {
    if actions != [] {
      RunKeepsInv(s, actions[..|actions| - 1]);
      StepKeepsInv(Run(s, actions[..|actions| - 1]), actions[|actions| - 1]);
    }
  }

  // Main result: from a reset that no call was under way at, whatever the threads do, true is
  // returned at most once for a function, and every result means what it says.
  lemma EveryRunIsRight(s: State, actions: seq<Action>)
    requires AfterReset(s) && NoneUnderWay(s) && NoClear(actions)
    ensures var r := Run(s, actions);
      AtMostOnce(r.returned) && forall i :: 0 <= i < |r.returned| ==> ReturnOk(r.slots, r.returned[i])
  {
    hide Position;
    forall t | t in s.calls ensures CallOk(s.slots, s.calls[t]) { NoneTaken(s.slots, s.calls[t].function_); }
    RunKeepsInv(s, actions);
  }

  // A call that was under way at the reset breaks this: exactly then some run returns true
  // twice for one function.
  lemma ResetIsSafeExactlyWhen(s: State)
    requires AfterReset(s)
    ensures NoneUnderWay(s) <==> forall actions :: NoClear(actions) ==> AtMostOnce(Run(s, actions).returned)
  {
    if NoneUnderWay(s) {
      forall actions | NoClear(actions) ensures AtMostOnce(Run(s, actions).returned) { EveryRunIsRight(s, actions); }
    } else {
      var t :| t in s.calls && s.calls[t].probe != 0;
      var actions := TwiceTrue(s, t);
      assert !AtMostOnce(Run(s, actions).returned);
    }
  }

  lemma TwiceTrue(s: State, t: nat) returns (actions: seq<Action>)
    requires AfterReset(s) && t in s.calls && s.calls[t].probe != 0
    ensures NoClear(actions) && !AtMostOnce(Run(s, actions).returned)
  {
    var f, n := s.calls[t].function_, s.calls[t].probe;
    var other := NewThread(s.calls.Keys);
    actions := [Enter(other, f), Probe(other), Probe(t)];
    PositionsDiffer(f, n);
    hide Position;
    assert actions[..2][..1] == [Enter(other, f)] && actions[..2] == [Enter(other, f), Probe(other)];
    var s1 := Apply(s, Enter(other, f));
    assert [Enter(other, f)][..0] == [];
    assert Run(s, []) == s && Run(s, [Enter(other, f)]) == s1;
    var s2 := Apply(s1, Probe(other));
    assert Run(s, actions[..2]) == s2;
    var s3 := Apply(s2, Probe(t));
    assert Run(s, actions) == s3;
    assert s2.returned == [Return(f, true)];
    assert s3.returned == [Return(f, true), Return(f, true)];
    assert s3.returned[0] == s3.returned[1] == Return(f, true);
  }

  lemma {:induction false} Cleared(s: State, n: nat)
    requires IsTable(s.slots) && n <= CAPACITY
    ensures var r := Run(s, ClearFirst(n));
      && r.calls == s.calls && r.returned == s.returned
      && forall i :: 0 <= i < CAPACITY ==> r.slots[i] == if i < n then 0 else s.slots[i]
  {
    if n > 0 {
      Cleared(s, n - 1);
      assert ClearFirst(n)[..n - 1] == ClearFirst(n - 1);
    }
  }

  // A reset while no call is under way leads to a state from which every run is right.
  lemma QuietResetIsSafe(s: State)
    requires IsTable(s.slots) && s.calls == map[]
    ensures var r := Forget(Run(s, ClearFirst(CAPACITY))); AfterReset(r) && NoneUnderWay(r)
  {
    Cleared(s, CAPACITY);
  }

  function Collider(): nat { 16 * CAPACITY }

  // But a call can be under way when the loop begins: from a table nobody has used, a second
  // thread may be past its first slot. The loop clears the table under it, and then some run
  // returns true twice.
  lemma UnsafeResetIsReached(s: State) returns (before: seq<Action>)
    requires AfterReset(s) && s.calls == map[]
    ensures NoClear(before)
    ensures var r := Forget(Run(Run(s, before), ClearFirst(CAPACITY)));
      && AfterReset(r) && !NoneUnderWay(r)
      && exists actions :: NoClear(actions) && !AtMostOnce(Run(r, actions).returned)
  {
    var f, g := 16, 16 + Collider();
    before := [Enter(0, f), Probe(0), Enter(1, g), Probe(1)];
    SamePosition();
    hide Position;
    var s1 := Apply(s, Enter(0, f));
    var s2 := Apply(s1, Probe(0));
    var s3 := Apply(s2, Enter(1, g));
    var s4 := Apply(s3, Probe(1));
    RunOfFour(s, before);
    assert s4.calls == map[1 := Call(g, 1)];
    Cleared(s4, CAPACITY);
    var r := Forget(Run(s4, ClearFirst(CAPACITY)));
    assert 1 in r.calls;
    ResetIsSafeExactlyWhen(r);
  }

  lemma SamePosition()
    ensures Position(16, 0) == Position(16 + Collider(), 0)
  {
    assert (16 + Collider()) / 16 == 1 + CAPACITY;
    assert (1 + CAPACITY) % CAPACITY == 1;
  }

  lemma RunOfFour(s: State, a: seq<Action>)
    requires IsTable(s.slots) && |a| == 4
    ensures Run(s, a) == Apply(Apply(Apply(Apply(s, a[0]), a[1]), a[2]), a[3])
  {
    assert a[..3][..2] == a[..2] && a[..2][..1] == a[..1] && a[..1][..0] == [];
    assert Run(s, a[..1]) == Apply(s, a[0]) && Run(s, a[..2]) == Apply(Run(s, a[..1]), a[1]);
    assert Run(s, a[..3]) == Apply(Run(s, a[..2]), a[2]);
  }

  // ---------------------------------------------------------------- resets that overlap calls

  ghost function Holding(slots: seq<nat>, f: nat): set<nat>
    requires IsTable(slots)
  {
    set p: nat | p < CAPACITY && slots[p] == f
  }

  function Trues(returned: seq<Return>, f: nat): nat {
    if returned == [] then 0
    else Trues(returned[..|returned| - 1], f) + if returned[|returned| - 1] == Return(f, true) then 1 else 0
  }

  // Whether the step clears a slot that holds f.
  predicate Forgets(s: State, a: Action, f: nat)
    requires IsTable(s.slots)
  {
    a.Clear? && a.slot < CAPACITY && s.slots[a.slot] == f
  }

  // How many steps of a run do.
  function Forgotten(s: State, actions: seq<Action>, f: nat): nat
    requires IsTable(s.slots)
  {
    if actions == [] then 0
    else
      var before := actions[..|actions| - 1];
      Forgotten(s, before, f) + if Forgets(Run(s, before), actions[|actions| - 1], f) then 1 else 0
  }

  lemma StepConserves(s: State, a: Action, f: nat)
    requires IsTable(s.slots) && f != 0
    ensures Trues(Apply(s, a).returned, f) + |Holding(s.slots, f)| ==
            Trues(s.returned, f) + |Holding(Apply(s, a).slots, f)| + if Forgets(s, a, f) then 1 else 0
  {
    hide Position;
    var r := Apply(s, a);
    if r.returned != s.returned {
      assert r.returned[..|r.returned| - 1] == s.returned;
    }
    if a.Clear? && a.slot < CAPACITY {
      assert Holding(r.slots, f) == Holding(s.slots, f) - {a.slot};
      assert Forgets(s, a, f) <==> a.slot in Holding(s.slots, f);
    } else if r.slots != s.slots {
      var p := Position(s.calls[a.t].function_, s.calls[a.t].probe);
      FilledHolding(s.slots, p, s.calls[a.t].function_, f);
    }
  }

  lemma FilledHolding(slots: seq<nat>, p: nat, g: nat, f: nat)
    requires IsTable(slots) && p < CAPACITY && slots[p] == 0 && f != 0
    ensures |Holding(slots[p := g], f)| == |Holding(slots, f)| + if g == f then 1 else 0
  {
    assert p !in Holding(slots, f);
    assert Holding(slots[p := g], f) == Holding(slots, f) + if g == f then {p} else {};
  }

  // In every run, with resets going on at any time: true is returned for a function as often
  // as it has come into the table, that is, as often as it is there more than at first, and
  // once for every time it has been cleared away.
  lemma {:induction false} RunConserves(s: State, actions: seq<Action>, f: nat)
    requires IsTable(s.slots) && f != 0
    ensures Trues(Run(s, actions).returned, f) + |Holding(s.slots, f)| ==
            Trues(s.returned, f) + |Holding(Run(s, actions).slots, f)| + Forgotten(s, actions, f)
  {
    if actions != [] {
      RunConserves(s, actions[..|actions| - 1], f);
      StepConserves(Run(s, actions[..|actions| - 1]), actions[|actions| - 1], f);
    }
  }

  // So a call that comes in while the clearing loop is on its way to the slot is enough: true
  // twice, although no call was under way before the loop or is when it passes.
  lemma OverlapReturnsTwice(s: State, f: nat) returns (actions: seq<Action>)
    requires AfterReset(s) && s.calls == map[] && f != 0
    ensures Trues(Run(s, actions).returned, f) == 2 && Forgotten(s, actions, f) == 1
  {
    hide Position;
    var p := Position(f, 0);
    actions := [Enter(0, f), Probe(0), Clear(p), Enter(0, f), Probe(0)];
    Inserted(s, f);
    var s2 := Apply(Apply(s, actions[0]), actions[1]);
    var s3 := Apply(s2, actions[2]);
    assert s3 == s.(returned := [Return(f, true)]) by { assert s.slots[p := f][p := 0] == s.slots; }
    Inserted(s3, f);
    hide Apply;
    RunOfFour(s, actions[..4]);
    assert Run(s, actions) == Apply(Run(s, actions[..4]), actions[4]);
    assert [Return(f, true)] + [Return(f, true)] == [Return(f, true), Return(f, true)];
    TwoTrues(f);
    RunConserves(s, actions, f);
    assert Holding(s.slots, f) == {} && Holding(s.slots[p := f], f) == {p};
  }

  // A call that finds its first slot free.
  lemma Inserted(s: State, f: nat)
    requires IsTable(s.slots) && f != 0 && s.calls == map[] && s.slots[Position(f, 0)] == 0
    ensures Apply(Apply(s, Enter(0, f)), Probe(0)) ==
            State(s.slots[Position(f, 0) := f], map[], s.returned + [Return(f, true)])
  {
    hide Position;
    assert map[0 := Call(f, 0)] - {0} == map[];
  }

  lemma TwoTrues(f: nat)
    ensures Trues([Return(f, true), Return(f, true)], f) == 2 && Trues([], f) == 0
  {
    assert [Return(f, true), Return(f, true)][..1] == [Return(f, true)] && [Return(f, true)][..0] == [];
    assert Trues([Return(f, true)], f) == 1;
  }

  lemma PositionsDiffer(f: nat, n: nat)
    requires 0 < n < MAX_PROBES
    ensures Position(f, n) != Position(f, 0)
  {
    var first := f / 16 % CAPACITY;
    assert Position(f, 0) == first;
    assert Position(f, n) == if first + n < CAPACITY then first + n else first + n - CAPACITY;
  }

  lemma NewThread(busy: set<nat>) returns (t: nat)
    ensures t !in busy
  {
    t := Above(busy);
  }

  lemma {:induction false} Above(s: set<nat>) returns (n: nat)
    ensures forall x :: x in s ==> x < n
    decreases s
  {
    if s == {} { return 0; }
    var y :| y in s;
    var m := Above(s - {y});
    n := if m <= y then y + 1 else m;
    forall x | x in s ensures x < n { if x != y { assert x in s - {y}; } }
  }

  // Every call ends after at most 32 compare-exchange steps of its own thread.
  function StepsLeft(s: State, t: nat): nat {
    if t in s.calls && s.calls[t].probe < MAX_PROBES then MAX_PROBES - s.calls[t].probe else 0
  }

  lemma CallsEnd(s: State, t: nat, a: Action)
    requires Inv(s) && t in s.calls
    ensures StepsLeft(s, t) <= MAX_PROBES
    ensures if a == Probe(t) then StepsLeft(Apply(s, a), t) < StepsLeft(s, t)
            else StepsLeft(Apply(s, a), t) == StepsLeft(s, t)
  {
    hide Position, Taken;
    assert CallOk(s.slots, s.calls[t]);
  }

  // ---------------------------------------------------------------- the probe loop

  // remember_function, when no other thread intervenes.
  method RememberFunction(slots: array<nat>, f: nat) returns (result: bool)
    requires slots.Length == CAPACITY
    modifies slots
    ensures f == 0 ==> !result && slots[..] == old(slots[..])
    ensures result ==> exists q: nat :: q < MAX_PROBES && Taken(old(slots[..]), f, q) && old(slots[Position(f, q)]) == 0
                                        && slots[..] == old(slots[..])[Position(f, q) := f]
    ensures !result ==> slots[..] == old(slots[..])
    ensures f != 0 && !result ==> Stored(slots[..], f) || Taken(slots[..], f, MAX_PROBES)
  {
    hide Position;
    if f == 0 { return false; }
    for probe := 0 to MAX_PROBES
      invariant slots[..] == old(slots[..]) && Taken(slots[..], f, probe)
    {
      var p := Position(f, probe);
      if slots[p] == 0 {
        slots[p] := f;
        return true;
      }
      if slots[p] == f {
        FoundIsStored(slots[..], f, probe);
        return false;
      }
    }
    return false;
  }
}
