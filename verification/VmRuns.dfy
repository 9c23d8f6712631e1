/** What whole runs of virtmanager amount to, in terms of the actions taken: the references and callbacks of every
    VM, the CIDs, the death notifications; and that the manager's methods make the steps of the model.
 */
module VmRuns {
  import opened Results
  import opened VirtManager

  // ---------- What a run did to each VM ----------

  /** How often an action was taken. */
  function Count(actions: seq<Action>, a: Action): nat {
    if actions == [] then 0 else Count(actions[..|actions| - 1], a) + if actions[|actions| - 1] == a then 1 else 0
  }

  /** The callbacks that clients registered with VM `i`, in order. */
  function Registered(actions: seq<Action>, i: nat): seq<Callback> {
    if actions == [] then [] else
    var last := actions[|actions| - 1];
    Registered(actions[..|actions| - 1], i) + if last.Register? && last.vm == i then [last.callback] else []
  }

  /** No action was about VM `i`. */
  ghost predicate Untouched(actions: seq<Action>, i: nat) {
    && Registered(actions, i) == []
    && Count(actions, CloneHandle(i)) == Count(actions, DropHandle(i)) == Count(actions, Hold(i)) == 0
    && Count(actions, ChildExits(i)) == Count(actions, MonitorStops(i)) == Count(actions, MonitorLocks(i)) == 0
    && Count(actions, MonitorCalls(i)) == Count(actions, MonitorEnds(i)) == 0
  }

  /** The state of a VM, in terms of the actions taken. Its handles and held references are conserved: one from
      its start, one more for every clone and hold, one less for every handle dropped. */
  ghost predicate Accounted(actions: seq<Action>, i: nat, vm: Instance, held: nat) {
    && vm.callbacks == Registered(actions, i)
    && vm.handles + held == 1 + Count(actions, CloneHandle(i)) + Count(actions, Hold(i)) - Count(actions, DropHandle(i))
    && (vm.exited <==> Count(actions, ChildExits(i)) > 0)
    && (!vm.running <==> Count(actions, MonitorStops(i)) > 0)
    && (vm.monitor.Notifying? || vm.monitor.Gone? <==> Count(actions, MonitorLocks(i)) > 0)
    && |vm.invoked| == Count(actions, MonitorCalls(i))
    && (vm.monitor.Gone? <==> Count(actions, MonitorEnds(i)) > 0)
    && (!vm.running ==> vm.exited)
  }

  ghost predicate AccountedIn(actions: seq<Action>, w: World, i: nat) {
    if i < |w.instances| then Accounted(actions, i, w.instances[i], multiset(w.held)[i]) else Untouched(actions, i)
  }

  lemma {:induction false} CountMore(actions: seq<Action>, a: Action, b: Action)
    ensures Count(actions + [a], b) == Count(actions, b) + if a == b then 1 else 0
  {
    assert (actions + [a])[..|actions|] == actions;
  }

  lemma {:induction false} RegisteredMore(actions: seq<Action>, a: Action, i: nat)
    ensures Registered(actions + [a], i) == Registered(actions, i) + if a.Register? && a.vm == i then [a.callback] else []
  {
    assert (actions + [a])[..|actions|] == actions;
  }

  /** Counts one more for the one action taken. */
  ghost predicate CountedOne(actions: seq<Action>, a: Action, b: Action) {
    Count(actions + [a], b) == Count(actions, b) + if a == b then 1 else 0
  }

  /** What one more action does to the counts about VM `i`. */
  lemma {:induction false} CountsMore(actions: seq<Action>, a: Action, i: nat)
    ensures CountedOne(actions, a, CloneHandle(i)) && CountedOne(actions, a, DropHandle(i)) && CountedOne(actions, a, Hold(i))
    ensures CountedOne(actions, a, ChildExits(i)) && CountedOne(actions, a, MonitorStops(i)) && CountedOne(actions, a, MonitorLocks(i))
    ensures CountedOne(actions, a, MonitorCalls(i)) && CountedOne(actions, a, MonitorEnds(i))
    ensures Registered(actions + [a], i) == Registered(actions, i) + if a.Register? && a.vm == i then [a.callback] else []
  {
    hide Count, Registered;
    RegisteredMore(actions, a, i);
    CountMore(actions, a, CloneHandle(i));
    CountMore(actions, a, DropHandle(i));
    CountMore(actions, a, Hold(i));
    CountMore(actions, a, ChildExits(i));
    CountMore(actions, a, MonitorStops(i));
    CountMore(actions, a, MonitorLocks(i));
    CountMore(actions, a, MonitorCalls(i));
    CountMore(actions, a, MonitorEnds(i));
  }

  /** The action is about VM `i`. */
  predicate IsAbout(a: Action, i: nat) {
    !a.Start? && !a.DropHeld? && a.vm == i
  }

  /** An action about another VM changes no count. */
  lemma {:induction false} OthersAccounted(actions: seq<Action>, a: Action, i: nat, vm: Instance, held: nat)
    requires !IsAbout(a, i)
    ensures Accounted(actions, i, vm, held) ==> Accounted(actions + [a], i, vm, held)
    ensures Untouched(actions, i) ==> Untouched(actions + [a], i)
  {
    hide Count, Registered;
    CountsMore(actions, a, i);
    assert Registered(actions, i) + [] == Registered(actions, i);
  }

  /** A new VM. */
  lemma {:induction false} StartedAccounted(actions: seq<Action>, i: nat, cid: nat)
    requires Untouched(actions, i)
    ensures Accounted(actions, i, Started(cid), 0)
  {
  }

  /** A VM's own step. */
  lemma {:induction false} InstanceAccounted(actions: seq<Action>, a: Action, i: nat, vm: Instance, held: nat, isHeld: bool)
    requires Accounted(actions, i, vm, held) && MonitorOk(vm) && IsAbout(a, i) && EnabledIn(vm, a)
    ensures Accounted(actions + [a], i, StepInstance(vm, a, isHeld), held + if a.Hold? then 1 else 0)
  {
    hide Count, Registered;
    CountsMore(actions, a, i);
    assert Registered(actions, i) + [] == Registered(actions, i);
  }

  lemma {:induction false} StartAccounted(actions: seq<Action>, w: World, succeeds: bool, i: nat)
    requires AccountedIn(actions, w, i) && RegistryOk(w)
    ensures AccountedIn(actions + [Start(succeeds)], Step(w, Start(succeeds)), i)
  {
    hide Count, Registered, Upgraded, Increasing, Accounted, Untouched, Started;
    var w' := Step(w, Start(succeeds));
    assert i >= |w.instances| ==> multiset(w.held)[i] == 0 by {
      assert i in multiset(w.held) <==> i in w.held;
    }
    if i < |w.instances| {
      OthersAccounted(actions, Start(succeeds), i, w.instances[i], multiset(w.held)[i]);
    } else {
      OthersAccounted(actions, Start(succeeds), i, Started(0), 0);
      StartedAccounted(actions + [Start(succeeds)], i, w.nextCid);
    }
  }

  /** A held reference that becomes a handle. */
  lemma {:induction false} HandedOver(actions: seq<Action>, i: nat, vm: Instance, held: nat)
    requires Accounted(actions, i, vm, held) && held > 0
    ensures Accounted(actions, i, vm.(handles := vm.handles + 1), held - 1)
  {
  }

  lemma {:induction false} DropHeldAt(w: World, cid: int, pos: nat)
    requires pos < |w.held| && PositionOf(w.held, CidIn(w), cid) == Some(pos) && w.held[pos] < |w.instances|
    ensures var vm := w.held[pos];
            Step(w, DropHeld(cid))
            == w.(held := SwapRemoved(w.held, pos), instances := w.instances[vm := w.instances[vm].(handles := w.instances[vm].handles + 1)])
  {
  }

  lemma {:induction false} DropHeldAccounted(actions: seq<Action>, w: World, cid: int, i: nat)
    requires AccountedIn(actions, w, i) && RegistryOk(w)
    ensures AccountedIn(actions + [DropHeld(cid)], Step(w, DropHeld(cid)), i)
  {
    hide Count, Registered, Increasing, Accounted, Untouched, SwapRemoved;
    var vm, held := if i < |w.instances| then w.instances[i] else Started(0), multiset(w.held)[i];
    OthersAccounted(actions, DropHeld(cid), i, vm, held);
    var pos := PositionOf(w.held, CidIn(w), cid);
    if pos.Some? {
      assert w.held[pos.value] in multiset(w.held) && w.held[pos.value] in w.held;
      SwapRemovedMultiset(w.held, pos.value);
      DropHeldAt(w, cid, pos.value);
      hide Step, PositionOf, RegistryOk;
      if w.held[pos.value] == i {
        HandedOver(actions + [DropHeld(cid)], i, vm, held);
      }
    }
  }

  lemma {:induction false} OwnStepAccounted(actions: seq<Action>, w: World, a: Action, i: nat)
    requires AccountedIn(actions, w, i) && Enabled(w, a) && !a.Start? && !a.DropHeld? && MonitorsOk(w)
    ensures AccountedIn(actions + [a], Step(w, a), i)
  {
    hide Count, Registered, Upgraded, PositionOf, SwapRemoved, Accounted, Untouched, MonitorOk, StepInstance;
    if a.vm == i {
      assert MonitorOk(w.instances[i]);
      InstanceAccounted(actions, a, i, w.instances[i], multiset(w.held)[i], i in w.held);
      if a.Hold? {
        HoldingKeeps(w.instances[i], a, i in w.held);
      }
    } else {
      OthersAccounted(actions, a, i, if i < |w.instances| then w.instances[i] else Started(0), multiset(w.held)[i]);
    }
  }

  lemma {:induction false} HoldingKeeps(vm: Instance, a: Action, isHeld: bool)
    requires a.Hold? && EnabledIn(vm, a)
    ensures StepInstance(vm, a, isHeld) == vm
  {
  }

  /** In every reachable state, every VM is accounted for: its callbacks are those registered, its references are
      conserved, and each stage of its monitor was reached by the step that leads there. */
  lemma {:induction false} AccountedOverAllRuns(actions: seq<Action>, i: nat)
    requires Run(actions).Some?
    ensures AccountedIn(actions, Run(actions).value, i)
    decreases |actions|
  {
    if actions != [] {
      var before, a := actions[..|actions| - 1], actions[|actions| - 1];
      var w := Run(before).value;
      assert actions == before + [a];
      AccountedOverAllRuns(before, i);
      RegistryOverAllRuns(before);
      MonitorsOverAllRuns(before);
      hide AccountedIn, RegistryOk, MonitorsOk;
      match a
      case Start(succeeds) => StartAccounted(before, w, succeeds, i);
      case DropHeld(cid) => DropHeldAccounted(before, w, cid, i);
      case _ => OwnStepAccounted(before, w, a, i);
    }
  }

  /** The callbacks of a VM are those that were registered with it. */
  lemma {:induction false} CallbacksAreRegistered(actions: seq<Action>, i: nat)
    requires Run(actions).Some?
    ensures i < |Run(actions).value.instances| ==> Run(actions).value.instances[i].callbacks == Registered(actions, i)
  {
    AccountedOverAllRuns(actions, i);
  }

  /** Death notification: if the monitor of VM `i` takes the callback lock as step `n` of a run and finishes in
      it, the callbacks invoked in the whole run are exactly those registered before step `n`, once
      per registration and in order; one registered later is never invoked. */
  lemma {:induction false} NotifiedExactly(actions: seq<Action>, n: nat, i: nat)
    requires Run(actions).Some? && n < |actions| && actions[n] == MonitorLocks(i)
    requires i < |Run(actions).value.instances| && Run(actions).value.instances[i].monitor.Gone?
    ensures Run(actions[..n]).Some? && i < |Run(actions[..n]).value.instances|
    ensures Run(actions).value.instances[i].invoked == Registered(actions[..n], i)
  {
    RunContinues(actions, n, i);
    RunContinues(actions, n + 1, i);
    CallbacksAreRegistered(actions[..n], i);
    assert actions[..n + 1][..n] == actions[..n];
    MonitorsOverAllRuns(actions);
    var locked := Run(actions[..n + 1]).value.instances[i];
    var last := Run(actions).value.instances[i];
    assert locked.monitor == Notifying(0, |locked.callbacks|);
    assert MonitorOk(last) && last.monitor == Gone(|locked.callbacks|);
  }

  lemma {:induction false} CountedIsTaken(actions: seq<Action>, a: Action) returns (n: nat)
    requires Count(actions, a) > 0
    ensures n < |actions| && actions[n] == a
    decreases |actions|
  {
    n := |actions| - 1;
    if actions[n] != a {
      n := CountedIsTaken(actions[..n], a);
    }
  }

  /** A monitor that has finished took the callback lock at some step, and the callbacks invoked are exactly those
      registered before that step. */
  lemma {:induction false} FinishedHasNotified(actions: seq<Action>, i: nat) returns (n: nat)
    requires Run(actions).Some?
    requires i < |Run(actions).value.instances| && Run(actions).value.instances[i].monitor.Gone?
    ensures n < |actions| && actions[n] == MonitorLocks(i)
    ensures Run(actions).value.instances[i].invoked == Registered(actions[..n], i)
  {
    AccountedOverAllRuns(actions, i);
    n := CountedIsTaken(actions, MonitorLocks(i));
    NotifiedExactly(actions, n, i);
  }

  lemma {:induction false} RunOneMore(actions: seq<Action>, a: Action)
    requires Run(actions).Some? && Enabled(Run(actions).value, a)
    ensures Run(actions + [a]) == Some(Step(Run(actions).value, a))
  {
    assert (actions + [a])[..|actions|] == actions;
  }

  /** A step of the monitor of VM `i`. */
  predicate MonitorStep(a: Action, i: nat) {
    a == MonitorStops(i) || a == MonitorLocks(i) || a == MonitorCalls(i) || a == MonitorEnds(i)
  }

  predicate MonitorSteps(actions: seq<Action>, i: nat) {
    forall k :: 0 <= k < |actions| ==> MonitorStep(actions[k], i)
  }

  lemma {:induction false} MonitorStepsCons(a: Action, rest: seq<Action>, i: nat)
    requires MonitorStep(a, i) && MonitorSteps(rest, i)
    ensures MonitorSteps([a] + rest, i)
  {
  }

  /** The next step of a monitor whose child has exited. */
  function NextStep(vm: Instance, i: nat): Action {
    match vm.monitor
    case Waiting => MonitorStops(i)
    case Stopped => MonitorLocks(i)
    case Notifying(next, total) => if next < total then MonitorCalls(i) else MonitorEnds(i)
    case Gone(_) => MonitorEnds(i)
  }

  /** Steps a monitor still has to take. */
  function StepsLeft(vm: Instance): nat {
    match vm.monitor
    case Waiting => |vm.callbacks| + 3
    case Stopped => |vm.callbacks| + 2
    case Notifying(next, total) => if next <= total then total - next + 1 else 0
    case Gone(_) => 0
  }

  /** The next step of the monitor can be taken, and is progress. */
  lemma {:induction false} MonitorAdvances(w: World, i: nat)
    requires i < |w.instances| && MonitorOk(w.instances[i]) && w.instances[i].exited && !w.instances[i].monitor.Gone?
    ensures var vm, a := w.instances[i], NextStep(w.instances[i], i);
            && Enabled(w, a) && MonitorStep(a, i)
            && i < |Step(w, a).instances|
            && var vm' := Step(w, a).instances[i];
               vm'.exited && StepsLeft(vm') == StepsLeft(vm) - 1 && (vm.monitor.Waiting? ==> vm'.monitor.Stopped?)
  {
  }

  /** A client with a handle is only ever kept waiting by a monitor that is notifying, and then only to register;
      and a child can exit at any time, once. */
  lemma {:induction false} ClientsCanAct(w: World, i: nat, callback: Callback)
    requires i < |w.instances|
    ensures w.instances[i].handles > 0 ==> Enabled(w, CloneHandle(i)) && Enabled(w, DropHandle(i)) && Enabled(w, Hold(i))
    ensures w.instances[i].handles > 0 ==> (Enabled(w, Register(i, callback)) <==> !w.instances[i].monitor.Notifying?)
    ensures Enabled(w, ChildExits(i)) <==> !w.instances[i].exited
    ensures w.instances[i].handles == 0 ==> !Enabled(w, Register(i, callback)) && !Enabled(w, Hold(i)) && !Enabled(w, CloneHandle(i))
  {
  }

  /** Once the child has exited, the monitor is never stuck: by its own steps it comes to its end, in a bounded number
      of them, and if it had not taken the callback lock yet, it has then invoked every callback
      registered so far. */
  lemma {:induction false} MonitorFinishes(actions: seq<Action>, i: nat) returns (more: seq<Action>)
    requires Run(actions).Some?
    requires i < |Run(actions).value.instances| && Run(actions).value.instances[i].exited
    ensures MonitorSteps(more, i)
    ensures |more| == StepsLeft(Run(actions).value.instances[i])
    ensures var end := Run(actions + more);
            && end.Some? && i < |end.value.instances| && end.value.instances[i].monitor.Gone?
            && (var monitor := Run(actions).value.instances[i].monitor;
                monitor.Waiting? || monitor.Stopped? ==> end.value.instances[i].invoked == Registered(actions, i))
    decreases StepsLeft(Run(actions).value.instances[i])
  {
    hide Run, Step, Enabled, Registered, MonitorOk, MonitorStep, MonitorSteps;
    var vm := Run(actions).value.instances[i];
    MonitorsOverAllRuns(actions);
    assert MonitorOk(vm);
    if vm.monitor.Gone? {
      more := [];
      assert MonitorSteps(more, i) by {
        NoSteps(i);
      }
      assert actions + more == actions;
    } else {
      var a := NextStep(vm, i);
      MonitorAdvances(Run(actions).value, i);
      RunOneMore(actions, a);
      hide StepsLeft;
      var rest := MonitorFinishes(actions + [a], i);
      more := [a] + rest;
      MonitorStepsCons(a, rest, i);
      assert actions + more == actions + [a] + rest;
      if vm.monitor.Waiting? {
        RegisteredMore(actions, a, i);
        assert Registered(actions + [a], i) == Registered(actions, i);
      } else if vm.monitor.Stopped? {
        assert (actions + more)[|actions|] == MonitorLocks(i) && (actions + more)[..|actions|] == actions;
        NotifiedExactly(actions + more, |actions|, i);
      }
    }
  }

  lemma {:induction false} NoSteps(i: nat)
    ensures MonitorSteps([], i)
  {
  }

  // ---------- CIDs over all runs ----------

  /** How many starts were attempted. */
  function Starts(actions: seq<Action>): nat {
    if actions == [] then 0 else Starts(actions[..|actions| - 1]) + if actions[|actions| - 1].Start? then 1 else 0
  }

  /** The CIDs of the VMs that were started: attempt `k` gets 10 + k, as long as there are any left, whether or not
      earlier attempts succeeded. */
  function Cids(actions: seq<Action>): seq<nat> {
    if actions == [] then [] else
    var before, last := actions[..|actions| - 1], actions[|actions| - 1];
    Cids(before) + if last == Start(true) && FIRST_GUEST_CID + Starts(before) < U32_MAX then [FIRST_GUEST_CID + Starts(before)] else []
  }

  ghost predicate CidsOk(actions: seq<Action>, w: World) {
    && w.nextCid == (if FIRST_GUEST_CID + Starts(actions) < U32_MAX then FIRST_GUEST_CID + Starts(actions) else U32_MAX)
    && |w.issued| == w.nextCid - FIRST_GUEST_CID
    && |w.instances| == |Cids(actions)|
    && forall i :: 0 <= i < |w.instances| ==> w.instances[i].cid == Cids(actions)[i]
  }

  lemma {:induction false} CidsMore(actions: seq<Action>, w: World, a: Action)
    requires CidsOk(actions, w) && Enabled(w, a)
    ensures CidsOk(actions + [a], Step(w, a))
  {
    hide Upgraded, PositionOf, SwapRemoved, Live;
    var more, w' := actions + [a], Step(w, a);
    assert more[..|more| - 1] == actions;
    if !a.Start? {
      assert |w'.instances| == |w.instances|;
      forall i | 0 <= i < |w.instances|
        ensures w'.instances[i].cid == w.instances[i].cid
      {
      }
    }
  }

  /** A failed start uses up its CID, and every VM has the CID of its own attempt. */
  lemma {:induction false} CidsOverAllRuns(actions: seq<Action>)
    requires Run(actions).Some?
    ensures CidsOk(actions, Run(actions).value)
    decreases |actions|
  {
    if actions != [] {
      var before, a := actions[..|actions| - 1], actions[|actions| - 1];
      assert actions == before + [a];
      CidsOverAllRuns(before);
      hide CidsOk, Step;
      CidsMore(before, Run(before).value, a);
    }
  }

  /** Where `debug_drop_vm` looks: at the first held reference to a VM with this CID. */
  lemma {:induction false} PositionFound(w: World, cid: int, i: nat)
    requires RegistryOk(w) && i in w.held && ToI32(CidOf(w, i)) == cid
    ensures var pos := PositionOf(w.held, CidIn(w), cid);
            pos.Some? && w.held[pos.value] == i && i < |w.instances|
  {
    hide Increasing;
    var pos := PositionOf(w.held, CidIn(w), cid);
    var k :| 0 <= k < |w.held| && w.held[k] == i;
    assert CidIn(w)(w.held[k]) == CidOf(w, i);
    assert pos.Some?;
    assert w.held[pos.value] in w.held;
    SameCid(w, i, w.held[pos.value]);
  }

  /** With the registry in order, as it always is, dropping the held reference to VM `i` by its CID hands exactly
      that reference to the caller ... */
  lemma {:induction false} DropHeldReturns(w: World, i: nat)
    requires RegistryOk(w) && i in w.held
    ensures var w' := Step(w, DropHeld(ToI32(CidOf(w, i))));
            && i < |w.instances| && CidOf(w, i) == w.instances[i].cid
            && multiset(w'.held) + multiset{i} == multiset(w.held)
            && w' == w.(held := w'.held, instances := w.instances[i := w.instances[i].(handles := w.instances[i].handles + 1)])
  {
    hide RegistryOk, PositionOf, ToI32, Step, SwapRemoved;
    var cid := ToI32(CidOf(w, i));
    PositionFound(w, cid, i);
    var pos := PositionOf(w.held, CidIn(w), cid);
    DropHeldAt(w, cid, pos.value);
    SwapRemovedMultiset(w.held, pos.value);
  }

  /** ... and with a CID that no held VM has, nothing happens. */
  lemma {:induction false} DropHeldMisses(w: World, cid: int)
    requires forall i :: i in w.held ==> ToI32(CidOf(w, i)) != cid
    ensures Step(w, DropHeld(cid)) == w
  {
    assert forall k :: 0 <= k < |w.held| ==> w.held[k] in w.held && CidIn(w)(w.held[k]) == CidOf(w, w.held[k]);
  }

  /** VMs with the same CID, as a signed number, are the same. */
  lemma {:induction false} SameCid(w: World, i: nat, j: nat)
    requires RegistryOk(w) && i < |w.instances| && j < |w.instances|
    requires ToI32(w.instances[i].cid) == ToI32(w.instances[j].cid)
    ensures i == j
  {
    assert w.instances[i].cid in w.issued && w.instances[j].cid in w.issued;
  }

  // ---------- The manager makes these steps ----------

  /** The manager's fields are those of the world. */
  ghost predicate Mirrors(state: State, w: World)
    reads state
  {
    state.Valid() && state.nextCid == w.nextCid && state.vms == w.vms && state.debugHeldVms == w.held
  }

  /** `startVm`: takes a CID, and adds the VM if it came up. */
  method StartVm(state: State, w: World, succeeds: bool) returns (cid: Option<nat>)
    requires Mirrors(state, w)
    modifies state
    ensures Mirrors(state, Step(w, Start(succeeds)))
    ensures var instances := Step(w, Start(succeeds)).instances;
            if cid.Some? then instances == w.instances + [Started(cid.value)] else instances == w.instances
  {
    var taken := state.AllocateCid();
    if taken.None? || !succeeds {
      return None;
    }
    state.AddVm(|w.instances|, LiveIn(w));
    cid := taken;
  }

  /** `debugHoldVmRef`. */
  method HoldVmRef(state: State, w: World, vm: nat)
    requires Mirrors(state, w) && Enabled(w, Hold(vm))
    modifies state
    ensures Mirrors(state, Step(w, Hold(vm)))
  {
    state.DebugHoldVm(vm);
  }

  /** `debugDropVmRef`: hands a held reference with this CID to the caller. */
  method DropVmRef(state: State, w: World, cid: int) returns (r: Option<nat>)
    requires Mirrors(state, w)
    modifies state
    ensures Mirrors(state, Step(w, DropHeld(cid)))
    ensures r.Some? ==> r.value in w.held && ToI32(CidOf(w, r.value)) == cid
    ensures r.None? ==> Step(w, DropHeld(cid)) == w
  {
    r := state.DebugDropVm(cid, CidIn(w));
  }
}
