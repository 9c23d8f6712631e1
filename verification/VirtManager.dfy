/** The lifetime of VMs in virtmanager: the registry of started VMs with its CID allocator and its list of
    weak references, and the monitor thread of each VM that reports its death.

    `State` is the manager's mutex-protected state. `World` adds what surrounds it (the instances, the
    references clients hold, the monitor threads), and `Step` is one atomic step of any of them.
 */
module VirtManager {
  import opened Results

  const FIRST_GUEST_CID: nat := 10
  const U32_MAX: nat := 0xffff_ffff

  type Callback = nat

  /** The monitor thread: waiting for the child; past marking the VM as not running; calling callback
      `next` of the `total` it found when it took the callback lock; or finished. */
  datatype Monitor = Waiting | Stopped | Notifying(next: nat, total: nat) | Gone(total: nat)

  /** A `VmInstance`. `handles` counts the references clients hold; `invoked` are the callbacks called so
      far, in order. */
  datatype Instance = Instance(
    cid: nat, handles: nat, killed: bool, exited: bool, running: bool, monitor: Monitor,
    callbacks: seq<Callback>, invoked: seq<Callback>)

  function Started(cid: nat): Instance {
    Instance(cid, 1, false, false, true, Waiting, [], [])
  }

  // ---------- The manager's state ----------

  /** The CID that the allocator hands out, if there is one left. */
  function AllocatedCid(nextCid: nat): Option<nat> {
    if nextCid + 1 > U32_MAX then None else Some(nextCid)
  }

  /** The weak references that can still be upgraded. */
  function Upgraded(vms: seq<nat>, live: nat -> bool): seq<nat> {
    if vms == [] then [] else (if live(vms[0]) then [vms[0]] else []) + Upgraded(vms[1..], live)
  }

  lemma {:induction false} UpgradedHead(vms: seq<nat>, live: nat -> bool)
    ensures vms == [] ==> Upgraded(vms, live) == []
    ensures vms != [] ==>
              Upgraded(vms, live) == if live(vms[0]) then [vms[0]] + Upgraded(vms[1..], live) else Upgraded(vms[1..], live)
  {
  }

  /** CIDs are compared as 32-bit signed integers: the one that is congruent modulo 2^32. */
  function ToI32(cid: nat): (r: int)
    ensures cid <= U32_MAX ==> -0x8000_0000 <= r < 0x8000_0000 && (r - cid) % 0x1_0000_0000 == 0
  {
    if cid < 0x8000_0000 then cid else cid - 0x1_0000_0000
  }

  /** First position of a held reference to a VM with this CID. */
  function PositionOf(held: seq<nat>, cidOf: nat -> nat, cid: int): (r: Option<nat>)
    ensures r.Some? ==> r.value < |held| && ToI32(cidOf(held[r.value])) == cid
    ensures r.None? ==> forall i :: 0 <= i < |held| ==> ToI32(cidOf(held[i])) != cid
  {
    if held == [] then None
    else if ToI32(cidOf(held[0])) == cid then Some(0)
    else
      var rest := PositionOf(held[1..], cidOf, cid);
      if rest.None? then None else Some(rest.value + 1)
  }

  function SwapRemoved(s: seq<nat>, pos: nat): seq<nat>
    requires pos < |s|
  {
    s[pos := s[|s| - 1]][..|s| - 1]
  }

  /** `State`, with instances named by numbers. `issued` are the CIDs handed out so far. */
  class State {
    var nextCid: nat
    var vms: seq<nat>
    var debugHeldVms: seq<nat>
    ghost var issued: set<nat>

    /** The CIDs handed out are those below the next one. */
    ghost predicate Valid()
      reads this
    {
      FIRST_GUEST_CID <= nextCid <= U32_MAX && forall c :: c in issued <==> FIRST_GUEST_CID <= c < nextCid
    }

    constructor ()
      ensures Valid() && nextCid == FIRST_GUEST_CID && vms == [] && debugHeldVms == [] && issued == {}
    {
      nextCid, vms, debugHeldVms, issued := FIRST_GUEST_CID, [], [], {};
    }

    /** Hands out a CID in [10, 2^32 - 2] that was never handed out before, the least one; none exactly if all of
        them were. */
    method AllocateCid() returns (cid: Option<nat>)
      requires Valid()
      modifies this`nextCid, this`issued
      ensures Valid()
      ensures cid.None? <==> forall c :: FIRST_GUEST_CID <= c < U32_MAX ==> c in old(issued)
      ensures cid.None? ==> issued == old(issued)
      ensures cid.Some? ==>
                && FIRST_GUEST_CID <= cid.value < U32_MAX
                && cid.value !in old(issued) && issued == old(issued) + {cid.value}
                && forall c :: FIRST_GUEST_CID <= c < cid.value ==> c in old(issued)
      ensures cid == AllocatedCid(old(nextCid)) && nextCid == old(nextCid) + if cid.Some? then 1 else 0
    {
      cid := Some(nextCid);
      if nextCid + 1 > U32_MAX {
        return None;
      }
      assert nextCid !in issued;
      issued := issued + {nextCid};
      nextCid := nextCid + 1;
    }

    /** Every VM in the list that still has a strong reference, in order. */
    method Vms(live: nat -> bool) returns (r: seq<nat>)
      ensures r == Upgraded(vms, live)
    {
      hide Upgraded;
      r := [];
      var rest := vms;
      while rest != []
        invariant Upgraded(vms, live) == r + Upgraded(rest, live)
        decreases |rest|
      {
        UpgradedHead(rest, live);
        if live(rest[0]) {
          assert r + ([rest[0]] + Upgraded(rest[1..], live)) == (r + [rest[0]]) + Upgraded(rest[1..], live);
          r := r + [rest[0]];
        }
        rest := rest[1..];
      }
      UpgradedHead(rest, live);
    }

    /** Drops dead references, then adds the new one. */
    method AddVm(vm: nat, live: nat -> bool)
      modifies this`vms
      ensures vms == Upgraded(old(vms), live) + [vm]
    {
      vms := Vms(live);
      vms := vms + [vm];
    }

    method DebugHoldVm(vm: nat)
      modifies this`debugHeldVms
      ensures debugHeldVms == old(debugHeldVms) + [vm]
    {
      debugHeldVms := debugHeldVms + [vm];
    }

    /** Gives up one held reference to a VM with this CID, if there is one: exactly that reference. */
    method DebugDropVm(cid: int, cidOf: nat -> nat) returns (r: Option<nat>)
      modifies this`debugHeldVms
      ensures r.None? <==> PositionOf(old(debugHeldVms), cidOf, cid).None?
      ensures r.None? ==> debugHeldVms == old(debugHeldVms)
      ensures r.Some? ==> r.value in old(debugHeldVms) && ToI32(cidOf(r.value)) == cid && multiset(debugHeldVms) + multiset{r.value} == multiset(old(debugHeldVms))
      ensures r.Some? ==> debugHeldVms == SwapRemoved(old(debugHeldVms), PositionOf(old(debugHeldVms), cidOf, cid).value)
    {
      var pos := PositionOf(debugHeldVms, cidOf, cid);
      if pos.None? {
        return None;
      }
      r := Some(debugHeldVms[pos.value]);
      SwapRemovedMultiset(debugHeldVms, pos.value);
      debugHeldVms := debugHeldVms[pos.value := debugHeldVms[|debugHeldVms| - 1]][..|debugHeldVms| - 1];
    }
  }

  /** Dropping by the CID of a VM that was just held finds a reference with that CID; it is the one just held, and
      the list is as before, if no other held VM has this CID. */
  lemma {:induction false} HoldDropRoundTrip(held: seq<nat>, vm: nat, cidOf: nat -> nat)
    ensures var cid, pos := ToI32(cidOf(vm)), PositionOf(held + [vm], cidOf, ToI32(cidOf(vm)));
            && pos.Some?
            && (PositionOf(held, cidOf, cid).None? ==> pos.value == |held| && SwapRemoved(held + [vm], pos.value) == held)
  {
    var more := held + [vm];
    assert more[|held|] == vm && forall i :: 0 <= i < |held| ==> more[i] == held[i];
  }

  lemma {:induction false} SwapRemovedMultiset(s: seq<nat>, pos: nat)
    requires pos < |s|
    ensures multiset(SwapRemoved(s, pos)) + multiset{s[pos]} == multiset(s)
  {
    var n := |s| - 1;
    assert s == s[..n] + [s[n]];
    if pos < n {
      var front := s[..n];
      assert front == front[..pos] + [s[pos]] + front[pos + 1..];
      assert SwapRemoved(s, pos) == front[..pos] + [s[n]] + front[pos + 1..];
    } else {
      assert SwapRemoved(s, pos) == s[..n];
    }
  }

  // ---------- The world around it ----------

  datatype World = World(nextCid: nat, vms: seq<nat>, held: seq<nat>, instances: seq<Instance>, issued: seq<nat>)

  const INIT: World := World(FIRST_GUEST_CID, [], [], [], [])

  /** The instance still has a strong reference: from a handle, from the manager on behalf of a client, or
      from its monitor thread. */
  predicate Live(w: World, i: nat) {
    i < |w.instances| && (w.instances[i].handles > 0 || i in w.held || !w.instances[i].monitor.Gone?)
  }

  function CidOf(w: World, i: nat): nat {
    if i < |w.instances| then w.instances[i].cid else 0
  }

  function LiveIn(w: World): nat -> bool {
    (i: nat) => Live(w, i)
  }

  function CidIn(w: World): nat -> nat {
    (i: nat) => CidOf(w, i)
  }

  datatype Action =
    | Start(succeeds: bool)
    | CloneHandle(vm: nat)
    | DropHandle(vm: nat)
    | Hold(vm: nat)
    | DropHeld(cid: int)
    | Register(vm: nat, callback: Callback)
    | ChildExits(vm: nat)
    | MonitorStops(vm: nat)
    | MonitorLocks(vm: nat)
    | MonitorCalls(vm: nat)
    | MonitorEnds(vm: nat)

  /** When an instance can take a step. A client needs a handle to use it, and `Register` waits for the
      callback lock, which the monitor holds while it notifies. */
  predicate EnabledIn(vm: Instance, a: Action) {
    match a
    case Register(_, _) => vm.handles > 0 && !vm.monitor.Notifying?
    case ChildExits(_) => !vm.exited
    case MonitorStops(_) => vm.monitor.Waiting? && vm.exited
    case MonitorLocks(_) => vm.monitor.Stopped?
    case MonitorCalls(_) => vm.monitor.Notifying? && vm.monitor.next < vm.monitor.total && vm.monitor.next < |vm.callbacks|
    case MonitorEnds(_) => vm.monitor.Notifying? && vm.monitor.next == vm.monitor.total
    case _ => vm.handles > 0
  }

  predicate Enabled(w: World, a: Action) {
    a.Start? || a.DropHeld? || (a.vm < |w.instances| && EnabledIn(w.instances[a.vm], a))
  }

  /** The instance after its own step; `held` says whether the manager holds a reference to it. */
  function StepInstance(vm: Instance, a: Action, held: bool): Instance
    requires EnabledIn(vm, a)
  {
    match a
    case CloneHandle(_) => vm.(handles := vm.handles + 1)
    case DropHandle(_) => vm.(handles := vm.handles - 1, killed := vm.killed || (vm.handles == 1 && !held))
    case Register(_, callback) => vm.(callbacks := vm.callbacks + [callback])
    case ChildExits(_) => vm.(exited := true)
    case MonitorStops(_) => vm.(running := false, monitor := Stopped)
    case MonitorLocks(_) => vm.(monitor := Notifying(0, |vm.callbacks|))
    case MonitorCalls(_) =>
      vm.(invoked := vm.invoked + [vm.callbacks[vm.monitor.next]], monitor := Notifying(vm.monitor.next + 1, vm.monitor.total))
    case MonitorEnds(_) => vm.(monitor := Gone(vm.monitor.total))
    case _ => vm
  }

  function Step(w: World, a: Action): World
    requires Enabled(w, a)
  {
    match a
    case Start(succeeds) =>
      var cid := AllocatedCid(w.nextCid);
      if cid.None? then w else
      var issued := w.(nextCid := w.nextCid + 1, issued := w.issued + [cid.value]);
      if !succeeds then issued
      else issued.(instances := w.instances + [Started(cid.value)],
                   vms := Upgraded(w.vms, LiveIn(w)) + [|w.instances|])
    case Hold(vm) => w.(held := w.held + [vm])
    case DropHeld(cid) =>
      var pos := PositionOf(w.held, CidIn(w), cid);
      if pos.None? then w else
      var vm := w.held[pos.value];
      var rest := w.(held := SwapRemoved(w.held, pos.value));
      if vm < |w.instances| then
        rest.(instances := w.instances[vm := w.instances[vm].(handles := w.instances[vm].handles + 1)])
      else rest
    case _ => w.(instances := w.instances[a.vm := StepInstance(w.instances[a.vm], a, a.vm in w.held)])
  }

  function Run(actions: seq<Action>): Option<World> {
    if actions == [] then Some(INIT) else
    var before := Run(actions[..|actions| - 1]);
    var last := actions[|actions| - 1];
    if before.Some? && Enabled(before.value, last) then Some(Step(before.value, last)) else None
  }

  // ---------- The registry over all runs ----------

  ghost predicate Increasing(s: seq<nat>) {
    forall i, j :: 0 <= i < j < |s| ==> s[i] < s[j]
  }

  ghost predicate RegistryOk(w: World) {
    && FIRST_GUEST_CID <= w.nextCid <= U32_MAX
    && Increasing(w.issued)
    && (forall c :: c in w.issued ==> FIRST_GUEST_CID <= c < w.nextCid)
    && (forall i :: 0 <= i < |w.instances| ==> w.instances[i].cid in w.issued)
    && (forall i, j :: 0 <= i < j < |w.instances| ==> w.instances[i].cid < w.instances[j].cid)
    && Increasing(w.vms)
    && (forall i :: i in w.vms ==> i < |w.instances|)
    && (forall i :: i in w.held ==> i < |w.instances|)
    && (forall i: nat :: Live(w, i) ==> i in w.vms)
    && (forall i :: 0 <= i < |w.instances| ==> (w.instances[i].killed <==> w.instances[i].handles == 0 && i !in w.held))
  }

  lemma {:induction false} UpgradedIs(vms: seq<nat>, live: nat -> bool)
    requires Increasing(vms)
    ensures Increasing(Upgraded(vms, live))
    ensures forall i :: i in Upgraded(vms, live) <==> i in vms && live(i)
  {
    if vms != [] {
      var rest := vms[1..];
      UpgradedIs(rest, live);
      assert vms == [vms[0]] + rest;
      var up := Upgraded(rest, live);
      forall j | 0 <= j < |up|
        ensures vms[0] < up[j]
      {
        assert up[j] in up && up[j] in rest;
      }
    }
  }

  lemma {:induction false} IncreasingAppend(s: seq<nat>, x: nat)
    requires Increasing(s) && forall y :: y in s ==> y < x
    ensures Increasing(s + [x])
  {
    forall i, j | 0 <= i < j < |s| + 1
      ensures (s + [x])[i] < (s + [x])[j]
    {
      assert s[i] in s;
    }
  }

  lemma {:induction false} SwapRemovedElements(s: seq<nat>, pos: nat, x: nat)
    requires pos < |s|
    ensures x in SwapRemoved(s, pos) ==> x in s
    ensures x in s && x != s[pos] ==> x in SwapRemoved(s, pos)
  {
    SwapRemovedMultiset(s, pos);
    assert x in SwapRemoved(s, pos) <==> x in multiset(SwapRemoved(s, pos));
    assert x in s <==> x in multiset(s);
  }

  lemma {:induction false} StartKeepsRegistry(w: World, succeeds: bool)
    requires RegistryOk(w)
    ensures RegistryOk(Step(w, Start(succeeds)))
  {
    UpgradedIs(w.vms, LiveIn(w));
    IncreasingAppend(w.issued, w.nextCid);
    IncreasingAppend(Upgraded(w.vms, LiveIn(w)), |w.instances|);
    hide Increasing, Upgraded;
    var w' := Step(w, Start(succeeds));
    if w' != w && succeeds {
      forall i: nat | Live(w', i)
        ensures i in w'.vms
      {
        if i < |w.instances| {
          assert Live(w, i);
        } else {
          assert w'.vms[|w'.vms| - 1] == i;
        }
      }
    }
  }

  lemma {:induction false} DropHeldKeepsRegistry(w: World, cid: int)
    requires RegistryOk(w)
    ensures RegistryOk(Step(w, DropHeld(cid)))
  {
    hide Increasing;
    var w' := Step(w, DropHeld(cid));
    var pos := PositionOf(w.held, CidIn(w), cid);
    if pos.Some? {
      forall i
        ensures i in w'.held ==> i in w.held
        ensures i in w.held && i != w.held[pos.value] ==> i in w'.held
      {
        SwapRemovedElements(w.held, pos.value, i);
      }
      forall i: nat | Live(w', i)
        ensures i in w'.vms
      {
        assert Live(w, i);
      }
    }
  }

  lemma {:induction false} StepKeepsRegistry(w: World, a: Action)
    requires RegistryOk(w) && Enabled(w, a)
    ensures RegistryOk(Step(w, a))
  {
    match a
    case Start(succeeds) => StartKeepsRegistry(w, succeeds);
    case DropHeld(cid) => DropHeldKeepsRegistry(w, cid);
    case _ => OwnStepKeepsRegistry(w, a);
  }

  lemma {:induction false} OwnStepKeepsRegistry(w: World, a: Action)
    requires RegistryOk(w) && Enabled(w, a) && !a.Start? && !a.DropHeld?
    ensures RegistryOk(Step(w, a))
  {
    hide Increasing, Upgraded, PositionOf, SwapRemoved;
    var w' := Step(w, a);
    assert forall i :: 0 <= i < |w.instances| ==> w'.instances[i].cid == w.instances[i].cid;
    forall i: nat | Live(w', i)
      ensures i in w'.vms
    {
      assert Live(w, i);
    }
  }

  /** In every reachable state CIDs are in [10, 2^32 - 2] and strictly increase from VM to VM and from issue
      to issue, so none is issued twice; the list of weak references is in order and misses no VM that
      is still referenced; and a VM was killed exactly if no client and no held reference refers to it. */
  lemma {:induction false} RegistryOverAllRuns(actions: seq<Action>)
    requires Run(actions).Some?
    ensures RegistryOk(Run(actions).value)
    decreases |actions|
  {
    if actions != [] {
      var before := actions[..|actions| - 1];
      RegistryOverAllRuns(before);
      StepKeepsRegistry(Run(before).value, actions[|actions| - 1]);
    }
  }

  /** `vms()` returns exactly the started instances that are still referenced by a handle, by the manager or
      by their monitor, each once, in the order of their CIDs. */
  lemma {:induction false} ListsExactlyTheLive(actions: seq<Action>)
    requires Run(actions).Some?
    ensures var w := Run(actions).value;
            var listed := Upgraded(w.vms, LiveIn(w));
            && (forall i: nat :: i in listed <==>
                  i < |w.instances| && (w.instances[i].handles > 0 || i in w.held || !w.instances[i].monitor.Gone?))
            && (forall j, k :: 0 <= j < k < |listed| ==> listed[j] < listed[k] < |w.instances| && CidOf(w, listed[j]) < CidOf(w, listed[k]))
  {
    RegistryOverAllRuns(actions);
    var w := Run(actions).value;
    UpgradedIs(w.vms, LiveIn(w));
    var listed := Upgraded(w.vms, LiveIn(w));
    forall j, k | 0 <= j < k < |listed|
      ensures listed[j] < listed[k] < |w.instances| && CidOf(w, listed[j]) < CidOf(w, listed[k])
    {
      assert listed[k] in listed && listed[j] in listed;
    }
  }

  /** An instance of a VM that is listed although no handle and no held reference is left: its child has not
      exited yet. */
  lemma {:induction false} ListedWithoutReferences()
    ensures var run := Run([Start(true), DropHandle(0)]);
            && run.Some? && |run.value.instances| == 1
            && run.value.instances[0].handles == 0 && run.value.held == []
            && Upgraded(run.value.vms, LiveIn(run.value)) == [0]
  {
    var a, b := [Start(true)], [Start(true), DropHandle(0)];
    assert a[..0] == [] && b[..1] == a;
    assert Run([]) == Some(INIT);
    var w := Run(a).value;
    assert w.vms == [0] && w.instances == [Started(FIRST_GUEST_CID)];
    var w' := Step(w, DropHandle(0));
    assert Live(w', 0) && w'.vms == [0];
    assert Upgraded(w'.vms[1..], LiveIn(w')) == [];
  }

  // ---------- Death notification over all runs ----------

  ghost predicate MonitorOk(vm: Instance) {
    && (vm.running <==> vm.monitor.Waiting?)
    && match vm.monitor
       case Waiting => vm.invoked == []
       case Stopped => vm.invoked == []
       case Notifying(next, total) => next <= total == |vm.callbacks| && vm.invoked == vm.callbacks[..next]
       case Gone(total) => total <= |vm.callbacks| && vm.invoked == vm.callbacks[..total]
  }

  ghost predicate MonitorsOk(w: World) {
    forall i :: 0 <= i < |w.instances| ==> MonitorOk(w.instances[i])
  }

  lemma {:induction false} StepInstanceOk(vm: Instance, a: Action, held: bool)
    requires MonitorOk(vm) && EnabledIn(vm, a)
    ensures MonitorOk(StepInstance(vm, a, held))
  {
  }

  lemma {:induction false} StepKeepsMonitors(w: World, a: Action)
    requires MonitorsOk(w) && Enabled(w, a)
    ensures MonitorsOk(Step(w, a))
  {
    if !a.Start? && !a.DropHeld? {
      StepInstanceOk(w.instances[a.vm], a, a.vm in w.held);
    }
  }

  /** In every reachable state: `running()` is true exactly until the monitor has seen the child exit; no
      callback has been invoked before that; while the monitor notifies it has invoked the first
      callbacks in order, once each; and when it is done, exactly those it found. */
  lemma {:induction false} MonitorsOverAllRuns(actions: seq<Action>)
    requires Run(actions).Some?
    ensures MonitorsOk(Run(actions).value)
    decreases |actions|
  {
    if actions != [] {
      var before := actions[..|actions| - 1];
      MonitorsOverAllRuns(before);
      StepKeepsMonitors(Run(before).value, actions[|actions| - 1]);
    }
  }

  /** What no step undoes for an instance: it keeps its CID, a VM that stopped does not run again, and
      callbacks and invocations are only ever appended. */
  ghost predicate Continues(vm: Instance, vm': Instance) {
    && vm'.cid == vm.cid
    && (!vm.running ==> !vm'.running)
    && vm.callbacks <= vm'.callbacks && vm.invoked <= vm'.invoked
    && (vm.monitor.Notifying? ==> (vm'.monitor.Notifying? || vm'.monitor.Gone?) && vm'.monitor.total == vm.monitor.total)
    && (vm.monitor.Gone? ==> vm'.monitor == vm.monitor && vm'.invoked == vm.invoked)
  }

  lemma {:induction false} StepContinues(w: World, a: Action, i: nat)
    requires Enabled(w, a) && i < |w.instances|
    ensures i < |Step(w, a).instances| && Continues(w.instances[i], Step(w, a).instances[i])
  {
  }

  lemma {:induction false} RunContinues(actions: seq<Action>, n: nat, i: nat)
    requires n <= |actions| && Run(actions).Some?
    ensures Run(actions[..n]).Some?
    ensures i < |Run(actions[..n]).value.instances| ==>
              i < |Run(actions).value.instances| && Continues(Run(actions[..n]).value.instances[i], Run(actions).value.instances[i])
    decreases |actions|
  {
    if n == |actions| {
      assert actions[..n] == actions;
    } else {
      var before := actions[..|actions| - 1];
      assert before[..n] == actions[..n];
      RunContinues(before, n, i);
      if i < |Run(before).value.instances| {
        StepContinues(Run(before).value, actions[|actions| - 1], i);
      }
    }
  }
}
