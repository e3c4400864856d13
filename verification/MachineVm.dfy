// The machine controller's passes over one VM and its flexible GPU (fGPU), with the cloud moving
// between any two calls, any call failing, and the fGPU possibly getting lost.
module MachineVm {

  // Allocating and Attaching stand for the states in which the controller only waits.
  datatype Fgpu = NoFgpu | Allocating | Free | Attaching | Attached

  datatype Vm = NoVm | Pending | Stopped | Starting | Running

  datatype Config = Config(wantsFgpu: bool, controlPlane: bool)
  {
    // Control planes are not given the fGPU of their specification.
    predicate FgpuWorker() { wantsFgpu && !controlPlane }
  }

  // The VM and the fGPU in the cloud with their subregions, found being whether the fGPU is still
  // discoverable, by its entry in the status or by its name tag; then readiness and whether the
  // generation is recorded, from the machine's status.
  datatype State = State(fgpu: Fgpu, fgpuAz: string, found: bool, vm: Vm, vmAz: string, ready: bool, recorded: bool)
  {
    predicate Sees(c: Config) { c.wantsFgpu && found && fgpu != NoFgpu }

    // The cloud has nothing under way.
    predicate Settled() { !fgpu.Allocating? && !fgpu.Attaching? && !vm.Pending? && !vm.Starting? }

    // The steps still ahead. Without a VM, an fGPU that is lost has to be allocated again.
    function Rank(): nat {
      (if vm.NoVm? && !found then 4 else FgpuRank())
      + (match vm case NoVm => 4 case Pending => 3 case Stopped => 2 case Starting => 1 case Running => 0)
      + (if ready then 0 else 1) + (if recorded then 0 else 1)
    }

    function FgpuRank(): nat {
      match fgpu case NoFgpu => 4 case Allocating => 3 case Free => 2 case Attaching => 1 case Attached => 0
    }
  }

  const INITIAL := State(NoFgpu, "", true, NoVm, "", false, false)

  // ---- Steps ----

  datatype Act = Read | AllocateFgpu(az: string) | CreateVm(az: string) | LinkFgpu | StartVm | SetReady | Record
               | Cloud | Lose

  datatype Entry = Entry(before: State, act: Act, after: State)
  {
    predicate Effective() { before != after }

    // The fGPU gets lost: its name tag disappears with its entry in the status, or is never set.
    predicate Loses() { before.found && !after.found }

    // What the act can do. A call that fails may or may not have its effect.
    predicate Possible(c: Config) {
      before == after ||
      match act
      case AllocateFgpu(az) => exists tagged: bool ::
        after == before.(fgpu := Allocating, fgpuAz := az, found := tagged)
      case CreateVm(az) => before.vm.NoVm? && after == before.(vm := Pending, vmAz := az)
      case LinkFgpu => after == before.(fgpu := Attaching)
      case StartVm => after == before.(vm := Starting)
      case SetReady => after == before.(ready := true)
      case Record => after == before.(recorded := true)
      case Cloud => after == FgpuMoves(before) || after == VmMoves(c, before)
      case Lose => after == before.(found := false)
      case Read => false
    }

    // The order that the source intends for a worker with an fGPU: create the VM after the allocation and
    // with the fGPU, link while stopped, start and declare ready only once attached.
    predicate Ordered() {
      match act
      case AllocateFgpu(_) => before.fgpu.NoFgpu? && before.vm.NoVm?
      case CreateVm(az) => before.vm.NoVm? && !before.fgpu.NoFgpu? && az == before.fgpuAz
      case LinkFgpu => before.vm.Stopped? && before.fgpu.Free?
      case StartVm => before.vm.Stopped? && before.fgpu.Attached?
      case SetReady => before.vm.Running? && before.fgpu.Attached?
      case Record => before.ready
      case _ => true
    }

    // What the passes respect at all times, known being whether the pass has an fGPU in hand.
    predicate Disciplined(c: Config, known: bool) {
      match act
      case AllocateFgpu(_) => c.FgpuWorker() && before.vm.NoVm? && !before.Sees(c)
      case CreateVm(_) => before.vm.NoVm? && (c.FgpuWorker() ==> known && Ordered())
      case LinkFgpu => c.wantsFgpu && known && Ordered()
      case StartVm => before.vm.Stopped? && (known ==> before.fgpu.Attached?)
      case SetReady => before.vm.Running? && (known ==> before.fgpu.Attached?)
      case _ => Ordered()
    }
  }

  function FgpuMoves(s: State): State {
    match s.fgpu
    case Allocating => s.(fgpu := Free)
    case Attaching => s.(fgpu := Attached)
    case _ => s
  }

  // A VM with an fGPU specification is created without booting.
  function VmMoves(c: Config, s: State): State {
    match s.vm
    case Pending => s.(vm := if c.wantsFgpu then Stopped else Running)
    case Starting => s.(vm := Running)
    case _ => s
  }

  ghost predicate Chain(c: Config, from: State, log: seq<Entry>, to: State) {
    && (if log == [] then from == to else log[0].before == from && log[|log| - 1].after == to)
    && (forall i :: 0 <= i < |log| - 1 ==> log[i].after == log[i + 1].before)
    && (forall e <- log :: e.Possible(c))
  }

  // Whether the current pass has an fGPU in hand: it found one at its read, or allocated one since.
  function Known(c: Config, log: seq<Entry>): bool {
    if log == [] then false
    else KnownNext(c, Known(c, log[..|log| - 1]), log[|log| - 1])
  }

  function KnownNext(c: Config, known: bool, e: Entry): bool {
    if e.act.Read? then e.before.Sees(c) else known || e.act.AllocateFgpu?
  }

  ghost predicate AllDisciplined(c: Config, log: seq<Entry>) {
    forall i :: 0 <= i < |log| ==> log[i].Disciplined(c, Known(c, log[..i]))
  }

  ghost predicate NoLoss(log: seq<Entry>) {
    forall e <- log :: !e.Loses()
  }

  function EffectiveCount(log: seq<Entry>): nat {
    if log == [] then 0 else EffectiveCount(log[..|log| - 1]) + (if log[|log| - 1].Effective() then 1 else 0)
  }

  // ---- What the order of the calls gives ----

  // What holds in every run of an fGPU worker, with or without losses.
  ghost predicate Sound(s: State, known: bool) {
    && (!s.vm.NoVm? ==> !s.fgpu.NoFgpu? && s.vmAz == s.fgpuAz)
    && (s.fgpu.Attaching? || s.fgpu.Attached? ==> !s.vm.NoVm? && !s.vm.Pending?)
    && (s.found && (s.vm.Starting? || s.vm.Running?) ==> s.fgpu.Attached?)
    && (s.ready ==> s.vm.Running?)
    && (s.recorded ==> s.ready)
    && (!known ==> s.fgpu.NoFgpu? || !s.found)
  }

  lemma StepKeepsSound(c: Config, known: bool, e: Entry)
    requires c.FgpuWorker() && Sound(e.before, known) && e.Possible(c) && e.Disciplined(c, known)
    ensures Sound(e.after, KnownNext(c, known, e))
    ensures e.before.found ==> e.Ordered()
    ensures e.before.found && !e.Loses() && e.Effective() ==> e.after.Rank() == e.before.Rank() - 1
  {
  }

  lemma {:induction false} RunIsSound(c: Config, log: seq<Entry>, s: State)
    requires c.FgpuWorker() && Chain(c, INITIAL, log, s) && AllDisciplined(c, log)
    ensures Sound(s, Known(c, log))
  {
    if log != [] {
      var n := |log| - 1;
      PrefixOfRun(c, log, s, n);
      RunIsSound(c, log[..n], log[n].before);
      StepKeepsSound(c, Known(c, log[..n]), log[n]);
    }
  }

  // What holds in every run of another machine: it has no fGPU.
  ghost predicate Plain(s: State, known: bool) {
    s.fgpu.NoFgpu? && !known && (s.ready ==> s.vm.Running?) && (s.recorded ==> s.ready)
  }

  lemma {:induction false} RunIsPlain(c: Config, log: seq<Entry>, s: State)
    requires !c.FgpuWorker() && Chain(c, INITIAL, log, s) && AllDisciplined(c, log)
    ensures Plain(s, Known(c, log))
  {
    if log != [] {
      var n := |log| - 1;
      PrefixOfRun(c, log, s, n);
      RunIsPlain(c, log[..n], log[n].before);
      StepKeepsPlain(c, Known(c, log[..n]), log[n]);
    }
  }

  lemma StepKeepsPlain(c: Config, known: bool, e: Entry)
    requires !c.FgpuWorker() && Plain(e.before, known) && e.Possible(c) && e.Disciplined(c, known)
    ensures Plain(e.after, KnownNext(c, known, e))
  {
  }

  // As long as nothing is lost, the effective steps are counted by the rank: there are at most ten.
  lemma {:induction false} RunIsShort(c: Config, log: seq<Entry>, s: State)
    requires c.FgpuWorker() && Chain(c, INITIAL, log, s) && AllDisciplined(c, log) && NoLoss(log)
    ensures s.found && EffectiveCount(log) == 10 - s.Rank()
  {
    if log != [] {
      var n := |log| - 1;
      assert log == log[..n] + [log[n]];
      PrefixOfRun(c, log, s, n);
      RunIsShort(c, log[..n], log[n].before);
      RunIsSound(c, log[..n], log[n].before);
      StepKeepsSound(c, Known(c, log[..n]), log[n]);
    }
  }

  lemma PrefixOfRun(c: Config, log: seq<Entry>, s: State, i: nat)
    requires Chain(c, INITIAL, log, s) && AllDisciplined(c, log) && i < |log|
    ensures Chain(c, INITIAL, log[..i], log[i].before) && AllDisciplined(c, log[..i])
    ensures log[i].Possible(c) && log[i].Disciplined(c, Known(c, log[..i]))
  {
    assert log[i] in log;
    forall j | 0 <= j < i
      ensures log[..i][j].Disciplined(c, Known(c, log[..i][..j]))
    {
      assert log[..i][..j] == log[..j];
    }
  }

  // In a run of an fGPU worker, everything up to the first loss is in order, that loss included. In
  // particular, as long as the allocated fGPU stays discoverable, the VM is created only after the
  // allocation, linked only while stopped, started only once attached, and declared ready only when
  // running with the fGPU attached; and there are at most ten effective steps.
  lemma OrderedUntilLoss(c: Config, log: seq<Entry>, s: State, i: nat)
    requires c.FgpuWorker() && Chain(c, INITIAL, log, s) && AllDisciplined(c, log)
    requires i < |log| && NoLoss(log[..i])
    ensures log[i].Ordered() && Sound(log[i].before, true) && log[i].before.found
    ensures EffectiveCount(log[..i]) == 10 - log[i].before.Rank()
  {
    PrefixOfRun(c, log, s, i);
    RunIsSound(c, log[..i], log[i].before);
    RunIsShort(c, log[..i], log[i].before);
    StepKeepsSound(c, Known(c, log[..i]), log[i]);
  }

  // ---- What losing the fGPU does ----

  // The VM exists, and its fGPU is lost before it was ever linked.
  ghost predicate Stranded(s: State) {
    !s.vm.NoVm? && !s.found && (s.fgpu.Allocating? || s.fgpu.Free?)
  }

  // The state before the step i, or the last one.
  function StateAt(log: seq<Entry>, s: State, i: nat): State {
    if i < |log| then log[i].before else s
  }

  lemma StepAt(c: Config, log: seq<Entry>, s: State, i: nat)
    requires Chain(c, INITIAL, log, s) && AllDisciplined(c, log) && i < |log|
    ensures log[i].Possible(c) && log[i].Disciplined(c, Known(c, log[..i]))
    ensures StateAt(log, s, i + 1) == log[i].after
    ensures Known(c, log[..i + 1]) == KnownNext(c, Known(c, log[..i]), log[i])
  {
    assert log[i] in log;
    assert log[..i + 1][..i] == log[..i];
  }

  lemma StrandedStep(c: Config, known: bool, e: Entry)
    requires Stranded(e.before) && e.Possible(c) && e.Disciplined(c, known) && (e.act.Read? || !known)
    ensures Stranded(e.after) && !KnownNext(c, known, e)
  {
  }

  // From the step r on, where a pass reads the fGPU, to the step i: a pass that finds a stranded fGPU never
  // has it in hand again, nor does any later one, and it stays stranded.
  lemma {:induction false} StrandedStays(c: Config, log: seq<Entry>, s: State, r: nat, i: nat)
    requires Chain(c, INITIAL, log, s) && AllDisciplined(c, log) && r < i <= |log|
    requires log[r].act.Read? && Stranded(log[r].before)
    ensures Stranded(StateAt(log, s, i)) && !Known(c, log[..i])
  {
    var k := i - 1;
    StepAt(c, log, s, k);
    if r < k {
      StrandedStays(c, log, s, r, k);
    }
    StrandedStep(c, Known(c, log[..k]), log[k]);
  }

  // Once a pass finds a stranded fGPU, every later start and every later declaration of readiness, in this
  // pass or another one, is out of order, and the fGPU is never linked.
  lemma StrandedStartsUnordered(c: Config, log: seq<Entry>, s: State, r: nat, i: nat)
    requires c.FgpuWorker() && Chain(c, INITIAL, log, s) && AllDisciplined(c, log) && r < i < |log|
    requires log[r].act.Read? && Stranded(log[r].before)
    ensures log[i].act.StartVm? || log[i].act.SetReady? ==> !log[i].Ordered()
    ensures !log[i].act.LinkFgpu?
    ensures !s.fgpu.Attached?
  {
    PrefixOfRun(c, log, s, i);
    StrandedStays(c, log, s, r, i);
    StrandedStays(c, log, s, r, |log|);
  }

  // Once attached, the fGPU stays so, lost or not, and every later start is in order.
  lemma AttachedStartsOrdered(c: Config, log: seq<Entry>, s: State, r: nat, i: nat)
    requires c.FgpuWorker() && Chain(c, INITIAL, log, s) && AllDisciplined(c, log) && r <= i < |log|
    requires log[r].before.fgpu.Attached?
    ensures log[i].before.fgpu.Attached? && s.fgpu.Attached?
    ensures log[i].act.StartVm? ==> log[i].Ordered()
  {
    PrefixOfRun(c, log, s, r);
    RunIsSound(c, log[..r], log[r].before);
    AttachedStays(c, log, s, r, i);
    AttachedStays(c, log, s, r, |log|);
    StepAt(c, log, s, i);
  }

  ghost predicate Holding(s: State) {
    s.fgpu.Attached? && !s.vm.NoVm?
  }

  lemma {:induction false} AttachedStays(c: Config, log: seq<Entry>, s: State, r: nat, i: nat)
    requires Chain(c, INITIAL, log, s) && AllDisciplined(c, log) && r <= i <= |log|
    requires Holding(StateAt(log, s, r))
    ensures Holding(StateAt(log, s, i))
  {
    if r < i {
      var k := i - 1;
      StepAt(c, log, s, k);
      AttachedStays(c, log, s, r, k);
      HoldingStep(c, Known(c, log[..k]), log[k]);
    }
  }

  lemma HoldingStep(c: Config, known: bool, e: Entry)
    requires Holding(e.before) && e.Possible(c) && e.Disciplined(c, known)
    ensures Holding(e.after)
  {
  }

  // No read lies strictly between the steps r and i: both are in one pass.
  ghost predicate SamePass(log: seq<Entry>, r: nat, i: nat)
    requires r < i <= |log|
  {
    forall k :: r < k < i ==> !log[k].act.Read?
  }

  // What the pass has in hand after its read: the fGPU it found, or one that it allocated since for a VM that
  // did not exist.
  lemma {:induction false} InHand(c: Config, log: seq<Entry>, s: State, r: nat, i: nat)
    requires c.FgpuWorker() && Chain(c, INITIAL, log, s) && AllDisciplined(c, log) && r < i < |log|
    requires log[r].act.Read? && SamePass(log, r, i)
    ensures log[r].before.Sees(c) ==> Known(c, log[..i])
    ensures log[r].before.vm.NoVm? && !log[i].before.vm.NoVm? ==> Known(c, log[..i])
  {
    var k := i - 1;
    StepAt(c, log, s, k);
    if r < k {
      InHand(c, log, s, r, k);
    }
    InHandStep(c, Known(c, log[..k]), log[k]);
  }

  lemma InHandStep(c: Config, known: bool, e: Entry)
    requires c.FgpuWorker() && e.Possible(c) && e.Disciplined(c, known)
    ensures !e.act.Read? && known ==> KnownNext(c, known, e)
    ensures e.before.vm.NoVm? && !e.after.vm.NoVm? ==> KnownNext(c, known, e)
  {
  }

  // In any run of an fGPU worker, whether a start is out of order is settled by the state in which its pass
  // read the fGPU: it is exactly when the fGPU was stranded. The one open case is an fGPU lost while
  // attaching, which the cloud may or may not have attached by the time of the start.
  lemma StartsExactly(c: Config, log: seq<Entry>, s: State, r: nat, i: nat)
    requires c.FgpuWorker() && Chain(c, INITIAL, log, s) && AllDisciplined(c, log) && r < i < |log|
    requires log[r].act.Read? && SamePass(log, r, i) && log[i].act.StartVm?
    ensures var read := log[r].before;
            !(read.fgpu.Attaching? && !read.found) ==> (!log[i].Ordered() <==> Stranded(read))
  {
    var before := log[r].before;
    PrefixOfRun(c, log, s, i);
    PrefixOfRun(c, log, s, r);
    RunIsSound(c, log[..r], before);
    InHand(c, log, s, r, i);
    if Stranded(before) {
      StrandedStartsUnordered(c, log, s, r, i);
    } else if before.fgpu.Attached? {
      AttachedStartsOrdered(c, log, s, r, i);
    }
  }

  // A run from the initial state that starts the VM without its fGPU.
  lemma LossStrands(c: Config, az: string) returns (log: seq<Entry>, s: State)
    requires c.FgpuWorker()
    ensures Chain(c, INITIAL, log, s) && AllDisciplined(c, log) && log != []
    ensures log[|log| - 1].act.StartVm? && log[|log| - 1].Effective() && !log[|log| - 1].Ordered()
  {
    log, s := [], INITIAL;
    log, s := Taken(c, log, s, Read, s);
    log, s := Taken(c, log, s, AllocateFgpu(az), s.(fgpu := Allocating, fgpuAz := az, found := true));
    log, s := Taken(c, log, s, CreateVm(az), s.(vm := Pending, vmAz := az));
    log, s := Taken(c, log, s, Cloud, VmMoves(c, s));
    log, s := Taken(c, log, s, Lose, s.(found := false));
    log, s := Taken(c, log, s, Read, s);
    log, s := Taken(c, log, s, StartVm, s.(vm := Starting));
  }

  lemma Taken(c: Config, log: seq<Entry>, s: State, act: Act, after: State) returns (log': seq<Entry>, s': State)
    requires Chain(c, INITIAL, log, s) && AllDisciplined(c, log)
    requires Entry(s, act, after).Possible(c) && Entry(s, act, after).Disciplined(c, Known(c, log))
    ensures log' == log + [Entry(s, act, after)] && s' == after
    ensures Chain(c, INITIAL, log', s') && AllDisciplined(c, log')
    ensures Known(c, log') == KnownNext(c, Known(c, log), Entry(s, act, after))
  {
    log', s' := log + [Entry(s, act, after)], after;
    LogExtends(c, log, s, Entry(s, act, after));
  }

  // ---- A pass ----

  // A pass without a failure over a cloud that does not move meanwhile; az is the subregion it would
  // draw, and force tells whether it runs although the generation is recorded.
  function Pass(c: Config, s: State, az: string, force: bool): State {
    if s.recorded && !force then s
    else
      var t := Placed(c, s, s.Sees(c), az);
      if !t.Sees(c) || t.fgpu.Attached? then Boot(t)
      else if t.fgpu.Free? && t.vm.Stopped? then t.(fgpu := Attaching)
      else t
  }

  // The VM exists, and was placed with its fGPU.
  function Placed(c: Config, s: State, seen: bool, az: string): State {
    if !s.vm.NoVm? then s
    else if seen then s.(vm := Pending, vmAz := s.fgpuAz)
    else if c.wantsFgpu && !c.controlPlane then
      s.(fgpu := Allocating, fgpuAz := az, found := true, vm := Pending, vmAz := az)
    else s.(vm := Pending, vmAz := az)
  }

  function Boot(s: State): State {
    match s.vm
    case Stopped => s.(vm := Starting)
    case Running => s.(ready := true, recorded := true)
    case _ => s
  }

  // The cloud completes what it has under way, then a pass runs undisturbed.
  function Round(c: Config, s: State, az: string): State {
    Pass(c, VmMoves(c, FgpuMoves(s)), az, false)
  }

  function Rounds(c: Config, s: State, az: string, n: nat): State
    decreases n
  {
    if n == 0 then s else Rounds(c, Round(c, s, az), az, n - 1)
  }

  // What a machine that wants an fGPU keeps, be it a worker or a control plane.
  ghost predicate Steady(c: Config, s: State) {
    && (s.fgpu.Attaching? || s.fgpu.Attached? ==> !s.vm.NoVm? && !s.vm.Pending?)
    && (s.Sees(c) && (s.vm.Starting? || s.vm.Running?) ==> s.fgpu.Attached?)
    && (s.ready ==> s.vm.Running?)
    && (s.recorded ==> s.ready)
  }

  // Whether the fGPU is, or will be, attached: it was linked, or it can be seen, or one will be allocated.
  predicate WillAttach(c: Config, s: State) {
    s.fgpu.Attaching? || s.fgpu.Attached? || s.Sees(c) || (s.vm.NoVm? && !c.controlPlane)
  }

  lemma RoundAdvances(c: Config, s: State, az: string)
    requires c.wantsFgpu && Steady(c, s)
    ensures Steady(c, Round(c, s, az)) && (WillAttach(c, Round(c, s, az)) <==> WillAttach(c, s))
    ensures s.recorded || Round(c, s, az).Rank() < s.Rank()
    ensures s.recorded ==> Round(c, s, az) == FgpuMoves(s)
  {
  }

  // From any such state, undisturbed rounds end with the machine ready and recorded, at the latest after as
  // many as its rank; and its fGPU is attached then exactly when it was linked already, or could be seen,
  // or the VM of a worker was still to be created.
  lemma {:induction false} ReadyUnattachedExactly(c: Config, s: State, az: string, n: nat)
    requires c.wantsFgpu && Steady(c, s)
    requires if s.recorded then n > 0 || !s.fgpu.Attaching? else n >= s.Rank()
    ensures var end := Rounds(c, s, az, n);
            end.recorded && end.ready && end.vm.Running? && (end.fgpu.Attached? <==> WillAttach(c, s))
    decreases n
  {
    if n > 0 {
      RoundAdvances(c, s, az);
      var t := Round(c, s, az);
      ReadyUnattachedExactly(c, t, az, n - 1);
    }
  }

  // A machine that wants no fGPU ends running, ready and recorded from any state, in two undisturbed
  // rounds, and its passes leave any fGPU alone.
  lemma {:induction false} PlainMachineEndsReady(c: Config, s: State, az: string, n: nat)
    requires !c.wantsFgpu && (s.recorded ==> s.ready && s.vm == Running)
    ensures n >= (if s.recorded then 0 else if s.vm == NoVm || s.vm == Stopped then 2 else 1) ==>
              var end := Rounds(c, s, az, n);
              end.recorded && end.ready && end.vm == Running
    ensures forall t: State, force :: var now := Pass(c, t, az, force);
              now.fgpu == t.fgpu && now.fgpuAz == t.fgpuAz && now.found == t.found
    decreases n
  {
    if n > 0 {
      PlainRound(c, s, az);
      PlainMachineEndsReady(c, Round(c, s, az), az, n - 1);
    }
    forall t: State, force
      ensures var now := Pass(c, t, az, force); now.fgpu == t.fgpu && now.fgpuAz == t.fgpuAz && now.found == t.found
    {
      PlainPass(c, t, az, force);
    }
  }

  lemma PlainPass(c: Config, t: State, az: string, force: bool)
    requires !c.wantsFgpu
    ensures var now := Pass(c, t, az, force); now.fgpu == t.fgpu && now.fgpuAz == t.fgpuAz && now.found == t.found
  {
  }

  lemma PlainRound(c: Config, s: State, az: string)
    requires !c.wantsFgpu && (s.recorded ==> s.ready && s.vm == Running)
    ensures var t := Round(c, s, az);
            && (t.recorded ==> t.ready && t.vm == Running)
            && (s.recorded ==> t.recorded)
            && (!s.recorded && (s.vm == NoVm || s.vm == Stopped) ==> t.vm == Pending || t.vm == Starting)
            && (!s.recorded && s.vm != NoVm && s.vm != Stopped ==> t.recorded)
  {
  }

  datatype Outcome = Done | Requeue | Failed

  function OutcomeOf(c: Config, s: State, force: bool): Outcome {
    if s.recorded && !force then Done
    else if s.vm.Running? && (!s.Sees(c) || s.fgpu.Attached?) then Done
    else Requeue
  }

  lemma PassMeaning(c: Config, s: State, az: string, force: bool)
    ensures var t, r := Pass(c, s, az, force), OutcomeOf(c, s, force);
            && (s.recorded && !force ==> t == s && r == Done)
            && (force || !s.recorded ==>
                  && (s.vm == NoVm ==>
                        && r == Requeue && t.vm == Pending && t.ready == s.ready && t.recorded == s.recorded
                        && if c.wantsFgpu && s.found && s.fgpu != NoFgpu then
                             t.fgpu == s.fgpu && t.vmAz == t.fgpuAz == s.fgpuAz && t.found
                           else if c.wantsFgpu && !c.controlPlane then
                             t.fgpu == Allocating && t.vmAz == t.fgpuAz == az && t.found
                           else t.fgpu == s.fgpu && t.fgpuAz == s.fgpuAz && t.found == s.found && t.vmAz == az)
                  && (!c.wantsFgpu || !s.found || s.fgpu == NoFgpu || s.fgpu == Attached ==>
                        && (s.vm == Stopped ==> r == Requeue && t == s.(vm := Starting))
                        && (s.vm == Running ==> r == Done && t == s.(ready := true, recorded := true))
                        && (s.vm == Pending || s.vm == Starting ==> r == Requeue && t == s))
                  && (s.vm != NoVm && c.wantsFgpu && s.found && s.fgpu != NoFgpu && s.fgpu != Attached ==>
                        && r == Requeue
                        && t == if s.fgpu == Free && s.vm == Stopped then s.(fgpu := Attaching) else s))
  {
  }

  class MachineReconciler {
    const config: Config
    var now: State
    // The calls that may still fail, and the losses that may still happen.
    var faults: nat
    var losses: nat
    // Whether the world moves during a pass.
    var busy: bool
    ghost var log: seq<Entry>
    ghost var known: bool

    ghost predicate Valid()
      reads this
    {
      && Chain(config, INITIAL, log, now) && known == Known(config, log)
      && AllDisciplined(config, log)
    }

    constructor (config: Config, faults: nat, losses: nat, busy: bool)
      ensures Valid() && now == INITIAL && this.config == config
      ensures this.faults == faults && this.losses == losses && this.busy == busy
    {
      this.config, this.now := config, INITIAL;
      this.faults, this.losses, this.busy := faults, losses, busy;
      this.log, this.known := [], false;
    }

    lemma ValidIsSound()
      requires Valid()
      ensures if config.FgpuWorker() then Sound(now, known) else Plain(now, known)
    {
      if config.FgpuWorker() {
        RunIsSound(config, log, now);
      } else {
        RunIsPlain(config, log, now);
      }
    }

    method Take(act: Act, after: State)
      requires Valid() && Entry(now, act, after).Possible(config)
      requires Entry(now, act, after).Disciplined(config, known)
      modifies this`now, this`log, this`known
      ensures Valid() && now == after && known == KnownNext(config, old(known), Entry(old(now), act, after))
    {
      var e := Entry(now, act, after);
      LogExtends(config, log, now, e);
      log, now, known := log + [e], after, KnownNext(config, known, e);
    }

    method MoveFgpu()
      requires Valid()
      modifies this`now, this`log, this`known
      ensures Valid() && now == FgpuMoves(old(now)) && known == old(known)
    {
      Take(Cloud, FgpuMoves(now));
    }

    method MoveVm()
      requires Valid()
      modifies this`now, this`log, this`known
      ensures Valid() && now == VmMoves(config, old(now)) && known == old(known)
    {
      Take(Cloud, VmMoves(config, now));
    }

    // The world may move on its own: the fGPU, then the VM, then what is discoverable.
    method Tick()
      requires Valid()
      modifies this`now, this`log, this`known, this`losses
      ensures Valid() && known == old(known) && Later(config, old(now), now, losses < old(losses))
      ensures losses <= old(losses) && (!busy ==> now == old(now) && losses == old(losses))
    {
      FgpuMayMove();
      VmMayMove();
      MayLose();
    }

    method FgpuMayMove()
      requires Valid()
      modifies this`now, this`log, this`known
      ensures Valid() && known == old(known) && Later(config, old(now), now, false) && now.vm == old(now).vm
      ensures !busy ==> now == old(now)
    {
      if busy {
        if * {
          MoveFgpu();
        }
      }
    }

    method VmMayMove()
      requires Valid()
      modifies this`now, this`log, this`known
      ensures Valid() && known == old(known) && Later(config, old(now), now, false) && now.fgpu == old(now).fgpu
      ensures !busy ==> now == old(now)
    {
      if busy {
        if * {
          MoveVm();
        }
      }
    }

    method MayLose()
      requires Valid()
      modifies this`now, this`log, this`known, this`losses
      ensures Valid() && known == old(known) && losses <= old(losses)
      ensures if losses < old(losses) then old(now).found && now == old(now).(found := false) else now == old(now)
      ensures !busy ==> losses == old(losses)
    {
      if busy && losses > 0 && now.found {
        if * {
          losses := losses - 1;
          Take(Lose, now.(found := false));
        }
      }
    }

    // The cloud moves as far as it can.
    method Wait()
      requires Valid()
      modifies this`now, this`log, this`known
      ensures Valid() && now == VmMoves(config, FgpuMoves(old(now))) && now.Settled()
      ensures if old(now).Settled() then now == old(now) else now.Rank() <= old(now).Rank()
    {
      MoveFgpu();
      MoveVm();
      MovesSettle(config, old(now));
    }

    method Fails() returns (fails: bool)
      modifies this`faults
      ensures if fails then faults < old(faults) else faults == old(faults)
    {
      fails := *;
      fails := fails && faults > 0;
      if fails {
        faults := faults - 1;
      }
    }

    // A call that changes the cloud or the status. When it fails, it may have had its effect.
    method Call(act: Act, after: State) returns (ok: bool)
      requires Valid() && Entry(now, act, after).Possible(config) && !act.Read? && !act.AllocateFgpu?
      requires Entry(now, act, after).Disciplined(config, known)
      modifies this`now, this`log, this`known, this`faults
      ensures Valid() && known == old(known) && (now == after || now == old(now))
      ensures if ok then now == after && faults == old(faults) else faults < old(faults)
    {
      var fails := Fails();
      var effect: bool := *;
      if !fails || effect {
        Take(act, after);
      }
      ok := !fails;
    }

    method ReadFgpu() returns (ok: bool, fgpu: Fgpu, az: string)
      requires Valid()
      modifies this`now, this`log, this`known, this`faults
      ensures Valid() && now == old(now) && (if ok then faults == old(faults) else faults < old(faults))
      ensures ok ==> fgpu == (if now.Sees(config) then now.fgpu else NoFgpu) && az == now.fgpuAz
      ensures ok && config.wantsFgpu ==> known == !fgpu.NoFgpu?
    {
      fgpu, az := NoFgpu, now.fgpuAz;
      ok := true;
      if config.wantsFgpu {
        var fails := Fails();
        ok := !fails;
        if ok {
          Take(Read, now);
          if now.found {
            fgpu := now.fgpu;
          }
        }
      }
    }

    // The branch for a VM that does not exist, from the fGPU that was read.
    method CreateVmFor(read: Fgpu, fgpuAz: string, az: string) returns (ok: bool, fgpu: Fgpu)
      requires Valid() && now.vm.NoVm? && ReadBefore(config, read, fgpuAz, now, known)
      modifies this`now, this`log, this`known, this`faults, this`losses
      ensures Valid() && losses <= old(losses) && (if ok then faults == old(faults) else faults < old(faults))
      ensures ok ==> Current(config, fgpu, Pending, now, known) && (config.FgpuWorker() ==> !fgpu.NoFgpu?)
      ensures ok ==> fgpu == if NeedsFgpu(config, read) then Allocating else read
      ensures ok && !busy ==> now == Placed(config, old(now), !read.NoFgpu?, az) && losses == old(losses)
      ensures ok && losses == old(losses) ==> now.Rank() < old(now).Rank()
    {
      fgpu := read;
      var fails := Fails();
      if fails {
        return false, fgpu;
      }
      var place := if read.NoFgpu? then az else fgpuAz;
      ok, fgpu := AllocateIfNeeded(read, place);
      if ok {
        ok := CreateVmIn(place);
      }
    }

    method AllocateIfNeeded(read: Fgpu, place: string) returns (ok: bool, fgpu: Fgpu)
      requires Valid() && now.vm.NoVm? && (NeedsFgpu(config, read) ==> !now.Sees(config))
      modifies this`now, this`log, this`known, this`faults
      ensures Valid() && (if ok then faults == old(faults) else faults < old(faults))
      ensures fgpu == if NeedsFgpu(config, read) && ok then Allocating else read
      ensures ok && NeedsFgpu(config, read) ==>
                known && now == old(now).(fgpu := Allocating, fgpuAz := place, found := true)
      ensures !NeedsFgpu(config, read) ==> ok && known == old(known) && now == old(now)
    {
      ok, fgpu := true, read;
      if NeedsFgpu(config, read) {
        ok := AllocateFgpuIn(place);
        if ok {
          fgpu := Allocating;
        }
      }
    }

    method CreateVmIn(place: string) returns (ok: bool)
      requires Valid() && now.vm.NoVm?
      requires config.FgpuWorker() ==> known && !now.fgpu.NoFgpu? && now.fgpuAz == place
      modifies this`now, this`log, this`known, this`faults, this`losses
      ensures Valid() && known == old(known) && losses <= old(losses)
      ensures if ok then faults == old(faults) else faults < old(faults)
      ensures old(now).fgpu.Free? || old(now).fgpu.Attached? ==> now.fgpu == old(now).fgpu
      ensures ok && !busy ==> now == old(now).(vm := Pending, vmAz := place) && losses == old(losses)
      ensures ok && losses == old(losses) ==> now.Rank() < old(now).Rank()
    {
      Tick();
      var fails := Fails();
      if fails {
        return false;
      }
      ok := Call(CreateVm(place), now.(vm := Pending, vmAz := place));
    }

    method AllocateFgpuIn(az: string) returns (ok: bool)
      requires Valid() && now.vm.NoVm? && config.FgpuWorker() && !now.Sees(config)
      modifies this`now, this`log, this`known, this`faults
      ensures Valid() && (if ok then faults == old(faults) else faults < old(faults))
      ensures ok ==> known && now == old(now).(fgpu := Allocating, fgpuAz := az, found := true)
    {
      var fails := Fails();
      // When the call fails, the fGPU may exist all the same, and its tag may be missing.
      var effect: bool, tagged: bool := *, *;
      if !fails {
        effect, tagged := true, true;
      }
      if effect {
        Take(AllocateFgpu(az), now.(fgpu := Allocating, fgpuAz := az, found := tagged));
      }
      ok := !fails;
    }

    // The switches over the fGPU and the VM, as they were read.
    method Advance(fgpu: Fgpu, vm: Vm) returns (r: Outcome)
      requires Valid() && Current(config, fgpu, vm, now, known)
      modifies this`now, this`log, this`known, this`faults
      ensures Valid() && faults <= old(faults) && (r.Failed? <==> faults < old(faults))
      ensures !r.Failed? ==> now == Onward(fgpu, vm, old(now)) && (r.Done? ==> now.recorded)
      ensures !r.Failed? ==> (r.Done? <==> (fgpu.NoFgpu? || fgpu.Attached?) && vm.Running?)
    {
      if fgpu.Free? {
        if vm.Stopped? {
          var ok := Call(LinkFgpu, now.(fgpu := Attaching));
          if !ok {
            return Failed;
          }
        }
        return Requeue;
      }
      if !fgpu.NoFgpu? && !fgpu.Attached? {
        return Requeue;
      }
      if vm.Stopped? {
        var ok := Call(StartVm, now.(vm := Starting));
        return if ok then Requeue else Failed;
      }
      if !vm.Running? {
        return Requeue;
      }
      Take(SetReady, now.(ready := true));
      var fails := Fails();
      if fails {
        return Failed;
      }
      Take(Record, now.(recorded := true));
      r := Done;
    }

    // One pass. force tells whether it runs although the generation is recorded: there is a new generation,
    // or the rules ask for it.
    method ReconcileVm(az: string, force: bool) returns (r: Outcome)
      requires Valid()
      modifies this`now, this`log, this`known, this`faults, this`losses
      ensures Valid() && losses <= old(losses) && faults <= old(faults) && (r.Failed? <==> faults < old(faults))
      ensures r.Done? ==> now.recorded
      ensures losses == old(losses) && !r.Failed? && old(now).Settled() ==>
                old(now).recorded || now.Rank() < old(now).Rank()
      // What a pass does without a failure, over a world that does not move meanwhile. A machine whose
      // generation is recorded is left alone.
      ensures !r.Failed? && !busy ==> now == Pass(config, old(now), az, force)
      ensures !r.Failed? && !busy && old(now).recorded && !force ==> r.Done? && now == old(now)
      // A missing VM is created: in the subregion of the fGPU found, or in the one drawn, and then a worker that
      // wants an fGPU has one allocated there.
      ensures !r.Failed? && !busy && (force || !old(now).recorded) && old(now).vm == NoVm ==>
                var s := old(now);
                && r.Requeue? && now.vm == Pending && now.ready == s.ready && now.recorded == s.recorded
                && if config.wantsFgpu && s.found && s.fgpu != NoFgpu then
                     now.fgpu == s.fgpu && now.vmAz == now.fgpuAz == s.fgpuAz && now.found
                   else if config.wantsFgpu && !config.controlPlane then
                     now.fgpu == Allocating && now.vmAz == now.fgpuAz == az && now.found
                   else now.fgpu == s.fgpu && now.fgpuAz == s.fgpuAz && now.found == s.found && now.vmAz == az
      // Without an fGPU in hand, or with one attached, a stopped VM is started, and a running one makes the
      // machine ready and recorded.
      ensures !r.Failed? && !busy && (force || !old(now).recorded)
              && (!config.wantsFgpu || !old(now).found || old(now).fgpu == NoFgpu || old(now).fgpu == Attached) ==>
                && (old(now).vm == Stopped ==> r.Requeue? && now == old(now).(vm := Starting))
                && (old(now).vm == Running ==> r.Done? && now == old(now).(ready := true, recorded := true))
                && (old(now).vm == Pending || old(now).vm == Starting ==> r.Requeue? && now == old(now))
      // With an fGPU that is not attached, it is linked if it is free and the VM is stopped.
      ensures !r.Failed? && !busy && (force || !old(now).recorded) && old(now).vm != NoVm
              && config.wantsFgpu && old(now).found && old(now).fgpu != NoFgpu && old(now).fgpu != Attached ==>
                && r.Requeue?
                && now == if old(now).fgpu == Free && old(now).vm == Stopped then old(now).(fgpu := Attaching)
                          else old(now)
    {
      r := OnePass(az, force);
      if !r.Failed? && !busy {
        PassMeaning(config, old(now), az, force);
      }
    }

    method OnePass(az: string, force: bool) returns (r: Outcome)
      requires Valid()
      modifies this`now, this`log, this`known, this`faults, this`losses
      ensures Valid() && losses <= old(losses) && faults <= old(faults) && (r.Failed? <==> faults < old(faults))
      ensures r.Done? ==> now.recorded
      ensures losses == old(losses) && !r.Failed? && old(now).Settled() ==>
                old(now).recorded || now.Rank() < old(now).Rank()
      ensures !r.Failed? && !busy ==> now == Pass(config, old(now), az, force)
      ensures !r.Failed? && !busy ==> r == OutcomeOf(config, old(now), force)
    {
      if now.recorded && !force {
        return Done;
      }
      var ok, fgpu, vm := FindOrCreate(az);
      if !ok {
        return Failed;
      }
      ghost var t := now;
      r := Advance(fgpu, vm);
      if !r.Failed? {
        OnwardProgresses(config, fgpu, vm, t);
      }
    }

    // The part of a pass that ends with a VM that exists.
    method FindOrCreate(az: string) returns (ok: bool, fgpu: Fgpu, vm: Vm)
      requires Valid()
      modifies this`now, this`log, this`known, this`faults, this`losses
      ensures Valid() && losses <= old(losses) && (if ok then faults == old(faults) else faults < old(faults))
      ensures ok ==> Current(config, fgpu, vm, now, known)
      ensures ok && !busy ==> ReadNow(config, fgpu, vm, now)
      ensures ok && !busy ==> now == Placed(config, old(now), old(now).Sees(config), az)
      ensures ok && losses == old(losses) && old(now).Settled() ==>
                || now.Rank() < old(now).Rank()
                || (now == old(now) && ReadNow(config, fgpu, vm, now)
                    && if config.FgpuWorker() then Sound(now, true) else Plain(now, false))
    {
      ValidIsSound();
      vm := NoVm;
      var fgpuAz;
      ok, fgpu, fgpuAz := ReadFgpu();
      if !ok {
        return;
      }
      Tick();
      ValidIsSound();
      var fails := Fails();
      ok := !fails;
      vm := now.vm;
      if ok && vm.NoVm? {
        ok, fgpu := CreateVmFor(fgpu, fgpuAz, az);
        vm := Pending;
      }
    }

    // Requeues end: when the cloud completes what it has under way between two passes, and only so
    // many calls fail and so many fGPUs get lost, the machine ends recorded, ready and running; and, if it is a
    // worker that wants an fGPU, in the subregion of that fGPU, and with it attached unless one got lost.
    method RequeueUntilRecorded(az: string)
      requires Valid()
      modifies this`now, this`log, this`known, this`faults, this`losses
      ensures Valid() && now.recorded && now.ready && now.vm.Running?
      ensures config.wantsFgpu && !config.controlPlane ==> now.vmAz == now.fgpuAz
      ensures config.wantsFgpu && !config.controlPlane && NoLoss(log) ==> now.fgpu.Attached?
      ensures !config.wantsFgpu || config.controlPlane ==> now.fgpu.NoFgpu?
    {
      while !now.recorded
        invariant Valid()
        decreases faults + losses, now.Rank()
      {
        Wait();
        var _ := ReconcileVm(az, false);
      }
      RecordedIsReady(config, log, now);
    }
  }

  lemma RecordedIsReady(c: Config, log: seq<Entry>, s: State)
    requires Chain(c, INITIAL, log, s) && AllDisciplined(c, log) && s.recorded
    ensures s.ready && s.vm.Running?
    ensures c.wantsFgpu && !c.controlPlane ==> s.vmAz == s.fgpuAz && (NoLoss(log) ==> s.fgpu.Attached?)
    ensures !c.wantsFgpu || c.controlPlane ==> s.fgpu.NoFgpu?
  {
    if c.FgpuWorker() {
      RunIsSound(c, log, s);
      if NoLoss(log) {
        RunIsShort(c, log, s);
      }
    } else {
      RunIsPlain(c, log, s);
    }
  }

  lemma MovesSettle(c: Config, s: State)
    ensures var t := VmMoves(c, FgpuMoves(s));
            t.Settled() && if s.Settled() then t == s else t.Rank() <= s.Rank()
  {
  }

  lemma LogExtends(c: Config, log: seq<Entry>, s: State, e: Entry)
    requires Chain(c, INITIAL, log, s) && e.before == s && e.Possible(c)
    ensures Chain(c, INITIAL, log + [e], e.after)
    ensures Known(c, log + [e]) == KnownNext(c, Known(c, log), e)
    ensures AllDisciplined(c, log) && e.Disciplined(c, Known(c, log)) ==> AllDisciplined(c, log + [e])
  {
    var log' := log + [e];
    assert log'[..|log|] == log;
    forall i | 0 <= i < |log|
      ensures log'[i] == log[i] && log'[..i] == log[..i]
    {
    }
  }

  // From s, the world moved on its own to t, losing the fGPU or not.
  ghost predicate Later(c: Config, s: State, t: State, loss: bool) {
    && t.fgpuAz == s.fgpuAz && t.vmAz == s.vmAz && t.ready == s.ready && t.recorded == s.recorded
    && (t.fgpu == s.fgpu || t.fgpu == FgpuMoves(s).fgpu)
    && (t.vm == s.vm || t.vm == VmMoves(c, s).vm)
    && (if loss then s.found && !t.found else t.found == s.found)
  }

  predicate NeedsFgpu(c: Config, read: Fgpu) {
    c.wantsFgpu && !c.controlPlane && read.NoFgpu?
  }

  // The fGPU was read, NoFgpu standing for one not found.
  ghost predicate ReadBefore(c: Config, read: Fgpu, fgpuAz: string, s: State, known: bool) {
    && (if read.NoFgpu? then c.wantsFgpu ==> !s.Sees(c) else !s.fgpu.NoFgpu? && s.fgpuAz == fgpuAz)
    && (read.Free? || read.Attached? ==> s.fgpu == read)
    && (if c.wantsFgpu then known == !read.NoFgpu? else read.NoFgpu? && !known)
  }

  // What was read is what the cloud shows.
  ghost predicate ReadNow(c: Config, fgpu: Fgpu, vm: Vm, s: State) {
    vm == s.vm && fgpu == if s.Sees(c) then s.fgpu else NoFgpu
  }

  // What the cloud shows now agrees with what was read.
  ghost predicate Current(c: Config, fgpu: Fgpu, vm: Vm, s: State, known: bool) {
    && !vm.NoVm? && (if c.wantsFgpu then known == !fgpu.NoFgpu? else fgpu.NoFgpu? && !known)
    && (fgpu.Free? || fgpu.Attached? ==> s.fgpu == fgpu)
    && (vm.Stopped? || vm.Running? ==> s.vm == vm)
  }

  // What the two switches make of what was read.
  function Onward(fgpu: Fgpu, vm: Vm, s: State): State {
    if fgpu.NoFgpu? || fgpu.Attached? then
      (match vm
       case Stopped => s.(vm := Starting)
       case Running => s.(ready := true, recorded := true)
       case _ => s)
    else if fgpu.Free? && vm.Stopped? then s.(fgpu := Attaching)
    else s
  }

  // The switches take no step back, and over a settled cloud that was read as it is, they take one forward.
  lemma OnwardProgresses(c: Config, fgpu: Fgpu, vm: Vm, s: State)
    requires !vm.NoVm? && (fgpu.Free? ==> s.fgpu == fgpu) && (vm.Stopped? || vm.Running? ==> s.vm == vm)
    ensures Onward(fgpu, vm, s).Rank() <= s.Rank()
    ensures ReadNow(c, fgpu, vm, s) && s.Settled() && !s.recorded
            && (if c.FgpuWorker() then Sound(s, true) else Plain(s, false)) ==>
              Onward(fgpu, vm, s).Rank() < s.Rank()
  {
  }
}
