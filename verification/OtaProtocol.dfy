/** The A/B update transaction as a transition system: durable files, the RAM witness file, the
    clocks and the running slot, changed by one file operation (or one clock step or reboot) at a
    time. A killed process changes nothing by itself, so every prefix of a run is a run. */
module OtaProtocol {
  import opened Common
  import opened OtaText
  import opened OtaVersion
  import opened OtaConfig
  import opened OtaPending

  const IFS_A := "ifs-rpi5.bin"
  const IFS_B := "ifs-rpi5_B.bin"

  /** What a slot file holds: Complete(v) is the whole verified image of version v. */
  datatype Image = Partial | Complete(version: string)

  datatype World = World(
    config: string,               // config.txt
    backup: Option<string>,       // config.txt.bak
    images: map<string, Image>,   // the slot files
    pending: Option<string>,      // ota_pending
    version: Option<string>,      // ota_version
    mark: bool,                   // the witness file, in RAM
    uptime: int,                  // CLOCK_MONOTONIC seconds
    wall: int,                    // wall-clock seconds
    running: string,              // slot the machine booted from
    // History the client cannot see:
    boots: nat,                   // number of the current boot
    pendingBoot: nat,             // boot in which ota_pending was last written
    named: string,                // slot config.txt named last
    confirmed: bool)              // reboot evidence was seen since kernel= last changed

  function Kernel(w: World): Option<string> { ActiveIfs(w.config) }

  function Record(w: World): PendingInfo { ReadPending(w.pending) }

  /** kernel= already names the slot of the pending record. */
  predicate Armed(w: World) { Record(w).Valid() && Kernel(w) == Some(Record(w).expectedIfs) }

  function Target(active: string): (t: string)
    ensures t != active && IsName(t)
  {
    if active == IFS_A then IFS_B else IFS_A
  }

  function GetVersion(file: Option<string>): (v: string)
    ensures v != ""
  {
    if file.None? || Lines(file.value) == [] || Trimmed(Lines(file.value)[0]) == "" then "1"
    else Trimmed(Lines(file.value)[0])
  }

  /** Updates go back and forth between two slots. */
  lemma TwoSlots(active: string)
    ensures Target(active) in {IFS_A, IFS_B}
    ensures active in {IFS_A, IFS_B} ==> Target(Target(active)) == active
  {
  }

  /** What the version file says is its first line without the blanks around it; without one it is 1. */
  lemma VersionFileReads(pre: string, v: string, post: string, rest: string)
    requires AllBlank(pre) && AllBlank(post) && '\n' !in pre + v + post && IsTrimmed(v)
    ensures GetVersion(Some(pre + v + post + "\n" + rest)) == if v == "" then "1" else v
    ensures GetVersion(None) == GetVersion(Some("")) == "1"
  {
    LinesCons(pre + v + post, rest);
    TrimmedPadded(pre, v, post);
    hide Lines, Trimmed;
  }

  function LocalVersion(w: World): string { GetVersion(w.version) }

  predicate Holds(w: World, slot: string, v: string) {
    slot in w.images && w.images[slot] == Complete(v)
  }

  predicate HoldsAny(w: World, slot: string) {
    slot in w.images && w.images[slot].Complete?
  }

  // ---------- steps ----------

  datatype Event =
    | WriteImage(slot: string, image: Image)
    | RemoveImage(slot: string)
    | WriteBackup(text: string)
    | WriteConfig(text: string)
    | CreateMark
    | RemoveMark
    | WritePending(text: string)
    | RemovePending
    | WriteVersion(text: string)
    | Confirm
    | Tick(uptime: int, wall: int)
    | Reboot(uptime: int, wall: int)

  /** The effect of a step. */
  function Apply(w: World, e: Event): World {
    match e
    case WriteImage(slot, image) => w.(images := w.images[slot := image])
    case RemoveImage(slot) => w.(images := w.images - {slot})
    case WriteBackup(text) => w.(backup := Some(text))
    case WriteConfig(text) =>
      w.(config := text, confirmed := false,
         named := match ActiveIfs(text) case Some(n) => n case None => w.named)
    case CreateMark => w.(mark := true)
    case RemoveMark => w.(mark := false)
    case WritePending(text) => w.(pending := Some(text), pendingBoot := w.boots)
    case RemovePending => w.(pending := None)
    case WriteVersion(text) => w.(version := Some(text))
    case Confirm => w.(confirmed := true)
    case Tick(u, c) => w.(uptime := u, wall := c)
    case Reboot(u, c) =>
      w.(uptime := u, wall := c, mark := false, boots := w.boots + 1, confirmed := false,
         running := match Kernel(w) case Some(n) => n case None => w.running)
  }

  /** Environment assumption: while a record written in this boot has no witness file to rely on,
      the wall clock is not stepped forward by more than the fallback's five seconds. */
  predicate ClockSane(w: World) {
    (Record(w).Valid() && w.pendingBoot == w.boots && !Record(w).witnessOk) ==>
      !ClockVerdict(Record(w), w.uptime, w.wall)
  }

  /** The conditions under which kernel= may be moved to the pending slot. */
  predicate MayArm(w: World, n: string) {
    && Record(w).Valid() && n == Record(w).expectedIfs && n != w.named
    && w.pendingBoot == w.boots
    && Record(w).version != "" && Holds(w, n, Record(w).version)
    && IsNewer(Record(w).version, LocalVersion(w))
    && !RebootedSince(Record(w), w.mark, w.uptime, w.wall)
  }

  /** What restore_config_bak leaves in config.txt: the backup, or nothing. */
  predicate IsRestore(w: World, text: string) { text == "" || w.backup == Some(text) }

  /** What is known when the step is taken: the client's own checks, or the environment's limits.
      No case mentions the running slot. The number of the boot occurs in MayArm, where the client has
      just written the record itself, and in ClockSane, which limits the environment in Tick. */
  predicate Allowed(w: World, e: Event) {
    match e
    case WriteImage(slot, _) => !Armed(w) && Kernel(w).Some? && slot == Target(Kernel(w).value)
    case RemoveImage(slot) => !Armed(w) && slot != w.named
    case WriteBackup(_) => true
    case WriteConfig(text) =>
      && !Armed(w)
      && var k := ActiveIfs(text);
         || ((k == None || k == Kernel(w)) && IsRestore(w, text))
         || (k.Some? && MayArm(w, k.value))
    case CreateMark => !Armed(w)
    case RemoveMark => !Armed(w) || w.confirmed
    case WritePending(text) =>
      && !Armed(w)
      && var p := ReadPending(Some(text));
         p.Valid() ==> Kernel(w) != Some(p.expectedIfs)
                       && p.switchUptime == w.uptime && p.switchWall == w.wall
    case RemovePending =>
      !Armed(w) || (w.confirmed && LocalVersion(w) == Record(w).version)
    case WriteVersion(text) =>
      Armed(w) && w.confirmed && (text == "" || GetVersion(Some(text)) == Record(w).version)
    case Confirm => Armed(w) && RebootedSince(Record(w), w.mark, w.uptime, w.wall)
    case Tick(u, c) => w.uptime <= u <= INT64_MAX && 0 < c <= INT64_MAX && ClockSane(w.(uptime := u, wall := c))
    case Reboot(u, c) => 0 <= u <= INT64_MAX && 0 < c <= INT64_MAX && Kernel(w).Some?
  }

  function Replay(w: World, es: seq<Event>): World
    decreases |es|
  {
    if es == [] then w else Apply(Replay(w, es[..|es| - 1]), es[|es| - 1])
  }

  /** A run: every step is allowed in the state it is taken in. */
  predicate Legal(w: World, es: seq<Event>)
    decreases |es|
  {
    es == [] ||
    (Legal(w, es[..|es| - 1]) && Allowed(Replay(w, es[..|es| - 1]), es[|es| - 1]))
  }

  lemma {:induction false} RunExtend(w: World, es: seq<Event>, e: Event)
    requires Legal(w, es) && Allowed(Replay(w, es), e)
    ensures Legal(w, es + [e]) && Replay(w, es + [e]) == Apply(Replay(w, es), e)
  {
    hide Allowed, Apply;
    assert (es + [e])[..|es + [e]| - 1] == es;
  }

  // ---------- the invariant ----------

  /** kernel= names a complete image and so does the running slot. */
  predicate Bootable(w: World) {
    && (Kernel(w).Some? ==> HoldsAny(w, Kernel(w).value) && Kernel(w).value == w.named)
    && HoldsAny(w, w.running)
  }

  /** No switch under way: the version file speaks about the slot in use. */
  predicate Settled(w: World) {
    w.named == w.running && Holds(w, w.running, LocalVersion(w))
  }

  /** kernel= was switched in this boot: the old slot still runs, nothing is committed. */
  predicate AwaitingReboot(w: World) {
    var p := Record(w);
    && w.running != p.expectedIfs
    && Holds(w, w.running, LocalVersion(w))
    && IsNewer(p.version, LocalVersion(w))
    && !RebootedSince(p, w.mark, w.uptime, w.wall)
    && !w.confirmed
  }

  predicate Inv(w: World) {
    && 0 <= w.uptime <= INT64_MAX && 0 < w.wall <= INT64_MAX
    && w.pendingBoot <= w.boots
    && ClockSane(w)
    && Bootable(w)
    && (!Armed(w) ==> Settled(w))
    && (Armed(w) ==>
          && Record(w).version != "" && Holds(w, Record(w).expectedIfs, Record(w).version)
          && (w.pendingBoot == w.boots ==> AwaitingReboot(w))
          && (w.pendingBoot < w.boots ==> w.running == Record(w).expectedIfs))
  }

  lemma InvStep(w: World, e: Event)
    requires Inv(w) && Allowed(w, e)
    ensures Inv(Apply(w, e))
  {
    hide ActiveIfs, ReadPending, GetVersion, IsNewer, Target;
    EmptyPendingIsInvalid();
    var w' := Apply(w, e);
    match e
    case WriteImage(_, _) =>
    case RemoveImage(_) =>
    case WriteBackup(_) =>
    case WriteConfig(_) =>
    case CreateMark =>
    case RemoveMark =>
    case WritePending(_) =>
    case RemovePending =>
    case WriteVersion(_) =>
    case Confirm =>
    case Tick(_, _) =>
    case Reboot(_, _) =>
  }

  /** A device as it leaves the factory: one slot named and running, its version on file. */
  lemma FactoryInv(w: World)
    requires w.pending == None && w.pendingBoot <= w.boots
    requires 0 <= w.uptime <= INT64_MAX && 0 < w.wall <= INT64_MAX
    requires Kernel(w) == Some(w.running) && w.named == w.running
    requires Holds(w, w.running, LocalVersion(w))
    ensures Inv(w)
  {
    hide ActiveIfs, GetVersion;
    EmptyPendingIsInvalid();
  }

  // ---------- theorems about every run ----------

  lemma {:induction false} PrefixLegal(w: World, es: seq<Event>, n: nat)
    requires Legal(w, es) && n <= |es|
    ensures Legal(w, es[..n])
    decreases |es|
  {
    hide Allowed, Apply;
    if n == |es| {
      assert es[..n] == es;
    } else {
      PrefixLegal(w, es[..|es| - 1], n);
      assert es[..|es| - 1][..n] == es[..n];
    }
  }

  /** The invariant holds in every state of every run: after any kill, failure or reboot. */
  lemma {:induction false} InvAlways(w: World, es: seq<Event>, n: nat)
    requires Inv(w) && Legal(w, es) && n <= |es|
    ensures Inv(Replay(w, es[..n]))
    decreases n
  {
    hide Inv, Allowed, Apply;
    if n > 0 {
      PrefixLegal(w, es, n);
      assert es[..n][..n - 1] == es[..n - 1];
      InvAlways(w, es, n - 1);
      InvStep(Replay(w, es[..n - 1]), es[n - 1]);
    }
  }

  /** What one step may do to the version file, the slot files and kernel=. */
  ghost predicate SafeStep(b: World, a: World) {
    // the version file changes only after a true reboot into the slot the record names
    && (a.version != b.version ==>
          && Record(b).Valid() && b.pendingBoot < b.boots
          && b.running == Record(b).expectedIfs && Kernel(b) == Some(b.running))
    // neither the slot kernel= names nor the running slot is written or removed
    && (forall slot :: slot == b.running || Kernel(b) == Some(slot) ==>
          (slot in a.images <==> slot in b.images) &&
          (slot in b.images ==> a.images[slot] == b.images[slot]))
    // kernel= moves only to a complete, verified, newer image that is not the running one
    && (Kernel(a) != Kernel(b) && Kernel(a).Some? ==>
          && Holds(a, Kernel(a).value, Record(a).version)
          && Kernel(a).value != a.running
          && IsNewer(Record(a).version, LocalVersion(a)))
  }

  lemma StepIsSafe(w: World, e: Event)
    requires Inv(w) && Allowed(w, e)
    ensures SafeStep(w, Apply(w, e))
  {
    hide ActiveIfs, ReadPending, GetVersion, IsNewer, Target, RebootedSince, ClockVerdict;
    match e
    case WriteImage(slot, _) =>
    case RemoveImage(slot) =>
    case WriteConfig(_) =>
    case WriteVersion(_) =>
    case _ =>
  }

  lemma {:induction false} StepAt(w: World, es: seq<Event>, i: nat)
    requires Inv(w) && Legal(w, es) && i < |es|
    ensures Replay(w, es[..i + 1]) == Apply(Replay(w, es[..i]), es[i])
    ensures Allowed(Replay(w, es[..i]), es[i]) && Inv(Replay(w, es[..i]))
  {
    hide Inv, Allowed, Apply;
    PrefixLegal(w, es, i + 1);
    InvAlways(w, es, i);
    assert es[..i + 1][..i] == es[..i];
  }

  /** Every step of every run is safe, and whenever no switch is under way the version file equals
      the version of the image in the slot kernel= names, which is the running slot. */
  lemma {:induction false} RunIsSafe(w: World, es: seq<Event>, n: nat)
    requires Inv(w) && Legal(w, es) && n < |es|
    ensures SafeStep(Replay(w, es[..n]), Replay(w, es[..n + 1]))
    ensures var a := Replay(w, es[..n + 1]);
            Bootable(a) &&
            (!Armed(a) && Kernel(a).Some? ==>
               Kernel(a).value == a.running && Holds(a, a.running, LocalVersion(a)))
  {
    hide *;
    StepAt(w, es, n);
    InvAlways(w, es, n);
    InvAlways(w, es, n + 1);
    StepIsSafe(Replay(w, es[..n]), es[n]);
    SettledSlot(Replay(w, es[..n + 1]));
  }

  lemma SettledSlot(w: World)
    requires Inv(w)
    ensures Bootable(w) &&
            (!Armed(w) && Kernel(w).Some? ==> Kernel(w).value == w.running && Holds(w, w.running, LocalVersion(w)))
  {
  }

  /** The version the device answers for: the pending one from the reboot into its slot on. */
  function Committed(w: World): string {
    if Armed(w) && w.pendingBoot < w.boots then Record(w).version else LocalVersion(w)
  }

  /** It is the version of the image that runs. */
  lemma CommittedRuns(w: World)
    requires Inv(w)
    ensures Holds(w, w.running, Committed(w))
  {
    hide ReadPending, ActiveIfs, GetVersion, RebootedSince, ClockVerdict, IsNewer;
  }

  predicate NotOlder(later: string, earlier: string) { later == earlier || IsNewer(later, earlier) }

  lemma CommittedStep(w: World, e: Event)
    requires Inv(w) && Allowed(w, e)
    ensures var c, c' := Committed(w), Committed(Apply(w, e));
            NotOlder(c', c)
  {
    hide ActiveIfs, ReadPending, GetVersion, IsNewer, Target, RebootedSince, ClockVerdict;
    EmptyPendingIsInvalid();
  }

  /** Over any run the committed version never goes back: a different one is strictly newer. */
  lemma {:induction false} CommittedIncreases(w: World, es: seq<Event>, i: nat, j: nat)
    requires Inv(w) && Legal(w, es) && i <= j <= |es|
    ensures var before, after := Committed(Replay(w, es[..i])), Committed(Replay(w, es[..j]));
            NotOlder(after, before)
    decreases j
  {
    hide Inv, Allowed, Apply, Committed, IsNewer;
    if i < j {
      CommittedIncreases(w, es, i, j - 1);
      PrefixLegal(w, es, j);
      assert es[..j][..j - 1] == es[..j - 1];
      InvAlways(w, es, j - 1);
      CommittedStep(Replay(w, es[..j - 1]), es[j - 1]);
      NewerIsStrictOrder(Committed(Replay(w, es[..j])), Committed(Replay(w, es[..j - 1])),
                         Committed(Replay(w, es[..i])));
    }
  }

  // ---------- where an unchecked failure breaks the protocol ----------

  /** A step after which config.txt names no slot. */
  predicate LosesKernel(e: Event) { e.WriteConfig? && ActiveIfs(e.text) == None }

  predicate NamesCompleteImage(w: World) { Kernel(w).Some? && HoldsAny(w, Kernel(w).value) }

  /** Only restoring a backup can lose the kernel= line. */
  lemma LossIsRestore(w: World, e: Event)
    requires Allowed(w, e) && LosesKernel(e)
    ensures IsRestore(w, e.text)
  {
    hide ActiveIfs, ReadPending, GetVersion, IsNewer, Target, RebootedSince, ClockVerdict, MayArm;
  }

  lemma KernelAfter(w: World, e: Event)
    ensures Kernel(Apply(w, e)) == if e.WriteConfig? then ActiveIfs(e.text) else Kernel(w)
  {
    hide ActiveIfs;
  }

  lemma KernelNamesComplete(w: World)
    requires Inv(w)
    ensures NamesCompleteImage(w) <==> Kernel(w).Some?
  {
    hide ActiveIfs, ReadPending, GetVersion, IsNewer, RebootedSince, ClockVerdict;
  }

  lemma KernelStep(w: World, e: Event)
    requires Inv(w) && Allowed(w, e) && NamesCompleteImage(w)
    ensures NamesCompleteImage(Apply(w, e)) <==> !LosesKernel(e)
  {
    InvStep(w, e);
    KernelAfter(w, e);
    hide Inv, Apply, Allowed, ActiveIfs, HoldsAny, Kernel, NamesCompleteImage;
    KernelNamesComplete(w);
    KernelNamesComplete(Apply(w, e));
  }

  /** Step i of a run, between the states before and after it. */
  lemma {:induction false} KernelKept(w: World, es: seq<Event>, n: nat)
    requires Inv(w) && Legal(w, es) && Kernel(w).Some? && n <= |es|
    requires forall i :: 0 <= i < n ==> !LosesKernel(es[i])
    ensures NamesCompleteImage(Replay(w, es[..n]))
    decreases n
  {
    hide Inv, Allowed, Apply, LosesKernel, NamesCompleteImage, Legal;
    if n == 0 {
      KernelNamesComplete(w);
      assert es[..0] == [];
    } else {
      KernelKept(w, es, n - 1);
      StepAt(w, es, n - 1);
      KernelStep(Replay(w, es[..n - 1]), es[n - 1]);
    }
  }

  /** kernel= names a complete image in every state of a run if and only if no step of the run puts
      a file without a kernel= line in place of config.txt. */
  lemma {:induction false} KernelKeptExactly(w: World, es: seq<Event>)
    requires Inv(w) && Legal(w, es) && Kernel(w).Some?
    ensures (forall n :: 0 <= n <= |es| ==> NamesCompleteImage(Replay(w, es[..n])))
            <==> (forall i :: 0 <= i < |es| ==> !LosesKernel(es[i]))
  {
    hide Inv, Allowed, Apply, LosesKernel, NamesCompleteImage, Legal, Replay;
    if forall i :: 0 <= i < |es| ==> !LosesKernel(es[i]) {
      forall n | 0 <= n <= |es| ensures NamesCompleteImage(Replay(w, es[..n])) {
        KernelKept(w, es, n);
      }
    }
    if forall n :: 0 <= n <= |es| ==> NamesCompleteImage(Replay(w, es[..n])) {
      forall i | 0 <= i < |es| ensures !LosesKernel(es[i]) {
        StepAt(w, es, i);
        KernelStep(Replay(w, es[..i]), es[i]);
      }
    }
  }

  /** Restoring config.txt.bak after a failed switch and then removing the target slot leaves
      kernel= on a complete image if and only if the backup names a complete image other than the
      target. A backup left over from an earlier switch names the target; an empty one none. */
  lemma RestoreThenRemove(w: World, bak: string)
    requires Inv(w) && !Armed(w) && Kernel(w).Some?
    ensures var t := Target(Kernel(w).value);
            NamesCompleteImage(Apply(Apply(w, WriteConfig(bak)), RemoveImage(t)))
            <==> ActiveIfs(bak).Some? && ActiveIfs(bak) != Some(t) && HoldsAny(w, ActiveIfs(bak).value)
    ensures ActiveIfs(bak) == Kernel(w) ==>
              Inv(Apply(Apply(w, WriteConfig(bak)), RemoveImage(Target(Kernel(w).value))))
  {
    hide ActiveIfs, ReadPending, GetVersion, IsNewer, RebootedSince, ClockVerdict;
  }

  /** The slot an update would choose is the running one exactly while a switch awaits its reboot,
      so only the record keeps the client from writing it. */
  lemma TargetIsRunningSlot(w: World)
    requires Inv(w) && Kernel(w).Some?
    requires w.running in {IFS_A, IFS_B} && Kernel(w).value in {IFS_A, IFS_B}
    ensures Target(Kernel(w).value) == w.running <==> Armed(w) && w.pendingBoot == w.boots
  {
    hide ActiveIfs, ReadPending, GetVersion, IsNewer, RebootedSince, ClockVerdict;
  }

  /** If an existing record could not be opened then, the next update would write into the running
      slot and break the invariant; in no other state would it. */
  lemma UnreadableRecordHitsRunningSlot(w: World)
    requires Inv(w) && Kernel(w).Some?
    requires w.running in {IFS_A, IFS_B} && Kernel(w).value in {IFS_A, IFS_B}
    ensures !Inv(Apply(w, WriteImage(Target(Kernel(w).value), Partial)))
            <==> Armed(w) && w.pendingBoot == w.boots
  {
    hide ActiveIfs, ReadPending, GetVersion, IsNewer, RebootedSince, ClockVerdict, Target;
    TargetIsRunningSlot(w);
    var e := WriteImage(Target(Kernel(w).value), Partial);
    if !Armed(w) {
      InvStep(w, e);
    } else if w.pendingBoot == w.boots {
      assert !HoldsAny(Apply(w, e), w.running);
    } else {
      OtherSlotKeepsInv(w, e.slot);
    }
  }

  lemma OtherSlotKeepsInv(w: World, slot: string)
    requires Inv(w) && Armed(w) && w.pendingBoot < w.boots
    requires slot != w.running
    ensures Inv(Apply(w, WriteImage(slot, Partial)))
  {
    hide ActiveIfs, ReadPending, GetVersion, IsNewer, RebootedSince, ClockVerdict, Target;
  }
}
