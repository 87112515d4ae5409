/** The update client. Every file operation is one step of OtaProtocol; it may succeed, fail, or be
    the last thing the process does (alive turns false, as after a kill or a power cycle), and time
    passes between operations. The client records the steps it takes. */
module OtaClient {
  import opened Common
  import opened OtaText
  import opened OtaVersion
  import opened OtaConfig
  import opened OtaPending
  import opened OtaProtocol

  /** Only the clocks moved. */
  predicate SameButClocks(a: World, b: World) {
    a == b.(uptime := a.uptime, wall := a.wall)
  }

  /** What a failed or refused update leaves alone. */
  predicate SameIdentity(a: World, b: World) {
    a.running == b.running && a.boots == b.boots && a.named == b.named && a.version == b.version
  }

  /** A backup whose restoration cannot move kernel= to another slot. */
  predicate HarmlessBackup(w: World) {
    w.backup.Some? ==> ActiveIfs(w.backup.value) == None || ActiveIfs(w.backup.value) == Kernel(w)
  }

  function VersionText(v: string): string { v + "\n" }

  lemma VersionTextReadsBack(v: string)
    requires IsField(v) && v != ""
    ensures GetVersion(Some(VersionText(v))) == v
  {
    LinesCons(v, "");
    assert v + "\n" + "" == VersionText(v);
    TrimmedIdentity(v);
  }

  /** Time alone does not make a freshly written record look rebooted. */
  lemma MayArmLater(w: World, later: World, n: string)
    requires MayArm(w, n) && SameButClocks(later, w.(backup := later.backup)) && Inv(later)
    ensures MayArm(later, n)
  {
    hide ActiveIfs, ReadPending, GetVersion, IsNewer, ClockVerdict;
  }

  /** How one update goes: whether there is space, the image arrives and passes its checks; then the
      switch: taking the backup, reading config.txt for the rewrite, putting the new text in its place,
      and restoring the backup. */
  datatype UpdateLuck = UpdateLuck(
    space: bool, arrives: bool, intact: bool,
    backupRead: bool, backupWritten: bool, configRead: bool,
    tmpOpens: bool, tmpSyncs: bool, renames: bool,
    restoreRead: bool, restoreWritten: bool)

  const ALL_WELL := UpdateLuck(true, true, true, true, true, true, true, true, true, true, true)

  /** The file a switch puts in place of config.txt: if that could not be read, nothing but a kernel= line. */
  function SwitchedConfig(config: string, read: bool, target: string): string {
    NewConfig(if read then config else "", target)
  }

  /** A switch keeps the other lines of config.txt exactly if it could read the file, or it has none. */
  ghost predicate KeptExactly(before: string, after: string, read: bool) {
    KeepsOtherLines(before, after) <==> read || OnlyKernelLines(before)
  }

  lemma {:induction false} SwitchedKeeps(config: string, read: bool, target: string)
    requires IsName(target)
    ensures KeptExactly(config, SwitchedConfig(config, read, target), read)
  {
    hide KeepsOtherLines, OnlyKernelLines, NewConfig, IsName;
    RewriteKeeps(config, target);
    RewriteOfNothing(config, target);
  }

  function BackupTaken(w: World, read: bool, written: bool): Option<string> {
    if written then Some(if read then w.config else "") else w.backup
  }

  /** When config.txt keeps its kernel= line although the backup was to be restored. */
  predicate RestoreKeeps(backup: Option<string>, read: bool, written: bool) {
    backup.None? || !written || (read && ActiveIfs(backup.value).Some?)
  }

  /** config.txt after the backup was to be restored: untouched, truncated or the backup. */
  function Restored(config: string, backup: Option<string>, read: bool, written: bool): string {
    if backup.None? || !written then config else if read then backup.value else ""
  }

  predicate SwitchWorks(f: UpdateLuck) { f.tmpOpens && f.tmpSyncs && f.renames }

  /** config.txt after a switch, whether it works or not. */
  function AfterSwitch(w: World, f: UpdateLuck, target: string): string {
    if SwitchWorks(f) then SwitchedConfig(w.config, f.configRead, target)
    else if !f.tmpOpens then w.config
    else Restored(w.config, BackupTaken(w, f.backupRead, f.backupWritten), f.restoreRead, f.restoreWritten)
  }

  /** When a switch that failed leaves kernel= on the old slot. */
  predicate FailureKeeps(w: World, f: UpdateLuck) {
    !f.tmpOpens || RestoreKeeps(BackupTaken(w, f.backupRead, f.backupWritten), f.restoreRead, f.restoreWritten)
  }

  /** What a switch depends on besides the luck of its file operations. */
  lemma SwitchFromHere(a: World, b: World, f: UpdateLuck, target: string)
    requires a.config == b.config && a.backup == b.backup
    ensures AfterSwitch(a, f, target) == AfterSwitch(b, f, target)
    ensures FailureKeeps(a, f) <==> FailureKeeps(b, f)
    ensures HarmlessBackup(a) <==> HarmlessBackup(b)
  {
    hide ActiveIfs, SwitchedConfig;
  }

  // ---------- what an undisturbed process does ----------

  /** A record whose slot kernel= does not name is dropped, with the slot's image. */
  function StaleCleared(w: World): World {
    if Record(w).Valid() && Kernel(w).Some? && !Armed(w)
    then w.(images := w.images - {Record(w).expectedIfs}, pending := None, mark := false)
    else w
  }

  /** A process starts: a switch the machine has rebooted into is committed. */
  function SettledAtStart(w: World): World {
    if Armed(w) && RebootedSince(Record(w), w.mark, w.uptime, w.wall)
    then w.(version := Some(VersionText(Record(w).version)), pending := None, mark := false, confirmed := true)
    else StaleCleared(w)
  }

  predicate Installable(answer: string, local: string) {
    IsNewer(Trimmed(answer), local) && '\n' !in Trimmed(answer)
  }

  /** The first answer of the server that is newer and can be fetched. */
  function Wanted(answers: seq<string>, local: string): (v: Option<string>)
    ensures v.Some? ==> IsField(v.value) && IsNewer(v.value, local)
  {
    if answers == [] then None
    else
      var earlier, last := Wanted(answers[..|answers| - 1], local), answers[|answers| - 1];
      if earlier.Some? then earlier
      else if Installable(last, local) then Some(Trimmed(last))
      else None
  }

  predicate NoneNewer(answers: seq<string>, local: string) {
    forall a :: a in answers ==> !IsNewer(Trimmed(a), local)
  }

  /** The other slot holds v and is named by kernel=, with a record of this boot and its witness. */
  ghost predicate Switched(b: World, a: World, v: string) {
    && Armed(a) && Record(a).version == v && Record(a).witnessOk && a.pendingBoot == a.boots
    && Kernel(b).Some? && Kernel(a) == Some(Target(Kernel(b).value))
    && KeepsOtherLines(b.config, a.config)
  }

  predicate SameIssue(a: World, b: World) {
    a.version == b.version && a.running == b.running && a.boots == b.boots
  }

  /** What one round does that nothing disturbs. */
  ghost predicate RoundDone(b: World, answer: string, a: World, asked: bool) {
    && (Armed(b) ==> asked)
    && (Armed(b) || !IsNewer(Trimmed(answer), LocalVersion(b)) ==> SameButClocks(a, StaleCleared(b)))
    && (!Armed(b) && Kernel(b).Some? ==>
          && SameIssue(a, b)
          && (if Installable(answer, LocalVersion(b)) then asked && Switched(b, a, Trimmed(answer))
              else !Armed(a) && a.config == b.config))
  }

  /** What rounds do that nothing disturbs, from a settled device s on: nothing, if a switch awaits its
      reboot or no answer is newer; otherwise a switch to the first answer that can be installed. */
  ghost predicate RoundsDone(s: World, answers: seq<string>, a: World, asked: bool) {
    && (Armed(s) && answers != [] ==> asked)
    && (Armed(s) || NoneNewer(answers, LocalVersion(s)) ==> SameButClocks(a, s))
    && (!Armed(s) && Kernel(s).Some? ==>
          && SameIssue(a, s)
          && (match Wanted(answers, LocalVersion(s))
              case None => !Armed(a) && a.config == s.config
              case Some(v) => asked && Switched(s, a, v)))
  }

  /** A settled device has no stale record left. */
  lemma SettledHasNoStale(w: World)
    ensures StaleCleared(SettledAtStart(w)) == SettledAtStart(w)
    ensures var s := SettledAtStart(w); !Armed(w) ==> !Armed(s) && s.config == w.config && s.version == w.version
  {
    EmptyPendingIsInvalid();
    hide ReadPending, ActiveIfs, GetVersion, RebootedSince;
  }

  /** A start after a true reboot puts the pending version on file and ends the transaction. */
  lemma ColdStartCommits(w: World)
    requires Inv(w) && Armed(w) && Record(w).witnessOk && !w.mark
    ensures var s := SettledAtStart(w);
            && LocalVersion(s) == Record(w).version && s.pending == None
            && Kernel(s) == Kernel(w) && s.images == w.images && !Armed(s)
  {
    hide ActiveIfs, ReadPending, GetVersion, ClockVerdict, IsNewer;
    EmptyPendingIsInvalid();
    ReadVersionIsField(w.pending);
    VersionTextReadsBack(Record(w).version);
  }

  lemma StaleIsNoClock(a: World, b: World)
    requires SameButClocks(a, b)
    ensures SameButClocks(StaleCleared(a), StaleCleared(b))
  {
    hide ReadPending, ActiveIfs;
  }

  lemma NoRounds(s: World, a: World, asked: bool)
    requires SameButClocks(a, s)
    ensures RoundsDone(s, [], a, asked)
  {
    hide ReadPending, ActiveIfs, GetVersion, Switched;
  }

  lemma SameView(a: World, b: World)
    requires SameButClocks(a, b)
    ensures (Armed(a) <==> Armed(b)) && Kernel(a) == Kernel(b) && LocalVersion(a) == LocalVersion(b)
    ensures SameIssue(a, b) && a.config == b.config
  {
    hide ReadPending, ActiveIfs, GetVersion;
  }

  lemma ArmedIsNotStale(w: World)
    requires Armed(w)
    ensures StaleCleared(w) == w
  {
  }

  lemma SameVersion(a: World, b: World)
    requires a.version == b.version
    ensures LocalVersion(a) == LocalVersion(b)
  {
  }

  lemma SameConfig(a: World, b: World)
    requires a.config == b.config
    ensures Kernel(a) == Kernel(b)
    ensures forall c: World, v :: Switched(a, c, v) ==> Switched(b, c, v)
  {
    hide ReadPending, ActiveIfs, KeepsOtherLines, Target;
  }

  lemma SwitchedStays(s: World, b: World, a: World, v: string)
    requires Switched(s, b, v) && SameButClocks(a, b)
    ensures Switched(s, a, v)
  {
    hide ReadPending, ActiveIfs, KeepsOtherLines, Target;
  }

  lemma SwitchedIsArmed(s: World, b: World, v: string)
    requires Switched(s, b, v)
    ensures Armed(b)
  {
  }

  lemma ClocksTwice(a: World, b: World, c: World)
    requires SameButClocks(a, b) && SameButClocks(b, c)
    ensures SameButClocks(a, c)
  {
  }

  lemma NoneNewerAt(answers: seq<string>, i: nat, local: string)
    requires i < |answers|
    ensures NoneNewer(answers, local) ==> !IsNewer(Trimmed(answers[i]), local)
  {
  }

  lemma {:induction false} WantedNext(answers: seq<string>, answer: string, local: string)
    ensures Wanted(answers + [answer], local) ==
              if Wanted(answers, local).Some? then Wanted(answers, local)
              else if Installable(answer, local) then Some(Trimmed(answer)) else None
    ensures NoneNewer(answers + [answer], local) <==> NoneNewer(answers, local) && !IsNewer(Trimmed(answer), local)
  {
    var more := answers + [answer];
    assert more[..|more| - 1] == answers && more[|more| - 1] == answer;
    hide IsNewer, Trimmed, Wanted, Installable;
    assert forall x :: x in more <==> x in answers || x == answer;
  }

  /** One more round. */
  lemma {:induction false} RoundsNext(s: World, answers: seq<string>, answer: string, b: World, a: World,
                                      before: bool, asked: bool)
    requires StaleCleared(s) == s
    requires RoundsDone(s, answers, b, before) && RoundDone(b, answer, a, asked)
    ensures RoundsDone(s, answers + [answer], a, before || asked)
  {
    var local := LocalVersion(s);
    WantedNext(answers, answer, local);
    hide Armed, Kernel, LocalVersion, StaleCleared, Switched, SameButClocks, Wanted, Installable, NoneNewer, IsNewer;
    if Armed(s) || NoneNewer(answers, local) {
      SameView(b, s);
      StaleIsNoClock(b, s);
      if Armed(b) || !IsNewer(Trimmed(answer), LocalVersion(b)) {
        ClocksTwice(a, StaleCleared(b), s);
      }
    }
    if !Armed(s) && Kernel(s).Some? {
      SameVersion(b, s);
      if Wanted(answers, local).Some? {
        var v := Wanted(answers, local).value;
        SwitchedIsArmed(s, b, v);
        ArmedIsNotStale(b);
        SwitchedStays(s, b, a, v);
        SameView(a, b);
      } else {
        SameConfig(b, s);
      }
    }
  }

  class Client {
    var w: World
    var alive: bool
    /** Nothing fails and nothing ends the process; only time still passes. */
    const undisturbed: bool
    ghost var start: World
    ghost var events: seq<Event>

    /** The device is where its recorded run leads, and the run is legal from a sound start. */
    ghost predicate Valid()
      reads this
    {
      Inv(start) && Legal(start, events) && w == Replay(start, events) && Inv(w)
    }

    constructor (device: World, calm: bool)
      requires Inv(device)
      ensures Valid() && w == device && alive && undisturbed == calm
    {
      w, alive, start, events, undisturbed := device, true, device, [], calm;
    }

    /** A choice of the environment, unless it is told to be kind. */
    method Luck() returns (good: bool)
      ensures undisturbed ==> good
    {
      good := *;
      good := undisturbed || good;
    }

    method Take(e: Event)
      requires Valid() && Allowed(w, e)
      modifies `w, `events
      ensures Valid() && w == Apply(old(w), e) && events == old(events) + [e]
    {
      hide Inv, Allowed, Apply;
      RunExtend(start, events, e);
      InvStep(w, e);
      w := Apply(w, e);
      events := events + [e];
    }

    /** The clocks move, within what the environment allows. */
    method TimePasses()
      requires Valid()
      modifies `w, `events
      ensures Valid() && SameButClocks(w, old(w)) && old(events) <= events
    {
      hide Inv, ClockVerdict, ReadPending;
      var u: int, c: int := *, *;
      if Allowed(w, Tick(u, c)) {
        Take(Tick(u, c));
      }
    }

    /** One operation that may also fail. */
    method Do(e: Event) returns (done: bool)
      requires Valid() && alive && Allowed(w, e)
      modifies this
      ensures Valid() && start == old(start) && old(events) <= events
      ensures SameButClocks(w, if done then Apply(old(w), e) else old(w))
      ensures undisturbed ==> done && alive
    {
      hide Inv, Allowed, Apply;
      done := Luck();
      if done {
        Take(e);
      }
      TimePasses();
      alive := Luck();
    }

    /** One operation that only the end of the process can prevent. */
    method Must(e: Event)
      requires Valid() && alive && Allowed(w, e)
      modifies this
      ensures Valid() && start == old(start) && old(events) <= events
      ensures SameButClocks(w, Apply(old(w), e)) || (!alive && SameButClocks(w, old(w)))
      ensures undisturbed ==> alive
    {
      hide Inv, Allowed, Apply;
      var done := Do(e);
      if !done {
        alive := false;
      }
    }

    /** config.txt may be unreadable at any time. */
    method GetActive() returns (r: Option<string>)
      requires Valid()
      ensures r.Some? ==> r == Kernel(w)
      ensures undisturbed ==> r == Kernel(w)
    {
      var readable := Luck();
      if !readable {
        return None;
      }
      r := OtaConfig.GetActiveIfs(Lines(w.config));
    }

    method RemoveSlot(slot: string)
      requires Valid() && alive && !Armed(w) && slot != w.named
      modifies this
      ensures Valid() && start == old(start) && old(events) <= events
      ensures SameIdentity(w, old(w)) && w.config == old(w.config) && w.pending == old(w.pending)
      ensures w.pendingBoot == old(w.pendingBoot) && w.backup == old(w.backup)
      ensures undisturbed ==> alive && SameButClocks(w, old(w).(images := old(w).images - {slot}))
    {
      hide Inv, ActiveIfs, ReadPending, ClockVerdict;
      if slot in w.images {
        var _ := Do(RemoveImage(slot));
      } else {
        assert w.images - {slot} == w.images;
      }
    }

    method ClearPending()
      requires Valid() && alive
      requires Armed(w) ==> w.confirmed && LocalVersion(w) == Record(w).version
      modifies this
      ensures Valid() && start == old(start) && old(events) <= events
      ensures SameIdentity(w, old(w)) && w.config == old(w.config) && w.images == old(w.images)
      ensures w.pending == None || w.pending == old(w.pending)
      ensures w.pendingBoot == old(w.pendingBoot)
      ensures Armed(w) ==> old(Armed(w))
      ensures undisturbed ==> alive && SameButClocks(w, old(w).(pending := None, mark := false))
    {
      hide Inv, ActiveIfs, ReadPending, ClockVerdict, GetVersion;
      EmptyPendingIsInvalid();
      var _ := Do(RemovePending);
      if alive {
        var _ := Do(RemoveMark);
      }
    }

    method WritePendingRecord(target: string, version: string) returns (ok: bool)
      requires Valid() && alive && !Armed(w)
      requires IsName(target) && Kernel(w) != Some(target)
      requires IsField(version)
      modifies this
      ensures Valid() && start == old(start) && old(events) <= events
      ensures SameIdentity(w, old(w)) && w.config == old(w.config) && w.images == old(w.images)
      ensures w.backup == old(w.backup)
      ensures alive ==> !Armed(w)
      ensures alive && ok ==>
                && w.pendingBoot == w.boots
                && Record(w).expectedIfs == target && Record(w).version == version
                && !RebootedSince(Record(w), w.mark, w.uptime, w.wall)
      ensures undisturbed ==> alive && ok && Record(w).witnessOk
    {
      hide ActiveIfs, ReadPending, PendingText, GetVersion, IsNewer, Target;
      EmptyPendingIsInvalid();
      // the witness file first: while it exists the machine has not rebooted since the switch
      var markOk := Do(CreateMark);
      if !alive { return false; }
      ok := Do(WritePending(""));
      if !alive || !ok { return false; }
      var p := PendingInfo(target, version, w.uptime, w.wall, markOk);
      PendingRoundTrip(p);
      Must(WritePending(PendingText(p)));
    }

    method RestoreConfigBackup(srcOk: bool, dstOk: bool)
      requires Valid() && alive && !Armed(w) && HarmlessBackup(w)
      modifies this
      ensures Valid() && start == old(start) && old(events) <= events
      ensures SameIdentity(w, old(w)) && w.pending == old(w.pending) && w.images == old(w.images)
      ensures w.pendingBoot == old(w.pendingBoot)
      ensures alive ==> w.config == Restored(old(w.config), old(w.backup), srcOk, dstOk)
      ensures Kernel(w) == None || Kernel(w) == old(Kernel(w))
      ensures alive && old(Kernel(w)).Some? ==>
                (Kernel(w) == old(Kernel(w)) <==> RestoreKeeps(old(w.backup), srcOk, dstOk))
      ensures undisturbed ==> alive
    {
      hide ReadPending, GetVersion, IsNewer, RebootedSince, ClockVerdict, ActiveIfs;
      if w.backup == None {
        return;
      }
      if !dstOk {
        return;
      }
      NothingNamedInEmptyFile();
      if !srcOk {
        // config.txt was truncated before the failure was noticed
        Must(WriteConfig(""));
      } else {
        Must(WriteConfig(w.backup.value));
      }
    }

    /** Environment assumption: replacing a backup that names another slot does not fail. */
    method BackUpConfig(srcOk: bool, dstOk: bool)
      requires Valid() && alive && (dstOk || HarmlessBackup(w))
      modifies this
      ensures Valid() && start == old(start) && old(events) <= events
      ensures SameButClocks(w, old(w).(backup := w.backup))
      ensures alive ==> HarmlessBackup(w) && w.backup == BackupTaken(old(w), srcOk, dstOk)
      ensures undisturbed ==> alive
    {
      hide ReadPending, GetVersion, IsNewer, ClockVerdict, ActiveIfs, Inv;
      NothingNamedInEmptyFile();
      if dstOk {
        Must(WriteBackup(if srcOk then w.config else ""));
      }
    }

    /** The text for config.txt.tmp. */
    method Rewritten(target: string, read: bool) returns (text: string)
      requires IsName(target)
      ensures text == SwitchedConfig(w.config, read, target) && ActiveIfs(text) == Some(target)
      ensures KeptExactly(w.config, text, read)
    {
      hide ActiveIfs, IsName, KeptExactly;
      var content := if read then w.config else "";
      var lines := RewriteLines(Lines(content), target);
      SwitchIsExact(content, target);
      SwitchedKeeps(w.config, read, target);
      return Render(lines);
    }

    /** Moves kernel= to target, or leaves it where it was or (if restoring the backup is cut
        short) naming nothing. */
    method SetActiveIfs(target: string, f: UpdateLuck) returns (ok: bool)
      requires Valid() && alive && !Armed(w) && IsName(target) && MayArm(w, target)
      requires f.backupWritten || HarmlessBackup(w)
      modifies this
      ensures Valid() && start == old(start) && old(events) <= events
      ensures w.images == old(w.images) && w.pending == old(w.pending) && w.version == old(w.version)
      ensures w.running == old(w.running) && w.boots == old(w.boots)
      ensures w.pendingBoot == old(w.pendingBoot)
      ensures alive ==> (ok <==> SwitchWorks(f)) && w.config == AfterSwitch(old(w), f, target)
      ensures alive && ok ==>
                Kernel(w) == Some(target) && KeptExactly(old(w.config), w.config, f.configRead)
      ensures alive && !ok ==>
                && !Armed(w) && w.named == old(w.named)
                && (Kernel(w) == None || Kernel(w) == old(Kernel(w)))
                && (old(Kernel(w)).Some? ==> (Kernel(w) == old(Kernel(w)) <==> FailureKeeps(old(w), f)))
      ensures undisturbed ==> alive
    {
      hide ReadPending, GetVersion, IsNewer, RebootedSince, ClockVerdict, ActiveIfs, Inv, IsName;
      hide KeptExactly, SwitchedConfig;
      BackUpConfig(f.backupRead, f.backupWritten);
      if !alive { return false; }
      MayArmLater(old(w), w, target);
      var text := Rewritten(target, f.configRead);
      if !f.tmpOpens {
        return false;
      }
      if f.tmpSyncs && f.renames {
        Must(WriteConfig(text));
        return true;
      }
      RestoreConfigBackup(f.restoreRead, f.restoreWritten);
      return false;
    }

    /** Fetches the image of version v into the target slot and checks it. */
    method DownloadAndVerify(target: string, v: string, arrives: bool, intact: bool)
      returns (downloaded: bool, verified: bool)
      requires Valid() && alive && !Armed(w) && Kernel(w).Some? && target == Target(Kernel(w).value)
      modifies this
      ensures Valid() && start == old(start) && old(events) <= events
      ensures SameIdentity(w, old(w)) && w.config == old(w.config) && w.pending == old(w.pending)
      ensures w.pendingBoot == old(w.pendingBoot) && w.backup == old(w.backup)
      ensures verified ==> downloaded
      ensures alive && verified ==> Holds(w, target, v)
      ensures verified ==> '\n' !in v
      ensures undisturbed ==> alive && downloaded == arrives && verified == (arrives && intact && '\n' !in v)
      ensures undisturbed && !downloaded ==> target !in w.images
    {
      hide ReadPending, GetVersion, ClockVerdict, ActiveIfs, Inv, Target;
      KernelIsNamed(w);
      downloaded := Do(WriteImage(target, Partial));
      if !alive || !downloaded { return false, false; }
      // any number of blocks arrive; a transfer that ends well and passes the checks was the whole image
      var image: Image := *;
      if arrives && intact {
        image := Complete(v);
      }
      Must(WriteImage(target, image));
      if !alive { return false, false; }
      if !arrives {
        RemoveSlot(target);
        return false, false;
      }
      // environment assumption: no image can be fetched for a version with a newline in it
      return true, intact && '\n' !in v;
    }

    /** Gives up an update: the image and the record go. */
    method AbortBeforeSwitch(target: string)
      requires Valid() && alive && !Armed(w) && target != w.named
      modifies this
      ensures Valid() && start == old(start) && old(events) <= events
      ensures SameIdentity(w, old(w)) && w.config == old(w.config) && !Armed(w)
      ensures undisturbed ==> alive && target !in w.images && w.pending == None
    {
      hide Inv, ActiveIfs, ReadPending, ClockVerdict, GetVersion;
      RemoveSlot(target);
      if alive {
        ClearPending();
      }
    }

    /** One update attempt. Switched: kernel= names the new image and a reboot was requested. Tried: the
        switch itself was reached. */
    method TryApplyUpdate(v: string, f: UpdateLuck) returns (switched: bool, tried: bool)
      requires Valid() && alive && !Armed(w)
      requires IsTrimmed(v) && IsNewer(v, LocalVersion(w))
      requires f.backupWritten || HarmlessBackup(w)
      modifies this
      ensures Valid() && start == old(start) && old(events) <= events
      ensures w.version == old(w.version) && w.running == old(w.running) && w.boots == old(w.boots)
      ensures alive && tried ==>
                && old(Kernel(w)).Some? && (switched <==> SwitchWorks(f))
                && w.config == AfterSwitch(old(w), f, Target(old(Kernel(w)).value))
      ensures alive && !tried ==> !switched && w.config == old(w.config)
      ensures alive && switched ==>
                && Armed(w) && Record(w).version == v && w.pendingBoot == w.boots
                && old(Kernel(w)).Some? && Kernel(w) == Some(Target(old(Kernel(w)).value))
                && KeptExactly(old(w.config), w.config, f.configRead)
      ensures alive && !switched ==>
                && !Armed(w) && w.named == old(w.named)
                && (Kernel(w) == None || Kernel(w) == old(Kernel(w)))
                && (old(Kernel(w)).Some? ==> (Kernel(w) == old(Kernel(w)) <==> !tried || FailureKeeps(old(w), f)))
      ensures undisturbed ==>
                && alive && (switched ==> Record(w).witnessOk)
                && (tried <==> old(Kernel(w)).Some? && f.space && f.arrives && f.intact && '\n' !in v)
                && (!switched && old(Kernel(w)).Some? && f.space ==>
                      Target(old(Kernel(w)).value) !in w.images && (f.arrives ==> w.pending == None))
    {
      hide ReadPending, GetVersion, ActiveIfs, Inv, IsNewer, Target, RebootedSince, ClockVerdict, KeptExactly;
      hide AfterSwitch, SwitchWorks, FailureKeeps;
      NewerMeansNonEmpty(v, LocalVersion(w));
      KernelIsNamed(w);
      switched, tried := false, false;
      if !f.space {
        return;
      }
      var active := GetActive();
      if active == None {
        return;
      }
      var target := Target(active.value);
      var downloaded, verified := DownloadAndVerify(target, v, f.arrives, f.intact);
      if !alive || !downloaded { return; }
      if verified {
        verified := WritePendingRecord(target, v);
        if !alive { return; }
      }
      if verified {
        tried := true;
        SwitchFromHere(old(w), w, f, target);
        switched := SetActiveIfs(target, f);
        if !alive || switched { return; }
      }
      AbortBeforeSwitch(target);
    }

    /** The new slot has booted: its version goes on file and the transaction ends. */
    method CommitVersion(p: PendingInfo) returns (go: bool)
      requires Valid() && alive && Armed(w) && p == Record(w)
      requires RebootedSince(p, w.mark, w.uptime, w.wall)
      modifies this
      ensures Valid() && start == old(start) && old(events) <= events
      ensures w.running == old(w.running) && w.boots == old(w.boots) && w.config == old(w.config)
      ensures old(w.pendingBoot < w.boots)
      ensures alive && go ==> LocalVersion(w) == p.version
      ensures alive && !go ==> Armed(w)
      ensures undisturbed ==> alive && go && SameButClocks(w, SettledAtStart(old(w)))
    {
      hide ReadPending, GetVersion, ActiveIfs, IsNewer, Target, ClockVerdict, RebootedSince;
      ReadVersionIsField(w.pending);
      Must(Confirm);
      if !alive { return false; }
      go := Do(WriteVersion(""));
      if !alive || !go { return false; }
      VersionTextReadsBack(p.version);
      Must(WriteVersion(VersionText(p.version)));
      if !alive { return false; }
      ClearPending();
      return true;
    }

    /** Once per process start: commit the pending version if the machine rebooted into its slot. */
    method SettlePendingOnBoot() returns (go: bool)
      requires Valid() && alive
      modifies this
      ensures Valid() && start == old(start) && old(events) <= events
      ensures w.running == old(w.running) && w.boots == old(w.boots)
      ensures alive && old(Armed(w)) && go ==>
                old(w.pendingBoot < w.boots) && LocalVersion(w) == old(Record(w).version)
      ensures old(Armed(w) ==> w.pendingBoot == w.boots) ==> w.version == old(w.version)
      ensures alive && !old(Armed(w)) ==> !Armed(w)
      ensures alive && old(Armed(w)) && !go ==> Armed(w)
      ensures w.config == old(w.config)
      ensures undisturbed ==> alive && SameButClocks(w, SettledAtStart(old(w))) && (go <==> !Record(w).Valid())
    {
      hide ReadPending, GetVersion, ActiveIfs, IsNewer, Target, ClockVerdict;
      EmptyPendingIsInvalid();
      ReadVersionIsField(w.pending);
      var p := Record(w);
      if !p.Valid() {
        return true;
      }
      var active := GetActive();
      if active == None {
        return false;
      }
      if active.value == p.expectedIfs {
        if !RebootedSince(p, w.mark, w.uptime, w.wall) {
          return false;
        }
        go := CommitVersion(p);
        return;
      }
      RemoveSlot(p.expectedIfs);
      if alive {
        ClearPending();
      }
      return true;
    }

    /** True while kernel= has been switched and the switch is not yet confirmed. */
    method PendingBlocksUpdate() returns (blocks: bool, needReboot: bool)
      requires Valid() && alive
      modifies this
      ensures Valid() && start == old(start) && old(events) <= events
      ensures w.running == old(w.running) && w.boots == old(w.boots) && w.version == old(w.version)
      ensures w.config == old(w.config)
      ensures alive && !blocks ==> !Armed(w)
      ensures alive && blocks ==> w == old(w)
      ensures old(Armed(w)) ==> alive && blocks && w == old(w)
      ensures alive && blocks && needReboot ==> Armed(w)
      ensures undisturbed ==> alive && SameButClocks(w, StaleCleared(old(w))) && (!blocks ==> !Record(w).Valid())
      ensures undisturbed ==>
                && (blocks <==> old(Armed(w) || (Record(w).Valid() && Kernel(w).None?)))
                && (blocks && needReboot <==> old(Armed(w)))
    {
      hide ReadPending, GetVersion, ActiveIfs, IsNewer, Target, ClockVerdict, RebootedSince;
      EmptyPendingIsInvalid();
      needReboot := true;
      var p := Record(w);
      if !p.Valid() {
        return false, needReboot;
      }
      var active := GetActive();
      if active == None {
        return true, false;
      }
      if active.value == p.expectedIfs {
        return true, needReboot;
      }
      RemoveSlot(p.expectedIfs);
      if alive {
        ClearPending();
      }
      return false, needReboot;
    }

    /** One round of the main loop. A reboot is asked for only while a switch awaits it. */
    method Round(answer: string) returns (asked: bool)
      requires Valid() && alive
      modifies this
      ensures Valid() && start == old(start) && old(events) <= events
      ensures asked ==> Armed(w)
      ensures old(Armed(w)) ==> Armed(w)
      ensures old(Armed(w)) || !IsNewer(Trimmed(answer), old(LocalVersion(w))) ==>
                w.config == old(w.config) && w.version == old(w.version)
      ensures undisturbed ==> alive && RoundDone(old(w), answer, w, asked)
    {
      hide ReadPending, GetVersion, ActiveIfs, IsNewer, Target, ClockVerdict, RebootedSince, Inv, Trimmed, KeepsOtherLines;
      var blocks, needReboot := PendingBlocksUpdate();
      if !alive { return false; }
      asked := blocks && needReboot;
      if !blocks {
        var server := Trimmed(answer);
        if IsNewer(server, LocalVersion(w)) {
          NewerMeansNonEmpty(server, LocalVersion(w));
        }
        if server != "" && IsNewer(server, LocalVersion(w)) {
          // replacing a backup that names another slot does not fail
          var f: UpdateLuck := *;
          if undisturbed {
            f := ALL_WELL;
          } else if !HarmlessBackup(w) {
            f := f.(backupWritten := true);
          }
          var switched, _ := TryApplyUpdate(server, f);
          asked := alive && switched;
        }
      }
      // a requested or accidental reboot may end the process at any time
      TimePasses();
    }

    /** One process: settle, then one round per server answer, until it dies. A process that nothing
        disturbs settles and then does what RoundsDone says. */
    method OtaLoop(answers: seq<string>) returns (asked: bool)
      requires Valid() && alive
      modifies this
      ensures Valid() && start == old(start) && old(events) <= events
      ensures asked ==> Armed(w)
      ensures !old(Armed(w)) && NoneNewer(answers, old(LocalVersion(w))) ==>
                w.config == old(w.config) && w.version == old(w.version)
      ensures undisturbed ==> alive && RoundsDone(SettledAtStart(old(w)), answers, w, asked)
    {
      hide *;
      asked := false;
      var _ := SettlePendingOnBoot();
      ghost var s := SettledAtStart(old(w));
      SettledHasNoStale(old(w));
      if undisturbed {
        NoRounds(s, w, asked);
      }
      assert answers[..0] == [];
      for i := 0 to |answers|
        invariant Valid() && start == old(start) && old(events) <= events
        invariant asked ==> Armed(w)
        invariant !old(Armed(w)) && NoneNewer(answers, old(LocalVersion(w))) ==>
                    w.config == old(w.config) && w.version == old(w.version)
        invariant undisturbed ==> alive && RoundsDone(s, answers[..i], w, asked)
      {
        if !alive { return; }
        ghost var b := w;
        NoneNewerAt(answers, i, old(LocalVersion(w)));
        if b.version == old(w.version) {
          SameVersion(b, old(w));
        }
        var again := Round(answers[i]);
        if undisturbed {
          RoundsNext(s, answers[..i], answers[i], b, w, asked, again);
          assert answers[..i + 1] == answers[..i] + [answers[i]];
        }
        asked := asked || again;
      }
      assert answers[..|answers|] == answers;
    }

    /** An update that nothing disturbs, through a process, a reboot and the next process: the new image
        runs, kernel= names it, its version is on file and the transaction is over. */
    method UndisturbedUpdate(first: seq<string>, second: seq<string>, uptime: int, wall: int) returns (v: string)
      requires Valid() && alive && undisturbed && !Armed(w) && Kernel(w).Some?
      requires Wanted(first, LocalVersion(w)).Some?
      requires NoneNewer(second, Wanted(first, LocalVersion(w)).value)
      requires 0 <= uptime <= INT64_MAX && 0 < wall <= INT64_MAX
      modifies this
      ensures Valid() && alive && start == old(start) && old(events) <= events
      ensures Wanted(first, old(LocalVersion(w))) == Some(v)
      ensures Kernel(w) == Some(w.running) && w.running == Target(old(Kernel(w)).value)
      ensures LocalVersion(w) == v && Holds(w, w.running, v) && w.pending == None
      ensures KeepsOtherLines(old(w.config), w.config)
    {
      hide ReadPending, GetVersion, ActiveIfs, IsNewer, Target, ClockVerdict, KeepsOtherLines;
      hide Wanted, NoneNewer, StaleCleared;
      v := Wanted(first, LocalVersion(w)).value;
      SettledHasNoStale(w);
      var _ := OtaLoop(first);
      Take(Reboot(uptime, wall));
      NewerMeansNonEmpty(v, old(LocalVersion(w)));
      VersionTextReadsBack(v);
      var _ := OtaLoop(second);
    }

    /** One process, started after a true reboot or without one. */
    method RunProcess(s: Session)
      requires Valid() && 0 <= s.uptime <= INT64_MAX && 0 < s.wall <= INT64_MAX
      modifies this
      ensures Valid() && start == old(start) && old(events) <= events
      ensures undisturbed ==> SessionDone(old(w), s, w)
    {
      hide ReadPending, GetVersion, ActiveIfs, IsNewer, Target, ClockVerdict, Inv, Trimmed, RoundsDone, SettledAtStart;
      if s.afterReboot && Kernel(w).Some? {
        Take(Reboot(s.uptime, s.wall));
      }
      alive := true;
      assert w == Started(old(w), s);
      var asked := OtaLoop(s.answers);
    }

    /** The life of a device: processes started again and again, with or without a true reboot in
        between, whenever kernel= lets the machine boot. */
    method Life(sessions: seq<Session>) returns (ghost trace: seq<World>)
      requires Valid()
      requires forall s :: s in sessions ==> 0 <= s.uptime <= INT64_MAX && 0 < s.wall <= INT64_MAX
      modifies this
      ensures Valid() && start == old(start) && old(events) <= events
      ensures undisturbed ==> LivedThrough(old(w), sessions, trace, w)
      ensures forall n :: 0 <= n < |events| ==>
                SafeStep(Replay(start, events[..n]), Replay(start, events[..n + 1]))
      ensures forall i, j :: 0 <= i <= j <= |events| ==>
                NotOlder(Committed(Replay(start, events[..j])), Committed(Replay(start, events[..i])))
      ensures Kernel(start).Some? ==>
                ((forall n :: 0 <= n <= |events| ==> NamesCompleteImage(Replay(start, events[..n])))
                 <==> (forall i :: 0 <= i < |events| ==> !LosesKernel(events[i])))
      ensures forall i :: 0 <= i < |events| && LosesKernel(events[i]) ==>
                IsRestore(Replay(start, events[..i]), events[i].text)
    {
      hide ReadPending, GetVersion, ActiveIfs, IsNewer, Target, ClockVerdict, Inv, Trimmed, SessionDone;
      trace := [w];
      for i := 0 to |sessions|
        invariant Valid() && start == old(start) && old(events) <= events
        invariant |trace| == i + 1 && trace[0] == old(w) && trace[i] == w
        invariant undisturbed ==> forall k :: 0 <= k < i ==> SessionDone(trace[k], sessions[k], trace[k + 1])
      {
        RunProcess(sessions[i]);
        trace := trace + [w];
      }
      forall i | 0 <= i < |events| && LosesKernel(events[i])
        ensures IsRestore(Replay(start, events[..i]), events[i].text)
      {
        StepAt(start, events, i);
        LossIsRestore(Replay(start, events[..i]), events[i]);
      }
      hide SafeStep, Committed, Replay, Legal, NamesCompleteImage, LosesKernel;
      if Kernel(start).Some? {
        KernelKeptExactly(start, events);
      }
      forall n | 0 <= n < |events|
        ensures SafeStep(Replay(start, events[..n]), Replay(start, events[..n + 1]))
      {
        RunIsSafe(start, events, n);
      }
      forall i, j | 0 <= i <= j <= |events|
        ensures NotOlder(Committed(Replay(start, events[..j])), Committed(Replay(start, events[..i])))
      {
        CommittedIncreases(start, events, i, j);
      }
    }
  }

  function Started(b: World, s: Session): World {
    if s.afterReboot && Kernel(b).Some? then Apply(b, Reboot(s.uptime, s.wall)) else b
  }

  /** What one process does that nothing disturbs, after a reboot or without one. */
  ghost predicate SessionDone(b: World, s: Session, a: World) {
    RoundsDone(SettledAtStart(Started(b, s)), s.answers, a, false) ||
    RoundsDone(SettledAtStart(Started(b, s)), s.answers, a, true)
  }

  ghost predicate LivedThrough(b: World, sessions: seq<Session>, trace: seq<World>, a: World) {
    && |trace| == |sessions| + 1 && trace[0] == b && trace[|sessions|] == a
    && forall k :: 0 <= k < |sessions| ==> SessionDone(trace[k], sessions[k], trace[k + 1])
  }

  datatype Session = Session(afterReboot: bool, uptime: int, wall: int, answers: seq<string>)

  lemma NothingNamedInEmptyFile()
    ensures ActiveIfs("") == None
  {
  }

  lemma NewerMeansNonEmpty(a: string, b: string)
    requires IsNewer(a, b)
    ensures a != ""
  {
  }

  lemma KernelIsNamed(w: World)
    requires Inv(w)
    ensures Kernel(w).Some? ==> Kernel(w).value == w.named
  {
  }

  lemma ReadVersionIsField(file: Option<string>)
    ensures IsField(ReadPending(file).version)
  {
    ReadVersionHasNoNewline(file);
  }
}
