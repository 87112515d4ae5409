/** The ota_pending record: its five-line text form and the decision whether the
    machine rebooted since it was written. */
module OtaPending {
  import opened Common
  import opened OtaText

  const INT64_MAX := 0x7fff_ffff_ffff_ffff
  const INT64_MIN := -0x8000_0000_0000_0000

  /** A missing or garbled switch time reads as uptime -1 or wall clock 0. */
  datatype PendingInfo = PendingInfo(
    expectedIfs: string, version: string, switchUptime: int, switchWall: int, witnessOk: bool)
  {
    predicate Valid() { expectedIfs != "" }
  }

  const NO_PENDING := PendingInfo("", "", -1, 0, false)

  function PendingText(p: PendingInfo): string {
    Render(Fields(p))
  }

  function Fields(p: PendingInfo): seq<string> {
    [p.expectedIfs, p.version, ShowInt(p.switchUptime), ShowInt(p.switchWall), Flag(p.witnessOk)]
  }

  function Flag(b: bool): string { if b then "1" else "0" }

  function LineOr(ls: seq<string>, i: nat): string {
    if i < |ls| then Trimmed(ls[i]) else ""
  }

  function StollOr(s: string, default: int): int {
    match ParseInt(s, INT64_MIN, INT64_MAX)
    case Some(v) => v
    case None => default
  }

  function FromLines(ls: seq<string>): PendingInfo {
    PendingInfo(LineOr(ls, 0), LineOr(ls, 1),
                StollOr(LineOr(ls, 2), -1), StollOr(LineOr(ls, 3), 0), LineOr(ls, 4) == "1")
  }

  /** None: the file cannot be opened. */
  function ReadPending(file: Option<string>): PendingInfo {
    match file
    case None => NO_PENDING
    case Some(content) => FromLines(Lines(content))
  }

  predicate IsField(s: string) { IsTrimmed(s) && '\n' !in s }

  predicate InInt64(n: int) { INT64_MIN <= n <= INT64_MAX }

  lemma ShowIntIsField(n: int)
    ensures IsField(ShowInt(n)) && ShowInt(n) != ""
  {
    var m: nat := if n < 0 then -n else n;
    var s := ShowNat(m);
    assert IsDigit(s[0]) && IsDigit(s[|s| - 1]);
  }

  lemma StollOfShow(n: int, default: int)
    requires InInt64(n)
    ensures StollOr(ShowInt(n), default) == n
  {
    ParseOfShow(n, "", INT64_MIN, INT64_MAX);
    assert ShowInt(n) + "" == ShowInt(n);
    hide ShowInt, ParseInt;
  }

  lemma FlagIsField(b: bool)
    ensures IsField(Flag(b)) && (Flag(b) == "1" <==> b)
  {
  }

  lemma FromLinesOfFields(p: PendingInfo, ls: seq<string>)
    requires IsField(p.expectedIfs) && IsField(p.version)
    requires InInt64(p.switchUptime) && InInt64(p.switchWall)
    requires ls == Fields(p)
    ensures FromLines(ls) == p
  {
    hide ShowInt, Trimmed, StollOr, Flag, IsTrimmed;
    ShowIntIsField(p.switchUptime);
    ShowIntIsField(p.switchWall);
    FlagIsField(p.witnessOk);
    forall i | 0 <= i < 5 ensures LineOr(ls, i) == ls[i] {
      TrimmedIdentity(ls[i]);
    }
    StollOfShow(p.switchUptime, -1);
    StollOfShow(p.switchWall, 0);
  }

  /** All five fields survive the trip through the file. */
  lemma PendingRoundTrip(p: PendingInfo)
    requires IsField(p.expectedIfs) && IsField(p.version)
    requires InInt64(p.switchUptime) && InInt64(p.switchWall)
    ensures ReadPending(Some(PendingText(p))) == p
  {
    hide ShowInt, Render, Lines, FromLines, Flag, IsTrimmed;
    ShowIntIsField(p.switchUptime);
    ShowIntIsField(p.switchWall);
    FlagIsField(p.witnessOk);
    LinesOfRender(Fields(p));
    FromLinesOfFields(p, Fields(p));
  }

  lemma ReadVersionHasNoNewline(file: Option<string>)
    ensures '\n' !in ReadPending(file).version
  {
    if file.Some? {
      var ls := Lines(file.value);
      if 1 < |ls| { assert ls[1] in ls; }
    }
  }

  /** For a trimmed version text the record survives exactly when the text holds no newline. */
  lemma PendingRoundTripExact(p: PendingInfo)
    requires IsField(p.expectedIfs) && IsTrimmed(p.version)
    requires InInt64(p.switchUptime) && InInt64(p.switchWall)
    ensures ReadPending(Some(PendingText(p))) == p <==> '\n' !in p.version
  {
    hide PendingText, ReadPending;
    ReadVersionHasNoNewline(Some(PendingText(p)));
    if '\n' !in p.version { PendingRoundTrip(p); }
  }

  lemma EmptyPendingIsInvalid()
    ensures !ReadPending(Some("")).Valid() && !ReadPending(None).Valid()
  {
  }

  // ---------- has the machine rebooted since the switch? ----------

  predicate ClockVerdict(p: PendingInfo, uptime: int, wall: int) {
    || p.switchUptime < 0 || p.switchWall <= 0
    || uptime < p.switchUptime
    || wall - uptime > (p.switchWall - p.switchUptime) + 5
  }

  predicate RebootedSince(p: PendingInfo, witnessExists: bool, uptime: int, wall: int) {
    if p.witnessOk then !witnessExists else ClockVerdict(p, uptime, wall)
  }

  /** Same boot, no witness file: the answer "rebooted" is given exactly when the wall clock was
      stepped forward by more than five seconds in total. */
  lemma FallbackInSameBoot(p: PendingInfo, mark: bool, elapsed: nat, clockStep: int)
    requires !p.witnessOk && p.switchUptime >= 0 && p.switchWall > 0
    ensures RebootedSince(p, mark, p.switchUptime + elapsed, p.switchWall + elapsed + clockStep)
            <==> clockStep > 5
  {
  }

  /** After a reboot that began gap seconds after the switch: the answer is "rebooted" exactly when
      the new uptime is still below the recorded one, or the recorded uptime, the gap and the clock
      step together exceed five seconds. */
  lemma FallbackAfterReboot(p: PendingInfo, mark: bool, gap: nat, uptime: nat, clockStep: int)
    requires !p.witnessOk && p.switchUptime >= 0 && p.switchWall > 0
    ensures RebootedSince(p, mark, uptime, p.switchWall + gap + uptime + clockStep)
            <==> uptime < p.switchUptime || p.switchUptime + gap + clockStep > 5
  {
  }

  /** A record in the older format, slot and version only, always reads as rebooted. */
  lemma OldRecordIsRebooted(slot: string, version: string, mark: bool, uptime: int, wall: int)
    requires IsField(slot) && IsField(version)
    ensures var p := ReadPending(Some(slot + "\n" + version + "\n"));
            p.expectedIfs == slot && p.version == version && RebootedSince(p, mark, uptime, wall)
  {
    hide *;
    TwoLines(slot, version);
    RecordOfTwoLines(slot, version);
    NoTimesNoWitness(slot, version, mark, uptime, wall);
    OfLines(slot + "\n" + version + "\n");
  }

  /** So does one that has lost either switch time, unless the witness decides. */
  lemma IncompleteIsRebooted(p: PendingInfo, mark: bool, uptime: int, wall: int)
    requires p.switchUptime < 0 || p.switchWall <= 0
    ensures RebootedSince(p, mark, uptime, wall) <==> !(p.witnessOk && mark)
  {
  }

  lemma {:induction false} OfLines(text: string)
    ensures ReadPending(Some(text)) == FromLines(Lines(text))
  {
  }

  lemma {:induction false} TwoLines(a: string, b: string)
    requires IsField(a) && IsField(b)
    ensures Lines(a + "\n" + b + "\n") == [a, b]
  {
    LinesCons(b, "");
    LinesCons(a, b + "\n" + "");
    hide Lines;
    assert a + "\n" + b + "\n" == a + "\n" + (b + "\n" + "");
    NoLines();
  }

  lemma NoLines()
    ensures Lines("") == []
  {
  }

  lemma RecordOfTwoLines(slot: string, version: string)
    requires IsField(slot) && IsField(version)
    ensures FromLines([slot, version]) == PendingInfo(slot, version, -1, 0, false)
  {
    TrimmedIdentity(slot);
    TrimmedIdentity(version);
    NoNumberInNothing();
    hide Trimmed, StollOr, IsTrimmed;
  }

  lemma NoTimesNoWitness(slot: string, version: string, mark: bool, uptime: int, wall: int)
    ensures RebootedSince(PendingInfo(slot, version, -1, 0, false), mark, uptime, wall)
  {
  }

  lemma NoNumberInNothing()
    ensures StollOr("", -1) == -1 && StollOr("", 0) == 0 && "" != "1"
  {
  }
}
