/** Interrupt-driven I2C master: the command generator, the receive path and the protocol between
    transactions that leave the bus open (no STOP) and the next repeated START. */
module I2cMaster {
  import opened Common

  const TWO32 := 0x1_0000_0000
  const BUSY_RETRY := 3
  const RESET_RETRY := 3

  /** One write to the command register. */
  datatype Cmd = Cmd(read: bool, data: Byte, stop: bool, restart: bool)

  datatype Flag = DONE | ERROR | ADDR_NACK | DATA_NACK | ARBL | ABORT | BUSY

  /** The flags that tell why a transaction was aborted. */
  const ABORT_CAUSES: set<Flag> := {ARBL, ADDR_NACK, DATA_NACK, ABORT}

  datatype AddrFormat = SevenBit | TenBit | OtherFormat

  /** The transaction's i-th command: the data bytes in order, then the reads; STOP only on the last
      one and only if asked for; RESTART on the first read after data, and on the first command of
      a transaction that continues an open one. */
  function CommandAt(tx: seq<Byte>, rxlen: nat, stop: bool, restart: bool, i: nat): Cmd
    requires i < |tx| + rxlen
  {
    Cmd(i >= |tx|,
        if i < |tx| then tx[i] else 0,
        stop && i == |tx| + rxlen - 1,
        (i == 0 && restart) || (i == |tx| && |tx| > 0))
  }

  function Stream(tx: seq<Byte>, rxlen: nat, stop: bool, restart: bool): (s: seq<Cmd>)
    ensures |s| == |tx| + rxlen
    ensures forall i :: 0 <= i < |s| ==> s[i] == CommandAt(tx, rxlen, stop, restart, i)
  {
    seq(|tx| + rxlen, i requires 0 <= i < |tx| + rxlen => CommandAt(tx, rxlen, stop, restart, i))
  }

  // ---------- what the stream means on the bus ----------

  /** A transaction on the bus: data before reads, a repeated START exactly where the direction
      changes and in front exactly if the bus was open, a STOP at most at the end. */
  predicate OnBus(s: seq<Cmd>, stop: bool, restart: bool) {
    && (forall i, j :: 0 <= i < j < |s| && s[i].read ==> s[j].read)
    && (forall i :: 0 < i < |s| ==> (s[i].restart <==> s[i].read != s[i - 1].read))
    && (forall i :: 0 <= i < |s| - 1 ==> !s[i].stop)
    && (s != [] ==> (s[0].restart <==> restart) && (s[|s| - 1].stop <==> stop))
    && (forall i :: 0 <= i < |s| && s[i].read ==> s[i].data == 0)
  }

  /** The bytes a slave is sent. */
  function Payload(s: seq<Cmd>): seq<Byte> {
    if s == [] then [] else (if s[0].read then [] else [s[0].data]) + Payload(s[1..])
  }

  lemma {:induction false} PayloadSplits(s: seq<Cmd>)
    requires forall i, j :: 0 <= i < j < |s| && s[i].read ==> s[j].read
    ensures |Payload(s)| <= |s|
    ensures forall i :: 0 <= i < |s| ==> (s[i].read <==> i >= |Payload(s)|)
    ensures forall i :: 0 <= i < |Payload(s)| ==> s[i].data == Payload(s)[i]
  {
    if s != [] {
      var t := s[1..];
      assert forall i :: 0 <= i < |t| ==> t[i] == s[i + 1];
      PayloadSplits(t);
      if s[0].read {
        assert t != [] ==> t[0].read;
      }
      forall i | 0 <= i < |s| ensures s[i].read <==> i >= |Payload(s)| {
        if i > 0 { assert t[i - 1] == s[i]; }
      }
      forall i | 0 <= i < |Payload(s)| ensures s[i].data == Payload(s)[i] {
        if i > 0 { assert t[i - 1] == s[i]; }
      }
    }
  }

  lemma {:induction false} StreamOnBus(tx: seq<Byte>, rxlen: nat, stop: bool, restart: bool)
    ensures OnBus(Stream(tx, rxlen, stop, restart), stop, restart)
    ensures Payload(Stream(tx, rxlen, stop, restart)) == tx
  {
    var t := Stream(tx, rxlen, stop, restart);
    PayloadSplits(t);
    hide Payload;
    var p := Payload(t);
    assert |tx| > 0 ==> !t[|tx| - 1].read;
    assert |tx| < |t| ==> t[|tx|].read;
    assert p == tx;
  }

  /** The stream is the one bus transaction that sends these bytes and then reads this many. */
  lemma {:induction false} StreamExact(s: seq<Cmd>, tx: seq<Byte>, rxlen: nat, stop: bool, restart: bool)
    ensures s == Stream(tx, rxlen, stop, restart)
            <==> OnBus(s, stop, restart) && Payload(s) == tx && |s| == |tx| + rxlen
  {
    var t := Stream(tx, rxlen, stop, restart);
    StreamOnBus(tx, rxlen, stop, restart);
    if OnBus(s, stop, restart) && Payload(s) == tx && |s| == |tx| + rxlen {
      PayloadSplits(s);
      forall i | 0 <= i < |s| ensures s[i] == t[i] {
        assert i > 0 ==> (s[i].restart <==> s[i].read != s[i - 1].read);
      }
    }
  }

  /** What IC_TAR must hold to address a slave. */
  function TarFor(addr: nat, fmt: AddrFormat): nat {
    if fmt == SevenBit then addr else addr + 0x1000
  }

  predicate ValidAddr(addr: nat, fmt: AddrFormat) {
    (fmt == SevenBit && addr <= 0x7F) || (fmt == TenBit && addr <= 0x3FF)
  }

  /** The register value tells address and format apart. */
  lemma TarDeterminesSlave(a: nat, f: AddrFormat, b: nat, g: AddrFormat)
    requires ValidAddr(a, f) && ValidAddr(b, g)
    ensures TarFor(a, f) == TarFor(b, g) <==> a == b && f == g
  {
  }

  /** The 32-bit length check recognises surplus bytes exactly while the sum does not wrap. */
  lemma SurplusCheckExact(rdlen: nat, numbers: nat, rxlen: nat)
    requires rdlen < rxlen < TWO32 && numbers < TWO32
    ensures ((rdlen + numbers) % TWO32 > rxlen <==> rdlen + numbers > rxlen)
            <==> rdlen + numbers < TWO32
  {
    if rdlen + numbers >= TWO32 {
      assert (rdlen + numbers) % TWO32 == rdlen + numbers - TWO32;
    }
  }

  // ---------- the controller as a value ----------

  datatype Controller = Controller(
    enabled: bool,
    tar: nat,
    txFifo: seq<Cmd>,
    rxFifo: seq<Byte>,
    abrt: bool,          // an abort in this transaction holds the queue empty
    stopDet: bool)

  /** One interrupt: whether everything queued has been executed by then, and whether, from the last
      one to the end of this one, nothing is aborted, no byte is lost on the bus and none comes unasked. */
  datatype Wakeup = Wakeup(drained: bool, calm: bool)

  /** What bus and controller do during one call: which polls find the bus busy, whether the adapter
      switches off and on when told to, and the interrupts. */
  datatype Conditions = Conditions(busy: seq<bool>, off: bool, on: bool, wakeups: seq<Wakeup>)

  predicate BusyAt(c: Conditions, k: nat) { k < |c.busy| && c.busy[k] }

  /** Whether the k-th attempt finds the adapter off. */
  predicate SwitchesAt(works: seq<bool>, k: nat) { k < |works| && works[k] }

  /** One poll, one per retry, and one after the reset. */
  const BUSY_POLLS := BUSY_RETRY + 2

  predicate BusyUntil(c: Conditions, n: nat) { forall k :: 0 <= k < n ==> BusyAt(c, k) }

  predicate StaysBusy(c: Conditions) { BusyUntil(c, BUSY_POLLS) }

  /** Interrupts enough for len commands: one for each queue-full of them, and one to see the end. */
  predicate Smooth(wakeups: seq<Wakeup>, len: nat, depth: nat) {
    && (forall u :: u in wakeups ==> u == Wakeup(true, true))
    && wakeups != [] && (|wakeups| - 1) * depth >= len
  }

  /** After k interrupts at least k queue-fulls are written, or everything. */
  predicate Ahead(written: nat, len: nat, k: nat, depth: nat) { written >= Min(len, k * depth) }

  /** While not everything is written, enough interrupts are not over. */
  lemma NotTheLast(wakeups: seq<Wakeup>, len: nat, depth: nat, k: nat, written: nat)
    requires Smooth(wakeups, len, depth) && k < |wakeups| && Ahead(written, len, k, depth)
    ensures wakeups[k] == Wakeup(true, true)
    ensures written < len ==> k + 1 < |wakeups|
  {
    assert wakeups[k] in wakeups;
  }

  lemma FurtherAhead(before: nat, after: nat, len: nat, k: nat, depth: nat)
    requires Ahead(before, len, k, depth) && after >= Min(len, before + depth)
    ensures Ahead(after, len, k + 1, depth)
  {
    assert (k + 1) * depth == k * depth + depth;
  }

  /** What happened in this transaction. */
  datatype Log = Log(
    issued: seq<Cmd>,    // everything written to the command register
    targets: seq<nat>,   // IC_TAR at each of those writes
    executed: seq<Cmd>,  // what the controller has put on the bus
    received: seq<Byte>, // every byte in or through the receive FIFO
    aborted: bool)       // an abort has dropped what was queued

  const EMPTY_LOG := Log([], [], [], [], false)

  /** What a transaction is asked to do, and the hardware it runs on. A spurious controller may
      deliver bytes nobody asked for. */
  datatype Job = Job(tx: seq<Byte>, rxlen: nat, stop: bool, restart: bool, depth: nat, spurious: bool)

  /** The controller and the driver's counters agree: wrlen commands written, r bytes taken. */
  ghost predicate Link(j: Job, hw: Controller, log: Log, wrlen: nat, r: nat) {
    && |log.issued| == wrlen <= |j.tx| + j.rxlen
    && (forall i :: 0 <= i < wrlen ==> log.issued[i] == CommandAt(j.tx, j.rxlen, j.stop, j.restart, i))
    && log.executed <= log.issued && hw.abrt == log.aborted && (hw.abrt ==> hw.txFifo == [])
    && (!hw.abrt ==> log.executed + hw.txFifo == log.issued)
    && |hw.txFifo| <= j.depth && |hw.rxFifo| <= j.depth
    && |log.received| == r + |hw.rxFifo| && log.received[r..] == hw.rxFifo
    && (hw.stopDet && !hw.abrt ==> log.executed != [] && log.executed[|log.executed| - 1].stop)
    && (!j.spurious && log.received != [] ==> |j.tx| + |log.received| <= |log.executed|)
    && |log.targets| == wrlen && (forall i :: 0 <= i < wrlen ==> log.targets[i] == hw.tar)
  }

  /** The reads among the first n commands, when sent of them write. */
  function Reads(sent: nat, n: nat): nat { if n > sent then n - sent else 0 }

  lemma ReadsGrow(sent: nat, n: nat, k: nat)
    ensures Reads(sent, n + k) <= Reads(sent, n) + k
  {
  }

  /** Nothing has gone wrong so far: no abort, every read brought its byte, a STOP was seen, and the
      receive FIFO has room for every byte still to come. */
  ghost predicate Flows(j: Job, hw: Controller, log: Log, wrlen: nat, r: nat) {
    && !hw.abrt && |log.received| == Reads(|j.tx|, |log.executed|)
    && (log.executed != [] && log.executed[|log.executed| - 1].stop ==> hw.stopDet)
    && Reads(|j.tx|, wrlen) <= r + j.depth
  }

  /** A byte reaches the receive FIFO, or is lost because it is full. */
  function Receive(hw: Controller, depth: nat, byte: Byte): Controller {
    if |hw.rxFifo| < depth then hw.(rxFifo := hw.rxFifo + [byte]) else hw
  }

  ghost function LogReceive(hw: Controller, log: Log, depth: nat, byte: Byte): Log {
    if |hw.rxFifo| < depth then log.(received := log.received + [byte]) else log
  }

  /** The next queued command goes out on the bus; a read may bring a byte. */
  function Execute(hw: Controller, depth: nat, byte: Byte, lost: bool): Controller
    requires hw.txFifo != []
  {
    var c := hw.txFifo[0];
    var hw' := hw.(txFifo := hw.txFifo[1..], stopDet := c.stop);
    if c.read && !lost then Receive(hw', depth, byte) else hw'
  }

  ghost function LogExecute(hw: Controller, log: Log, depth: nat, byte: Byte, lost: bool): Log
    requires hw.txFifo != []
  {
    var c := hw.txFifo[0];
    var log' := log.(executed := log.executed + [c]);
    if c.read && !lost then LogReceive(hw, log', depth, byte) else log'
  }

  /** The transaction is aborted: what is queued is dropped. */
  function Abort(hw: Controller, stopSeen: bool): Controller {
    hw.(abrt := true, txFifo := [], stopDet := hw.stopDet || stopSeen)
  }

  /** A write to the command register; one that finds the queue full or held is dropped. */
  function WriteCommand(hw: Controller, depth: nat, c: Cmd): Controller {
    if !hw.abrt && |hw.txFifo| < depth then hw.(txFifo := hw.txFifo + [c]) else hw
  }

  ghost function LogWrite(hw: Controller, log: Log, c: Cmd): Log {
    log.(issued := log.issued + [c], targets := log.targets + [hw.tar])
  }

  /** A read of the data register. */
  function ReadData(hw: Controller): (Controller, Byte)
    requires hw.rxFifo != []
  {
    (hw.(rxFifo := hw.rxFifo[1..]), hw.rxFifo[0])
  }

  lemma ExecuteKeepsLink(j: Job, hw: Controller, log: Log, wrlen: nat, r: nat, byte: Byte, lost: bool)
    requires Link(j, hw, log, wrlen, r) && hw.txFifo != []
    ensures var hw', log' := Execute(hw, j.depth, byte, lost), LogExecute(hw, log, j.depth, byte, lost);
            Link(j, hw', log', wrlen, r) && Onward(hw, log, hw', log') && |hw'.txFifo| == |hw.txFifo| - 1
  {
    var c := hw.txFifo[0];
    assert log.executed + hw.txFifo == log.issued;
    assert c == log.issued[|log.executed|];
    assert log.executed + hw.txFifo == (log.executed + [c]) + hw.txFifo[1..];
  }

  lemma ExecuteKeepsFlow(j: Job, hw: Controller, log: Log, wrlen: nat, r: nat, byte: Byte)
    requires Link(j, hw, log, wrlen, r) && Flows(j, hw, log, wrlen, r) && hw.txFifo != []
    ensures Flows(j, Execute(hw, j.depth, byte, false), LogExecute(hw, log, j.depth, byte, false), wrlen, r)
  {
    var c, n := hw.txFifo[0], |log.executed|;
    assert |log.executed + hw.txFifo| == wrlen && (log.executed + hw.txFifo)[n] == c == log.issued[n];
    assert c == CommandAt(j.tx, j.rxlen, j.stop, j.restart, n);
    assert (log.executed + [c])[n] == c;
  }

  lemma AbortKeepsLink(j: Job, hw: Controller, log: Log, wrlen: nat, r: nat, stopSeen: bool)
    requires Link(j, hw, log, wrlen, r)
    ensures var hw', log' := Abort(hw, stopSeen), log.(aborted := true);
            Link(j, hw', log', wrlen, r) && Onward(hw, log, hw', log')
  {
  }

  lemma SurplusKeepsLink(j: Job, hw: Controller, log: Log, wrlen: nat, r: nat, byte: Byte)
    requires Link(j, hw, log, wrlen, r) && j.spurious
    ensures var hw', log' := Receive(hw, j.depth, byte), LogReceive(hw, log, j.depth, byte);
            Link(j, hw', log', wrlen, r) && Onward(hw, log, hw', log')
  {
    var hw', log' := Receive(hw, j.depth, byte), LogReceive(hw, log, j.depth, byte);
    if |hw.rxFifo| < j.depth {
      assert log'.received[r..] == log.received[r..] + [byte] == hw'.rxFifo;
    }
  }

  lemma WriteKeepsLink(j: Job, hw: Controller, log: Log, wrlen: nat, r: nat, c: Cmd)
    requires Link(j, hw, log, wrlen, r) && wrlen < |j.tx| + j.rxlen && |hw.txFifo| < j.depth
    requires c == CommandAt(j.tx, j.rxlen, j.stop, j.restart, wrlen)
    ensures var hw', log' := WriteCommand(hw, j.depth, c), LogWrite(hw, log, c);
            && Link(j, hw', log', wrlen + 1, r)
            && hw'.enabled == hw.enabled && hw'.tar == hw.tar && log'.received == log.received
            && |hw'.txFifo| <= |hw.txFifo| + 1
            && (Flows(j, hw, log, wrlen, r) && Reads(|j.tx|, wrlen + 1) <= r + j.depth ==> Flows(j, hw', log', wrlen + 1, r))
  {
    assert log.executed + (hw.txFifo + [c]) == (log.executed + hw.txFifo) + [c];
  }

  /** Data still to be sent may change under way. */
  lemma OverwriteKeepsLink(j: Job, hw: Controller, log: Log, wrlen: nat, r: nat, i: nat, byte: Byte)
    requires Link(j, hw, log, wrlen, r) && wrlen <= i < |j.tx|
    ensures Link(j.(tx := j.tx[i := byte]), hw, log, wrlen, r)
  {
    var j' := j.(tx := j.tx[i := byte]);
    assert forall k :: 0 <= k < wrlen ==> CommandAt(j'.tx, j'.rxlen, j'.stop, j'.restart, k) ==
                                          CommandAt(j.tx, j.rxlen, j.stop, j.restart, k);
  }

  lemma ReadKeepsLink(j: Job, hw: Controller, log: Log, wrlen: nat, r: nat)
    requires Link(j, hw, log, wrlen, r) && hw.rxFifo != []
    ensures var (hw', byte) := ReadData(hw);
            Link(j, hw', log, wrlen, r + 1) && r < |log.received| && byte == log.received[r]
  {
    assert log.received[r] == hw.rxFifo[0];
    assert log.received[r + 1..] == hw.rxFifo[1..];
  }

  /** A byte taken that lands on data still to be sent changes that data. */
  lemma TakeOverKeepsLink(j: Job, hw: Controller, log: Log, wrlen: nat, r: nat)
    requires Link(j, hw, log, wrlen, r) && hw.rxFifo != [] && wrlen <= r < |j.tx|
    ensures var (hw', byte) := ReadData(hw);
            Link(j.(tx := j.tx[r := byte]), hw', log, wrlen, r + 1) && r < |log.received| && byte == log.received[r]
  {
    ReadKeepsLink(j, hw, log, wrlen, r);
    var (hw', byte) := ReadData(hw);
    OverwriteKeepsLink(j, hw', log, wrlen, r + 1, r, byte);
  }

  /** The controller alone only shortens the queue, appends bytes and leaves its address alone. */
  ghost predicate Onward(hw: Controller, log: Log, hw': Controller, log': Log) {
    && hw'.enabled == hw.enabled && hw'.tar == hw.tar
    && log'.issued == log.issued && log'.targets == log.targets
    && log.received <= log'.received && hw.rxFifo <= hw'.rxFifo
    && log.executed <= log'.executed && (log.aborted ==> log'.aborted)
    && |hw'.txFifo| <= |hw.txFifo| && (hw.txFifo == [] && hw.stopDet ==> hw'.stopDet)
  }

  // ---------- the protocol between transactions ----------

  /** One non-empty transaction: what was asked for, for which slave, what was issued to which IC_TAR
      values and what of it was put on the bus, and its end. */
  datatype Entry = Entry(data: seq<Byte>, rx: nat, stop: bool, addr: nat, fmt: AddrFormat,
                         issued: seq<Cmd>, targets: seq<nat>, executed: seq<Cmd>, aborted: bool, ret: set<Flag>)

  datatype Shape = Shape(sent: nat, rx: nat, stop: bool, addr: nat, fmt: AddrFormat)

  function ShapeOf(e: Entry): Shape { Shape(|e.data|, e.rx, e.stop, e.addr, e.fmt) }

  predicate LeftOpen(e: Entry) { e.ret == {DONE} && !e.stop }

  predicate OpenAfter(history: seq<Entry>) {
    history != [] && LeftOpen(history[|history| - 1])
  }

  /** What was issued, all of it to the slave addressed, is a prefix of the transaction's stream, which
      starts with a RESTART exactly if restarted. DONE means all of the stream, and all of it was put
      on the bus, with a STOP always and without one unless the transaction was aborted. */
  predicate EntryOk(e: Entry, restarted: bool) {
    && 0 < |e.data| + e.rx
    && e.executed <= e.issued && e.issued <= Stream(e.data, e.rx, e.stop, restarted)
    && (e.ret == {DONE} ==>
          && e.issued == Stream(e.data, e.rx, e.stop, restarted)
          && (e.stop || !e.aborted ==> e.executed == e.issued))
    && |e.targets| == |e.issued|
    && (forall i :: 0 <= i < |e.targets| ==> e.targets[i] == TarFor(e.addr, e.fmt))
  }

  /** The last transaction was with this slave. */
  predicate SlaveWas(history: seq<Entry>, addr: nat, fmt: AddrFormat) {
    history != [] && history[|history| - 1].addr == addr && history[|history| - 1].fmt == fmt
  }

  /** Transaction k continues its predecessor exactly if that ended with DONE and no STOP. */
  predicate FollowsProtocol(history: seq<Entry>, k: nat)
    requires k < |history|
  {
    EntryOk(history[k], k > 0 && LeftOpen(history[k - 1]))
  }

  ghost predicate Chained(history: seq<Entry>) {
    forall k :: 0 <= k < |history| ==> FollowsProtocol(history, k)
  }

  lemma ChainedExtend(history: seq<Entry>, e: Entry)
    requires Chained(history) && EntryOk(e, OpenAfter(history))
    ensures Chained(history + [e])
  {
    hide EntryOk;
    var longer := history + [e];
    forall k | 0 <= k < |longer| ensures FollowsProtocol(longer, k) {
      if k < |history| {
        assert FollowsProtocol(history, k) && longer[k] == history[k];
      }
      assert k > 0 ==> longer[k - 1] == history[k - 1];
    }
  }

  class Master {
    // driver state
    var txbuf: array<Byte>
    var rxbuf: array<Byte>
    var txlen: nat
    var rxlen: nat
    var xlen: nat
    var wrlen: nat
    var rdlen: nat
    var stop: bool
    var restart: bool
    var status: set<Flag>
    var activeNoStop: bool
    var slaveAddr: nat
    var slaveFmt: AddrFormat
    var activeAddr: nat
    var activeFmt: AddrFormat
    var tenBitMaster: bool
    var txEmptyOn: bool
    var rxFullOn: bool
    /** Bus and slave behave for the time being. */
    var calm: bool
    const fifoDepth: nat
    const spurious: bool
    // controller and history
    var hw: Controller
    /** The bytes to send: what the caller passed, but for bytes of a shared buffer that were
        overwritten by bytes nobody had asked for before they were sent. */
    ghost var tx: seq<Byte>
    ghost var log: Log
    /** The resets so far. */
    ghost var resets: nat
    /** The last non-empty call returned exactly DONE and was told to send no STOP. */
    ghost var busOpen: bool
    /** All non-empty transactions so far. */
    ghost var history: seq<Entry>

    constructor (depth: nat, noisy: bool)
      ensures Ready() && fifoDepth == depth && spurious == noisy && history == []
    {
      fifoDepth, spurious := depth, noisy;
      txbuf, rxbuf := new Byte[0], new Byte[0];
      txlen, rxlen, xlen, wrlen, rdlen, stop, restart, status := 0, 0, 0, 0, 0, false, false, {};
      activeNoStop, slaveAddr, slaveFmt, activeAddr, activeFmt := false, 0, SevenBit, 0, SevenBit;
      tenBitMaster, txEmptyOn, rxFullOn, calm := false, false, false, false;
      hw := Controller(false, 0, [], [], false, false);
      tx, log, busOpen, history, resets := [], EMPTY_LOG, false, [], 0;
    }

    // ---------- invariants ----------

    /** Between calls: an open bus is addressed, enabled and quiet. */
    ghost predicate Idle()
      reads `slaveAddr, `slaveFmt, `tenBitMaster, `activeNoStop, `busOpen, `activeAddr, `activeFmt, `hw
    {
      && ValidAddr(slaveAddr, slaveFmt) && (tenBitMaster <==> slaveFmt == TenBit)
      && (activeNoStop <==> busOpen)
      && (activeNoStop ==> Quiet() && ValidAddr(activeAddr, activeFmt) && hw.tar == TarFor(activeAddr, activeFmt))
    }

    /** Enabled with nothing queued and nothing asked for left to read. */
    ghost predicate Quiet()
      reads `hw
    {
      hw.enabled && hw.txFifo == [] && |hw.rxFifo| <= fifoDepth && (!spurious ==> hw.rxFifo == [])
    }

    ghost function TheJob(): Job
      reads `tx, `rxlen, `stop, `restart
    {
      Job(tx, rxlen, stop, restart, fifoDepth, spurious)
    }

    /** The caller's buffers are big enough; they may be one and the same. */
    ghost predicate Buffers()
      reads `txbuf, `rxbuf, `txlen, `rxlen
    {
      && txlen <= txbuf.Length && rxlen <= rxbuf.Length && txlen + rxlen < TWO32
      && (spurious && rxlen > 0 ==> rxlen + fifoDepth < TWO32)
    }

    /** A transaction in progress. */
    ghost predicate Xact()
      reads `tx, `txbuf, `rxbuf, `txlen, `rxlen, `xlen, `wrlen, `rdlen, `stop, `restart,
            `slaveAddr, `slaveFmt, `hw, `log, txbuf, rxbuf
    {
      && Link(TheJob(), hw, log, wrlen, rdlen) && rdlen <= rxlen && Buffers()
      && xlen == txlen + rxlen && |tx| == txlen
      && (forall i :: wrlen <= i < txlen ==> txbuf[i] == tx[i])
      && (forall i :: 0 <= i < rdlen ==> rxbuf[i] == log.received[i])
      && hw.enabled && ValidAddr(slaveAddr, slaveFmt) && hw.tar == TarFor(slaveAddr, slaveFmt)
    }

    ghost predicate Flow()
      reads `tx, `rxlen, `stop, `restart, `hw, `log, `wrlen, `rdlen
    {
      Flows(TheJob(), hw, log, wrlen, rdlen)
    }

    /** A transaction that can go on: nothing has gone wrong, and what is left raises an interrupt. */
    ghost predicate Steady()
      reads `tx, `rxlen, `stop, `restart, `hw, `log, `wrlen, `rdlen, `xlen, `txEmptyOn, `rxFullOn
    {
      Flow() && 0 < xlen && (wrlen < xlen ==> txEmptyOn) && (rdlen < rxlen ==> rxFullOn)
    }

    /** Without a STOP there is something left that will be noticed: bytes to read, or, without reads,
        the emptying of the queue. */
    ghost predicate Heard()
      reads `stop, `rxlen, `txEmptyOn, `wrlen, `xlen, `rdlen
    {
      !stop ==> if rxlen == 0 then txEmptyOn else wrlen < xlen || rdlen < rxlen
    }

    /** An interrupt is asserted. */
    ghost predicate IrqPending()
      reads `hw, `txEmptyOn, `rxFullOn
    {
      hw.abrt || hw.stopDet || (rxFullOn && hw.rxFifo != []) || (txEmptyOn && |hw.txFifo| <= fifoDepth / 2)
    }

    /** No stall: once all that was queued has been executed, an unfinished transaction in which nothing
        went wrong raises an interrupt. */
    lemma DrainedMeansIrq()
      requires Xact() && Steady() && Heard() && hw.txFifo == []
      ensures IrqPending()
    {
      AllBrought();
      if wrlen == xlen && stop {
        StopShows();
      }
      hide Xact;
    }

    /** Everything written to the command register has been put on the bus. */
    ghost predicate AllExecuted()
      reads `log
    {
      log.executed == log.issued
    }

    /** Nothing can overwrite data that is still to be sent. */
    ghost predicate SentAsGiven()
      reads `txbuf, `rxbuf, `rxlen
    {
      txbuf != rxbuf || rxlen == 0 || !spurious
    }

    /** What receiving may overwrite: nothing unless bytes are asked for. */
    ghost function ReceiveFrame(): set<array<Byte>>
      reads `rxlen, `rxbuf
    {
      if rxlen > 0 then {rxbuf} else {}
    }

    lemma Bounds()
      requires Xact()
      ensures rdlen <= rxlen <= rxbuf.Length && wrlen <= xlen == txlen + rxlen < TWO32
      ensures |hw.rxFifo| <= fifoDepth && |tx| == txlen <= txbuf.Length
      ensures wrlen < txlen ==> txbuf[wrlen] == tx[wrlen]
    {
    }

    /** A STOP on the bus was the last command of the transaction. */
    lemma StopIsLast()
      requires Xact() && hw.stopDet && !hw.abrt
      ensures wrlen == xlen && stop && AllExecuted()
    {
      assert log.executed[|log.executed| - 1] == log.issued[|log.executed| - 1];
    }

    /** A byte that arrives before the data is out was not asked for. */
    lemma OnlyUnasked()
      requires Xact() && hw.rxFifo != []
      ensures wrlen < txlen ==> spurious
    {
      assert |log.received| > 0;
    }

    lemma RoomForBytes(numbers: nat)
      requires Xact() && rdlen < rxlen && numbers <= |hw.rxFifo|
      requires (rdlen + numbers) % TWO32 <= rxlen
      ensures rdlen + numbers <= rxlen
    {
      if !spurious && numbers > 0 {
        assert |log.executed| <= wrlen <= txlen + rxlen;
        assert numbers <= |log.received| - rdlen;
      }
      assert rdlen + numbers < TWO32;
    }

    // ---------- register accesses, with the controller running in between ----------

    /** The controller executes commands, may abort (dropping the queue), may receive bytes and may
        lose them to a full FIFO, any number of times. */
    method DeviceRuns()
      requires Xact()
      modifies `hw, `log
      ensures Xact() && |hw.rxFifo| >= |old(hw.rxFifo)| && |hw.txFifo| <= |old(hw.txFifo)|
      ensures old(AllExecuted()) ==> AllExecuted()
      ensures old(hw.abrt) ==> hw.abrt
      ensures old(hw.stopDet) ==> hw.stopDet
      ensures calm && old(Flow()) ==> Flow()
    {
      if hw.stopDet && !hw.abrt {
        StopIsLast();
      }
      hide Flows;
      DeviceSteps();
    }

    /** The controller runs until nothing is queued. */
    method DeviceDrains()
      requires Xact()
      modifies `hw, `log
      ensures Xact() && hw.txFifo == []
      ensures calm && old(Flow()) ==> Flow()
    {
      hide Flows;
      DrainSteps();
    }

    method DrainSteps()
      requires Link(TheJob(), hw, log, wrlen, rdlen)
      modifies `hw, `log
      ensures Link(TheJob(), hw, log, wrlen, rdlen) && Onward(old(hw), old(log), hw, log) && hw.txFifo == []
      ensures calm && old(Flow()) ==> Flow()
    {
      hide Link, Execute, LogExecute, Flows;
      DeviceSteps();
      while hw.txFifo != []
        invariant Link(TheJob(), hw, log, wrlen, rdlen) && Onward(old(hw), old(log), hw, log)
        invariant calm && old(Flow()) ==> Flow()
        decreases |hw.txFifo|
      {
        var byte: Byte, lost: bool := *, *;
        lost := lost && !calm;
        ExecuteKeepsLink(TheJob(), hw, log, wrlen, rdlen, byte, lost);
        if calm && Flow() {
          ExecuteKeepsFlow(TheJob(), hw, log, wrlen, rdlen, byte);
        }
        log := LogExecute(hw, log, fifoDepth, byte, lost);
        hw := Execute(hw, fifoDepth, byte, lost);
      }
    }

    method DeviceSteps()
      requires Link(TheJob(), hw, log, wrlen, rdlen)
      modifies `hw, `log
      ensures Link(TheJob(), hw, log, wrlen, rdlen) && Onward(old(hw), old(log), hw, log)
      ensures calm && old(Flow()) ==> Flow()
    {
      hide Link, Execute, LogExecute, Receive, LogReceive, Abort, Flows;
      var steps: int := *;
      while steps > 0
        invariant Link(TheJob(), hw, log, wrlen, rdlen) && Onward(old(hw), old(log), hw, log)
        invariant calm && old(Flow()) ==> Flow()
      {
        var action: nat, byte: Byte, lost: bool, stopSeen: bool := *, *, *, *;
        if action == 0 && hw.txFifo != [] {
          lost := lost && !calm;
          ExecuteKeepsLink(TheJob(), hw, log, wrlen, rdlen, byte, lost);
          if calm && Flow() {
            ExecuteKeepsFlow(TheJob(), hw, log, wrlen, rdlen, byte);
          }
          log := LogExecute(hw, log, fifoDepth, byte, lost);
          hw := Execute(hw, fifoDepth, byte, lost);
        } else if action == 1 && !calm {
          AbortKeepsLink(TheJob(), hw, log, wrlen, rdlen, stopSeen);
          log := log.(aborted := true);
          hw := Abort(hw, stopSeen);
        } else if action == 2 && spurious && !calm {
          SurplusKeepsLink(TheJob(), hw, log, wrlen, rdlen, byte);
          log := LogReceive(hw, log, fifoDepth, byte);
          hw := Receive(hw, fifoDepth, byte);
        }
        steps := steps - 1;
      }
    }

    method Queue(c: Cmd)
      requires Xact() && wrlen < xlen && |hw.txFifo| < fifoDepth
      requires c == CommandAt(tx, rxlen, stop, restart, wrlen)
      modifies `hw, `log, `wrlen
      ensures Xact() && wrlen == old(wrlen) + 1 && |hw.txFifo| <= |old(hw.txFifo)| + 1
      ensures old(Flow() && Reads(txlen, wrlen + 1) <= rdlen + fifoDepth) ==> Flow()
    {
      hide CommandAt, Link, WriteCommand, LogWrite, ValidAddr, TarFor, TWO32, Flows, Reads;
      WriteKeepsLink(TheJob(), hw, log, wrlen, rdlen, c);
      log := LogWrite(hw, log, c);
      hw := WriteCommand(hw, fifoDepth, c);
      wrlen := wrlen + 1;
    }

    /** One read of the data register, stored behind the bytes received so far. */
    method TakeOne()
      requires Xact() && hw.rxFifo != [] && rdlen < rxlen
      modifies rxbuf, `rdlen, `hw, `tx
      ensures Xact() && rdlen == old(rdlen) + 1 && |hw.rxFifo| == |old(hw.rxFifo)| - 1
      ensures hw.txFifo == old(hw.txFifo)
      ensures forall i :: rxlen <= i < rxbuf.Length ==> rxbuf[i] == old(rxbuf[i])
      ensures SentAsGiven() ==> tx == old(tx)
      ensures old(Flow()) ==> Flow()
    {
      if txbuf == rxbuf && wrlen <= rdlen < txlen {
        OnlyUnasked();
        hide SentAsGiven;
        TakeClashing();
      } else {
        TakeApart();
      }
    }

    method TakeApart()
      requires Xact() && hw.rxFifo != [] && rdlen < rxlen
      requires !(txbuf == rxbuf && wrlen <= rdlen < txlen)
      modifies rxbuf, `rdlen, `hw
      ensures Xact() && rdlen == old(rdlen) + 1 && |hw.rxFifo| == |old(hw.rxFifo)| - 1
      ensures hw.txFifo == old(hw.txFifo)
      ensures forall i :: rxlen <= i < rxbuf.Length ==> rxbuf[i] == old(rxbuf[i])
      ensures old(Flow()) ==> Flow()
    {
      ReadKeepsLink(TheJob(), hw, log, wrlen, rdlen);
      hide Link, CommandAt;
      var (hw', byte) := ReadData(hw);
      rxbuf[rdlen] := byte;
      hw, rdlen := hw', rdlen + 1;
    }

    /** The byte lands on data that is still to be sent. */
    method TakeClashing()
      requires Xact() && hw.rxFifo != [] && rdlen < rxlen
      requires txbuf == rxbuf && wrlen <= rdlen < txlen
      modifies rxbuf, `rdlen, `hw, `tx
      ensures Xact() && rdlen == old(rdlen) + 1 && |hw.rxFifo| == |old(hw.rxFifo)| - 1
      ensures hw.txFifo == old(hw.txFifo)
      ensures forall i :: rxlen <= i < rxbuf.Length ==> rxbuf[i] == old(rxbuf[i])
      ensures old(Flow()) ==> Flow()
    {
      TakeOverKeepsLink(TheJob(), hw, log, wrlen, rdlen);
      hide Link, CommandAt;
      var (hw', byte) := ReadData(hw);
      tx := tx[rdlen := byte];
      rxbuf[rdlen] := byte;
      hw, rdlen := hw', rdlen + 1;
    }

    method TakeByte()
      requires Xact() && hw.rxFifo != [] && rdlen < rxlen
      modifies rxbuf, `rdlen, `hw, `log, `tx
      ensures Xact() && rdlen == old(rdlen) + 1 && |hw.rxFifo| >= |old(hw.rxFifo)| - 1
      ensures forall i :: rxlen <= i < rxbuf.Length ==> rxbuf[i] == old(rxbuf[i])
      ensures SentAsGiven() ==> tx == old(tx)
      ensures old(AllExecuted()) ==> AllExecuted()
      ensures |hw.txFifo| <= |old(hw.txFifo)| && (calm && old(Flow()) ==> Flow())
    {
      hide Xact, AllExecuted, Flow;
      TakeOne();
      DeviceRuns();
    }

    method TakeBytes(numbers: nat)
      requires Xact() && numbers <= |hw.rxFifo| && rdlen + numbers <= rxlen
      modifies ReceiveFrame(), `rdlen, `hw, `log, `tx
      ensures Xact() && rdlen == old(rdlen) + numbers
      ensures forall i :: rxlen <= i < rxbuf.Length ==> rxbuf[i] == old(rxbuf[i])
      ensures SentAsGiven() ==> tx == old(tx)
      ensures old(AllExecuted()) ==> AllExecuted()
      ensures |hw.txFifo| <= |old(hw.txFifo)| && (calm && old(Flow()) ==> Flow())
    {
      hide Xact, AllExecuted, Flow;
      for k := 0 to numbers
        invariant Xact() && rdlen == old(rdlen) + k && numbers - k <= |hw.rxFifo|
        invariant forall i :: rxlen <= i < rxbuf.Length ==> rxbuf[i] == old(rxbuf[i])
        invariant (SentAsGiven() ==> tx == old(tx)) && (old(AllExecuted()) ==> AllExecuted())
        invariant |hw.txFifo| <= |old(hw.txFifo)| && (calm && old(Flow()) ==> Flow())
      {
        TakeByte();
      }
    }

    // ---------- the interrupt handler ----------

    /** TX_ABRT: the bits of the abort source decide the status. */
    method HandleAbort(arbLost: bool, addrNack: bool, dataNack: bool)
      modifies `status, `txEmptyOn, `rxFullOn
      ensures status == {DONE, if arbLost then ARBL else if addrNack then ADDR_NACK
                               else if dataNack then DATA_NACK else ABORT}
      ensures status * ABORT_CAUSES != {} && !txEmptyOn && !rxFullOn
    {
      if arbLost {
        status := {DONE, ARBL};
      } else if addrNack {
        status := {DONE, ADDR_NACK};
      } else if dataNack {
        status := {DONE, DATA_NACK};
      } else {
        status := {DONE, ABORT};
      }
      txEmptyOn, rxFullOn := false, false;
      assert (if arbLost then ARBL else if addrNack then ADDR_NACK else if dataNack then DATA_NACK else ABORT)
             in status * ABORT_CAUSES;
    }

    /** STOP_DET: the rest of the bytes must be in the FIFO. */
    method HandleStopDet()
      requires Xact()
      modifies ReceiveFrame(), `rdlen, `status, `txEmptyOn, `rxFullOn, `hw, `log, `tx
      ensures Xact() && DONE in status && !txEmptyOn && !rxFullOn
      ensures SentAsGiven() ==> tx == old(tx)
      ensures old(AllExecuted()) ==> AllExecuted()
      ensures ERROR !in status ==> rdlen == rxlen
      ensures var total := old(rdlen) + |old(hw.rxFifo)|;
              && rdlen == (if total == rxlen then rxlen else old(rdlen))
              && status == (if old(rdlen) == rxlen || total == rxlen then old(status) + {DONE} else {ERROR, DONE})
      ensures forall i :: rxlen <= i < rxbuf.Length ==> rxbuf[i] == old(rxbuf[i])
    {
      hide Xact;
      Bounds();
      if rdlen < rxlen {
        var numbers := |hw.rxFifo|;
        if (rdlen + numbers) % TWO32 != rxlen {
          status := {ERROR};
          numbers := 0;
        } else {
          RoomForBytes(numbers);
        }
        TakeBytes(numbers);
      }
      status := status + {DONE};
      txEmptyOn, rxFullOn := false, false;
    }

    /** RX_FULL: take what is there, but no more than was asked for. */
    method HandleRxFull()
      requires Xact()
      modifies ReceiveFrame(), `rdlen, `status, `rxFullOn, `hw, `log, `tx
      ensures Xact()
      ensures SentAsGiven() ==> tx == old(tx)
      ensures var total := old(rdlen) + |old(hw.rxFifo)|;
              && rdlen == Min(total, rxlen)
              && status == old(status) + (if old(rdlen) < rxlen < total then {ERROR} else {})
              && rxFullOn == (old(rxFullOn) && old(rdlen) < rxlen && total <= rxlen)
      ensures forall i :: rxlen <= i < rxbuf.Length ==> rxbuf[i] == old(rxbuf[i])
      ensures |hw.txFifo| <= |old(hw.txFifo)| && (calm && old(Flow()) ==> Flow())
    {
      hide Xact, Flow;
      Bounds();
      if rdlen < rxlen {
        var numbers := |hw.rxFifo|;
        if (rdlen + numbers) % TWO32 > rxlen {
          numbers := rxlen - rdlen;
          status := status + {ERROR};
          rxFullOn := false;
          Surplus();
        } else {
          RoomForBytes(numbers);
        }
        TakeBytes(numbers);
      } else {
        rxFullOn := false;
      }
    }

    lemma Surplus()
      requires Xact() && rdlen < rxlen && (rdlen + |hw.rxFifo|) % TWO32 > rxlen
      ensures rxlen - rdlen <= |hw.rxFifo|
    {
    }

    /** The next command to write. */
    method NextCommand() returns (c: Cmd)
      requires Xact() && wrlen < xlen
      ensures c == CommandAt(tx, rxlen, stop, restart, wrlen)
    {
      if wrlen < txlen {
        if stop && wrlen == xlen - 1 {
          c := Cmd(false, txbuf[wrlen], true, false);
        } else {
          c := Cmd(false, txbuf[wrlen], false, false);
        }
      } else if wrlen == txlen && txlen != 0 {
        if stop && wrlen == xlen - 1 {
          c := Cmd(true, 0, true, true);
        } else {
          c := Cmd(true, 0, false, true);
        }
      } else {
        if stop && wrlen == xlen - 1 {
          c := Cmd(true, 0, true, false);
        } else {
          c := Cmd(true, 0, false, false);
        }
      }
      if restart && wrlen == 0 {
        c := c.(restart := true);
      }
    }

    /** TX_EMPTY: queue further commands until the queue is full or none is left. */
    method HandleTxEmpty()
      requires Xact()
      modifies `wrlen, `txEmptyOn, `hw, `log
      ensures Xact() && wrlen >= old(wrlen)
      ensures wrlen >= Min(xlen, old(wrlen) + fifoDepth - |old(hw.txFifo)|)
      ensures |hw.txFifo| <= |old(hw.txFifo)| + (wrlen - old(wrlen))
      ensures old(txEmptyOn) && !txEmptyOn ==> wrlen == xlen && (stop || rxlen != 0 || hw.txFifo == [])
      ensures old(wrlen) == xlen && (stop || rxlen != 0) && fifoDepth > 0 ==> !txEmptyOn
      ensures calm && old(Flow()) && old(Reads(txlen, wrlen) <= rdlen) ==> Flow()
    {
      hide Xact, Flow, Reads, CommandAt, AllExecuted, TheJob;
      ghost var first := wrlen;
      for k := 0 to fifoDepth
        invariant Xact() && wrlen == old(wrlen) + k && txEmptyOn == old(txEmptyOn)
        invariant |hw.txFifo| <= |old(hw.txFifo)| + k
        invariant calm && old(Flow()) && old(Reads(txlen, wrlen) <= rdlen) ==> Flow()
      {
        DeviceRuns();
        Bounds();
        if wrlen >= xlen {
          if stop || rxlen != 0 || hw.txFifo == [] {
            txEmptyOn := false;
          }
          break;
        }
        if |hw.txFifo| >= fifoDepth {
          break;
        }
        var c := NextCommand();
        ReadsGrow(txlen, first, k + 1);
        Queue(c);
      }
      Bounds();
    }

    /** Takes what is in the receive FIFO, one byte at a time, but no more than was asked for. */
    method DrainAll()
      requires Xact()
      modifies ReceiveFrame(), `rdlen, `hw, `log, `tx
      ensures Xact() && (rdlen == rxlen || hw.rxFifo == [])
      ensures SentAsGiven() ==> tx == old(tx)
      ensures forall i :: rxlen <= i < rxbuf.Length ==> rxbuf[i] == old(rxbuf[i])
      ensures rdlen >= old(rdlen) && |hw.txFifo| <= |old(hw.txFifo)| && (calm && old(Flow()) ==> Flow())
    {
      hide Xact, AllExecuted, SentAsGiven, Flow;
      DeviceRuns();
      Bounds();
      while rdlen < rxlen && hw.rxFifo != []
        invariant Xact() && old(rdlen) <= rdlen <= rxlen
        invariant |hw.txFifo| <= |old(hw.txFifo)| && (calm && old(Flow()) ==> Flow())
        invariant forall i :: rxlen <= i < rxbuf.Length ==> rxbuf[i] == old(rxbuf[i])
        invariant SentAsGiven() ==> tx == old(tx)
        decreases rxlen - rdlen
      {
        TakeByte();
      }
    }

    /** Without a STOP the transaction ends when everything is queued and read and the queue is empty;
        then all was sent, unless the transaction was aborted. */
    method HandleNoStop() returns (finished: bool)
      requires Xact()
      modifies ReceiveFrame(), `rdlen, `status, `txEmptyOn, `rxFullOn, `hw, `log, `tx
      ensures Xact()
      ensures SentAsGiven() ==> tx == old(tx)
      ensures finished <==> wrlen == xlen && rdlen == rxlen && hw.txFifo == []
      ensures finished && !log.aborted ==> AllExecuted()
      ensures status == if finished then old(status) + {DONE} else old(status)
      ensures if finished then !txEmptyOn && !rxFullOn else txEmptyOn == old(txEmptyOn) && rxFullOn == old(rxFullOn)
      ensures rdlen == rxlen || hw.rxFifo == []
      ensures rdlen >= old(rdlen) && |hw.txFifo| <= |old(hw.txFifo)| && (calm && old(Flow()) ==> Flow())
      ensures forall i :: rxlen <= i < rxbuf.Length ==> rxbuf[i] == old(rxbuf[i])
    {
      hide Xact, AllExecuted, SentAsGiven, Flow;
      DrainAll();
      Bounds();
      if wrlen >= xlen && rdlen >= rxlen && hw.txFifo == [] {
        EmptyQueue();
        status := status + {DONE};
        txEmptyOn, rxFullOn := false, false;
        return true;
      }
      return false;
    }

    /** Nothing is queued, so all was sent unless an abort dropped some of it. */
    lemma EmptyQueue()
      requires Xact() && hw.txFifo == []
      ensures !log.aborted ==> AllExecuted()
    {
      assert log.executed + hw.txFifo == log.executed;
    }

    /** When all queued commands were executed and nothing went wrong, the bytes taken and those in the
        FIFO are those of all reads written so far. */
    lemma AllBrought()
      requires Xact() && Flow() && hw.txFifo == []
      ensures rdlen + |hw.rxFifo| == Reads(txlen, wrlen) <= rxlen && (wrlen == xlen ==> Reads(txlen, wrlen) == rxlen)
    {
      assert log.executed + hw.txFifo == log.executed;
    }

    /** A transaction that was sent completely with a STOP shows it. */
    lemma StopShows()
      requires Xact() && Flow() && hw.txFifo == [] && wrlen == xlen > 0 && stop
      ensures hw.stopDet
    {
      var e := log.executed;
      assert e + hw.txFifo == e;
      hide Stream;
      assert e[xlen - 1] == CommandAt(tx, rxlen, stop, restart, xlen - 1);
      hide Reads;
    }

    lemma Going()
      ensures Heard() <==> !stop ==> if rxlen == 0 then txEmptyOn else wrlen < xlen || rdlen < rxlen
      ensures Steady() <==> Flow() && 0 < xlen && (wrlen < xlen ==> txEmptyOn) && (rdlen < rxlen ==> rxFullOn)
    {
    }

    /** Takes what the interrupt status has shown in the receive FIFO. */
    method ServeRx(sRx: bool)
      requires Xact()
      modifies ReceiveFrame(), `rdlen, `status, `rxFullOn, `hw, `log, `tx
      ensures Xact() && (DONE in status <==> DONE in old(status)) && |hw.txFifo| <= |old(hw.txFifo)|
      ensures rdlen >= old(rdlen)
      ensures calm && old(Flow() && hw.txFifo == []) && (old(hw.rxFifo) != [] ==> sRx) ==>
                && Flow() && rdlen == Reads(txlen, wrlen) && (wrlen == xlen ==> rdlen == rxlen)
                && status == old(status) && (rdlen < rxlen ==> rxFullOn == old(rxFullOn))
      ensures SentAsGiven() ==> tx == old(tx)
      ensures forall i :: rxlen <= i < rxbuf.Length ==> rxbuf[i] == old(rxbuf[i])
    {
      hide Xact, SentAsGiven, Flow, Reads;
      Bounds();
      if calm && Flow() && hw.txFifo == [] {
        AllBrought();
      }
      if sRx {
        DeviceRuns();
        if calm && Flow() && hw.txFifo == [] {
          AllBrought();
        }
        HandleRxFull();
      }
    }

    /** When all bytes have been read nothing is queued any more. */
    lemma AllRead()
      requires Xact() && Flow() && wrlen == xlen && rdlen == rxlen > 0
      ensures hw.txFifo == []
    {
      assert |log.executed + hw.txFifo| == wrlen;
    }

    /** Takes and queues what the interrupt status asks for. */
    method ServeFifos(sRx: bool, sTx: bool)
      requires Xact()
      modifies ReceiveFrame(), `rdlen, `wrlen, `status, `txEmptyOn, `rxFullOn, `hw, `log, `tx
      ensures Xact() && (DONE in status <==> DONE in old(status)) && wrlen >= old(wrlen)
      ensures sTx ==> wrlen >= Min(xlen, old(wrlen) + fifoDepth - |old(hw.txFifo)|)
      ensures calm && old(Steady() && hw.txFifo == []) && (old(hw.rxFifo) != [] ==> sRx) ==>
                && Steady() && status == old(status) && (old(Heard()) ==> Heard() || hw.txFifo == [])
                && (old(wrlen) == xlen ==> rdlen == rxlen && hw.txFifo == [])
      ensures SentAsGiven() ==> tx == old(tx)
      ensures forall i :: rxlen <= i < rxbuf.Length ==> rxbuf[i] == old(rxbuf[i])
    {
      hide Xact, SentAsGiven, Flow, Steady, Reads, Heard, TheJob, AllExecuted;
      Going();
      ServeRx(sRx);
      Bounds();
      if sTx {
        HandleTxEmpty();
        Bounds();
      }
      Going();
      if Flow() && wrlen == xlen && rdlen == rxlen > 0 {
        AllRead();
      }
    }

    /** Without a STOP, looks for the end. */
    method LookForEnd() returns (over: bool)
      requires Xact() && DONE !in status
      modifies ReceiveFrame(), `rdlen, `status, `txEmptyOn, `rxFullOn, `hw, `log, `tx
      ensures Xact()
      ensures over <==> DONE in status
      ensures over ==> !stop && wrlen == xlen && rdlen == rxlen && hw.txFifo == []
      ensures over && !log.aborted ==> AllExecuted()
      ensures status == if over then old(status) + {DONE} else old(status)
      ensures calm && old(Steady()) && !over ==> Steady()
      ensures !stop && old(wrlen == xlen && rdlen == rxlen && hw.txFifo == []) ==> over
      ensures calm && old(Steady() && (Heard() || hw.txFifo == [])) && !over ==> Heard()
      ensures !stop ==> rdlen == rxlen || hw.rxFifo == []
      ensures SentAsGiven() ==> tx == old(tx)
      ensures forall i :: rxlen <= i < rxbuf.Length ==> rxbuf[i] == old(rxbuf[i])
    {
      hide Xact, AllExecuted, SentAsGiven, Flow, Steady, Reads, Heard;
      Going();
      over := false;
      if !stop {
        over := HandleNoStop();
        Bounds();
      }
      Going();
      if Flow() && wrlen == xlen && rdlen == rxlen > 0 {
        AllRead();
      }
    }

    /** Acts on the interrupt status as it is read. */
    method Dispatch() returns (over: bool)
      requires Xact() && DONE !in status
      modifies ReceiveFrame(), `rdlen, `wrlen, `status, `txEmptyOn, `rxFullOn, `hw, `log, `tx
      ensures Xact()
      ensures over <==> DONE in status
      ensures old(hw.abrt) ==> over && status * ABORT_CAUSES != {}
      ensures old(hw.stopDet) ==> over
      ensures over && status * ABORT_CAUSES == {} ==> wrlen == xlen
      ensures !over && old(txEmptyOn) && |old(hw.txFifo)| <= fifoDepth / 2 ==>
                wrlen >= Min(xlen, old(wrlen) + fifoDepth - |old(hw.txFifo)|)
      ensures !over && !stop ==> rdlen == rxlen || hw.rxFifo == []
      ensures calm && old(Steady() && hw.txFifo == [] && status == {}) ==>
                && status == (if over then {DONE} else {})
                && (!over ==> Steady() && (old(Heard()) ==> Heard()) && old(wrlen) < xlen)
      ensures status == {DONE} ==> wrlen == xlen && rdlen == rxlen && (!stop ==> hw.txFifo == [])
      ensures status == {DONE} && (stop || !log.aborted) ==> AllExecuted()
      ensures SentAsGiven() ==> tx == old(tx)
      ensures forall i :: rxlen <= i < rxbuf.Length ==> rxbuf[i] == old(rxbuf[i])
    {
      hide Xact, AllExecuted, SentAsGiven, Flow, Steady, Reads, Heard;
      if Steady() && hw.txFifo == [] {
        NothingWrong();
      }
      var sRx, sTx := rxFullOn && hw.rxFifo != [], txEmptyOn && |hw.txFifo| <= fifoDepth / 2;
      if hw.abrt {
        var arbLost: bool, addrNack: bool, dataNack: bool := *, *, *;
        HandleAbort(arbLost, addrNack, dataNack);
        return true;
      }
      if hw.stopDet {
        StopIsLast();
        HandleStopDet();
        return true;
      }
      Bounds();
      over := ServeAndLook(sRx, sTx);
    }

    method ServeAndLook(sRx: bool, sTx: bool) returns (over: bool)
      requires Xact() && DONE !in status
      modifies ReceiveFrame(), `rdlen, `wrlen, `status, `txEmptyOn, `rxFullOn, `hw, `log, `tx
      ensures Xact()
      ensures over <==> DONE in status
      ensures over ==> !stop && wrlen == xlen && rdlen == rxlen && hw.txFifo == []
      ensures over && !log.aborted ==> AllExecuted()
      ensures sTx ==> wrlen >= Min(xlen, old(wrlen) + fifoDepth - |old(hw.txFifo)|)
      ensures !stop ==> rdlen == rxlen || hw.rxFifo == []
      ensures calm && old(Steady() && hw.txFifo == [] && status == {}) && (old(hw.rxFifo) != [] ==> sRx) ==>
                && status == (if over then {DONE} else {}) && (!over ==> Steady() && (old(Heard()) ==> Heard()))
                && (old(wrlen) == xlen && !stop ==> over)
      ensures SentAsGiven() ==> tx == old(tx)
      ensures forall i :: rxlen <= i < rxbuf.Length ==> rxbuf[i] == old(rxbuf[i])
    {
      hide Xact, AllExecuted, SentAsGiven, Flow, Steady, Reads, Heard;
      ServeFifos(sRx, sTx);
      Bounds();
      over := LookForEnd();
    }

    /** Returns true when the transaction is over, with its outcome in status. While it is not, an
        interrupt for a queue at most half full queues commands until none is left or it is full. */
    method ProcessIntr() returns (over: bool)
      requires Xact() && DONE !in status
      modifies ReceiveFrame(), `rdlen, `wrlen, `status, `txEmptyOn, `rxFullOn, `hw, `log, `tx
      ensures Xact()
      ensures over <==> DONE in status
      ensures old(hw.abrt) ==> over && status * ABORT_CAUSES != {}
      ensures old(hw.stopDet) ==> over
      ensures over && status * ABORT_CAUSES == {} ==> wrlen == xlen
      ensures !over && old(txEmptyOn) && |old(hw.txFifo)| <= fifoDepth / 2 ==>
                wrlen >= Min(xlen, old(wrlen) + fifoDepth - |old(hw.txFifo)|)
      ensures !over && !stop ==> rdlen == rxlen || hw.rxFifo == []
      ensures calm && old(Steady() && hw.txFifo == [] && status == {}) ==>
                && status == (if over then {DONE} else {})
                && (!over ==> Steady() && (old(Heard()) ==> Heard()) && old(wrlen) < xlen)
      ensures status == {DONE} ==> wrlen == xlen && rdlen == rxlen && (!stop ==> hw.txFifo == [])
      ensures status == {DONE} && (stop || !log.aborted) ==> AllExecuted()
      ensures SentAsGiven() ==> tx == old(tx)
      ensures forall i :: rxlen <= i < rxbuf.Length ==> rxbuf[i] == old(rxbuf[i])
    {
      hide Xact, AllExecuted, SentAsGiven, Flow, Steady, Reads, Heard;
      Going();
      DeviceRuns();
      Going();
      over := Dispatch();
    }

    /** What the interrupt status shows of a transaction in which nothing has gone wrong. */
    lemma NothingWrong()
      requires Xact() && Steady() && hw.txFifo == []
      ensures !hw.abrt && (wrlen == xlen && stop ==> hw.stopDet)
      ensures wrlen == xlen ==> rdlen + |hw.rxFifo| == rxlen
      ensures hw.rxFifo != [] ==> rxFullOn
    {
      AllBrought();
      if wrlen == xlen && stop {
        StopShows();
      }
      hide Xact, Reads;
    }

    // ---------- waiting ----------

    /** Switches the adapter; a disabled one has empty FIFOs. False: the switch timed out. */
    method Enable(on: bool, works: bool) returns (ok: bool)
      modifies `hw
      ensures ok == works
      ensures ok && on ==> hw == old(hw).(enabled := true)
      ensures ok && !on ==> hw == old(hw).(enabled := false, txFifo := [], rxFifo := [])
      ensures !ok ==> hw == old(hw).(enabled := hw.enabled)
    {
      ok := works;
      if ok {
        hw := if on then hw.(enabled := true) else hw.(enabled := false, txFifo := [], rxFifo := []);
      } else {
        var state: bool := *;
        hw := hw.(enabled := state);
      }
    }

    /** Aborts, disables and soft-resets the adapter, up to three times until it is found off. False:
        it never was, and nothing is known about its registers. */
    method Reset(works: seq<bool>) returns (ok: bool)
      modifies `activeNoStop, `restart, `hw, `txEmptyOn, `rxFullOn, `resets
      ensures resets == old(resets) + 1
      ensures ok <==> exists k :: 0 <= k < RESET_RETRY && SwitchesAt(works, k)
      ensures !activeNoStop && !restart
      ensures ok ==> !hw.enabled && hw.txFifo == [] && hw.rxFifo == [] && !txEmptyOn && !rxFullOn
    {
      activeNoStop, restart := false, false;
      resets := resets + 1;
      var first: bool := *;
      var _ := Enable(false, first);
      var retry := RESET_RETRY;
      while true
        invariant !activeNoStop && !restart && 0 < retry <= RESET_RETRY && resets == old(resets) + 1
        invariant forall k :: 0 <= k < RESET_RETRY - retry ==> !SwitchesAt(works, k)
        decreases retry
      {
        // the soft reset leaves the registers in a state this model does not describe
        var enabled: bool, tar: nat := *, *;
        hw := Controller(enabled, tar, [], [], false, false);
        ok := Enable(false, SwitchesAt(works, RESET_RETRY - retry));
        if ok {
          txEmptyOn, rxFullOn := false, false;
          return;
        }
        retry := retry - 1;
        if retry <= 0 {
          return;
        }
      }
    }

    /** A reset, however it goes. */
    method TryReset()
      modifies `activeNoStop, `restart, `hw, `txEmptyOn, `rxFullOn, `resets
      ensures !activeNoStop && !restart && resets == old(resets) + 1
    {
      var works: seq<bool> := *;
      var _ := Reset(works);
    }

    /** Everything written to the command register went to the current slave and follows the
        transaction's command stream. */
    ghost predicate Orderly(restarted: bool)
      reads `tx, `txlen, `log, `rxlen, `stop, `slaveAddr, `slaveFmt
    {
      && |tx| == txlen && log.executed <= log.issued && log.issued <= Stream(tx, rxlen, stop, restarted)
      && |log.targets| == |log.issued|
      && (forall i :: 0 <= i < |log.targets| ==> log.targets[i] == TarFor(slaveAddr, slaveFmt))
    }

    /** All commands were issued and all bytes asked for are in the caller's buffer, in order. */
    ghost predicate Complete(restarted: bool)
      reads `tx, `log, `rxlen, `stop, `rdlen, `rxbuf, rxbuf
    {
      && log.issued == Stream(tx, rxlen, stop, restarted)
      && (stop || !log.aborted ==> log.executed == log.issued)
      && rdlen == rxlen <= |log.received| && rxlen <= rxbuf.Length
      && rxbuf[..rxlen] == log.received[..rxlen]
    }

    lemma XactIsOrderly()
      requires Xact()
      ensures Orderly(restart)
    {
    }

    lemma NothingIssued(restarted: bool)
      requires log == EMPTY_LOG && |tx| == txlen
      ensures Orderly(restarted)
    {
    }

    lemma Outcome()
      requires Xact() && wrlen == xlen && rdlen == rxlen && (stop || !log.aborted ==> AllExecuted())
      ensures Complete(restart) && hw.tar == TarFor(slaveAddr, slaveFmt)
      ensures hw.txFifo == [] ==> Quiet()
    {
      assert log.issued == Stream(tx, rxlen, stop, restart);
    }

    /** The end of a transaction: a lost arbitration or an error costs a reset. */
    method Conclude()
      requires Xact()
      requires status == {DONE} ==> wrlen == xlen && rdlen == rxlen && (!stop ==> hw.txFifo == [])
      requires status == {DONE} && (stop || !log.aborted) ==> AllExecuted()
      modifies `hw, `activeNoStop, `restart, `txEmptyOn, `rxFullOn, `resets
      ensures Orderly(old(restart))
      ensures if ARBL in status || ERROR in status then !activeNoStop && !restart && resets == old(resets) + 1
              else resets == old(resets) && hw == old(hw) && activeNoStop == old(activeNoStop) && restart == old(restart)
      ensures !txEmptyOn && !rxFullOn
      ensures status == {DONE} ==>
                Complete(old(restart)) && hw.tar == TarFor(slaveAddr, slaveFmt) && (!stop ==> Quiet())
    {
      hide Xact, Orderly, Complete, Quiet, AllExecuted;
      XactIsOrderly();
      if status == {DONE} {
        Outcome();
      }
      if ARBL in status || ERROR in status {
        TryReset();
      }
      txEmptyOn, rxFullOn := false, false;
    }

    lemma SomeInterrupt(wakeups: seq<Wakeup>)
      requires Smooth(wakeups, xlen, fifoDepth)
      ensures wakeups != [] && Ahead(wrlen, xlen, 0, fifoDepth)
    {
    }

    /** The next interrupt. */
    method Await(u: Wakeup) returns (over: bool)
      requires Xact() && DONE !in status
      modifies ReceiveFrame(), `rdlen, `wrlen, `status, `txEmptyOn, `rxFullOn, `hw, `log, `tx, `calm
      ensures Xact() && (over <==> DONE in status)
      ensures status == {DONE} ==> wrlen == xlen && rdlen == rxlen && (!stop ==> hw.txFifo == [])
      ensures status == {DONE} && (stop || !log.aborted) ==> AllExecuted()
      ensures u == Wakeup(true, true) && old(Steady() && status == {}) ==>
                && status == (if over then {DONE} else {})
                && (!over ==> Steady() && (old(Heard()) ==> Heard()))
                && (!over ==> old(wrlen) < xlen && wrlen >= Min(xlen, old(wrlen) + fifoDepth))
      ensures SentAsGiven() ==> tx == old(tx)
      ensures forall i :: rxlen <= i < rxbuf.Length ==> rxbuf[i] == old(rxbuf[i])
    {
      hide Xact, AllExecuted, SentAsGiven, Flow, Steady, Heard;
      calm := u.calm;
      Going();
      if u.drained {
        DeviceDrains();
      }
      Going();
      over := ProcessIntr();
    }

    /** One interrupt per wake-up, then the timeout. Enough interrupts without trouble end the
        transaction. */
    method WaitComplete(wakeups: seq<Wakeup>) returns (ret: set<Flag>)
      requires Xact() && status == {}
      modifies ReceiveFrame(), `rdlen, `wrlen, `status, `txEmptyOn, `rxFullOn, `hw, `log,
               `activeNoStop, `restart, `tx, `calm, `resets
      ensures DONE in ret && Orderly(old(restart))
      ensures if ARBL in ret || ERROR in ret then !activeNoStop && !restart && resets == old(resets) + 1
              else resets == old(resets)
      ensures ret == {DONE} ==>
                Complete(old(restart)) && hw.tar == TarFor(slaveAddr, slaveFmt) && (!stop ==> Quiet())
      ensures Smooth(wakeups, xlen, fifoDepth) && old(Steady()) ==> ret == {DONE}
      ensures SentAsGiven() ==> tx == old(tx)
      ensures forall i :: rxlen <= i < rxbuf.Length ==> rxbuf[i] == old(rxbuf[i])
    {
      hide *;
      ghost var good := Smooth(wakeups, xlen, fifoDepth) && Steady();
      if good {
        SomeInterrupt(wakeups);
      }
      for k := 0 to |wakeups|
        invariant Xact() && DONE !in status && restart == old(restart) && resets == old(resets)
        invariant good ==> k < |wakeups| && Steady() && status == {} && Ahead(wrlen, xlen, k, fifoDepth)
        invariant good ==> (old(Heard()) ==> Heard())
        invariant forall i :: rxlen <= i < rxbuf.Length ==> rxbuf[i] == old(rxbuf[i])
        invariant SentAsGiven() ==> tx == old(tx)
      {
        ghost var before := wrlen;
        if good {
          NotTheLast(wakeups, xlen, fifoDepth, k, wrlen);
        }
        var over := Await(wakeups[k]);
        if over {
          Conclude();
          return status;
        }
        if good {
          FurtherAhead(before, wrlen, xlen, k, fifoDepth);
        }
      }
      XactIsOrderly();
      TryReset();
      return {DONE, ERROR};
    }

    // ---------- claiming the bus ----------

    /** IC_TAR may only be written while the adapter is off and no transaction is open. */
    method WriteTar(v: nat)
      requires !hw.enabled && !activeNoStop
      modifies `hw
      ensures hw == old(hw).(tar := v)
    {
      hw := hw.(tar := v);
    }

    /** An open bus can be claimed for the same slave only; otherwise the bus must become idle and the
        adapter must switch off and on. */
    predicate CanClaim(c: Conditions)
      reads `activeNoStop, `slaveAddr, `slaveFmt, `activeAddr, `activeFmt
    {
      if activeNoStop then slaveAddr == activeAddr && slaveFmt == activeFmt
      else !StaysBusy(c) && c.off && c.on
    }

    /** A bus open for another slave, one still busy before the last poll, and an adapter that does not
        switch each cost a reset. */
    function ClaimResets(c: Conditions): nat
      reads `activeNoStop, `slaveAddr, `slaveFmt, `activeAddr, `activeFmt
    {
      if activeNoStop then (if CanClaim(c) then 0 else 1)
      else (if BusyUntil(c, BUSY_POLLS - 1) then 1 else 0) + (if StaysBusy(c) || (c.off && c.on) then 0 else 1)
    }

    /** Addresses the current slave, or continues the open transaction with a RESTART. */
    method BusActive(c: Conditions) returns (ok: bool)
      requires Idle()
      modifies `activeNoStop, `restart, `hw, `txEmptyOn, `rxFullOn, `activeAddr, `activeFmt, `resets
      ensures ok <==> old(CanClaim(c))
      ensures resets == old(resets) + old(ClaimResets(c))
      ensures ok ==> !txEmptyOn && !rxFullOn
      ensures ok ==>
                && Quiet() && hw.tar == TarFor(slaveAddr, slaveFmt)
                && activeAddr == slaveAddr && activeFmt == slaveFmt
                && restart == old(activeNoStop)
                && (if old(activeNoStop) then hw == old(hw) else hw.rxFifo == [])
      ensures !ok ==> !activeNoStop
    {
      if activeNoStop {
        if slaveAddr != activeAddr || slaveFmt != activeFmt {
          TryReset();
          return false;
        }
        restart := true;
        txEmptyOn, rxFullOn := false, false;
        return true;
      }
      restart := false;
      var busy := BusyAt(c, 0);
      var retry := BUSY_RETRY;
      while busy && retry >= 0
        invariant !activeNoStop && !restart && -1 <= retry <= BUSY_RETRY
        invariant busy == BusyAt(c, BUSY_RETRY - retry)
        invariant BusyUntil(c, BUSY_RETRY - retry)
        invariant resets == old(resets) + if retry < 0 then 1 else 0
        decreases retry
      {
        if retry == 0 {
          TryReset();
        }
        retry := retry - 1;
        busy := BusyAt(c, BUSY_RETRY - retry);
      }
      if busy {
        return false;
      }
      ok := Enable(false, c.off);
      if !ok {
        TryReset();
        return;
      }
      if slaveFmt == SevenBit {
        WriteTar(slaveAddr);
      } else {
        WriteTar(slaveAddr + 0x1000);
      }
      activeAddr, activeFmt := slaveAddr, slaveFmt;
      txEmptyOn, rxFullOn := false, false;
      ok := Enable(true, c.on);
      if !ok {
        TryReset();
      }
    }

    // ---------- the calls ----------

    method SetSlaveAddr(addr: nat, fmt: AddrFormat) returns (ok: bool)
      requires Ready()
      modifies `slaveAddr, `slaveFmt, `tenBitMaster
      ensures Ready()
      ensures ok <==> ValidAddr(addr, fmt)
      ensures ok ==> slaveAddr == addr && slaveFmt == fmt
      ensures !ok ==> slaveAddr == old(slaveAddr) && slaveFmt == old(slaveFmt)
    {
      if fmt == SevenBit {
        if addr > 0x7F {
          return false;
        }
        tenBitMaster := false;
      } else if fmt == TenBit {
        if addr > 0x3FF {
          return false;
        }
        tenBitMaster := true;
      } else {
        return false;
      }
      slaveAddr, slaveFmt := addr, fmt;
      return true;
    }

    /** The common body of send, recv and sendrecv, with lengths and buffers already in place. */
    method Transfer(c: Conditions) returns (ret: set<Flag>)
      requires Ready() && 0 < txlen + rxlen && Buffers()
      modifies `xlen, `wrlen, `rdlen, `status, `activeNoStop, `restart, `activeAddr, `activeFmt,
               `txEmptyOn, `rxFullOn, `hw, `tx, `log, `busOpen, `history, `calm, `resets, ReceiveFrame()
      ensures Ready()
      ensures ret == {BUSY} <==> !old(CanClaim(c))
      ensures old(Untroubled(c, txlen + rxlen)) ==> ret == {DONE}
      ensures Recorded(old(history), txlen, rxlen, stop, ret)
      ensures SentAsGiven() ==> LastData() == old(txbuf[..txlen])
      ensures ret == {DONE} ==> Delivered(rxbuf, rxlen)
      ensures forall i :: rxlen <= i < rxbuf.Length ==> rxbuf[i] == old(rxbuf[i])
    {
      hide *;
      WasReady();
      StartRecord();
      ret := ClaimAndTransact(c);
      Extend(ret);
    }

    /** The bus can be claimed, no surplus byte is left from before, and enough interrupts come without
        trouble. */
    ghost predicate Untroubled(c: Conditions, len: nat)
      reads `activeNoStop, `slaveAddr, `slaveFmt, `activeAddr, `activeFmt, `hw
    {
      CanClaim(c) && Smooth(c.wakeups, len, fifoDepth) && (activeNoStop ==> hw.rxFifo == [])
    }

    /** Between calls: the history follows the protocol and tells whether the bus is open. */
    ghost predicate Ready()
      reads `slaveAddr, `slaveFmt, `tenBitMaster, `activeNoStop, `busOpen, `activeAddr, `activeFmt, `hw, `history
    {
      && Idle() && Chained(history) && (busOpen <==> OpenAfter(history))
      && (busOpen ==> SlaveWas(history, activeAddr, activeFmt))
    }

    lemma WasReady()
      requires Ready()
      ensures Idle() && Chained(history) && (busOpen <==> OpenAfter(history))
      ensures activeNoStop ==> SlaveWas(history, activeAddr, activeFmt)
    {
    }

    /** Who can claim the bus, seen in the history. */
    lemma ClaimByHistory(c: Conditions)
      requires Ready()
      ensures CanClaim(c) <==> if OpenAfter(history) then SlaveWas(history, slaveAddr, slaveFmt)
                               else !StaysBusy(c) && c.off && c.on
      ensures activeNoStop && !spurious ==> hw.rxFifo == []
    {
      hide Chained, StaysBusy;
    }

    lemma TroubleFree(c: Conditions, len: nat)
      requires CanClaim(c) && Smooth(c.wakeups, len, fifoDepth) && (activeNoStop ==> hw.rxFifo == [])
      ensures Untroubled(c, len)
    {
    }

    /** The call added one entry: for the current slave, with these lengths, stop flag and result. */
    ghost predicate Recorded(before: seq<Entry>, sent: nat, rx: nat, withStop: bool, ret: set<Flag>)
      reads `history, `slaveAddr, `slaveFmt
    {
      && |history| == |before| + 1 && history[..|before|] == before
      && ShapeOf(history[|before|]) == Shape(sent, rx, withStop, slaveAddr, slaveFmt)
      && history[|before|].ret == ret
    }

    /** The bytes of the last transaction. */
    ghost function LastData(): seq<Byte>
      reads `history
    {
      if history == [] then [] else history[|history| - 1].data
    }

    /** Enters the finished transaction into the history. */
    ghost method Extend(ret: set<Flag>)
      requires Idle() && Chained(history) && Orderly(OpenAfter(history)) && 0 < txlen + rxlen
      requires ret == {DONE} ==> Complete(OpenAfter(history))
      requires busOpen <==> ret == {DONE} && !stop
      requires busOpen ==> activeAddr == slaveAddr && activeFmt == slaveFmt
      modifies `history
      ensures Ready() && Recorded(old(history), txlen, rxlen, stop, ret) && LastData() == tx
      ensures ret == {DONE} ==> Delivered(rxbuf, rxlen)
    {
      var e := Entry(tx, rxlen, stop, slaveAddr, slaveFmt,
                     log.issued, log.targets, log.executed, log.aborted, ret);
      hide Stream, Idle, TarFor;
      ChainedExtend(history, e);
      hide Orderly, Chained, FollowsProtocol;
      history := history + [e];
    }

    /** The first len bytes received are at the front of the buffer, in order. */
    ghost predicate Delivered(buf: array<Byte>, len: nat)
      reads `log, buf
    {
      len <= buf.Length && len <= |log.received| && buf[..len] == log.received[..len]
    }

    method ClaimAndTransact(c: Conditions) returns (ret: set<Flag>)
      requires Idle() && 0 < txlen + rxlen && Buffers()
      requires tx == txbuf[..txlen] && |tx| == txlen && log == EMPTY_LOG
      requires xlen == txlen + rxlen && wrlen == 0 && rdlen == 0 && status == {}
      modifies `wrlen, `rdlen, `status, `activeNoStop, `restart, `activeAddr, `activeFmt,
               `txEmptyOn, `rxFullOn, `hw, `tx, `log, `busOpen, `calm, `resets, ReceiveFrame()
      ensures ret == {BUSY} <==> !old(CanClaim(c))
      ensures old(Untroubled(c, txlen + rxlen)) ==> ret == {DONE}
      ensures busOpen ==> activeAddr == slaveAddr && activeFmt == slaveFmt
      ensures Idle() && (SentAsGiven() ==> tx == old(tx))
      ensures busOpen <==> ret == {DONE} && !stop
      ensures Orderly(old(busOpen))
      ensures ret == {DONE} ==> Complete(old(busOpen))
      ensures forall i :: rxlen <= i < rxbuf.Length ==> rxbuf[i] == old(rxbuf[i])
    {
      hide *;
      IdleFacts();
      if Untroubled(c, txlen + rxlen) {
        NoTrouble(c, txlen + rxlen);
      }
      var ok := BusActive(c);
      if !ok {
        busOpen := false;
        NothingIssued(old(busOpen));
        BackToIdle();
        return {BUSY};
      }
      ret := Transact(c.wakeups);
    }

    lemma NoTrouble(c: Conditions, len: nat)
      requires Untroubled(c, len)
      ensures CanClaim(c) && Smooth(c.wakeups, len, fifoDepth) && (activeNoStop ==> hw.rxFifo == [])
    {
    }

    lemma IdleFacts()
      requires Idle()
      ensures ValidAddr(slaveAddr, slaveFmt) && (tenBitMaster <==> slaveFmt == TenBit)
      ensures activeNoStop <==> busOpen
    {
    }

    lemma BackToIdle()
      requires ValidAddr(slaveAddr, slaveFmt) && (tenBitMaster <==> slaveFmt == TenBit)
      requires activeNoStop <==> busOpen
      requires busOpen ==> Quiet() && hw.tar == TarFor(slaveAddr, slaveFmt)
      requires busOpen ==> activeAddr == slaveAddr && activeFmt == slaveFmt
      ensures Idle()
    {
    }

    method StartRecord()
      requires Buffers()
      modifies `tx, `log, `xlen, `wrlen, `rdlen, `status
      ensures tx == txbuf[..txlen] && |tx| == txlen && log == EMPTY_LOG
      ensures xlen == txlen + rxlen && wrlen == 0 && rdlen == 0 && status == {}
    {
      tx, log := txbuf[..txlen], EMPTY_LOG;
      xlen, wrlen, rdlen, status := txlen + rxlen, 0, 0, {};
    }

    /** From the first interrupt to the last, and whether the bus stays open. */
    method Transact(wakeups: seq<Wakeup>) returns (ret: set<Flag>)
      requires Quiet() && ValidAddr(slaveAddr, slaveFmt) && hw.tar == TarFor(slaveAddr, slaveFmt)
      requires Buffers() && xlen == txlen + rxlen > 0 && wrlen == 0 && rdlen == 0 && status == {}
      requires tx == txbuf[..txlen] && log == EMPTY_LOG
      requires (tenBitMaster <==> slaveFmt == TenBit) && activeAddr == slaveAddr && activeFmt == slaveFmt
      modifies ReceiveFrame(), `rdlen, `wrlen, `status, `txEmptyOn, `rxFullOn, `hw, `log,
               `activeNoStop, `restart, `busOpen, `tx, `calm, `resets
      ensures DONE in ret
      ensures Smooth(wakeups, xlen, fifoDepth) && old(hw.rxFifo) == [] ==> ret == {DONE}
      ensures Idle()
      ensures busOpen <==> ret == {DONE} && !stop
      ensures Orderly(old(restart))
      ensures ret == {DONE} ==> Complete(old(restart))
      ensures SentAsGiven() ==> tx == old(tx)
      ensures forall i :: rxlen <= i < rxbuf.Length ==> rxbuf[i] == old(rxbuf[i])
    {
      hide *;
      Begin();
      ret := WaitComplete(wakeups);
      var works: bool := *;
      LeaveBus(ret == {DONE}, works);
      BackToIdle();
    }

    /** Remembers whether the bus stays open; after a STOP the adapter is switched off. */
    method LeaveBus(done: bool, works: bool)
      modifies `txEmptyOn, `rxFullOn, `activeNoStop, `busOpen, `hw
      ensures activeNoStop == busOpen == (done && !stop)
      ensures hw == if stop && works then old(hw).(enabled := false, txFifo := [], rxFifo := [])
                    else old(hw).(enabled := hw.enabled)
      ensures !stop ==> hw == old(hw)
    {
      txEmptyOn, rxFullOn := false, false;
      activeNoStop := done && !stop;
      busOpen := activeNoStop;
      if stop {
        var _ := Enable(false, works);
      }
    }

    /** Clears stale interrupts and enables the default ones. */
    method Begin()
      requires Quiet() && ValidAddr(slaveAddr, slaveFmt) && hw.tar == TarFor(slaveAddr, slaveFmt)
      requires Buffers() && xlen == txlen + rxlen && wrlen == 0 && rdlen == 0
      requires tx == txbuf[..txlen] && log == EMPTY_LOG
      modifies `hw, `log, `txEmptyOn, `rxFullOn
      ensures Xact()
      ensures Heard() && (0 < xlen && old(hw.rxFifo) == [] ==> Steady())
    {
      hw := hw.(abrt := false, stopDet := false);
      txEmptyOn, rxFullOn := true, true;
      log := log.(received := hw.rxFifo);
    }

    /** Notes what a call asks for. */
    method Prepare(out: array<Byte>, sent: nat, into: array<Byte>, rx: nat, withStop: bool)
      modifies `txlen, `rxlen, `txbuf, `rxbuf, `stop
      ensures txlen == sent && rxlen == rx && txbuf == out && rxbuf == into && stop == withStop
    {
      txlen, rxlen, txbuf, rxbuf, stop := sent, rx, out, into, withStop;
    }

    method Send(buf: array<Byte>, len: nat, withStop: bool, c: Conditions) returns (ret: set<Flag>)
      requires Ready() && len <= buf.Length && len < TWO32
      modifies `txlen, `rxlen, `txbuf, `rxbuf, `stop, `xlen, `wrlen, `rdlen, `status, `activeNoStop,
               `restart, `activeAddr, `activeFmt, `txEmptyOn, `rxFullOn, `hw, `tx, `log, `busOpen, `history,
               `calm, `resets
      ensures Ready()
      ensures len > 0 ==> (ret == {BUSY} <==> !old(CanClaim(c)))
      ensures len > 0 && old(Untroubled(c, len)) ==> ret == {DONE}
      ensures len == 0 ==> ret == {DONE} && history == old(history)
      ensures len > 0 ==> Recorded(old(history), len, 0, withStop, ret) && LastData() == buf[..len]
    {
      if len == 0 {
        return {DONE};
      }
      hide *;
      Prepare(buf, len, rxbuf, 0, withStop);
      NothingToReceive();
      BuffersOk();
      ret := Transfer(c);
    }

    method Recv(buf: array<Byte>, len: nat, withStop: bool, c: Conditions) returns (ret: set<Flag>)
      requires Ready() && len <= buf.Length && len < TWO32
      requires spurious ==> len + fifoDepth < TWO32
      modifies `txlen, `rxlen, `txbuf, `rxbuf, `stop, `xlen, `wrlen, `rdlen, `status, `activeNoStop,
               `restart, `activeAddr, `activeFmt, `txEmptyOn, `rxFullOn, `hw, `tx, `log, `busOpen, `history,
               `calm, `resets, buf
      ensures Ready()
      ensures len > 0 ==> (ret == {BUSY} <==> !old(CanClaim(c)))
      ensures len > 0 && old(Untroubled(c, len)) ==> ret == {DONE}
      ensures len == 0 ==> ret == {DONE} && history == old(history)
      ensures len > 0 ==> Recorded(old(history), 0, len, withStop, ret)
      ensures len > 0 && ret == {DONE} ==> Delivered(buf, len)
      ensures forall i :: len <= i < buf.Length ==> buf[i] == old(buf[i])
    {
      if len == 0 {
        return {DONE};
      }
      hide *;
      Prepare(txbuf, 0, buf, len, withStop);
      ReceivedInto();
      BuffersOk();
      ret := Transfer(c);
    }

    /** Data out, then data in, in one transaction; both may use the same buffer. Then bytes that
        nobody asked for may overwrite data before it is sent. */
    method SendRecv(sendBuf: array<Byte>, sendLen: nat, recvBuf: array<Byte>, recvLen: nat,
                    withStop: bool, c: Conditions) returns (ret: set<Flag>)
      requires Ready() && sendLen <= sendBuf.Length && recvLen <= recvBuf.Length
      requires spurious ==> recvLen + fifoDepth < TWO32
      modifies `txlen, `rxlen, `txbuf, `rxbuf, `stop, `xlen, `wrlen, `rdlen, `status, `activeNoStop,
               `restart, `activeAddr, `activeFmt, `txEmptyOn, `rxFullOn, `hw, `tx, `log, `busOpen, `history,
               `calm, `resets, recvBuf
      ensures Ready()
      ensures 0 < sendLen + recvLen < TWO32 ==> (ret == {BUSY} <==> !old(CanClaim(c)))
      ensures 0 < sendLen + recvLen < TWO32 && old(Untroubled(c, sendLen + recvLen)) ==> ret == {DONE}
      ensures sendLen + recvLen >= TWO32 ==> ret == {ERROR} && history == old(history)
      ensures sendLen + recvLen == 0 ==> ret == {DONE} && history == old(history)
      ensures 0 < sendLen + recvLen < TWO32 ==>
                && Recorded(old(history), sendLen, recvLen, withStop, ret)
                && (sendBuf != recvBuf || recvLen == 0 || !spurious ==> LastData() == old(sendBuf[..sendLen]))
                && (ret == {DONE} ==> Delivered(recvBuf, recvLen))
      ensures forall i :: recvLen <= i < recvBuf.Length ==> recvBuf[i] == old(recvBuf[i])
    {
      if sendLen + recvLen >= TWO32 {
        return {ERROR};
      }
      hide *;
      Prepare(sendBuf, sendLen, recvBuf, recvLen, withStop);
      if sendLen + recvLen == 0 {
        return {DONE};
      }
      ret := Combined(sendBuf, recvBuf, c);
    }

    method Combined(out: array<Byte>, into: array<Byte>, c: Conditions) returns (ret: set<Flag>)
      requires Ready() && txbuf == out && rxbuf == into && txlen <= out.Length && rxlen <= into.Length
      requires 0 < txlen + rxlen < TWO32 && (spurious ==> rxlen + fifoDepth < TWO32)
      modifies `xlen, `wrlen, `rdlen, `status, `activeNoStop, `restart, `activeAddr, `activeFmt,
               `txEmptyOn, `rxFullOn, `hw, `tx, `log, `busOpen, `history, `calm, `resets, into
      ensures ret == {BUSY} <==> !old(CanClaim(c))
      ensures old(Untroubled(c, txlen + rxlen)) ==> ret == {DONE}
      ensures Ready() && Recorded(old(history), txlen, rxlen, stop, ret)
      ensures out != into || rxlen == 0 || !spurious ==> LastData() == old(out[..txlen])
      ensures ret == {DONE} ==> Delivered(into, rxlen)
      ensures forall i :: rxlen <= i < into.Length ==> into[i] == old(into[i])
    {
      SentAsGivenFrom(out, into, rxlen);
      hide *;
      BuffersOk();
      ret := Transfer(c);
    }

    lemma NothingToReceive()
      requires rxlen == 0
      ensures ReceiveFrame() == {} && SentAsGiven()
    {
    }

    lemma ReceivedInto()
      ensures ReceiveFrame() <= {rxbuf}
    {
    }

    lemma SentAsGivenFrom(out: array<Byte>, into: array<Byte>, len: nat)
      requires txbuf == out && rxbuf == into && rxlen == len
      ensures SentAsGiven() <==> out != into || len == 0 || !spurious
      ensures ReceiveFrame() <= {into}
    {
    }

    lemma BuffersOk()
      requires txlen <= txbuf.Length && rxlen <= rxbuf.Length && txlen + rxlen < TWO32
      requires spurious && rxlen > 0 ==> rxlen + fifoDepth < TWO32
      ensures Buffers()
    {
    }
  }

  // ---------- an abort behind the handler's back ----------

  /** A transaction on its way: the job, the controller, its history, commands written, bytes taken. */
  datatype Course = Course(j: Job, hw: Controller, log: Log, wrlen: nat, r: nat)

  ghost predicate Linked(c: Course) { Link(c.j, c.hw, c.log, c.wrlen, c.r) }

  function Total(j: Job): nat { |j.tx| + j.rxlen }

  /** What the controller and the handler's loops may do next. */
  datatype Move =
    | Executes(byte: Byte, lost: bool)
    | Brings(byte: Byte)
    | Aborts(stopSeen: bool)
    | Queues
    | Takes
    | Overwrites(i: nat, byte: Byte)

  predicate CanMove(c: Course, m: Move) {
    match m
    case Executes(_, _) => c.hw.txFifo != []
    case Brings(_) => c.j.spurious
    case Aborts(_) => true
    case Queues => c.wrlen < Total(c.j) && |c.hw.txFifo| < c.j.depth
    case Takes => c.hw.rxFifo != []
    case Overwrites(i, _) => c.wrlen <= i < |c.j.tx|
  }

  ghost function Moved(c: Course, m: Move): Course
    requires CanMove(c, m)
  {
    match m
    case Executes(byte, lost) =>
      c.(hw := Execute(c.hw, c.j.depth, byte, lost), log := LogExecute(c.hw, c.log, c.j.depth, byte, lost))
    case Brings(byte) =>
      c.(hw := Receive(c.hw, c.j.depth, byte), log := LogReceive(c.hw, c.log, c.j.depth, byte))
    case Aborts(stopSeen) =>
      c.(hw := Abort(c.hw, stopSeen), log := c.log.(aborted := true))
    case Queues =>
      var cmd := CommandAt(c.j.tx, c.j.rxlen, c.j.stop, c.j.restart, c.wrlen);
      c.(hw := WriteCommand(c.hw, c.j.depth, cmd), log := LogWrite(c.hw, c.log, cmd), wrlen := c.wrlen + 1)
    case Takes => c.(hw := ReadData(c.hw).0, r := c.r + 1)
    case Overwrites(i, byte) => c.(j := c.j.(tx := c.j.tx[i := byte]))
  }

  /** The moves lead from one state to the other. */
  ghost predicate Leads(c: Course, ms: seq<Move>, end: Course)
    decreases |ms|
  {
    if ms == [] then end == c else CanMove(c, ms[0]) && Leads(Moved(c, ms[0]), ms[1..], end)
  }

  /** After an abort nothing goes out on the bus any more. */
  lemma AbortedMove(c: Course, m: Move)
    requires Linked(c) && CanMove(c, m)
    ensures c.hw.abrt ==> Moved(c, m).hw.abrt && Moved(c, m).log.executed == c.log.executed
  {
    hide CommandAt;
  }

  /** Every move keeps the agreement; after an abort nothing goes out on the bus any more. */
  lemma MoveKeepsLink(c: Course, m: Move)
    requires Linked(c) && CanMove(c, m)
    ensures Linked(Moved(c, m)) && Total(Moved(c, m).j) == Total(c.j)
    ensures Moved(c, m).j.rxlen == c.j.rxlen && Moved(c, m).j.spurious == c.j.spurious
    ensures c.hw.abrt ==> Moved(c, m).hw.abrt && Moved(c, m).log.executed == c.log.executed
  {
    hide Link, Execute, LogExecute, Receive, LogReceive, Abort, WriteCommand, LogWrite, ReadData, CommandAt;
    AbortedMove(c, m);
    match m
    case Executes(byte, lost) => ExecuteKeepsLink(c.j, c.hw, c.log, c.wrlen, c.r, byte, lost);
    case Brings(byte) => SurplusKeepsLink(c.j, c.hw, c.log, c.wrlen, c.r, byte);
    case Aborts(stopSeen) => AbortKeepsLink(c.j, c.hw, c.log, c.wrlen, c.r, stopSeen);
    case Queues =>
      WriteKeepsLink(c.j, c.hw, c.log, c.wrlen, c.r, CommandAt(c.j.tx, c.j.rxlen, c.j.stop, c.j.restart, c.wrlen));
    case Takes => ReadKeepsLink(c.j, c.hw, c.log, c.wrlen, c.r);
    case Overwrites(i, byte) => OverwriteKeepsLink(c.j, c.hw, c.log, c.wrlen, c.r, i, byte);
  }

  lemma {:induction false} NothingAfterAbort(c: Course, ms: seq<Move>, end: Course)
    requires Linked(c) && c.hw.abrt && Leads(c, ms, end)
    ensures Linked(end) && end.hw.abrt && end.log.executed == c.log.executed && Total(end.j) == Total(c.j)
    ensures end.j.rxlen == c.j.rxlen && end.j.spurious == c.j.spurious
    decreases |ms|
  {
    hide Link, Moved, CanMove, Total;
    if ms != [] {
      MoveKeepsLink(c, ms[0]);
      NothingAfterAbort(Moved(c, ms[0]), ms[1..], end);
    }
  }

  /** An abort at any time, also after the handler has read the interrupt status, and whatever follows:
      once everything counts as written the queue is empty, so without a STOP the handler finds what it
      takes for the end. All was sent if and only if all had gone out before the abort; a controller that
      brings only bytes asked for cannot have delivered the last of them otherwise. */
  lemma {:induction false} AbortRaceLooksDone(c: Course, stopSeen: bool, ms: seq<Move>, end: Course)
    requires Linked(c) && Leads(Moved(c, Aborts(stopSeen)), ms, end)
    requires end.wrlen == Total(end.j)
    ensures Linked(end) && end.hw.txFifo == []
    ensures end.log.executed == end.log.issued <==> |c.log.executed| == Total(c.j)
    ensures !c.j.spurious && end.r == c.j.rxlen > 0 ==> end.log.executed == end.log.issued
  {
    MoveKeepsLink(c, Aborts(stopSeen));
    NothingAfterAbort(Moved(c, Aborts(stopSeen)), ms, end);
  }

  // ---------- sequences of calls ----------

  /** The calls; a combined transfer may use one buffer or two. */
  datatype Call =
    | SetAddr(addr: nat, fmt: AddrFormat)
    | SendCall(data: array<Byte>, withStop: bool)
    | RecvCall(data: array<Byte>, withStop: bool)
    | SendRecvCall(out: array<Byte>, sendLen: nat, data: array<Byte>, recvLen: nat, withStop: bool)

  /** The lengths fit the buffers and 32 bits, with room for surplus bytes if there may be any. */
  predicate CallOk(c: Call, spurious: bool, depth: nat) {
    match c
    case SetAddr(_, _) => true
    case SendCall(d, _) => d.Length < TWO32
    case RecvCall(d, _) => d.Length < TWO32 && (spurious ==> d.Length + depth < TWO32)
    case SendRecvCall(o, s, d, r, _) => s <= o.Length && r <= d.Length && (spurious ==> r + depth < TWO32)
  }

  function Touched(c: Call): set<object> { if c.SetAddr? then {} else {c.data} }

  /** The slave addressed after a call. */
  function SlaveAfter(c: Call, addr: nat, fmt: AddrFormat): (nat, AddrFormat) {
    if c.SetAddr? && ValidAddr(c.addr, c.fmt) then (c.addr, c.fmt) else (addr, fmt)
  }

  /** The transaction a call asks for, if any. */
  function Asked(c: Call, addr: nat, fmt: AddrFormat): seq<Shape> {
    match c
    case SetAddr(_, _) => []
    case SendCall(d, stop) => if d.Length == 0 then [] else [Shape(d.Length, 0, stop, addr, fmt)]
    case RecvCall(d, stop) => if d.Length == 0 then [] else [Shape(0, d.Length, stop, addr, fmt)]
    case SendRecvCall(_, s, _, r, stop) =>
      if s + r == 0 || s + r >= TWO32 then [] else [Shape(s, r, stop, addr, fmt)]
  }

  /** The transactions a sequence of calls asks for, in order, each for the slave set last. */
  function AllAsked(calls: seq<Call>, addr: nat, fmt: AddrFormat): seq<Shape> {
    if calls == [] then []
    else
      var (a, f) := SlaveAfter(calls[0], addr, fmt);
      Asked(calls[0], addr, fmt) + AllAsked(calls[1..], a, f)
  }

  function Shapes(es: seq<Entry>): seq<Shape> {
    seq(|es|, i requires 0 <= i < |es| => ShapeOf(es[i]))
  }

  /** The commands of a call. */
  function Length(c: Call): nat {
    match c
    case SetAddr(_, _) => 0
    case SendCall(d, _) => d.Length
    case RecvCall(d, _) => d.Length
    case SendRecvCall(_, s, _, r, _) => s + r
  }

  predicate Favourable(w: Conditions, len: nat, depth: nat) {
    !StaysBusy(w) && w.off && w.on && Smooth(w.wakeups, len, depth)
  }

  /** Transaction k succeeded, unless its predecessor left the bus open for another slave. */
  predicate Served(history: seq<Entry>, k: nat)
    requires k < |history|
  {
    var other := k > 0 && (history[k].addr != history[k - 1].addr || history[k].fmt != history[k - 1].fmt);
    history[k].ret == if k > 0 && LeftOpen(history[k - 1]) && other then {BUSY} else {DONE}
  }

  method RunCall(m: Master, c: Call, w: Conditions) returns (ret: set<Flag>)
    requires m.Ready() && CallOk(c, m.spurious, m.fifoDepth)
    modifies m, Touched(c)
    ensures m.Ready() && old(m.history) <= m.history
    ensures Shapes(m.history[|old(m.history)|..]) == Asked(c, old(m.slaveAddr), old(m.slaveFmt))
    ensures (m.slaveAddr, m.slaveFmt) == SlaveAfter(c, old(m.slaveAddr), old(m.slaveFmt))
    ensures |m.history| > |old(m.history)| ==> m.history[|m.history| - 1].ret == ret
    ensures !m.spurious && Favourable(w, Length(c), m.fifoDepth) && |m.history| > |old(m.history)| ==>
              Served(m.history, |m.history| - 1)
  {
    ghost var h := m.history;
    m.ClaimByHistory(w);
    if !m.spurious && Favourable(w, Length(c), m.fifoDepth) && m.CanClaim(w) {
      m.TroubleFree(w, Length(c));
    }
    ghost var easy := !m.spurious && Favourable(w, Length(c), m.fifoDepth);
    hide Chained, m.Idle, m.Ready, m.CanClaim, StaysBusy, Smooth, Favourable, m.Untroubled, SlaveWas, OpenAfter, Served;
    hide m.Recorded, Shapes, m.Delivered, m.LastData;
    NoMore(h);
    match c {
      case SetAddr(addr, fmt) =>
        var ok := m.SetSlaveAddr(addr, fmt);
        return if ok then {} else {ERROR};
      case SendCall(d, withStop) =>
        ret := m.Send(d, d.Length, withStop, w);
        if d.Length > 0 { OneMore(m, h, d.Length, 0, withStop, ret, easy); }
      case RecvCall(d, withStop) =>
        ret := m.Recv(d, d.Length, withStop, w);
        if d.Length > 0 { OneMore(m, h, 0, d.Length, withStop, ret, easy); }
      case SendRecvCall(o, s, d, r, withStop) =>
        ret := m.SendRecv(o, s, d, r, withStop, w);
        if 0 < s + r < TWO32 { OneMore(m, h, s, r, withStop, ret, easy); }
    }
  }

  lemma NoMore(h: seq<Entry>)
    ensures Shapes(h[|h|..]) == []
  {
  }

  /** A call that made a transaction. */
  lemma OneMore(m: Master, h: seq<Entry>, sent: nat, rx: nat, stop: bool, ret: set<Flag>, easy: bool)
    requires m.Recorded(h, sent, rx, stop, ret)
    requires easy ==> ret == if OpenAfter(h) && !SlaveWas(h, m.slaveAddr, m.slaveFmt) then {BUSY} else {DONE}
    ensures h <= m.history && |m.history| == |h| + 1 && m.history[|h|].ret == ret
    ensures Shapes(m.history[|h|..]) == [Shape(sent, rx, stop, m.slaveAddr, m.slaveFmt)]
    ensures easy ==> Served(m.history, |h|)
  {
    hide Chained;
    assert m.history[|h|..] == [m.history[|h|]];
    assert h != [] ==> m.history[|h| - 1] == h[|h| - 1];
  }

  /** Any sequence of calls, whatever each of them returns: the history grows by exactly the
      transactions asked for, in order, and follows the protocol. Under favourable conditions every
      one of them succeeds, unless it finds the bus open for another slave. */
  method RunCalls(m: Master, calls: seq<Call>, ws: seq<Conditions>)
    requires m.Ready() && |ws| == |calls|
    requires forall c :: c in calls ==> CallOk(c, m.spurious, m.fifoDepth)
    modifies m, set c, o | c in calls && o in Touched(c) :: o
    ensures m.Ready() && old(m.history) <= m.history
    ensures Shapes(m.history[|old(m.history)|..]) == AllAsked(calls, old(m.slaveAddr), old(m.slaveFmt))
    ensures !m.spurious && (forall i :: 0 <= i < |calls| ==> Favourable(ws[i], Length(calls[i]), m.fifoDepth)) ==>
              forall k :: |old(m.history)| <= k < |m.history| ==> Served(m.history, k)
  {
    hide *;
    ghost var before := m.history;
    ghost var all := AllAsked(calls, m.slaveAddr, m.slaveFmt);
    NothingYet(before, calls);
    for i := 0 to |calls|
      invariant m.Ready() && before <= m.history
      invariant Shapes(m.history[|before|..]) + AllAsked(calls[i..], m.slaveAddr, m.slaveFmt) == all
      invariant !m.spurious && (forall j :: 0 <= j < i ==> Favourable(ws[j], Length(calls[j]), m.fifoDepth)) ==>
                  forall k :: |before| <= k < |m.history| ==> Served(m.history, k)
    {
      assert calls[i] in calls;
      ghost var h, addr, fmt := m.history, m.slaveAddr, m.slaveFmt;
      var _ := RunCall(m, calls[i], ws[i]);
      CallDone(before, h, m.history, calls, i, addr, fmt);
      AtMostOne(h, m.history, calls[i], addr, fmt);
    }
    NothingLeft(calls, m.slaveAddr, m.slaveFmt);
  }

  /** A call adds at most one transaction, and what was served stays served. */
  lemma AtMostOne(h: seq<Entry>, now: seq<Entry>, c: Call, addr: nat, fmt: AddrFormat)
    requires h <= now && Shapes(now[|h|..]) == Asked(c, addr, fmt)
    ensures |now| <= |h| + 1
    ensures forall k :: 0 <= k < |h| && Served(h, k) ==> Served(now, k)
  {
    assert |now[|h|..]| == |Asked(c, addr, fmt)|;
  }

  lemma NothingYet(before: seq<Entry>, calls: seq<Call>)
    ensures before[|before|..] == [] && Shapes([]) == [] && calls[0..] == calls
  {
  }

  lemma {:induction false} NothingLeft(calls: seq<Call>, addr: nat, fmt: AddrFormat)
    ensures AllAsked(calls[|calls|..], addr, fmt) == []
  {
  }

  /** One call moves what it asks for from the list of calls into the history. */
  lemma {:induction false} CallDone(before: seq<Entry>, h: seq<Entry>, now: seq<Entry>, calls: seq<Call>, i: nat,
                                    addr: nat, fmt: AddrFormat)
    requires i < |calls| && before <= h <= now
    requires Shapes(now[|h|..]) == Asked(calls[i], addr, fmt)
    ensures var (a, f) := SlaveAfter(calls[i], addr, fmt);
            Shapes(now[|before|..]) + AllAsked(calls[i + 1..], a, f) ==
            Shapes(h[|before|..]) + AllAsked(calls[i..], addr, fmt)
  {
    hide Asked, SlaveAfter;
    ShapesGrow(before, h, now);
    var (a, f) := SlaveAfter(calls[i], addr, fmt);
    assert calls[i..][1..] == calls[i + 1..];
    assert AllAsked(calls[i..], addr, fmt) == Asked(calls[i], addr, fmt) + AllAsked(calls[i + 1..], a, f);
  }

  lemma ShapesGrow(before: seq<Entry>, h: seq<Entry>, now: seq<Entry>)
    requires before <= h <= now
    ensures Shapes(now[|before|..]) == Shapes(h[|before|..]) + Shapes(now[|h|..])
  {
  }

  /** What a history that follows the protocol says about command 0 of a transaction. */
  lemma {:induction false} RestartExactly(history: seq<Entry>, k: nat)
    requires Chained(history) && k < |history| && history[k].issued != []
    ensures history[k].issued[0].restart <==> k > 0 && LeftOpen(history[k - 1])
  {
    var e := history[k];
    var s := Stream(e.data, e.rx, e.stop, k > 0 && LeftOpen(history[k - 1]));
    assert FollowsProtocol(history, k);
    assert e.issued[0] == s[0];
  }
}
