/** Interrupt-driven full-duplex SPI exchange: one buffer is read for transmission and overwritten
    with the received words in place, while the controller shifts words on its own time. */
module SpiTransfer {
  import opened Common

  /** A 32-bit data-register access. */
  type Word = x: int | 0 <= x < 0x1_0000_0000

  const FIFO_LEN_DIV := 2
  const MIN_WORD_WIDTH := 3
  const MAX_WORD_WIDTH := 32

  datatype IrqMask = IrqMask(txEmpty: bool, txOver: bool, rxUnder: bool, rxOver: bool, rxFull: bool)

  const ALL_IRQS := IrqMask(true, true, true, true, true)
  const NO_IRQS := IrqMask(false, false, false, false, false)

  datatype IntrResult = Done | Continue | Error
  datatype Status = EOK | EBUSY | EINVAL | EIO | ETIMEDOUT

  /** One wake-up of the waiting thread: the error bits it finds, and whether everything queued so
      far has been shifted out by then. */
  datatype Wakeup = Wakeup(txErr: bool, dataCollision: bool, drained: bool)

  predicate ErrorFree(wakeups: seq<Wakeup>) {
    forall u :: u in wakeups ==> !u.txErr && !u.dataCollision
  }

  /** How many of them find everything queued shifted out. */
  function Drained(wakeups: seq<Wakeup>): nat {
    if wakeups == [] then 0
    else Drained(wakeups[..|wakeups| - 1]) + if wakeups[|wakeups| - 1].drained then 1 else 0
  }

  lemma NoneDrained()
    ensures forall ws: seq<Wakeup> :: Drained(ws[..0]) == 0 && ErrorFree(ws[..0])
  {
  }

  lemma DrainedNext(ws: seq<Wakeup>, i: nat, k: nat)
    requires i < |ws|
    ensures Drained(ws[..i + 1]) * k == Drained(ws[..i]) * k + if ws[i].drained then k else 0
    ensures ErrorFree(ws[..i + 1]) <==> ErrorFree(ws[..i]) && !ws[i].txErr && !ws[i].dataCollision
    ensures ErrorFree(ws) ==> ErrorFree(ws[..i + 1])
  {
    var next := ws[..i + 1];
    assert next[..i] == ws[..i] && next == ws[..i] + [ws[i]];
    var d := Drained(ws[..i]);
    assert Drained(next) == if ws[i].drained then d + 1 else d;
    assert (d + 1) * k == d * k + k;
  }

  function Power2(n: nat): (p: nat)
    ensures p > 0
  {
    if n == 0 then 1 else 2 * Power2(n - 1)
  }

  /** The store of a data-register value into a buffer element of 1, 2 or 4 bytes. */
  function Narrow(dscale: nat, v: Word): Word {
    if dscale == 0 then v % 0x100 else if dscale == 1 then v % 0x1_0000 else v
  }

  class Spi {
    // driver
    var pbuf: array<Word>
    var dlen: nat
    var dscale: nat
    var xlen: nat
    var tlen: nat
    var rlen: nat
    const fifoLen: nat
    // controller registers and FIFOs
    var enabled: bool
    var imr: IrqMask
    var rxThreshold: int
    var txThreshold: int
    var txFifo: seq<Word>
    var rxFifo: seq<Word>
    // the two wires, since the exchange began, and the buffer as the caller left it
    ghost var sent: seq<Word>
    ghost var received: seq<Word>
    ghost var original: seq<Word>

    constructor (fifo: nat)
      ensures fifoLen == fifo
    {
      fifoLen := fifo;
      pbuf := new Word[0];
      dlen, dscale, xlen, tlen, rlen := 1, 0, 0, 0, 0;
      enabled, imr, rxThreshold, txThreshold, txFifo, rxFifo := false, NO_IRQS, 0, 0, [], [];
      sent, received, original := [], [], [];
    }

    /** t words have been queued and r received words stored back. */
    ghost predicate Exchange(t: nat, r: nat)
      reads this, pbuf
    {
      && r <= t <= xlen <= pbuf.Length == |original|
      && t - r <= fifoLen / FIFO_LEN_DIV
      && sent + txFifo == original[..t]
      && |sent| == |received| == r + |rxFifo|
      && received[r..] == rxFifo
      && (forall i :: 0 <= i < r ==> pbuf[i] == Narrow(dscale, received[i]))
      && (forall i :: t <= i < pbuf.Length ==> pbuf[i] == original[i])
    }

    /** Between interrupts of an unfinished exchange. */
    ghost predicate Running()
      reads this, pbuf
    {
      && Exchange(tlen, rlen) && rlen < xlen
      && enabled && imr.rxFull && imr.rxUnder && imr.rxOver && rxThreshold >= 0
      && (if tlen < xlen then imr.txEmpty && imr.txOver && txThreshold == fifoLen / FIFO_LEN_DIV
          else !imr.txEmpty && !imr.txOver)
      && (tlen < xlen ==> rxThreshold + 1 == tlen - rlen == fifoLen / FIFO_LEN_DIV)
      && (tlen == xlen ==> rxThreshold + 1 == Min(xlen - rlen, fifoLen / FIFO_LEN_DIV))
    }

    /** The words sent are the caller's buffer; the buffer holds the words received. */
    ghost predicate Finished()
      reads this, pbuf
    {
      && xlen <= pbuf.Length == |original|
      && sent == original[..xlen] && |received| == xlen
      && (forall i :: 0 <= i < xlen ==> pbuf[i] == Narrow(dscale, received[i]))
      && (forall i :: xlen <= i < pbuf.Length ==> pbuf[i] == original[i])
    }

    /** The receive interrupt is asserted. */
    predicate RxIrq()
      reads this
    {
      enabled && imr.rxFull && |rxFifo| >= rxThreshold + 1
    }

    // ---------- the controller ----------

    /** One word crosses the wires; a word arriving at a full FIFO would be lost. */
    method Shift(input: Word)
      requires txFifo != []
      modifies `txFifo, `rxFifo, `sent, `received
      ensures sent == old(sent) + [old(txFifo)[0]] && txFifo == old(txFifo)[1..]
      ensures received == old(received) + [input]
      ensures rxFifo == if |old(rxFifo)| < fifoLen then old(rxFifo) + [input] else old(rxFifo)
    {
      sent, received := sent + [txFifo[0]], received + [input];
      txFifo := txFifo[1..];
      if |rxFifo| < fifoLen {
        rxFifo := rxFifo + [input];
      }
    }

    /** The same, in an exchange. */
    method ShiftNext(ghost t: nat, ghost r: nat)
      requires Exchange(t, r) && txFifo != []
      modifies `txFifo, `rxFifo, `sent, `received
      ensures Exchange(t, r) && |txFifo| == |old(txFifo)| - 1
      ensures old(rxFifo) <= rxFifo && old(received) <= received
    {
      var input: Word := *;
      ghost var s0, x0 := sent, txFifo;
      assert |s0 + x0| == t;
      Shift(input);
      assert s0 + x0 == sent + txFifo;
    }

    /** The controller runs for an arbitrary while, or until it has nothing left to send. */
    method DeviceRuns(untilIdle: bool, ghost t: nat, ghost r: nat)
      requires Exchange(t, r)
      modifies `txFifo, `rxFifo, `sent, `received
      ensures Exchange(t, r)
      ensures untilIdle ==> txFifo == []
      ensures old(rxFifo) <= rxFifo && old(received) <= received
    {
      hide Exchange;
      var steps: nat := *;
      var n := if untilIdle then |txFifo| else Min(steps, |txFifo|);
      while n > 0
        invariant n <= |txFifo| && (untilIdle ==> n == |txFifo|)
        invariant Exchange(t, r)
        invariant old(rxFifo) <= rxFifo && old(received) <= received
      {
        ShiftNext(t, r);
        n := n - 1;
      }
    }

    // ---------- FIFO access ----------

    method WriteFifo(len: nat)
      requires Exchange(tlen, rlen) && tlen + len <= xlen
      requires tlen + len - rlen <= fifoLen / FIFO_LEN_DIV
      modifies `txFifo, `rxFifo, `sent, `received
      ensures Exchange(tlen + len, rlen)
      ensures old(rxFifo) <= rxFifo && old(received) <= received
    {
      for i := 0 to len
        invariant Exchange(tlen + i, rlen)
        invariant old(rxFifo) <= rxFifo && old(received) <= received
      {
        Push(pbuf[tlen + i], tlen + i, rlen);
        DeviceRuns(false, tlen + i + 1, rlen);
      }
    }

    /** A data-register write; a full FIFO would drop the word. */
    method Push(v: Word, ghost t: nat, ghost r: nat)
      requires Exchange(t, r) && t < xlen && v == original[t]
      requires t + 1 - r <= fifoLen / FIFO_LEN_DIV
      modifies `txFifo
      ensures Exchange(t + 1, r)
    {
      ghost var x0 := txFifo;
      assert |sent + x0| == t;
      if |txFifo| < fifoLen {
        txFifo := txFifo + [v];
      }
      assert original[..t + 1] == original[..t] + [v];
      assert sent + txFifo == (sent + x0) + [v];
    }

    method ReadFifo(len: nat)
      requires Exchange(tlen, rlen) && len <= |rxFifo|
      modifies pbuf, `txFifo, `rxFifo, `sent, `received
      ensures Exchange(tlen, rlen + len)
      ensures old(received) <= received
    {
      for i := 0 to len
        invariant Exchange(tlen, rlen + i) && len - i <= |rxFifo|
        invariant old(received) <= received
      {
        Pop(rlen + i);
        DeviceRuns(false, tlen, rlen + i + 1);
      }
    }

    /** A data-register read, stored at buffer position r. */
    method Pop(r: nat)
      requires Exchange(tlen, r) && rxFifo != []
      modifies pbuf, `rxFifo
      ensures Exchange(tlen, r + 1) && rxFifo == old(rxFifo)[1..]
    {
      assert |sent + txFifo| == tlen;
      assert received[r] == rxFifo[0];
      pbuf[r] := Narrow(dscale, rxFifo[0]);
      rxFifo := rxFifo[1..];
    }

    // ---------- interrupt handling ----------

    method ProcessInterrupts(txErr: bool, dataCollision: bool) returns (res: IntrResult)
      requires Running() && fifoLen >= FIFO_LEN_DIV
      modifies this`rlen, this`tlen, this`imr, this`enabled, this`rxThreshold, pbuf,
               `txFifo, `rxFifo, `sent, `received
      ensures res.Error? <==> txErr || dataCollision
      ensures res.Error? ==> !enabled && imr == NO_IRQS && Exchange(tlen, rlen)
      ensures res.Continue? ==> Running() && rlen >= old(rlen)
      ensures res.Continue? && old(RxIrq()) ==> rlen >= old(rlen) + old(rxThreshold) + 1
      ensures res.Continue? && old(txFifo) == [] ==> rlen >= old(rlen) + fifoLen / FIFO_LEN_DIV
      ensures res.Done? ==> Finished() && !enabled && imr == NO_IRQS
    {
      if txErr || dataCollision {
        enabled := false;
        imr := NO_IRQS;
        return Error;
      }
      var len := Drain();
      if rlen == xlen {
        enabled := false;
        imr := NO_IRQS;
        assert |sent + txFifo| == tlen;
        assert sent + txFifo == sent;
        return Done;
      }
      Refill(len);
      return Continue;
    }

    /** Stores everything the receive FIFO holds at one moment. */
    method Drain() returns (len: nat)
      requires Exchange(tlen, rlen)
      modifies `rlen, pbuf, `txFifo, `rxFifo, `sent, `received
      ensures Exchange(tlen, rlen) && rlen == old(rlen) + len && len >= |old(rxFifo)|
    {
      DeviceRuns(false, tlen, rlen);
      len := |rxFifo|;
      assert |sent + txFifo| == tlen;
      ReadFifo(len);
      rlen := rlen + len;
    }

    /** Queues as many words as were received; after the last one, waits for the remaining words. */
    method Refill(len: nat)
      requires Exchange(tlen, rlen) && rlen < xlen && fifoLen >= FIFO_LEN_DIV && enabled
      requires imr.rxFull && imr.rxUnder && imr.rxOver
      requires tlen < xlen ==> imr.txEmpty && imr.txOver && txThreshold == fifoLen / FIFO_LEN_DIV
      requires tlen < xlen ==> rxThreshold >= 0 && rxThreshold + 1 == tlen - rlen + len == fifoLen / FIFO_LEN_DIV
      modifies `tlen, `imr, `rxThreshold, `txFifo, `rxFifo, `sent, `received
      ensures Running()
    {
      if tlen < xlen {
        var n := Min(len, xlen - tlen);
        WriteFifo(n);
        tlen := tlen + n;
      }
      if tlen >= xlen {
        imr := imr.(txEmpty := false, txOver := false);
        var minlen := Min(xlen - rlen, fifoLen / FIFO_LEN_DIV);
        rxThreshold := minlen - 1;
      }
    }

    /** Wakes up once per element, then times out. An error bit ends the exchange; without one, each
        wake-up after the queued words were shifted brings half a FIFO of words, or the last ones. */
    method Wait(wakeups: seq<Wakeup>) returns (status: Status)
      requires Running() && fifoLen >= FIFO_LEN_DIV
      modifies this`rlen, this`tlen, this`imr, this`enabled, this`rxThreshold, pbuf,
               `txFifo, `rxFifo, `sent, `received
      ensures status == EOK || status == EIO || status == ETIMEDOUT
      ensures status == EOK ==> Finished()
      ensures status == EIO ==> !ErrorFree(wakeups)
      ensures status == ETIMEDOUT ==> ErrorFree(wakeups)
      ensures ErrorFree(wakeups) && Drained(wakeups) * (fifoLen / FIFO_LEN_DIV) >= xlen ==> status == EOK
    {
      ghost var half := fifoLen / FIFO_LEN_DIV;
      hide *;
      NoneDrained();
      for i := 0 to |wakeups|
        invariant Running() && ErrorFree(wakeups[..i])
        invariant rlen >= Drained(wakeups[..i]) * half
      {
        DrainedNext(wakeups, i, half);
        var res := WakeUp(wakeups[i]);
        match res
        case Continue =>
        case Done =>
          return EOK;
        case Error =>
          return EIO;
      }
      StillRunning();
      assert wakeups[..|wakeups|] == wakeups;
      return ETIMEDOUT;
    }

    lemma StillRunning()
      requires Running()
      ensures rlen < xlen
    {
    }

    /** One wake-up, after the controller has run for a while. */
    method WakeUp(u: Wakeup) returns (res: IntrResult)
      requires Running() && fifoLen >= FIFO_LEN_DIV
      modifies this`rlen, this`tlen, this`imr, this`enabled, this`rxThreshold, pbuf,
               `txFifo, `rxFifo, `sent, `received
      ensures res.Error? <==> u.txErr || u.dataCollision
      ensures res.Continue? ==> Running() && rlen >= old(rlen) + (if u.drained then fifoLen / FIFO_LEN_DIV else 0)
      ensures res.Done? ==> Finished()
    {
      DeviceRuns(u.drained, tlen, rlen);
      hide Exchange, Finished;
      res := ProcessInterrupts(u.txErr, u.dataCollision);
    }

    // ---------- the transfer ----------

    /** Word size and word count of a transfer of tnbytes out and rnbytes in. */
    method PrepareForTransfer(nbits: nat, clockRate: nat, tnbytes: nat, rnbytes: nat)
      returns (status: Status)
      modifies `dlen, `dscale, `xlen, `rlen, `tlen, `enabled
      ensures enabled == (old(enabled) && !(MIN_WORD_WIDTH < nbits <= MAX_WORD_WIDTH))
      ensures var nbytes := if tnbytes > rnbytes then tnbytes else rnbytes;
              && (status == EOK || status == EINVAL)
              && (status == EOK ==>
                    && MIN_WORD_WIDTH < nbits <= MAX_WORD_WIDTH && dlen == WordBytes(nbits) == Power2(dscale)
                    && xlen > 0 && xlen * dlen == nbytes && rlen == 0 && tlen == 0)
              && (status == EOK <==>
                    && MIN_WORD_WIDTH < nbits <= MAX_WORD_WIDTH && clockRate != 0
                    && nbytes > 0 && nbytes % WordBytes(nbits) == 0)
    {
      if nbits <= MIN_WORD_WIDTH || nbits > MAX_WORD_WIDTH {
        return EINVAL;
      }
      enabled := false;
      dlen := (nbits + 7) / 8;
      dscale := [0, 0, 1, 2, 2][dlen];
      if dlen == 3 {
        dlen := 4;
      }
      assert Power2(0) == 1 && Power2(1) == 2 && Power2(2) == 4;
      var nbytes := if tnbytes > rnbytes then tnbytes else rnbytes;
      xlen := nbytes / Power2(dscale);
      if xlen <= 0 || nbytes != xlen * Power2(dscale) {
        return EINVAL;
      }
      if clockRate == 0 {
        return EINVAL;
      }
      rlen, tlen := 0, 0;
      return EOK;
    }

    /** Resets the controller, queues the first half FIFO of words and sets the thresholds. */
    method Start()
      requires 0 < xlen <= pbuf.Length && tlen == 0 && rlen == 0 && fifoLen >= FIFO_LEN_DIV
      modifies `tlen, `imr, `enabled, `rxThreshold, `txThreshold,
               `txFifo, `rxFifo, `sent, `received, `original
      ensures Running() && original == pbuf[..]
    {
      hide Exchange, Running;
      DeviceReset();
      var len := Min(xlen, fifoLen / FIFO_LEN_DIV);
      WriteFifo(len);
      tlen := tlen + len;
      SetThresholds(len);
    }

    /** Disabling and enabling the controller empties its FIFOs. */
    method DeviceReset()
      requires xlen <= pbuf.Length
      modifies `enabled, `txFifo, `rxFifo, `sent, `received, `original
      ensures Exchange(0, 0) && enabled && original == pbuf[..]
    {
      txFifo, rxFifo, enabled := [], [], true;
      sent, received, original := [], [], pbuf[..];
    }

    /** Wait for the words queued so far; without more to queue, transmit interrupts stay off. */
    method SetThresholds(len: nat)
      requires Exchange(tlen, rlen) && rlen == 0 && enabled
      requires tlen == len == Min(xlen, fifoLen / FIFO_LEN_DIV) > 0
      modifies `imr, `rxThreshold, `txThreshold
      ensures Running()
    {
      rxThreshold := len - 1;
      if tlen < xlen {
        imr := ALL_IRQS;
        txThreshold := len;
      } else {
        imr := IrqMask(false, false, true, true, true);
      }
    }

    /** The whole exchange on a buffer of words of the prepared size. */
    method Xfer(buf: array<Word>, busy: bool, nbits: nat, clockRate: nat, tnbytes: nat, rnbytes: nat,
                wakeups: seq<Wakeup>) returns (status: Status)
      requires fifoLen >= FIFO_LEN_DIV
      requires MIN_WORD_WIDTH < nbits <= MAX_WORD_WIDTH ==>
                 tnbytes <= buf.Length * WordBytes(nbits) && rnbytes <= buf.Length * WordBytes(nbits)
      modifies this, buf
      ensures status == EBUSY <==> busy
      ensures var nbytes := if tnbytes > rnbytes then tnbytes else rnbytes;
              && (status == EINVAL <==>
                    !busy && !(&& MIN_WORD_WIDTH < nbits <= MAX_WORD_WIDTH && clockRate != 0
                               && nbytes > 0 && nbytes % WordBytes(nbits) == 0))
              && (status != EBUSY && status != EINVAL && ErrorFree(wakeups)
                  && Drained(wakeups) * (fifoLen / FIFO_LEN_DIV) * WordBytes(nbits) >= nbytes ==>
                    status == EOK)
      ensures status == EIO ==> !ErrorFree(wakeups)
      ensures status == ETIMEDOUT ==> ErrorFree(wakeups)
      ensures status == EBUSY || status == EINVAL ==> buf[..] == old(buf[..])
      ensures status == EBUSY ==> unchanged(this)
      ensures status == EOK ==>
                && pbuf == buf && Finished() && original == old(buf[..])
                && xlen * dlen == (if tnbytes > rnbytes then tnbytes else rnbytes)
      ensures status != EBUSY && status != EINVAL ==> !enabled
    {
      if busy {
        return EBUSY;
      }
      pbuf := buf;
      status := PrepareForTransfer(nbits, clockRate, tnbytes, rnbytes);
      if status != EOK {
        return;
      }
      if xlen > buf.Length {
        MulStrict(buf.Length, xlen, dlen);
      }
      if Drained(wakeups) * (fifoLen / FIFO_LEN_DIV) < xlen {
        MulStrict(Drained(wakeups) * (fifoLen / FIFO_LEN_DIV), xlen, dlen);
      }
      hide *;
      Start();
      status := Wait(wakeups);
      enabled := false;
    }
  }

  /** Bytes per buffer element for a given word width. */
  function WordBytes(nbits: nat): (b: nat)
    requires MIN_WORD_WIDTH < nbits <= MAX_WORD_WIDTH
    ensures b in {1, 2, 4} && nbits <= 8 * b
  {
    if nbits <= 8 then 1 else if nbits <= 16 then 2 else 4
  }

  /** Storing keeps the low bytes of a word, as many as an element has, so a word of the prepared width
      survives. */
  lemma {:induction false} NarrowExact(nbits: nat, dscale: nat, v: Word)
    requires MIN_WORD_WIDTH < nbits <= MAX_WORD_WIDTH && WordBytes(nbits) == Power2(dscale)
    ensures Narrow(dscale, v) < Power2(8 * WordBytes(nbits))
    ensures v < Power2(nbits) ==> Narrow(dscale, v) == v
    ensures (v - Narrow(dscale, v)) % Power2(8 * WordBytes(nbits)) == 0
  {
    PowersOfTwo(dscale);
    PowerGrows(nbits, 8 * WordBytes(nbits));
    hide Power2;
  }

  lemma {:induction false} PowerGrows(m: nat, n: nat)
    requires m <= n
    ensures Power2(m) <= Power2(n)
  {
    if m < n {
      PowerGrows(m, n - 1);
    }
  }

  lemma {:induction false} PowersOfTwo(d: nat)
    ensures Power2(8) == 0x100 && Power2(16) == 0x1_0000 && Power2(32) == 0x1_0000_0000
    ensures Power2(0) == 1 && Power2(1) == 2 && Power2(2) == 4
    ensures d > 2 ==> Power2(d) >= 8
  {
    assert Power2(4) == 16 && Power2(8) == 256;
    assert Power2(12) == 4096 && Power2(16) == 0x1_0000;
    assert Power2(20) == 0x10_0000 && Power2(24) == 0x100_0000;
    assert Power2(28) == 0x1000_0000 && Power2(32) == 0x1_0000_0000;
    assert Power2(3) == 8;
    if d > 2 {
      PowerGrows(3, d);
    }
  }

  lemma MulStrict(a: nat, b: nat, k: nat)
    requires k > 0 && a < b
    ensures a * k < b * k
  {
  }

  /** No stall: once the queued words of an unfinished exchange have been shifted, the receive
      interrupt is asserted. */
  lemma DrainedMeansInterrupt(spi: Spi)
    requires spi.Running() && spi.fifoLen >= FIFO_LEN_DIV && spi.txFifo == []
    ensures spi.RxIrq()
  {
    assert spi.sent + spi.txFifo == spi.sent;
  }

  /** No overrun: whatever the controller has and has not shifted, neither FIFO holds more than half
      its depth, and together they hold exactly the words in flight. */
  lemma FifosNeverOverrun(spi: Spi, t: nat, r: nat)
    requires spi.Exchange(t, r)
    ensures |spi.txFifo| + |spi.rxFifo| == t - r <= spi.fifoLen / FIFO_LEN_DIV
  {
    assert |spi.sent + spi.txFifo| == t;
  }
}
