/** The interrupt-driven transmit ring: USART_Write and Usart0IrqHandler as interleaved steps. */
module Usart {
  import opened Words

  const RING: nat := 256

  type Index = x: nat | x < 256

  /** The next step of USART_Write, or Idle between calls. */
  datatype Pc = Idle | ReadStatus | Compare | Direct | Wait | Store | Bump | Enable

  datatype Register = Empty | Full(byte: Byte)

  /** thr is the transmit holding register, whose emptiness is TXRDY; irq says whether the TXRDY
      interrupt is enabled; line is what was shifted out. */
  datatype State = State(buf: seq<Byte>, rptr: Index, wptr: Index, thr: Register, irq: bool,
                         pc: Pc, c: Byte, line: seq<Byte>)
  {
    ghost predicate Valid() { |buf| == RING }

    function Count(): (n: nat)
      ensures n < RING
    {
      (wptr - rptr) % RING
    }

    /** The bytes in the ring, oldest first. */
    ghost function Queue(): (q: seq<Byte>)
      requires Valid()
      ensures |q| == Count()
    {
      seq(Count(), i requires 0 <= i < Count() => Cell(buf, rptr, i))
    }

    /** Everything that was or will be shifted out, in order. */
    ghost function Stream(): seq<Byte>
      requires Valid()
    {
      line + (if thr.Full? then [thr.byte] else []) + Queue()
    }
  }

  /** The ring's byte i places behind index r. */
  function Cell(buf: seq<Byte>, r: Index, i: nat): Byte
    requires |buf| == RING
  {
    buf[(r + i) % RING]
  }

  /** Main is one step of USART_Write; Irq is the handler, which a received byte can trigger as
      well, so it may run at any time; Shift is the transmitter taking a byte from THR. */
  datatype Step = Main | Irq | Shift

  function Next(x: Index): Index { (x + 1) % RING }

  function Do(s: State, step: Step): (r: State)
    requires s.Valid()
    ensures r.Valid()
  {
    match step
    case Main => Write(s)
    case Irq => Handle(s)
    case Shift => if s.thr.Full? then s.(line := s.line + [s.thr.byte], thr := Empty) else s
  }

  function Handle(s: State): (r: State)
    requires s.Valid()
    ensures r.Valid()
  {
    if s.thr.Full? then s
    else if s.wptr != s.rptr then s.(thr := Full(s.buf[s.rptr]), rptr := Next(s.rptr))
    else s.(irq := false)
  }

  function Write(s: State): (r: State)
    requires s.Valid()
    ensures r.Valid()
  {
    match s.pc
    case Idle => s
    case ReadStatus => s.(pc := if s.thr.Empty? then Compare else Wait)
    case Compare => s.(pc := if s.wptr == s.rptr then Direct else Wait)
    case Direct => s.(thr := Full(s.c), pc := Enable)
    case Wait => if Next(s.wptr) == s.rptr then s else s.(pc := Store)
    case Store => s.(buf := s.buf[s.wptr := s.c], pc := Bump)
    case Bump => s.(wptr := Next(s.wptr), pc := Enable)
    case Enable => s.(irq := true, pc := Idle)
  }

  function Call(s: State, c: Byte): (r: State)
    requires s.Valid()
    ensures r.Valid()
  {
    s.(pc := ReadStatus, c := c)
  }

  function Run(s: State, steps: seq<Step>): (r: State)
    requires s.Valid()
    ensures r.Valid()
    decreases steps
  {
    if steps == [] then s else Run(Do(s, steps[0]), steps[1..])
  }

  // ---------- what every step keeps ----------

  /** The writer has room when it stores, the stored byte is the caller's, a direct write finds the
      ring empty, and a non-empty ring has the interrupt enabled or about to be. */
  ghost predicate Ok(s: State) {
    && s.Valid()
    && (s.pc == Store || s.pc == Bump ==> s.Count() < RING - 1)
    && (s.pc == Bump ==> s.buf[s.wptr] == s.c)
    && (s.pc == Direct ==> s.Count() == 0)
    && (s.Count() > 0 ==> s.irq || s.pc == Enable)
  }

  lemma StepKeepsOk(s: State, step: Step)
    requires Ok(s)
    ensures Ok(Do(s, step))
  {
  }

  /** No interleaving overfills the ring or loses a wake-up. */
  lemma {:induction false} RunKeepsOk(s: State, steps: seq<Step>)
    requires Ok(s)
    ensures Ok(Run(s, steps))
    decreases steps
  {
    if steps != [] {
      StepKeepsOk(s, steps[0]);
      RunKeepsOk(Do(s, steps[0]), steps[1..]);
    }
  }

  lemma TakeOne(s: State)
    requires s.Valid() && s.wptr != s.rptr
    ensures s.Queue() == [s.buf[s.rptr]] + s.(rptr := Next(s.rptr)).Queue()
  {
    var q, r := s.Queue(), s.(rptr := Next(s.rptr)).Queue();
    OneLess(s.rptr, s.wptr);
    assert q[0] == Cell(s.buf, s.rptr, 0) == s.buf[s.rptr];
    forall i | 0 <= i < |r|
      ensures q[i + 1] == r[i]
    {
      assert q[i + 1] == Cell(s.buf, s.rptr, i + 1) && r[i] == Cell(s.buf, Next(s.rptr), i);
      NextIndex(s.rptr, i);
    }
  }

  lemma OneLess(r: Index, w: Index)
    requires r != w
    ensures (w - r) % RING == (w - Next(r)) % RING + 1
  {
  }

  lemma NextIndex(r: Index, i: nat)
    ensures (r + (i + 1)) % RING == (Next(r) + i) % RING
  {
  }

  lemma PutOne(s: State)
    requires s.Valid() && s.Count() < RING - 1
    ensures s.(wptr := Next(s.wptr)).Queue() == s.Queue() + [s.buf[s.wptr]]
  {
    var q, r := s.Queue(), s.(wptr := Next(s.wptr)).Queue();
    OneMore(s.rptr, s.wptr);
    assert r[|q|] == Cell(s.buf, s.rptr, |q|) == s.buf[s.wptr];
  }

  lemma OneMore(r: Index, w: Index)
    requires (w - r) % RING < RING - 1
    ensures (Next(w) - r) % RING == (w - r) % RING + 1 && (r + (w - r) % RING) % RING == w
  {
  }

  /** Storing outside the queue does not change it. */
  lemma StoreOutside(s: State, c: Byte)
    requires s.Valid()
    ensures s.(buf := s.buf[s.wptr := c]).Queue() == s.Queue()
  {
    var q, r := s.Queue(), s.(buf := s.buf[s.wptr := c]).Queue();
    forall i | 0 <= i < |q|
      ensures r[i] == q[i]
    {
      NotTheEnd(s.rptr, s.wptr, i);
    }
  }

  lemma NotTheEnd(r: Index, w: Index, i: nat)
    requires i < (w - r) % RING
    ensures (r + i) % RING != w
  {
  }

  /** The direct write hits a byte that was not shifted out yet. */
  predicate Overwrites(s: State, step: Step) { step == Main && s.pc == Direct && s.thr.Full? }

  /** The step hands the byte of the current call over. */
  predicate Commits(s: State, step: Step) { step == Main && (s.pc == Direct || s.pc == Bump) }

  /** What a step does to the stream: only two steps of the writer add to it, and only the direct
      write can destroy a byte, the last one. */
  lemma StepStream(s: State, step: Step)
    requires Ok(s)
    ensures Do(s, step).Stream() == (if Overwrites(s, step) then s.line else s.Stream())
                                    + if Commits(s, step) then [s.c] else []
    ensures Overwrites(s, step) ==> s.Stream() == s.line + [s.thr.byte]
  {
    match step
    case Shift => ShiftStream(s);
    case Irq => IrqStream(s);
    case Main => if s.pc == Direct { DirectStream(s); } else { WriteQueue(s); }
  }

  lemma ShiftStream(s: State)
    requires Ok(s)
    ensures Do(s, Shift).Stream() == s.Stream()
  {
    assert Do(s, Shift).Queue() == s.Queue();
  }

  lemma IrqStream(s: State)
    requires Ok(s)
    ensures Do(s, Irq).Stream() == s.Stream()
  {
    if s.thr.Empty? && s.wptr != s.rptr {
      TakeOne(s);
      assert Do(s, Irq).Queue() == s.(rptr := Next(s.rptr)).Queue();
    } else {
      assert Do(s, Irq).Queue() == s.Queue();
    }
  }

  lemma DirectStream(s: State)
    requires Ok(s) && s.pc == Direct
    ensures Do(s, Main).Stream() == s.line + [s.c]
    ensures s.Stream() == s.line + if s.thr.Full? then [s.thr.byte] else []
  {
    assert s.Queue() == [] && Do(s, Main).Queue() == [];
  }

  lemma WriteQueue(s: State)
    requires Ok(s) && s.pc != Direct
    ensures Do(s, Main).Queue() == s.Queue() + if s.pc == Bump then [s.c] else []
  {
    if s.pc == Store { StoreOutside(s, s.c); }
    if s.pc == Bump { PutOne(s); }
  }

  // ---------- one call of USART_Write ----------

  /** The call has handed its byte over. */
  predicate Committed(s: State) { s.pc == Enable || s.pc == Idle }

  function Bit(b: bool): nat { if b then 1 else 0 }

  /** Bytes destroyed during a run. */
  function Lost(s: State, steps: seq<Step>): nat
    requires s.Valid()
    decreases steps
  {
    if steps == [] then 0 else Bit(Overwrites(s, steps[0])) + Lost(Do(s, steps[0]), steps[1..])
  }

  /** The byte a run from s to r hands over, if it does. */
  function Handed(s: State, r: State): seq<Byte> { if !Committed(s) && Committed(r) then [s.c] else [] }

  lemma CommittedStep(s: State, step: Step)
    requires Ok(s)
    ensures Do(s, step).c == s.c && (Committed(s) ==> Committed(Do(s, step)))
    ensures Commits(s, step) <==> !Committed(s) && Committed(Do(s, step))
  {
  }

  /** During a call the stream grows by the caller's byte and shrinks by what is overwritten,
      whatever the interleaving and however full the ring. */
  lemma {:induction false} CallAccount(s: State, steps: seq<Step>)
    requires Ok(s)
    ensures var r := Run(s, steps);
            && Ok(r) && (Committed(s) ==> Committed(r))
            && |r.Stream()| == |s.Stream()| + |Handed(s, r)| - Lost(s, steps)
            && (Lost(s, steps) == 0 ==> r.Stream() == s.Stream() + Handed(s, r))
    decreases steps
  {
    if steps != [] {
      StepKeepsOk(s, steps[0]);
      StepStream(s, steps[0]);
      CommittedStep(s, steps[0]);
      CallAccount(Do(s, steps[0]), steps[1..]);
    }
  }

  /** The direct path was entered with nothing in the ring and nothing in the register. */
  ghost predicate Quiet(s: State)
    requires s.Valid()
  {
    && (s.pc == ReadStatus || s.pc == Compare || s.pc == Direct ==> s.Count() == 0)
    && (s.pc == Compare || s.pc == Direct ==> s.thr.Empty?)
  }

  /** A call that starts with an empty ring overwrites nothing. */
  lemma {:induction false} QuietLosesNothing(s: State, steps: seq<Step>)
    requires Ok(s) && Quiet(s)
    ensures Lost(s, steps) == 0
    decreases steps
  {
    if steps != [] {
      StepKeepsOk(s, steps[0]);
      QuietLosesNothing(Do(s, steps[0]), steps[1..]);
    }
  }

  /** The transmitter and the handler take turns until n bytes of the ring are sent, and once more. */
  function Draining(n: nat): seq<Step> {
    if n == 0 then [Shift, Irq] else [Shift, Irq] + Draining(n - 1)
  }

  /** Between calls the interrupts alone send everything, in order, and the last one turns itself off. */
  lemma {:induction false} Drains(s: State)
    requires Ok(s) && s.pc == Idle
    ensures var r := Run(s, Draining(s.Count()));
            r.line == s.Stream() && r.thr.Empty? && r.Count() == 0 && !r.irq && r.pc == Idle
    decreases s.Count()
  {
    DrainOne(s);
    RunTwo(s, Shift, Irq);
    if s.Count() > 0 {
      Drains(Do(Do(s, Shift), Irq));
      RunSplits(s, [Shift, Irq], Draining(s.Count() - 1));
    }
  }

  lemma DrainOne(s: State)
    requires Ok(s) && s.pc == Idle
    ensures var r := Do(Do(s, Shift), Irq);
            && Ok(r) && r.pc == Idle && r.Stream() == s.Stream()
            && if s.Count() > 0 then r.Count() == s.Count() - 1
               else r.line == r.Stream() && r.thr.Empty? && r.Count() == 0 && !r.irq
  {
    var a := Do(s, Shift);
    StepStream(s, Shift);
    StepKeepsOk(s, Shift);
    StepStream(a, Irq);
    StepKeepsOk(a, Irq);
    if s.Count() > 0 { OneLess(s.rptr, s.wptr); }
  }

  /** A schedule under which a call made with n > 0 bytes in the ring loses one: the handler empties
      the ring between the writer's look at TXRDY and its look at the ring. */
  function Losing(n: nat): seq<Step>
    requires n > 0
  {
    if n == 1 then [Shift, Main, Irq, Main, Main, Main] else [Shift, Irq] + Losing(n - 1)
  }

  lemma {:induction false} LosingLoses(s: State)
    requires Ok(s) && s.pc == ReadStatus && s.Count() > 0
    ensures var r := Run(s, Losing(s.Count()));
            r.pc == Idle && |r.Stream()| == |s.Stream()|
    decreases s.Count()
  {
    var n := s.Count();
    var a := Do(s, Shift);
    StepStream(s, Shift);
    StepKeepsOk(s, Shift);
    if n == 1 {
      LastByteLost(a);
      RunSplits(s, [Shift], [Main, Irq, Main, Main, Main]);
      assert Losing(1) == [Shift] + [Main, Irq, Main, Main, Main];
    } else {
      StepStream(a, Irq);
      StepKeepsOk(a, Irq);
      var b := Do(a, Irq);
      assert b.Count() == n - 1;
      LosingLoses(b);
      RunSplits(s, [Shift, Irq], Losing(n - 1));
      assert Run(s, [Shift, Irq]) == b by { RunTwo(s, Shift, Irq); }
    }
  }

  lemma RunTwo(s: State, x: Step, y: Step)
    requires s.Valid()
    ensures Run(s, [x, y]) == Do(Do(s, x), y)
  {
    assert [x, y][1..] == [y];
    assert Run(Do(s, x), [y]) == Do(Do(s, x), y);
  }

  lemma {:induction false} RunSplits(s: State, a: seq<Step>, b: seq<Step>)
    requires s.Valid()
    ensures Run(s, a + b) == Run(Run(s, a), b)
    decreases a
  {
    if a == [] {
      assert a + b == b;
    } else {
      assert (a + b)[1..] == a[1..] + b;
      RunSplits(Do(s, a[0]), a[1..], b);
    }
  }

  lemma LastByteLost(s: State)
    requires Ok(s) && s.pc == ReadStatus && s.Count() == 1 && s.thr.Empty?
    ensures var r := Run(s, [Main, Irq, Main, Main, Main]);
            r.pc == Idle && |r.Stream()| == |s.Stream()|
  {
    var s2 := Do(Do(s, Main), Irq);
    var s4 := Do(Do(s2, Main), Main);
    StepsOfLoss(s);
    assert [Main, Irq, Main, Main, Main] == [Main, Irq] + [Main, Main] + [Main];
    RunTwo(s, Main, Irq);
    RunTwo(s2, Main, Main);
    RunSplits(s, [Main, Irq], [Main, Main]);
    RunSplits(s, [Main, Irq] + [Main, Main], [Main]);
  }

  lemma StepsOfLoss(s: State)
    requires Ok(s) && s.pc == ReadStatus && s.Count() == 1 && s.thr.Empty?
    ensures var r := Do(Do(Do(Do(Do(s, Main), Irq), Main), Main), Main);
            r.pc == Idle && |r.Stream()| == |s.Stream()|
  {
    var s2 := Do(Do(s, Main), Irq);
    var s5 := Do(Do(Do(s2, Main), Main), Main);
    OneLess(s.rptr, s.wptr);
    assert s2.rptr == s2.wptr && s2.pc == Compare;
    assert s5.Queue() == [] && s5.line == s.line && s5.thr == Full(s.c);
  }

  /** USART_Write is lossless under every interleaving exactly when it is called with an empty
      ring. */
  lemma CallIsSafe(s: State, c: Byte)
    requires Ok(s) && s.pc == Idle
    ensures (forall steps :: Run(Call(s, c), steps).pc == Idle ==>
               Run(Call(s, c), steps).Stream() == s.Stream() + [c])
        <==> s.Count() == 0
  {
    var t := Call(s, c);
    assert t.Queue() == s.Queue();
    if s.Count() == 0 {
      forall steps | Run(t, steps).pc == Idle
        ensures Run(t, steps).Stream() == s.Stream() + [c]
      {
        QuietLosesNothing(t, steps);
        CallAccount(t, steps);
      }
    } else {
      LosingLoses(t);
      assert Run(t, Losing(s.Count())).pc == Idle;
    }
  }

  // ---------- waiting for room ----------

  lemma RoomTest(s: State)
    requires s.Valid()
    ensures Next(s.wptr) == s.rptr <==> s.Count() == RING - 1
  {
  }

  lemma DrainStep(s: State, step: Step)
    requires Ok(s) && s.pc == Wait && step != Main
    ensures Do(s, step).pc == Wait && Do(s, step).Count() <= s.Count()
    ensures step == Irq && s.thr.Empty? && s.Count() > 0 ==> Do(s, step).Count() == s.Count() - 1
  {
  }

  /** While the writer waits, other steps never fill the ring. */
  lemma {:induction false} RingOnlyDrains(s: State, steps: seq<Step>)
    requires Ok(s) && s.pc == Wait && Main !in steps
    ensures Run(s, steps).pc == Wait && Run(s, steps).Count() <= s.Count()
    decreases steps
  {
    if steps != [] {
      StepKeepsOk(s, steps[0]);
      DrainStep(s, steps[0]);
      RingOnlyDrains(Do(s, steps[0]), steps[1..]);
    }
  }

  /** The transmitter and the handler make room. */
  lemma RoomMade(s: State)
    requires Ok(s) && s.pc == Wait
    ensures var r := Run(s, [Shift, Irq]);
            Ok(r) && r.pc == Wait && r.Count() < RING - 1
  {
    var a := Do(s, Shift);
    StepKeepsOk(s, Shift);
    StepKeepsOk(a, Irq);
    DrainStep(s, Shift);
    DrainStep(a, Irq);
    RunTwo(s, Shift, Irq);
  }

  /** A full ring has its interrupt enabled, so the transmitter and the handler make room, and the
      next step of the writer leaves the loop, whatever else happens in between. */
  lemma WaitEnds(s: State, before: seq<Step>, after: seq<Step>)
    requires Ok(s) && s.pc == Wait && Main !in before && Main !in after
    ensures Next(s.wptr) == s.rptr ==> s.irq
    ensures var r := Run(s, before + [Shift, Irq] + after);
            r.pc == Wait && Write(r).pc == Store
  {
    RoomTest(s);
    var a := Run(s, before);
    RunKeepsOk(s, before);
    RingOnlyDrains(s, before);
    RoomMade(a);
    var b := Run(a, [Shift, Irq]);
    RingOnlyDrains(b, after);
    RunSplits(s, before, [Shift, Irq]);
    RunSplits(s, before + [Shift, Irq], after);
    RoomTest(Run(b, after));
  }

  // ---------- many calls ----------

  /** A byte to write and how the steps interleave until the call returns. */
  datatype Writing = Writing(byte: Byte, steps: seq<Step>)

  /** The state after the first n calls. */
  function RunAll(s: State, calls: seq<Writing>, n: nat): (r: State)
    requires s.Valid() && n <= |calls|
    ensures r.Valid()
    decreases n, 0
  {
    if n == 0 then s else Run(Begun(s, calls, n - 1), calls[n - 1].steps)
  }

  /** Call number n has just been made. */
  function Begun(s: State, calls: seq<Writing>, n: nat): (r: State)
    requires s.Valid() && n < |calls|
    ensures r.Valid()
    decreases n, 1
  {
    Call(RunAll(s, calls, n), calls[n].byte)
  }

  /** Each call returns. */
  ghost predicate Returns(s: State, calls: seq<Writing>)
    requires s.Valid()
  {
    forall n :: 0 <= n <= |calls| ==> RunAll(s, calls, n).pc == Idle
  }

  /** Bytes destroyed by the first n calls. */
  function LostByAll(s: State, calls: seq<Writing>, n: nat): nat
    requires s.Valid() && n <= |calls|
  {
    if n == 0 then 0 else LostByAll(s, calls, n - 1) + Lost(Begun(s, calls, n - 1), calls[n - 1].steps)
  }

  function Bytes(calls: seq<Writing>, n: nat): (b: seq<Byte>)
    requires n <= |calls|
    ensures |b| == n
  {
    if n == 0 then [] else Bytes(calls, n - 1) + [calls[n - 1].byte]
  }

  /** Over any number of calls, any interleaving and any backlog in the ring, the bytes written reach
      the line in order and without duplication, less those that a direct write destroyed. */
  lemma {:induction false} CallsAccount(s: State, calls: seq<Writing>, n: nat)
    requires Ok(s) && Returns(s, calls) && n <= |calls|
    ensures var r := RunAll(s, calls, n);
            && Ok(r) && r.pc == Idle && |r.Stream()| == |s.Stream()| + n - LostByAll(s, calls, n)
            && (LostByAll(s, calls, n) == 0 ==> r.Stream() == s.Stream() + Bytes(calls, n))
  {
    assert RunAll(s, calls, n).pc == Idle;
    if n > 0 {
      CallsAccount(s, calls, n - 1);
      OneCall(RunAll(s, calls, n - 1), calls[n - 1]);
    }
  }

  lemma OneCall(s: State, w: Writing)
    requires Ok(s) && s.pc == Idle && Run(Call(s, w.byte), w.steps).pc == Idle
    ensures var t := Call(s, w.byte);
            var r := Run(t, w.steps);
            && Ok(r) && |r.Stream()| == |s.Stream()| + 1 - Lost(t, w.steps)
            && (Lost(t, w.steps) == 0 ==> r.Stream() == s.Stream() + [w.byte])
  {
    var t := Call(s, w.byte);
    assert t.Queue() == s.Queue();
    CallAccount(t, w.steps);
  }

  /** The line carries exactly the bytes written, in order, if and only if no direct write found a
      byte in the holding register. */
  lemma CallsInOrder(s: State, calls: seq<Writing>)
    requires Ok(s) && Returns(s, calls)
    ensures RunAll(s, calls, |calls|).Stream() == s.Stream() + Bytes(calls, |calls|)
       <==> LostByAll(s, calls, |calls|) == 0
  {
    CallsAccount(s, calls, |calls|);
  }

  // ---------- the variables of hardware.c ----------

  class Port {
    const txBuf: array<Byte>
    var rptr: Index
    var wptr: Index
    var thr: Register
    var irq: bool
    var pc: Pc
    var c: Byte
    var line: seq<Byte>

    constructor ()
      ensures txBuf.Length == RING && fresh(txBuf)
      ensures Ok(Abs()) && Abs().Stream() == [] && pc == Idle
    {
      txBuf := new Byte[RING];
      rptr, wptr, thr, irq, pc, c, line := 0, 0, Empty, false, Idle, 0, [];
    }

    ghost function Abs(): State
      reads this, txBuf
    {
      State(txBuf[..], rptr, wptr, thr, irq, pc, c, line)
    }

    /** The transmit part of Usart0IrqHandler. */
    method Usart0IrqHandler()
      requires Ok(Abs())
      modifies this`thr, this`rptr, this`irq
      ensures Abs() == Do(old(Abs()), Irq) && Ok(Abs())
    {
      StepKeepsOk(Abs(), Irq);
      if thr.Empty? {
        if wptr != rptr {
          thr := Full(txBuf[rptr]);
          rptr := (rptr + 1) % RING;
        } else {
          irq := false;
        }
      }
    }

    /** One step of USART_Write. */
    method WriteStep()
      requires Ok(Abs())
      modifies this`thr, this`wptr, this`irq, this`pc, txBuf
      ensures Abs() == Do(old(Abs()), Main) && Ok(Abs())
    {
      StepKeepsOk(Abs(), Main);
      match pc
      case Idle =>
      case ReadStatus => pc := if thr.Empty? then Compare else Wait;
      case Compare => pc := if wptr == rptr then Direct else Wait;
      case Direct => thr, pc := Full(c), Enable;
      case Wait => if (wptr + 1) % RING != rptr { pc := Store; }
      case Store =>
        txBuf[wptr] := c;
        pc := Bump;
      case Bump => wptr, pc := (wptr + 1) % RING, Enable;
      case Enable => irq, pc := true, Idle;
    }
  }
}
