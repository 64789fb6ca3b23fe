/**
  The receive mailbox between the UART listener thread and the CPU (main.c): SBUF holds a byte while RI is set.
  Every access to SCON or SBUF takes the mutex or is one load or store, so one access is one step, and steps of the
  two threads interleave in any order. The CPU is one thread: between the load and the store of an SCON update only
  the listener can act.
*/
module Uart {
  import opened Bits
  import opened Ramsfr
  import Interrupts

  /** The value of SCON the CPU has computed and not stored yet. */
  datatype Pending = Nothing | Ack(scon: byte) | Keep(scon: byte)

  datatype State = State(
    scon: byte,
    sbuf: byte,
    held: seq<byte>,    // the byte the listener has received and not stored yet
    seen: bool,         // the CPU found RI set and has not cleared it since
    read: bool,         // and it has read SBUF since
    pending: Pending,
    arrived: seq<byte>, // every byte the socket delivered
    taken: seq<byte>)   // every byte the CPU read

  datatype Step =
    | Recv(d: byte)     // recv() returns
    | Store             // one pass of the listener's retry loop
    | PollScon          // CPU reads SCON
    | ReadSbuf          // CPU reads SBUF, once for each time it sees RI
    | AckLoad           // CLR RI after that: readd(SCON) & ~RI
    | AckStore          //   writed
    | KeepLoad(x: byte) // any other update of SCON, which keeps RI as it loads it: CLR TI, the PCON hook, the TI poke
    | KeepStore         //   of a send; x gives the other digits
    | SendByte(d: byte) // a write to SBUF stores the byte in the one SBUF cell there is, before its TI poke

  predicate HasByte(s: State) {
    Bit(s.scon, RI)
  }

  predicate ByListener(step: Step) {
    step.Recv? || step.Store?
  }

  /** A CPU step other than the one its update waits for is none. */
  function Exec(step: Step, s: State): State {
    match step
    case Recv(d) => if s.held == [] then s.(held := [d], arrived := s.arrived + [d]) else s
    case Store =>
      if s.held != [] && !HasByte(s)
      then s.(sbuf := s.held[0], scon := UpdateBit(s.scon, RI, true), held := [])
      else s
    case AckStore =>
      if s.pending.Ack? then s.(scon := s.pending.scon, pending := Nothing, seen := false, read := false) else s
    case KeepStore => if s.pending.Keep? then s.(scon := s.pending.scon, pending := Nothing) else s
    case _ => if s.pending.Nothing? then ExecFree(step, s) else s
  }

  /** The CPU steps outside an update. */
  function ExecFree(step: Step, s: State): State {
    match step
    case PollScon => s.(seen := s.seen || HasByte(s))
    case ReadSbuf => if s.seen && !s.read then s.(taken := s.taken + [s.sbuf], read := true) else s
    case AckLoad => if s.read then s.(pending := Ack(UpdateBit(s.scon, RI, false))) else s
    case KeepLoad(x) => s.(pending := Keep(UpdateBit(x, RI, HasByte(s))))
    case SendByte(d) => s.(sbuf := d)
    case _ => s
  }

  function Run(steps: seq<Step>, s: State): State {
    if steps == [] then s else Run(steps[1..], Exec(steps[0], s))
  }

  predicate Unread(s: State) {
    HasByte(s) && !s.read
  }

  function Mailbox(s: State): seq<byte> {
    if Unread(s) then [s.sbuf] else []
  }

  /** Every byte is in exactly one place, in order: read by the CPU, unread in the mailbox, or with the listener. */
  predicate Conserved(s: State) {
    s.taken + Mailbox(s) + s.held == s.arrived
  }

  /** What every step keeps, sends and all. */
  predicate Shape(s: State) {
    && |s.held| <= 1
    && (s.seen ==> HasByte(s))
    && (s.read ==> s.seen)
    && (s.pending.Ack? ==> s.read && !Bit(s.pending.scon, RI))
    && (s.pending.Keep? && Bit(s.pending.scon, RI) ==> HasByte(s))
    && (s.pending.Keep? && s.seen ==> Bit(s.pending.scon, RI))
  }

  predicate Inv(s: State) {
    Shape(s) && Conserved(s)
  }

  lemma StepKeepsShape(step: Step, s: State)
    requires Shape(s)
    ensures Shape(Exec(step, s))
  {
    BitSetBit(s.scon, RI, true, RI);
    BitSetBit(s.scon, RI, false, RI);
    if step.KeepLoad? {
      BitSetBit(step.x, RI, HasByte(s), RI);
    }
  }

  // ----- which steps lose a byte -----

  /** A send may not overwrite an unread byte with another, nor an update store an RI the listener has changed. */
  predicate Safe(step: Step, s: State) {
    match step
    case SendByte(d) => s.pending.Nothing? && Unread(s) ==> s.sbuf == d
    case KeepStore => s.pending.Keep? ==> (HasByte(s) <==> Bit(s.pending.scon, RI))
    case _ => true
  }

  /** A step keeps the bytes exactly when it is safe. */
  lemma StepKeepsExactly(step: Step, s: State)
    requires Inv(s)
    ensures Inv(Exec(step, s)) <==> Safe(step, s)
  {
    StepKeepsShape(step, s);
    BitSetBit(s.scon, RI, true, RI);
    var e := Exec(step, s);
    if step.SendByte? && Conserved(e) && Unread(s) {
      assert (s.taken + Mailbox(s) + s.held)[|s.taken|] == (e.taken + Mailbox(e) + e.held)[|s.taken|];
    }
    if step.KeepStore? && Conserved(e) {
      assert |s.taken + Mailbox(s) + s.held| == |e.taken + Mailbox(e) + e.held|;
    }
  }

  /** Bytes that arrived and are in no place any more. */
  function Lost(s: State): int {
    |s.arrived| - |s.taken| - |Mailbox(s)| - |s.held|
  }

  /** No step brings a byte back, and each unsafe SCON store loses one. */
  lemma StepLoses(step: Step, s: State)
    requires Shape(s)
    ensures Lost(Exec(step, s)) == Lost(s) + if step.KeepStore? && !Safe(step, s) then 1 else 0
  {
    BitSetBit(s.scon, RI, true, RI);
    BitSetBit(s.scon, RI, false, RI);
  }

  predicate SendsSafe(steps: seq<Step>, s: State) {
    steps == [] || ((steps[0].SendByte? ==> Safe(steps[0], s)) && SendsSafe(steps[1..], Exec(steps[0], s)))
  }

  predicate AllSafe(steps: seq<Step>, s: State) {
    steps == [] || (Safe(steps[0], s) && AllSafe(steps[1..], Exec(steps[0], s)))
  }

  lemma {:induction false} LossIsFinal(steps: seq<Step>, s: State)
    requires Shape(s)
    ensures Shape(Run(steps, s)) && Lost(Run(steps, s)) >= Lost(s)
  {
    if steps != [] {
      StepKeepsShape(steps[0], s);
      StepLoses(steps[0], s);
      LossIsFinal(steps[1..], Exec(steps[0], s));
    }
  }

  /** All bytes are kept in the last state and in every state before it. */
  predicate KeptThroughout(steps: seq<Step>, s: State) {
    Inv(s) && (steps == [] || KeptThroughout(steps[1..], Exec(steps[0], s)))
  }

  /** In any interleaving all bytes are kept throughout exactly when no step is unsafe. */
  lemma {:induction false} KeptExactly(steps: seq<Step>, s: State)
    requires Inv(s)
    ensures KeptThroughout(steps, s) <==> AllSafe(steps, s)
  {
    if steps != [] {
      StepKeepsExactly(steps[0], s);
      if Safe(steps[0], s) {
        KeptExactly(steps[1..], Exec(steps[0], s));
      }
    }
  }

  /**
    Main theorem, over every interleaving of both threads with updates of SCON and sends: where no send overwrites an
    unread byte, all bytes are kept at the end exactly when no update stored an RI the listener had changed since its
    load. A byte lost that way stays lost, whatever follows.
  */
  lemma {:induction false} RunDeliversExactly(steps: seq<Step>, s: State)
    requires Inv(s) && SendsSafe(steps, s)
    ensures Inv(Run(steps, s)) <==> AllSafe(steps, s)
  {
    if steps != [] {
      var e := Exec(steps[0], s);
      StepKeepsExactly(steps[0], s);
      if Safe(steps[0], s) {
        RunDeliversExactly(steps[1..], e);
      } else {
        StepKeepsShape(steps[0], s);
        StepLoses(steps[0], s);
        LossIsFinal(steps[1..], e);
        NothingLost(s);
        if Conserved(Run(steps, s)) {
          NothingLost(Run(steps, s));
        }
      }
    }
  }

  lemma NothingLost(s: State)
    requires Conserved(s)
    ensures Lost(s) == 0
  {
    assert |s.taken + Mailbox(s) + s.held| == |s.arrived|;
  }

  predicate WritesSconToAckOnly(steps: seq<Step>) {
    forall t :: t in steps ==> !t.KeepStore? && !t.SendByte?
  }

  lemma {:induction false} AckOnlyIsSafe(steps: seq<Step>, s: State)
    requires WritesSconToAckOnly(steps)
    ensures AllSafe(steps, s) && SendsSafe(steps, s)
  {
    if steps != [] {
      assert steps[0] in steps;
      AckOnlyIsSafe(steps[1..], Exec(steps[0], s));
    }
  }

  /**
    However listener and CPU steps interleave, as long as the CPU writes SCON only to clear RI after reading SBUF and
    does not write SBUF, the bytes it read are the bytes that arrived, once each and in order, except for at most two
    still on the way.
  */
  lemma MailboxDelivers(steps: seq<Step>, s: State)
    requires Inv(s) && WritesSconToAckOnly(steps)
    ensures var e := Run(steps, s);
      Inv(e) && e.taken <= e.arrived && |e.arrived| <= |e.taken| + 2
  {
    AckOnlyIsSafe(steps, s);
    RunDeliversExactly(steps, s);
    var e := Run(steps, s);
    assert e.arrived[..|e.taken|] == e.taken;
  }

  // ----- one update and one send, whatever the listener does meanwhile -----

  predicate AllByListener(steps: seq<Step>) {
    forall t :: t in steps ==> ByListener(t)
  }

  lemma {:induction false} RunConcat(x: seq<Step>, y: seq<Step>, s: State)
    ensures Run(x + y, s) == Run(y, Run(x, s))
  {
    if x == [] {
      assert x + y == y;
    } else {
      assert (x + y)[1..] == x[1..] + y;
      RunConcat(x[1..], y, Exec(x[0], s));
    }
  }

  /** The listener alone loses nothing, touches nothing of the CPU's, and stores nothing over a byte in the mailbox. */
  lemma {:induction false} ListenerRun(steps: seq<Step>, s: State)
    requires Inv(s) && AllByListener(steps)
    ensures var e := Run(steps, s);
      && Inv(e) && e.pending == s.pending && e.read == s.read
      && (HasByte(s) ==> e.scon == s.scon && e.sbuf == s.sbuf)
  {
    if steps != [] {
      assert steps[0] in steps;
      StepKeepsExactly(steps[0], s);
      ListenerRun(steps[1..], Exec(steps[0], s));
    }
  }

  /** An SCON update with the listener in between. */
  function Update(x: byte, between: seq<Step>, s: State): State {
    Exec(KeepStore, Run(between, Exec(KeepLoad(x), s)))
  }

  /** It keeps the bytes exactly when the listener stores none in between. */
  lemma UpdateKeepsExactly(x: byte, between: seq<Step>, s: State)
    requires Inv(s) && s.pending.Nothing? && AllByListener(between)
    ensures Inv(Update(x, between, s)) <==> HasByte(s) || !HasByte(Run(between, Exec(KeepLoad(x), s)))
  {
    var s1 := Exec(KeepLoad(x), s);
    BitSetBit(x, RI, HasByte(s), RI);
    StepKeepsExactly(KeepLoad(x), s);
    ListenerRun(between, s1);
    StepKeepsExactly(KeepStore, Run(between, s1));
  }

  /** One more byte for the listener, and its store. */
  function Arrival(d: byte): seq<Step> {
    [Recv(d), Store]
  }

  lemma ArrivalStores(d: byte, s: State)
    requires Shape(s) && !HasByte(s)
    ensures AllByListener(Arrival(d)) && HasByte(Run(Arrival(d), s))
  {
    var s1 := Exec(Recv(d), s);
    BitSetBit(s1.scon, RI, true, RI);
    assert Arrival(d)[1..] == [Store] && [Store][1..] == [];
    assert Run([Store], s1) == Run([], Exec(Store, s1));
  }

  /**
    An update of SCON that is no acknowledgement (CLR TI, the PCON hook, the TI poke of a send) is safe against the
    listener exactly when RI is set as it starts.
  */
  lemma UpdateSafeExactly(x: byte, s: State)
    requires Inv(s) && s.pending.Nothing?
    ensures HasByte(s) <==> forall between: seq<Step> :: AllByListener(between) ==> Inv(Update(x, between, s))
  {
    if HasByte(s) {
      forall between: seq<Step> | AllByListener(between)
        ensures Inv(Update(x, between, s))
      {
        UpdateKeepsExactly(x, between, s);
      }
    } else {
      BitSetBit(x, RI, false, RI);
      StepKeepsExactly(KeepLoad(x), s);
      ArrivalStores(0, Exec(KeepLoad(x), s));
      UpdateKeepsExactly(x, Arrival(0), s);
    }
  }

  /** A whole write to SBUF: the byte, then the TI poke, with the listener before and inside the poke. */
  function Send(d: byte, x: byte, before: seq<Step>, between: seq<Step>, s: State): State {
    Update(x, between, Run(before, Exec(SendByte(d), s)))
  }

  /**
    A send keeps the received bytes exactly when it overwrites no unread byte by another and the listener stores none
    inside the TI poke. A byte read and not yet acknowledged is kept: the poke may run between the two.
  */
  lemma SendKeepsBytesExactly(d: byte, x: byte, before: seq<Step>, between: seq<Step>, s: State)
    requires Inv(s) && s.pending.Nothing? && AllByListener(before) && AllByListener(between)
    ensures var s1 := Run(before, Exec(SendByte(d), s));
      Inv(Send(d, x, before, between, s)) <==>
      && (Unread(s) ==> s.sbuf == d)
      && (HasByte(s1) || !HasByte(Run(between, Exec(KeepLoad(x), s1))))
  {
    var s0 := Exec(SendByte(d), s);
    var s1 := Run(before, s0);
    StepKeepsExactly(SendByte(d), s);
    if Inv(s0) {
      ListenerRun(before, s0);
      UpdateKeepsExactly(x, between, s1);
    } else {
      OverwrittenStays(d, x, before, between, s);
    }
  }

  lemma {:induction false} MailboxFull(steps: seq<Step>, s: State)
    requires AllByListener(steps) && HasByte(s) && |s.held| <= 1
    ensures var e := Run(steps, s); e == s.(held := e.held, arrived := e.arrived)
    ensures |Run(steps, s).held| <= 1 && s.arrived <= Run(steps, s).arrived
  {
    if steps != [] {
      assert steps[0] in steps;
      MailboxFull(steps[1..], Exec(steps[0], s));
    }
  }

  /** An unread byte a send overwrote is not in the mailbox at the end of the send either. */
  lemma OverwrittenStays(d: byte, x: byte, before: seq<Step>, between: seq<Step>, s: State)
    requires Inv(s) && s.pending.Nothing? && AllByListener(before) && AllByListener(between)
    requires Unread(s) && s.sbuf != d
    ensures !Conserved(Send(d, x, before, between, s))
  {
    var s0 := Exec(SendByte(d), s);
    var s1 := Run(before, s0);
    MailboxFull(before, s0);
    var s2 := Exec(KeepLoad(x), s1);
    MailboxFull(between, s2);
    var e := Exec(KeepStore, Run(between, s2));
    BitSetBit(x, RI, true, RI);
    assert e.taken == s.taken && Mailbox(e) == [d];
    assert s.arrived[|s.taken|] == s.sbuf by {
      assert (s.taken + Mailbox(s) + s.held)[|s.taken|] == s.sbuf;
    }
    assert e.arrived[|s.taken|] == s.arrived[|s.taken|];
    assert (e.taken + Mailbox(e) + e.held)[|s.taken|] == d;
  }

  /** A send is safe whatever the listener does exactly when RI is set and its byte was read or is the one sent. */
  lemma SendSafeExactly(d: byte, x: byte, s: State)
    requires Inv(s) && s.pending.Nothing?
    ensures HasByte(s) && (s.read || s.sbuf == d) <==>
      forall before: seq<Step>, between: seq<Step> :: AllByListener(before) && AllByListener(between) ==>
        Inv(Send(d, x, before, between, s))
  {
    if HasByte(s) && (s.read || s.sbuf == d) {
      forall before: seq<Step>, between: seq<Step> | AllByListener(before) && AllByListener(between)
        ensures Inv(Send(d, x, before, between, s))
      {
        SendKeepsBytesExactly(d, x, before, between, s);
        MailboxFull(before, Exec(SendByte(d), s));
      }
    } else if HasByte(s) {
      SendKeepsBytesExactly(d, x, [], [], s);
    } else {
      SendCanLoseAByte(d, x, 0, s);
      assert AllByListener([]) && AllByListener(Arrival(0));
    }
  }

  /** With RI clear a byte can arrive inside the TI poke, and it is lost. */
  lemma SendCanLoseAByte(d: byte, x: byte, r: byte, s: State)
    requires Inv(s) && s.pending.Nothing? && !HasByte(s)
    ensures !Inv(Send(d, x, [], Arrival(r), s))
    ensures s.held == [] ==> var e := Send(d, x, [], Arrival(r), s);
      e.arrived == s.arrived + [r] && e.taken + Mailbox(e) + e.held == s.arrived
  {
    var s1 := Exec(SendByte(d), s);
    var s2 := Exec(KeepLoad(x), s1);
    StepKeepsExactly(SendByte(d), s);
    BitSetBit(x, RI, false, RI);
    StepKeepsExactly(KeepLoad(x), s1);
    ArrivalStores(r, s2);
    SendKeepsBytesExactly(d, x, [], Arrival(r), s);
    var s3 := Exec(Recv(r), s2);
    assert Arrival(r)[1..] == [Store] && [Store][1..] == [];
    assert Run(Arrival(r), s2) == Run([Store], s3) == Run([], Exec(Store, s3));
  }

  // ----- the core's own memory -----

  /** SCON and SBUF are the core's cells. */
  predicate OnCore(s: State, c: Interrupts.Ctl) {
    s.scon == c.ram[SCON] && s.sbuf == c.ram[SBUF]
  }

  /** What a step does to the core: the listener's store goes past the notifiers, the CPU's stores do not. */
  function CoreStep(step: Step, s: State, c: Interrupts.Ctl): Interrupts.Ctl {
    match step
    case Store => if s.held == [] then c else Interrupts.Exec(Interrupts.Listener(s.held[0]), c)
    case AckStore => if s.pending.Ack? then Interrupts.Writed(c, SCON, s.pending.scon) else c
    case KeepStore => if s.pending.Keep? then Interrupts.Writed(c, SCON, s.pending.scon) else c
    case SendByte(d) => if s.pending.Nothing? then c.(ram := c.ram[SBUF := d]) else c
    case _ => c
  }

  function CoreRun(steps: seq<Step>, s: State, c: Interrupts.Ctl): Interrupts.Ctl {
    if steps == [] then c else CoreRun(steps[1..], Exec(steps[0], s), CoreStep(steps[0], s, c))
  }

  lemma StepOnCore(step: Step, s: State, c: Interrupts.Ctl)
    requires OnCore(s, c)
    ensures OnCore(Exec(step, s), CoreStep(step, s, c))
  {
    if step.AckStore? && s.pending.Ack? {
      Interrupts.WritedMemory(c, SCON, s.pending.scon);
    } else if step.KeepStore? && s.pending.Keep? {
      Interrupts.WritedMemory(c, SCON, s.pending.scon);
    } else if step.Store? && s.held != [] {
      Interrupts.ListenerStores(c, s.held[0]);
    }
  }

  /** So every interleaving of this module is one on the core's memory, and its theorems speak of that. */
  lemma {:induction false} RunOnCore(steps: seq<Step>, s: State, c: Interrupts.Ctl)
    requires OnCore(s, c)
    ensures OnCore(Run(steps, s), CoreRun(steps, s, c))
  {
    if steps != [] {
      StepOnCore(steps[0], s, c);
      RunOnCore(steps[1..], Exec(steps[0], s), CoreStep(steps[0], s, c));
    }
  }

  /** The core's whole write to SBUF leaves SCON and SBUF as a send without the listener does. */
  lemma SendOnCore(d: byte, s: State, c: Interrupts.Ctl)
    requires OnCore(s, c) && s.pending.Nothing?
    ensures OnCore(Send(d, UpdateBit(s.scon, TI, true), [], [], s), Interrupts.WriteSbuf(c, d))
  {
    Interrupts.WriteSbufMemory(c, d);
    BitSetBit(s.scon, TI, true, RI);
    SetBitSame(UpdateBit(s.scon, TI, true), RI);
  }

  /** Its CLR RI leaves them as an acknowledgement without the listener does. */
  lemma AckOnCore(s: State, c: Interrupts.Ctl)
    requires OnCore(s, c) && s.pending.Nothing? && s.read
    ensures OnCore(Exec(AckStore, Exec(AckLoad, s)), c.(ram := WriteB(c.ram, 0x98, false)))
  {
    ByteOfRange(0x98);
  }

  // ----- nothing waits for ever -----

  /** What the CPU does for one byte: see RI, read SBUF, clear RI. */
  const SERVICE: seq<Step> := [PollScon, ReadSbuf, AckLoad, AckStore]

  /** An unread byte is read by one service, which empties the mailbox for the listener's next store. */
  lemma ServiceTakes(s: State)
    requires Shape(s) && s.pending.Nothing? && Unread(s)
    ensures var e := Run(SERVICE, s);
      && e.taken == s.taken + [s.sbuf] && !HasByte(e) && !e.read && e.pending.Nothing?
      && e.held == s.held && e.arrived == s.arrived
  {
    var s1 := Exec(PollScon, s);
    var s2 := Exec(ReadSbuf, s1);
    var s3 := Exec(AckLoad, s2);
    BitSetBit(s2.scon, RI, false, RI);
    assert SERVICE[1..] == [ReadSbuf, AckLoad, AckStore];
    assert SERVICE[1..][1..] == [AckLoad, AckStore];
    assert SERVICE[1..][1..][1..] == [AckStore];
    assert SERVICE[1..][1..][1..][1..] == [];
    assert Run([AckStore], s3) == Run([], Exec(AckStore, s3));
    assert Run([AckLoad, AckStore], s2) == Run([AckStore], s3);
    assert Run([ReadSbuf, AckLoad, AckStore], s1) == Run([AckLoad, AckStore], s2);
    assert Run(SERVICE, s) == Run([ReadSbuf, AckLoad, AckStore], s1);
  }

  /** Bytes arriving one after the other, each stored and serviced. */
  function Deliveries(bytes: seq<byte>): seq<Step> {
    if bytes == [] then [] else Arrival(bytes[0]) + SERVICE + Deliveries(bytes[1..])
  }

  /** With an empty mailbox such a run delivers all of them. */
  lemma {:induction false} DeliversAll(bytes: seq<byte>, s: State)
    requires Inv(s) && s.pending.Nothing? && !HasByte(s) && s.held == []
    ensures Run(Deliveries(bytes), s).taken == s.taken + bytes
  {
    if bytes == [] {
      assert s.taken + bytes == s.taken;
    } else {
      var s1, rest := Run(Arrival(bytes[0]), s), Deliveries(bytes[1..]);
      ArrivalStored(bytes[0], s);
      ServiceTakes(s1);
      var s2 := Run(SERVICE, s1);
      RunConcat(Arrival(bytes[0]), SERVICE, s);
      RunConcat(Arrival(bytes[0]) + SERVICE, rest, s);
      assert WritesSconToAckOnly(Arrival(bytes[0]) + SERVICE);
      MailboxDelivers(Arrival(bytes[0]) + SERVICE, s);
      DeliversAll(bytes[1..], s2);
      assert s.taken + [bytes[0]] + bytes[1..] == s.taken + bytes;
    }
  }

  lemma ArrivalStored(d: byte, s: State)
    requires Shape(s) && s.pending.Nothing? && !HasByte(s) && s.held == []
    ensures var e := Run(Arrival(d), s);
      Shape(e) && Unread(e) && e.sbuf == d && e.pending.Nothing? && e.taken == s.taken && e.held == []
  {
    var s1 := Exec(Recv(d), s);
    BitSetBit(s1.scon, RI, true, RI);
    StepKeepsShape(Recv(d), s);
    StepKeepsShape(Store, s1);
    assert Arrival(d)[1..] == [Store] && [Store][1..] == [];
    assert Run([Store], s1) == Run([], Exec(Store, s1));
  }
}
