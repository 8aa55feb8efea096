/**
  btchip_reader.go and btapp_reader.go: three threads and the queue of commands
  to the Bluetooth chip. The app reader enqueues commands and clears the queue on
  a reset; the chip reader clears the queue on a hard reset and signals a
  response; the writer takes a command, writes it and waits for a signal.

  One step of the machine is one access to what the threads share: the queue, the
  variable `btchipReq`, or the unbuffered channel `btchipResp`. The writer's
  `for btchipReq = range btchipQueue` is two of them: it receives a command and
  then stores it in the variable. `Wrote` is the reading of the variable for the
  write; the write itself ends before the writer waits.
 */
module Handshake {
  import opened Bytes

  const CAPACITY: nat := 100

  /** Commands are numbered in the order in which they enter the queue. */
  type Slot = nat

  datatype AppPc = AppIdle | AppClearing | AppForgetting | AppSignalling | AppAdding(left: nat)
  datatype ChipPc = ChipIdle | ChipClearing | ChipForgetting | ChipSignalling
  datatype WriterPc = AtQueue | Holding(slot: Slot) | Stored | Written | Waiting

  datatype State = State(
    app: AppPc, chip: ChipPc, writer: WriterPc,
    queue: seq<Slot>, added: nat, req: Option<Slot>)

  datatype Event =
    | Enqueued(slot: Slot)
    | Dropped(slot: Slot)
    | Took(slot: Slot)
    | Assigned(slot: Slot)
    | Forgot
    | Wrote(req: Option<Slot>)
    | Signalled
    | Ignored
    | Internal

  const INIT: State := State(AppIdle, ChipIdle, AtQueue, [], 0, None)

  /** `<-btchipQueue`: what is left of the queue. */
  ghost predicate Receives(s: State, s': State, slot: Slot) {
    s.queue != [] && slot == s.queue[0] && s'.queue == s.queue[1..]
  }

  /** The sending half of `btchipRespClear`: only a waiting writer gets it. */
  ghost predicate Sends(s: State, e: Event, s': State) {
    if s.writer == Waiting then e == Signalled && s'.writer == AtQueue
    else e == Ignored && s'.writer == s.writer
  }

  ghost predicate AppStep(s: State, e: Event, s': State) {
    match s.app
    case AppIdle =>
      e == Internal && s'.app in {AppClearing, AppAdding(1), AppAdding(2)} && s' == s.(app := s'.app)
    case AppClearing =>
      if s.queue == [] then e == Internal && s' == s.(app := AppForgetting)
      else e.Dropped? && Receives(s, s', e.slot) && s' == s.(queue := s'.queue)
    case AppForgetting =>
      e == Forgot && s' == s.(app := AppSignalling, req := None)
    case AppSignalling =>
      Sends(s, e, s') && s' == s.(app := AppAdding(1), writer := s'.writer)
    case AppAdding(left) =>
      if left == 0 then e == Internal && s' == s.(app := AppIdle)
      else
        && |s.queue| < CAPACITY && e == Enqueued(s.added)
        && s' == s.(app := AppAdding(left - 1), queue := s.queue + [s.added], added := s.added + 1)
  }

  ghost predicate ChipStep(s: State, e: Event, s': State) {
    match s.chip
    case ChipIdle =>
      e == Internal && s'.chip in {ChipClearing, ChipForgetting} && s' == s.(chip := s'.chip)
    case ChipClearing =>
      if s.queue == [] then e == Internal && s' == s.(chip := ChipIdle)
      else e.Dropped? && Receives(s, s', e.slot) && s' == s.(queue := s'.queue)
    case ChipForgetting =>
      e == Forgot && s' == s.(chip := ChipSignalling, req := None)
    case ChipSignalling =>
      Sends(s, e, s') && s' == s.(chip := ChipIdle, writer := s'.writer)
  }

  ghost predicate WriterStep(s: State, e: Event, s': State) {
    match s.writer
    case AtQueue =>
      e.Took? && Receives(s, s', e.slot) && s' == s.(writer := Holding(e.slot), queue := s'.queue)
    case Holding(slot) =>
      e == Assigned(slot) && s' == s.(writer := Stored, req := Some(slot))
    case Stored =>
      e == Wrote(s.req) && s' == s.(writer := Written)
    case Written =>
      e == Internal && s' == s.(writer := Waiting)
    case Waiting =>
      false
  }

  ghost predicate Step(s: State, e: Event, s': State) {
    AppStep(s, e, s') || ChipStep(s, e, s') || WriterStep(s, e, s')
  }

  function Front(trace: seq<Event>): seq<Event>
    requires trace != []
  {
    trace[..|trace| - 1]
  }

  function Last(trace: seq<Event>): Event
    requires trace != []
  {
    trace[|trace| - 1]
  }

  /** Some interleaving of the threads produces `trace` between the two states. */
  ghost predicate Path(start: State, trace: seq<Event>, s: State)
    decreases |trace|
  {
    if trace == [] then s == start
    else exists before :: Path(start, Front(trace), before) && Step(before, Last(trace), s)
  }

  ghost predicate Run(trace: seq<Event>, s: State) {
    Path(INIT, trace, s)
  }

  // ----- what the invariants speak about -----------------------------------

  predicate IsReceive(e: Event) {
    e.Dropped? || e.Took?
  }

  /** How many commands have left the queue. */
  function Received(trace: seq<Event>): nat {
    if trace == [] then 0
    else Received(trace[..|trace| - 1]) + (if IsReceive(trace[|trace| - 1]) then 1 else 0)
  }

  /** The command last assigned, unless it has been forgotten since. */
  function Pending(trace: seq<Event>): Option<Slot> {
    if trace == [] then None
    else
      match trace[|trace| - 1]
      case Assigned(slot) => Some(slot)
      case Forgot => None
      case _ => Pending(trace[..|trace| - 1])
  }

  /** Each write is followed by a signal, each signal by a write. */
  ghost predicate WritesAnswered(trace: seq<Event>) {
    forall i :: 0 <= i < |trace| && trace[i].Wrote? ==> exists k :: i < k < |trace| && trace[k].Signalled?
  }

  ghost predicate SignalsUsed(trace: seq<Event>) {
    forall i :: 0 <= i < |trace| && trace[i].Signalled? ==> exists k :: i < k < |trace| && trace[k].Wrote?
  }

  /** Between any two writes the writer got a signal, and the other way round. */
  ghost predicate Alternates(trace: seq<Event>) {
    && (forall i, j :: 0 <= i < j < |trace| && trace[i].Wrote? && trace[j].Wrote? ==>
          exists k :: i < k < j && trace[k].Signalled?)
    && (forall i, j :: 0 <= i < j < |trace| && trace[i].Signalled? && trace[j].Signalled? ==>
          exists k :: i < k < j && trace[k].Wrote?)
  }

  /** The n-th command to leave the queue is the n-th that entered it. */
  ghost predicate InOrder(trace: seq<Event>) {
    forall i :: 0 <= i < |trace| && IsReceive(trace[i]) ==> trace[i].slot == Received(trace[..i])
  }

  /** A command is assigned after it was taken and before the next is taken. */
  ghost predicate AssignsTaken(trace: seq<Event>) {
    forall j :: 0 <= j < |trace| && trace[j].Assigned? ==> LastTook(trace[..j]) == Some(trace[j].slot)
  }

  /** The command last taken from the queue. */
  function LastTook(trace: seq<Event>): Option<Slot> {
    if trace == [] then None
    else if trace[|trace| - 1].Took? then Some(trace[|trace| - 1].slot)
    else LastTook(trace[..|trace| - 1])
  }

  ghost predicate WritesPending(trace: seq<Event>) {
    forall i :: 0 <= i < |trace| && trace[i].Wrote? ==> trace[i].req == Pending(trace[..i])
  }

  /** Every command written was taken before and is written once, in the order
      of the queue; `bound` is above all of them. */
  ghost predicate WritesAscend(trace: seq<Event>, bound: nat) {
    && (forall i :: 0 <= i < |trace| && trace[i].Wrote? && trace[i].req.Some? ==> trace[i].req.value < bound)
    && (forall i, j ::
          && 0 <= i < j < |trace| && trace[i].Wrote? && trace[j].Wrote?
          && trace[i].req.Some? && trace[j].req.Some?
          ==> trace[i].req.value < trace[j].req.value)
  }

  predicate BeforeWrite(w: WriterPc) {
    w == AtQueue || w.Holding? || w == Stored
  }

  /** Above every command written so far, and not above the one in hand. */
  function Bound(received: nat, s: State): nat {
    if s.writer.Holding? then s.writer.slot
    else if s.writer == Stored && s.req.Some? then s.req.value
    else received
  }

  ghost predicate Inv(trace: seq<Event>, s: State) {
    && Alternates(trace)
    && (if BeforeWrite(s.writer) then WritesAnswered(trace) else SignalsUsed(trace))
    && InOrder(trace)
    && AssignsTaken(trace)
    && (s.writer.Holding? ==> LastTook(trace) == Some(s.writer.slot))
    && s.req == Pending(trace)
    && WritesPending(trace)
    && WritesAscend(trace, Bound(Received(trace), s))
    && Counts(Received(trace), s)
  }

  /** The queue holds the commands after the first `received`. */
  ghost predicate Counts(received: nat, s: State) {
    && |s.queue| <= CAPACITY
    && s.added == received + |s.queue|
    && (forall i :: 0 <= i < |s.queue| ==> s.queue[i] == received + i)
    && (s.req.Some? ==> s.req.value < received)
    && (s.writer.Holding? ==> s.writer.slot < received)
  }

  // ----- one step ----------------------------------------------------------

  lemma Appended(trace: seq<Event>, e: Event)
    ensures var longer := trace + [e];
            && longer[..|trace|] == trace && longer[|trace|] == e
            && Received(longer) == Received(trace) + (if IsReceive(e) then 1 else 0)
            && Pending(longer) == (if e.Assigned? then Some(e.slot) else if e.Forgot? then None else Pending(trace))
            && LastTook(longer) == (if e.Took? then Some(e.slot) else LastTook(trace))
            && forall i :: 0 <= i < |trace| ==> longer[i] == trace[i] && longer[..i] == trace[..i]
  {
    assert (trace + [e])[..|trace|] == trace;
    forall i | 0 <= i < |trace|
      ensures (trace + [e])[..i] == trace[..i]
    {}
  }

  lemma AlternatesAppend(trace: seq<Event>, e: Event)
    requires Alternates(trace)
    requires e.Wrote? ==> WritesAnswered(trace)
    requires e.Signalled? ==> SignalsUsed(trace)
    ensures Alternates(trace + [e])
  {
    var longer, n := trace + [e], |trace|;
    assert forall i :: 0 <= i < n ==> longer[i] == trace[i];
    forall i, j | 0 <= i < j < n + 1 && longer[i].Wrote? && longer[j].Wrote?
      ensures exists k :: i < k < j && longer[k].Signalled?
    {
      assert trace[i].Wrote?;
      var k :| i < k < j && trace[k].Signalled?;
      assert longer[k].Signalled?;
    }
    forall i, j | 0 <= i < j < n + 1 && longer[i].Signalled? && longer[j].Signalled?
      ensures exists k :: i < k < j && longer[k].Wrote?
    {
      assert trace[i].Signalled?;
      var k :| i < k < j && trace[k].Wrote?;
      assert longer[k].Wrote?;
    }
  }

  lemma AnsweredAppend(trace: seq<Event>, e: Event)
    ensures e.Signalled? || (WritesAnswered(trace) && !e.Wrote?) ==> WritesAnswered(trace + [e])
  {
    var longer, n := trace + [e], |trace|;
    assert longer[n] == e && forall i :: 0 <= i < n ==> longer[i] == trace[i];
    if WritesAnswered(trace) && !e.Wrote? {
      forall i | 0 <= i < n + 1 && longer[i].Wrote?
        ensures exists k :: i < k < n + 1 && longer[k].Signalled?
      {
        var k :| i < k < n && trace[k].Signalled?;
        assert longer[k].Signalled?;
      }
    }
  }

  lemma UsedAppend(trace: seq<Event>, e: Event)
    ensures e.Wrote? || (SignalsUsed(trace) && !e.Signalled?) ==> SignalsUsed(trace + [e])
  {
    var longer, n := trace + [e], |trace|;
    assert longer[n] == e && forall i :: 0 <= i < n ==> longer[i] == trace[i];
    if SignalsUsed(trace) && !e.Signalled? {
      forall i | 0 <= i < n + 1 && longer[i].Signalled?
        ensures exists k :: i < k < n + 1 && longer[k].Wrote?
      {
        var k :| i < k < n && trace[k].Wrote?;
        assert longer[k].Wrote?;
      }
    }
  }

  lemma OrderAppend(trace: seq<Event>, e: Event)
    requires InOrder(trace) && (IsReceive(e) ==> e.slot == Received(trace))
    ensures InOrder(trace + [e])
  {
    hide Received;
    Appended(trace, e);
  }

  lemma AssignsAppend(trace: seq<Event>, e: Event)
    requires AssignsTaken(trace) && (e.Assigned? ==> LastTook(trace) == Some(e.slot))
    ensures AssignsTaken(trace + [e])
  {
    hide LastTook;
    Appended(trace, e);
  }

  lemma PendingAppend(trace: seq<Event>, e: Event)
    requires WritesPending(trace) && (e.Wrote? ==> e.req == Pending(trace))
    ensures WritesPending(trace + [e])
  {
    hide Pending;
    Appended(trace, e);
  }

  lemma AscendAppend(trace: seq<Event>, e: Event, bound: nat, bound': nat)
    requires WritesAscend(trace, bound) && bound <= bound'
    requires e.Wrote? && e.req.Some? ==> bound <= e.req.value < bound'
    ensures WritesAscend(trace + [e], bound')
  {
    hide Received, Pending, LastTook;
    Appended(trace, e);
  }

  lemma AppCounts(received: nat, s: State, e: Event, s': State)
    requires Counts(received, s) && AppStep(s, e, s')
    ensures IsReceive(e) ==> e.slot == received
    ensures Counts(received + (if IsReceive(e) then 1 else 0), s')
  {}

  lemma ChipCounts(received: nat, s: State, e: Event, s': State)
    requires Counts(received, s) && ChipStep(s, e, s')
    ensures IsReceive(e) ==> e.slot == received
    ensures Counts(received + (if IsReceive(e) then 1 else 0), s')
  {}

  lemma WriterCounts(received: nat, s: State, e: Event, s': State)
    requires Counts(received, s) && WriterStep(s, e, s')
    ensures IsReceive(e) ==> e.slot == received
    ensures Counts(received + (if IsReceive(e) then 1 else 0), s')
  {}

  /** What a step does to the writer, the variable and the queue. */
  lemma StepCounts(received: nat, s: State, e: Event, s': State)
    requires Counts(received, s) && Step(s, e, s')
    ensures IsReceive(e) ==> e.slot == received
    ensures Counts(received + (if IsReceive(e) then 1 else 0), s')
  {
    hide Counts, AppStep, ChipStep, WriterStep;
    if AppStep(s, e, s') {
      AppCounts(received, s, e, s');
    } else if ChipStep(s, e, s') {
      ChipCounts(received, s, e, s');
    } else {
      WriterCounts(received, s, e, s');
    }
  }

  lemma StepBound(received: nat, s: State, e: Event, s': State)
    requires Counts(received, s) && Step(s, e, s')
    ensures var bound' := Bound(received + (if IsReceive(e) then 1 else 0), s');
            Bound(received, s) <= bound' && (e.Wrote? && e.req.Some? ==> Bound(received, s) <= e.req.value < bound')
  {}

  lemma StepWriter(s: State, e: Event, s': State)
    requires Step(s, e, s')
    ensures e.Wrote? ==> BeforeWrite(s.writer) && !BeforeWrite(s'.writer) && e.req == s.req
    ensures e.Signalled? ==> !BeforeWrite(s.writer) && BeforeWrite(s'.writer)
    ensures !e.Wrote? && !e.Signalled? ==> BeforeWrite(s'.writer) == BeforeWrite(s.writer)
    ensures e.Assigned? ==> s.writer == Holding(e.slot)
    ensures s'.writer.Holding? ==> e == Took(s'.writer.slot) || (s'.writer == s.writer && !e.Took?)
    ensures s'.req == if e.Assigned? then Some(e.slot) else if e.Forgot? then None else s.req
  {}

  lemma InvStep(trace: seq<Event>, s: State, e: Event, s': State)
    requires Inv(trace, s) && Step(s, e, s')
    ensures Inv(trace + [e], s')
  {
    hide Alternates, WritesAnswered, SignalsUsed, InOrder, AssignsTaken, WritesPending, WritesAscend;
    hide Received, Pending, LastTook, Step, Counts, Bound, BeforeWrite;
    Appended(trace, e);
    StepCounts(Received(trace), s, e, s');
    StepBound(Received(trace), s, e, s');
    StepWriter(s, e, s');
    AlternatesAppend(trace, e);
    AnsweredAppend(trace, e);
    UsedAppend(trace, e);
    OrderAppend(trace, e);
    AssignsAppend(trace, e);
    PendingAppend(trace, e);
    AscendAppend(trace, e, Bound(Received(trace), s), Bound(Received(trace + [e]), s'));
  }

  lemma {:induction false} RunInv(trace: seq<Event>, s: State)
    requires Run(trace, s)
    ensures Inv(trace, s)
    decreases |trace|
  {
    if trace != [] {
      var before :| Run(Front(trace), before) && Step(before, Last(trace), s);
      RunInv(Front(trace), before);
      InvStep(Front(trace), before, Last(trace), s);
      assert trace == Front(trace) + [Last(trace)];
    }
  }

  // ----- what holds of every run -------------------------------------------

  /** One command at a time: between two writes a waiting writer was signalled,
      exactly once, and every signal that reached it followed a write. */
  lemma OneCommandAtATime(trace: seq<Event>, s: State, i: nat, j: nat)
    requires Run(trace, s)
    requires i < j < |trace| && trace[i].Wrote? && trace[j].Wrote?
    requires forall k :: i < k < j ==> !trace[k].Wrote?
    ensures exists k :: i < k < j && trace[k].Signalled?
                        && forall m :: i < m < j && trace[m].Signalled? ==> m == k
  {
    hide Alternates, Run, InOrder, WritesPending, WritesAscend;
    RunInv(trace, s);
    OneSignalBetween(trace, i, j);
  }

  lemma OneSignalBetween(trace: seq<Event>, i: nat, j: nat)
    requires Alternates(trace)
    requires i < j < |trace| && trace[i].Wrote? && trace[j].Wrote?
    requires forall k :: i < k < j ==> !trace[k].Wrote?
    ensures exists k :: i < k < j && trace[k].Signalled?
                        && forall m :: i < m < j && trace[m].Signalled? ==> m == k
  {
    hide Alternates;
    var k := SignalBetween(trace, i, j);
    forall m | i < m < j && trace[m].Signalled?
      ensures m == k
    {
      if m < k {
        var w := WriteBetween(trace, m, k);
        assert false;
      } else if k < m {
        var w := WriteBetween(trace, k, m);
        assert false;
      }
    }
  }

  lemma SignalBetween(trace: seq<Event>, i: nat, j: nat) returns (k: nat)
    requires Alternates(trace) && i < j < |trace| && trace[i].Wrote? && trace[j].Wrote?
    ensures i < k < j && trace[k].Signalled?
  {
    k :| i < k < j && trace[k].Signalled?;
  }

  lemma WriteBetween(trace: seq<Event>, i: nat, j: nat) returns (k: nat)
    requires Alternates(trace) && i < j < |trace| && trace[i].Signalled? && trace[j].Signalled?
    ensures i < k < j && trace[k].Wrote?
  {
    k :| i < k < j && trace[k].Wrote?;
  }

  /** Signals do not pile up: at any time the writer has been signalled as often
      as it has written, or once less. */
  lemma {:induction false} SignalsDoNotAccumulate(trace: seq<Event>, s: State)
    requires Run(trace, s)
    ensures Count(trace, true) == Count(trace, false) + (if BeforeWrite(s.writer) then 0 else 1)
    decreases |trace|
  {
    hide Step, BeforeWrite;
    if trace == [] {
      StartsBeforeWrite();
    } else {
      var before :| Run(Front(trace), before) && Step(before, Last(trace), s);
      SignalsDoNotAccumulate(Front(trace), before);
      StepWriter(before, Last(trace), s);
    }
  }

  lemma StartsBeforeWrite()
    ensures BeforeWrite(INIT.writer)
  {}

  /** How many writes, or delivered signals, a trace contains. */
  function Count(trace: seq<Event>, writes: bool): nat {
    if trace == [] then 0
    else
      var e := trace[|trace| - 1];
      Count(trace[..|trace| - 1], writes) + (if (writes && e.Wrote?) || (!writes && e.Signalled?) then 1 else 0)
  }

  /** Commands reach the chip in the order in which they were enqueued, each at
      most once, and only after they were enqueued. */
  lemma WritesFollowTheQueue(trace: seq<Event>, s: State, i: nat, j: nat)
    requires Run(trace, s)
    requires i < j < |trace| && trace[i].Wrote? && trace[j].Wrote? && trace[i].req.Some? && trace[j].req.Some?
    ensures trace[i].req.value < trace[j].req.value < s.added
  {
    RunInv(trace, s);
  }

  /** A write carries the command last assigned unless a response was processed
      since the assignment; then it carries nothing. */
  lemma WriteCarriesCommandIff(trace: seq<Event>, s: State, i: nat, j: nat)
    requires Run(trace, s)
    requires i < j < |trace| && trace[i].Assigned? && trace[j].Wrote?
    requires forall k :: i < k < j ==> !trace[k].Assigned?
    ensures LastTook(trace[..i]) == Some(trace[i].slot)
    ensures trace[j].req == Some(trace[i].slot) <==> forall k :: i < k < j ==> !trace[k].Forgot?
    ensures trace[j].req == None <==> exists k :: i < k < j && trace[k].Forgot?
  {
    hide LastTook, Pending, Run, Alternates, InOrder, WritesAscend;
    RunInv(trace, s);
    PendingSince(trace, i, j);
  }

  lemma {:induction false} PendingSince(trace: seq<Event>, i: nat, j: nat)
    requires i < j <= |trace| && trace[i].Assigned?
    requires forall k :: i < k < j ==> !trace[k].Assigned?
    ensures Pending(trace[..j]) == if exists k :: i < k < j && trace[k].Forgot? then None else Some(trace[i].slot)
    decreases j
  {
    assert trace[..j][..j - 1] == trace[..j - 1];
    if i < j - 1 {
      PendingSince(trace, i, j - 1);
    }
  }

  /** Such a write does occur: a reset that arrives between assigning a command
      and writing it makes the writer send nothing and wait. */
  lemma CommandCanBeLost() returns (trace: seq<Event>, s: State)
    ensures Run(trace, s) && s.writer == Written
    ensures trace == [Internal, Enqueued(0), Internal, Internal, Took(0), Internal, Assigned(0), Forgot, Wrote(None)]
  {
    trace, s := ResetArrives();
    hide Run;
    trace, s := Extend(trace, s, Took(0), s.(writer := Holding(0), queue := []));
    trace, s := Extend(trace, s, Internal, s.(app := AppForgetting));
    trace, s := Extend(trace, s, Assigned(0), s.(writer := Stored, req := Some(0)));
    trace, s := Extend(trace, s, Forgot, s.(app := AppSignalling, req := None));
    trace, s := Extend(trace, s, Wrote(None), s.(writer := Written));
  }

  /** The same reset between taking and assigning the command does not lose it. */
  lemma CommandCanSurvive() returns (trace: seq<Event>, s: State)
    ensures Run(trace, s) && s.writer == Written
    ensures trace == [Internal, Enqueued(0), Internal, Internal, Took(0), Internal, Forgot, Assigned(0), Wrote(Some(0))]
  {
    trace, s := ResetArrives();
    hide Run;
    trace, s := Extend(trace, s, Took(0), s.(writer := Holding(0), queue := []));
    trace, s := Extend(trace, s, Internal, s.(app := AppForgetting));
    trace, s := Extend(trace, s, Forgot, s.(app := AppSignalling, req := None));
    trace, s := Extend(trace, s, Assigned(0), s.(writer := Stored, req := Some(0)));
    trace, s := Extend(trace, s, Wrote(Some(0)), s.(writer := Written));
  }

  /** A run in which a command is enqueued and then a reset arrives. */
  lemma ResetArrives() returns (trace: seq<Event>, s: State)
    ensures Run(trace, s)
    ensures trace == [Internal, Enqueued(0), Internal, Internal]
    ensures s == State(AppClearing, ChipIdle, AtQueue, [0], 1, None)
  {
    assert Run([], INIT);
    hide Run;
    var t1, s1 := Extend([], INIT, Internal, INIT.(app := AppAdding(1)));
    var t2, s2 := Extend(t1, s1, Enqueued(0), s1.(app := AppAdding(0), queue := [0], added := 1));
    var t3, s3 := Extend(t2, s2, Internal, s2.(app := AppIdle));
    trace, s := Extend(t3, s3, Internal, s3.(app := AppClearing));
  }

  // ----- resets and responses ----------------------------------------------

  ghost predicate NoneBefore(s: State, slot: Slot) {
    forall i :: 0 <= i < |s.queue| ==> s.queue[i] >= slot
  }

  /** Whatever the other threads do meanwhile, no command that was in the queue
      when a thread began to clear it is there when that thread goes on. */
  lemma {:induction false} ClearingDiscards(start: State, trace: seq<Event>, s: State)
    requires Path(start, trace, s)
    ensures s.added >= start.added
    ensures start.app == AppClearing && s.app != AppClearing ==> NoneBefore(s, start.added)
    ensures start.chip == ChipClearing && s.chip != ChipClearing ==> NoneBefore(s, start.added)
    decreases |trace|
  {
    ClearingInv(start, trace, s);
  }

  lemma {:induction false} ClearingInv(start: State, trace: seq<Event>, s: State)
    requires Path(start, trace, s)
    ensures s.added >= start.added
    ensures start.app == AppClearing ==> s.app == AppClearing || NoneBefore(s, start.added)
    ensures start.chip == ChipClearing ==> s.chip == ChipClearing || NoneBefore(s, start.added)
    decreases |trace|
  {
    if trace != [] {
      var before :| Path(start, Front(trace), before) && Step(before, Last(trace), s);
      ClearingInv(start, Front(trace), before);
      QueueStep(before, Last(trace), s, start.added);
    }
  }

  lemma QueueStep(s: State, e: Event, s': State, slot: Slot)
    requires Step(s, e, s') && slot <= s.added
    ensures s.added <= s'.added
    ensures NoneBefore(s, slot) ==> NoneBefore(s', slot)
    ensures s.app == AppClearing && s'.app != AppClearing ==> NoneBefore(s', slot)
    ensures s.chip == ChipClearing && s'.chip != ChipClearing ==> NoneBefore(s', slot)
  {}

  /** From clearing until the reset command itself is added the queue is empty,
      since only the app reader adds to it. */
  lemma {:induction false} ResetFindsQueueEmpty(trace: seq<Event>, s: State)
    requires Run(trace, s) && (s.app == AppForgetting || s.app == AppSignalling)
    ensures s.queue == []
    decreases |trace|
  {
    var before :| Path(INIT, Front(trace), before) && Step(before, Last(trace), s);
    if before.app == AppForgetting || before.app == AppSignalling {
      ResetFindsQueueEmpty(Front(trace), before);
    }
  }

  /** The queue holds at most 100 commands, and adding waits exactly when it
      holds that many. */
  lemma AddingWaitsIffFull(trace: seq<Event>, s: State)
    requires Run(trace, s)
    ensures |s.queue| <= 100
    ensures s.app.AppAdding? && s.app.left > 0 ==>
              ((exists s' :: AppStep(s, Enqueued(s.added), s')) <==> |s.queue| < 100)
  {
    RunInv(trace, s);
    hide Inv, Run;
    if s.app.AppAdding? && s.app.left > 0 && |s.queue| < 100 {
      var next := s.(app := AppAdding(s.app.left - 1), queue := s.queue + [s.added], added := s.added + 1);
      assert AppStep(s, Enqueued(s.added), next);
    }
  }

  /** What the writer does with the next command if nothing comes between. */
  function Turn(slot: Slot): seq<Event> {
    [Took(slot), Assigned(slot), Wrote(Some(slot))]
  }

  lemma WriterTakesTurn(trace: seq<Event>, s: State) returns (longer: seq<Event>, s': State)
    requires Run(trace, s) && s.writer == AtQueue && s.queue != []
    ensures Run(longer, s') && longer == trace + Turn(s.queue[0])
    ensures s' == s.(writer := Written, queue := s.queue[1..], req := Some(s.queue[0]))
  {
    hide Run;
    var next := s.queue[0];
    var t1, s1 := Extend(trace, s, Took(next), s.(writer := Holding(next), queue := s.queue[1..]));
    var t2, s2 := Extend(t1, s1, Assigned(next), s1.(writer := Stored, req := Some(next)));
    longer, s' := Extend(t2, s2, Wrote(Some(next)), s2.(writer := Written));
  }

  lemma ChipResponds(trace: seq<Event>, s: State) returns (longer: seq<Event>, s': State)
    requires Run(trace, s) && s.writer == Waiting && s.chip == ChipIdle
    ensures Run(longer, s') && longer == trace + [Internal, Forgot, Signalled]
    ensures s' == s.(writer := AtQueue, req := None)
  {
    hide Run;
    var t1, s1 := Extend(trace, s, Internal, s.(chip := ChipForgetting));
    var t2, s2 := Extend(t1, s1, Forgot, s1.(chip := ChipSignalling, req := None));
    longer, s' := Extend(t2, s2, Signalled, s2.(chip := ChipIdle, writer := AtQueue));
  }

  /** In every reachable state in which the writer waits and a command is queued,
      the next response of the chip releases the writer, and it can write that
      command. */
  lemma ResponseReleasesWriter(trace: seq<Event>, s: State) returns (longer: seq<Event>, s': State)
    requires Run(trace, s) && s.writer == Waiting && s.chip == ChipIdle && s.queue != []
    ensures Run(longer, s') && s'.writer == Written && s'.queue == s.queue[1..]
    ensures longer == trace + [Internal, Forgot, Signalled] + Turn(s.queue[0])
  {
    hide Run;
    var t1, s1 := ChipResponds(trace, s);
    longer, s' := WriterTakesTurn(t1, s1);
  }

  function DropAll(queue: seq<Slot>): seq<Event> {
    if queue == [] then [] else [Dropped(queue[0])] + DropAll(queue[1..])
  }

  lemma {:induction false} AppDrains(trace: seq<Event>, s: State) returns (longer: seq<Event>, s': State)
    requires Run(trace, s) && s.app == AppClearing
    ensures Run(longer, s') && longer == trace + DropAll(s.queue) && s' == s.(queue := [])
    decreases |s.queue|
  {
    hide Run;
    if s.queue == [] {
      longer, s' := trace, s;
    } else {
      var q := s.queue;
      var t1, s1 := Extend(trace, s, Dropped(q[0]), s.(queue := q[1..]));
      longer, s' := AppDrains(t1, s1);
      assert longer == trace + ([Dropped(q[0])] + DropAll(q[1..]));
    }
  }

  /** What a reset does to the queue and the writer if nothing comes between, up
      to adding the command itself. */
  function Reset(queue: seq<Slot>, slot: Slot): seq<Event> {
    [Internal] + DropAll(queue) + [Internal, Forgot, Signalled, Enqueued(slot)]
  }

  /** In every reachable state in which the writer waits, a reset discards what is
      queued and releases the writer, and the reset command is the next that can
      be written. */
  lemma ResetReleasesWriter(trace: seq<Event>, s: State) returns (longer: seq<Event>, s': State)
    requires Run(trace, s) && s.writer == Waiting && s.app == AppIdle
    ensures Run(longer, s') && s'.writer == Written && s'.queue == []
    ensures longer == trace + Reset(s.queue, s.added) + Turn(s.added)
  {
    hide Run, DropAll;
    var t1, s1 := Extend(trace, s, Internal, s.(app := AppClearing));
    var t2, s2 := AppDrains(t1, s1);
    var t3, s3 := AppSignals(t2, s2);
    var t4, s4 := Extend(t3, s3, Enqueued(s.added), s3.(app := AppAdding(0), queue := [s.added], added := s.added + 1));
    longer, s' := WriterTakesTurn(t4, s4);
  }

  lemma AppSignals(trace: seq<Event>, s: State) returns (longer: seq<Event>, s': State)
    requires Run(trace, s) && s.app == AppClearing && s.queue == [] && s.writer == Waiting
    ensures Run(longer, s') && longer == trace + [Internal, Forgot, Signalled]
    ensures s' == s.(app := AppAdding(1), writer := AtQueue, req := None)
  {
    hide Run;
    var t1, s1 := Extend(trace, s, Internal, s.(app := AppForgetting));
    var t2, s2 := Extend(t1, s1, Forgot, s1.(app := AppSignalling, req := None));
    longer, s' := Extend(t2, s2, Signalled, s2.(app := AppAdding(1), writer := AtQueue));
  }

  /** Starting the discovery, which takes two commands: the first is written, the
      response to it releases the writer, and the second is written. */
  lemma SecondCommandIsWritten() returns (trace: seq<Event>, s: State)
    ensures Run(trace, s) && s.writer == Written && s.queue == []
    ensures trace ==
            [Internal, Enqueued(0), Enqueued(1)] + Turn(0) + [Internal] + [Internal, Forgot, Signalled] + Turn(1)
  {
    hide Turn;
    var t1, s1 := DiscoveryStarts();
    var t2, s2 := WriterTakesTurn(t1, s1);
    hide Run;
    var t3, s3 := Extend(t2, s2, Internal, s2.(writer := Waiting));
    trace, s := ResponseReleasesWriter(t3, s3);
  }

  lemma DiscoveryStarts() returns (trace: seq<Event>, s: State)
    ensures Run(trace, s) && trace == [Internal, Enqueued(0), Enqueued(1)]
    ensures s == State(AppAdding(0), ChipIdle, AtQueue, [0, 1], 2, None)
  {
    assert Run([], INIT);
    hide Run;
    var start := INIT.(app := AppAdding(2));
    var t1, s1 := Extend([], INIT, Internal, start);
    assert t1 == [Internal];
    hide AppStep, ChipStep, WriterStep, Step;
    var one := start.(app := AppAdding(1), queue := [0], added := 1);
    AppAdds(start);
    var t2, s2 := Extend(t1, s1, Enqueued(0), one);
    assert t2 == [Internal, Enqueued(0)];
    AppAdds(one);
    assert one.queue + [1] == [0, 1];
    trace, s := Extend(t2, s2, Enqueued(1), one.(app := AppAdding(0), queue := [0, 1], added := 2));
  }

  lemma AppAdds(s: State)
    requires s.app.AppAdding? && s.app.left > 0 && |s.queue| < 100
    ensures Step(s, Enqueued(s.added),
                 s.(app := AppAdding(s.app.left - 1), queue := s.queue + [s.added], added := s.added + 1))
  {}

  lemma Extend(trace: seq<Event>, s: State, e: Event, s': State) returns (longer: seq<Event>, next: State)
    requires Run(trace, s) && Step(s, e, s')
    ensures longer == trace + [e] && next == s' && Run(longer, next)
  {
    longer, next := trace + [e], s';
    assert Front(longer) == trace;
  }
}
