/** The atomic reader/writer lock: any number of threads, one atomic access at a time. */
module RwLock {

  const WRITER_FLAG: nat := 0xFFFF_FFFF
  const WORD: nat := 0x1_0000_0000

  /** Where a thread stands, and what it has peeked. A Cas state is about to compare and set. */
  datatype Pc =
    | Idle
    | ReadCheck | ReadPoke | ReadCas(poke: nat)
    | Reading
    | UnreadPoke | UnreadCas(poke: nat)
    | WriteEnter(poke: nat) | WritePoke | WriteCas
    | Writing
    | UnwritePoke | UnwriteCas | UnwriteDec
    | DowngradePoke | DowngradeCas | DowngradeDec
    | UpgradePoke | UpgradeCas

  /** What a thread may decide: to start an operation, to go on, to see its weak compare-and-set fail, to time out. */
  datatype Choice = AcquireReader | AcquireWriter | Release | Downgrade | Upgrade | Go | Fail | TimeOut

  datatype State = State(readers: nat, waitingWriter: nat, pcs: seq<Pc>)

  datatype Event = Event(thread: nat, choice: Choice)

  /** Unsigned 32-bit increment and decrement. */
  function Inc(x: nat): nat
  {
    (x + 1) % WORD
  }

  function Dec(x: nat): nat
  {
    (x + WORD - 1) % WORD
  }

  /** What a thread sees: its own place and the two shared words. */
  datatype View = View(pc: Pc, readers: nat, waitingWriter: nat)

  /** A compare-and-set of the readers word: it succeeds only on the expected value, and may fail anyway. */
  function CasReaders(s: View, c: Choice, expected: nat, desired: nat, won: Pc, lost: Pc): View
  {
    if c == Go && s.readers == expected then s.(pc := won).(readers := desired)
    else if c == Go || c == Fail then s.(pc := lost)
    else s
  }

  /** One atomic access of a thread. A choice that makes no sense where the thread stands changes nothing. */
  function Act(s: View, c: Choice): View
  {
    match s.pc
    case Idle =>
      if c == AcquireReader then s.(pc := ReadCheck)
      else if c == AcquireWriter then s.(pc := WriteEnter(s.waitingWriter))
      else s
    // acquireReader
    case ReadCheck =>
      if c == Go && s.waitingWriter == 0 then s.(pc := ReadPoke) else if c == TimeOut then s.(pc := Idle) else s
    case ReadPoke =>
      if c != Go then s else if s.readers != WRITER_FLAG then s.(pc := ReadCas(s.readers)) else s.(pc := ReadCheck)
    case ReadCas(poke) => CasReaders(s, c, poke, Inc(poke), Reading, ReadCheck)
    case Reading =>
      if c == Release then s.(pc := UnreadPoke)
      else if c == Upgrade then s.(pc := UpgradePoke).(waitingWriter := Inc(s.waitingWriter))
      else s
    // releaseReader
    case UnreadPoke =>
      if c == Go && s.readers != WRITER_FLAG && s.readers != 0 then s.(pc := UnreadCas(s.readers)) else s
    case UnreadCas(poke) => CasReaders(s, c, poke, Dec(poke), Idle, UnreadPoke)
    // acquireWriter
    case WriteEnter(poke) =>
      if c == Go && s.waitingWriter == poke then s.(pc := WritePoke).(waitingWriter := Inc(poke))
      else if c == Go || c == Fail then s.(pc := WriteEnter(s.waitingWriter))
      else s
    case WritePoke =>
      if c == Go && s.readers == 0 then s.(pc := WriteCas)
      else if c == TimeOut then s.(pc := Idle).(waitingWriter := Dec(s.waitingWriter))
      else s
    case WriteCas => CasReaders(s, c, 0, WRITER_FLAG, Writing, WritePoke)
    case Writing =>
      if c == Release then s.(pc := UnwritePoke) else if c == Downgrade then s.(pc := DowngradePoke) else s
    // releaseWriter
    case UnwritePoke => if c == Go && s.readers == WRITER_FLAG then s.(pc := UnwriteCas) else s
    case UnwriteCas => CasReaders(s, c, WRITER_FLAG, 0, UnwriteDec, UnwritePoke)
    case UnwriteDec => if c == Go then s.(pc := Idle).(waitingWriter := Dec(s.waitingWriter)) else s
    // downgradeFromWriter
    case DowngradePoke => if c == Go && s.readers == WRITER_FLAG then s.(pc := DowngradeCas) else s
    case DowngradeCas => CasReaders(s, c, WRITER_FLAG, 1, DowngradeDec, DowngradePoke)
    case DowngradeDec => if c == Go then s.(pc := Reading).(waitingWriter := Dec(s.waitingWriter)) else s
    // upgradeToWriter
    case UpgradePoke =>
      if c == Go && s.readers == 1 then s.(pc := UpgradeCas)
      else if c == TimeOut then s.(pc := Reading).(waitingWriter := Dec(s.waitingWriter))
      else s
    case UpgradeCas => CasReaders(s, c, 1, WRITER_FLAG, Writing, UpgradePoke)
  }

  /** A step of thread t in the whole system. */
  function Step(s: State, t: nat, c: Choice): (r: State)
    requires t < |s.pcs|
    ensures |r.pcs| == |s.pcs|
  {
    var v := Act(View(s.pcs[t], s.readers, s.waitingWriter), c);
    State(v.readers, v.waitingWriter, s.pcs[t := v.pc])
  }

  // ----- who holds what -----

  datatype Role = Reader | Writer | Waiter | PastCheck | BeforePeek

  /** The part a thread plays: it holds the lock as a reader or as the writer; it is announced as a writer that waits,
      holds or has not finished releasing; it has passed the check for waiting writers and has not yet tried for
      the lock; it has passed the check and not yet peeked at the readers. */
  predicate Has(role: Role, pc: Pc)
  {
    match role
    case Reader => pc.Reading? || pc.UnreadPoke? || pc.UnreadCas? || pc.UpgradePoke? || pc.UpgradeCas?
      || pc.DowngradeDec?
    case Writer => HasWriter(pc)
    case Waiter => pc.WritePoke? || pc.WriteCas? || pc.UpgradePoke? || pc.UpgradeCas?
                   || HasWriter(pc) || pc.UnwriteDec? || pc.DowngradeDec?
    case PastCheck => pc.ReadPoke? || pc.ReadCas?
    case BeforePeek => pc.ReadPoke?
  }

  predicate HasWriter(pc: Pc)
  {
    pc.Writing? || pc.UnwritePoke? || pc.UnwriteCas? || pc.DowngradePoke? || pc.DowngradeCas?
  }

  function One(b: bool): nat
  {
    if b then 1 else 0
  }

  function Count(role: Role, pcs: seq<Pc>): (n: nat)
    ensures n <= |pcs|
  {
    if pcs == [] then 0 else One(Has(role, pcs[0])) + Count(role, pcs[1..])
  }

  lemma {:induction false} CountUpdate(role: Role, pcs: seq<Pc>, t: nat, pc: Pc)
    requires t < |pcs|
    ensures Count(role, pcs[t := pc]) + One(Has(role, pcs[t])) == Count(role, pcs) + One(Has(role, pc))
  {
    hide Has;
    if t == 0 {
      assert pcs[t := pc][1..] == pcs[1..];
    } else {
      assert pcs[t := pc][1..] == pcs[1..][t - 1 := pc];
      CountUpdate(role, pcs[1..], t - 1, pc);
    }
  }

  /** A thread in the role is counted, and one outside it is not. */
  lemma {:induction false} CountBound(role: Role, pcs: seq<Pc>, t: nat)
    requires t < |pcs|
    ensures One(Has(role, pcs[t])) <= Count(role, pcs)
    ensures !Has(role, pcs[t]) ==> Count(role, pcs) < |pcs|
  {
    hide Has;
    if t > 0 {
      CountBound(role, pcs[1..], t - 1);
    }
  }

  lemma {:induction false} CountTwo(role: Role, pcs: seq<Pc>, t: nat, u: nat)
    requires t < u < |pcs| && Has(role, pcs[t]) && Has(role, pcs[u])
    ensures Count(role, pcs) >= 2
  {
    hide Has;
    if t == 0 {
      CountBound(role, pcs[1..], u - 1);
    } else {
      CountTwo(role, pcs[1..], t - 1, u - 1);
    }
  }

  // ----- the invariant -----

  /** A thread that counts itself in or out has not peeked the flag. */
  predicate PeekedNoWriter(pc: Pc)
  {
    pc.ReadCas? || pc.UnreadCas? ==> pc.poke != WRITER_FLAG
  }

  /** The readers word is the flag under a writer, alone, and the number of readers otherwise; the other word is the
      number of announced writers. */
  ghost predicate Inv(s: State)
  {
    && |s.pcs| < WRITER_FLAG
    && (forall t :: 0 <= t < |s.pcs| ==> PeekedNoWriter(s.pcs[t]))
    && ReadersAgree(s.readers, Count(Reader, s.pcs), Count(Writer, s.pcs))
    && s.waitingWriter == Count(Waiter, s.pcs)
  }

  /** How a count moves when thread t goes to pc. */
  lemma Moved(role: Role, s: State, t: nat, pc: Pc)
    requires t < |s.pcs|
    ensures Count(role, s.pcs[t := pc]) + One(Has(role, s.pcs[t])) == Count(role, s.pcs) + One(Has(role, pc))
    ensures One(Has(role, s.pcs[t])) <= Count(role, s.pcs)
    ensures Count(role, s.pcs) - One(Has(role, s.pcs[t])) < |s.pcs|
  {
    CountUpdate(role, s.pcs, t, pc);
    CountBound(role, s.pcs, t);
  }

  /** The readers word agrees with the number of readers and writers. */
  predicate ReadersAgree(readers: nat, r: nat, w: nat)
  {
    if w == 0 then readers == r else w == 1 && r == 0 && readers == WRITER_FLAG
  }

  /** The accounting of one access: the words follow the counts, here without the thread itself, and no counter wraps,
      since there are fewer threads than the flag. */
  lemma ActKeeps(v: View, c: Choice, r: nat, w: nat, q: nat)
    requires r < WRITER_FLAG - 1 && q < WRITER_FLAG && PeekedNoWriter(v.pc)
    requires ReadersAgree(v.readers, r + One(Has(Reader, v.pc)), w + One(Has(Writer, v.pc)))
    requires v.waitingWriter == q + One(Has(Waiter, v.pc))
    ensures var u := Act(v, c);
      && PeekedNoWriter(u.pc)
      && ReadersAgree(u.readers, r + One(Has(Reader, u.pc)), w + One(Has(Writer, u.pc)))
      && u.waitingWriter == q + One(Has(Waiter, u.pc))
  {
    ActKeepsReaders(v, c, r, w);
    ActKeepsWaiting(v, c, q);
    hide Act, Has, One, ReadersAgree;
  }

  lemma ActKeepsReaders(v: View, c: Choice, r: nat, w: nat)
    requires r < WRITER_FLAG - 1 && PeekedNoWriter(v.pc)
    requires ReadersAgree(v.readers, r + One(Has(Reader, v.pc)), w + One(Has(Writer, v.pc)))
    ensures var u := Act(v, c);
      PeekedNoWriter(u.pc) && ReadersAgree(u.readers, r + One(Has(Reader, u.pc)), w + One(Has(Writer, u.pc)))
  {
  }

  lemma ActKeepsWaiting(v: View, c: Choice, q: nat)
    requires q < WRITER_FLAG && v.waitingWriter == q + One(Has(Waiter, v.pc))
    ensures Act(v, c).waitingWriter == q + One(Has(Waiter, Act(v, c).pc))
  {
  }

  /** No step wraps a counter or breaks the invariant. */
  lemma StepKeeps(s: State, t: nat, c: Choice)
    requires Inv(s) && t < |s.pcs|
    ensures Inv(Step(s, t, c))
  {
    hide Count, Act, Has, One;
    var v := View(s.pcs[t], s.readers, s.waitingWriter);
    var pc := Act(v, c).pc;
    Moved(Reader, s, t, pc);
    Moved(Writer, s, t, pc);
    Moved(Waiter, s, t, pc);
    ActKeeps(v, c, Count(Reader, s.pcs) - One(Has(Reader, v.pc)), Count(Writer, s.pcs) - One(Has(Writer, v.pc)),
             Count(Waiter, s.pcs) - One(Has(Waiter, v.pc)));
  }

  function Run(s: State, events: seq<Event>): (r: State)
    requires forall i :: 0 <= i < |events| ==> events[i].thread < |s.pcs|
    ensures |r.pcs| == |s.pcs|
    decreases |events|
  {
    if events == [] then s
    else
      var next := Step(s, events[0].thread, events[0].choice);
      Run(next, events[1..])
  }

  function Start(n: nat): State
  {
    State(0, 0, seq(n, _ => Idle))
  }

  lemma {:induction false} IdleCounts(role: Role, pcs: seq<Pc>)
    requires forall i :: 0 <= i < |pcs| ==> pcs[i] == Idle
    ensures Count(role, pcs) == 0
  {
    if pcs != [] {
      IdleCounts(role, pcs[1..]);
    }
  }

  lemma {:induction false} RunKeeps(s: State, events: seq<Event>)
    requires Inv(s) && forall i :: 0 <= i < |events| ==> events[i].thread < |s.pcs|
    ensures Inv(Run(s, events))
    decreases |events|
  {
    hide Step, Inv;
    if events != [] {
      StepKeeps(s, events[0].thread, events[0].choice);
      RunKeeps(Step(s, events[0].thread, events[0].choice), events[1..]);
    }
  }

  /** For any number of threads below the flag and any interleaving: the readers word is the flag exactly when one
      thread holds the lock as the writer, and otherwise counts the threads that hold it as readers; the other word
      counts the writers waiting, holding or releasing. */
  lemma WordsCount(n: nat, events: seq<Event>)
    requires n < WRITER_FLAG && forall i :: 0 <= i < |events| ==> events[i].thread < n
    ensures var s := Run(Start(n), events);
      && (s.readers == WRITER_FLAG <==> Count(Writer, s.pcs) == 1) && Count(Writer, s.pcs) <= 1
      && (s.readers != WRITER_FLAG ==> s.readers == Count(Reader, s.pcs))
      && s.waitingWriter == Count(Waiter, s.pcs)
      && |s.pcs| == n
  {
    hide Run, Has;
    IdleCounts(Reader, Start(n).pcs);
    IdleCounts(Writer, Start(n).pcs);
    IdleCounts(Waiter, Start(n).pcs);
    RunKeeps(Start(n), events);
  }

  /** The writer is alone. */
  lemma WriterExcludes(s: State, t: nat, u: nat)
    requires Inv(s) && t < |s.pcs| && u < |s.pcs| && t != u && Has(Writer, s.pcs[t])
    ensures !Has(Writer, s.pcs[u]) && !Has(Reader, s.pcs[u])
  {
    hide Count, Has;
    CountBound(Writer, s.pcs, t);
    CountBound(Reader, s.pcs, u);
    if Has(Writer, s.pcs[u]) {
      CountTwo(Writer, s.pcs, if t < u then t else u, if t < u then u else t);
    }
  }

  /** The conditions the source asserts each time a thread peeks at the readers word to give back or change its hold. */
  predicate AssertHolds(s: State, t: nat)
    requires t < |s.pcs|
  {
    match s.pcs[t]
    case UnreadPoke => 0 < s.readers != WRITER_FLAG
    case UpgradePoke => 0 < s.readers != WRITER_FLAG
    case UnwritePoke => s.readers == WRITER_FLAG
    case DowngradePoke => s.readers == WRITER_FLAG
    case _ => true
  }

  lemma AssertionsHold(s: State, t: nat)
    requires Inv(s) && t < |s.pcs|
    ensures AssertHolds(s, t)
  {
    hide Count;
    CountBound(Reader, s.pcs, t);
    CountBound(Writer, s.pcs, t);
  }

  /** An upgrade wins only for the one and only reader, and every step of an upgrade up to that one leaves its thread a
      reader: no other writer comes in between. */
  lemma UpgradeIsSole(s: State, t: nat, u: nat, c: Choice)
    requires Inv(s) && t < |s.pcs| && u < |s.pcs| && u != t
    requires s.pcs[t].UpgradePoke? || s.pcs[t].UpgradeCas?
    ensures Has(Reader, s.pcs[t]) && !Has(Writer, s.pcs[u])
    ensures Step(s, t, c).pcs[t].Writing? ==> !Has(Reader, s.pcs[u]) && Count(Reader, s.pcs) == 1
  {
    hide Count;
    CountBound(Reader, s.pcs, t);
    CountBound(Writer, s.pcs, u);
    if Has(Reader, s.pcs[u]) {
      CountTwo(Reader, s.pcs, if t < u then t else u, if t < u then u else t);
    }
  }

  // ----- where each operation leads -----

  /** The six operations of the lock. */
  datatype Operation = TakeRead | GiveRead | TakeWrite | GiveWrite | Lower | Raise

  function ChoiceOf(op: Operation): Choice
  {
    match op
    case TakeRead => AcquireReader
    case TakeWrite => AcquireWriter
    case Lower => Downgrade
    case Raise => Upgrade
    case _ => Release
  }

  /** Where an operation may be started, and where it is meant to lead. */
  function Origin(op: Operation): Pc
  {
    match op
    case TakeRead => Idle
    case TakeWrite => Idle
    case GiveRead => Reading
    case Raise => Reading
    case GiveWrite => Writing
    case Lower => Writing
  }

  function Goal(op: Operation): Pc
  {
    match op
    case TakeRead => Reading
    case TakeWrite => Writing
    case GiveRead => Idle
    case GiveWrite => Idle
    case Lower => Reading
    case Raise => Writing
  }

  /** The operations that take a timeout. */
  predicate MayGiveUp(op: Operation) { op.TakeRead? || op.TakeWrite? || op.Raise? }

  predicate Underway(op: Operation, pc: Pc)
  {
    match op
    case TakeRead => pc.ReadCheck? || pc.ReadPoke? || pc.ReadCas?
    case GiveRead => pc.UnreadPoke? || pc.UnreadCas?
    case TakeWrite => pc.WriteEnter? || pc.WritePoke? || pc.WriteCas?
    case GiveWrite => pc.UnwritePoke? || pc.UnwriteCas? || pc.UnwriteDec?
    case Lower => pc.DowngradePoke? || pc.DowngradeCas? || pc.DowngradeDec?
    case Raise => pc.UpgradePoke? || pc.UpgradeCas?
  }

  /** The thread starts nothing else. */
  predicate CarriesOn(events: seq<Event>, t: nat)
  {
    forall i :: 0 <= i < |events| && events[i].thread == t ==>
      events[i].choice == Go || events[i].choice == Fail || events[i].choice == TimeOut
  }

  predicate TimesOut(events: seq<Event>, t: nat)
  {
    exists i :: 0 <= i < |events| && events[i] == Event(t, TimeOut)
  }

  /** Inside an operation, or past its end. */
  predicate OnCourse(op: Operation, pc: Pc, timedOut: bool)
  {
    Underway(op, pc) || pc == Goal(op) || (MayGiveUp(op) && pc == Origin(op) && timedOut)
  }

  lemma CourseStep(v: View, c: Choice, op: Operation, timedOut: bool)
    requires OnCourse(op, v.pc, timedOut) && (c == Go || c == Fail || c == TimeOut)
    ensures OnCourse(op, Act(v, c).pc, timedOut || c == TimeOut)
  {
  }

  lemma {:induction false} StaysOnCourse(s: State, events: seq<Event>, t: nat, op: Operation, timedOut: bool)
    requires t < |s.pcs| && (forall i :: 0 <= i < |events| ==> events[i].thread < |s.pcs|) && CarriesOn(events, t)
    requires OnCourse(op, s.pcs[t], timedOut)
    ensures OnCourse(op, Run(s, events).pcs[t], timedOut || TimesOut(events, t))
    decreases |events|
  {
    hide Act, OnCourse;
    if events != [] {
      var e := events[0];
      var next := Step(s, e.thread, e.choice);
      if e.thread == t {
        CourseStep(View(s.pcs[t], s.readers, s.waitingWriter), e.choice, op, timedOut);
      }
      var timedOut' := timedOut || e == Event(t, TimeOut);
      StaysOnCourse(next, events[1..], t, op, timedOut');
      assert timedOut' || TimesOut(events[1..], t) <==> timedOut || TimesOut(events, t) by {
        if TimesOut(events[1..], t) {
          var i :| 0 <= i < |events[1..]| && events[1..][i] == Event(t, TimeOut);
          assert events[i + 1] == Event(t, TimeOut);
        }
        if TimesOut(events, t) && e != Event(t, TimeOut) {
          var i :| 0 <= i < |events| && events[i] == Event(t, TimeOut);
          assert events[1..][i - 1] == Event(t, TimeOut);
        }
      }
    }
  }

  /** Whatever the other threads do, a thread that starts an operation and nothing else is inside it until it reaches
      its goal; only acquiring and upgrading can also come back to where they started, and only after a timeout. */
  lemma {:induction false} OperationLeads(s: State, events: seq<Event>, t: nat, op: Operation)
    requires t < |s.pcs| && s.pcs[t] == Origin(op)
    requires (forall i :: 0 <= i < |events| ==> events[i].thread < |s.pcs|) && CarriesOn(events, t)
    ensures var pc := Run(Step(s, t, ChoiceOf(op)), events).pcs[t];
      || Underway(op, pc) || pc == Goal(op)
      || (MayGiveUp(op) && pc == Origin(op) && TimesOut(events, t))
  {
    StaysOnCourse(Step(s, t, ChoiceOf(op)), events, t, op, false);
  }

  /** What the thread holds on the way: releasing never makes a reader of a writer, nor a writer of a reader, and a
      downgrade or an upgrade holds the lock in every state, so that no other thread is a writer in between. */
  lemma {:induction false} HoldsOnTheWay(s: State, events: seq<Event>, t: nat, op: Operation, u: nat)
    requires Inv(s) && t < |s.pcs| && u < |s.pcs| && t != u && s.pcs[t] == Origin(op)
    requires (forall i :: 0 <= i < |events| ==> events[i].thread < |s.pcs|) && CarriesOn(events, t)
    ensures var r := Run(Step(s, t, ChoiceOf(op)), events);
      && (op.TakeRead? || op.GiveRead? ==> !Has(Writer, r.pcs[t]))
      && (op.TakeWrite? || op.GiveWrite? ==> !Has(Reader, r.pcs[t]))
      && (op.Lower? || op.Raise? ==>
            (Has(Reader, r.pcs[t]) || Has(Writer, r.pcs[t])) && !Has(Writer, r.pcs[u]))
  {
    OperationLeads(s, events, t, op);
    var r := Run(Step(s, t, ChoiceOf(op)), events);
    StepKeeps(s, t, ChoiceOf(op));
    RunKeeps(Step(s, t, ChoiceOf(op)), events);
    hide Run, Step, Inv;
    if op.Lower? || op.Raise? {
      HolderExcludesWriter(r, t, u);
    }
  }

  lemma HolderExcludesWriter(s: State, t: nat, u: nat)
    requires Inv(s) && t < |s.pcs| && u < |s.pcs| && t != u && (Has(Reader, s.pcs[t]) || Has(Writer, s.pcs[t]))
    ensures !Has(Writer, s.pcs[u])
  {
    if Has(Writer, s.pcs[u]) {
      WriterExcludes(s, u, t);
    }
  }

  /** n accesses of one thread in a row. */
  function Alone(s: State, t: nat, n: nat): (r: State)
    requires t < |s.pcs|
    ensures |r.pcs| == |s.pcs|
    decreases n
  {
    if n == 0 then s else Alone(Step(s, t, Go), t, n - 1)
  }

  /** When an operation can be finished by its thread alone. */
  predicate Open(op: Operation, s: State)
  {
    match op
    case TakeRead => s.waitingWriter == 0
    case TakeWrite => s.readers == 0
    case Raise => s.readers == 1
    case _ => true
  }

  function Accesses(op: Operation): nat
  {
    if op.GiveRead? || op.Raise? then 2 else 3
  }

  /** The readers word at the end of an operation, and the change in the number of announced writers. */
  predicate Ended(op: Operation, s: State, t: nat, r: State)
    requires t < |s.pcs|
  {
    && r.readers == ReadersAfter(op, s.readers)
    && r.waitingWriter == s.waitingWriter + Announced(op)
    && r.pcs == s.pcs[t := Goal(op)]
  }

  function ReadersAfter(op: Operation, readers: nat): int
  {
    match op
    case TakeRead => readers + 1
    case GiveRead => readers - 1
    case GiveWrite => 0
    case Lower => 1
    case _ => WRITER_FLAG
  }

  function Announced(op: Operation): int
  {
    match op
    case TakeRead => 0
    case GiveRead => 0
    case TakeWrite => 1
    case Raise => 1
    case _ => -1
  }

  /** A thread that is not disturbed finishes its operation exactly when the lock is open for it; then it is at the goal
      after two or three accesses, and the words have changed by that operation and nothing else. */
  lemma FinishesAlone(s: State, t: nat, op: Operation, n: nat)
    requires Inv(s) && t < |s.pcs| && s.pcs[t] == Origin(op)
    ensures Open(op, s) ==> Ended(op, s, t, Alone(Step(s, t, ChoiceOf(op)), t, Accesses(op)))
    ensures !Open(op, s) ==> Alone(Step(s, t, ChoiceOf(op)), t, n).pcs[t] != Goal(op)
  {
    Words(s, t);
    hide Inv;
    if Open(op, s) {
      OpenFinishes(s, t, op);
    } else {
      StaysStuck(Step(s, t, ChoiceOf(op)), t, op, n);
    }
  }

  /** What the invariant says about the words of one thread's state. */
  lemma Words(s: State, t: nat)
    requires Inv(s) && t < |s.pcs|
    ensures s.waitingWriter < WRITER_FLAG && (s.waitingWriter == 0 ==> s.readers < WRITER_FLAG - 1 || !s.pcs[t].Idle?)
    ensures s.pcs[t].Writing? ==> s.readers == WRITER_FLAG && s.waitingWriter > 0
    ensures s.pcs[t].Reading? ==> 0 < s.readers < WRITER_FLAG
  {
    hide Count;
    CountBound(Reader, s.pcs, t);
    CountBound(Writer, s.pcs, t);
    CountBound(Waiter, s.pcs, t);
    WritersAreWaiters(s.pcs);
  }

  lemma {:induction false} WritersAreWaiters(pcs: seq<Pc>)
    ensures Count(Writer, pcs) <= Count(Waiter, pcs)
  {
    if pcs != [] {
      WritersAreWaiters(pcs[1..]);
    }
  }

  lemma OpenFinishes(s: State, t: nat, op: Operation)
    requires t < |s.pcs| && s.pcs[t] == Origin(op) && Open(op, s) && s.waitingWriter < WRITER_FLAG
    requires s.pcs[t].Idle? && s.waitingWriter == 0 ==> s.readers < WRITER_FLAG - 1
    requires s.pcs[t].Writing? ==> s.readers == WRITER_FLAG && s.waitingWriter > 0
    requires s.pcs[t].Reading? ==> 0 < s.readers < WRITER_FLAG
    ensures Ended(op, s, t, Alone(Step(s, t, ChoiceOf(op)), t, Accesses(op)))
  {
    var s1 := Step(s, t, ChoiceOf(op));
    var s2 := Step(s1, t, Go);
    var s3 := Step(s2, t, Go);
    if Accesses(op) == 3 {
      var s4 := Step(s3, t, Go);
      assert Alone(s1, t, 3) == Alone(s2, t, 2) == Alone(s3, t, 1) == s4;
    } else {
      assert Alone(s1, t, 2) == Alone(s2, t, 1) == s3;
    }
  }

  lemma {:induction false} StaysStuck(s: State, t: nat, op: Operation, n: nat)
    requires t < |s.pcs|
    requires match op
             case TakeRead => s.pcs[t].ReadCheck? && s.waitingWriter > 0
             case TakeWrite => (s.pcs[t].WriteEnter? || s.pcs[t].WritePoke?) && s.readers != 0
             case Raise => s.pcs[t].UpgradePoke? && s.readers != 1
             case _ => false
    ensures Alone(s, t, n).pcs[t] != Goal(op)
    decreases n
  {
    if n > 0 {
      StaysStuck(Step(s, t, Go), t, op, n - 1);
    }
  }

  /** A timeout takes back the announcement and changes nothing else. */
  lemma GivesUp(s: State, t: nat, op: Operation)
    requires Inv(s) && t < |s.pcs| && (s.pcs[t].ReadCheck? || s.pcs[t].WritePoke? || s.pcs[t].UpgradePoke?)
    requires Underway(op, s.pcs[t])
    ensures var r := Step(s, t, TimeOut);
      r.readers == s.readers && r.waitingWriter == s.waitingWriter - Announced(op) && r.pcs == s.pcs[t := Origin(op)]
  {
    hide Count;
    CountBound(Waiter, s.pcs, t);
  }

  // ----- the priority of writers -----

  /** The readers that got the lock during a run. */
  function Entered(s: State, events: seq<Event>): nat
    requires forall i :: 0 <= i < |events| ==> events[i].thread < |s.pcs|
    decreases |events|
  {
    if events == [] then 0
    else
      var t := events[0].thread;
      var next := Step(s, t, events[0].choice);
      One(s.pcs[t].ReadCas? && next.pcs[t].Reading?) + Entered(next, events[1..])
  }

  /** Some writer is announced in every state of a run. */
  predicate WriterWaits(s: State, events: seq<Event>)
    requires forall i :: 0 <= i < |events| ==> events[i].thread < |s.pcs|
    decreases |events|
  {
    && s.waitingWriter > 0
    && (events == [] ||
        var next := Step(s, events[0].thread, events[0].choice);
          WriterWaits(next, events[1..]))
  }

  /** The accesses, failed ones included, of threads past the check. */
  function Tried(s: State, events: seq<Event>): nat
    requires forall i :: 0 <= i < |events| ==> events[i].thread < |s.pcs|
    decreases |events|
  {
    if events == [] then 0
    else
      var t, c := events[0].thread, events[0].choice;
      One(Tries(s.pcs[t], c)) + Tried(Step(s, t, c), events[1..])
  }

  predicate Tries(pc: Pc, c: Choice)
  {
    (pc.ReadPoke? && c == Go) || (pc.ReadCas? && (c == Go || c == Fail))
  }

  /** While a writer waits, a reader can overtake it only by having passed the check before, and only once: every reader
      that enters uses up one of the threads that were already past the check. Those threads have two accesses each,
      one peek and one try; whoever fails goes back behind the check. */
  lemma {:induction false} OvertakingIsBounded(s: State, events: seq<Event>)
    requires forall i :: 0 <= i < |events| ==> events[i].thread < |s.pcs|
    requires WriterWaits(s, events)
    ensures Entered(s, events) + Count(PastCheck, Run(s, events).pcs) <= Count(PastCheck, s.pcs)
    ensures Tried(s, events) + Count(PastCheck, Run(s, events).pcs) + Count(BeforePeek, Run(s, events).pcs)
         <= Count(PastCheck, s.pcs) + Count(BeforePeek, s.pcs)
    decreases |events|
  {
    hide Step, Count, Has;
    if events != [] {
      var t, c := events[0].thread, events[0].choice;
      OvertakeStep(s, t, c);
      OvertakingIsBounded(Step(s, t, c), events[1..]);
    }
  }

  lemma OvertakeStep(s: State, t: nat, c: Choice)
    requires t < |s.pcs| && s.waitingWriter > 0
    ensures One(s.pcs[t].ReadCas? && Step(s, t, c).pcs[t].Reading?) + Count(PastCheck, Step(s, t, c).pcs)
      <= Count(PastCheck, s.pcs)
    ensures One(Tries(s.pcs[t], c)) + Count(PastCheck, Step(s, t, c).pcs) + Count(BeforePeek, Step(s, t, c).pcs)
      <= Count(PastCheck, s.pcs) + Count(BeforePeek, s.pcs)
  {
    hide Count;
    Moved(PastCheck, s, t, Step(s, t, c).pcs[t]);
    Moved(BeforePeek, s, t, Step(s, t, c).pcs[t]);
  }

  /** A thread past its check whose next accesses get the lock: no writer holds it, and the value it peeked is
      current. */
  predicate Ready(s: State, t: nat)
    requires t < |s.pcs|
  {
    (s.pcs[t].ReadPoke? && s.readers != WRITER_FLAG) || (s.pcs[t].ReadCas? && s.pcs[t].poke == s.readers)
  }

  function Own(t: nat, choices: seq<Choice>): (events: seq<Event>)
    ensures |events| == |choices| && forall i :: 0 <= i < |events| ==> events[i].thread == t
  {
    if choices == [] then [] else [Event(t, choices[0])] + Own(t, choices[1..])
  }

  /** Some steps of the thread alone give it the lock as a reader while a writer is announced all along. */
  ghost predicate CanOvertake(s: State, t: nat)
    requires t < |s.pcs|
  {
    exists choices :: WriterWaits(s, Own(t, choices)) && Entered(s, Own(t, choices)) > 0
  }

  /** In every state, the readers that the announced writer does not keep out are exactly the ready ones. */
  lemma OvertakesWhenReady(s: State, t: nat)
    requires t < |s.pcs| && s.waitingWriter > 0
    ensures CanOvertake(s, t) <==> Ready(s, t)
  {
    hide Step;
    if Ready(s, t) {
      ReadyEnters(s, t);
    }
    forall choices | WriterWaits(s, Own(t, choices)) && Entered(s, Own(t, choices)) > 0
      ensures Ready(s, t)
    {
      if !Ready(s, t) {
        UnreadyStays(s, t, choices);
      }
    }
  }

  lemma ReadyEnters(s: State, t: nat)
    requires t < |s.pcs| && s.waitingWriter > 0 && Ready(s, t)
    ensures CanOvertake(s, t)
  {
    if s.pcs[t].ReadCas? {
      LastStepEnters(s, t);
      assert WriterWaits(s, Own(t, [Go])) && Entered(s, Own(t, [Go])) > 0;
    } else {
      var next := Step(s, t, Go);
      assert next == s.(pcs := s.pcs[t := ReadCas(s.readers)]);
      LastStepEnters(next, t);
      assert Own(t, [Go, Go])[1..] == Own(t, [Go]) by {
        assert [Go, Go][1..] == [Go];
      }
      assert WriterWaits(s, Own(t, [Go, Go])) && Entered(s, Own(t, [Go, Go])) > 0;
    }
  }

  lemma LastStepEnters(s: State, t: nat)
    requires t < |s.pcs| && s.waitingWriter > 0 && s.pcs[t].ReadCas? && s.pcs[t].poke == s.readers
    ensures WriterWaits(s, Own(t, [Go])) && Entered(s, Own(t, [Go])) == 1
  {
    assert Own(t, [Go]) == [Event(t, Go)] && Own(t, [Go])[1..] == [];
  }

  lemma {:induction false} UnreadyStays(s: State, t: nat, choices: seq<Choice>)
    requires t < |s.pcs| && !Ready(s, t) && WriterWaits(s, Own(t, choices))
    ensures Entered(s, Own(t, choices)) == 0
    decreases |choices|
  {
    hide Step;
    if choices != [] {
      var next := Step(s, t, choices[0]);
      assert Own(t, choices)[1..] == Own(t, choices[1..]);
      assert WriterWaits(next, Own(t, choices[1..]));
      UnreadyStep(s, t, choices[0]);
      assert next.waitingWriter > 0;
      UnreadyStays(next, t, choices[1..]);
    }
  }

  lemma UnreadyStep(s: State, t: nat, c: Choice)
    requires t < |s.pcs| && !Ready(s, t) && s.waitingWriter > 0
    ensures !Ready(Step(s, t, c), t) && !(s.pcs[t].ReadCas? && Step(s, t, c).pcs[t].Reading?)
  {
  }

  /** Thread 0 passes its check, then thread 1 announces itself as a writer. */
  const LATE_READER: seq<Event> := [Event(0, AcquireReader), Event(0, Go), Event(1, AcquireWriter), Event(1, Go)]

  /** The documentation says that no reader takes the lock once a writer wants to enter. One past its check still
      does. */
  lemma ReaderOvertakes()
    ensures var s := Run(Start(2), LATE_READER);
      && s.waitingWriter == 1 && s.pcs == [ReadPoke, WritePoke]
      && Run(s, [Event(0, Go), Event(0, Go)]).pcs == [Reading, WritePoke]
  {
    var s0 := Start(2);
    var s1 := Step(s0, 0, AcquireReader);
    var s2 := Step(s1, 0, Go);
    var s3 := Step(s2, 1, AcquireWriter);
    var s4 := Step(s3, 1, Go);
    assert s4 == State(0, 1, [ReadPoke, WritePoke]);
    assert Run(s3, [LATE_READER[3]]) == s4;
    assert Run(s2, LATE_READER[2..]) == Run(s3, [LATE_READER[3]]);
    assert Run(s1, LATE_READER[1..]) == Run(s2, LATE_READER[2..]);
    var s5 := Step(s4, 0, Go);
    assert s5 == State(0, 1, [ReadCas(0), WritePoke]);
    assert Step(s5, 0, Go) == State(1, 1, [Reading, WritePoke]);
    assert Run(s5, [Event(0, Go)]) == Step(s5, 0, Go);
    assert [Event(0, Go), Event(0, Go)][1..] == [Event(0, Go)];
  }
}
