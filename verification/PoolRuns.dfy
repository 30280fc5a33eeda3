/** What holds of the pool after every run, whatever the interleaving and whatever fails. */
module PoolRuns {
  import opened Bits
  import opened Words
  import opened Sequences
  import opened PoolModel

  // ---------------------------------------------------------------- reference definitions over the history

  /** Where one buffer stands in its life, from its own events alone. */
  datatype Life = Absent | Raw | Ready | Spent | Broken

  function Advance(cfg: Config, l: Life, e: Event, b: Buffer): Life {
    if e.Grew? || e.b != b then l else
    match e
    case Malloced(_) => if l == Absent then (if cfg.constructs then Raw else Ready) else Broken
    case Constructed(_, _) => if l == Raw then Ready else Broken
    case ConstructorFailed(_, _) => if l == Raw then Spent else Broken
    case HandedOut(_, _) => if l == Ready then Ready else Broken
    case Returned(_) => if l == Ready then Ready else Broken
    case Drained(_) => if l == Ready then Ready else Broken
    case Destructed(_, _) => if l == Ready then Spent else Broken
    case Released(_) => if l == Spent || (l == Ready && !cfg.destructs) then Absent else Broken
  }

  /**
   * A buffer may be handed out only while `Ready`, which with a constructor takes exactly one successful
   * construction since it was malloced; with a destructor it is released only straight after its one
   * destruction, or after a failed construction.
   */
  function LifeOf(cfg: Config, log: seq<Event>, b: Buffer): Life {
    if log == [] then Absent else Advance(cfg, LifeOf(cfg, Front(log), b), Last(log), b)
  }

  datatype Stack = Stack(items: seq<Buffer>) | Violated

  function Play(st: Stack, e: Event): Stack {
    if st.Violated? then st else
    match e
    case Returned(b) => Stack(st.items + [b])
    case HandedOut(b, true) => if st.items != [] && Last(st.items) == b then Stack(Front(st.items)) else Violated
    case Drained(b) => if st.items != [] && Last(st.items) == b then Stack(Front(st.items)) else Violated
    case Malloced(_) => if st.items == [] then st else Violated
    case _ => st
  }

  /** The ideal unbounded stack, driven by the history: reuse takes the last one returned, and only an empty stack mallocs. */
  function Ideal(log: seq<Event>): Stack {
    if log == [] then Stack([]) else Play(Ideal(Front(log)), Last(log))
  }

  function Growths(log: seq<Event>): nat {
    if log == [] then 0 else Growths(Front(log)) + if Last(log).Grew? then 1 else 0
  }

  function Constructions(log: seq<Event>): nat {
    if log == [] then 0 else Constructions(Front(log)) + if Last(log).Constructed? then 1 else 0
  }

  function Destructions(log: seq<Event>): nat {
    if log == [] then 0 else Destructions(Front(log)) + if Last(log).Destructed? then 1 else 0
  }

  lemma LogStep(cfg: Config, log: seq<Event>, e: Event)
    ensures Ideal(log + [e]) == Play(Ideal(log), e)
    ensures forall b :: e.Grew? || b != e.b ==> LifeOf(cfg, log + [e], b) == LifeOf(cfg, log, b)
    ensures !e.Grew? ==> LifeOf(cfg, log + [e], e.b) == Advance(cfg, LifeOf(cfg, log, e.b), e, e.b)
    ensures Growths(log + [e]) == Growths(log) + if e.Grew? then 1 else 0
    ensures Constructions(log + [e]) == Constructions(log) + if e.Constructed? then 1 else 0
    ensures Destructions(log + [e]) == Destructions(log) + if e.Destructed? then 1 else 0
  {
    assert Front(log + [e]) == log && Last(log + [e]) == e;
  }

  // ---------------------------------------------------------------- the invariant

  /** Every live block is in one place only: pooled once, or held by one thread. */
  ghost predicate OnePlace(s: Pool) {
    && Distinct(s.free)
    && (forall b :: b in s.free ==> b in s.mem && b !in s.holder)
    && (forall b :: b in s.holder ==> b in s.mem)
    && (forall b :: b in s.mem ==> b in s.free || b in s.holder)
    && (forall b :: b in s.unstamped ==> b in s.holder)
  }

  ghost predicate Shaped(cfg: Config, s: Pool) {
    && |s.free| <= s.total
    && s.total == INITIAL_POOL_SIZE * Pow2(Growths(s.log))
    && (forall b :: b in s.mem ==> |s.mem[b]| == cfg.BufSize())
    && (!cfg.debug ==> s.unstamped == {})
  }

  /** The pool agrees with what its history says it should be. */
  ghost predicate Historical(cfg: Config, s: Pool) {
    && Ideal(s.log) == Stack(s.free)
    && (forall b :: LifeOf(cfg, s.log, b) == if b in s.mem then Ready else Absent)
  }

  /** The parts of the invariant that speak of the history. */
  ghost predicate Recorded(cfg: Config, s: Pool) {
    Shaped(cfg, s) && Historical(cfg, s)
  }

  ghost predicate Inv(cfg: Config, s: Pool) {
    OnePlace(s) && Recorded(cfg, s)
  }

  lemma InitInv(cfg: Config)
    ensures Inv(cfg, INIT)
  {
  }

  lemma TakeLast(bs: seq<Buffer>)
    requires bs != [] && Distinct(bs)
    ensures Distinct(Front(bs)) && Last(bs) !in Front(bs)
    ensures forall b :: b in bs <==> b in Front(bs) || b == Last(bs)
  {
    assert bs == Front(bs) + [Last(bs)];
  }

  lemma PutLast(bs: seq<Buffer>, b: Buffer)
    requires Distinct(bs) && b !in bs
    ensures Distinct(bs + [b])
    ensures forall c :: c in bs + [b] <==> c in bs || c == b
  {
  }

  lemma AcceptOnePlace(cfg: Config, s: Pool, b: Buffer, reallocs: bool)
    requires OnePlace(s) && b in s.holder && b !in s.unstamped
    ensures OnePlace(Accept(cfg, s, b, reallocs))
  {
    PutLast(s.free, b);
  }

  lemma StepOnePlace(cfg: Config, s: Pool, op: Op)
    requires OnePlace(s) && Enabled(cfg, s, op)
    ensures OnePlace(Next(cfg, s, op))
  {
    hide Accept, Distinct;
    match op {
      case AllocPooled(t) => TakeLast(s.free);
      case AllocNoMemory(t) =>
      case AllocUnconstructed(t, b) =>
      case AllocNew(t, b, bytes) =>
      case Stamp(t, b) =>
      case Write(t, b, at, v) =>
      case Free(t, b, reallocs) => AcceptOnePlace(cfg, s, b, reallocs);
      case DrainOne => TakeLast(s.free);
    }
  }

  lemma DiscardLog(cfg: Config, s: Pool, b: Buffer, offset: nat)
    ensures var l := Discard(cfg, s, b, offset).log;
            && Growths(l) == Growths(s.log)
            && Constructions(l) == Constructions(s.log)
            && Destructions(l) == Destructions(s.log) + (if cfg.destructs then 1 else 0)
            && Ideal(l) == Ideal(s.log)
            && (forall c :: c != b ==> LifeOf(cfg, l, c) == LifeOf(cfg, s.log, c))
            && (LifeOf(cfg, s.log, b) == Ready ==> LifeOf(cfg, l, b) == Absent)
  {
    hide Ideal, LifeOf, Growths, Constructions, Destructions;
    LogStep(cfg, s.log, Destructed(b, offset));
    LogStep(cfg, s.log + [Destructed(b, offset)], Released(b));
    LogStep(cfg, s.log, Released(b));
  }

  lemma AllocPooledRecorded(cfg: Config, s: Pool, t: Thread)
    requires Recorded(cfg, s) && OnePlace(s) && s.free != []
    ensures Recorded(cfg, Next(cfg, s, AllocPooled(t)))
  {
    hide Ideal, LifeOf, Growths, Distinct;
    LogStep(cfg, s.log, HandedOut(Last(s.free), true));
  }

  lemma AllocUnconstructedRecorded(cfg: Config, s: Pool, t: Thread, b: Buffer)
    requires Recorded(cfg, s) && OnePlace(s) && Enabled(cfg, s, AllocUnconstructed(t, b))
    ensures Recorded(cfg, Next(cfg, s, AllocUnconstructed(t, b)))
  {
    hide Ideal, LifeOf, Growths, OnePlace, Pow2;
    FailedLogFacts(cfg, s.log, b, cfg.ObjectOffset());
  }

  lemma FailedLogFacts(cfg: Config, log: seq<Event>, b: Buffer, offset: nat)
    requires cfg.constructs && Ideal(log) == Stack([]) && LifeOf(cfg, log, b) == Absent
    ensures var l := log + [Malloced(b)] + [ConstructorFailed(b, offset)] + [Released(b)];
            && Ideal(l) == Ideal(log) && Growths(l) == Growths(log)
            && (forall c :: LifeOf(cfg, l, c) == LifeOf(cfg, log, c))
  {
    hide Ideal, LifeOf, Growths;
    LogStep(cfg, log, Malloced(b));
    LogStep(cfg, log + [Malloced(b)], ConstructorFailed(b, offset));
    LogStep(cfg, log + [Malloced(b)] + [ConstructorFailed(b, offset)], Released(b));
  }

  function NewLog(cfg: Config, log: seq<Event>, b: Buffer): seq<Event> {
    (if cfg.constructs then log + [Malloced(b)] + [Constructed(b, cfg.ObjectOffset())] else log + [Malloced(b)])
    + [HandedOut(b, false)]
  }

  lemma NewLogFacts(cfg: Config, log: seq<Event>, b: Buffer)
    requires Ideal(log) == Stack([]) && LifeOf(cfg, log, b) == Absent
    ensures var l := NewLog(cfg, log, b);
            && Ideal(l) == Stack([])
            && Growths(l) == Growths(log)
            && LifeOf(cfg, l, b) == Ready
            && (forall c :: c != b ==> LifeOf(cfg, l, c) == LifeOf(cfg, log, c))
            && Destructions(l) == Destructions(log)
            && Constructions(l) == Constructions(log) + if cfg.constructs then 1 else 0
  {
    hide Ideal, LifeOf, Growths, Constructions, Destructions;
    LogStep(cfg, log, Malloced(b));
    var m := log + [Malloced(b)];
    if cfg.constructs {
      LogStep(cfg, m, Constructed(b, cfg.ObjectOffset()));
      LogStep(cfg, m + [Constructed(b, cfg.ObjectOffset())], HandedOut(b, false));
    } else {
      LogStep(cfg, m, HandedOut(b, false));
    }
  }

  lemma AllocNewRecorded(cfg: Config, s: Pool, t: Thread, b: Buffer, bytes: seq<Byte>)
    requires Recorded(cfg, s) && OnePlace(s) && Enabled(cfg, s, AllocNew(t, b, bytes))
    ensures Recorded(cfg, Next(cfg, s, AllocNew(t, b, bytes)))
  {
    hide Ideal, LifeOf, Growths, Constructions, Destructions, Distinct, OnePlace, Pow2;
    NewLogFacts(cfg, s.log, b);
    assert Next(cfg, s, AllocNew(t, b, bytes)).log == NewLog(cfg, s.log, b);
    hide NewLog;
  }

  lemma AcceptRecorded(cfg: Config, s: Pool, b: Buffer, reallocs: bool)
    requires Recorded(cfg, s) && OnePlace(s) && b in s.holder
    ensures Recorded(cfg, Accept(cfg, s, b, reallocs))
  {
    hide Ideal, LifeOf, Growths, Constructions, Destructions, Distinct, Pow2;
    assert b in s.mem && LifeOf(cfg, s.log, b) == Ready;
    hide OnePlace;
    if |s.free| < s.total {
      LogStep(cfg, s.log, Returned(b));
    } else if reallocs {
      LogStep(cfg, s.log, Grew);
      LogStep(cfg, s.log + [Grew], Returned(b));
      Pow2Next(Growths(s.log));
    } else {
      var u := s.(holder := s.holder - {b});
      DiscardLog(cfg, u, b, 0);
      DiscardKeeps(cfg, u, b, 0);
      hide Discard;
    }
  }

  lemma Pow2Next(n: nat)
    ensures Pow2(n + 1) == 2 * Pow2(n)
  {
  }

  lemma DrainRecorded(cfg: Config, s: Pool)
    requires Recorded(cfg, s) && OnePlace(s) && s.free != []
    ensures Recorded(cfg, Next(cfg, s, DrainOne))
  {
    hide Ideal, LifeOf, Growths, Constructions, Destructions, Pow2, Discard;
    var b := Last(s.free);
    var d := Note(s.(free := Front(s.free)), Drained(b));
    LogStep(cfg, s.log, Drained(b));
    DiscardLog(cfg, d, b, cfg.ObjectOffset());
    DiscardKeeps(cfg, d, b, cfg.ObjectOffset());
  }

  lemma DiscardKeeps(cfg: Config, s: Pool, b: Buffer, offset: nat)
    ensures var u := Discard(cfg, s, b, offset);
            u == s.(mem := s.mem - {b}, log := u.log)
  {
  }

  /** Neither stamping nor a client's write concerns the history. */
  lemma BytesRecorded(cfg: Config, s: Pool, op: Op)
    requires Recorded(cfg, s) && OnePlace(s) && Enabled(cfg, s, op) && (op.Stamp? || op.Write?)
    ensures Recorded(cfg, Next(cfg, s, op))
  {
    hide Ideal, LifeOf, Growths, Distinct, Pow2, Stamped, Poke, OnePlace;
  }

  lemma ErrorRecorded(cfg: Config, s: Pool)
    requires Recorded(cfg, s)
    ensures Recorded(cfg, s.(error := 1)) && Recorded(cfg, s.(error := -1))
  {
    hide Ideal, LifeOf, Growths, Pow2;
  }

  lemma StepRecorded(cfg: Config, s: Pool, op: Op)
    requires Recorded(cfg, s) && OnePlace(s) && Enabled(cfg, s, op)
    ensures Recorded(cfg, Next(cfg, s, op))
  {
    hide Recorded;
    match op {
      case AllocPooled(t) => AllocPooledRecorded(cfg, s, t);
      case AllocNoMemory(t) =>
      case AllocUnconstructed(t, b) => AllocUnconstructedRecorded(cfg, s, t, b);
      case AllocNew(t, b, bytes) => AllocNewRecorded(cfg, s, t, b, bytes);
      case Stamp(t, b) => BytesRecorded(cfg, s, op);
      case Write(t, b, at, v) => BytesRecorded(cfg, s, op);
      case Free(t, b, reallocs) =>
        ErrorRecorded(cfg, s);
        AcceptRecorded(cfg, s, b, reallocs);
      case DrainOne => DrainRecorded(cfg, s);
    }
  }

  lemma StepInv(cfg: Config, s: Pool, op: Op)
    requires Inv(cfg, s) && Enabled(cfg, s, op)
    ensures Inv(cfg, Next(cfg, s, op))
  {
    hide *;
    UnfoldInv(cfg, s);
    StepOnePlace(cfg, s, op);
    StepRecorded(cfg, s, op);
    UnfoldInv(cfg, Next(cfg, s, op));
  }

  lemma UnfoldInv(cfg: Config, s: Pool)
    ensures Inv(cfg, s) <==> OnePlace(s) && Recorded(cfg, s)
  {
  }

  /** The invariant holds at the end of every run, of any length, by any number of threads. */
  lemma {:induction false} RunInv(cfg: Config, s: Pool, ops: seq<Op>)
    requires Inv(cfg, s) && Feasible(cfg, s, ops)
    ensures Inv(cfg, After(cfg, s, ops))
    decreases |ops|
  {
    hide Inv, Next, Enabled;
    if ops == [] {
    } else {
      StepInv(cfg, s, ops[0]);
      RunInv(cfg, Next(cfg, s, ops[0]), ops[1..]);
    }
  }
}
