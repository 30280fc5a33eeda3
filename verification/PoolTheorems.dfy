/** What the invariant means for the clients of the pool. */
module PoolTheorems {
  import opened Bits
  import opened Words
  import opened Octets
  import opened Sequences
  import opened PoolModel
  import opened PoolRuns

  // ---------------------------------------------------------------- exclusive ownership

  lemma {:induction false} CountOnce(bs: seq<Buffer>, b: Buffer)
    requires Distinct(bs)
    ensures multiset(bs)[b] == if b in bs then 1 else 0
  {
    if bs == [] {
    } else {
      TakeLast(bs);
      CountOnce(Front(bs), b);
      assert bs == Front(bs) + [Last(bs)];
    }
  }

  /**
   * After every run from the empty pool, a live buffer is in exactly one place, once in `ptr[0..freecurr)` or
   * held by one thread, and a buffer that is not live is nowhere.
   */
  lemma ExactlyOnePlace(cfg: Config, ops: seq<Op>, b: Buffer)
    requires Feasible(cfg, INIT, ops)
    ensures var s := After(cfg, INIT, ops);
            multiset(s.free)[b] + (if b in s.holder then 1 else 0) == if b in s.mem then 1 else 0
  {
    hide Feasible, After, Shaped, Historical;
    InitInv(cfg);
    RunInv(cfg, INIT, ops);
    CountOnce(After(cfg, INIT, ops).free, b);
  }

  /** The buffer a step hands out, if it does. */
  predicate HandsOut(s: Pool, op: Op, b: Buffer) {
    || (op.AllocPooled? && s.free != [] && Last(s.free) == b)
    || (op.AllocNew? && op.b == b)
  }

  /** Two outstanding allocations never coincide: what is handed out next is held by nobody. */
  lemma AllocationsNeverCoincide(cfg: Config, ops: seq<Op>, op: Op, b: Buffer)
    requires Feasible(cfg, INIT, ops)
    requires Enabled(cfg, After(cfg, INIT, ops), op) && HandsOut(After(cfg, INIT, ops), op, b)
    ensures b !in After(cfg, INIT, ops).holder
    ensures b in Next(cfg, After(cfg, INIT, ops), op).holder
  {
    hide Feasible, After, Shaped, Historical;
    InitInv(cfg);
    RunInv(cfg, INIT, ops);
  }

  // ---------------------------------------------------------------- the ideal stack and the life cycle

  /** Through any run the pool is the ideal stack of its history, within a capacity that doubles from 64. */
  lemma PoolIsIdealStack(cfg: Config, ops: seq<Op>)
    requires Feasible(cfg, INIT, ops)
    ensures var s := After(cfg, INIT, ops);
            && Ideal(s.log) == Stack(s.free)
            && |s.free| <= s.total == 64 * Pow2(Growths(s.log))
  {
    hide Feasible, After, Ideal, Growths, Pow2;
    InitInv(cfg);
    RunInv(cfg, INIT, ops);
  }

  /** No buffer is ever handed out unconstructed, constructed twice, released undestructed or destructed twice. */
  lemma EveryBufferLivesProperly(cfg: Config, ops: seq<Op>, b: Buffer)
    requires Feasible(cfg, INIT, ops)
    ensures var s := After(cfg, INIT, ops);
            LifeOf(cfg, s.log, b) == if b in s.mem then Ready else Absent
  {
    hide Feasible, After, LifeOf, Shaped, OnePlace, Ideal;
    InitInv(cfg);
    RunInv(cfg, INIT, ops);
  }

  ghost predicate Balanced(s: Pool) {
    Constructions(s.log) == Destructions(s.log) + |s.mem|
  }

  lemma DiscardBalanced(cfg: Config, s: Pool, b: Buffer, offset: nat)
    requires cfg.destructs && Balanced(s) && b in s.mem
    ensures Balanced(Discard(cfg, s, b, offset))
  {
    hide Constructions, Destructions, Ideal, LifeOf, Growths;
    DiscardLog(cfg, s, b, offset);
    DiscardKeeps(cfg, s, b, offset);
    hide Discard;
    assert s.mem.Keys == (s.mem - {b}).Keys + {b};
  }

  lemma UnconstructedBalanced(cfg: Config, s: Pool, t: Thread, b: Buffer)
    requires Balanced(s) && Enabled(cfg, s, AllocUnconstructed(t, b))
    ensures Balanced(Next(cfg, s, AllocUnconstructed(t, b)))
  {
    hide Constructions, Destructions, Ideal, LifeOf, Growths;
    LogStep(cfg, s.log, Malloced(b));
    LogStep(cfg, s.log + [Malloced(b)], ConstructorFailed(b, cfg.ObjectOffset()));
    LogStep(cfg, s.log + [Malloced(b)] + [ConstructorFailed(b, cfg.ObjectOffset())], Released(b));
  }

  lemma NewState(cfg: Config, s: Pool, t: Thread, b: Buffer, bytes: seq<Byte>)
    requires Enabled(cfg, s, AllocNew(t, b, bytes))
    ensures var u := Next(cfg, s, AllocNew(t, b, bytes));
            u.log == NewLog(cfg, s.log, b) && |u.mem| == |s.mem| + 1
  {
    assert s.mem[b := bytes].Keys == s.mem.Keys + {b};
  }

  lemma NewBalanced(cfg: Config, s: Pool, t: Thread, b: Buffer, bytes: seq<Byte>)
    requires cfg.constructs && Recorded(cfg, s) && Balanced(s) && Enabled(cfg, s, AllocNew(t, b, bytes))
    ensures Balanced(Next(cfg, s, AllocNew(t, b, bytes)))
  {
    hide Constructions, Destructions, Ideal, LifeOf, Growths, Shaped;
    assert Ideal(s.log) == Stack([]) && LifeOf(cfg, s.log, b) == Absent;
    hide Recorded, Historical;
    NewLogFacts(cfg, s.log, b);
    NewState(cfg, s, t, b, bytes);
    hide Next, NewLog;
  }

  lemma FreeBalanced(cfg: Config, s: Pool, t: Thread, b: Buffer, reallocs: bool)
    requires cfg.destructs && Balanced(s) && Enabled(cfg, s, Free(t, b, reallocs))
    ensures Balanced(Next(cfg, s, Free(t, b, reallocs)))
  {
    hide Constructions, Destructions, Ideal, LifeOf, Growths;
    LogStep(cfg, s.log, Returned(b));
    LogStep(cfg, s.log, Grew);
    LogStep(cfg, s.log + [Grew], Returned(b));
    DiscardBalanced(cfg, s.(holder := s.holder - {b}), b, 0);
  }

  lemma StepBalanced(cfg: Config, s: Pool, op: Op)
    requires cfg.constructs && cfg.destructs && Inv(cfg, s) && Balanced(s) && Enabled(cfg, s, op)
    ensures Balanced(Next(cfg, s, op))
  {
    hide Constructions, Destructions, Distinct, Shaped, Historical, Ideal, LifeOf, Growths, Accept;
    match op {
      case AllocPooled(t) => LogStep(cfg, s.log, HandedOut(Last(s.free), true));
      case AllocNoMemory(t) =>
      case AllocUnconstructed(t, b) => UnconstructedBalanced(cfg, s, t, b);
      case AllocNew(t, b, bytes) => NewBalanced(cfg, s, t, b, bytes);
      case Stamp(t, b) => assert s.mem[b := Stamped(cfg, s.mem[b])].Keys == s.mem.Keys;
      case Write(t, b, at, v) => assert s.mem[b := Poke(s.mem[b], at, v)].Keys == s.mem.Keys;
      case Free(t, b, reallocs) => FreeBalanced(cfg, s, t, b, reallocs);
      case DrainOne =>
        var b := Last(s.free);
        LogStep(cfg, s.log, Drained(b));
        DiscardBalanced(cfg, Note(s.(free := Front(s.free)), Drained(b)), b, cfg.ObjectOffset());
    }
  }

  lemma {:induction false} RunBalanced(cfg: Config, s: Pool, ops: seq<Op>)
    requires cfg.constructs && cfg.destructs && Inv(cfg, s) && Balanced(s) && Feasible(cfg, s, ops)
    ensures Balanced(After(cfg, s, ops))
    decreases |ops|
  {
    hide Inv, Next, Enabled, Balanced;
    if ops == [] {
    } else {
      StepBalanced(cfg, s, ops[0]);
      StepInv(cfg, s, ops[0]);
      RunBalanced(cfg, Next(cfg, s, ops[0]), ops[1..]);
    }
  }

  function SetOf(bs: seq<Buffer>): set<Buffer> {
    set b | b in bs
  }

  lemma {:induction false} SetOfDistinct(bs: seq<Buffer>)
    requires Distinct(bs)
    ensures |SetOf(bs)| == |bs|
  {
    if bs == [] {
      assert SetOf(bs) == {};
    } else {
      TakeLast(bs);
      SetOfDistinct(Front(bs));
      assert SetOf(bs) == SetOf(Front(bs)) + {Last(bs)};
    }
  }

  lemma LiveCount(s: Pool)
    requires OnePlace(s)
    ensures |s.mem| == |s.free| + |s.holder|
  {
    SetOfDistinct(s.free);
    assert s.mem.Keys == SetOf(s.free) + s.holder.Keys;
    assert SetOf(s.free) !! s.holder.Keys;
    hide OnePlace, SetOf;
  }

  /** With both callbacks set: constructed equals destructed plus pooled plus held, at all times. */
  lemma Conservation(cfg: Config, ops: seq<Op>)
    requires cfg.constructs && cfg.destructs && Feasible(cfg, INIT, ops)
    ensures var s := After(cfg, INIT, ops);
            Constructions(s.log) == Destructions(s.log) + |s.free| + |s.holder|
  {
    hide Feasible, After, Recorded, OnePlace, Constructions, Destructions;
    InitInv(cfg);
    RunInv(cfg, INIT, ops);
    assert Balanced(INIT) by { BalancedInit(); }
    RunBalanced(cfg, INIT, ops);
    LiveCount(After(cfg, INIT, ops));
  }

  lemma BalancedInit()
    ensures Balanced(INIT)
  {
  }

  /** With nothing held, draining the pool, as `cache_destroy` does, leaves no block allocated. */
  lemma NothingLeaks(cfg: Config, ops: seq<Op>)
    requires Feasible(cfg, INIT, ops)
    requires After(cfg, INIT, ops).free == [] && After(cfg, INIT, ops).holder == map[]
    ensures After(cfg, INIT, ops).mem == map[]
  {
    hide Feasible, After, Shaped, Historical;
    InitInv(cfg);
    RunInv(cfg, INIT, ops);
  }

  // ---------------------------------------------------------------- the debug build's redzones

  /** Clients write only inside their objects. */
  predicate Behaved(cfg: Config, op: Op) {
    op.Write? ==> cfg.ObjectOffset() <= op.at < cfg.ObjectOffset() + cfg.size
  }

  predicate AllBehaved(cfg: Config, ops: seq<Op>) {
    forall op :: op in ops ==> Behaved(cfg, op)
  }

  ghost predicate Guarded(cfg: Config, s: Pool) {
    && (forall b :: b in s.mem ==> |s.mem[b]| == cfg.BufSize())
    && s.error == 0
    && (cfg.debug ==> forall b :: b in s.holder && b !in s.unstamped && b in s.mem ==>
          LeadingIntact(cfg, s.mem[b]) && TrailingIntact(cfg, s.mem[b]))
  }

  lemma WriteInside(cfg: Config, bytes: seq<Byte>, at: nat, v: Byte)
    requires cfg.debug && |bytes| == cfg.BufSize() && 8 <= at < 8 + cfg.size
    requires LeadingIntact(cfg, bytes) && TrailingIntact(cfg, bytes)
    ensures LeadingIntact(cfg, Poke(bytes, at, v)) && TrailingIntact(cfg, Poke(bytes, at, v))
  {
    var r := Poke(bytes, at, v);
    assert r[..8] == bytes[..8];
    assert r[8 + cfg.size..] == bytes[8 + cfg.size..];
  }

  lemma StepGuarded(cfg: Config, s: Pool, op: Op)
    requires Inv(cfg, s) && Guarded(cfg, s) && Enabled(cfg, s, op) && Behaved(cfg, op)
    ensures Guarded(cfg, Next(cfg, s, op))
  {
    hide Shaped, Historical, Distinct, Stamped, Poke, LeadingIntact, TrailingIntact;
    if op.Write? && cfg.debug {
      WriteInside(cfg, s.mem[op.b], op.at, op.v);
    }
  }

  /** Over any run of behaved clients every redzone check passes: no `cache_free` is refused and no error is raised. */
  lemma {:induction false} RunGuarded(cfg: Config, s: Pool, ops: seq<Op>)
    requires Inv(cfg, s) && Guarded(cfg, s) && Feasible(cfg, s, ops) && AllBehaved(cfg, ops)
    ensures Guarded(cfg, After(cfg, s, ops))
    decreases |ops|
  {
    hide Inv, Next, Enabled, Guarded, Behaved;
    if ops == [] {
    } else {
      StepGuarded(cfg, s, ops[0]);
      StepInv(cfg, s, ops[0]);
      RunGuarded(cfg, Next(cfg, s, ops[0]), ops[1..]);
    }
  }

  lemma ChecksAlwaysPass(cfg: Config, ops: seq<Op>, t: Thread, b: Buffer, reallocs: bool)
    requires Feasible(cfg, INIT, ops) && AllBehaved(cfg, ops)
    requires Enabled(cfg, After(cfg, INIT, ops), Free(t, b, reallocs))
    ensures After(cfg, INIT, ops).error == 0
    ensures Next(cfg, After(cfg, INIT, ops), Free(t, b, reallocs)) == Accept(cfg, After(cfg, INIT, ops), b, reallocs)
  {
    hide Feasible, After, Inv, Accept, LeadingIntact, TrailingIntact;
    InitInv(cfg);
    RunGuarded(cfg, INIT, ops);
  }

  /** Whatever the clients did: which frees are refused, with which error, and that a refused buffer stays out of the pool. */
  lemma RefusedFrees(cfg: Config, s: Pool, t: Thread, b: Buffer, reallocs: bool)
    requires Inv(cfg, s) && Enabled(cfg, s, Free(t, b, reallocs))
    ensures var u := Next(cfg, s, Free(t, b, reallocs));
            var trailing := cfg.debug && !TrailingIntact(cfg, s.mem[b]);
            var leading := cfg.debug && !LeadingIntact(cfg, s.mem[b]);
            && (b in u.free <==> !trailing && !leading && (|s.free| < s.total || reallocs))
            && (b in u.holder <==> trailing || leading)
            && u.error == (if trailing then 1 else if leading then -1 else s.error)
            && (trailing || leading ==> u == s.(error := u.error))
  {
    hide Historical, Shaped;
  }

  /** A free undone by the next allocation: the last buffer freed is the first one reused. */
  lemma LastFreedFirstReused(cfg: Config, s: Pool, t: Thread, b: Buffer, reallocs: bool, t': Thread)
    requires Inv(cfg, s) && Enabled(cfg, s, Free(t, b, reallocs)) && b !in Next(cfg, s, Free(t, b, reallocs)).holder
    requires b in Next(cfg, s, Free(t, b, reallocs)).mem
    ensures var u := Next(cfg, s, Free(t, b, reallocs));
            && Enabled(cfg, u, AllocPooled(t'))
            && var v := Next(cfg, u, AllocPooled(t'));
               v.free == s.free && v.mem == s.mem && v.holder == s.holder[b := t']
  {
    hide Historical, Shaped, Distinct, LeadingIntact, TrailingIntact, Sized;
  }

  lemma PokedRedzone(cfg: Config, bytes: seq<Byte>, at: nat, v: Byte)
    requires cfg.debug && |bytes| == cfg.BufSize() && at < |bytes| && v != bytes[at]
    requires LeadingIntact(cfg, bytes) && TrailingIntact(cfg, bytes)
    ensures LeadingIntact(cfg, Poke(bytes, at, v)) <==> at >= 8
    ensures TrailingIntact(cfg, Poke(bytes, at, v)) <==> at < 8 + cfg.size
  {
    var r := Poke(bytes, at, v);
    assert at < 8 ==> r[..8][at] != bytes[..8][at];
    assert at >= 8 ==> r[..8] == bytes[..8];
    var k := at - 8 - cfg.size;
    assert k >= 0 ==> r[8 + cfg.size..][k] != bytes[8 + cfg.size..][k];
    assert k < 0 ==> r[8 + cfg.size..] == bytes[8 + cfg.size..];
  }

  /**
   * Each of the sixteen redzone bytes is guarded, and no other: after one byte of an intact buffer is altered, its free
   * is refused with -1 before the object, with 1 behind it, and accepted inside it.
   */
  lemma EveryRedzoneByte(cfg: Config, s: Pool, t: Thread, b: Buffer, at: nat, v: Byte, reallocs: bool)
    requires cfg.debug && Inv(cfg, s) && Enabled(cfg, s, Write(t, b, at, v)) && v != s.mem[b][at]
    requires LeadingIntact(cfg, s.mem[b]) && TrailingIntact(cfg, s.mem[b])
    ensures var w := Next(cfg, s, Write(t, b, at, v));
            && Enabled(cfg, w, Free(t, b, reallocs))
            && Next(cfg, w, Free(t, b, reallocs)) ==
                 if at < 8 then w.(error := -1)
                 else if at >= 8 + cfg.size then w.(error := 1)
                 else Accept(cfg, w, b, reallocs)
  {
    hide Historical, Distinct, LeadingIntact, TrailingIntact, Accept;
    PokedRedzone(cfg, s.mem[b], at, v);
  }

  /** The pattern as the code writes it, a 64-bit integer in the memory of a little-endian machine. */
  lemma RedzonePattern()
    ensures REDZONE == Le(0xdeadbeefcafebabe, 8)
  {
    assert Le(0xdeadbeef, 4) == [0xef, 0xbe, 0xad, 0xde];
    assert Le(0xdeadbeefcafe, 6) == [0xfe, 0xca] + Le(0xdeadbeef, 4);
  }

  // ---------------------------------------------------------------- what the next holder sees

  /** Nobody may write to `b`: it is pooled, or handed out and not yet stamped. */
  predicate Quiet(s: Pool, b: Buffer) {
    b in s.mem && (b in s.free || b in s.unstamped)
  }

  predicate StaysQuiet(cfg: Config, s: Pool, ops: seq<Op>, b: Buffer)
    requires Feasible(cfg, s, ops)
    decreases |ops|
  {
    Quiet(s, b) && (ops == [] || StaysQuiet(cfg, Next(cfg, s, ops[0]), ops[1..], b))
  }

  lemma QuietStep(cfg: Config, s: Pool, op: Op, b: Buffer)
    requires Inv(cfg, s) && Enabled(cfg, s, op) && Quiet(s, b) && b in Next(cfg, s, op).mem
    ensures Object(cfg, Next(cfg, s, op).mem[b]) == Object(cfg, s.mem[b])
  {
    hide Historical, Distinct;
  }

  lemma {:induction false} QuietRun(cfg: Config, s: Pool, ops: seq<Op>, b: Buffer)
    requires Inv(cfg, s) && Feasible(cfg, s, ops) && StaysQuiet(cfg, s, ops, b)
    ensures Inv(cfg, After(cfg, s, ops)) && Quiet(After(cfg, s, ops), b)
    ensures Object(cfg, After(cfg, s, ops).mem[b]) == Object(cfg, s.mem[b])
    decreases |ops|
  {
    hide Next, Enabled, Object, Historical, OnePlace;
    if ops == [] {
    } else {
      StepInv(cfg, s, ops[0]);
      QuietRun(cfg, Next(cfg, s, ops[0]), ops[1..], b);
      QuietStep(cfg, s, ops[0], b);
    }
  }

  /** A quiet buffer reaches the thread that the last step gives it to with its object bytes untouched. */
  lemma QuietHandover(cfg: Config, s: Pool, ops: seq<Op>, op: Op, t: Thread, b: Buffer)
    requires Inv(cfg, s) && Feasible(cfg, s, ops) && StaysQuiet(cfg, s, ops, b)
    requires Enabled(cfg, After(cfg, s, ops), op) && Holds(Next(cfg, After(cfg, s, ops), op), t, b)
    ensures var u := Next(cfg, After(cfg, s, ops), op);
            b in u.mem && |u.mem[b]| == cfg.BufSize() && Object(cfg, u.mem[b]) == Object(cfg, s.mem[b])
  {
    hide Historical, Feasible, After, StaysQuiet, Next, Enabled, Object, Distinct;
    QuietRun(cfg, s, ops, b);
    StepInv(cfg, After(cfg, s, ops), op);
    QuietStep(cfg, After(cfg, s, ops), op, b);
  }

  /**
   * From the `cache_free` that pools `b` to the step that makes it someone's again (the stamping in the debug build, the
   * locked region of `cache_alloc` in the NDEBUG build), however all threads interleave in between: the new holder
   * sees the object bytes as they were when it was freed.
   */
  lemma NextHolderSees(cfg: Config, s: Pool, giver: Thread, b: Buffer, reallocs: bool, ops: seq<Op>, op: Op, t: Thread)
    requires Inv(cfg, s) && Enabled(cfg, s, Free(giver, b, reallocs)) && b in Next(cfg, s, Free(giver, b, reallocs)).free
    requires Feasible(cfg, Next(cfg, s, Free(giver, b, reallocs)), ops)
    requires StaysQuiet(cfg, Next(cfg, s, Free(giver, b, reallocs)), ops, b)
    requires Enabled(cfg, After(cfg, Next(cfg, s, Free(giver, b, reallocs)), ops), op)
    requires Holds(Next(cfg, After(cfg, Next(cfg, s, Free(giver, b, reallocs)), ops), op), t, b)
    ensures var u := Next(cfg, After(cfg, Next(cfg, s, Free(giver, b, reallocs)), ops), op);
            b in u.mem && |u.mem[b]| == cfg.BufSize() && Object(cfg, u.mem[b]) == Object(cfg, s.mem[b])
  {
    hide Inv, Feasible, After, StaysQuiet, Holds, Object;
    StepInv(cfg, s, Free(giver, b, reallocs));
    FreedBytes(cfg, s, giver, b, reallocs);
    QuietHandover(cfg, Next(cfg, s, Free(giver, b, reallocs)), ops, op, t, b);
  }

  /** Freeing changes no byte of a buffer that goes into the pool. */
  lemma FreedBytes(cfg: Config, s: Pool, t: Thread, b: Buffer, reallocs: bool)
    requires Inv(cfg, s) && Enabled(cfg, s, Free(t, b, reallocs)) && b in Next(cfg, s, Free(t, b, reallocs)).free
    ensures var u := Next(cfg, s, Free(t, b, reallocs));
            b in u.mem && u.mem[b] == s.mem[b]
  {
    hide Historical, Shaped, Distinct;
  }

  /** Which step that is, in either build. */
  lemma HandoverStep(cfg: Config, s: Pool, op: Op, t: Thread, b: Buffer)
    requires Inv(cfg, s) && Enabled(cfg, s, op) && Quiet(s, b)
    ensures Holds(Next(cfg, s, op), t, b) <==>
              if cfg.debug then op == Stamp(t, b) else op == AllocPooled(t) && Last(s.free) == b
  {
    hide Historical, Distinct;
    if op.AllocPooled? {
      TakeLast(s.free);
    }
  }

  /** A fresh buffer reaches its first holder with the content its constructor left. */
  lemma FirstHolderSees(cfg: Config, s: Pool, t: Thread, b: Buffer, bytes: seq<Byte>, ops: seq<Op>)
    requires cfg.debug && Inv(cfg, s) && Enabled(cfg, s, AllocNew(t, b, bytes))
    requires Feasible(cfg, Next(cfg, s, AllocNew(t, b, bytes)), ops)
    requires StaysQuiet(cfg, Next(cfg, s, AllocNew(t, b, bytes)), ops, b)
    requires Enabled(cfg, After(cfg, Next(cfg, s, AllocNew(t, b, bytes)), ops), Stamp(t, b))
    ensures var u := Next(cfg, After(cfg, Next(cfg, s, AllocNew(t, b, bytes)), ops), Stamp(t, b));
            b in u.mem && |u.mem[b]| == cfg.BufSize() && Object(cfg, u.mem[b]) == Object(cfg, bytes)
  {
    hide Inv, Feasible, After, StaysQuiet, Stamped;
    StepInv(cfg, s, AllocNew(t, b, bytes));
    QuietHandover(cfg, Next(cfg, s, AllocNew(t, b, bytes)), ops, Stamp(t, b), t, b);
  }

  // ---------------------------------------------------------------- the destructor's argument

  predicate DestructsObjects(cfg: Config, log: seq<Event>) {
    forall i :: 0 <= i < |log| && log[i].Destructed? ==> log[i].offset == cfg.ObjectOffset()
  }

  /** Without redzones or without a destructor, nothing is ever destructed with another pointer than the client was given. */
  lemma {:induction false} DestructorGetsObject(cfg: Config, s: Pool, ops: seq<Op>)
    requires !(cfg.debug && cfg.destructs) && Feasible(cfg, s, ops) && DestructsObjects(cfg, s.log)
    ensures DestructsObjects(cfg, After(cfg, s, ops).log)
    decreases |ops|
  {
    if ops == [] {
    } else {
      assert DestructsObjects(cfg, Next(cfg, s, ops[0]).log);
      DestructorGetsObject(cfg, Next(cfg, s, ops[0]), ops[1..]);
    }
  }

  /**
   * A `cache_free` that cannot grow the full pool hands the destructor the base of the block, which is
   * the client's pointer if and only if redzones are compiled out.
   */
  lemma DroppedBufferArgument(cfg: Config, s: Pool, t: Thread, b: Buffer)
    requires Inv(cfg, s) && Enabled(cfg, s, Free(t, b, false)) && cfg.destructs && |s.free| == s.total
    requires cfg.debug ==> LeadingIntact(cfg, s.mem[b]) && TrailingIntact(cfg, s.mem[b])
    ensures var u := Next(cfg, s, Free(t, b, false));
            && u.log == s.log + [Destructed(b, 0)] + [Released(b)]
            && u.free == s.free && u.mem == s.mem - {b}
            && (u.log[|s.log|].offset == cfg.ObjectOffset() <==> !cfg.debug)
  {
  }

  // ---------------------------------------------------------------- a run in which the base is passed

  lemma {:induction false} RunAppend(cfg: Config, s: Pool, ops: seq<Op>, op: Op)
    requires Feasible(cfg, s, ops) && Enabled(cfg, After(cfg, s, ops), op)
    ensures Feasible(cfg, s, ops + [op]) && After(cfg, s, ops + [op]) == Next(cfg, After(cfg, s, ops), op)
    decreases |ops|
  {
    hide Enabled, Next;
    if ops == [] {
      assert (ops + [op])[1..] == [];
    } else {
      assert (ops + [op])[1..] == ops[1..] + [op];
      RunAppend(cfg, Next(cfg, s, ops[0]), ops[1..], op);
    }
  }

  /** Thread 0 has been given the buffers `lo` to `hi - 1`, and `lo` buffers are pooled. */
  ghost predicate Handing(s: Pool, lo: nat, hi: nat) {
    && |s.free| == lo && s.total == INITIAL_POOL_SIZE
    && (forall b :: lo <= b < hi ==> Holds(s, 0, b))
    && (forall b :: b in s.mem ==> b < hi)
  }

  /** A run that allocates `n` buffers. */
  lemma {:induction false} AllocMany(cfg: Config, n: nat) returns (ops: seq<Op>)
    requires cfg.debug
    ensures Feasible(cfg, INIT, ops) && AllBehaved(cfg, ops) && Handing(After(cfg, INIT, ops), 0, n)
  {
    if n == 0 {
      ops := [];
    } else {
      ops := AllocMany(cfg, n - 1);
      var s := After(cfg, INIT, ops);
      var bytes := seq(cfg.BufSize(), _ => 0);
      InitInv(cfg);
      RunInv(cfg, INIT, ops);
      RunAppend(cfg, INIT, ops, AllocNew(0, n - 1, bytes));
      RunAppend(cfg, INIT, ops + [AllocNew(0, n - 1, bytes)], Stamp(0, n - 1));
      AllocStep(cfg, s, n, bytes);
      ops := ops + [AllocNew(0, n - 1, bytes)] + [Stamp(0, n - 1)];
    }
  }

  lemma AllocStep(cfg: Config, s: Pool, n: nat, bytes: seq<Byte>)
    requires cfg.debug && n > 0 && Handing(s, 0, n - 1) && |bytes| == cfg.BufSize()
    ensures Enabled(cfg, s, AllocNew(0, n - 1, bytes))
    ensures Enabled(cfg, Next(cfg, s, AllocNew(0, n - 1, bytes)), Stamp(0, n - 1))
    ensures Handing(Next(cfg, Next(cfg, s, AllocNew(0, n - 1, bytes)), Stamp(0, n - 1)), 0, n)
  {
    var t := Next(cfg, s, AllocNew(0, n - 1, bytes));
    var u := Next(cfg, t, Stamp(0, n - 1));
    forall b | 0 <= b < n
      ensures Holds(u, 0, b)
    {
      assert b < n - 1 ==> Holds(s, 0, b);
    }
  }

  /** A run that goes on to free the first `lo` of them. */
  lemma {:induction false} FreeMany(cfg: Config, lo: nat, n: nat) returns (ops: seq<Op>)
    requires cfg.debug && lo <= n && lo <= INITIAL_POOL_SIZE
    ensures Feasible(cfg, INIT, ops) && AllBehaved(cfg, ops) && Handing(After(cfg, INIT, ops), lo, n)
    decreases lo
  {
    if lo == 0 {
      ops := AllocMany(cfg, n);
    } else {
      ops := FreeMany(cfg, lo - 1, n);
      var s := After(cfg, INIT, ops);
      FreeEnabled(cfg, ops, lo - 1, n);
      RunAppend(cfg, INIT, ops, Free(0, lo - 1, false));
      FreeStep(cfg, s, lo, n);
      ops := ops + [Free(0, lo - 1, false)];
    }
  }

  lemma FreeEnabled(cfg: Config, ops: seq<Op>, b: nat, n: nat)
    requires Feasible(cfg, INIT, ops) && AllBehaved(cfg, ops) && Handing(After(cfg, INIT, ops), b, n) && b < n
    ensures var s := After(cfg, INIT, ops);
            && Inv(cfg, s) && Guarded(cfg, s) && Enabled(cfg, s, Free(0, b, false))
            && Next(cfg, s, Free(0, b, false)) == Accept(cfg, s, b, false)
  {
    hide Feasible, After, AllBehaved, Recorded, Distinct, Accept, LeadingIntact, TrailingIntact;
    InitInv(cfg);
    RunInv(cfg, INIT, ops);
    RunGuarded(cfg, INIT, ops);
    assert Holds(After(cfg, INIT, ops), 0, b);
  }

  lemma FreeStep(cfg: Config, s: Pool, lo: nat, n: nat)
    requires 0 < lo <= n && lo <= INITIAL_POOL_SIZE && Handing(s, lo - 1, n)
    ensures Handing(Accept(cfg, s, lo - 1, false), lo, n)
  {
    var u := Accept(cfg, s, lo - 1, false);
    forall b | lo <= b < n
      ensures Holds(u, 0, b)
    {
      assert Holds(s, 0, b);
    }
  }

  /** 65 allocations, 65 frees, and no memory to grow the pool for the last of them. */
  lemma DestructorGetsBase(cfg: Config) returns (ops: seq<Op>)
    requires cfg.debug && cfg.destructs
    ensures Feasible(cfg, INIT, ops) && AllBehaved(cfg, ops)
    ensures !DestructsObjects(cfg, After(cfg, INIT, ops).log)
  {
    ops := FreeMany(cfg, INITIAL_POOL_SIZE, INITIAL_POOL_SIZE + 1);
    var s := After(cfg, INIT, ops);
    var b := INITIAL_POOL_SIZE;
    FreeEnabled(cfg, ops, b, b + 1);
    RunAppend(cfg, INIT, ops, Free(0, b, false));
    ops := ops + [Free(0, b, false)];
    assert After(cfg, INIT, ops).log == s.log + [Destructed(b, 0)] + [Released(b)];
    assert After(cfg, INIT, ops).log[|s.log|] == Destructed(b, 0);
  }

  /**
   * The destructor receives the client's pointer in every run if and only if the build has no redzones
   * or the cache has no destructor.
   */
  lemma DestructorArgumentVerdict(cfg: Config)
    ensures (forall ops :: Feasible(cfg, INIT, ops) ==> DestructsObjects(cfg, After(cfg, INIT, ops).log))
       <==> !(cfg.debug && cfg.destructs)
  {
    hide DestructsObjects, Feasible, After;
    if cfg.debug && cfg.destructs {
      var ops := DestructorGetsBase(cfg);
      assert Feasible(cfg, INIT, ops) && !DestructsObjects(cfg, After(cfg, INIT, ops).log);
    } else {
      forall ops | Feasible(cfg, INIT, ops)
        ensures DestructsObjects(cfg, After(cfg, INIT, ops).log)
      {
        NothingDestructed(cfg);
        DestructorGetsObject(cfg, INIT, ops);
      }
    }
  }

  lemma NothingDestructed(cfg: Config)
    ensures DestructsObjects(cfg, INIT.log)
  {
  }

  // ---------------------------------------------------------------- the same, run by run

  /** The one step that passes the base: a free that passes its checks finds the pool full and cannot grow it. */
  predicate Drops(cfg: Config, s: Pool, op: Op)
    requires Enabled(cfg, s, op)
  {
    && op.Free? && !op.reallocs && |s.free| == s.total
    && (cfg.debug ==> LeadingIntact(cfg, s.mem[op.b]) && TrailingIntact(cfg, s.mem[op.b]))
  }

  predicate SomeDrop(cfg: Config, s: Pool, ops: seq<Op>)
    requires Feasible(cfg, s, ops)
    decreases |ops|
  {
    ops != [] && (Drops(cfg, s, ops[0]) || SomeDrop(cfg, Next(cfg, s, ops[0]), ops[1..]))
  }

  lemma DestructsAppend(cfg: Config, log: seq<Event>, e: Event)
    ensures DestructsObjects(cfg, log + [e]) <==>
              DestructsObjects(cfg, log) && (e.Destructed? ==> e.offset == cfg.ObjectOffset())
  {
    assert (log + [e])[|log|] == e;
    assert forall i :: 0 <= i < |log| ==> (log + [e])[i] == log[i];
  }

  lemma DiscardDestructs(cfg: Config, s: Pool, b: Buffer, offset: nat)
    ensures DestructsObjects(cfg, Discard(cfg, s, b, offset).log) <==>
              DestructsObjects(cfg, s.log) && (cfg.destructs ==> offset == cfg.ObjectOffset())
  {
    hide DestructsObjects;
    DestructsAppend(cfg, s.log, Destructed(b, offset));
    DestructsAppend(cfg, s.log + [Destructed(b, offset)], Released(b));
    DestructsAppend(cfg, s.log, Released(b));
  }

  lemma AllocDestructs(cfg: Config, s: Pool, op: Op)
    requires Enabled(cfg, s, op) && (op.AllocPooled? || op.AllocUnconstructed? || op.AllocNew?)
    ensures DestructsObjects(cfg, Next(cfg, s, op).log) <==> DestructsObjects(cfg, s.log)
  {
    hide DestructsObjects;
    match op {
      case AllocPooled(t) => DestructsAppend(cfg, s.log, HandedOut(Last(s.free), true));
      case AllocUnconstructed(t, b) =>
        DestructsAppend(cfg, s.log, Malloced(b));
        DestructsAppend(cfg, s.log + [Malloced(b)], ConstructorFailed(b, cfg.ObjectOffset()));
        DestructsAppend(cfg, s.log + [Malloced(b)] + [ConstructorFailed(b, cfg.ObjectOffset())], Released(b));
      case AllocNew(t, b, bytes) =>
        DestructsAppend(cfg, s.log, Malloced(b));
        DestructsAppend(cfg, s.log + [Malloced(b)], Constructed(b, cfg.ObjectOffset()));
        DestructsAppend(cfg, s.log + [Malloced(b)] + [Constructed(b, cfg.ObjectOffset())], HandedOut(b, false));
        DestructsAppend(cfg, s.log + [Malloced(b)], HandedOut(b, false));
    }
  }

  lemma AcceptDestructs(cfg: Config, s: Pool, b: Buffer, reallocs: bool)
    requires |s.free| <= s.total
    ensures DestructsObjects(cfg, Accept(cfg, s, b, reallocs).log) <==>
              DestructsObjects(cfg, s.log) && !(cfg.debug && cfg.destructs && !reallocs && |s.free| == s.total)
  {
    hide DestructsObjects, Discard;
    DestructsAppend(cfg, s.log, Returned(b));
    DestructsAppend(cfg, s.log, Grew);
    DestructsAppend(cfg, s.log + [Grew], Returned(b));
    DiscardDestructs(cfg, s.(holder := s.holder - {b}), b, 0);
  }

  lemma StepDestructs(cfg: Config, s: Pool, op: Op)
    requires Inv(cfg, s) && Enabled(cfg, s, op)
    ensures DestructsObjects(cfg, Next(cfg, s, op).log) <==>
              DestructsObjects(cfg, s.log) && !(cfg.debug && cfg.destructs && Drops(cfg, s, op))
  {
    hide DestructsObjects, Discard, Accept, Historical, OnePlace, Stamped, Poke, LeadingIntact, TrailingIntact;
    match op {
      case AllocPooled(_) => AllocDestructs(cfg, s, op);
      case AllocUnconstructed(_, _) => AllocDestructs(cfg, s, op);
      case AllocNew(_, _, _) => AllocDestructs(cfg, s, op);
      case Free(t, b, reallocs) => AcceptDestructs(cfg, s, b, reallocs);
      case DrainOne =>
        var b := Last(s.free);
        DestructsAppend(cfg, s.log, Drained(b));
        DiscardDestructs(cfg, Note(s.(free := Front(s.free)), Drained(b)), b, cfg.ObjectOffset());
      case _ =>
    }
  }

  lemma {:induction false} RunDestructs(cfg: Config, s: Pool, ops: seq<Op>)
    requires Inv(cfg, s) && Feasible(cfg, s, ops)
    ensures DestructsObjects(cfg, After(cfg, s, ops).log) <==>
              DestructsObjects(cfg, s.log) && !(cfg.debug && cfg.destructs && SomeDrop(cfg, s, ops))
    decreases |ops|
  {
    hide DestructsObjects, Drops, Inv, Next, Enabled;
    if ops == [] {
    } else {
      StepInv(cfg, s, ops[0]);
      StepDestructs(cfg, s, ops[0]);
      RunDestructs(cfg, Next(cfg, s, ops[0]), ops[1..]);
    }
  }

  /**
   * In every single run, each destructed buffer was passed by the pointer its client had, `cache_destroy` included, if and
   * only if no accepted free of a debug build with a destructor met a full pool that could not grow.
   */
  lemma DestructorArgumentPerRun(cfg: Config, ops: seq<Op>)
    requires Feasible(cfg, INIT, ops)
    ensures (forall b, offset :: Destructed(b, offset) in After(cfg, INIT, ops).log ==> offset == if cfg.debug then 8 else 0)
       <==> !(cfg.debug && cfg.destructs && SomeDrop(cfg, INIT, ops))
  {
    hide Feasible, After, Inv, SomeDrop;
    InitInv(cfg);
    NothingDestructed(cfg);
    RunDestructs(cfg, INIT, ops);
    var log := After(cfg, INIT, ops).log;
    if !DestructsObjects(cfg, log) {
      var i :| 0 <= i < |log| && log[i].Destructed? && log[i].offset != cfg.ObjectOffset();
      assert Destructed(log[i].b, log[i].offset) in log;
    }
  }

  lemma ConstructsObject(cfg: Config, s: Pool, op: Op)
    requires Enabled(cfg, s, op)
    ensures forall e :: e in Next(cfg, s, op).log && (e.Constructed? || e.ConstructorFailed?) ==>
              e in s.log || e.offset == if cfg.debug then 8 else 0
  {
    hide Sized, LeadingIntact, TrailingIntact, Stamped, Poke;
  }

  /** The constructor, whether it fails or not, is always given the pointer the client will have. */
  lemma {:induction false} ConstructorGetsObject(cfg: Config, s: Pool, ops: seq<Op>)
    requires Feasible(cfg, s, ops)
    ensures forall e :: e in After(cfg, s, ops).log && (e.Constructed? || e.ConstructorFailed?) ==>
              e in s.log || e.offset == if cfg.debug then 8 else 0
    decreases |ops|
  {
    hide Next, Enabled;
    if ops == [] {
    } else {
      ConstructsObject(cfg, s, ops[0]);
      ConstructorGetsObject(cfg, Next(cfg, s, ops[0]), ops[1..]);
    }
  }
}
