/** cache.c itself: the array of free buffers, changed in place, refines the steps of the pool. */
module CacheCode {
  import opened Words
  import opened Sequences
  import opened PoolModel
  import opened PoolRuns

  /** A pointer into a malloced block. */
  datatype Pointer = Null | At(block: Buffer, offset: nat)

  /** What `malloc`, and after it the constructor, produce when `cache_alloc` needs a new buffer. */
  datatype Memory = Exhausted | Block(b: Buffer, bytes: seq<Byte>, constructed: bool)

  predicate Possible(cfg: Config, s: Pool, m: Memory) {
    m.Block? ==> m.b !in s.mem && |m.bytes| == cfg.BufSize() && (!m.constructed ==> cfg.constructs)
  }

  function Stamping(cfg: Config, t: Thread, b: Buffer): seq<Op> {
    if cfg.debug then [Stamp(t, b)] else []
  }

  /** The steps one `cache_alloc` takes: its locked region, then the stamping of the redzones. */
  function AllocOps(cfg: Config, s: Pool, t: Thread, m: Memory): seq<Op> {
    if s.free != [] then [AllocPooled(t)] + Stamping(cfg, t, Last(s.free))
    else match m
      case Exhausted => [AllocNoMemory(t)]
      case Block(b, bytes, constructed) =>
        if constructed then [AllocNew(t, b, bytes)] + Stamping(cfg, t, b) else [AllocUnconstructed(t, b)]
  }

  /** The client's pointer: the object in the buffer on top of the stack, or else in a new one. */
  function Allocated(cfg: Config, s: Pool, m: Memory): Pointer {
    if s.free != [] then At(Last(s.free), cfg.ObjectOffset())
    else if m.Block? && m.constructed then At(m.b, cfg.ObjectOffset())
    else Null
  }

  function GetObject(cfg: Config, p: Pointer): Pointer
    requires p.At?
  {
    if cfg.debug then At(p.block, p.offset + 8) else p
  }

  function Drains(n: nat): seq<Op> {
    if n == 0 then [] else [DrainOne] + Drains(n - 1)
  }

  lemma OneStep(cfg: Config, s: Pool, op: Op)
    requires Enabled(cfg, s, op)
    ensures Feasible(cfg, s, [op]) && After(cfg, s, [op]) == Next(cfg, s, op)
  {
  }

  lemma TwoSteps(cfg: Config, s: Pool, op: Op, op': Op)
    requires Enabled(cfg, s, op) && Enabled(cfg, Next(cfg, s, op), op')
    ensures Feasible(cfg, s, [op] + [op'])
    ensures After(cfg, s, [op] + [op']) == Next(cfg, Next(cfg, s, op), op')
  {
    assert ([op] + [op'])[1..] == [op'];
    OneStep(cfg, Next(cfg, s, op), op');
  }

  lemma PoolFacts(cfg: Config, s: Pool)
    requires Inv(cfg, s)
    ensures s.total > 0
    ensures forall b :: b in s.unstamped ==> b in s.mem && Sized(cfg, s, b)
    ensures s.free == [] && s.holder == map[] ==> s.mem == map[]
  {
    hide Historical, Distinct;
  }

  /** Whoever gets a buffer holds it afterwards and nobody did before. */
  lemma AllocatedIsHeld(cfg: Config, s: Pool, t: Thread, m: Memory)
    requires Inv(cfg, s) && Possible(cfg, s, m) && Feasible(cfg, s, AllocOps(cfg, s, t, m))
    ensures var u, p := After(cfg, s, AllocOps(cfg, s, t, m)), Allocated(cfg, s, m);
            && (p.At? ==> Holds(u, t, p.block) && p.block !in s.holder)
            && (p.Null? ==> u.holder == s.holder)
  {
    var ops := AllocOps(cfg, s, t, m);
    var u := Next(cfg, s, ops[0]);
    if |ops| == 1 {
      assert ops == [ops[0]];
      OneStep(cfg, s, ops[0]);
    } else {
      assert ops == [ops[0]] + [ops[1]] && ops[1..][0] == ops[1];
      TwoSteps(cfg, s, ops[0], ops[1]);
    }
    hide Historical, Distinct, Stamped, After, Feasible;
  }

  class Cache {
    const cfg: Config
    var ptr: array<Buffer>
    var freecurr: nat
    var freetotal: nat
    /** The blocks malloced for this cache, `cache_error`, and who holds what. */
    var mem: map<Buffer, seq<Byte>>
    var error: int
    ghost var holder: map<Buffer, Thread>
    ghost var unstamped: set<Buffer>
    ghost var log: seq<Event>

    ghost function View(): Pool
      requires freecurr <= ptr.Length
      reads this, ptr
    {
      Pool(ptr[..freecurr], freetotal, mem, holder, unstamped, error, log)
    }

    ghost predicate Valid()
      reads this, ptr
    {
      freecurr <= freetotal == ptr.Length && Inv(cfg, View())
    }

    /** `cache_create` once its allocations have succeeded. */
    constructor (cfg: Config)
      ensures Valid() && fresh(ptr) && this.cfg == cfg && View() == INIT
    {
      this.cfg := cfg;
      ptr := new Buffer[INITIAL_POOL_SIZE];
      freecurr, freetotal := 0, INITIAL_POOL_SIZE;
      mem, error := map[], 0;
      holder, unstamped, log := map[], {}, [];
      new;
      assert ptr[..0] == [];
      InitInv(cfg);
    }

    /**
     * NULL if and only if an allocation fails or `pthread_mutex_init` returns exactly -1; the positive error numbers
     * that POSIX lets it return are taken for success.
     */
    static method Create(cfg: Config, cache: bool, name: bool, slots: bool, mutexInit: int) returns (c: Cache?)
      ensures c == null <==> !cache || !name || !slots || mutexInit == -1
      ensures c != null ==> fresh(c) && fresh(c.ptr) && c.Valid() && c.cfg == cfg && c.View() == INIT
    {
      if !cache || !name || !slots || mutexInit == -1 {
        return null;
      }
      c := new Cache(cfg);
    }

    method Alloc(t: Thread, m: Memory) returns (obj: Pointer)
      requires Valid() && Possible(cfg, View(), m)
      modifies this
      ensures Valid() && ptr == old(ptr)
      ensures Feasible(cfg, old(View()), AllocOps(cfg, old(View()), t, m))
      ensures View() == After(cfg, old(View()), AllocOps(cfg, old(View()), t, m))
      ensures obj == Allocated(cfg, old(View()), m)
      ensures obj.At? ==> obj.offset == (if cfg.debug then 8 else 0) && Holds(View(), t, obj.block) && obj.block !in old(holder)
      ensures obj.Null? ==> old(freecurr) == 0 && (m.Exhausted? || !m.constructed) && holder == old(holder)
    {
      hide Inv, Stamped;
      ghost var s := View();
      var ret := Null;
      obj := Null;
      if freecurr > 0 {
        freecurr := freecurr - 1;
        ret := At(ptr[freecurr], 0);
        obj := GetObject(cfg, ret);
        HandOver(t, ret.block, true);
        assert View() == Next(cfg, s, AllocPooled(t));
      } else if m.Block? {
        ret := At(m.b, 0);
        obj := GetObject(cfg, ret);
        log := log + [Malloced(m.b)];
        if cfg.constructs && !m.constructed {
          log := log + [ConstructorFailed(m.b, obj.offset)] + [Released(m.b)];
          obj := Null;
          assert View() == Next(cfg, s, AllocUnconstructed(t, m.b));
        } else {
          mem := mem[m.b := m.bytes];
          if cfg.constructs {
            log := log + [Constructed(m.b, obj.offset)];
          }
          HandOver(t, m.b, false);
          assert View() == Next(cfg, s, AllocNew(t, m.b, m.bytes));
        }
      }
      ghost var locked := AllocOps(cfg, s, t, m)[0];
      assert View() == Next(cfg, s, locked);
      OneStep(cfg, s, locked);
      StepInv(cfg, s, locked);

      if cfg.debug && obj != Null {
        StampRedzones(t, ret.block);
        TwoSteps(cfg, s, locked, Stamp(t, ret.block));
      }
      AllocatedIsHeld(cfg, s, t, m);
    }

    /** The bookkeeping of a hand-out; the code itself only returns the pointer. */
    ghost method HandOver(t: Thread, b: Buffer, reused: bool)
      modifies this`holder, this`unstamped, this`log
      ensures holder == old(holder)[b := t]
      ensures unstamped == if cfg.debug then old(unstamped) + {b} else old(unstamped)
      ensures log == old(log) + [HandedOut(b, reused)]
    {
      holder := holder[b := t];
      unstamped := if cfg.debug then unstamped + {b} else unstamped;
      log := log + [HandedOut(b, reused)];
    }

    /** After the lock is released: the pattern goes before and after the obj. */
    method StampRedzones(t: Thread, b: Buffer)
      requires Valid() && cfg.debug && b in unstamped && b in holder && holder[b] == t
      modifies this`mem, this`unstamped
      ensures Valid() && Enabled(cfg, old(View()), Stamp(t, b)) && View() == Next(cfg, old(View()), Stamp(t, b))
    {
      hide Inv;
      ghost var s := View();
      PoolFacts(cfg, s);
      var bytes := mem[b];
      mem := mem[b := REDZONE + bytes[8..]];
      bytes := mem[b];
      mem := mem[b := bytes[..8 + cfg.size] + REDZONE];
      unstamped := unstamped - {b};
      assert mem[b] == Stamped(cfg, s.mem[b]);
      assert mem == s.mem[b := Stamped(cfg, s.mem[b])];
      StepInv(cfg, s, Stamp(t, b));
    }

    method Free(t: Thread, obj: Pointer, reallocs: bool)
      requires Valid() && obj.At? && obj.offset == cfg.ObjectOffset()
      requires Enabled(cfg, View(), PoolModel.Free(t, obj.block, reallocs))
      modifies this, ptr
      ensures Valid() && (ptr == old(ptr) || fresh(ptr))
      ensures View() == Next(cfg, old(View()), PoolModel.Free(t, obj.block, reallocs))
    {
      hide Inv;
      ghost var s := View();
      PoolFacts(cfg, s);
      var b := obj.block;
      StepInv(cfg, s, PoolModel.Free(t, b, reallocs));
      if cfg.debug {
        var bytes := mem[b];
        if bytes[8 + cfg.size..] != REDZONE {
          error := 1;
          return;
        }
        if bytes[..8] != REDZONE {
          error := -1;
          return;
        }
      }
      Keep(b, reallocs);
    }

    /** Below the redzone checks: the buffer goes into the array, which may have to grow, or back to the system. */
    method Keep(b: Buffer, reallocs: bool)
      requires freecurr <= freetotal == ptr.Length && freetotal > 0
      modifies this, ptr
      ensures freecurr <= freetotal == ptr.Length && (ptr == old(ptr) || fresh(ptr))
      ensures View() == Accept(cfg, old(View()), b, reallocs)
    {
      ghost var s := View();
      holder := holder - {b};
      if freecurr < freetotal {
        ptr[freecurr] := b;
        freecurr := freecurr + 1;
        log := log + [Returned(b)];
      } else if reallocs {
        Grow();
        ptr[freecurr] := b;
        freecurr := freecurr + 1;
        log := log + [Grew] + [Returned(b)];
      } else {
        if cfg.destructs {
          log := log + [Destructed(b, 0)];
        }
        mem := mem - {b};
        log := log + [Released(b)];
      }
      assert View().free == Accept(cfg, s, b, reallocs).free;
    }

    /** A successful `realloc` to twice the capacity keeps what is in the array. */
    method Grow()
      requires freecurr <= freetotal == ptr.Length && freetotal > 0
      modifies this`ptr, this`freetotal
      ensures fresh(ptr) && freetotal == ptr.Length == 2 * old(freetotal)
      ensures ptr[..freecurr] == old(ptr[..freecurr])
    {
      var newtotal := freetotal * 2;
      var grown := new Buffer[newtotal];
      for i := 0 to freecurr
        invariant grown[..i] == ptr[..i]
        modifies grown
      {
        grown[i] := ptr[i];
      }
      freetotal := newtotal;
      ptr := grown;
    }

    /** `cache_destroy`: every pooled buffer is destructed and freed, the last one pooled first. */
    method Destroy()
      requires Valid()
      modifies this
      ensures Valid() && freecurr == 0 && holder == old(holder)
      ensures Feasible(cfg, old(View()), Drains(old(freecurr)))
      ensures View() == After(cfg, old(View()), Drains(old(freecurr)))
      ensures old(holder) == map[] ==> mem == map[]
      ensures old(log) <= log
      ensures forall i :: |old(log)| <= i < |log| && log[i].Destructed? ==> log[i].offset == if cfg.debug then 8 else 0
      ensures cfg.destructs ==> forall j :: 0 <= j < old(freecurr) ==>
                Destructed(old(ptr[j]), if cfg.debug then 8 else 0) in log[|old(log)|..]
    {
      hide Inv, Next, Enabled;
      ghost var s0, n0 := View(), freecurr;
      DrainsFeasible(cfg, s0, n0);
      while freecurr > 0
        invariant Valid() && ptr == old(ptr) && holder == old(holder)
        invariant Feasible(cfg, View(), Drains(freecurr))
        invariant After(cfg, View(), Drains(freecurr)) == After(cfg, s0, Drains(n0))
        invariant old(log) <= log && freecurr <= n0
        invariant forall i :: |old(log)| <= i < |log| && log[i].Destructed? ==> log[i].offset == if cfg.debug then 8 else 0
        invariant cfg.destructs ==> forall j :: freecurr <= j < n0 ==>
                    Destructed(ptr[j], if cfg.debug then 8 else 0) in log[|old(log)|..]
      {
        assert Drains(freecurr)[1..] == Drains(freecurr - 1);
        ghost var was := log;
        DestroyTop();
        assert log[|old(log)|..] == was[|old(log)|..] + log[|was|..];
        assert cfg.destructs ==> log[|was|..][1] == Destructed(ptr[freecurr], if cfg.debug then 8 else 0);
      }
      PoolFacts(cfg, View());
      assert View().free == [];
    }

    /** One pass of its loop. */
    method DestroyTop()
      requires Valid() && freecurr > 0
      modifies this
      ensures Valid() && ptr == old(ptr) && freecurr == old(freecurr) - 1 && holder == old(holder)
      ensures Enabled(cfg, old(View()), DrainOne) && View() == Next(cfg, old(View()), DrainOne)
      ensures var b := ptr[freecurr];
              log == old(log) + [Drained(b)] + (if cfg.destructs then [Destructed(b, if cfg.debug then 8 else 0)] else [])
                     + [Released(b)]
    {
      hide Inv;
      ghost var s := View();
      freecurr := freecurr - 1;
      var b := ptr[freecurr];
      assert s.free == ptr[..freecurr] + [b];
      log := log + [Drained(b)];
      if cfg.destructs {
        log := log + [Destructed(b, GetObject(cfg, At(b, 0)).offset)];
      }
      mem := mem - {b};
      log := log + [Released(b)];
      StepInv(cfg, s, DrainOne);
    }
  }

  lemma {:induction false} DrainsFeasible(cfg: Config, s: Pool, n: nat)
    requires n <= |s.free|
    ensures Feasible(cfg, s, Drains(n))
    decreases n
  {
    if n == 0 {
    } else {
      assert Drains(n)[1..] == Drains(n - 1);
      DrainsFeasible(cfg, Next(cfg, s, DrainOne), n - 1);
    }
  }
}
