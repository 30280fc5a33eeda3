/** The object pool of cache.c as a state machine: one step per locked region or client action. */
module PoolModel {
  import opened Words
  import opened Sequences

  /** The base address of a block obtained from `malloc`. */
  type Buffer = nat
  type Thread = nat

  /** The eight bytes of `redzone_pattern` in a little-endian machine's memory. */
  const REDZONE: seq<Byte> := [0xbe, 0xba, 0xfe, 0xca, 0xef, 0xbe, 0xad, 0xde]

  const INITIAL_POOL_SIZE := 64

  /** The build and the arguments of `cache_create`. */
  datatype Config = Config(debug: bool, size: nat, constructs: bool, destructs: bool) {
    /** `cache->bufsize`. */
    function BufSize(): nat {
      if debug then size + 16 else size
    }

    /** The distance `get_object` moves from the base of a block. */
    function ObjectOffset(): nat {
      if debug then 8 else 0
    }
  }

  /** What happens to buffers, in order. */
  datatype Event =
    | Malloced(b: Buffer)
    | Constructed(b: Buffer, offset: nat)
    | ConstructorFailed(b: Buffer, offset: nat)
    | HandedOut(b: Buffer, reused: bool)
    | Returned(b: Buffer)
    | Drained(b: Buffer)
    | Destructed(b: Buffer, offset: nat)
    | Released(b: Buffer)
    | Grew

  /**
   * `free` is `ptr[0..freecurr)` and `total` is `freetotal`. `mem` holds every block that is malloced and not
   * freed; `holder` says which thread has which of them, `unstamped` which of those still await their redzones.
   */
  datatype Pool = Pool(
    free: seq<Buffer>,
    total: nat,
    mem: map<Buffer, seq<Byte>>,
    holder: map<Buffer, Thread>,
    unstamped: set<Buffer>,
    error: int,
    log: seq<Event>)

  const INIT := Pool([], INITIAL_POOL_SIZE, map[], map[], {}, 0, [])

  /** The steps; what `malloc`, `realloc`, the constructor and the clients do is part of the label. */
  datatype Op =
    | AllocPooled(t: Thread)
    | AllocNoMemory(t: Thread)
    | AllocUnconstructed(t: Thread, b: Buffer)
    | AllocNew(t: Thread, b: Buffer, bytes: seq<Byte>)
    | Stamp(t: Thread, b: Buffer)
    | Write(t: Thread, b: Buffer, at: nat, v: Byte)
    | Free(t: Thread, b: Buffer, reallocs: bool)
    | DrainOne

  // ---------------------------------------------------------------- redzones

  /** The eight bytes that follow the object. */
  predicate TrailingIntact(cfg: Config, bytes: seq<Byte>)
    requires cfg.debug && |bytes| == cfg.BufSize()
  {
    bytes[8 + cfg.size..] == REDZONE
  }

  predicate LeadingIntact(cfg: Config, bytes: seq<Byte>)
    requires cfg.debug && |bytes| == cfg.BufSize()
  {
    bytes[..8] == REDZONE
  }

  /** The bytes the client owns. */
  function Object(cfg: Config, bytes: seq<Byte>): seq<Byte>
    requires |bytes| == cfg.BufSize()
  {
    bytes[cfg.ObjectOffset()..cfg.ObjectOffset() + cfg.size]
  }

  function Stamped(cfg: Config, bytes: seq<Byte>): (r: seq<Byte>)
    requires cfg.debug && |bytes| == cfg.BufSize()
    ensures |r| == cfg.BufSize() && LeadingIntact(cfg, r) && TrailingIntact(cfg, r)
    ensures Object(cfg, r) == Object(cfg, bytes)
  {
    REDZONE + bytes[8..8 + cfg.size] + REDZONE
  }

  function Poke(bytes: seq<Byte>, at: nat, v: Byte): (r: seq<Byte>)
    requires at < |bytes|
    ensures |r| == |bytes| && r[at] == v
    ensures forall i :: 0 <= i < |bytes| && i != at ==> r[i] == bytes[i]
  {
    bytes[..at] + [v] + bytes[at + 1..]
  }

  // ---------------------------------------------------------------- steps

  predicate Enabled(cfg: Config, s: Pool, op: Op) {
    match op
    case AllocPooled(t) => s.free != []
    case AllocNoMemory(t) => s.free == []
    case AllocUnconstructed(t, b) => s.free == [] && b !in s.mem && cfg.constructs
    case AllocNew(t, b, bytes) => s.free == [] && b !in s.mem && |bytes| == cfg.BufSize()
    case Stamp(t, b) => b in s.unstamped && b in s.holder && s.holder[b] == t && b in s.mem && Sized(cfg, s, b)
    case Write(t, b, at, v) => Holds(s, t, b) && b in s.mem && Sized(cfg, s, b) && at < cfg.BufSize()
    case Free(t, b, reallocs) => Holds(s, t, b) && b in s.mem && Sized(cfg, s, b)
    case DrainOne => s.free != []
  }

  predicate Sized(cfg: Config, s: Pool, b: Buffer)
    requires b in s.mem
  {
    |s.mem[b]| == cfg.BufSize() && (b in s.unstamped ==> cfg.debug)
  }

  /** `t` has been given `b` by a completed `cache_alloc`. */
  predicate Holds(s: Pool, t: Thread, b: Buffer) {
    b in s.holder && s.holder[b] == t && b !in s.unstamped
  }

  function HandOut(cfg: Config, s: Pool, t: Thread, b: Buffer, reused: bool): Pool {
    s.(holder := s.holder[b := t],
       unstamped := if cfg.debug then s.unstamped + {b} else s.unstamped,
       log := s.log + [HandedOut(b, reused)])
  }

  function Note(s: Pool, e: Event): Pool {
    s.(log := s.log + [e])
  }

  /** The destructor, if there is one, and `free`. */
  function Discard(cfg: Config, s: Pool, b: Buffer, offset: nat): Pool {
    var d := if cfg.destructs then Note(s, Destructed(b, offset)) else s;
    Note(d, Released(b)).(mem := s.mem - {b})
  }

  /** The part of `cache_free` below the redzone checks; growth failure passes the base of the block to the destructor. */
  function Accept(cfg: Config, s: Pool, b: Buffer, reallocs: bool): Pool {
    var u := s.(holder := s.holder - {b});
    if |s.free| < s.total then
      Note(u, Returned(b)).(free := s.free + [b])
    else if reallocs then
      Note(Note(u, Grew), Returned(b)).(free := s.free + [b], total := 2 * s.total)
    else
      Discard(cfg, u, b, 0)
  }

  function Next(cfg: Config, s: Pool, op: Op): Pool
    requires Enabled(cfg, s, op)
  {
    match op
    case AllocPooled(t) =>
      HandOut(cfg, s.(free := Front(s.free)), t, Last(s.free), true)
    case AllocNoMemory(t) => s
    case AllocUnconstructed(t, b) =>
      Note(Note(Note(s, Malloced(b)), ConstructorFailed(b, cfg.ObjectOffset())), Released(b))
    case AllocNew(t, b, bytes) =>
      var m := Note(s, Malloced(b)).(mem := s.mem[b := bytes]);
      HandOut(cfg, if cfg.constructs then Note(m, Constructed(b, cfg.ObjectOffset())) else m, t, b, false)
    case Stamp(t, b) =>
      s.(mem := s.mem[b := Stamped(cfg, s.mem[b])], unstamped := s.unstamped - {b})
    case Write(t, b, at, v) =>
      s.(mem := s.mem[b := Poke(s.mem[b], at, v)])
    case Free(t, b, reallocs) =>
      if cfg.debug && !TrailingIntact(cfg, s.mem[b]) then s.(error := 1)
      else if cfg.debug && !LeadingIntact(cfg, s.mem[b]) then s.(error := -1)
      else Accept(cfg, s, b, reallocs)
    case DrainOne =>
      var b := Last(s.free);
      Discard(cfg, Note(s.(free := Front(s.free)), Drained(b)), b, cfg.ObjectOffset())
  }

  // ---------------------------------------------------------------- runs

  predicate Feasible(cfg: Config, s: Pool, ops: seq<Op>)
    decreases |ops|
  {
    ops == [] || (Enabled(cfg, s, ops[0]) && Feasible(cfg, Next(cfg, s, ops[0]), ops[1..]))
  }

  /** The state after any interleaving `ops` of the threads' steps. */
  function After(cfg: Config, s: Pool, ops: seq<Op>): Pool
    requires Feasible(cfg, s, ops)
    decreases |ops|
  {
    if ops == [] then s else After(cfg, Next(cfg, s, ops[0]), ops[1..])
  }
}
