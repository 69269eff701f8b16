/**
 * The value-level model of the cache simulator: address decoding, cache
 * lines and sets, what one checkCache call does to a set, to the whole
 * simulation state, and what a trace of parsed records does.
 *
 * The class Cache (module CacheSim) runs the same algorithm in place on an
 * array and is proved to produce exactly the states these functions give.
 */
module CacheModel {

  /** 2^n. */
  function Pow2(n: nat): (p: nat)
    ensures p >= 1
  {
    if n == 0 then 1 else 2 * Pow2(n - 1)
  }

  /** A 64-bit unsigned address (uint64_t). */
  type Address = a: nat | a < 0x1_0000_0000_0000_0000

  /** The three command-line parameters: s, E and b. */
  datatype Config = Config(setIndexBit: nat, linePerSet: nat, blockOffsetBit: nat)

  /**
   * The configurations the simulator handles: 1 << s must fit a C int,
   * the shift by s + b must stay below the address width, and a set must
   * have at least one line (with E == 0 the eviction writes past the set).
   */
  predicate ConfigOk(c: Config)
  {
    c.setIndexBit <= 30 && c.setIndexBit + c.blockOffsetBit < 64 && c.linePerSet >= 1
  }

  /** Number of sets, 2^s. */
  function SetCount(c: Config): nat
  {
    Pow2(c.setIndexBit)
  }

  /** tag = address >> (s + b): the address with its low s + b bits dropped. */
  function Tag(c: Config, address: nat): (t: nat)
    ensures var p := Pow2(c.setIndexBit + c.blockOffsetBit); t * p <= address < t * p + p
  {
    Quotient(address, Pow2(c.setIndexBit + c.blockOffsetBit))
  }

  /** setIndex = (address >> b) & ((1 << s) - 1): one of the 2^s sets. */
  function SetIndex(c: Config, address: nat): (x: nat)
    ensures x < SetCount(c)
  {
    address / Pow2(c.blockOffsetBit) % Pow2(c.setIndexBit)
  }

  /** a / d for a positive d: the multiple of d just below a. */
  function Quotient(a: nat, d: nat): (q: nat)
    requires d > 0
    ensures q * d <= a < q * d + d
  {
    a / d
  }

  /**
   * Row x of the table is allocated by the allocation loop as written: the
   * loop runs i from 0 while i < s, so only rows 0 .. s-1 get their lines.
   */
  predicate RowAllocatedAsWritten(c: Config, x: nat)
  {
    x < c.setIndexBit
  }

  /** Row x is one of the 2^s rows the table needs, one per set. */
  predicate RowAllocated(c: Config, x: nat)
  {
    x < SetCount(c)
  }

  /** A cache line: valid bit, age counter and tag (the C struct cacheData). */
  datatype Line = Line(valid: bool, lru: nat, tag: nat)

  /** A line as calloc leaves it. */
  const EmptyLine := Line(false, 0, 0)

  /** checkCache's return codes, as the verbose output names them. */
  const HIT := 0
  const MISS := 1
  const EVICTION := 2

  /** The line is valid and carries the tag. */
  predicate Holds(l: Line, tag: nat)
  {
    l.valid && l.tag == tag
  }

  /** No set of the table holds two valid lines with the same tag. */
  predicate UniqueTags(lines: seq<Line>)
  {
    forall j, k :: 0 <= j < k < |lines| && lines[j].valid && lines[k].valid ==> lines[j].tag != lines[k].tag
  }

  /** The set contains a valid line carrying the tag. */
  predicate Present(lines: seq<Line>, tag: nat)
  {
    exists j :: 0 <= j < |lines| && Holds(lines[j], tag)
  }

  /** Number of valid lines. */
  function CountValid(lines: seq<Line>): nat
  {
    if |lines| == 0 then 0 else CountValid(lines[..|lines| - 1]) + (if lines[|lines| - 1].valid then 1 else 0)
  }

  /** The first line at or after `from` that is valid and carries the tag: where the scan hits. */
  function FindHit(lines: seq<Line>, tag: nat, from: nat): (h: Option<nat>)
    decreases |lines| - from
    ensures h.Some? ==> from <= h.value < |lines| && Holds(lines[h.value], tag)
    ensures h.Some? ==> forall j :: from <= j < h.value ==> !Holds(lines[j], tag)
    ensures h.None? <==> forall j :: from <= j < |lines| ==> !Holds(lines[j], tag)
  {
    if from >= |lines| then None
    else if Holds(lines[from], tag) then Some(from)
    else FindHit(lines, tag, from + 1)
  }

  /** The highest-indexed invalid line, the one `empty` names after a full scan. */
  function LastFree(lines: seq<Line>): (e: Option<nat>)
    ensures e.Some? ==> e.value < |lines| && !lines[e.value].valid
    ensures e.Some? ==> forall j :: e.value < j < |lines| ==> lines[j].valid
    ensures e.None? <==> forall j :: 0 <= j < |lines| ==> lines[j].valid
  {
    if |lines| == 0 then None
    else if !lines[|lines| - 1].valid then Some(|lines| - 1)
    else LastFree(lines[..|lines| - 1])
  }

  /** A valid line one step older; an invalid line is left as it is. */
  function Older(l: Line): Line
  {
    if l.valid then l.(lru := l.lru + 1) else l
  }

  /** The set after the scan has aged every line below index n. */
  function AgeBelow(lines: seq<Line>, n: nat): (r: seq<Line>)
    ensures |r| == |lines|
  {
    seq(|lines|, j requires 0 <= j < |lines| => if j < n then Older(lines[j]) else lines[j])
  }

  /**
   * The line `evict` names after scanning a full set: the running choice
   * moves to line i whenever its counter is at least the chosen one's.
   */
  function Victim(lines: seq<Line>): (v: nat)
    requires |lines| > 0
    ensures v < |lines|
  {
    if |lines| == 1 then 0
    else
      var v := Victim(lines[..|lines| - 1]);
      if lines[v].lru <= lines[|lines| - 1].lru then |lines| - 1 else v
  }

  /** What checkCache returns and leaves in the addressed set. */
  datatype SetResult = SetResult(code: int, lines: seq<Line>)

  /**
   * One checkCache call on one set.  A hit at h ages the valid lines
   * below h and resets line h; a miss ages every valid line, then fills
   * the highest free line or overwrites the victim.
   */
  function AccessSet(lines: seq<Line>, tag: nat): (r: SetResult)
    requires |lines| > 0
    ensures |r.lines| == |lines|
  {
    match FindHit(lines, tag, 0)
    case Some(h) => SetResult(HIT, AgeBelow(lines, h)[h := lines[h].(lru := 1)])
    case None =>
      var aged := AgeBelow(lines, |lines|);
      match LastFree(lines)
      case Some(e) => SetResult(MISS, aged[e := Line(true, 1, tag)])
      case None =>
        var v := Victim(aged);
        SetResult(EVICTION, aged[v := aged[v].(lru := 1, tag := tag)])
  }

  /** The whole simulation state: the table of sets and the three global counters. */
  datatype Sim = Sim(sets: seq<seq<Line>>, hits: nat, misses: nat, evictions: nat)

  /** The table has 2^s sets of E lines each. */
  predicate Shaped(c: Config, st: Sim)
  {
    |st.sets| == SetCount(c) && forall x :: 0 <= x < |st.sets| ==> |st.sets[x]| == c.linePerSet
  }

  /** A state the simulator can reach: well shaped and with unique tags in every set. */
  predicate WellFormed(c: Config, st: Sim)
  {
    Shaped(c, st) && forall x :: 0 <= x < |st.sets| ==> UniqueTags(st.sets[x])
  }

  /** The state right after allocation: every line zeroed, every counter zero. */
  function Initial(c: Config): (st: Sim)
    ensures Shaped(c, st)
    ensures forall x, j :: 0 <= x < |st.sets| && 0 <= j < |st.sets[x]| ==> st.sets[x][j] == EmptyLine
    ensures st.hits == 0 && st.misses == 0 && st.evictions == 0
  {
    Sim(seq(SetCount(c), _ => seq(c.linePerSet, _ => EmptyLine)), 0, 0, 0)
  }

  /** The new state and the return code of one checkCache call. */
  datatype StepResult = StepResult(sim: Sim, code: int)

  /** checkCache(address) on the whole state: update the addressed set and count the outcome. */
  function Step(c: Config, st: Sim, address: nat): (r: StepResult)
    requires ConfigOk(c) && Shaped(c, st)
    ensures Shaped(c, r.sim)
  {
    var idx := SetIndex(c, address);
    var res := AccessSet(st.sets[idx], Tag(c, address));
    var sim := Sim(st.sets[idx := res.lines],
                   st.hits + (if res.code == HIT then 1 else 0),
                   st.misses + (if res.code == HIT then 0 else 1),
                   st.evictions + (if res.code == EVICTION then 1 else 0));
    StepResult(sim, res.code)
  }

  /**
   * One parsed trace record.  `op` is 'I' exactly for an instruction line,
   * one whose first character is I.  Any other line carries the operation
   * character read by sscanf, except that a line with a leading blank whose
   * operation character is I is not skipped: it is a record with some
   * character other than I, L, S and M.  The size field is never used.
   */
  datatype Record = Record(op: char, addr: Address)

  /** The state and the codes (zero or one) a record produces. */
  datatype RunResult = RunResult(sim: Sim, codes: seq<int>)

  /**
   * The body of the simulator loop for one record.  An instruction is
   * skipped; S and L call checkCache once; M calls it once and then counts
   * one more hit; any other character calls nothing and leaves ret at 0.
   */
  function Dispatch(c: Config, st: Sim, rec: Record): (r: RunResult)
    requires ConfigOk(c) && Shaped(c, st)
    ensures Shaped(c, r.sim)
  {
    if rec.op == 'I' then RunResult(st, [])
    else if rec.op == 'S' || rec.op == 'L' then
      var s := Step(c, st, rec.addr);
      RunResult(s.sim, [s.code])
    else if rec.op == 'M' then
      var s := Step(c, st, rec.addr);
      RunResult(s.sim.(hits := s.sim.hits + 1), [s.code])
    else RunResult(st, [0])
  }

  /** The final state and the sequence of return codes after a whole trace. */
  function Run(c: Config, st: Sim, trace: seq<Record>): (r: RunResult)
    requires ConfigOk(c) && Shaped(c, st)
    ensures Shaped(c, r.sim)
  {
    if |trace| == 0 then RunResult(st, [])
    else
      var prev := Run(c, st, trace[..|trace| - 1]);
      var last := Dispatch(c, prev.sim, trace[|trace| - 1]);
      RunResult(last.sim, prev.codes + last.codes)
  }

  /** Number of checkCache calls plus bare hit increments a record causes. */
  function Accesses(rec: Record): nat
  {
    if rec.op == 'S' || rec.op == 'L' then 1 else if rec.op == 'M' then 2 else 0
  }

  /** Accesses summed over a trace. */
  function TotalAccesses(trace: seq<Record>): nat
  {
    if |trace| == 0 then 0 else TotalAccesses(trace[..|trace| - 1]) + Accesses(trace[|trace| - 1])
  }

  /** Number of instruction records in a trace. */
  function InstructionCount(trace: seq<Record>): (n: nat)
    ensures n <= |trace|
  {
    if |trace| == 0 then 0 else InstructionCount(trace[..|trace| - 1]) + (if trace[|trace| - 1].op == 'I' then 1 else 0)
  }

  /** The record makes a checkCache call that decodes to set x. */
  predicate Touches(c: Config, rec: Record, x: nat)
  {
    (rec.op == 'S' || rec.op == 'L' || rec.op == 'M') && SetIndex(c, rec.addr) == x
  }

  datatype Option<T> = None | Some(value: T)
}
