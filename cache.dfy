/**
 * The simulator's mutable state and its two loops: checkCache, which scans
 * one set of the table in place, and the simulator's per-record dispatch.
 * The table is one 2^s x E array of lines; the three counters are fields.
 */
module CacheSim {
  import opened CacheModel
  import opened CacheLemmas

  /** The contents of the table, set by set. */
  ghost function TableSets(t: array2<Line>): (r: seq<seq<Line>>)
    reads t
    ensures |r| == t.Length0
    ensures forall x :: 0 <= x < t.Length0 ==> |r[x]| == t.Length1
    ensures forall x, j :: 0 <= x < t.Length0 && 0 <= j < t.Length1 ==> r[x][j] == t[x, j]
  {
    seq(t.Length0, x requires 0 <= x < t.Length0 reads t =>
      seq(t.Length1, j requires 0 <= j < t.Length1 reads t => t[x, j]))
  }

  /** A table that agrees with `sets` everywhere except row r, which holds `row`, has exactly that contents. */
  lemma TableSetsAfterRowUpdate(t: array2<Line>, sets: seq<seq<Line>>, r: nat, row: seq<Line>)
    requires |sets| == t.Length0 && r < t.Length0 && |row| == t.Length1
    requires forall x :: 0 <= x < |sets| ==> |sets[x]| == t.Length1
    requires forall j :: 0 <= j < t.Length1 ==> t[r, j] == row[j]
    requires forall x, j :: 0 <= x < t.Length0 && x != r && 0 <= j < t.Length1 ==> t[x, j] == sets[x][j]
    ensures TableSets(t) == sets[r := row]
  {
    var now := TableSets(t);
    forall x | 0 <= x < t.Length0
      ensures now[x] == sets[r := row][x]
    {
      assert forall j :: 0 <= j < t.Length1 ==> now[x][j] == t[x, j];
    }
  }

  class Cache {
    const cfg: Config
    const table: array2<Line>
    var hits: nat
    var misses: nat
    var evictions: nat

    /**
     * The table has 2^s sets of E lines, no set holds a tag twice, and every
     * eviction was counted as a miss too.
     */
    ghost predicate Valid()
      reads this, table
    {
      && ConfigOk(cfg)
      && table.Length0 == SetCount(cfg)
      && table.Length1 == cfg.linePerSet
      && WellFormed(cfg, State())
      && evictions <= misses
    }

    /** The abstract value: table contents and counters. */
    ghost function State(): Sim
      reads this, table
    {
      Sim(TableSets(table), hits, misses, evictions)
    }

    /** The simulator's allocation: 2^s sets of E zeroed lines, counters at zero. */
    constructor (c: Config)
      requires ConfigOk(c)
      ensures Valid() && fresh(table)
      ensures cfg == c && State() == Initial(c)
    {
      cfg := c;
      table := new Line[SetCount(c), c.linePerSet]((x, j) => EmptyLine);
      hits, misses, evictions := 0, 0, 0;
      new;
      assert TableSets(table) == Initial(c).sets by {
        forall x | 0 <= x < table.Length0
          ensures TableSets(table)[x] == Initial(c).sets[x]
        {
          assert forall j :: 0 <= j < table.Length1 ==> TableSets(table)[x][j] == EmptyLine;
        }
      }
      ColdStart(c, 0);
    }

    /**
     * checkCache: decode the address, scan its set once, and count a hit, a
     * fill or an eviction.  The new state is the one Step describes.
     */
    method CheckCache(address: Address) returns (ret: int)
      requires Valid()
      modifies this, table
      ensures Valid()
      ensures State() == Step(cfg, old(State()), address).sim
      ensures ret == Step(cfg, old(State()), address).code
    {
      var tag := Tag(cfg, address);
      var setIndex := SetIndex(cfg, address);
      DecodeSplit(cfg, address);
      ghost var st0 := State();
      ghost var before := RowOf(setIndex);
      var found, empty, evict := ScanSet(setIndex, tag);
      if found {
        hits := hits + 1;
        Conclude(st0, address, HIT);
        return 0;
      }
      misses := misses + 1;
      if empty != -1 {
        // the three field stores of the fill
        table[setIndex, empty] := table[setIndex, empty].(valid := true, tag := tag, lru := 1);
        FillRow(setIndex, before, tag, empty);
        Conclude(st0, address, MISS);
        return 1;
      } else {
        table[setIndex, evict] := table[setIndex, evict].(tag := tag, lru := 1);
        evictions := evictions + 1;
        EvictRow(setIndex, before, tag, evict);
        Conclude(st0, address, EVICTION);
        return 2;
      }
    }

    /**
     * The scan loop of checkCache over row setIndex.  Every valid line it
     * passes ages by one; on a hit it resets the hit line and stops (found);
     * otherwise `empty` is the last free line it saw (or -1) and, when every
     * line was valid, `evict` is the last line with the largest age.
     */
    method ScanSet(setIndex: nat, tag: nat) returns (found: bool, empty: int, evict: nat)
      requires setIndex < table.Length0 && table.Length1 >= 1
      modifies table
      ensures forall x, j :: 0 <= x < table.Length0 && x != setIndex && 0 <= j < table.Length1 ==> table[x, j] == old(table[x, j])
      ensures found ==> AccessSet(old(RowOf(setIndex)), tag) == SetResult(HIT, RowOf(setIndex))
      ensures !found ==> forall j :: 0 <= j < table.Length1 ==> !Holds(old(table[setIndex, j]), tag)
      ensures !found ==> forall j :: 0 <= j < table.Length1 ==> table[setIndex, j] == Older(old(table[setIndex, j]))
      ensures !found && empty != -1 ==> 0 <= empty < table.Length1 && !old(table[setIndex, empty]).valid
      ensures !found && empty != -1 ==> forall j :: empty < j < table.Length1 ==> old(table[setIndex, j]).valid
      ensures !found && empty == -1 ==> forall j :: 0 <= j < table.Length1 ==> old(table[setIndex, j]).valid
      ensures !found && empty == -1 ==> evict < table.Length1
      ensures !found && empty == -1 ==> forall j :: 0 <= j < table.Length1 ==> table[setIndex, j].lru <= table[setIndex, evict].lru
      ensures !found && empty == -1 ==> forall j :: evict < j < table.Length1 ==> table[setIndex, j].lru < table[setIndex, evict].lru
    {
      ghost var before := RowOf(setIndex);
      ghost var E := table.Length1;
      evict := 0;
      empty := -1;
      var i := 0;
      while i < table.Length1
        invariant 0 <= i <= E
        invariant forall x, j :: 0 <= x < table.Length0 && x != setIndex && 0 <= j < E ==> table[x, j] == old(table[x, j])
        invariant forall j :: 0 <= j < i ==> !Holds(before[j], tag)
        invariant forall j :: 0 <= j < i ==> table[setIndex, j] == Older(before[j])
        invariant forall j :: i <= j < E ==> table[setIndex, j] == before[j]
        invariant -1 <= empty < i
        invariant empty >= 0 ==> !before[empty].valid && forall j :: empty < j < i ==> before[j].valid
        invariant empty == -1 ==> forall j :: 0 <= j < i ==> before[j].valid
        invariant 0 <= evict < E
        invariant evict == 0 || evict < i
        invariant empty == -1 ==> forall j :: 0 <= j < i ==> table[setIndex, j].lru <= table[setIndex, evict].lru
        invariant empty == -1 ==> forall j :: evict < j < i ==> table[setIndex, j].lru < table[setIndex, evict].lru
      {
        if table[setIndex, i].valid {
          if table[setIndex, i].tag == tag {
            table[setIndex, i] := table[setIndex, i].(lru := 1);
            HitRow(setIndex, before, tag, i);
            return true, empty, evict;
          }
          table[setIndex, i] := table[setIndex, i].(lru := table[setIndex, i].lru + 1);
          if table[setIndex, evict].lru <= table[setIndex, i].lru {
            evict := i;
          }
        } else {
          empty := i;
        }
        i := i + 1;
      }
      return false, empty, evict;
    }

    /**
     * Closing one checkCache call: if the addressed row is what AccessSet
     * gives, the other rows are untouched and the counters moved by the code,
     * then the new state is the one Step describes and the invariant holds.
     */
    lemma Conclude(st0: Sim, address: Address, code: int)
      requires ConfigOk(cfg) && WellFormed(cfg, st0) && st0.evictions <= st0.misses
      requires table.Length0 == SetCount(cfg) && table.Length1 == cfg.linePerSet
      requires SetIndex(cfg, address) < table.Length0
      requires AccessSet(st0.sets[SetIndex(cfg, address)], Tag(cfg, address)) == SetResult(code, RowOf(SetIndex(cfg, address)))
      requires forall x, j :: 0 <= x < table.Length0 && x != SetIndex(cfg, address) && 0 <= j < table.Length1
                 ==> table[x, j] == st0.sets[x][j]
      requires hits == st0.hits + (if code == HIT then 1 else 0)
      requires misses == st0.misses + (if code == HIT then 0 else 1)
      requires evictions == st0.evictions + (if code == EVICTION then 1 else 0)
      ensures Valid()
      ensures State() == Step(cfg, st0, address).sim
      ensures code == Step(cfg, st0, address).code
    {
      var idx := SetIndex(cfg, address);
      TableSetsAfterRowUpdate(table, st0.sets, idx, RowOf(idx));
      StepPreservesWellFormed(cfg, st0, address);
    }

    /** The row left by a hit at h is the one AccessSet gives. */
    lemma HitRow(r: nat, before: seq<Line>, tag: nat, h: nat)
      requires r < table.Length0 && |before| == table.Length1 && h < |before|
      requires forall j :: 0 <= j < h ==> !Holds(before[j], tag) && table[r, j] == Older(before[j])
      requires Holds(before[h], tag) && table[r, h] == before[h].(lru := 1)
      requires forall j :: h < j < |before| ==> table[r, j] == before[j]
      ensures AccessSet(before, tag) == SetResult(HIT, RowOf(r))
    {
      assert FindHit(before, tag, 0) == Some(h);
    }

    /** The row left by a fill of line e is the one AccessSet gives. */
    lemma FillRow(r: nat, before: seq<Line>, tag: nat, e: nat)
      requires r < table.Length0 && |before| == table.Length1 && e < |before|
      requires forall j :: 0 <= j < |before| ==> !Holds(before[j], tag)
      requires !before[e].valid && forall j :: e < j < |before| ==> before[j].valid
      requires forall j :: 0 <= j < |before| && j != e ==> table[r, j] == Older(before[j])
      requires table[r, e] == Line(true, 1, tag)
      ensures AccessSet(before, tag) == SetResult(MISS, RowOf(r))
    {
      assert FindHit(before, tag, 0).None?;
      assert LastFree(before) == Some(e);
    }

    /** The row left by evicting line v, the last line of largest age, is the one AccessSet gives. */
    lemma EvictRow(r: nat, before: seq<Line>, tag: nat, v: nat)
      requires r < table.Length0 && |before| == table.Length1 && v < |before|
      requires forall j :: 0 <= j < |before| ==> !Holds(before[j], tag) && before[j].valid
      requires forall j :: 0 <= j < |before| && j != v ==> table[r, j] == Older(before[j])
      requires table[r, v] == Older(before[v]).(tag := tag, lru := 1)
      requires forall j :: 0 <= j < |before| ==> Older(before[j]).lru <= Older(before[v]).lru
      requires forall j :: v < j < |before| ==> Older(before[j]).lru < Older(before[v]).lru
      ensures AccessSet(before, tag) == SetResult(EVICTION, RowOf(r))
    {
      assert FindHit(before, tag, 0).None?;
      assert LastFree(before).None?;
      VictimUnique(AgeBelow(before, |before|), v);
    }

    /** Row r of the table as a sequence. */
    ghost function RowOf(r: nat): (row: seq<Line>)
      reads table
      requires r < table.Length0
      ensures |row| == table.Length1
      ensures forall j :: 0 <= j < table.Length1 ==> row[j] == table[r, j]
    {
      TableSets(table)[r]
    }

    /**
     * The simulator loop over already-parsed trace records.  Returns the
     * code each non-instruction record would print in verbose mode.
     */
    method Simulator(trace: seq<Record>) returns (codes: seq<int>)
      requires Valid()
      modifies this, table
      ensures Valid()
      ensures State() == Run(cfg, old(State()), trace).sim
      ensures codes == Run(cfg, old(State()), trace).codes
    {
      ghost var st0 := State();
      codes := [];
      var n := 0;
      while n < |trace|
        invariant 0 <= n <= |trace|
        invariant Valid()
        invariant State() == Run(cfg, st0, trace[..n]).sim
        invariant codes == Run(cfg, st0, trace[..n]).codes
      {
        var operation := trace[n].op;
        var addr := trace[n].addr;
        if operation == 'I' {
          // instruction loads are ignored
        } else {
          var ret := 0;
          match operation {
            case 'S' =>
              ret := CheckCache(addr);
            case 'L' =>
              ret := CheckCache(addr);
            case 'M' =>
              ret := CheckCache(addr);
              hits := hits + 1;
            case _ =>
          }
          codes := codes + [ret];
        }
        assert trace[..n + 1][..n] == trace[..n];
        n := n + 1;
      }
      assert trace[..|trace|] == trace;
    }
  }
}
