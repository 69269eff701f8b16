/**
 * Properties of the cache-simulator model: decoding, the three outcomes of
 * one access, the tag-uniqueness invariant, presence after an access, counter
 * conservation over a trace, and sets a trace leaves untouched.
 */
module CacheLemmas {
  import opened CacheModel

  // ---------------------------------------------------------------------
  // Address decoding
  // ---------------------------------------------------------------------

  lemma {:induction false} Pow2Add(m: nat, n: nat)
    ensures Pow2(m + n) == Pow2(m) * Pow2(n)
  {
    if m > 0 {
      Pow2Add(m - 1, n);
    }
  }

  /** Euclidean division is determined by quotient and remainder. */
  lemma DivUnique(a: nat, d: nat, t: nat, r: nat)
    requires d > 0 && r < d && a == t * d + r
    ensures a / d == t && a % d == r
  {
    var t', r' := a / d, a % d;
    assert a == t' * d + r';
    if t' < t {
      assert t' * d + d <= t * d by { MulMono(t' + 1, t, d); }
    } else if t < t' {
      assert t * d + d <= t' * d by { MulMono(t + 1, t', d); }
    }
  }

  lemma MulMono(x: nat, y: nat, d: nat)
    requires x <= y
    ensures x * d <= y * d
  {
  }

  lemma DivMod(a: nat, d: nat)
    requires d > 0
    ensures a == (a / d) * d + a % d && a % d < d
  {
  }

  lemma Distribute(t: nat, p: nat, r: nat, q: nat)
    ensures (t * p + r) * q == t * (p * q) + r * q
  {
  }

  lemma RemainderBound(r2: nat, r1: nat, p: nat, q: nat)
    requires r2 < p && r1 < q
    ensures r2 * q + r1 < p * q
  {
    MulMono(r2 + 1, p, q);
  }

  /** Dividing by q and then by p is dividing by p * q. */
  lemma DivDiv(a: nat, p: nat, q: nat)
    requires p > 0 && q > 0
    ensures a / (p * q) == a / q / p
  {
    var q1, r1 := a / q, a % q;
    var t, r2 := q1 / p, q1 % p;
    DivMod(a, q);
    DivMod(q1, p);
    Distribute(t, p, r2, q);
    RemainderBound(r2, r1, p, q);
    var pq := p * q;
    assert a == t * pq + (r2 * q + r1);
    DivUnique(a, pq, t, r2 * q + r1);
  }

  /**
   * The set index is below 2^s, and the tag and set index together are
   * exactly the block number address >> b.
   */
  lemma DecodeSplit(c: Config, address: nat)
    ensures SetIndex(c, address) < SetCount(c)
    ensures Tag(c, address) * SetCount(c) + SetIndex(c, address) == address / Pow2(c.blockOffsetBit)
  {
    var ps, pb := Pow2(c.setIndexBit), Pow2(c.blockOffsetBit);
    Pow2Add(c.setIndexBit, c.blockOffsetBit);
    DivDiv(address, ps, pb);
    var block := address / pb;
    assert Tag(c, address) == block / ps;
    DivMod(block, ps);
  }

  /** Tag, set index and block offset put back together give the address. */
  lemma DecodeRoundTrip(c: Config, address: nat)
    ensures Tag(c, address) * Pow2(c.setIndexBit + c.blockOffsetBit)
            + SetIndex(c, address) * Pow2(c.blockOffsetBit)
            + address % Pow2(c.blockOffsetBit) == address
  {
    var ps, pb := Pow2(c.setIndexBit), Pow2(c.blockOffsetBit);
    var tag, idx := Tag(c, address), SetIndex(c, address);
    var block := address / pb;
    assert address == block * pb + address % pb by { DivMod(address, pb); }
    assert block == tag * ps + idx by { DecodeSplit(c, address); }
    assert block * pb == tag * (ps * pb) + idx * pb by { Distribute(tag, ps, idx, pb); }
    assert ps * pb == Pow2(c.setIndexBit + c.blockOffsetBit) by { Pow2Add(c.setIndexBit, c.blockOffsetBit); }
  }

  /** Two addresses decode to the same tag and set exactly when they lie in the same block. */
  lemma SameBlockSameDecode(c: Config, a1: nat, a2: nat)
    ensures a1 / Pow2(c.blockOffsetBit) == a2 / Pow2(c.blockOffsetBit)
            <==> Tag(c, a1) == Tag(c, a2) && SetIndex(c, a1) == SetIndex(c, a2)
  {
    DecodeSplit(c, a1);
    DecodeSplit(c, a2);
    if a1 / Pow2(c.blockOffsetBit) == a2 / Pow2(c.blockOffsetBit) {
      Pow2Add(c.setIndexBit, c.blockOffsetBit);
      DivDiv(a1, Pow2(c.setIndexBit), Pow2(c.blockOffsetBit));
      DivDiv(a2, Pow2(c.setIndexBit), Pow2(c.blockOffsetBit));
    }
  }

  // ---------------------------------------------------------------------
  // Allocation of the table
  // ---------------------------------------------------------------------

  lemma {:induction false} Pow2Exceeds(n: nat)
    ensures Pow2(n) > n
  {
    if n > 0 {
      Pow2Exceeds(n - 1);
    }
  }

  lemma {:induction false} Pow2Mono(m: nat, n: nat)
    requires m <= n
    ensures Pow2(m) <= Pow2(n)
  {
    if m < n {
      Pow2Mono(m, n - 1);
    }
  }

  /** 2^64, the first value past the address width. */
  lemma Pow2Of64()
    ensures Pow2(64) == 0x1_0000_0000_0000_0000
  {
    assert Pow2(2) == 4;
    assert Pow2(4) == 16;
    assert Pow2(8) == 256 by { Pow2Add(4, 4); }
    assert Pow2(16) == 0x1_0000 by { Pow2Add(8, 8); }
    assert Pow2(32) == 0x1_0000_0000 by { Pow2Add(16, 16); }
    Pow2Add(32, 32);
  }

  /**
   * As written, the allocation loop leaves some set without lines: the
   * address (2^s - 1) << b decodes to set 2^s - 1, which is never below s.
   * With s = 0 no row at all is allocated, with s = 1 only row 0.
   */
  lemma AllocationAsWrittenMissesSet(c: Config)
    requires ConfigOk(c)
    ensures var address := (SetCount(c) - 1) * Pow2(c.blockOffsetBit);
      && address < 0x1_0000_0000_0000_0000
      && SetIndex(c, address) == SetCount(c) - 1
      && !RowAllocatedAsWritten(c, SetIndex(c, address))
  {
    var ps, pb := SetCount(c), Pow2(c.blockOffsetBit);
    var idx: nat := ps - 1;
    var address := idx * pb;
    assert address / pb == idx by { DivUnique(address, pb, idx, 0); }
    assert idx % ps == idx by { DivUnique(idx, ps, 0, idx); }
    assert address < 0x1_0000_0000_0000_0000 by {
      var whole := Pow2(c.setIndexBit + c.blockOffsetBit);
      assert address + pb == ps * pb by { Distribute(idx, 1, 1, pb); }
      assert ps * pb == whole by { Pow2Add(c.setIndexBit, c.blockOffsetBit); }
      assert whole <= Pow2(64) by { Pow2Mono(c.setIndexBit + c.blockOffsetBit, 64); }
      Pow2Of64();
    }
    Pow2Exceeds(c.setIndexBit);
  }

  /** Allocating 2^s rows covers every set an address can decode to. */
  lemma AllocationCoversDecodedSets(c: Config, address: nat)
    ensures RowAllocated(c, SetIndex(c, address))
  {
    DecodeSplit(c, address);
  }

  // ---------------------------------------------------------------------
  // The replacement choice
  // ---------------------------------------------------------------------

  /** The victim carries the largest counter, and every later line a strictly smaller one. */
  lemma {:induction false} VictimIsLastMax(lines: seq<Line>)
    requires |lines| > 0
    ensures forall j :: 0 <= j < |lines| ==> lines[j].lru <= lines[Victim(lines)].lru
    ensures forall j :: Victim(lines) < j < |lines| ==> lines[j].lru < lines[Victim(lines)].lru
  {
    if |lines| > 1 {
      var init := lines[..|lines| - 1];
      VictimIsLastMax(init);
      assert forall j :: 0 <= j < |init| ==> init[j] == lines[j];
    }
  }

  /** The last-maximum property determines the victim. */
  lemma VictimUnique(lines: seq<Line>, v: nat)
    requires v < |lines|
    requires forall j :: 0 <= j < |lines| ==> lines[j].lru <= lines[v].lru
    requires forall j :: v < j < |lines| ==> lines[j].lru < lines[v].lru
    ensures Victim(lines) == v
  {
    VictimIsLastMax(lines);
  }

  // ---------------------------------------------------------------------
  // One access to a set
  // ---------------------------------------------------------------------

  /**
   * A hit: the set holds the tag at h.  The code is HIT, line h's counter
   * becomes 1, the valid lines below h age by one, the lines above h stay as
   * they are, and no valid bit or tag changes.
   */
  lemma AccessHit(lines: seq<Line>, tag: nat, h: nat)
    requires UniqueTags(lines)
    requires h < |lines| && Holds(lines[h], tag)
    ensures AccessSet(lines, tag).code == HIT
    ensures AccessSet(lines, tag).lines[h] == lines[h].(lru := 1)
    ensures forall j :: 0 <= j < h ==> AccessSet(lines, tag).lines[j] == Older(lines[j])
    ensures forall j :: h < j < |lines| ==> AccessSet(lines, tag).lines[j] == lines[j]
    ensures forall j :: 0 <= j < |lines| ==>
              AccessSet(lines, tag).lines[j].valid == lines[j].valid && AccessSet(lines, tag).lines[j].tag == lines[j].tag
  {
    var f := FindHit(lines, tag, 0);
    assert f.Some?;
    assert f.value == h;
  }

  /**
   * A fill: the tag is absent and e is the highest invalid line.  The code is
   * MISS, line e becomes valid with the tag and counter 1, and every other
   * line keeps its valid bit and tag and ages by one if valid.
   */
  lemma AccessFill(lines: seq<Line>, tag: nat, e: nat)
    requires !Present(lines, tag)
    requires e < |lines| && !lines[e].valid
    requires forall j :: e < j < |lines| ==> lines[j].valid
    ensures AccessSet(lines, tag).code == MISS
    ensures AccessSet(lines, tag).lines[e] == Line(true, 1, tag)
    ensures forall j :: 0 <= j < |lines| && j != e ==> AccessSet(lines, tag).lines[j] == Older(lines[j])
  {
    assert FindHit(lines, tag, 0).None?;
    var f := LastFree(lines);
    assert f.Some?;
    assert f.value == e;
  }

  /**
   * An eviction: the tag is absent and every line is valid.  Every line ages
   * by one, so the victim v is the line with the largest counter, ties going
   * to the highest index.  The code is EVICTION, v takes the tag with counter
   * 1, and every other line ages by one and keeps its tag.
   */
  lemma AccessEvict(lines: seq<Line>, tag: nat, v: nat)
    requires !Present(lines, tag)
    requires forall j :: 0 <= j < |lines| ==> lines[j].valid
    requires v < |lines|
    requires forall j :: 0 <= j < |lines| ==> lines[j].lru <= lines[v].lru
    requires forall j :: v < j < |lines| ==> lines[j].lru < lines[v].lru
    ensures AccessSet(lines, tag).code == EVICTION
    ensures AccessSet(lines, tag).lines[v] == Line(true, 1, tag)
    ensures forall j :: 0 <= j < |lines| && j != v ==>
              AccessSet(lines, tag).lines[j] == lines[j].(lru := lines[j].lru + 1)
  {
    assert FindHit(lines, tag, 0).None?;
    assert LastFree(lines).None?;
    var aged := AgeBelow(lines, |lines|);
    VictimUnique(aged, v);
  }

  /** The code tells which case happened: HIT exactly when the tag is present, EVICTION exactly when the set is full. */
  lemma AccessCode(lines: seq<Line>, tag: nat)
    requires |lines| > 0
    ensures AccessSet(lines, tag).code == HIT <==> Present(lines, tag)
    ensures AccessSet(lines, tag).code == MISS <==>
              !Present(lines, tag) && exists j :: 0 <= j < |lines| && !lines[j].valid
    ensures AccessSet(lines, tag).code == EVICTION <==>
              !Present(lines, tag) && forall j :: 0 <= j < |lines| ==> lines[j].valid
  {
    if Present(lines, tag) {
      var j :| 0 <= j < |lines| && Holds(lines[j], tag);
      assert FindHit(lines, tag, 0).Some?;
    } else {
      assert FindHit(lines, tag, 0).None?;
      if e :| 0 <= e < |lines| && !lines[e].valid {
        assert LastFree(lines).Some?;
      }
    }
  }

  /** No access clears a valid bit; it either refreshes a line or installs the tag in one line. */
  lemma AccessKeepsValid(lines: seq<Line>, tag: nat)
    requires |lines| > 0
    ensures forall j :: 0 <= j < |lines| && lines[j].valid ==> AccessSet(lines, tag).lines[j].valid
    ensures forall j :: 0 <= j < |lines| && AccessSet(lines, tag).lines[j].tag != lines[j].tag ==>
              !Holds(lines[j], tag) && Holds(AccessSet(lines, tag).lines[j], tag)
  {
    match FindHit(lines, tag, 0)
    case Some(h) =>
    case None =>
      match LastFree(lines)
      case Some(e) =>
      case None =>
  }

  /** After an access the set holds a valid line with the accessed tag. */
  lemma AccessInstallsTag(lines: seq<Line>, tag: nat)
    requires |lines| > 0
    ensures Present(AccessSet(lines, tag).lines, tag)
  {
    var r := AccessSet(lines, tag).lines;
    match FindHit(lines, tag, 0)
    case Some(h) => assert Holds(r[h], tag);
    case None =>
      match LastFree(lines)
      case Some(e) => assert Holds(r[e], tag);
      case None =>
        var v := Victim(AgeBelow(lines, |lines|));
        assert Holds(r[v], tag);
  }

  /** The tag-uniqueness invariant survives every access. */
  lemma AccessPreservesUnique(lines: seq<Line>, tag: nat)
    requires |lines| > 0 && UniqueTags(lines)
    ensures UniqueTags(AccessSet(lines, tag).lines)
  {
    var r := AccessSet(lines, tag).lines;
    match FindHit(lines, tag, 0)
    case Some(h) =>
      assert forall j :: 0 <= j < |lines| ==> r[j].valid == lines[j].valid && r[j].tag == lines[j].tag;
    case None =>
      var aged := AgeBelow(lines, |lines|);
      match LastFree(lines)
      case Some(e) =>
        assert r == aged[e := Line(true, 1, tag)];
        UniqueAfterInstall(lines, r, tag, e);
      case None =>
        var v := Victim(aged);
        assert r == aged[v := aged[v].(lru := 1, tag := tag)];
        UniqueAfterInstall(lines, r, tag, v);
  }

  /** Installing a tag the set does not hold into one line, and keeping the other tags, keeps tags unique. */
  lemma UniqueAfterInstall(lines: seq<Line>, r: seq<Line>, tag: nat, k: nat)
    requires UniqueTags(lines) && |r| == |lines| && k < |lines|
    requires forall j :: 0 <= j < |lines| ==> !Holds(lines[j], tag)
    requires forall j :: 0 <= j < |lines| && j != k ==> r[j].valid == lines[j].valid && r[j].tag == lines[j].tag
    requires Holds(r[k], tag)
    ensures UniqueTags(r)
  {
  }

  /** Counting valid lines of two equally long sets, where valid lines stay valid. */
  lemma {:induction false} CountValidMono(a: seq<Line>, b: seq<Line>)
    requires |a| == |b|
    requires forall j :: 0 <= j < |a| && a[j].valid ==> b[j].valid
    ensures CountValid(a) <= CountValid(b) <= |b|
  {
    if |a| > 0 {
      CountValidMono(a[..|a| - 1], b[..|b| - 1]);
    }
  }

  /** The number of valid lines in a set never decreases and never exceeds E. */
  lemma AccessValidCount(lines: seq<Line>, tag: nat)
    requires |lines| > 0
    ensures CountValid(lines) <= CountValid(AccessSet(lines, tag).lines) <= |lines|
  {
    AccessKeepsValid(lines, tag);
    CountValidMono(lines, AccessSet(lines, tag).lines);
  }

  /** Accessing the same tag twice: the second access is a hit. */
  lemma SecondAccessHits(lines: seq<Line>, tag: nat)
    requires |lines| > 0
    ensures AccessSet(AccessSet(lines, tag).lines, tag).code == HIT
  {
    AccessInstallsTag(lines, tag);
    AccessCode(AccessSet(lines, tag).lines, tag);
  }

  // ---------------------------------------------------------------------
  // One checkCache call on the whole state
  // ---------------------------------------------------------------------

  lemma StepPreservesWellFormed(c: Config, st: Sim, address: nat)
    requires ConfigOk(c) && WellFormed(c, st)
    ensures WellFormed(c, Step(c, st, address).sim)
  {
    DecodeSplit(c, address);
    AccessPreservesUnique(st.sets[SetIndex(c, address)], Tag(c, address));
  }

  /**
   * Counters: hits + misses rises by exactly one, evictions rises only
   * together with misses, and the code says which counter moved.  Only the
   * addressed set changes.
   */
  lemma StepCounters(c: Config, st: Sim, address: nat)
    requires ConfigOk(c) && Shaped(c, st)
    ensures var r := Step(c, st, address);
      && r.sim.hits + r.sim.misses == st.hits + st.misses + 1
      && st.hits <= r.sim.hits && st.misses <= r.sim.misses
      && (r.sim.hits == st.hits + 1 <==> r.code == HIT)
      && (r.sim.evictions == st.evictions + 1 <==> r.code == EVICTION)
      && (r.sim.evictions == st.evictions || r.sim.evictions == st.evictions + 1)
      && (r.sim.evictions > st.evictions ==> r.sim.misses == st.misses + 1)
      && (r.code == HIT || r.code == MISS || r.code == EVICTION)
      && forall x :: 0 <= x < |st.sets| && x != SetIndex(c, address) ==> r.sim.sets[x] == st.sets[x]
  {
    DecodeSplit(c, address);
  }

  /** After checkCache(address) the addressed set holds address's tag, so an immediate second call would hit. */
  lemma StepInstallsTag(c: Config, st: Sim, address: nat)
    requires ConfigOk(c) && Shaped(c, st)
    ensures Present(Step(c, st, address).sim.sets[SetIndex(c, address)], Tag(c, address))
    ensures Step(c, Step(c, st, address).sim, address).code == HIT
  {
    DecodeSplit(c, address);
    AccessInstallsTag(st.sets[SetIndex(c, address)], Tag(c, address));
    SecondAccessHits(st.sets[SetIndex(c, address)], Tag(c, address));
  }

  /** From the zeroed table the very first access is a fill of its set's last line. */
  lemma ColdStart(c: Config, address: nat)
    requires ConfigOk(c)
    ensures WellFormed(c, Initial(c))
    ensures Step(c, Initial(c), address).code == MISS
    ensures Step(c, Initial(c), address).sim.sets[SetIndex(c, address)][c.linePerSet - 1]
            == Line(true, 1, Tag(c, address))
  {
    DecodeSplit(c, address);
    var lines := Initial(c).sets[SetIndex(c, address)];
    assert !Present(lines, Tag(c, address));
    AccessFill(lines, Tag(c, address), c.linePerSet - 1);
  }

  // ---------------------------------------------------------------------
  // A whole trace
  // ---------------------------------------------------------------------

  lemma DispatchPreservesWellFormed(c: Config, st: Sim, rec: Record)
    requires ConfigOk(c) && WellFormed(c, st)
    ensures WellFormed(c, Dispatch(c, st, rec).sim)
  {
    if rec.op == 'S' || rec.op == 'L' || rec.op == 'M' {
      StepPreservesWellFormed(c, st, rec.addr);
    }
  }

  lemma {:induction false} RunPreservesWellFormed(c: Config, st: Sim, trace: seq<Record>)
    requires ConfigOk(c) && WellFormed(c, st)
    ensures WellFormed(c, Run(c, st, trace).sim)
  {
    if |trace| > 0 {
      RunPreservesWellFormed(c, st, trace[..|trace| - 1]);
      DispatchPreservesWellFormed(c, Run(c, st, trace[..|trace| - 1]).sim, trace[|trace| - 1]);
    }
  }

  /** Per record: I adds 0 to hits + misses, L and S add 1, M adds 2, anything else 0. */
  lemma DispatchCounters(c: Config, st: Sim, rec: Record)
    requires ConfigOk(c) && Shaped(c, st)
    ensures var r := Dispatch(c, st, rec).sim;
      && r.hits + r.misses == st.hits + st.misses + Accesses(rec)
      && r.evictions - st.evictions <= r.misses - st.misses
      && st.hits <= r.hits && st.misses <= r.misses && st.evictions <= r.evictions
    ensures |Dispatch(c, st, rec).codes| == (if rec.op == 'I' then 0 else 1)
  {
    if rec.op == 'S' || rec.op == 'L' || rec.op == 'M' {
      StepCounters(c, st, rec.addr);
    }
  }

  /**
   * Conservation over a trace: hits + misses grows by the number of accesses
   * (two per M), the counters never decrease, evictions grows by no more than
   * misses, and there is one code per non-instruction record.
   */
  lemma {:induction false} RunCounters(c: Config, st: Sim, trace: seq<Record>)
    requires ConfigOk(c) && Shaped(c, st)
    ensures var r := Run(c, st, trace).sim;
      && r.hits + r.misses == st.hits + st.misses + TotalAccesses(trace)
      && r.evictions - st.evictions <= r.misses - st.misses
      && st.hits <= r.hits && st.misses <= r.misses && st.evictions <= r.evictions
    ensures |Run(c, st, trace).codes| == |trace| - InstructionCount(trace)
  {
    if |trace| > 0 {
      var init := trace[..|trace| - 1];
      RunCounters(c, st, init);
      DispatchCounters(c, Run(c, st, init).sim, trace[|trace| - 1]);
    }
  }

  /** Starting from the zeroed table, evictions never exceed misses. */
  lemma EvictionsBoundedByMisses(c: Config, trace: seq<Record>)
    requires ConfigOk(c)
    ensures Run(c, Initial(c), trace).sim.evictions <= Run(c, Initial(c), trace).sim.misses
    ensures Run(c, Initial(c), trace).sim.hits + Run(c, Initial(c), trace).sim.misses == TotalAccesses(trace)
  {
    RunCounters(c, Initial(c), trace);
  }

  /**
   * A trace none of whose lookups decodes to set x leaves that set as it
   * was: checkCache only rewrites the set it decodes, and an M record's extra
   * hit touches no set.
   */
  lemma {:induction false} UntouchedSetUnchanged(c: Config, st: Sim, trace: seq<Record>, x: nat)
    requires ConfigOk(c) && Shaped(c, st) && x < SetCount(c)
    requires forall k :: 0 <= k < |trace| ==> !Touches(c, trace[k], x)
    ensures Run(c, st, trace).sim.sets[x] == st.sets[x]
  {
    if |trace| > 0 {
      var init := trace[..|trace| - 1];
      UntouchedSetUnchanged(c, st, init, x);
      var rec := trace[|trace| - 1];
      if rec.op == 'S' || rec.op == 'L' || rec.op == 'M' {
        StepCounters(c, Run(c, st, init).sim, rec.addr);
      }
    }
  }

  /**
   * From the zeroed table, the first access to a set is a fill of that set's
   * last line, whatever other sets the trace before it has touched.
   */
  lemma FirstAccessToSetFills(c: Config, trace: seq<Record>, address: nat)
    requires ConfigOk(c)
    requires forall k :: 0 <= k < |trace| ==> !Touches(c, trace[k], SetIndex(c, address))
    ensures var st := Run(c, Initial(c), trace).sim;
      && Step(c, st, address).code == MISS
      && Step(c, st, address).sim.sets[SetIndex(c, address)][c.linePerSet - 1] == Line(true, 1, Tag(c, address))
  {
    DecodeSplit(c, address);
    var idx := SetIndex(c, address);
    UntouchedSetUnchanged(c, Initial(c), trace, idx);
    var lines := Initial(c).sets[idx];
    assert !Present(lines, Tag(c, address));
    AccessFill(lines, Tag(c, address), c.linePerSet - 1);
  }
}
