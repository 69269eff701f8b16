/**
 * Worked examples of the model on concrete inputs: the aging policy set
 * against least-recently-used replacement, and one short trace.
 */
module CacheExamples {
  import opened CacheModel
  import opened CacheLemmas

  /** A set of three zeroed lines. */
  const Three: seq<Line> := [EmptyLine, EmptyLine, EmptyLine]

  /** The tags of the aging example: A, B, C, then D for the final miss. */
  const A := 10
  const B := 11
  const C := 12
  const D := 13

  /** Three misses fill the set from the top line down; each fill ages the lines already there. */
  lemma FillsFromTop()
    ensures AccessSet(Three, A) == SetResult(MISS, [EmptyLine, EmptyLine, Line(true, 1, A)])
    ensures AccessSet([EmptyLine, EmptyLine, Line(true, 1, A)], B)
            == SetResult(MISS, [EmptyLine, Line(true, 1, B), Line(true, 2, A)])
    ensures AccessSet([EmptyLine, Line(true, 1, B), Line(true, 2, A)], C)
            == SetResult(MISS, [Line(true, 1, C), Line(true, 2, B), Line(true, 3, A)])
  {
    AccessFill(Three, A, 2);
    AccessFill([EmptyLine, EmptyLine, Line(true, 1, A)], B, 1);
    AccessFill([EmptyLine, Line(true, 1, B), Line(true, 2, A)], C, 0);
  }

  /** Hits on A, C and B reset the hit line and age only the lines scanned before it. */
  lemma HitsAgeOnlyScannedLines()
    ensures AccessSet([Line(true, 1, C), Line(true, 2, B), Line(true, 3, A)], A)
            == SetResult(HIT, [Line(true, 2, C), Line(true, 3, B), Line(true, 1, A)])
    ensures AccessSet([Line(true, 2, C), Line(true, 3, B), Line(true, 1, A)], C)
            == SetResult(HIT, [Line(true, 1, C), Line(true, 3, B), Line(true, 1, A)])
    ensures AccessSet([Line(true, 1, C), Line(true, 3, B), Line(true, 1, A)], B)
            == SetResult(HIT, [Line(true, 2, C), Line(true, 1, B), Line(true, 1, A)])
  {
    AccessHit([Line(true, 1, C), Line(true, 2, B), Line(true, 3, A)], A, 2);
    AccessHit([Line(true, 2, C), Line(true, 3, B), Line(true, 1, A)], C, 0);
    AccessHit([Line(true, 1, C), Line(true, 3, B), Line(true, 1, A)], B, 1);
  }

  /** The miss on D evicts line 0, which holds C. */
  lemma MissEvictsC()
    ensures AccessSet([Line(true, 2, C), Line(true, 1, B), Line(true, 1, A)], D)
            == SetResult(EVICTION, [Line(true, 1, D), Line(true, 2, B), Line(true, 2, A)])
  {
    AccessEvict([Line(true, 2, C), Line(true, 1, B), Line(true, 1, A)], D, 0);
  }

  /**
   * The counters age only on the lines a scan passes, so they do not order
   * lines by last use.  With three lines, accesses to tags A B C A C B leave
   * A as the least recently used line, yet the next miss (D) evicts C and
   * keeps A.
   */
  lemma AgingIsNotLru()
    ensures var s1 := AccessSet(Three, A).lines;
      var s2 := AccessSet(s1, B).lines;
      var s3 := AccessSet(s2, C).lines;
      var s4 := AccessSet(s3, A).lines;
      var s5 := AccessSet(s4, C).lines;
      var s6 := AccessSet(s5, B).lines;
      var r := AccessSet(s6, D);
      && r.code == EVICTION
      && Present(r.lines, A) && Present(r.lines, B) && !Present(r.lines, C)
  {
    FillsFromTop();
    HitsAgeOnlyScannedLines();
    MissEvictsC();
    var r := [Line(true, 1, D), Line(true, 2, B), Line(true, 2, A)];
    assert Holds(r[2], A) && Holds(r[1], B);
  }

  /** One set of one line, no block offset: the tag is the address. */
  const Tiny := Config(0, 1, 0)

  /** The zeroed table of Tiny is one set holding one invalid line. */
  lemma TinyInitial()
    ensures Initial(Tiny) == Sim([[EmptyLine]], 0, 0, 0)
  {
    assert SetCount(Tiny) == 1;
    assert Initial(Tiny).sets[0] == [EmptyLine];
  }

  /** The three checkCache calls of the Tiny trace: a fill, an eviction and a hit. */
  lemma TinySteps()
    ensures Step(Tiny, Sim([[EmptyLine]], 0, 0, 0), 0) == StepResult(Sim([[Line(true, 1, 0)]], 0, 1, 0), MISS)
    ensures Step(Tiny, Sim([[Line(true, 1, 0)]], 0, 1, 0), 1) == StepResult(Sim([[Line(true, 1, 1)]], 0, 2, 1), EVICTION)
    ensures Step(Tiny, Sim([[Line(true, 1, 1)]], 1, 2, 1), 1) == StepResult(Sim([[Line(true, 1, 1)]], 2, 2, 1), HIT)
  {
    assert SetCount(Tiny) == 1;
    assert Tag(Tiny, 0) == 0 && SetIndex(Tiny, 0) == 0;
    assert Tag(Tiny, 1) == 1 && SetIndex(Tiny, 1) == 0;
    AccessFill([EmptyLine], 0, 0);
    assert AccessSet([EmptyLine], 0).lines == [Line(true, 1, 0)];
    AccessEvict([Line(true, 1, 0)], 1, 0);
    assert AccessSet([Line(true, 1, 0)], 1).lines == [Line(true, 1, 1)];
    AccessHit([Line(true, 1, 1)], 1, 0);
    assert AccessSet([Line(true, 1, 1)], 1).lines == [Line(true, 1, 1)];
  }

  /** The Tiny trace: L 0, M 1, I 2, X 5, S 1. */
  const TinyRecords := [Record('L', 0), Record('M', 1), Record('I', 2), Record('X', 5), Record('S', 1)]

  /** After L 0 and M 1 the line holds tag 1; one hit (M's store), two misses, one eviction. */
  lemma TinyFirstTwo()
    ensures Run(Tiny, Initial(Tiny), TinyRecords[..2]) == RunResult(Sim([[Line(true, 1, 1)]], 1, 2, 1), [MISS, EVICTION])
  {
    TinyInitial();
    TinySteps();
    var t := TinyRecords;
    assert t[..1][..0] == [];
    assert Run(Tiny, Initial(Tiny), t[..1]) == RunResult(Sim([[Line(true, 1, 0)]], 0, 1, 0), [MISS]);
    assert t[..2][..1] == t[..1];
  }

  /**
   * L 0 misses, M 1 evicts and then counts its store as a hit, I 2 is
   * skipped, an unknown operation X reports code 0 and counts nothing,
   * and S 1 hits.
   */
  lemma TinyTrace()
    ensures var r := Run(Tiny, Initial(Tiny), TinyRecords);
      && r.codes == [MISS, EVICTION, HIT, HIT]
      && r.sim.hits == 2 && r.sim.misses == 2 && r.sim.evictions == 1
  {
    TinyFirstTwo();
    TinySteps();
    var t := TinyRecords;
    var st0 := Initial(Tiny);
    var st2 := Sim([[Line(true, 1, 1)]], 1, 2, 1);
    assert t[..3][..2] == t[..2];
    assert Run(Tiny, st0, t[..3]) == RunResult(st2, [MISS, EVICTION]);
    assert t[..4][..3] == t[..3];
    assert Run(Tiny, st0, t[..4]) == RunResult(st2, [MISS, EVICTION, HIT]);
    assert t[..5][..4] == t[..4];
    assert t[..5] == t;
  }
}
