/**
 * The lazy breadth-first flood fill behind every pool request, as functions on
 * an exploration state value: one step dequeues a position, marks it explored
 * and enqueues its eligible neighbours; a batch runs steps while the step
 * counter is below the batch size and the queue is not empty.
 */
module Exploration {
  import opened Grid

  /** The exploration state the pool keeps between calls. */
  datatype Frontier = Frontier(explored: set<Pos>, unexplored: seq<Pos>)

  function Elems(q: seq<Pos>): (r: set<Pos>)
    ensures forall p :: p in r <==> p in q
  {
    set p | p in q
  }

  /** The queue holds no explored position and no position twice. */
  predicate Inv(s: Frontier) {
    (forall i :: 0 <= i < |s.unexplored| ==> s.unexplored[i] !in s.explored) &&
    (forall i, j :: 0 <= i < j < |s.unexplored| ==> s.unexplored[i] != s.unexplored[j])
  }

  /**
   * A neighbour may join the pool: it holds the pool's fluid or, when looking
   * for space, it is air or an empty fluid-loggable block.
   */
  predicate Eligible(g: Cells, f: FluidKind, lookForAir: bool, p: Pos)
    ensures Eligible(g, f, lookForAir, p) ==> p in g
    ensures !lookForAir ==> (Eligible(g, f, lookForAir, p) <==> IsSame(CellAt(g, p), f))
  {
    var c := CellAt(g, p);
    (lookForAir && (IsAir(c) || CanBeFluidlogged(c))) || IsSame(c, f)
  }

  /** Enqueue, in order, every position of `ns` that is new and eligible. */
  function Enqueue(g: Cells, f: FluidKind, lookForAir: bool, s: Frontier, ns: seq<Pos>): Frontier
    decreases |ns|
  {
    if ns == [] then s
    else
      var q := ns[0];
      var s' := if q in s.explored || q in s.unexplored || !Eligible(g, f, lookForAir, q) then s
                else s.(unexplored := s.unexplored + [q]);
      Enqueue(g, f, lookForAir, s', ns[1..])
  }

  /** One iteration of the batch loop: poll the head, explore it, enqueue its neighbours. */
  function Step(g: Cells, f: FluidKind, lookForAir: bool, s: Frontier): Frontier
    requires s.unexplored != []
  {
    var p := s.unexplored[0];
    Enqueue(g, f, lookForAir, Frontier(s.explored + {p}, s.unexplored[1..]), Neighbours(p))
  }

  /** The batch loop, from step counter `count` up to `batchSize`. */
  function Batch(g: Cells, f: FluidKind, lookForAir: bool, s: Frontier, count: int, batchSize: int): Frontier
    decreases batchSize - count
  {
    if count < batchSize && s.unexplored != [] then
      Batch(g, f, lookForAir, Step(g, f, lookForAir, s), count + 1, batchSize)
    else s
  }

  /** The counter exploreBatch starts from. */
  const FirstCount: int := 3

  /** What a batch returns: the positions it explored. */
  function Explored(before: Frontier, after: Frontier): set<Pos> {
    after.explored - before.explored
  }

  /** Positions that may still be explored: the grid and the queue, minus what is explored. */
  function Measure(g: Cells, s: Frontier): nat {
    |(g.Keys + Elems(s.unexplored)) - s.explored|
  }

  /**
   * Every eligible neighbour of an explored position has been explored or
   * queued: nothing connected to the explored region is forgotten.
   */
  ghost predicate Closed(g: Cells, f: FluidKind, lookForAir: bool, s: Frontier) {
    forall p, q :: p in s.explored && Adjacent(p, q) && Eligible(g, f, lookForAir, q) ==>
      q in s.explored || q in s.unexplored
  }

  // ---------------------------------------------------------------------
  // Enqueueing neighbours

  lemma {:induction false} EnqueueSpec(g: Cells, f: FluidKind, lookForAir: bool, s: Frontier, ns: seq<Pos>)
    requires Inv(s)
    ensures var r := Enqueue(g, f, lookForAir, s, ns);
      && Inv(r)
      && r.explored == s.explored
      && |s.unexplored| <= |r.unexplored|
      && r.unexplored[..|s.unexplored|] == s.unexplored
      && (forall i :: |s.unexplored| <= i < |r.unexplored| ==>
            r.unexplored[i] in ns && Eligible(g, f, lookForAir, r.unexplored[i]))
      && (forall q :: q in ns && Eligible(g, f, lookForAir, q) ==> q in r.explored || q in r.unexplored)
    decreases |ns|
  {
    if ns != [] {
      var q := ns[0];
      var s' := if q in s.explored || q in s.unexplored || !Eligible(g, f, lookForAir, q) then s
                else s.(unexplored := s.unexplored + [q]);
      assert Inv(s');
      EnqueueSpec(g, f, lookForAir, s', ns[1..]);
      var r := Enqueue(g, f, lookForAir, s', ns[1..]);
      assert r == Enqueue(g, f, lookForAir, s, ns);
      assert r.unexplored[..|s'.unexplored|][..|s.unexplored|] == r.unexplored[..|s.unexplored|];
      forall x | x in ns && Eligible(g, f, lookForAir, x)
        ensures x in r.explored || x in r.unexplored
      {
        if x != q {
          assert x in ns[1..];
        } else if q in s'.unexplored {
          var k :| 0 <= k < |s'.unexplored| && s'.unexplored[k] == q;
          assert r.unexplored[k] == q;
        }
      }
    }
  }

  // ---------------------------------------------------------------------
  // One step

  lemma StepSpec(g: Cells, f: FluidKind, lookForAir: bool, s: Frontier)
    requires Inv(s) && s.unexplored != []
    ensures var r := Step(g, f, lookForAir, s); var p := s.unexplored[0];
      && Inv(r)
      && p !in s.explored
      && r.explored == s.explored + {p}
      && |s.unexplored| - 1 <= |r.unexplored|
      && r.unexplored[..|s.unexplored| - 1] == s.unexplored[1..]
      && (forall i :: |s.unexplored| - 1 <= i < |r.unexplored| ==>
            Adjacent(p, r.unexplored[i]) && Eligible(g, f, lookForAir, r.unexplored[i]))
      && (forall q :: Adjacent(p, q) && Eligible(g, f, lookForAir, q) ==> q in r.explored || q in r.unexplored)
  {
    var p := s.unexplored[0];
    var s1 := Frontier(s.explored + {p}, s.unexplored[1..]);
    assert Inv(s1) by {
      forall i | 0 <= i < |s1.unexplored| ensures s1.unexplored[i] !in s1.explored {
        assert s1.unexplored[i] == s.unexplored[i + 1];
      }
    }
    EnqueueSpec(g, f, lookForAir, s1, Neighbours(p));
    NeighboursAdjacent(p);
  }

  lemma StepMeasure(g: Cells, f: FluidKind, lookForAir: bool, s: Frontier)
    requires Inv(s) && s.unexplored != []
    ensures Measure(g, Step(g, f, lookForAir, s)) < Measure(g, s)
  {
    var r := Step(g, f, lookForAir, s);
    var p := s.unexplored[0];
    StepSpec(g, f, lookForAir, s);
    var before := (g.Keys + Elems(s.unexplored)) - s.explored;
    var after := (g.Keys + Elems(r.unexplored)) - r.explored;
    forall x | x in after ensures x in before - {p} {
      if x !in g.Keys {
        var i :| 0 <= i < |r.unexplored| && r.unexplored[i] == x;
        if i < |s.unexplored| - 1 {
          assert x == s.unexplored[1..][i];
        }
      }
    }
    assert p in before;
    SubsetCard(after, before - {p});
  }

  lemma {:induction false} SubsetCard(a: set<Pos>, b: set<Pos>)
    requires a <= b
    ensures |a| <= |b|
    decreases b
  {
    if a != {} {
      var x :| x in a;
      SubsetCard(a - {x}, b - {x});
    }
  }

  lemma StepClosed(g: Cells, f: FluidKind, lookForAir: bool, lookClosed: bool, s: Frontier)
    requires Inv(s) && s.unexplored != []
    requires lookClosed ==> lookForAir
    requires Closed(g, f, lookClosed, s)
    ensures Closed(g, f, lookClosed, Step(g, f, lookForAir, s))
  {
    var r := Step(g, f, lookForAir, s);
    StepSpec(g, f, lookForAir, s);
    forall p, q | p in r.explored && Adjacent(p, q) && Eligible(g, f, lookClosed, q)
      ensures q in r.explored || q in r.unexplored
    {
      if p in s.explored && q in s.unexplored && q != s.unexplored[0] {
        var i :| 0 <= i < |s.unexplored| && s.unexplored[i] == q;
        assert r.unexplored[i - 1] == s.unexplored[1..][i - 1];
      }
    }
  }

  // ---------------------------------------------------------------------
  // A batch

  /**
   * A batch keeps the queue/visited invariant, only adds to the explored set,
   * and everything it explored or queued was queued before or is an eligible
   * neighbour of a position it explored.
   */
  lemma {:induction false} BatchInvariant(g: Cells, f: FluidKind, lookForAir: bool, s: Frontier, count: int, batchSize: int)
    requires Inv(s)
    ensures var r := Batch(g, f, lookForAir, s, count, batchSize);
      && Inv(r)
      && s.explored <= r.explored
      && (forall x :: x in Explored(s, r) && x !in s.unexplored ==> Eligible(g, f, lookForAir, x))
      && (forall x :: x in r.unexplored && x !in s.unexplored ==> Eligible(g, f, lookForAir, x))
    decreases batchSize - count
  {
    if count < batchSize && s.unexplored != [] {
      var s1 := Step(g, f, lookForAir, s);
      StepSpec(g, f, lookForAir, s);
      BatchInvariant(g, f, lookForAir, s1, count + 1, batchSize);
      var r := Batch(g, f, lookForAir, s1, count + 1, batchSize);
      forall x | x in s1.unexplored && x !in s.unexplored ensures Eligible(g, f, lookForAir, x) {
        var i :| 0 <= i < |s1.unexplored| && s1.unexplored[i] == x;
        assert |s.unexplored| - 1 <= i;
      }
    }
  }

  /**
   * A batch explores at most `batchSize - count` positions, and explores none
   * exactly when the queue was empty or the counter already at the batch size.
   */
  lemma {:induction false} BatchSize(g: Cells, f: FluidKind, lookForAir: bool, s: Frontier, count: int, batchSize: int)
    requires Inv(s)
    ensures var r := Batch(g, f, lookForAir, s, count, batchSize);
      && |Explored(s, r)| <= (if batchSize - count < 0 then 0 else batchSize - count)
      && (Explored(s, r) == {} <==> s.unexplored == [] || batchSize <= count)
    decreases batchSize - count
  {
    if count < batchSize && s.unexplored != [] {
      var s1 := Step(g, f, lookForAir, s);
      var p := s.unexplored[0];
      StepSpec(g, f, lookForAir, s);
      BatchSize(g, f, lookForAir, s1, count + 1, batchSize);
      BatchInvariant(g, f, lookForAir, s1, count + 1, batchSize);
      var r := Batch(g, f, lookForAir, s1, count + 1, batchSize);
      assert Explored(s, r) == Explored(s1, r) + {p};
      assert p in Explored(s, r);
    }
  }

  /**
   * First in, first out: a batch that may take k steps, with at least k
   * positions queued, explores exactly the first k queued positions.
   */
  lemma {:induction false} BatchPrefix(g: Cells, f: FluidKind, lookForAir: bool, s: Frontier, count: int, batchSize: int)
    requires Inv(s) && count <= batchSize && batchSize - count <= |s.unexplored|
    ensures Batch(g, f, lookForAir, s, count, batchSize).explored ==
            s.explored + Elems(s.unexplored[..batchSize - count])
    decreases batchSize - count
  {
    var k := batchSize - count;
    if k == 0 {
      assert s.unexplored[..k] == [];
    } else {
      var s1 := Step(g, f, lookForAir, s);
      var p := s.unexplored[0];
      StepSpec(g, f, lookForAir, s);
      BatchPrefix(g, f, lookForAir, s1, count + 1, batchSize);
      assert s1.unexplored[..k - 1] == s.unexplored[1..k] by {
        assert s1.unexplored[..k - 1] == s1.unexplored[..|s.unexplored| - 1][..k - 1];
      }
      assert Elems(s.unexplored[..k]) == {p} + Elems(s.unexplored[1..k]) by {
        assert s.unexplored[..k] == [p] + s.unexplored[1..k];
      }
    }
  }

  /**
   * A batch that may take more steps than there are queued positions
   * explores every queued position.
   */
  lemma {:induction false} BatchWholeQueue(g: Cells, f: FluidKind, lookForAir: bool, s: Frontier, count: int, batchSize: int)
    requires Inv(s) && |s.unexplored| < batchSize - count
    ensures Elems(s.unexplored) <= Batch(g, f, lookForAir, s, count, batchSize).explored
    decreases batchSize - count
  {
    if s.unexplored != [] {
      var s1 := Step(g, f, lookForAir, s);
      var p := s.unexplored[0];
      var n := |s.unexplored| - 1;
      StepSpec(g, f, lookForAir, s);
      BatchInvariant(g, f, lookForAir, s1, count + 1, batchSize);
      var r := Batch(g, f, lookForAir, s1, count + 1, batchSize);
      assert p in r.explored;
      if |s1.unexplored| < batchSize - (count + 1) {
        BatchWholeQueue(g, f, lookForAir, s1, count + 1, batchSize);
        assert Elems(s.unexplored[1..]) <= Elems(s1.unexplored) by {
          assert s1.unexplored[..n] == s.unexplored[1..];
        }
      } else {
        BatchPrefix(g, f, lookForAir, s1, count + 1, batchSize);
        assert Elems(s.unexplored[1..]) <= Elems(s1.unexplored[..batchSize - (count + 1)]) by {
          assert s1.unexplored[..batchSize - (count + 1)][..n] == s.unexplored[1..];
        }
      }
      assert Elems(s.unexplored) == {p} + Elems(s.unexplored[1..]) by {
        assert s.unexplored == [p] + s.unexplored[1..];
      }
    }
  }

  /** A batch never increases the measure and strictly decreases it when it explores anything. */
  lemma {:induction false} BatchMeasure(g: Cells, f: FluidKind, lookForAir: bool, s: Frontier, count: int, batchSize: int)
    requires Inv(s)
    ensures var r := Batch(g, f, lookForAir, s, count, batchSize);
      && Measure(g, r) <= Measure(g, s)
      && (Explored(s, r) != {} ==> Measure(g, r) < Measure(g, s))
    decreases batchSize - count
  {
    if count < batchSize && s.unexplored != [] {
      var s1 := Step(g, f, lookForAir, s);
      StepSpec(g, f, lookForAir, s);
      StepMeasure(g, f, lookForAir, s);
      BatchMeasure(g, f, lookForAir, s1, count + 1, batchSize);
    }
  }

  /**
   * Closure of the explored region is kept by a batch in the same mode or in
   * a mode that enqueues more (looking for space enqueues every same-fluid
   * neighbour as well).
   */
  lemma {:induction false} BatchClosed(g: Cells, f: FluidKind, lookForAir: bool, lookClosed: bool,
                                       s: Frontier, count: int, batchSize: int)
    requires Inv(s)
    requires lookClosed ==> lookForAir
    requires Closed(g, f, lookClosed, s)
    ensures Closed(g, f, lookClosed, Batch(g, f, lookForAir, s, count, batchSize))
    decreases batchSize - count
  {
    if count < batchSize && s.unexplored != [] {
      StepSpec(g, f, lookForAir, s);
      StepClosed(g, f, lookForAir, lookClosed, s);
      BatchClosed(g, f, lookForAir, lookClosed, Step(g, f, lookForAir, s), count + 1, batchSize);
    }
  }

  /**
   * Once the queue is empty, a closed explored region contains every position
   * reachable from it through eligible neighbours.
   */
  lemma {:induction false} ExhaustedReach(g: Cells, f: FluidKind, lookForAir: bool, s: Frontier, path: seq<Pos>)
    requires Closed(g, f, lookForAir, s) && s.unexplored == []
    requires |path| > 0 && path[0] in s.explored
    requires forall i :: 0 < i < |path| ==> Adjacent(path[i - 1], path[i]) && Eligible(g, f, lookForAir, path[i])
    ensures path[|path| - 1] in s.explored
    decreases |path|
  {
    if |path| > 1 {
      ExhaustedReach(g, f, lookForAir, s, path[..|path| - 1]);
      var n := |path| - 1;
      assert Adjacent(path[n - 1], path[n]) && Eligible(g, f, lookForAir, path[n]);
    }
  }
}
