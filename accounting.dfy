/**
 * What the four pool requests add up while they explore, and what a commit
 * pass may do to the grid. `Search` is the accumulate loop shared by all four
 * requests: explore a batch, add up what every batch position contributes,
 * and stop once the requested amount is reached or a batch comes back empty.
 */
module Accounting {
  import opened Grid
  import opened Exploration

  /** The batch size every request passes to exploreBatch. */
  const RequestBatch: int := 10

  /** Per-position quantities the model adds up. */
  datatype Weight =
    | Contribution(g: Cells, f: FluidKind, banned: set<Pos>, lookForAir: bool)
    | Held(g: Cells)
    | Room(g: Cells)

  /**
   * Contribution: what one batch position adds to the running total. Banned
   * positions add nothing; looking for fluid, a cell of the pool's fluid adds
   * its amount; looking for space, air and empty loggable blocks add a full
   * cell and a cell of the pool's fluid adds what it lacks of a full cell.
   * Held: the fluid a cell holds. Room: what a cell lacks of a full cell.
   */
  function WeightAt(w: Weight, p: Pos): int {
    match w
    case Contribution(g, f, banned, lookForAir) =>
      var c := CellAt(g, p);
      if p in banned then 0
      else if !lookForAir then (if IsSame(c, f) then FluidAmount(c) else 0)
      else if IsAir(c) || CanBeFluidlogged(c) then Capacity
      else if IsSame(c, f) then Capacity - FluidAmount(c)
      else 0
    case Held(g) => FluidAmount(CellAt(g, p))
    case Room(g) => Capacity - FluidAmount(CellAt(g, p))
  }

  /** A batch position the remove and add requests keep for their commit pass. */
  predicate Qualifies(g: Cells, f: FluidKind, banned: set<Pos>, lookForAir: bool, p: Pos)
    ensures Qualifies(g, f, banned, lookForAir, p) ==> p !in banned && p in g && g[p].block != Solid
  {
    var c := CellAt(g, p);
    p !in banned && ((lookForAir && (IsAir(c) || CanBeFluidlogged(c))) || IsSame(c, f))
  }

  /** The qualifying positions among `s`. */
  function Picked(g: Cells, f: FluidKind, banned: set<Pos>, lookForAir: bool, s: set<Pos>): (r: set<Pos>)
    ensures r <= s
    ensures forall p :: p in r <==> p in s && Qualifies(g, f, banned, lookForAir, p)
  {
    set p | p in s && Qualifies(g, f, banned, lookForAir, p)
  }

  function Max0(x: int): int {
    if x < 0 then 0 else x
  }

  function Min(a: int, b: int): int {
    if a < b then a else b
  }

  // ---------------------------------------------------------------------
  // Sums over finite sets of positions

  ghost function Pick(s: set<Pos>): (p: Pos)
    requires s != {}
    ensures p in s
  {
    var p :| p in s; p
  }

  ghost function Sum(s: set<Pos>, w: Weight): int
    decreases s
  {
    if s == {} then 0 else
      var p := Pick(s);
      WeightAt(w, p) + Sum(s - {p}, w)
  }

  /** The fluid held in the whole grid. */
  ghost function Total(g: Cells): int {
    Sum(g.Keys, Held(g))
  }

  /** Any element can be taken out of a sum first. */
  lemma {:induction false} SumRemove(s: set<Pos>, w: Weight, x: Pos)
    requires x in s
    ensures Sum(s, w) == WeightAt(w, x) + Sum(s - {x}, w)
    decreases s
  {
    var y := Pick(s);
    if y != x {
      SumRemove(s - {y}, w, x);
      SumRemove(s - {x}, w, y);
      assert s - {y} - {x} == s - {x} - {y};
    }
  }

  lemma {:induction false} SumUnion(a: set<Pos>, b: set<Pos>, w: Weight)
    requires a !! b
    ensures Sum(a + b, w) == Sum(a, w) + Sum(b, w)
    decreases a
  {
    if a == {} {
      assert a + b == b;
    } else {
      var x := Pick(a);
      SumRemove(a + b, w, x);
      assert (a + b) - {x} == (a - {x}) + b;
      SumUnion(a - {x}, b, w);
      assert Sum(a, w) == WeightAt(w, x) + Sum(a - {x}, w);
    }
  }

  lemma {:induction false} SumExt(s: set<Pos>, w1: Weight, w2: Weight)
    requires forall p :: p in s ==> WeightAt(w1, p) == WeightAt(w2, p)
    ensures Sum(s, w1) == Sum(s, w2)
    decreases s
  {
    if s != {} {
      var x := Pick(s);
      SumRemove(s, w2, x);
      SumExt(s - {x}, w1, w2);
    }
  }

  lemma {:induction false} SumZero(s: set<Pos>, w: Weight)
    requires forall p :: p in s ==> WeightAt(w, p) == 0
    ensures Sum(s, w) == 0
    decreases s
  {
    if s != {} {
      SumZero(s - {Pick(s)}, w);
    }
  }

  /** Picking from a union is picking from each part. */
  lemma PickedUnion(g: Cells, f: FluidKind, banned: set<Pos>, lookForAir: bool, a: set<Pos>, b: set<Pos>)
    ensures Picked(g, f, banned, lookForAir, a + b) ==
            Picked(g, f, banned, lookForAir, a) + Picked(g, f, banned, lookForAir, b)
  {
  }

  /** Adding one position to a set adds its weight to the sum. */
  lemma SumAdd(done: set<Pos>, w: Weight, p: Pos)
    requires p !in done
    ensures Sum(done + {p}, w) == Sum(done, w) + WeightAt(w, p)
  {
    SumRemove(done + {p}, w, p);
    assert done + {p} - {p} == done;
  }

  /** Tallying one more position adds its contribution, and adds it to the picked positions when it qualifies. */
  lemma TallyStep(g: Cells, f: FluidKind, banned: set<Pos>, lookForAir: bool, done: set<Pos>, p: Pos)
    requires p !in done
    ensures var w := Contribution(g, f, banned, lookForAir);
      Sum(done + {p}, w) == Sum(done, w) + WeightAt(w, p)
    ensures Picked(g, f, banned, lookForAir, done + {p}) ==
            Picked(g, f, banned, lookForAir, done) + (if Qualifies(g, f, banned, lookForAir, p) then {p} else {})
  {
    SumAdd(done, Contribution(g, f, banned, lookForAir), p);
  }

  /** The positions picked over two consecutive stretches of exploration are those picked over both. */
  lemma PickedStep(g: Cells, f: FluidKind, banned: set<Pos>, lookForAir: bool, s: Frontier, s': Frontier, s'': Frontier)
    requires s.explored <= s'.explored <= s''.explored
    ensures Picked(g, f, banned, lookForAir, Explored(s, s'')) ==
            Picked(g, f, banned, lookForAir, Explored(s, s')) + Picked(g, f, banned, lookForAir, Explored(s', s''))
  {
    assert Explored(s, s'') == Explored(s, s') + Explored(s', s'');
    PickedUnion(g, f, banned, lookForAir, Explored(s, s'), Explored(s', s''));
  }

  /**
   * Only qualifying positions contribute: the running total over a batch is
   * the total over the positions kept for the commit pass.
   */
  lemma SumPicked(g: Cells, f: FluidKind, banned: set<Pos>, lookForAir: bool, s: set<Pos>)
    ensures Sum(s, Contribution(g, f, banned, lookForAir)) ==
            Sum(Picked(g, f, banned, lookForAir, s), Contribution(g, f, banned, lookForAir))
  {
    var w := Contribution(g, f, banned, lookForAir);
    var kept := Picked(g, f, banned, lookForAir, s);
    SumZero(s - kept, w);
    SumUnion(kept, s - kept, w);
    assert kept + (s - kept) == s;
  }

  /**
   * On kept positions the running total counts exactly the fluid held when
   * looking for fluid, and exactly the room left when looking for space.
   */
  lemma ContributionOfPicked(g: Cells, f: FluidKind, banned: set<Pos>, lookForAir: bool, s: set<Pos>)
    requires WellFormedCells(g)
    ensures var kept := Picked(g, f, banned, lookForAir, s);
      Sum(kept, Contribution(g, f, banned, lookForAir)) ==
      Sum(kept, if lookForAir then Room(g) else Held(g))
  {
    var kept := Picked(g, f, banned, lookForAir, s);
    SumExt(kept, Contribution(g, f, banned, lookForAir), if lookForAir then Room(g) else Held(g));
  }

  /** Replacing one cell changes the grid total by the change of that cell. */
  lemma TotalUpdate(g: Cells, p: Pos, c: Cell)
    requires p in g
    ensures Total(g[p := c]) == Total(g) - FluidAmount(g[p]) + FluidAmount(c)
  {
    var g' := g[p := c];
    assert g'.Keys == g.Keys;
    SumRemove(g.Keys, Held(g), p);
    SumRemove(g.Keys, Held(g'), p);
    SumExt(g.Keys - {p}, Held(g), Held(g'));
  }

  // ---------------------------------------------------------------------
  // The accumulate loop

  /** The contributions of the positions a batch explores, in the order it explores them. */
  function Gain(g: Cells, f: FluidKind, banned: set<Pos>, lookForAir: bool, s: Frontier, count: int, batchSize: int): int
    decreases batchSize - count
  {
    if count < batchSize && s.unexplored != [] then
      WeightAt(Contribution(g, f, banned, lookForAir), s.unexplored[0]) +
      Gain(g, f, banned, lookForAir, Step(g, f, lookForAir, s), count + 1, batchSize)
    else 0
  }

  /** Adding up a batch position by position gives the sum over the set the batch returns. */
  lemma {:induction false} BatchGain(g: Cells, f: FluidKind, banned: set<Pos>, lookForAir: bool, s: Frontier, count: int, batchSize: int)
    requires Inv(s)
    ensures Gain(g, f, banned, lookForAir, s, count, batchSize) ==
            Sum(Explored(s, Batch(g, f, lookForAir, s, count, batchSize)), Contribution(g, f, banned, lookForAir))
    decreases batchSize - count
  {
    var w := Contribution(g, f, banned, lookForAir);
    if count < batchSize && s.unexplored != [] {
      var s1 := Step(g, f, lookForAir, s);
      var p := s.unexplored[0];
      StepSpec(g, f, lookForAir, s);
      BatchGain(g, f, banned, lookForAir, s1, count + 1, batchSize);
      BatchInvariant(g, f, lookForAir, s1, count + 1, batchSize);
      var r := Batch(g, f, lookForAir, s1, count + 1, batchSize);
      assert Explored(s, r) - {p} == Explored(s1, r);
      SumRemove(Explored(s, r), w, p);
    } else {
      assert Explored(s, s) == {};
    }
  }

  /** How a request's search ends: success, the state left behind, and the total found. */
  datatype Outcome = Outcome(ok: bool, after: Frontier, found: int)

  /**
   * While `found` is below `amount`, explore a batch; an empty batch ends in
   * failure, otherwise every batch position's contribution is added.
   */
  ghost function Search(g: Cells, f: FluidKind, banned: set<Pos>, lookForAir: bool,
                        s: Frontier, found: int, amount: int): Outcome
    requires Inv(s)
    decreases Measure(g, s)
  {
    if amount <= found then Outcome(true, s, found)
    else
      var s' := Batch(g, f, lookForAir, s, FirstCount, RequestBatch);
      var batch := Explored(s, s');
      if batch == {} then Outcome(false, s', found)
      else
        BatchInvariant(g, f, lookForAir, s, FirstCount, RequestBatch);
        BatchMeasure(g, f, lookForAir, s, FirstCount, RequestBatch);
        Search(g, f, banned, lookForAir, s', NextFound(g, f, banned, lookForAir, s, found), amount)
  }

  /** The found total after one more round. */
  function NextFound(g: Cells, f: FluidKind, banned: set<Pos>, lookForAir: bool, s: Frontier, found: int): int {
    found + Gain(g, f, banned, lookForAir, s, FirstCount, RequestBatch)
  }

  /**
   * What a search promises: it keeps the queue/visited invariant and only adds
   * to the explored set; it succeeds exactly when the total found reaches the
   * amount; it fails only with the queue exhausted; and it explores nothing
   * when the amount is already reached.
   */
  ghost predicate SearchPost(s: Frontier, found: int, amount: int, r: Outcome) {
    && Inv(r.after)
    && s.explored <= r.after.explored
    && (r.ok <==> amount <= r.found)
    && (!r.ok ==> r.after.unexplored == [])
    && (amount <= found ==> r.ok && r.after == s && r.found == found)
  }

  lemma {:induction false} SearchSpec(g: Cells, f: FluidKind, banned: set<Pos>, lookForAir: bool,
                                      s: Frontier, found: int, amount: int)
    requires Inv(s)
    ensures SearchPost(s, found, amount, Search(g, f, banned, lookForAir, s, found, amount))
    decreases Measure(g, s)
  {
    if found < amount {
      var s' := Batch(g, f, lookForAir, s, FirstCount, RequestBatch);
      BatchInvariant(g, f, lookForAir, s, FirstCount, RequestBatch);
      BatchMeasure(g, f, lookForAir, s, FirstCount, RequestBatch);
      BatchSize(g, f, lookForAir, s, FirstCount, RequestBatch);
      if Explored(s, s') != {} {
        SearchSpec(g, f, banned, lookForAir, s', NextFound(g, f, banned, lookForAir, s, found), amount);
      }
    }
  }

  /**
   * The total a search ends with is the starting total plus the
   * contributions of every position it explored.
   */
  lemma {:induction false} SearchTotal(g: Cells, f: FluidKind, banned: set<Pos>, lookForAir: bool,
                                       s: Frontier, found: int, amount: int)
    requires Inv(s)
    ensures var r := Search(g, f, banned, lookForAir, s, found, amount);
      r.found == found + Sum(Explored(s, r.after), Contribution(g, f, banned, lookForAir))
    decreases Measure(g, s)
  {
    var w := Contribution(g, f, banned, lookForAir);
    var r := Search(g, f, banned, lookForAir, s, found, amount);
    SearchSpec(g, f, banned, lookForAir, s, found, amount);
    if found < amount {
      var s' := Batch(g, f, lookForAir, s, FirstCount, RequestBatch);
      BatchInvariant(g, f, lookForAir, s, FirstCount, RequestBatch);
      BatchMeasure(g, f, lookForAir, s, FirstCount, RequestBatch);
      if Explored(s, s') != {} {
        var found' := NextFound(g, f, banned, lookForAir, s, found);
        SearchTotal(g, f, banned, lookForAir, s', found', amount);
        SearchSpec(g, f, banned, lookForAir, s', found', amount);
        BatchGain(g, f, banned, lookForAir, s, FirstCount, RequestBatch);
        SearchStepSum(s, s', r.after, w);
      } else {
        assert Explored(s, r.after) == {};
      }
    } else {
      assert Explored(s, r.after) == {};
    }
  }

  /**
   * One round of a search that has not reached its amount, from `s` to the
   * batch's state `s'`, with `found'` the total after adding the batch's
   * contributions: an empty batch ends the search in failure, otherwise it
   * goes on from `s'` and `found'`.
   */
  lemma SearchRound(g: Cells, f: FluidKind, banned: set<Pos>, lookForAir: bool,
                    s: Frontier, found: int, amount: int, s': Frontier, found': int)
    requires Inv(s) && found < amount
    requires s' == Batch(g, f, lookForAir, s, FirstCount, RequestBatch)
    requires found' == found + Sum(Explored(s, s'), Contribution(g, f, banned, lookForAir))
    ensures Inv(s') && s.explored <= s'.explored
    ensures Explored(s, s') == {} ==> Search(g, f, banned, lookForAir, s, found, amount) == Outcome(false, s', found)
    ensures Explored(s, s') != {} ==>
      && Measure(g, s') < Measure(g, s)
      && Search(g, f, banned, lookForAir, s, found, amount) == Search(g, f, banned, lookForAir, s', found', amount)
  {
    BatchGain(g, f, banned, lookForAir, s, FirstCount, RequestBatch);
    SearchNext(g, f, banned, lookForAir, s, found, amount, found');
  }

  /** SearchRound, with the new total given as what the search itself adds. */
  lemma SearchNext(g: Cells, f: FluidKind, banned: set<Pos>, lookForAir: bool,
                   s: Frontier, found: int, amount: int, found': int)
    requires Inv(s) && found < amount
    requires found' == NextFound(g, f, banned, lookForAir, s, found)
    ensures var s' := Batch(g, f, lookForAir, s, FirstCount, RequestBatch);
      && Inv(s') && s.explored <= s'.explored
      && (Explored(s, s') == {} ==> Search(g, f, banned, lookForAir, s, found, amount) == Outcome(false, s', found))
      && (Explored(s, s') != {} ==>
            && Measure(g, s') < Measure(g, s)
            && Search(g, f, banned, lookForAir, s, found, amount) == Search(g, f, banned, lookForAir, s', found', amount))
  {
    BatchInvariant(g, f, lookForAir, s, FirstCount, RequestBatch);
    BatchMeasure(g, f, lookForAir, s, FirstCount, RequestBatch);
  }

  /**
   * What a request's search from a zero total promises: the search
   * postcondition, success exactly when the qualifying explored positions
   * contribute at least the amount, and closure kept.
   */
  lemma SearchResult(g: Cells, f: FluidKind, banned: set<Pos>, lookForAir: bool, s: Frontier, amount: int)
    requires Inv(s)
    ensures var r := Search(g, f, banned, lookForAir, s, 0, amount);
      && SearchPost(s, 0, amount, r)
      && (r.ok <==> amount <= Sum(Picked(g, f, banned, lookForAir, Explored(s, r.after)), Contribution(g, f, banned, lookForAir)))
      && (Closed(g, f, false, s) ==> Closed(g, f, false, r.after))
      && (amount <= 0 ==> Picked(g, f, banned, lookForAir, Explored(s, r.after)) == {})
  {
    var r := Search(g, f, banned, lookForAir, s, 0, amount);
    SearchSpec(g, f, banned, lookForAir, s, 0, amount);
    SearchTotal(g, f, banned, lookForAir, s, 0, amount);
    SumPicked(g, f, banned, lookForAir, Explored(s, r.after));
    if Closed(g, f, false, s) {
      SearchClosed(g, f, banned, lookForAir, s, 0, amount);
    }
    if amount <= 0 {
      assert Explored(s, r.after) == {};
    }
  }

  /** The explored positions of two stretches of a search add up. */
  lemma SearchStepSum(s: Frontier, s': Frontier, s'': Frontier, w: Weight)
    requires s.explored <= s'.explored <= s''.explored
    ensures Sum(Explored(s, s''), w) == Sum(Explored(s, s'), w) + Sum(Explored(s', s''), w)
  {
    assert Explored(s, s'') == Explored(s, s') + Explored(s', s'');
    SumUnion(Explored(s, s'), Explored(s', s''), w);
  }

  /**
   * A search, in either mode, keeps the explored region closed under
   * same-fluid neighbours.
   */
  lemma {:induction false} SearchClosed(g: Cells, f: FluidKind, banned: set<Pos>, lookForAir: bool,
                                        s: Frontier, found: int, amount: int)
    requires Inv(s) && Closed(g, f, false, s)
    ensures Closed(g, f, false, Search(g, f, banned, lookForAir, s, found, amount).after)
    decreases Measure(g, s)
  {
    if found < amount {
      var s' := Batch(g, f, lookForAir, s, FirstCount, RequestBatch);
      BatchInvariant(g, f, lookForAir, s, FirstCount, RequestBatch);
      BatchMeasure(g, f, lookForAir, s, FirstCount, RequestBatch);
      BatchClosed(g, f, lookForAir, false, s, FirstCount, RequestBatch);
      if Explored(s, s') != {} {
        SearchClosed(g, f, banned, lookForAir, s', NextFound(g, f, banned, lookForAir, s, found), amount);
      }
    }
  }

  /**
   * A failed request for fluid has explored every cell of the pool's fluid
   * connected to what it explored, and the unbanned fluid it found there
   * falls short of the amount.
   */
  lemma FluidSearchFailure(g: Cells, f: FluidKind, banned: set<Pos>, s: Frontier, amount: int, path: seq<Pos>)
    requires Inv(s) && Closed(g, f, false, s)
    requires !Search(g, f, banned, false, s, 0, amount).ok
    requires |path| > 0 && path[0] in Search(g, f, banned, false, s, 0, amount).after.explored
    requires forall i :: 0 < i < |path| ==> Adjacent(path[i - 1], path[i]) && IsSame(CellAt(g, path[i]), f)
    ensures var r := Search(g, f, banned, false, s, 0, amount);
      && path[|path| - 1] in r.after.explored
      && Sum(Explored(s, r.after), Contribution(g, f, banned, false)) < amount
  {
    var r := Search(g, f, banned, false, s, 0, amount);
    SearchSpec(g, f, banned, false, s, 0, amount);
    SearchTotal(g, f, banned, false, s, 0, amount);
    SearchClosed(g, f, banned, false, s, 0, amount);
    ExhaustedReach(g, f, false, r.after, path);
  }

  // ---------------------------------------------------------------------
  // Commit passes

  /** The cells outside `kept` are untouched and the grid has the same positions. */
  ghost predicate OnlyChanged(g0: Cells, g1: Cells, kept: set<Pos>) {
    g1.Keys == g0.Keys && forall p :: p in g0 && p !in kept ==> g1[p] == g0[p]
  }

  /**
   * A cell after the remove commit pass took from it: the same block, holding
   * between 0 and what it held, and still the fluid `f` if it holds anything.
   */
  predicate Lowered(c0: Cell, c1: Cell, f: FluidKind) {
    && c1.block == c0.block
    && 0 <= FluidAmount(c1) <= FluidAmount(c0)
    && (FluidAmount(c1) > 0 ==> IsSame(c1, f))
  }

  /**
   * A cell after the add commit pass put into it: holding between what it
   * held and a full cell, the same block except that air became a fluid
   * block, and holding the fluid `f` if it gained anything.
   */
  predicate Raised(c0: Cell, c1: Cell, f: FluidKind) {
    && FluidAmount(c0) <= FluidAmount(c1) <= Capacity
    && (c1.block == c0.block || (c0.block == Air && c1.block == Liquid))
    && (FluidAmount(c0) < FluidAmount(c1) ==> IsSame(c1, f))
  }

  /**
   * `g1` is `g0` with only cells of `kept` changed, each lowered in fluid
   * `f`, and every cell still well formed.
   */
  ghost predicate Drained(g0: Cells, g1: Cells, kept: set<Pos>, f: FluidKind) {
    && WellFormedCells(g1)
    && OnlyChanged(g0, g1, kept)
    && (forall p :: p in kept ==> p in g0 && Lowered(g0[p], g1[p], f))
  }

  /**
   * `g1` is `g0` with only cells of `kept` changed, each raised in fluid
   * `f`, and every cell still well formed.
   */
  ghost predicate Filled(g0: Cells, g1: Cells, kept: set<Pos>, f: FluidKind) {
    && WellFormedCells(g1)
    && OnlyChanged(g0, g1, kept)
    && (forall p :: p in kept ==> p in g0 && Raised(g0[p], g1[p], f))
  }

  /** `g1` is `g0` with `taken` units of `f` taken from the cells of `kept`. */
  ghost predicate Removal(g0: Cells, g1: Cells, kept: set<Pos>, f: FluidKind, taken: int) {
    Drained(g0, g1, kept, f) && Total(g1) == Total(g0) - taken
  }

  /** `g1` is `g0` with `added` units of `f` put into the cells of `kept`. */
  ghost predicate Addition(g0: Cells, g1: Cells, kept: set<Pos>, f: FluidKind, added: int) {
    Filled(g0, g1, kept, f) && Total(g1) == Total(g0) + added
  }

  /** Lowering one more cell, not lowered before. */
  lemma DrainedStep(g0: Cells, g: Cells, done: set<Pos>, f: FluidKind, p: Pos, c: Cell)
    requires p in g0 && p !in done && WellFormed(c)
    requires Drained(g0, g, done, f)
    requires Lowered(g[p], c, f)
    ensures Drained(g0, g[p := c], done + {p}, f)
  {
    CommitCell(g0, g, done, p, c);
    var g' := g[p := c];
    forall q | q in g'
      ensures WellFormed(g'[q])
    {
      if q != p { assert g'[q] == g[q]; }
    }
    forall q | q in done + {p}
      ensures q in g0 && Lowered(g0[q], g'[q], f)
    {
      if q != p { assert g'[q] == g[q]; }
    }
  }

  /** Raising one more cell, not raised before. */
  lemma FilledStep(g0: Cells, g: Cells, done: set<Pos>, f: FluidKind, p: Pos, c: Cell)
    requires p in g0 && p !in done && WellFormed(c)
    requires Filled(g0, g, done, f)
    requires Raised(g[p], c, f)
    ensures Filled(g0, g[p := c], done + {p}, f)
  {
    CommitCell(g0, g, done, p, c);
    var g' := g[p := c];
    forall q | q in g'
      ensures WellFormed(g'[q])
    {
      if q != p { assert g'[q] == g[q]; }
    }
    forall q | q in done + {p}
      ensures q in g0 && Raised(g0[q], g'[q], f)
    {
      if q != p { assert g'[q] == g[q]; }
    }
  }

  /**
   * One step of the remove commit pass: cell `p`, not drained before, gives
   * up `t` of the fluid `f` it holds, and the total drops by exactly `t`.
   */
  lemma DrainStep(g0: Cells, g: Cells, done: set<Pos>, f: FluidKind, p: Pos, c: Cell, taken: int, t: int)
    requires p in g0 && p !in done && WellFormed(c)
    requires Removal(g0, g, done, f, taken)
    requires Lowered(g[p], c, f) && FluidAmount(c) == FluidAmount(g[p]) - t
    ensures Removal(g0, g[p := c], done + {p}, f, taken + t)
  {
    DrainedStep(g0, g, done, f, p, c);
    TotalUpdate(g, p, c);
  }

  /**
   * One step of the add commit pass: cell `p`, not filled before, takes `t`
   * more of the fluid `f`, up to a full cell, and the total rises by exactly `t`.
   */
  lemma FillStep(g0: Cells, g: Cells, done: set<Pos>, f: FluidKind, p: Pos, c: Cell, added: int, t: int)
    requires p in g0 && p !in done && WellFormed(c)
    requires Addition(g0, g, done, f, added)
    requires Raised(g[p], c, f) && FluidAmount(c) == FluidAmount(g[p]) + t
    ensures Addition(g0, g[p := c], done + {p}, f, added + t)
  {
    FilledStep(g0, g, done, f, p, c);
    TotalUpdate(g, p, c);
  }

  /** Writing cell `p`, not yet committed, extends the committed set by `p`. */
  lemma CommitCell(g0: Cells, g: Cells, done: set<Pos>, p: Pos, c: Cell)
    requires p in g0 && p !in done
    requires OnlyChanged(g0, g, done)
    ensures OnlyChanged(g0, g[p := c], done + {p})
    ensures g[p] == g0[p]
    ensures forall q :: q in done && q in g ==> g[p := c][q] == g[q]
  {
  }

  /** What is left to move after cell `p` covers `share` of it, capped at what is left. */
  lemma RemainingAfter(done: set<Pos>, p: Pos, w: Weight, share: int, amount: int, remaining: int)
    requires p !in done && share >= 0 && WeightAt(w, p) == share
    requires remaining == Max0(amount - Sum(done, w))
    ensures remaining - Min(share, remaining) == Max0(amount - Sum(done + {p}, w))
  {
    SumAdd(done, w, p);
  }

  /** A commit that changes only explored cells keeps the explored region closed. */
  lemma ClosedAfterCommit(g0: Cells, g1: Cells, kept: set<Pos>, f: FluidKind, lookForAir: bool, s: Frontier)
    requires Closed(g0, f, lookForAir, s)
    requires OnlyChanged(g0, g1, kept) && kept <= s.explored
    ensures Closed(g1, f, lookForAir, s)
  {
    forall p, q | p in s.explored && Adjacent(p, q) && Eligible(g1, f, lookForAir, q)
      ensures q in s.explored || q in s.unexplored
    {
      if q !in kept {
        assert CellAt(g1, q) == CellAt(g0, q);
      }
    }
  }
}
