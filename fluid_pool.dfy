/**
 * A connected region of one fluid in the world, treated as one pool. The pool
 * explores the region lazily, a batch at a time, and keeps its exploration
 * state (the explored set and the queue of positions still to explore) from
 * one request to the next; it also keeps the positions its caller banned.
 */
module Pool {
  import opened Grid
  import opened Exploration
  import opened Accounting

  class FluidPool {
    const level: World
    const fluid: FluidKind
    var explored: set<Pos>
    var unexplored: seq<Pos>
    var banned: set<Pos>

    /** The queue holds no explored position and no position twice. */
    ghost predicate Valid()
      reads this
    {
      Inv(State())
    }

    function State(): Frontier
      reads this
    {
      Frontier(explored, unexplored)
    }

    /** A pool seeded at `pos`; the seed is queued without looking at its cell. */
    constructor (level: World, pos: Pos, fluid: FluidKind)
      ensures this.level == level && this.fluid == fluid
      ensures explored == {} && unexplored == [pos] && banned == {}
      ensures Valid()
      ensures forall look :: Closed(level.cells, fluid, look, State())
    {
      this.level := level;
      this.unexplored := [pos];
      this.fluid := fluid;
      this.explored := {};
      this.banned := {};
    }

    /** Ban a position from being counted or changed; banning twice is banning once. */
    method SetBanned(pos: Pos)
      modifies this`banned
      ensures banned == old(banned) + {pos}
      ensures pos in old(banned) ==> banned == old(banned)
    {
      banned := banned + {pos};
    }

    /**
     * Explore one batch: while the counter (starting at 3) is below
     * `batchSize`, poll the queue, mark the position explored and enqueue
     * its new eligible neighbours. Returns the positions explored.
     */
    method ExploreBatch(lookForAir: bool, batchSize: int) returns (exploredBatch: set<Pos>)
      requires Valid()
      modifies this`explored, this`unexplored
      ensures Valid()
      ensures State() == Batch(level.cells, fluid, lookForAir, old(State()), FirstCount, batchSize)
      ensures old(explored) <= explored
      ensures exploredBatch == Explored(old(State()), State())
    {
      exploredBatch := {};
      var count := FirstCount;
      while count < batchSize && unexplored != []
        invariant Valid()
        invariant old(explored) <= explored
        invariant exploredBatch == explored - old(explored)
        invariant Batch(level.cells, fluid, lookForAir, State(), count, batchSize) ==
                  Batch(level.cells, fluid, lookForAir, old(State()), FirstCount, batchSize)
        decreases batchSize - count
      {
        ghost var s0 := State();
        var pos := unexplored[0];
        unexplored := unexplored[1..];
        explored := explored + {pos};
        exploredBatch := exploredBatch + {pos};

        EnqueueNeighbours(lookForAir, pos);
        StepSpec(level.cells, fluid, lookForAir, s0);
        count := count + 1;
      }
    }

    /**
     * The neighbour loop of one exploration step: append to the queue each
     * neighbour of `pos`, in direction order, that is neither explored nor
     * queued and is eligible.
     */
    method EnqueueNeighbours(lookForAir: bool, pos: Pos)
      modifies this`unexplored
      ensures State() == Enqueue(level.cells, fluid, lookForAir, old(State()), Neighbours(pos))
    {
      var directions := Neighbours(pos);
      var i := 0;
      while i < |directions|
        invariant 0 <= i <= |directions|
        invariant explored == old(explored)
        invariant Enqueue(level.cells, fluid, lookForAir, State(), directions[i..]) ==
                  Enqueue(level.cells, fluid, lookForAir, old(State()), directions)
      {
        var pos1 := directions[i];
        assert directions[i..][1..] == directions[i + 1..];
        i := i + 1;
        if pos1 in explored || pos1 in unexplored {
          continue;
        }
        var c := CellAt(level.cells, pos1);
        var checkForAir := !lookForAir || !(IsAir(c) || CanBeFluidlogged(c));
        if checkForAir && !IsSame(c, fluid) {
          continue;
        }
        unexplored := unexplored + [pos1];
      }
    }

    /**
     * The accumulate loop shared by the four requests: while the running total
     * is below `amount`, explore a batch (fail when it is empty) and add every
     * unbanned batch position's contribution, remembering the positions that
     * contributed (cells of the pool's fluid and, looking for space, air and
     * empty loggable blocks). Reads the world; changes only the exploration state.
     */
    method Gather(lookForAir: bool, amount: int) returns (ok: bool, kept: set<Pos>)
      requires Valid()
      modifies this`explored, this`unexplored
      ensures Valid()
      ensures var r := Search(level.cells, fluid, banned, lookForAir, old(State()), 0, amount);
        ok == r.ok && State() == r.after
      ensures old(explored) <= explored
      ensures kept == Picked(level.cells, fluid, banned, lookForAir, Explored(old(State()), State()))
    {
      ghost var start := State();
      ghost var target := Search(level.cells, fluid, banned, lookForAir, start, 0, amount);
      kept := {};
      var found := 0;
      ok := true;
      while found < amount
        invariant Valid() && start.explored <= explored
        invariant kept == Picked(level.cells, fluid, banned, lookForAir, Explored(start, State()))
        invariant Search(level.cells, fluid, banned, lookForAir, State(), found, amount) == target
        decreases Measure(level.cells, State())
      {
        var nonempty;
        nonempty, found, kept := GatherRound(lookForAir, amount, found, kept, start);
        if !nonempty {
          ok := false;
          break;
        }
      }
    }

    /**
     * One round of the accumulate loop: explore a batch and, when it is not
     * empty, add its contributions to the running total and its contributing
     * positions to `kept`. Reports whether the batch was empty.
     */
    method GatherRound(lookForAir: bool, amount: int, found: int, kept: set<Pos>, ghost start: Frontier)
      returns (nonempty: bool, found': int, kept': set<Pos>)
      requires Valid() && found < amount && start.explored <= explored
      requires kept == Picked(level.cells, fluid, banned, lookForAir, Explored(start, State()))
      modifies this`explored, this`unexplored
      ensures Valid() && start.explored <= explored
      ensures kept' == Picked(level.cells, fluid, banned, lookForAir, Explored(start, State()))
      ensures !nonempty ==>
        Search(level.cells, fluid, banned, lookForAir, old(State()), found, amount) == Outcome(false, State(), found)
      ensures nonempty ==>
        && Measure(level.cells, State()) < Measure(level.cells, old(State()))
        && Search(level.cells, fluid, banned, lookForAir, old(State()), found, amount) ==
           Search(level.cells, fluid, banned, lookForAir, State(), found', amount)
    {
      ghost var before := State();
      var batch := ExploreBatch(lookForAir, RequestBatch);
      PickedStep(level.cells, fluid, banned, lookForAir, start, before, State());
      if batch == {} {
        SearchRound(level.cells, fluid, banned, lookForAir, before, found, amount, State(), found);
        return false, found, kept;
      }
      var qualifying;
      found', qualifying := Tally(lookForAir, batch, found);
      SearchRound(level.cells, fluid, banned, lookForAir, before, found, amount, State(), found');
      nonempty := true;
      kept' := kept + qualifying;
    }

    /**
     * The inner loop over one batch: the running total plus the batch's
     * contributions, and the positions in it that contribute. Changes nothing.
     */
    method Tally(lookForAir: bool, batch: set<Pos>, found: int) returns (found': int, qualifying: set<Pos>)
      ensures found' == found + Sum(batch, Contribution(level.cells, fluid, banned, lookForAir))
      ensures qualifying == Picked(level.cells, fluid, banned, lookForAir, batch)
    {
      found' := found;
      qualifying := {};
      var rest := batch;
      ghost var done: set<Pos> := {};
      while rest != {}
        invariant rest !! done && rest + done == batch
        invariant found' == found + Sum(done, Contribution(level.cells, fluid, banned, lookForAir))
        invariant qualifying == Picked(level.cells, fluid, banned, lookForAir, done)
        decreases rest
      {
        var pos :| pos in rest;
        TallyStep(level.cells, fluid, banned, lookForAir, done, pos);
        var contribution, qualifies := Contribute(lookForAir, pos);
        if qualifies {
          qualifying := qualifying + {pos};
        }
        found' := found' + contribution;
        rest := rest - {pos};
        done := done + {pos};
      }
    }

    /**
     * The body of the inner loop for one batch position: banned positions are
     * skipped; looking for space, air and empty loggable blocks count a full
     * cell; a cell of the pool's fluid counts its amount (what it lacks of a
     * full cell, looking for space); anything else is skipped.
     */
    method Contribute(lookForAir: bool, pos: Pos) returns (contribution: int, qualifies: bool)
      ensures contribution == WeightAt(Contribution(level.cells, fluid, banned, lookForAir), pos)
      ensures qualifies == Qualifies(level.cells, fluid, banned, lookForAir, pos)
      ensures !qualifies ==> contribution == 0
    {
      if pos in banned {
        return 0, false;
      }
      var c := CellAt(level.cells, pos);
      if lookForAir && (IsAir(c) || CanBeFluidlogged(c)) {
        return Capacity, true;
      }
      if !IsSame(c, fluid) {
        return 0, false;
      }
      return if lookForAir then Capacity - FluidAmount(c) else FluidAmount(c), true;
    }

    /**
     * Is there at least `amount` of the pool's fluid among the unbanned cells
     * it explores? Changes only the exploration state.
     */
    method CheckForFluid(amount: int) returns (ok: bool)
      requires Valid()
      modifies this`explored, this`unexplored
      ensures Valid()
      ensures var r := Search(level.cells, fluid, banned, false, old(State()), 0, amount);
        ok == r.ok && State() == r.after
      ensures ok <==> amount <= Sum(Explored(old(State()), State()), Contribution(level.cells, fluid, banned, false))
      ensures !ok ==> unexplored == []
      ensures Closed(level.cells, fluid, false, old(State())) ==> Closed(level.cells, fluid, false, State())
    {
      var kept;
      ok, kept := Gather(false, amount);
      SearchResult(level.cells, fluid, banned, false, old(State()), amount);
      SumPicked(level.cells, fluid, banned, false, Explored(old(State()), State()));
    }

    /**
     * Is there room for at least `amount` units among the unbanned cells it
     * explores (a full cell per air or empty loggable block, what a cell of
     * the pool's fluid lacks of a full cell)? Changes only the exploration state.
     */
    method CheckForSpace(amount: int) returns (ok: bool)
      requires Valid()
      modifies this`explored, this`unexplored
      ensures Valid()
      ensures var r := Search(level.cells, fluid, banned, true, old(State()), 0, amount);
        ok == r.ok && State() == r.after
      ensures ok <==> amount <= Sum(Explored(old(State()), State()), Contribution(level.cells, fluid, banned, true))
      ensures !ok ==> unexplored == []
      ensures Closed(level.cells, fluid, false, old(State())) ==> Closed(level.cells, fluid, false, State())
    {
      var kept;
      ok, kept := Gather(true, amount);
      SearchResult(level.cells, fluid, banned, true, old(State()), amount);
      SumPicked(level.cells, fluid, banned, true, Explored(old(State()), State()));
    }

    /**
     * Take `amount` units of the pool's fluid out of the world. On success the
     * units come out of the unbanned cells of the pool's fluid the search
     * explored, each cell giving up at most what it holds; on failure the
     * world is untouched.
     */
    method RemoveFluid(amount: int) returns (ok: bool)
      requires Valid() && level.Valid()
      modifies this`explored, this`unexplored, level
      ensures Valid() && level.Valid()
      ensures var r := Search(old(level.cells), fluid, banned, false, old(State()), 0, amount);
        ok == r.ok && State() == r.after
      ensures !ok ==> level.cells == old(level.cells)
      ensures ok ==> Removal(old(level.cells), level.cells,
                             Picked(old(level.cells), fluid, banned, false, Explored(old(State()), State())), fluid, Max0(amount))
      ensures forall p :: p in banned && p in old(level.cells) ==> p in level.cells && level.cells[p] == old(level.cells)[p]
      ensures Closed(old(level.cells), fluid, false, old(State())) ==> Closed(level.cells, fluid, false, State())
    {
      ghost var g0 := level.cells;
      var kept;
      ok, kept := Gather(false, amount);
      SearchResult(g0, fluid, banned, false, old(State()), amount);
      if !ok {
        return;
      }
      ContributionOfPicked(g0, fluid, banned, false, Explored(old(State()), State()));
      Drain(kept, amount);
      if Closed(g0, fluid, false, old(State())) {
        ClosedAfterCommit(g0, level.cells, kept, fluid, false, State());
      }
    }

    /**
     * The commit pass of RemoveFluid: from each kept cell, in any order, take
     * the lesser of what it holds and what is still to be taken.
     */
    method Drain(kept: set<Pos>, amount: int)
      requires level.Valid()
      requires forall p :: p in kept ==> p in level.cells && IsSame(level.cells[p], fluid)
      requires kept == {} || 0 < amount
      requires amount <= Sum(kept, Held(level.cells))
      modifies level
      ensures level.Valid()
      ensures Removal(old(level.cells), level.cells, kept, fluid, Max0(amount))
    {
      ghost var g0 := level.cells;
      var remaining := amount;
      var rest := kept;
      ghost var done: set<Pos> := {};
      ghost var taken := 0;
      while rest != {}
        invariant rest !! done && rest + done == kept
        invariant level.Valid() && Removal(g0, level.cells, done, fluid, taken)
        invariant remaining == (if kept == {} then amount else Max0(amount - Sum(done, Held(g0))))
        invariant taken == amount - remaining
        decreases rest
      {
        rest, remaining, done, taken := DrainOne(g0, kept, amount, rest, remaining, done, taken);
      }
    }

    /**
     * One iteration of the commit loop: pick any position still to visit and
     * commit its transfer; the loop invariant is kept.
     */
    method DrainOne(ghost g0: Cells, ghost kept: set<Pos>, ghost amount: int, rest: set<Pos>, remaining: int,
                   ghost done: set<Pos>, ghost taken: int)
      returns (rest': set<Pos>, remaining': int, ghost done': set<Pos>, ghost taken': int)
      requires rest != {}
      requires forall p :: p in kept ==> p in g0 && IsSame(g0[p], fluid)
      requires rest !! done && rest + done == kept
      requires level.Valid() && Removal(g0, level.cells, done, fluid, taken)
      requires remaining == (if kept == {} then amount else Max0(amount - Sum(done, Held(g0))))
      requires taken == amount - remaining
      modifies level
      ensures rest' < rest
      ensures rest' !! done' && rest' + done' == kept
      ensures level.Valid() && Removal(g0, level.cells, done', fluid, taken')
      ensures remaining' == (if kept == {} then amount else Max0(amount - Sum(done', Held(g0))))
      ensures taken' == amount - remaining'
    {
      var pos :| pos in rest;
      ghost var next := done + {pos};
      var transfer := DrainCell(pos, remaining, g0, done, next, taken, amount);
      remaining' := remaining - transfer;
      taken' := taken + transfer;
      rest' := rest - {pos};
      done' := next;
    }

    /**
     * The transfer of one iteration of the remove commit pass: take from the cell at `pos` the
     * lesser of what it holds and what is still to be taken (`remaining`).
     */
    method DrainCell(pos: Pos, remaining: int, ghost g0: Cells, ghost done: set<Pos>, ghost next: set<Pos>,
                   ghost taken: int, ghost amount: int)
      returns (transfer: int)
      requires pos in g0 && pos !in done && next == done + {pos} && IsSame(g0[pos], fluid)
      requires level.Valid() && Removal(g0, level.cells, done, fluid, taken)
      requires remaining == Max0(amount - Sum(done, Held(g0)))
      modifies level
      ensures transfer == Min(FluidAmount(old(level.cells)[pos]), remaining)
      ensures level.cells == old(level.cells)[pos := Changed(old(level.cells)[pos], fluid, -transfer)]
      ensures level.Valid() && Removal(g0, level.cells, next, fluid, taken + transfer)
      ensures remaining - transfer == Max0(amount - Sum(next, Held(g0)))
    {
      var c := level.cells[pos];
      transfer := Min(FluidAmount(c), remaining);
      DrainStep(g0, level.cells, done, fluid, pos, Changed(c, fluid, -transfer), taken, transfer);
      RemainingAfter(done, pos, Held(g0), FluidAmount(g0[pos]), amount, remaining);
      level.ChangeFluid(pos, fluid, -transfer);
    }

    /**
     * Put `amount` units of the pool's fluid into the world. On success the
     * units go into the unbanned air, empty loggable and same-fluid cells the
     * search explored, none filled beyond a full cell; on failure the world
     * is untouched.
     */
    method AddFluid(amount: int) returns (ok: bool)
      requires Valid() && level.Valid()
      modifies this`explored, this`unexplored, level
      ensures Valid() && level.Valid()
      ensures var r := Search(old(level.cells), fluid, banned, true, old(State()), 0, amount);
        ok == r.ok && State() == r.after
      ensures !ok ==> level.cells == old(level.cells)
      ensures ok ==> Addition(old(level.cells), level.cells,
                              Picked(old(level.cells), fluid, banned, true, Explored(old(State()), State())), fluid, Max0(amount))
      ensures forall p :: p in banned && p in old(level.cells) ==> p in level.cells && level.cells[p] == old(level.cells)[p]
      ensures Closed(old(level.cells), fluid, false, old(State())) ==> Closed(level.cells, fluid, false, State())
    {
      ghost var g0 := level.cells;
      var kept;
      ok, kept := Gather(true, amount);
      SearchResult(g0, fluid, banned, true, old(State()), amount);
      if !ok {
        return;
      }
      ContributionOfPicked(g0, fluid, banned, true, Explored(old(State()), State()));
      Fill(kept, amount);
      if Closed(g0, fluid, false, old(State())) {
        ClosedAfterCommit(g0, level.cells, kept, fluid, false, State());
      }
    }

    /**
     * The commit pass of AddFluid: into each kept cell, in any order, put the
     * lesser of the room it has and what is still to be put.
     */
    method Fill(kept: set<Pos>, amount: int)
      requires level.Valid()
      requires forall p :: p in kept ==> p in level.cells && level.cells[p].block != Solid
      requires kept == {} || 0 < amount
      requires amount <= Sum(kept, Room(level.cells))
      modifies level
      ensures level.Valid()
      ensures Addition(old(level.cells), level.cells, kept, fluid, Max0(amount))
    {
      ghost var g0 := level.cells;
      var remaining := amount;
      var rest := kept;
      ghost var done: set<Pos> := {};
      ghost var added := 0;
      while rest != {}
        invariant rest !! done && rest + done == kept
        invariant level.Valid() && Addition(g0, level.cells, done, fluid, added)
        invariant remaining == (if kept == {} then amount else Max0(amount - Sum(done, Room(g0))))
        invariant added == amount - remaining
        decreases rest
      {
        rest, remaining, done, added := FillOne(g0, kept, amount, rest, remaining, done, added);
      }
    }

    /**
     * One iteration of the commit loop: pick any position still to visit and
     * commit its transfer; the loop invariant is kept.
     */
    method FillOne(ghost g0: Cells, ghost kept: set<Pos>, ghost amount: int, rest: set<Pos>, remaining: int,
                   ghost done: set<Pos>, ghost added: int)
      returns (rest': set<Pos>, remaining': int, ghost done': set<Pos>, ghost added': int)
      requires rest != {}
      requires forall p :: p in kept ==> p in g0 && g0[p].block != Solid
      requires rest !! done && rest + done == kept
      requires level.Valid() && Addition(g0, level.cells, done, fluid, added)
      requires remaining == (if kept == {} then amount else Max0(amount - Sum(done, Room(g0))))
      requires added == amount - remaining
      modifies level
      ensures rest' < rest
      ensures rest' !! done' && rest' + done' == kept
      ensures level.Valid() && Addition(g0, level.cells, done', fluid, added')
      ensures remaining' == (if kept == {} then amount else Max0(amount - Sum(done', Room(g0))))
      ensures added' == amount - remaining'
    {
      var pos :| pos in rest;
      ghost var next := done + {pos};
      var transfer := FillCell(pos, remaining, g0, done, next, added, amount);
      remaining' := remaining - transfer;
      added' := added + transfer;
      rest' := rest - {pos};
      done' := next;
    }

    /**
     * The transfer of one iteration of the add commit pass: put into the cell at `pos` the
     * lesser of the room it has and what is still to be put (`remaining`).
     */
    method FillCell(pos: Pos, remaining: int, ghost g0: Cells, ghost done: set<Pos>, ghost next: set<Pos>,
                   ghost added: int, ghost amount: int)
      returns (transfer: int)
      requires pos in g0 && pos !in done && next == done + {pos} && g0[pos].block != Solid
      requires level.Valid() && Addition(g0, level.cells, done, fluid, added)
      requires remaining == Max0(amount - Sum(done, Room(g0)))
      modifies level
      ensures transfer == Min(Capacity - FluidAmount(old(level.cells)[pos]), remaining)
      ensures level.cells == old(level.cells)[pos := Changed(old(level.cells)[pos], fluid, transfer)]
      ensures level.Valid() && Addition(g0, level.cells, next, fluid, added + transfer)
      ensures remaining - transfer == Max0(amount - Sum(next, Room(g0)))
    {
      var c := level.cells[pos];
      transfer := Min(Capacity - FluidAmount(c), remaining);
      FillStep(g0, level.cells, done, fluid, pos, Changed(c, fluid, transfer), added, transfer);
      RemainingAfter(done, pos, Room(g0), Capacity - FluidAmount(g0[pos]), amount, remaining);
      level.ChangeFluid(pos, fluid, transfer);
    }
  }
}
