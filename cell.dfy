/** The cell of js/cell.js: a two-field state machine (living, lifespan). */
module Cells {

  /** The value held by a cell at one moment. */
  datatype CellState = CellState(living: bool, lifespan: nat)

  /** The state of a freshly constructed cell. */
  function Fresh(alive: bool): CellState
  {
    CellState(alive, 0)
  }

  /** What `spawn` does to a state: alive again, lifespan restarted. */
  function Spawned(s: CellState): CellState
  {
    CellState(true, 0)
  }

  /** What `kill` does to a state: dead, lifespan kept. */
  function Killed(s: CellState): CellState
  {
    s.(living := false)
  }

  /** What `incrementLifespan` does to a state, whether or not the cell lives. */
  function Incremented(s: CellState): CellState
  {
    s.(lifespan := s.lifespan + 1)
  }

  /** What `toggleLiving` does to a state. */
  function Toggled(s: CellState): CellState
  {
    s.(living := !s.living)
  }

  /** Spawning gives the same state whatever the cell was before. */
  lemma SpawnForgetsHistory(s: CellState, t: CellState)
    ensures Spawned(s) == Spawned(t) == Fresh(true)
  {
  }

  /** Killing twice is killing once, and only the living flag changes. */
  lemma KillIdempotent(s: CellState)
    ensures Killed(Killed(s)) == Killed(s)
    ensures !Killed(s).living && Killed(s).lifespan == s.lifespan
  {
  }

  /** Toggling twice restores the original state; the lifespan is never touched. */
  lemma ToggleInvolution(s: CellState)
    ensures Toggled(Toggled(s)) == s
    ensures Toggled(s).living != s.living && Toggled(s).lifespan == s.lifespan
  {
  }

  /** Every transition except spawning leaves the lifespan at least where it was;
      spawning is the only one that lowers it, and only to 0. */
  lemma LifespanOnlyResetBySpawn(s: CellState)
    ensures Killed(s).lifespan == s.lifespan
    ensures Toggled(s).lifespan == s.lifespan
    ensures Incremented(s).lifespan == s.lifespan + 1 && Incremented(s).living == s.living
    ensures Spawned(s).lifespan == 0
  {
  }

  /** A cell object, updated in place by its methods. */
  class Cell {
    var living: bool
    var lifespan: nat

    /** The cell's current state as a value. */
    function Value(): CellState
      reads this
    {
      CellState(living, lifespan)
    }

    /** `new Cell(alive)`; a missing or falsy argument is `false`. */
    constructor (alive: bool := false)
      ensures Value() == Fresh(alive)
    {
      living := alive;
      lifespan := 0;
    }

    /** isAlive: the living flag, read without change. */
    function IsAlive(): (alive: bool)
      reads this
      ensures alive == Value().living
    {
      living
    }

    /** getLifespan: the lifespan, read without change. */
    function GetLifespan(): (n: nat)
      reads this
      ensures n == Value().lifespan
    {
      lifespan
    }

    method IncrementLifespan() returns (n: nat)
      modifies this
      ensures Value() == Incremented(old(Value()))
      ensures n == lifespan == old(lifespan) + 1
    {
      lifespan := lifespan + 1;
      n := lifespan;
    }

    method ToggleLiving() returns (alive: bool)
      modifies this
      ensures Value() == Toggled(old(Value()))
      ensures alive == living == !old(living)
    {
      living := !living;
      alive := living;
    }

    method Kill() returns (alive: bool)
      modifies this
      ensures Value() == Killed(old(Value()))
      ensures !alive && !living && lifespan == old(lifespan)
    {
      living := false;
      alive := living;
    }

    method Spawn() returns (alive: bool)
      modifies this
      ensures Value() == Spawned(old(Value()))
      ensures alive && living && lifespan == 0
    {
      lifespan := 0;
      living := true;
      alive := living;
    }
  }
}
