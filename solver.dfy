/** The Java best-first search (src/Solver.java): a queue of boards ordered by
    Board.getPriority, expanded from the initial board until a goal board is polled.
    The queue is a sequence whose poll takes some element of least priority. */
module Solvers {
  import opened Grids
  import opened Boards

  /** What every board the search handles keeps: a valid n-by-n board over the initial
      labels whose moves exceed its depth (the length of its previous chain) by shift. */
  ghost predicate Good(b: Board, n: nat, tiles: multiset<int>, shift: int)
    reads b, b.board, b.blank
  {
    b.Valid() && b.size == n && Tiles(b.Cells) == tiles && b.moves - b.depth == shift
  }

  /** A board neighbors() has just made from a board of depth depth - 1: valid, n-by-n,
      over the initial labels, with its moves not yet set. */
  ghost predicate Made(b: Board, n: nat, tiles: multiset<int>, depth: int)
    reads b`Cells, b`apple, b.board, b.blank
  {
    b.Valid() && b.size == n && Tiles(b.Cells) == tiles && b.depth == depth
  }

  class Solver {
    /** Java's PriorityQueue<Board>, as the sequence of queued boards. */
    var optionsQueue: seq<Board>
    var move: int
    /** The goal board the search returned, if it ran and stopped at one. */
    ghost var finished: Board?

    /** new Solver(initial): when the solvability test accepts the initial board, run
        the search and keep the moves of the goal board it returns; otherwise moves
        stays 0. The search is bounded by fuel rounds. */
    constructor (initial: Board, fuel: nat)
      requires initial.Valid()
      ensures Inversions(Flatten(CornerWalk(initial.Cells, initial.size, initial.blank.x, initial.blank.y))) % 2 != 0 ==>
        finished == null
      ensures finished == null ==> move == 0
      ensures finished != null ==> finished.Valid() && finished.Cells == GoalGrid(initial.size, initial.size)
      ensures finished != null ==> Tiles(finished.Cells) == Tiles(initial.Cells)
      ensures finished != null ==> move == finished.moves && move - finished.depth == initial.moves - initial.depth
    {
      optionsQueue := [];
      move := 0;
      finished := null;
      new;
      var solvable := initial.IsSolvableFixed();
      if solvable {
        var finishedBoard, polls := SolveHe(initial, fuel, initial.size, Tiles(initial.Cells), initial.moves - initial.depth);
        finished := finishedBoard;
        move := if finishedBoard != null then finishedBoard.Moves() else 0;
      }
    }

    /** Every queued board is good. */
    ghost predicate Searching(n: nat, tiles: multiset<int>, shift: int)
      reads this, optionsQueue, set b | b in optionsQueue :: b.board, set b | b in optionsQueue :: b.blank
    {
      forall b :: b in optionsQueue ==> Good(b, n, tiles, shift)
    }

    /** Solver.moves. */
    function Moves(): int
      reads this
    {
      move
    }

    /** PriorityQueue.offer of one neighbour, after setting its moves to one more
        than the current board's. */
    method Enqueue(currentBoard: Board, b: Board, ghost n: nat, ghost tiles: multiset<int>, ghost shift: int)
      requires Good(currentBoard, n, tiles, shift) && Searching(n, tiles, shift)
      requires Made(b, n, tiles, currentBoard.depth + 1)
      requires b !in optionsQueue && b != currentBoard
      modifies this`optionsQueue, b`moves
      ensures optionsQueue == old(optionsQueue) + [b]
      ensures b.moves == currentBoard.moves + 1 && Good(b, n, tiles, shift)
      ensures Searching(n, tiles, shift)
    {
      b.SetMoves(currentBoard.Moves() + 1);
      optionsQueue := optionsQueue + [b];
    }

    /** The loop of solveHe that offers every neighbour, in order. */
    method OfferAll(currentBoard: Board, ns: seq<Board>, ghost n: nat, ghost tiles: multiset<int>, ghost shift: int)
      requires Good(currentBoard, n, tiles, shift) && Searching(n, tiles, shift)
      requires forall j :: 0 <= j < |ns| ==> Made(ns[j], n, tiles, currentBoard.depth + 1)
      requires forall i, j :: 0 <= i < j < |ns| ==> ns[i] != ns[j]
      requires forall j :: 0 <= j < |ns| ==> ns[j] !in optionsQueue && ns[j] != currentBoard
      modifies this`optionsQueue, ns`moves
      ensures optionsQueue == old(optionsQueue) + ns
      ensures forall j :: 0 <= j < |ns| ==> ns[j].moves == currentBoard.moves + 1
      ensures Searching(n, tiles, shift)
    {
      ghost var queued := optionsQueue;
      for i := 0 to |ns|
        invariant optionsQueue == queued + ns[..i]
        invariant forall j :: 0 <= j < i ==> ns[j].moves == currentBoard.moves + 1
        invariant forall j :: i <= j < |ns| ==> Made(ns[j], n, tiles, currentBoard.depth + 1)
        invariant Good(currentBoard, n, tiles, shift) && Searching(n, tiles, shift)
      {
        assert ns[i] !in ns[..i];
        Enqueue(currentBoard, ns[i], n, tiles, shift);
        assert ns[..i + 1] == ns[..i] + [ns[i]];
      }
      assert ns[..|ns|] == ns;
    }

    /** The index of a board of least priority in a non-empty queue: the first one
        found scanning from the front. */
    static method LeastPriority(q: seq<Board>) returns (best: nat)
      requires q != [] && forall j :: 0 <= j < |q| ==> q[j].Valid()
      ensures best < |q|
      ensures forall j :: 0 <= j < |q| ==> q[best].Priority() <= q[j].Priority()
    {
      best := 0;
      var bestPriority := q[0].GetPriority();
      for i := 1 to |q|
        invariant best < |q| && bestPriority == q[best].Priority()
        invariant forall j :: 0 <= j < i ==> bestPriority <= q[j].Priority()
      {
        var priority := q[i].GetPriority();
        if priority < bestPriority {
          best, bestPriority := i, priority;
        }
      }
    }

    /** PriorityQueue.poll: null on an empty queue, else a queued board of least
        priority, taken out of the queue. */
    method Poll() returns (head: Board?)
      requires forall j :: 0 <= j < |optionsQueue| ==> optionsQueue[j].Valid()
      modifies this`optionsQueue
      ensures old(optionsQueue) == [] ==> head == null && optionsQueue == []
      ensures old(optionsQueue) != [] ==> head != null && head in old(optionsQueue)
      ensures old(optionsQueue) != [] ==> multiset(optionsQueue) + multiset{head} == multiset(old(optionsQueue))
      ensures head != null ==> forall j :: 0 <= j < |old(optionsQueue)| ==> head.Priority() <= old(optionsQueue)[j].Priority()
    {
      if optionsQueue == [] {
        return null;
      }
      var q := optionsQueue;
      var best := LeastPriority(q);
      head := q[best];
      assert q == q[..best] + [head] + q[best + 1..];
      optionsQueue := q[..best] + q[best + 1..];
    }

    /** The for loop of one round of solveHe: the neighbours of current, in the order
        neighbors() makes them, each with one move more than current, join the back of
        the queue. A board that is not the goal has at least one, since a board of side
        2 or more always has a neighbour and a board of side 1 is the goal. */
    method OfferNeighbors(current: Board, ghost n: nat, ghost tiles: multiset<int>, ghost shift: int) returns (ns: seq<Board>)
      requires Good(current, n, tiles, shift) && Searching(n, tiles, shift)
      requires current.Cells != GoalGrid(n, n)
      modifies this`optionsQueue
      ensures current.Children(ns, NeighborDirs(n, current.blank.x, current.blank.y, current.whereICameFrom))
      ensures forall j :: 0 <= j < |ns| ==> ns[j].moves == current.moves + 1
      ensures optionsQueue == old(optionsQueue) + ns && ns != []
      ensures Searching(n, tiles, shift)
    {
      ns := Expand(current, n, tiles, shift);
      OfferAll(current, ns, n, tiles, shift);
    }

    /** The poll ending one round of solveHe, on a queue that is not empty: a good
        board of least priority. */
    method PollNext(ghost n: nat, ghost tiles: multiset<int>, ghost shift: int) returns (next: Board)
      requires Searching(n, tiles, shift) && optionsQueue != []
      modifies this`optionsQueue
      ensures Good(next, n, tiles, shift) && Searching(n, tiles, shift)
      ensures next in old(optionsQueue) && multiset(optionsQueue) + multiset{next} == multiset(old(optionsQueue))
      ensures forall b :: b in old(optionsQueue) ==> next.Priority() <= b.Priority()
    {
      assert forall j :: 0 <= j < |optionsQueue| ==> Good(optionsQueue[j], n, tiles, shift);
      ghost var queue := optionsQueue;
      var head := Poll();
      next := head;
      forall b | b in optionsQueue
        ensures Good(b, n, tiles, shift)
      {
        assert multiset(optionsQueue)[b] > 0;
        assert multiset(queue)[b] > 0;
      }
    }

    /** One pass of solveHe's loop over a board that is not the goal: offer its
        neighbours (returned as offered), each with one move more than current, then
        poll a board of least priority among the old queue and the offered boards.
        The queue does not shrink, since at least one neighbour joins it before the
        poll. */
    method Round(current: Board, ghost n: nat, ghost tiles: multiset<int>, ghost shift: int)
      returns (next: Board, ghost offered: seq<Board>)
      requires Good(current, n, tiles, shift) && Searching(n, tiles, shift)
      requires current.Cells != GoalGrid(n, n)
      modifies this`optionsQueue
      ensures current.Children(offered, NeighborDirs(n, current.blank.x, current.blank.y, current.whereICameFrom))
      ensures forall j :: 0 <= j < |offered| ==> offered[j].moves == current.moves + 1
      ensures next in old(optionsQueue) + offered
      ensures multiset(optionsQueue) + multiset{next} == multiset(old(optionsQueue) + offered)
      ensures forall b :: b in old(optionsQueue) + offered ==> next.Priority() <= b.Priority()
      ensures Good(next, n, tiles, shift) && Searching(n, tiles, shift)
      ensures offered != []
    {
      offered := OfferNeighbors(current, n, tiles, shift);
      ghost var ds := NeighborDirs(n, current.blank.x, current.blank.y, current.whereICameFrom);
      next := PollNext(n, tiles, shift);
      assert current.Children(offered, ds);
    }

    /** Solver.solveHe: expand the current board until it is the goal. The search is
        run for at most fuel rounds; polls counts the rounds done. */
    method SolveHe(currentBoard: Board, fuel: nat, ghost n: nat, ghost tiles: multiset<int>, ghost shift: int)
      returns (finished: Board?, polls: nat)
      requires Good(currentBoard, n, tiles, shift) && Searching(n, tiles, shift)
      modifies this`optionsQueue
      ensures polls <= fuel && (finished == null ==> polls == fuel)
      ensures finished != null ==> Good(finished, n, tiles, shift) && finished.Cells == GoalGrid(n, n)
      ensures Searching(n, tiles, shift)
    {
      var current := currentBoard;
      polls := 0;
      while true
        invariant polls <= fuel
        invariant Good(current, n, tiles, shift) && Searching(n, tiles, shift)
        decreases fuel - polls
      {
        var goal := current.IsGoal();
        if goal {
          return current, polls;
        }
        if polls == fuel {
          return null, polls;
        }
        ghost var offered;
        current, offered := Round(current, n, tiles, shift);
        polls := polls + 1;
      }
    }
  }

  /** The call to neighbors() in one round of solveHe, on a board that is not the goal:
      fresh children toward each direction of NeighborDirs, at least one of them, each
      valid over the same labels, one link deeper and with no moves recorded. */
  method Expand(current: Board, ghost n: nat, ghost tiles: multiset<int>, ghost shift: int) returns (ns: seq<Board>)
    requires Good(current, n, tiles, shift) && current.Cells != GoalGrid(n, n)
    ensures current.Children(ns, NeighborDirs(n, current.blank.x, current.blank.y, current.whereICameFrom)) && ns != []
    ensures forall j :: 0 <= j < |ns| ==> Made(ns[j], n, tiles, current.depth + 1)
    ensures forall j :: 0 <= j < |ns| ==> fresh(ns[j]) && ns[j].moves == 0
  {
    if n < 2 {
      if n == 1 {
        SingleCellIsGoal(current.Cells, current.blank.x, current.blank.y);
      }
      assert false;
    }
    ghost var ds := NeighborDirs(n, current.blank.x, current.blank.y, current.whereICameFrom);
    NeighborDirsNonEmpty(n, current.blank.x, current.blank.y, current.whereICameFrom);
    ns := current.Neighbors();
    ChildrenMade(current, ns, ds, n, tiles, shift);
  }

  /** Every board neighbors() returned is made from current: valid, of its side, over
      its labels and one link deeper. */
  lemma ChildrenMade(current: Board, ns: seq<Board>, ds: seq<char>, n: nat, tiles: multiset<int>, shift: int)
    requires Good(current, n, tiles, shift) && current.Children(ns, ds)
    ensures forall j :: 0 <= j < |ns| ==> Made(ns[j], n, tiles, current.depth + 1)
  {
    forall j | 0 <= j < |ns|
      ensures Made(ns[j], n, tiles, current.depth + 1)
    {
      assert current.IsChild(ns[j], ds[j]);
      StepKeepsTiles(current.Cells, current.blank.x, current.blank.y, ds[j]);
    }
  }
}
