/**
 * `radial_distance_search` of DistanceToForestEdge2.py: a breadth-first search
 * from a start cell over a boolean forest mask, returning the level at which the
 * first background (False) cell is discovered, or infinity.
 *
 * `visited` is seeded with `set(start_point)`, which holds the two coordinates as
 * integers rather than the pair, so the start cell is not marked visited and a
 * neighbour at level 1 rediscovers it at level 2. The search result is therefore
 * the least Manhattan distance to a background cell other than the start, or 2
 * when the start is itself background and has a neighbour, whichever is smaller.
 */
module RadialSearch {
  import opened Grids
  import opened Wrappers
  import Nodata

  /** A search result: `dist + 1` or `np.inf`. */
  datatype Dist = Finite(n: nat) | Infinite

  /** An element of `visited`: an integer from `set(start_point)` or a visited cell. */
  datatype Key = IntKey(v: int) | PairKey(r: int, c: int)

  /** `directions`, in the order the search tries them. */
  const Directions: seq<(int, int)> := [(1, 0), (-1, 0), (0, 1), (0, -1)]

  function Abs(v: int): nat
  {
    if v < 0 then -v else v
  }

  function Manhattan(r0: int, c0: int, r1: int, c1: int): nat
  {
    Abs(r0 - r1) + Abs(c0 - c1)
  }

  /** Some 4-neighbour of `(x, y)` lies inside the grid. */
  predicate HasNeighbour(h: nat, w: nat, x: int, y: int)
  {
    InGrid(h, w, x + 1, y) || InGrid(h, w, x - 1, y) || InGrid(h, w, x, y + 1) || InGrid(h, w, x, y - 1)
  }

  /** The start is background and a neighbour will rediscover it at level 2. */
  predicate Rediscovered(mask: seq<seq<bool>>, h: nat, w: nat, x: int, y: int)
    requires IsGrid(mask, h, w) && InGrid(h, w, x, y)
  {
    !mask[x][y] && HasNeighbour(h, w, x, y)
  }

  /**
   * `d` is what the search returns: `Finite(n)` with `n` the least of the Manhattan
   * distances to background cells other than the start and (when the start is
   * rediscovered as background) 2; `Infinite` when there is no such candidate.
   */
  ghost predicate SearchResult(mask: seq<seq<bool>>, h: nat, w: nat, x: int, y: int, d: Dist)
    requires IsGrid(mask, h, w) && InGrid(h, w, x, y)
  {
    match d
    case Infinite =>
      (forall r, c :: InGrid(h, w, r, c) && (r, c) != (x, y) ==> mask[r][c])
      && !Rediscovered(mask, h, w, x, y)
    case Finite(n) =>
      (forall r, c :: InGrid(h, w, r, c) && (r, c) != (x, y) && !mask[r][c] ==> n <= Manhattan(x, y, r, c))
      && (Rediscovered(mask, h, w, x, y) ==> n <= 2)
      && ((exists r, c :: InGrid(h, w, r, c) && (r, c) != (x, y) && !mask[r][c] && Manhattan(x, y, r, c) == n)
          || (Rediscovered(mask, h, w, x, y) && n == 2))
  }

  /**
   * `radial_distance_search(mask, (x, y))`. The queue holds `(row, column, level)`
   * entries; `data[nx, ny] == 0` holds exactly for False cells of the mask.
   */
  method RadialDistanceSearch(mask: seq<seq<bool>>, h: nat, w: nat, x: int, y: int) returns (d: Dist)
    requires IsGrid(mask, h, w) && InGrid(h, w, x, y)
    ensures SearchResult(mask, h, w, x, y, d)
  {
    var queue: seq<(int, int, nat)> := [(x, y, 0)];
    var visited: set<Key> := {IntKey(x), IntKey(y)};
    ghost var done: set<(int, int)> := {};
    ghost var unseen: set<(int, int)> := set r, c | 0 <= r < h && 0 <= c < w :: (r, c);
    SearchStart(mask, h, w, x, y, unseen);
    while |queue| > 0
      invariant OuterInv(mask, h, w, x, y, queue, visited, done, unseen)
      decreases unseen, |queue|
    {
      var (a, b, l) := queue[0];
      ghost var q0, v0, u0 := queue, visited, unseen;
      ExpandStart(mask, h, w, x, y, queue, visited, done, unseen);
      queue := queue[1..];
      for k := 0 to |Directions|
        invariant InnerInv(mask, h, w, x, y, queue, visited, done, unseen, a, b, l, k, q0, v0, u0)
      {
        var (dx, dy) := Directions[k];
        var nx, ny := a + dx, b + dy;
        if 0 <= nx < h && 0 <= ny < w && PairKey(nx, ny) !in visited {
          if !mask[nx][ny] {
            ExpandFound(mask, h, w, x, y, queue, visited, done, unseen, a, b, l, k, q0, v0, u0, nx, ny);
          } else {
            ExpandVisit(mask, h, w, x, y, queue, visited, done, unseen, a, b, l, k, q0, v0, u0, nx, ny);
          }
          visited := visited + {PairKey(nx, ny)};
          unseen := unseen - {(nx, ny)};
          if !mask[nx][ny] {
            return Finite(l + 1);
          }
          queue := queue + [(nx, ny, l + 1)];
        } else {
          ExpandSkip(h, w, visited, a, b, k, nx, ny);
        }
      }
      ExpandEnd(mask, h, w, x, y, queue, visited, done, unseen, a, b, l, q0, v0, u0);
      done := done + {(a, b)};
    }
    Exhausted(mask, h, w, x, y, visited, done);
    return Infinite;
  }

  /** What holds each time the search loop tests its queue. */
  ghost predicate OuterInv(mask: seq<seq<bool>>, h: nat, w: nat, x: int, y: int, queue: seq<(int, int, nat)>,
                           visited: set<Key>, done: set<(int, int)>, unseen: set<(int, int)>)
    requires IsGrid(mask, h, w) && InGrid(h, w, x, y)
  {
    QueueOk(h, w, x, y, queue)
    && (|queue| > 0 ==> LevelsFrom(queue, queue[0].2))
    && QueuedAreVisited(x, y, queue, visited)
    && VisitedOk(mask, h, w, visited)
    && Closed(h, w, done, visited)
    && Covered(visited, done, Cells(queue))
    && (forall p :: p in done ==> p == (x, y) || PairKey(p.0, p.1) in visited)
    && ((x, y) in done || (done == {} && queue == [(x, y, 0)]))
    && (|queue| > 0 ==> ReachedVisited(h, w, x, y, visited, queue[0].2))
    && (forall r, c :: InGrid(h, w, r, c) && PairKey(r, c) !in visited ==> (r, c) in unseen)
  }

  /**
   * What holds while the cell `(a, b)` popped at level `l` is expanded, after the
   * first `k` directions; `q0`, `v0` and `u0` are the queue, the visited set and
   * the unvisited cells before the pop.
   */
  ghost predicate InnerInv(mask: seq<seq<bool>>, h: nat, w: nat, x: int, y: int, queue: seq<(int, int, nat)>,
                           visited: set<Key>, done: set<(int, int)>, unseen: set<(int, int)>,
                           a: int, b: int, l: nat, k: int,
                           q0: seq<(int, int, nat)>, v0: set<Key>, u0: set<(int, int)>)
    requires IsGrid(mask, h, w) && InGrid(h, w, x, y)
  {
    0 <= k <= 4
    && InnerCore(mask, h, w, x, y, queue, visited, done, unseen, a, b, l, q0, v0, u0)
    && DirectionsTried(h, w, visited, a, b, k)
  }

  /** The part of `InnerInv` that does not depend on how many directions were tried. */
  ghost predicate InnerCore(mask: seq<seq<bool>>, h: nat, w: nat, x: int, y: int, queue: seq<(int, int, nat)>,
                            visited: set<Key>, done: set<(int, int)>, unseen: set<(int, int)>,
                            a: int, b: int, l: nat,
                            q0: seq<(int, int, nat)>, v0: set<Key>, u0: set<(int, int)>)
    requires IsGrid(mask, h, w) && InGrid(h, w, x, y)
  {
    |q0| > 0
    && InGrid(h, w, a, b) && (l == Manhattan(x, y, a, b) || (a == x && b == y && l == 2))
    && ((a == x && b == y) || PairKey(a, b) in v0)
    && QueueOk(h, w, x, y, queue)
    && LevelsFrom(queue, l)
    && QueuedAreVisited(x, y, queue, visited)
    && VisitedOk(mask, h, w, visited)
    && Closed(h, w, done, visited)
    && Covered(visited, done + {(a, b)}, Cells(queue))
    && (forall p :: p in done ==> p == (x, y) || PairKey(p.0, p.1) in visited)
    && ((x, y) in done || (done == {} && a == x && b == y && l == 0))
    && ReachedVisited(h, w, x, y, visited, l)
    && (forall r, c :: InGrid(h, w, r, c) && PairKey(r, c) !in visited ==> (r, c) in unseen)
    && v0 <= visited
    && unseen <= u0 && (unseen == u0 ==> queue == q0[1..])
  }

  /** The grid neighbours of `(a, b)` in the first `k` directions are visited. */
  ghost predicate DirectionsTried(h: nat, w: nat, visited: set<Key>, a: int, b: int, k: int)
    requires k <= |Directions|
  {
    forall k' :: 0 <= k' < k && InGrid(h, w, a + Directions[k'].0, b + Directions[k'].1) ==>
      PairKey(a + Directions[k'].0, b + Directions[k'].1) in visited
  }

  lemma SearchStart(mask: seq<seq<bool>>, h: nat, w: nat, x: int, y: int, unseen: set<(int, int)>)
    requires IsGrid(mask, h, w) && InGrid(h, w, x, y)
    requires unseen == set r, c | 0 <= r < h && 0 <= c < w :: (r, c)
    ensures OuterInv(mask, h, w, x, y, [(x, y, 0)], {IntKey(x), IntKey(y)}, {}, unseen)
  {
    var q: seq<(int, int, nat)> := [(x, y, 0)];
    assert (q[0].0, q[0].1) in Cells(q);
    forall p | p in Cells(q) ensures p == (x, y) {
      var i :| 0 <= i < |q| && p == (q[i].0, q[i].1);
    }
    NothingReachedAtZero(h, w, x, y);
  }

  lemma NothingReachedAtZero(h: nat, w: nat, x: int, y: int)
    ensures forall r, c :: !Reached(h, w, x, y, r, c, 0)
  {
    forall r, c ensures !Reached(h, w, x, y, r, c, 0) {
      if (r, c) != (x, y) {
        assert Manhattan(x, y, r, c) > 0;
      }
    }
  }

  lemma ExpandStart(mask: seq<seq<bool>>, h: nat, w: nat, x: int, y: int, queue: seq<(int, int, nat)>,
                    visited: set<Key>, done: set<(int, int)>, unseen: set<(int, int)>)
    requires IsGrid(mask, h, w) && InGrid(h, w, x, y)
    requires OuterInv(mask, h, w, x, y, queue, visited, done, unseen) && |queue| > 0
    ensures InnerInv(mask, h, w, x, y, queue[1..], visited, done, unseen,
                     queue[0].0, queue[0].1, queue[0].2, 0, queue, visited, unseen)
  {
    CellsPop(queue);
    var q := queue[1..];
    forall i | 0 <= i < |q| ensures q[i] == queue[i + 1] {
    }
  }

  lemma ExpandFound(mask: seq<seq<bool>>, h: nat, w: nat, x: int, y: int, queue: seq<(int, int, nat)>,
                    visited: set<Key>, done: set<(int, int)>, unseen: set<(int, int)>,
                    a: int, b: int, l: nat, k: int,
                    q0: seq<(int, int, nat)>, v0: set<Key>, u0: set<(int, int)>, nx: int, ny: int)
    requires IsGrid(mask, h, w) && InGrid(h, w, x, y)
    requires InnerInv(mask, h, w, x, y, queue, visited, done, unseen, a, b, l, k, q0, v0, u0) && k < 4
    requires nx == a + Directions[k].0 && ny == b + Directions[k].1
    requires InGrid(h, w, nx, ny) && PairKey(nx, ny) !in visited && !mask[nx][ny]
    ensures SearchResult(mask, h, w, x, y, Finite(l + 1))
  {
    NeighbourManhattan(x, y, a, b, k);
    DiscoveryLevel(h, w, x, y, visited, done, a, b, l, nx, ny);
    DiscoveryResult(mask, h, w, x, y, visited, a, b, l, nx, ny);
  }

  lemma ExpandVisit(mask: seq<seq<bool>>, h: nat, w: nat, x: int, y: int, queue: seq<(int, int, nat)>,
                    visited: set<Key>, done: set<(int, int)>, unseen: set<(int, int)>,
                    a: int, b: int, l: nat, k: int,
                    q0: seq<(int, int, nat)>, v0: set<Key>, u0: set<(int, int)>, nx: int, ny: int)
    requires IsGrid(mask, h, w) && InGrid(h, w, x, y)
    requires InnerInv(mask, h, w, x, y, queue, visited, done, unseen, a, b, l, k, q0, v0, u0) && k < 4
    requires nx == a + Directions[k].0 && ny == b + Directions[k].1
    requires InGrid(h, w, nx, ny) && PairKey(nx, ny) !in visited && mask[nx][ny]
    ensures InnerInv(mask, h, w, x, y, queue + [(nx, ny, l + 1)], visited + {PairKey(nx, ny)}, done,
                     unseen - {(nx, ny)}, a, b, l, k + 1, q0, v0, u0)
  {
    NeighbourManhattan(x, y, a, b, k);
    DiscoveryLevel(h, w, x, y, visited, done, a, b, l, nx, ny);
    VisitQueue(h, w, x, y, queue, visited, done + {(a, b)}, l, nx, ny);
    VisitSets(mask, h, w, x, y, visited, done, unseen, l, nx, ny);
    TriedNext(h, w, visited, a, b, k, nx, ny);
  }

  /** Appending a newly visited cell at level `l + 1` keeps the queue facts. */
  lemma VisitQueue(h: nat, w: nat, x: int, y: int, queue: seq<(int, int, nat)>, visited: set<Key>,
                   done: set<(int, int)>, l: nat, nx: int, ny: int)
    requires QueueOk(h, w, x, y, queue) && LevelsFrom(queue, l) && QueuedAreVisited(x, y, queue, visited)
    requires Covered(visited, done, Cells(queue))
    requires InGrid(h, w, nx, ny) && (l + 1 == Manhattan(x, y, nx, ny) || (nx == x && ny == y && l + 1 == 2))
    ensures var q', v' := queue + [(nx, ny, l + 1)], visited + {PairKey(nx, ny)};
      QueueOk(h, w, x, y, q') && LevelsFrom(q', l) && QueuedAreVisited(x, y, q', v')
      && Covered(v', done, Cells(q'))
  {
    var e: (int, int, nat) := (nx, ny, l + 1);
    CellsAppend(queue, e);
    var q' := queue + [e];
    forall i | 0 <= i < |q'| ensures q'[i] == if i < |queue| then queue[i] else e {
    }
  }

  /** Marking a forest cell visited keeps the facts about the visited and unvisited cells. */
  lemma VisitSets(mask: seq<seq<bool>>, h: nat, w: nat, x: int, y: int, visited: set<Key>,
                  done: set<(int, int)>, unseen: set<(int, int)>, l: nat, nx: int, ny: int)
    requires IsGrid(mask, h, w)
    requires VisitedOk(mask, h, w, visited) && Closed(h, w, done, visited) && ReachedVisited(h, w, x, y, visited, l)
    requires forall p :: p in done ==> p == (x, y) || PairKey(p.0, p.1) in visited
    requires forall r, c :: InGrid(h, w, r, c) && PairKey(r, c) !in visited ==> (r, c) in unseen
    requires InGrid(h, w, nx, ny) && PairKey(nx, ny) !in visited && mask[nx][ny]
    ensures var v', u' := visited + {PairKey(nx, ny)}, unseen - {(nx, ny)};
      VisitedOk(mask, h, w, v') && Closed(h, w, done, v') && ReachedVisited(h, w, x, y, v', l)
      && (forall p :: p in done ==> p == (x, y) || PairKey(p.0, p.1) in v')
      && (forall r, c :: InGrid(h, w, r, c) && PairKey(r, c) !in v' ==> (r, c) in u')
      && (nx, ny) in unseen && u' < unseen
  {
    var v' := visited + {PairKey(nx, ny)};
    forall r, c | Expanded(done, r, c) ensures NeighboursVisited(h, w, v', r, c) {
      assert NeighboursVisited(h, w, visited, r, c);
    }
  }

  /** Visiting the neighbour in direction `k` extends the tried directions to `k + 1`. */
  lemma TriedNext(h: nat, w: nat, visited: set<Key>, a: int, b: int, k: int, nx: int, ny: int)
    requires 0 <= k < 4 && DirectionsTried(h, w, visited, a, b, k)
    requires nx == a + Directions[k].0 && ny == b + Directions[k].1
    ensures DirectionsTried(h, w, visited + {PairKey(nx, ny)}, a, b, k + 1)
  {
  }

  lemma ExpandSkip(h: nat, w: nat, visited: set<Key>, a: int, b: int, k: int, nx: int, ny: int)
    requires 0 <= k < 4 && DirectionsTried(h, w, visited, a, b, k)
    requires nx == a + Directions[k].0 && ny == b + Directions[k].1
    requires !(InGrid(h, w, nx, ny) && PairKey(nx, ny) !in visited)
    ensures DirectionsTried(h, w, visited, a, b, k + 1)
  {
  }

  lemma ExpandEnd(mask: seq<seq<bool>>, h: nat, w: nat, x: int, y: int, queue: seq<(int, int, nat)>,
                  visited: set<Key>, done: set<(int, int)>, unseen: set<(int, int)>,
                  a: int, b: int, l: nat,
                  q0: seq<(int, int, nat)>, v0: set<Key>, u0: set<(int, int)>)
    requires IsGrid(mask, h, w) && InGrid(h, w, x, y)
    requires InnerInv(mask, h, w, x, y, queue, visited, done, unseen, a, b, l, 4, q0, v0, u0)
    ensures OuterInv(mask, h, w, x, y, queue, visited, done + {(a, b)}, unseen)
    ensures unseen < u0 || (unseen == u0 && |queue| < |q0|)
  {
    var done' := done + {(a, b)};
    CloseCell(h, w, done, visited, a, b);
    if |queue| > 0 {
      assert Expanded(done', x, y);
      AdvanceLevel(mask, h, w, x, y, visited, done', queue, l);
    }
  }

  /** Once all four directions of `(a, b)` are tried, `(a, b)` can join the expanded cells. */
  lemma CloseCell(h: nat, w: nat, done: set<(int, int)>, visited: set<Key>, a: int, b: int)
    requires Closed(h, w, done, visited) && DirectionsTried(h, w, visited, a, b, 4)
    ensures Closed(h, w, done + {(a, b)}, visited)
  {
    var done' := done + {(a, b)};
    assert Directions[0] == (1, 0) && Directions[1] == (-1, 0) && Directions[2] == (0, 1) && Directions[3] == (0, -1);
    assert NeighboursVisited(h, w, visited, a, b);
    forall r, c | Expanded(done', r, c) ensures NeighboursVisited(h, w, visited, r, c) {
      if (r, c) != (a, b) {
        assert Expanded(done, r, c);
      }
    }
  }

  /** Every queue entry lies in the grid and sits at its Manhattan level, or is the start rediscovered at level 2. */
  predicate QueueOk(h: nat, w: nat, x: int, y: int, q: seq<(int, int, nat)>)
  {
    forall i :: 0 <= i < |q| ==>
      InGrid(h, w, q[i].0, q[i].1)
      && (q[i].2 == Manhattan(x, y, q[i].0, q[i].1) || (q[i].0 == x && q[i].1 == y && q[i].2 == 2))
  }

  /** The queue levels are sorted and lie in `[l, l + 1]`. */
  predicate LevelsFrom(q: seq<(int, int, nat)>, l: nat)
  {
    (forall i :: 0 <= i < |q| ==> l <= q[i].2 <= l + 1)
    && (forall i, j :: 0 <= i < j < |q| ==> q[i].2 <= q[j].2)
  }

  predicate QueuedAreVisited(x: int, y: int, q: seq<(int, int, nat)>, visited: set<Key>)
  {
    forall i :: 0 <= i < |q| ==> (q[i].0 == x && q[i].1 == y) || PairKey(q[i].0, q[i].1) in visited
  }

  /** Visited cells are forest cells of the grid (a background cell ends the search when visited). */
  ghost predicate VisitedOk(mask: seq<seq<bool>>, h: nat, w: nat, visited: set<Key>)
    requires IsGrid(mask, h, w)
  {
    forall r, c :: PairKey(r, c) in visited ==> InGrid(h, w, r, c) && mask[r][c]
  }

  predicate NeighboursVisited(h: nat, w: nat, visited: set<Key>, a: int, b: int)
  {
    (InGrid(h, w, a + 1, b) ==> PairKey(a + 1, b) in visited)
    && (InGrid(h, w, a - 1, b) ==> PairKey(a - 1, b) in visited)
    && (InGrid(h, w, a, b + 1) ==> PairKey(a, b + 1) in visited)
    && (InGrid(h, w, a, b - 1) ==> PairKey(a, b - 1) in visited)
  }

  /** `(r, c)` has been popped and expanded. */
  ghost predicate Expanded(done: set<(int, int)>, r: int, c: int)
  {
    (r, c) in done
  }

  /**
   * Every neighbour of a cell already expanded has been visited. The trigger keeps
   * the solver from walking from neighbour to neighbour through `Covered`.
   */
  ghost predicate Closed(h: nat, w: nat, done: set<(int, int)>, visited: set<Key>)
  {
    forall r, c {:trigger Expanded(done, r, c)} :: Expanded(done, r, c) ==> NeighboursVisited(h, w, visited, r, c)
  }

  ghost function Cells(q: seq<(int, int, nat)>): set<(int, int)>
  {
    set i | 0 <= i < |q| :: (q[i].0, q[i].1)
  }

  /** Every visited cell is either expanded or waiting in the queue. */
  ghost predicate Covered(visited: set<Key>, done: set<(int, int)>, pending: set<(int, int)>)
  {
    forall r, c :: PairKey(r, c) in visited ==> (r, c) in done || (r, c) in pending
  }

  /** Cells the search must have visited once it works at level `l`. */
  predicate Reached(h: nat, w: nat, x: int, y: int, r: int, c: int, l: nat)
  {
    ((r, c) != (x, y) && Manhattan(x, y, r, c) <= l) || ((r, c) == (x, y) && l >= 2 && HasNeighbour(h, w, x, y))
  }

  ghost predicate ReachedVisited(h: nat, w: nat, x: int, y: int, visited: set<Key>, l: nat)
  {
    forall r, c :: InGrid(h, w, r, c) && Reached(h, w, x, y, r, c, l) ==> PairKey(r, c) in visited
  }

  lemma CellsPop(q: seq<(int, int, nat)>)
    requires |q| > 0
    ensures Cells(q) <= {(q[0].0, q[0].1)} + Cells(q[1..])
  {
    forall p | p in Cells(q) ensures p in {(q[0].0, q[0].1)} + Cells(q[1..]) {
      var i :| 0 <= i < |q| && p == (q[i].0, q[i].1);
      if i > 0 {
        assert q[1..][i - 1] == q[i];
      }
    }
  }

  lemma CellsAppend(q: seq<(int, int, nat)>, e: (int, int, nat))
    ensures Cells(q + [e]) == Cells(q) + {(e.0, e.1)}
  {
    var q' := q + [e];
    assert q'[|q|] == e;
    forall p | p in Cells(q) ensures p in Cells(q') {
      var i :| 0 <= i < |q| && p == (q[i].0, q[i].1);
      assert q'[i] == q[i];
    }
  }

  /** A queued cell other than the start sits at its Manhattan level, so it is at least the head's level. */
  lemma PendingLevel(h: nat, w: nat, x: int, y: int, q: seq<(int, int, nat)>, r: int, c: int)
    requires QueueOk(h, w, x, y, q) && |q| > 0 && LevelsFrom(q, q[0].2)
    requires (r, c) != (x, y)
    ensures (r, c) in Cells(q) ==> Manhattan(x, y, r, c) >= q[0].2
  {
    if (r, c) in Cells(q) {
      var i :| 0 <= i < |q| && (r, c) == (q[i].0, q[i].1);
    }
  }

  /** One step from `(r, c)` towards `(x, y)`: an adjacent grid cell one level closer. */
  function StepToward(h: nat, w: nat, x: int, y: int, r: int, c: int): (s: (int, int))
    requires InGrid(h, w, x, y) && InGrid(h, w, r, c) && (r, c) != (x, y)
    ensures InGrid(h, w, s.0, s.1)
    ensures Manhattan(x, y, s.0, s.1) + 1 == Manhattan(x, y, r, c)
    ensures Manhattan(s.0, s.1, r, c) == 1
  {
    if r > x then (r - 1, c)
    else if r < x then (r + 1, c)
    else if c > y then (r, c - 1)
    else (r, c + 1)
  }

  /** A grid neighbour of `(x, y)`, when it has one. */
  function SomeNeighbour(h: nat, w: nat, x: int, y: int): (n: (int, int))
    requires HasNeighbour(h, w, x, y)
    ensures InGrid(h, w, n.0, n.1) && Manhattan(x, y, n.0, n.1) == 1
  {
    if InGrid(h, w, x + 1, y) then (x + 1, y)
    else if InGrid(h, w, x - 1, y) then (x - 1, y)
    else if InGrid(h, w, x, y + 1) then (x, y + 1)
    else (x, y - 1)
  }

  /** An adjacent grid cell of a cell whose neighbours are all visited is visited. */
  lemma AdjacentVisited(h: nat, w: nat, visited: set<Key>, a: int, b: int, r: int, c: int)
    requires NeighboursVisited(h, w, visited, a, b)
    requires InGrid(h, w, r, c) && Manhattan(a, b, r, c) == 1
    ensures PairKey(r, c) in visited
  {
  }

  /** Moving one step changes the Manhattan distance to the start by exactly one. */
  lemma NeighbourManhattan(x: int, y: int, a: int, b: int, k: int)
    requires 0 <= k < 4
    ensures var m, m' := Manhattan(x, y, a, b), Manhattan(x, y, a + Directions[k].0, b + Directions[k].1);
      m' == m + 1 || m' + 1 == m
    ensures Manhattan(a, b, a + Directions[k].0, b + Directions[k].1) == 1
  {
    assert Directions[0] == (1, 0) && Directions[1] == (-1, 0) && Directions[2] == (0, 1) && Directions[3] == (0, -1);
  }

  /** With every cell of level at most `l` visited and every visited cell forest, no background cell is nearer than `l + 1`. */
  lemma LowerBound(mask: seq<seq<bool>>, h: nat, w: nat, x: int, y: int, visited: set<Key>, l: nat)
    requires IsGrid(mask, h, w) && InGrid(h, w, x, y)
    requires VisitedOk(mask, h, w, visited) && ReachedVisited(h, w, x, y, visited, l)
    ensures forall r, c :: InGrid(h, w, r, c) && (r, c) != (x, y) && !mask[r][c] ==> l + 1 <= Manhattan(x, y, r, c)
    ensures Rediscovered(mask, h, w, x, y) ==> l + 1 <= 2
  {
    forall r, c | InGrid(h, w, r, c) && (r, c) != (x, y) && !mask[r][c]
      ensures l + 1 <= Manhattan(x, y, r, c)
    {
      assert PairKey(r, c) !in visited;
      assert !Reached(h, w, x, y, r, c, l);
    }
    if Rediscovered(mask, h, w, x, y) {
      assert PairKey(x, y) !in visited;
      assert !Reached(h, w, x, y, x, y, l);
    }
  }

  /**
   * Expanding `(a, b)` at level `l` and finding its grid neighbour `(nx, ny)`
   * unvisited: the neighbour is queued at its own level (2 for the start).
   */
  lemma DiscoveryLevel(h: nat, w: nat, x: int, y: int, visited: set<Key>, done: set<(int, int)>,
                       a: int, b: int, l: nat, nx: int, ny: int)
    requires InGrid(h, w, x, y) && InGrid(h, w, a, b)
    requires l == Manhattan(x, y, a, b) || (a == x && b == y && l == 2)
    requires InGrid(h, w, nx, ny) && Manhattan(a, b, nx, ny) == 1
    requires PairKey(nx, ny) !in visited
    requires ReachedVisited(h, w, x, y, visited, l)
    requires Closed(h, w, done, visited)
    requires (x, y) in done || (a == x && b == y && l == 0)
    ensures l + 1 == Manhattan(x, y, nx, ny) || (nx == x && ny == y && l + 1 == 2)
  {
    assert !Reached(h, w, x, y, nx, ny, l);
    if nx == x && ny == y {
      assert HasNeighbour(h, w, x, y);
    }
  }

  /** A background cell found at level `l + 1` makes `l + 1` the search result. */
  lemma DiscoveryResult(mask: seq<seq<bool>>, h: nat, w: nat, x: int, y: int, visited: set<Key>,
                        a: int, b: int, l: nat, nx: int, ny: int)
    requires IsGrid(mask, h, w) && InGrid(h, w, x, y) && InGrid(h, w, a, b)
    requires InGrid(h, w, nx, ny) && Manhattan(a, b, nx, ny) == 1 && !mask[nx][ny]
    requires l + 1 == Manhattan(x, y, nx, ny) || (nx == x && ny == y && l + 1 == 2)
    requires VisitedOk(mask, h, w, visited) && ReachedVisited(h, w, x, y, visited, l)
    ensures SearchResult(mask, h, w, x, y, Finite(l + 1))
  {
    LowerBound(mask, h, w, x, y, visited, l);
    if nx == x && ny == y {
      assert HasNeighbour(h, w, x, y);
      assert Rediscovered(mask, h, w, x, y);
    } else {
      assert InGrid(h, w, nx, ny) && (nx, ny) != (x, y) && !mask[nx][ny] && Manhattan(x, y, nx, ny) == l + 1;
    }
  }

  /** When the queue head moves on to level `l + 1`, every cell of that level has been visited. */
  lemma AdvanceLevel(mask: seq<seq<bool>>, h: nat, w: nat, x: int, y: int, visited: set<Key>,
                     done: set<(int, int)>, q: seq<(int, int, nat)>, l: nat)
    requires IsGrid(mask, h, w) && InGrid(h, w, x, y)
    requires Expanded(done, x, y)
    requires Closed(h, w, done, visited)
    requires Covered(visited, done, Cells(q))
    requires QueueOk(h, w, x, y, q)
    requires LevelsFrom(q, l)
    requires ReachedVisited(h, w, x, y, visited, l)
    requires |q| > 0
    ensures ReachedVisited(h, w, x, y, visited, q[0].2)
  {
    if q[0].2 != l {
      forall r, c | InGrid(h, w, r, c) && Reached(h, w, x, y, r, c, l + 1)
        ensures PairKey(r, c) in visited
      {
        ReachedNextLevel(h, w, x, y, visited, done, q, l, r, c);
      }
    }
  }

  lemma ReachedNextLevel(h: nat, w: nat, x: int, y: int, visited: set<Key>,
                         done: set<(int, int)>, q: seq<(int, int, nat)>, l: nat, r: int, c: int)
    requires InGrid(h, w, x, y)
    requires Expanded(done, x, y)
    requires Closed(h, w, done, visited)
    requires Covered(visited, done, Cells(q))
    requires QueueOk(h, w, x, y, q) && |q| > 0 && LevelsFrom(q, l) && q[0].2 == l + 1
    requires ReachedVisited(h, w, x, y, visited, l)
    requires InGrid(h, w, r, c) && Reached(h, w, x, y, r, c, l + 1)
    ensures PairKey(r, c) in visited
  {
    if !Reached(h, w, x, y, r, c, l) {
      var n := if (r, c) == (x, y) then SomeNeighbour(h, w, x, y) else StepToward(h, w, x, y, r, c);
      if n != (x, y) {
        ExpandedAt(h, w, x, y, visited, done, q, l, n.0, n.1);
      }
      AdjacentVisited(h, w, visited, n.0, n.1, r, c);
    }
  }

  /** A visited cell of level `l` other than the start has been expanded once the queue holds only level `l + 1`. */
  lemma ExpandedAt(h: nat, w: nat, x: int, y: int, visited: set<Key>, done: set<(int, int)>,
                   q: seq<(int, int, nat)>, l: nat, r: int, c: int)
    requires Covered(visited, done, Cells(q))
    requires QueueOk(h, w, x, y, q) && |q| > 0 && LevelsFrom(q, l) && q[0].2 == l + 1
    requires ReachedVisited(h, w, x, y, visited, l)
    requires InGrid(h, w, r, c) && (r, c) != (x, y) && Manhattan(x, y, r, c) == l
    ensures Expanded(done, r, c)
  {
    assert Reached(h, w, x, y, r, c, l);
    PendingLevel(h, w, x, y, q, r, c);
  }

  /** Every grid cell is expanded when the expanded set contains the start and is closed under neighbours. */
  lemma {:induction false} AllExpanded(h: nat, w: nat, x: int, y: int, visited: set<Key>, done: set<(int, int)>, r: int, c: int)
    requires InGrid(h, w, x, y) && InGrid(h, w, r, c)
    requires Expanded(done, x, y)
    requires Closed(h, w, done, visited)
    requires Covered(visited, done, {})
    ensures Expanded(done, r, c)
    decreases Manhattan(x, y, r, c)
  {
    if (r, c) != (x, y) {
      var s := StepToward(h, w, x, y, r, c);
      AllExpanded(h, w, x, y, visited, done, s.0, s.1);
      AdjacentVisited(h, w, visited, s.0, s.1, r, c);
    }
  }

  /** An empty queue means every cell reachable from the start is forest: the result is infinity. */
  lemma Exhausted(mask: seq<seq<bool>>, h: nat, w: nat, x: int, y: int, visited: set<Key>, done: set<(int, int)>)
    requires IsGrid(mask, h, w) && InGrid(h, w, x, y)
    requires Expanded(done, x, y)
    requires Closed(h, w, done, visited)
    requires Covered(visited, done, {})
    requires forall p :: p in done ==> p == (x, y) || PairKey(p.0, p.1) in visited
    requires VisitedOk(mask, h, w, visited)
    ensures SearchResult(mask, h, w, x, y, Infinite)
  {
    forall r, c | InGrid(h, w, r, c) && (r, c) != (x, y) ensures mask[r][c] {
      AllExpanded(h, w, x, y, visited, done, r, c);
    }
    if HasNeighbour(h, w, x, y) {
      var n := SomeNeighbour(h, w, x, y);
      AllExpanded(h, w, x, y, visited, done, n.0, n.1);
      AdjacentVisited(h, w, visited, n.0, n.1, x, y);
    }
  }

  /** At most one result meets `SearchResult`, so the search is a function of the mask and the start. */
  lemma SearchResultUnique(mask: seq<seq<bool>>, h: nat, w: nat, x: int, y: int, d1: Dist, d2: Dist)
    requires IsGrid(mask, h, w) && InGrid(h, w, x, y)
    requires SearchResult(mask, h, w, x, y, d1) && SearchResult(mask, h, w, x, y, d2)
    ensures d1 == d2
  {
    if d1.Finite? {
      AtMost(mask, h, w, x, y, d1.n, d2);
    }
    if d2.Finite? {
      AtMost(mask, h, w, x, y, d2.n, d1);
    }
  }

  /** A result `Finite(n)` is below or at every other result; `Infinite` has no candidate at all. */
  lemma AtMost(mask: seq<seq<bool>>, h: nat, w: nat, x: int, y: int, n: nat, d: Dist)
    requires IsGrid(mask, h, w) && InGrid(h, w, x, y)
    requires SearchResult(mask, h, w, x, y, Finite(n)) && SearchResult(mask, h, w, x, y, d)
    ensures d.Finite? && n <= d.n
  {
    if exists r, c :: InGrid(h, w, r, c) && (r, c) != (x, y) && !mask[r][c] && Manhattan(x, y, r, c) == n {
      var r, c :| InGrid(h, w, r, c) && (r, c) != (x, y) && !mask[r][c] && Manhattan(x, y, r, c) == n;
      assert !mask[r][c];
    } else {
      assert Rediscovered(mask, h, w, x, y);
    }
    assert d.Finite?;
    if exists r, c :: InGrid(h, w, r, c) && (r, c) != (x, y) && !mask[r][c] && Manhattan(x, y, r, c) == d.n {
      var r, c :| InGrid(h, w, r, c) && (r, c) != (x, y) && !mask[r][c] && Manhattan(x, y, r, c) == d.n;
      assert n <= Manhattan(x, y, r, c);
    }
  }

  /** A finite result is at least 1: the start itself is never reported at distance 0. */
  lemma ResultAtLeastOne(mask: seq<seq<bool>>, h: nat, w: nat, x: int, y: int, n: nat)
    requires IsGrid(mask, h, w) && InGrid(h, w, x, y)
    requires SearchResult(mask, h, w, x, y, Finite(n))
    ensures n >= 1
  {
    if exists r, c :: InGrid(h, w, r, c) && (r, c) != (x, y) && !mask[r][c] && Manhattan(x, y, r, c) == n {
      var r, c :| InGrid(h, w, r, c) && (r, c) != (x, y) && !mask[r][c] && Manhattan(x, y, r, c) == n;
      assert r != x || c != y;
    }
  }

  /** A background 4-neighbour inside the grid makes the result 1. */
  lemma BackgroundNeighbourGivesOne(mask: seq<seq<bool>>, h: nat, w: nat, x: int, y: int, k: nat, d: Dist)
    requires IsGrid(mask, h, w) && InGrid(h, w, x, y) && k < 4
    requires InGrid(h, w, x + Directions[k].0, y + Directions[k].1)
    requires !mask[x + Directions[k].0][y + Directions[k].1]
    requires SearchResult(mask, h, w, x, y, d)
    ensures d == Finite(1)
  {
    NeighbourManhattan(x, x, y, y, k);
    var r, c := x + Directions[k].0, y + Directions[k].1;
    assert Manhattan(x, y, r, c) == 1 && (r, c) != (x, y);
    if d.Finite? {
      ResultAtLeastOne(mask, h, w, x, y, d.n);
    }
  }

  /** The result is infinite exactly when no cell other than the start is background and the start is not rediscovered as background. */
  lemma InfiniteIff(mask: seq<seq<bool>>, h: nat, w: nat, x: int, y: int, d: Dist)
    requires IsGrid(mask, h, w) && InGrid(h, w, x, y)
    requires SearchResult(mask, h, w, x, y, d)
    ensures d == Infinite <==>
      (forall r, c :: InGrid(h, w, r, c) && (r, c) != (x, y) ==> mask[r][c]) && !Rediscovered(mask, h, w, x, y)
  {
  }

  /**
   * The effect of `set(start_point)`: a background start whose in-grid neighbours
   * are all forest is reported at distance 2, although no other cell is background.
   */
  lemma BackgroundStartExample(d: Dist)
    requires SearchResult([[false, true, true]], 1, 3, 0, 0, d)
    ensures d == Finite(2)
  {
    var mask := [[false, true, true]];
    assert Rediscovered(mask, 1, 3, 0, 0) by {
      assert InGrid(1, 3, 0, 1);
    }
    forall r, c | InGrid(1, 3, r, c) && (r, c) != (0, 0) ensures mask[r][c] {
      assert r == 0 && (c == 1 || c == 2);
    }
  }
}
