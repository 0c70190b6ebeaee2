/** Computing the next generation: the rule over every interior window, and one of three
    edge policies for the two boundary cells. */
module Stepper {
  import opened Rules
  import opened CellSequence

  /** How the new values of the two outermost cells are obtained. */
  datatype EdgeHandling =
    | Copy  // the old edge values are kept
    | Crop  // the missing neighbour beyond an edge is a dead cell
    | Wrap  // the missing neighbour is taken from the opposite end

  /** The run's configuration; the delay between generations is not modelled. */
  datatype Settings = Settings(rule: Rule, edgeHandling: EdgeHandling, generations: U16)

  /** The new left and right boundary cells, from the edge pairs `((l1, l2), (r1, r2))`. */
  function BoundaryCells(rule: Rule, policy: EdgeHandling, e: ((bool, bool), (bool, bool))): (bool, bool)
  {
    var ((l1, l2), (r1, r2)) := e;
    match policy
    case Copy => (l1, r2)
    case Crop => (Apply(rule, Neighborhood(false, l1, l2)), Apply(rule, Neighborhood(r1, r2, false)))
    case Wrap => (Apply(rule, Neighborhood(r2, l1, l2)), Apply(rule, Neighborhood(r1, r2, l1)))
  }

  /** The rule applied to each window, in order. */
  function Interior(rule: Rule, ws: seq<Neighborhood>): (cells: seq<bool>)
    ensures |cells| == |ws|
  {
    if ws == [] then [] else Interior(rule, ws[..|ws| - 1]) + [Apply(rule, ws[|ws| - 1])]
  }

  /** Cell `i` of the interior is the rule applied to window `i`. */
  lemma {:induction false} InteriorAt(rule: Rule, ws: seq<Neighborhood>)
    ensures forall i {:trigger Interior(rule, ws)[i]} :: 0 <= i < |ws| ==> Interior(rule, ws)[i] == Apply(rule, ws[i])
  {
    if ws != [] {
      InteriorAt(rule, ws[..|ws| - 1]);
    }
  }

  /** The next generation: left boundary cell, interior cells, right boundary cell. It has as
      many cells as `front`. */
  function NextGen(rule: Rule, policy: EdgeHandling, front: seq<bool>): (next: seq<bool>)
    requires |front| >= 2
    ensures |next| == |front|
  {
    var b := BoundaryCells(rule, policy, Edges(front));
    [b.0] + Interior(rule, Neighborhoods(front)) + [b.1]
  }

  /** Every interior cell of the next generation is the rule applied to the cell and its two
      neighbours, whatever the edge policy. */
  lemma NextGenInterior(rule: Rule, policy: EdgeHandling, front: seq<bool>)
    requires |front| >= 2
    ensures forall i {:trigger NextGen(rule, policy, front)[i]} :: 1 <= i < |front| - 1 ==>
      NextGen(rule, policy, front)[i] == Apply(rule, Neighborhood(front[i - 1], front[i], front[i + 1]))
  {
    forall i | 1 <= i < |front| - 1
      ensures NextGen(rule, policy, front)[i] == Apply(rule, Neighborhood(front[i - 1], front[i], front[i + 1]))
    {
      NextGenCell(rule, policy, front, i);
    }
  }

  lemma NextGenCell(rule: Rule, policy: EdgeHandling, front: seq<bool>, i: int)
    requires |front| >= 2 && 1 <= i < |front| - 1
    ensures NextGen(rule, policy, front)[i] == Apply(rule, Neighborhood(front[i - 1], front[i], front[i + 1]))
  {
    var ws := Neighborhoods(front);
    NeighborhoodsAt(front);
    InteriorAt(rule, ws);
    assert NextGen(rule, policy, front)[i] == Interior(rule, ws)[i - 1];
  }

  /** The two end cells of the next generation are the boundary cells of the edge pairs. */
  lemma NextGenEnds(rule: Rule, policy: EdgeHandling, front: seq<bool>)
    requires |front| >= 2
    ensures var n := |front|;
      var b := BoundaryCells(rule, policy, ((front[0], front[1]), (front[n - 2], front[n - 1])));
      NextGen(rule, policy, front)[0] == b.0 && NextGen(rule, policy, front)[n - 1] == b.1
  {
  }

  /** Under Copy the two edge cells never change, whatever the rule. */
  lemma CopyKeepsEdges(rule: Rule, front: seq<bool>)
    requires |front| >= 2
    ensures NextGen(rule, Copy, front)[0] == front[0]
    ensures NextGen(rule, Copy, front)[|front| - 1] == front[|front| - 1]
  {
    NextGenEnds(rule, Copy, front);
  }

  /** Cell `i` of `c`, or a dead cell outside the row. */
  function CellOrDead(c: seq<bool>, i: int): bool
  {
    if 0 <= i < |c| then c[i] else false
  }

  /** Reference automaton on a row padded with a dead cell at each end. */
  function ZeroPadded(rule: Rule, c: seq<bool>): (next: seq<bool>)
  {
    seq(|c|, i requires 0 <= i < |c| => Apply(rule, Neighborhood(CellOrDead(c, i - 1), c[i], CellOrDead(c, i + 1))))
  }

  /** The cell before `i` on a ring of `n` cells: `i - 1`, and the last cell before the first. */
  function RingPrev(i: int, n: int): (k: int)
    requires 0 <= i < n
    ensures k == if i == 0 then n - 1 else i - 1
  {
    (i + n - 1) % n
  }

  /** The cell after `i` on a ring of `n` cells: `i + 1`, and the first cell after the last. */
  function RingNext(i: int, n: int): (k: int)
    requires 0 <= i < n
    ensures k == if i == n - 1 then 0 else i + 1
  {
    (i + 1) % n
  }

  /** Reference automaton on a ring: the neighbours of an end cell come from the other end. */
  function Circular(rule: Rule, c: seq<bool>): (next: seq<bool>)
  {
    seq(|c|, i requires 0 <= i < |c| => Apply(rule, Neighborhood(c[RingPrev(i, |c|)], c[i], c[RingNext(i, |c|)])))
  }

  /** Crop computes the automaton over a row bordered by dead cells. */
  lemma CropIsZeroPadded(rule: Rule, front: seq<bool>)
    requires |front| >= 2
    ensures NextGen(rule, Crop, front) == ZeroPadded(rule, front)
  {
    var next, ref := NextGen(rule, Crop, front), ZeroPadded(rule, front);
    forall i | 0 <= i < |front| ensures next[i] == ref[i] {
      CropCell(rule, front, i);
    }
  }

  lemma CropCell(rule: Rule, front: seq<bool>, i: int)
    requires |front| >= 2 && 0 <= i < |front|
    ensures NextGen(rule, Crop, front)[i] == ZeroPadded(rule, front)[i]
  {
    var n := |front|;
    var w := Neighborhood(CellOrDead(front, i - 1), front[i], CellOrDead(front, i + 1));
    assert ZeroPadded(rule, front)[i] == Apply(rule, w);
    if i == 0 {
      NextGenEnds(rule, Crop, front);
      assert w == Neighborhood(false, front[0], front[1]);
    } else if i == n - 1 {
      NextGenEnds(rule, Crop, front);
      assert w == Neighborhood(front[n - 2], front[n - 1], false);
    } else {
      NextGenCell(rule, Crop, front, i);
      assert w == Neighborhood(front[i - 1], front[i], front[i + 1]);
    }
  }

  /** Wrap computes the automaton over the row closed into a ring. */
  lemma WrapIsCircular(rule: Rule, front: seq<bool>)
    requires |front| >= 2
    ensures NextGen(rule, Wrap, front) == Circular(rule, front)
  {
    var next, ref := NextGen(rule, Wrap, front), Circular(rule, front);
    forall i | 0 <= i < |front| ensures next[i] == ref[i] {
      WrapCell(rule, front, i);
    }
  }

  lemma WrapCell(rule: Rule, front: seq<bool>, i: int)
    requires |front| >= 2 && 0 <= i < |front|
    ensures NextGen(rule, Wrap, front)[i] == Circular(rule, front)[i]
  {
    var n := |front|;
    var w := Neighborhood(front[RingPrev(i, n)], front[i], front[RingNext(i, n)]);
    assert Circular(rule, front)[i] == Apply(rule, w);
    if i == 0 {
      NextGenEnds(rule, Wrap, front);
      assert w == Neighborhood(front[n - 1], front[0], front[1]);
    } else if i == n - 1 {
      NextGenEnds(rule, Wrap, front);
      assert w == Neighborhood(front[n - 2], front[n - 1], front[0]);
    } else {
      NextGenCell(rule, Wrap, front, i);
      assert w == Neighborhood(front[i - 1], front[i], front[i + 1]);
    }
  }

  /** Writes the next generation of `front` into `back`, discarding whatever `back` held, and
      hands the two buffers back swapped: the one just written is the new front and the one
      just read is the new scratch buffer. */
  method Step(front: Cells, back: Cells, settings: Settings) returns (newFront: Cells, newBack: Cells)
    requires front != back
    requires |front.values| >= 2
    modifies back
    ensures newFront == back && newBack == front
    ensures front.values == old(front.values)
    ensures back.values == NextGen(settings.rule, settings.edgeHandling, front.values)
  {
    var rule := settings.rule;
    var edges := BoundaryCells(rule, settings.edgeHandling, Edges(front.values));
    var middle := Neighborhoods(front.values);

    back.values := [];
    back.values := back.values + [edges.0];
    var i := 0;
    while i < |middle|
      invariant 0 <= i <= |middle|
      invariant back.values == [edges.0] + Interior(rule, middle[..i])
    {
      assert middle[..i + 1][..i] == middle[..i];
      back.values := back.values + [Apply(rule, middle[i])];
      i := i + 1;
    }
    assert middle[..i] == middle;
    back.values := back.values + [edges.1];
    newFront, newBack := back, front;
  }
}
