/** The simulation loop: one row drawn per generation, the next generation computed into
    the spare buffer, and the two buffers swapped, until the generation count is reached or
    an input event arrives. */
module Runner {
  import opened Rules
  import opened CellSequence
  import opened Stepper

  /** The row `k` generations after `initial`; any number of steps keeps the width. */
  function Generation(settings: Settings, initial: seq<bool>, k: nat): (cells: seq<bool>)
    requires k == 0 || |initial| >= 2
    ensures |cells| == |initial|
  {
    if k == 0 then initial
    else NextGen(settings.rule, settings.edgeHandling, Generation(settings, initial, k - 1))
  }

  /** One more generation is one more step. */
  lemma GenerationSucc(settings: Settings, initial: seq<bool>, k: nat)
    requires |initial| >= 2
    ensures Generation(settings, initial, k + 1)
      == NextGen(settings.rule, settings.edgeHandling, Generation(settings, initial, k))
  {
  }

  /** Running `j` generations and then `k` more is running `j + k`. */
  lemma {:induction false} GenerationAdd(settings: Settings, initial: seq<bool>, j: nat, k: nat)
    requires |initial| >= 2
    ensures Generation(settings, Generation(settings, initial, j), k) == Generation(settings, initial, j + k)
  {
    if k > 0 {
      GenerationAdd(settings, initial, j, k - 1);
    }
  }

  /** What is written for one generation: a line feed and a carriage return, then the row. */
  function Frame(cells: seq<bool>): string
  {
    "\n\r" + Render(cells)
  }

  /** The frames drawn for the first `n` generations, in order. */
  function Frames(settings: Settings, initial: seq<bool>, n: nat): (fs: seq<string>)
    requires n == 0 || |initial| >= 2
    ensures |fs| == n
  {
    if n == 0 then [] else Frames(settings, initial, n - 1) + [Frame(Generation(settings, initial, n - 1))]
  }

  /** Frame `j` is generation `j` drawn. */
  lemma {:induction false} FramesAt(settings: Settings, initial: seq<bool>, n: nat)
    requires n == 0 || |initial| >= 2
    ensures forall j :: 0 <= j < n ==> Frames(settings, initial, n)[j] == Frame(Generation(settings, initial, j))
  {
    if n > 0 {
      FramesAt(settings, initial, n - 1);
    }
  }

  /** No input event was seen by the polls after steps `0 .. n - 1`. */
  predicate Quiet(keyPending: nat -> bool, n: nat)
  {
    forall j :: 0 <= j < n ==> !keyPending(j)
  }

  /** Draws and steps at most `settings.generations` times. Before each step the current row is
      drawn; after it, `keyPending(i)` says whether the poll that follows step `i` saw an input
      event, which ends the run. The frames drawn are generations `0 .. steps - 1`, so the last row
      computed is never drawn, and the buffer handed back holds generation `steps`. */
  method Run(initial: Cells, settings: Settings, keyPending: nat -> bool)
    returns (frames: seq<string>, steps: nat, front: Cells)
    requires settings.generations == 0 || |initial.values| >= 2
    modifies initial
    ensures steps <= settings.generations
    ensures 0 < steps ==> Quiet(keyPending, steps - 1)
    ensures steps < settings.generations ==> 0 < steps && keyPending(steps - 1)
    ensures frames == Frames(settings, old(initial.values), steps)
    ensures forall j :: 0 <= j < steps ==> frames[j] == Frame(Generation(settings, old(initial.values), j))
    ensures front.values == Generation(settings, old(initial.values), steps)
  {
    ghost var start := initial.values;
    front := initial;
    var back := new Cells(front.values);
    frames, steps := [], 0;
    while steps < settings.generations
      invariant steps <= settings.generations
      invariant front != back
      invariant front == initial || fresh(front)
      invariant back == initial || fresh(back)
      invariant Quiet(keyPending, steps)
      invariant frames == Frames(settings, start, steps)
      invariant front.values == Generation(settings, start, steps)
    {
      frames := frames + [Frame(front.values)];
      front, back := Step(front, back, settings);
      GenerationSucc(settings, start, steps);
      steps := steps + 1;
      if keyPending(steps - 1) {
        break;
      }
    }
    FramesAt(settings, start, steps);
  }

  /** Rule 90 from a single live cell with dead cells beyond the edges: each cell becomes the
      exclusive or of its neighbours. */
  lemma Rule90Scenario()
    ensures Parse("00100") == Ok([false, false, true, false, false])
    ensures var settings := Settings(Rule(90), Crop, 2);
      && Digits(Generation(settings, Parse("00100").value, 1)) == "01010"
      && Digits(Generation(settings, Parse("00100").value, 2)) == "10001"
  {
    var g0, g1, g2 := Rule90Rows();
    assert IsBinary("00100");
    assert Parse("00100").value == g0;
    assert Digits(g1) == "01010";
    assert Digits(g2) == "10001";
  }

  /** The first two generations of rule 90 under Crop from `00100`. */
  lemma Rule90Rows() returns (g0: seq<bool>, g1: seq<bool>, g2: seq<bool>)
    ensures g0 == [false, false, true, false, false]
    ensures g1 == [false, true, false, true, false]
    ensures g2 == [true, false, false, false, true]
    ensures Generation(Settings(Rule(90), Crop, 2), g0, 1) == g1
    ensures Generation(Settings(Rule(90), Crop, 2), g0, 2) == g2
  {
    g0, g1, g2 := [false, false, true, false, false], [false, true, false, true, false], [true, false, false, false, true];
    var settings := Settings(Rule(90), Crop, 2);
    Rule90Padded(g0, g1);
    Rule90Padded(g1, g2);
    GenerationSucc(settings, g0, 0);
    GenerationSucc(settings, g0, 1);
  }

  /** One Crop step of rule 90 maps `c` to `next` when each cell of `next` is the exclusive or
      of its two zero-padded neighbours in `c`. */
  lemma Rule90Padded(c: seq<bool>, next: seq<bool>)
    requires |c| >= 2 && |next| == |c|
    requires forall i :: 0 <= i < |c| ==> next[i] == (CellOrDead(c, i - 1) != CellOrDead(c, i + 1))
    ensures NextGen(Rule(90), Crop, c) == next
  {
    CropIsZeroPadded(Rule(90), c);
    forall i | 0 <= i < |c| ensures ZeroPadded(Rule(90), c)[i] == next[i] {
      WolframExamples(Neighborhood(CellOrDead(c, i - 1), c[i], CellOrDead(c, i + 1)));
    }
  }
}
