/** The rule of an elementary cellular automaton: for each of the 8 possible 3-cell
    neighbourhoods, the value the centre cell takes in the next generation, packed into
    an 8-bit Wolfram code. */
module Rules {

  /** One 3-cell neighbourhood `[left, center, right]`. */
  datatype Neighborhood = Neighborhood(left: bool, center: bool, right: bool)

  /** A rule is its Wolfram code, an unsigned 8-bit value. */
  datatype Rule = Rule(code: bv8)

  /** A cell as an 8-bit 0 or 1 (`u8::from(bool)`). */
  function Bit(b: bool): bv8
  {
    if b then 1 else 0
  }

  /** The neighbourhood read as a 3-bit number, the left cell most significant. */
  function Index(n: Neighborhood): (k: nat)
    ensures k < 8
  {
    (if n.left then 4 else 0) + (if n.center then 2 else 0) + (if n.right then 1 else 0)
  }

  /** The neighbourhood whose 3-bit number is `k`. */
  function NeighborhoodAt(k: nat): (n: Neighborhood)
    requires k < 8
    ensures Index(n) == k
  {
    Neighborhood(k >= 4, k % 4 >= 2, k % 2 == 1)
  }

  /** Distinct neighbourhoods have distinct numbers, so `Index` and `NeighborhoodAt` are inverse. */
  lemma NeighborhoodAtIndex(n: Neighborhood)
    ensures NeighborhoodAt(Index(n)) == n
  {
  }

  /** Applies the rule: the mask `1 << right << (center << 1) << (left << 2)` selects one bit
      of the code, and the new cell is set when that bit is. */
  function Apply(rule: Rule, n: Neighborhood): bool
  {
    var n3, n2, n1 := Bit(n.left), Bit(n.center), Bit(n.right);
    rule.code & (1 << n1 << (n2 << 1) << (n3 << 2)) != 0
  }

  /** Whether bit `k` of `code` is set. */
  predicate BitAt(code: bv8, k: nat)
    requires k < 8
  {
    (code >> k) & 1 == 1
  }

  /** The result of `Apply` is bit `4*left + 2*center + right` of the code. */
  lemma ApplyIsBit(rule: Rule, n: Neighborhood)
    ensures Apply(rule, n) <==> BitAt(rule.code, Index(n))
  {
  }

  /** Code 0 never sets a cell, code 255 always does, and code 2 sets it only for
      the neighbourhood `[false, false, true]`; code 90 is the exclusive or of the two neighbours. */
  lemma WolframExamples(n: Neighborhood)
    ensures !Apply(Rule(0), n)
    ensures Apply(Rule(255), n)
    ensures Apply(Rule(2), n) <==> n == Neighborhood(false, false, true)
    ensures Apply(Rule(90), n) <==> n.left != n.right
  {
  }

  /** The truth table of a rule: entry `k` is the outcome for the neighbourhood numbered `k`. */
  function Outcomes(rule: Rule): (table: seq<bool>)
    ensures |table| == 8
    ensures forall n :: table[Index(n)] == Apply(rule, n)
  {
    var table := seq(8, k requires 0 <= k < 8 => Apply(rule, NeighborhoodAt(k)));
    assert forall n :: table[Index(n)] == Apply(rule, n) by {
      forall n ensures table[Index(n)] == Apply(rule, n) {
        NeighborhoodAtIndex(n);
      }
    }
    table
  }

  /** Packs a truth table of up to 8 outcomes into a code, entry `k` becoming bit `k`. */
  function Pack(table: seq<bool>): bv8
    requires |table| <= 8
  {
    if table == [] then 0 else (Pack(table[1..]) << 1) | (if table[0] then 1 else 0)
  }

  /** Bit `k` of the packed table is entry `k`, and no bit above the table is set. */
  lemma {:induction false} PackBits(table: seq<bool>)
    requires |table| <= 8
    ensures forall k :: 0 <= k < |table| ==> (BitAt(Pack(table), k) <==> table[k])
    ensures Pack(table) >> |table| == 0
  {
    if table != [] {
      var rest := Pack(table[1..]);
      PackBits(table[1..]);
      forall k | 0 <= k < |table| ensures BitAt(Pack(table), k) <==> table[k] {
        if k > 0 { ShiftInBit(rest, table[0], k); }
      }
      ShiftInTop(rest, table[0], |table|);
    }
  }

  /** Bit `k > 0` of `(x << 1) | b` is bit `k - 1` of `x`. */
  lemma ShiftInBit(x: bv8, b: bool, k: nat)
    requires 0 < k < 8
    ensures (((x << 1) | (if b then 1 else 0)) >> k) & 1 == (x >> (k - 1)) & 1
  {
  }

  /** Shifting in one bit moves the zero top part of `x` up by one position. */
  lemma ShiftInTop(x: bv8, b: bool, w: nat)
    requires 0 < w <= 8
    requires x >> (w - 1) == 0
    ensures ((x << 1) | (if b then 1 else 0)) >> w == 0
  {
  }

  /** The rule whose truth table is `table`. */
  function FromOutcomes(table: seq<bool>): (rule: Rule)
    requires |table| == 8
    ensures forall n :: Apply(rule, n) == table[Index(n)]
  {
    var rule := Rule(Pack(table));
    PackBits(table);
    forall n ensures Apply(rule, n) == table[Index(n)] {
      ApplyIsBit(rule, n);
    }
    rule
  }

  /** Two codes with the same 8 bits are equal. */
  lemma BitsDetermineCode(a: bv8, b: bv8)
    requires forall k :: 0 <= k < 8 ==> (BitAt(a, k) <==> BitAt(b, k))
    ensures a == b
  {
    assert BitAt(a, 0) == BitAt(b, 0) && BitAt(a, 1) == BitAt(b, 1);
    assert BitAt(a, 2) == BitAt(b, 2) && BitAt(a, 3) == BitAt(b, 3);
    assert BitAt(a, 4) == BitAt(b, 4) && BitAt(a, 5) == BitAt(b, 5);
    assert BitAt(a, 6) == BitAt(b, 6) && BitAt(a, 7) == BitAt(b, 7);
  }

  /** A Wolfram code and its truth table determine each other: every code is the packed
      table of its outcomes, and every table is the table of the code packed from it. */
  lemma {:induction false} OutcomesRoundTrip(rule: Rule, table: seq<bool>)
    requires |table| == 8
    ensures FromOutcomes(Outcomes(rule)) == rule
    ensures Outcomes(FromOutcomes(table)) == table
  {
    var t := Outcomes(rule);
    var back := FromOutcomes(t);
    forall k | 0 <= k < 8 ensures BitAt(back.code, k) <==> BitAt(rule.code, k) {
      var n := NeighborhoodAt(k);
      ApplyIsBit(rule, n);
      ApplyIsBit(back, n);
    }
    BitsDetermineCode(back.code, rule.code);
    var u := Outcomes(FromOutcomes(table));
    forall k | 0 <= k < 8 ensures u[k] == table[k] {
      assert u[Index(NeighborhoodAt(k))] == table[Index(NeighborhoodAt(k))];
    }
  }
}
