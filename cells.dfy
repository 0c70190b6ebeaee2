/** The row of cells of one generation: parsing it from text, its sliding 3-cell
    windows, its two edge pairs, its on-screen form, and the buffer object that
    holds one generation. */
module CellSequence {
  import opened Rules

  datatype Option<T> = None | Some(value: T)

  /** The outcome of parsing: the cells, or one of the two error messages. */
  datatype Result<T> = Ok(value: T) | Err(error: string)

  /** An unsigned 16-bit number (the terminal-derived width of a random row). */
  type U16 = x: int | 0 <= x < 0x1_0000

  const TooShort: string := "Initial configuration must be at least 3 cells wide"
  const NotBinary: string := "Initial configuration must only contain '0' or '1'"

  /** A buffer holding one generation; the stepper clears and refills it in place. */
  class Cells {
    var values: seq<bool>

    constructor (values: seq<bool>)
      ensures this.values == values
    {
      this.values := values;
    }

    /** A row of `width` cells filled from the random source `coin`, cell `i` taking `coin(i)`. */
    static method NewRandom(width: U16, coin: nat -> bool) returns (c: Cells)
      ensures fresh(c) && |c.values| == width
      ensures forall i :: 0 <= i < width ==> c.values[i] == coin(i)
    {
      var cells := seq(width, _ => false);
      var i := 0;
      while i < width
        invariant 0 <= i <= width && |cells| == width
        invariant forall j :: 0 <= j < i ==> cells[j] == coin(j)
      {
        cells := cells[i := coin(i)];
        i := i + 1;
      }
      c := new Cells(cells);
    }
  }

  /** All overlapping 3-cell windows, left to right (none for fewer than 3 cells). */
  function Neighborhoods(c: seq<bool>): (ws: seq<Neighborhood>)
    ensures |ws| == if |c| < 3 then 0 else |c| - 2
    decreases |c|
  {
    if |c| < 3 then [] else [Neighborhood(c[0], c[1], c[2])] + Neighborhoods(c[1..])
  }

  /** Window `i` is cells `i`, `i + 1` and `i + 2`. */
  lemma {:induction false} NeighborhoodsAt(c: seq<bool>)
    ensures forall i {:trigger Neighborhoods(c)[i]} :: 0 <= i < |Neighborhoods(c)| ==>
      Neighborhoods(c)[i] == Neighborhood(c[i], c[i + 1], c[i + 2])
    decreases |c|
  {
    if |c| >= 3 {
      NeighborhoodsAt(c[1..]);
    }
  }

  /** The first two and the last two cells; a row shorter than 2 has no edges. */
  function Edges(c: seq<bool>): ((bool, bool), (bool, bool))
    requires |c| >= 2
  {
    ((c[0], c[1]), (c[|c| - 2], c[|c| - 1]))
  }

  /** The edge pairs are the first and the last two-cell chunks of the row, and the row is
      exactly its edges around its middle. */
  lemma EdgesAreEndChunks(c: seq<bool>)
    requires |c| >= 2
    ensures c[..2] == [Edges(c).0.0, Edges(c).0.1]
    ensures c[|c| - 2..] == [Edges(c).1.0, Edges(c).1.1]
    ensures |c| >= 4 ==> c == [Edges(c).0.0, Edges(c).0.1] + c[2..|c| - 2] + [Edges(c).1.0, Edges(c).1.1]
  {
    var e := Edges(c);
    assert c[..2] == [e.0.0, e.0.1];
    assert c[|c| - 2..] == [e.1.0, e.1.1];
    if |c| >= 4 {
      assert c == c[..2] + c[2..|c| - 2] + c[|c| - 2..];
    }
  }

  /** Every cell strictly between the edges is the centre of exactly one window, the
      first window extends the left edge pair and the last extends the right one. */
  lemma WindowsAndEdges(c: seq<bool>)
    requires |c| >= 3
    ensures forall i :: 1 <= i < |c| - 1 ==> Neighborhoods(c)[i - 1].center == c[i]
    ensures Neighborhoods(c)[0].left == Edges(c).0.0 && Neighborhoods(c)[0].center == Edges(c).0.1
    ensures Neighborhoods(c)[|c| - 3].center == Edges(c).1.0
    ensures Neighborhoods(c)[|c| - 3].right == Edges(c).1.1
  {
    var ws := Neighborhoods(c);
    NeighborhoodsAt(c);
    assert ws[0] == Neighborhood(c[0], c[1], c[2]);
    assert ws[|c| - 3] == Neighborhood(c[|c| - 3], c[|c| - 2], c[|c| - 1]);
  }

  // ---------------------------------------------------------------- parsing

  /** Number of bytes of the UTF-8 encoding of one character. */
  function Utf8Width(ch: char): (w: nat)
    ensures 1 <= w <= 4
    ensures w == 1 <==> ch as int < 0x80
  {
    if ch as int < 0x80 then 1
    else if ch as int < 0x800 then 2
    else if ch as int < 0x1_0000 then 3
    else 4
  }

  /** Length of a string in UTF-8 bytes: never below its character count, and equal to it
      exactly when every character is ASCII. */
  function Utf8Len(s: string): (n: nat)
    ensures n >= |s|
    ensures n == |s| <==> forall i :: 0 <= i < |s| ==> s[i] as int < 0x80
  {
    if s == [] then 0 else Utf8Width(s[0]) + Utf8Len(s[1..])
  }

  predicate IsBinary(s: string)
  {
    forall i :: 0 <= i < |s| ==> s[i] == '0' || s[i] == '1'
  }

  function CellOf(ch: char): Option<bool>
  {
    match ch
    case '0' => Some(false)
    case '1' => Some(true)
    case _ => None
  }

  /** Maps every character to a cell, failing on the first that is not `0` or `1`. */
  function CellsOf(s: string): (r: Option<seq<bool>>)
    ensures r.Some? <==> IsBinary(s)
    ensures r.Some? ==> |r.value| == |s| && forall i :: 0 <= i < |s| ==> r.value[i] == (s[i] == '1')
  {
    if s == [] then Some([])
    else match (CellOf(s[0]), CellsOf(s[1..]))
      case (Some(b), Some(rest)) => Some([b] + rest)
      case _ => None
  }

  /** Parses a row from text. The length test is on UTF-8 bytes and comes first; then every
      character must be `0` or `1`. On success there is one cell per character, in order. */
  function Parse(s: string): (r: Result<seq<bool>>)
    ensures r.Ok? <==> Utf8Len(s) >= 3 && IsBinary(s)
    ensures Utf8Len(s) < 3 ==> r == Err(TooShort)
    ensures Utf8Len(s) >= 3 && !IsBinary(s) ==> r == Err(NotBinary)
    ensures r.Ok? ==> |r.value| == |s| == Utf8Len(s) >= 3
    ensures r.Ok? ==> forall i :: 0 <= i < |s| ==> r.value[i] == (s[i] == '1')
  {
    if Utf8Len(s) < 3 then Err(TooShort)
    else match CellsOf(s)
      case Some(cells) => Ok(cells)
      case None => Err(NotBinary)
  }

  /** The row written with `1` for a live cell and `0` for a dead one. */
  function Digits(c: seq<bool>): string
  {
    seq(|c|, i requires 0 <= i < |c| => if c[i] then '1' else '0')
  }

  /** Parsing inverts `Digits` on rows of at least 3 cells, and every string that parses
      is the `Digits` of its cells. */
  lemma ParseDigits(c: seq<bool>, s: string)
    ensures |c| >= 3 ==> Parse(Digits(c)) == Ok(c)
    ensures Parse(s).Ok? ==> Digits(Parse(s).value) == s
  {
    if |c| >= 3 {
      var d := Digits(c);
      assert IsBinary(d);
      assert Parse(d).value == c;
    }
  }

  /** Texts that show the order of the two checks and that the length is counted in bytes. */
  lemma ParseExamples()
    ensures Parse("101") == Ok([true, false, true])
    ensures Parse("10x") == Err(NotBinary)
    ensures Parse("11") == Err(TooShort)
    ensures Parse("1x") == Err(TooShort)
    ensures Parse("\U{e9}0") == Err(NotBinary)
    ensures Parse("\U{e9}") == Err(TooShort)
  {
    assert IsBinary("101");
    assert Parse("101").value == [true, false, true];
    assert !IsBinary("10x") by { assert "10x"[2] == 'x'; }
    assert !IsBinary("\U{e9}0") by { assert "\U{e9}0"[0] == '\U{e9}'; }
    assert Utf8Len("\U{e9}0") == 3;
  }

  // ---------------------------------------------------------------- display

  const LiveGlyph: string := "\U{2588}\U{2588}"
  const DeadGlyph: string := "\U{2576}\U{2574}"

  /** Each cell is drawn two columns wide. */
  function Glyph(b: bool): string
  {
    if b then LiveGlyph else DeadGlyph
  }

  /** The row as text, two characters per cell. */
  function Render(c: seq<bool>): (r: string)
    ensures |r| == 2 * |c|
  {
    if c == [] then [] else Glyph(c[0]) + Render(c[1..])
  }

  /** Cell `i` is drawn at columns `2i` and `2i + 1`, so cells keep their order. */
  lemma {:induction false} RenderAt(c: seq<bool>, i: nat)
    requires i < |c|
    ensures Render(c)[2 * i..2 * i + 2] == Glyph(c[i])
  {
    if i > 0 {
      RenderAt(c[1..], i - 1);
      assert Render(c)[2 * i..2 * i + 2] == Render(c[1..])[2 * (i - 1)..2 * (i - 1) + 2];
    }
  }

  /** Reads a rendered row back, two characters per cell. */
  ghost function Unrender(r: string): Option<seq<bool>>
    decreases |r|
  {
    if r == [] then Some([])
    else if |r| < 2 then None
    else
      var cell := if r[..2] == LiveGlyph then Some(true)
        else if r[..2] == DeadGlyph then Some(false)
        else None;
      match (cell, Unrender(r[2..]))
      case (Some(b), Some(rest)) => Some([b] + rest)
      case _ => None
  }

  /** The rendering loses nothing: the two glyphs differ and cells keep their order. */
  lemma {:induction false} RenderRoundTrip(c: seq<bool>)
    ensures Unrender(Render(c)) == Some(c)
  {
    if c != [] {
      var r := Render(c);
      assert r[..2] == Glyph(c[0]);
      assert LiveGlyph != DeadGlyph by { assert LiveGlyph[0] != DeadGlyph[0]; }
      assert r[2..] == Render(c[1..]);
      RenderRoundTrip(c[1..]);
      assert [c[0]] + c[1..] == c;
    }
  }
}
