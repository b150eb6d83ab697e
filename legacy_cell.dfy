/**
 * The older tree's `Cell`: a grid cell with a row, a column and a state, all of which can be
 * reassigned. Equality and the hash code look at the coordinates only, so that hash-based
 * collections identify a cell by where it is.
 */
module LegacyCell {
  import opened Grid
  import opened JavaText

  /** Java's `int` arithmetic: keeps the value modulo 2^32, read as a signed number. */
  function Wrap(x: int): (w: Int32)
    ensures (w - x) % 0x1_0000_0000 == 0
  {
    var m := x % 0x1_0000_0000;
    if m < 0x8000_0000 then m else m - 0x1_0000_0000
  }

  /** `Objects.hash(row, col)`: `31 * (31 * 1 + row) + col`, each step in `int` arithmetic. */
  function PairHash(row: Int32, col: Int32): Int32 {
    Wrap(Wrap(31 * Wrap(31 + row)) + col)
  }

  /** Two numbers that agree modulo 2^32 wrap to the same `int`. */
  lemma WrapCongruent(x: int, y: int)
    requires (x - y) % 0x1_0000_0000 == 0
    ensures Wrap(x) == Wrap(y)
  {
    var k := (x - y) / 0x1_0000_0000;
    assert x == y + k * 0x1_0000_0000;
    assert x % 0x1_0000_0000 == y % 0x1_0000_0000 by {
      ModShift(y, k);
    }
  }

  lemma ModShift(y: int, k: int)
    ensures (y + k * 0x1_0000_0000) % 0x1_0000_0000 == y % 0x1_0000_0000
  {
  }

  /** The step-by-step wrapping gives the exact value `961 + 31 * row + col`, wrapped once. */
  lemma PairHashExact(row: Int32, col: Int32)
    ensures PairHash(row, col) == Wrap(961 + 31 * row + col)
  {
    var a := Wrap(31 + row);
    var d := a - (31 + row);
    assert d % 0x1_0000_0000 == 0;
    var b := Wrap(31 * a);
    assert 31 * a - 31 * (31 + row) == 31 * d;
    MultipleScaled(d, 31);
    assert (b - 31 * (31 + row)) % 0x1_0000_0000 == 0 by {
      SumMultiple(b - 31 * a, 31 * d);
    }
    var c := b + col;
    assert (c - (961 + 31 * row + col)) % 0x1_0000_0000 == 0;
    WrapCongruent(c, 961 + 31 * row + col);
  }

  lemma MultipleScaled(d: int, n: int)
    requires d % 0x1_0000_0000 == 0
    ensures (n * d) % 0x1_0000_0000 == 0
  {
    var k := d / 0x1_0000_0000;
    assert n * d == (n * k) * 0x1_0000_0000;
  }

  lemma SumMultiple(x: int, y: int)
    requires x % 0x1_0000_0000 == 0 && y % 0x1_0000_0000 == 0
    ensures (x + y) % 0x1_0000_0000 == 0
  {
    var i, j := x / 0x1_0000_0000, y / 0x1_0000_0000;
    assert x + y == (i + j) * 0x1_0000_0000;
  }

  /** On coordinates small enough for nothing to wrap, the hash is `961 + 31 * row + col` itself. */
  lemma PairHashNoWrap(row: Int32, col: Int32)
    requires 0 <= row && 0 <= col && 961 + 31 * row + col < 0x8000_0000
    ensures PairHash(row, col) == 961 + 31 * row + col
  {
    PairHashExact(row, col);
  }

  /** `toString`: `Cell(row,col)`. */
  function CellText(row: Int32, col: Int32): string {
    "Cell(" + (Decimal(row) + "," + Decimal(col)) + ")"
  }

  lemma Framed<T>(a: seq<T>, m: seq<T>, z: seq<T>)
    ensures (a + m + z)[..|a|] == a && (a + m + z)[|a|..|a| + |m|] == m && (a + m + z)[|a| + |m|..] == z
  {
  }

  /** The row and the column, with a comma between them, split back into the two numbers. */
  lemma CoordinatesSplit(row: Int32, col: Int32)
    ensures Split(Decimal(row) + "," + Decimal(col), ',') == [Decimal(row), Decimal(col)]
  {
    var r, c := Decimal(row), Decimal(col);
    FieldsJoin(r, c, ',');
    FieldsOne(r, ',');
    FieldsOne(c, ',');
    assert (r + [','] + c)[|r|] == ',';
  }

  /** The text is `Cell(`, then the row and the column split by a comma, which parse back, then `)`. */
  lemma CellTextNames(row: Int32, col: Int32)
    ensures var s := CellText(row, col);
      && |s| >= 7 && s[..5] == "Cell(" && s[|s| - 1..] == ")"
      && Split(s[5..|s| - 1], ',') == [Decimal(row), Decimal(col)]
      && ParseInt(Decimal(row)) == Number(row) && ParseInt(Decimal(col)) == Number(col)
  {
    var m := Decimal(row) + "," + Decimal(col);
    Framed("Cell(", m, ")");
    CoordinatesSplit(row, col);
    IntRoundTrip(row);
    IntRoundTrip(col);
  }

  class Cell {
    var row: Int32
    var col: Int32
    var state: CellState

    /** A new cell is a PATH cell. */
    constructor (row: Int32, col: Int32)
      ensures this.row == row && this.col == col && state == Path
    {
      this.row := row;
      this.col := col;
      state := Path;
    }

    method SetRow(row: Int32)
      modifies this`row
      ensures this.row == row
    {
      this.row := row;
    }

    method SetCol(col: Int32)
      modifies this`col
      ensures this.col == col
    {
      this.col := col;
    }

    method SetState(state: CellState)
      modifies this`state
      ensures this.state == state
    {
      this.state := state;
    }

    /** `equals`: the same object, or another cell with the same row and column; the state plays no part. */
    function Equals(o: Cell?): (eq: bool)
      reads this, o
      ensures eq <==> o != null && row == o.row && col == o.col
    {
      if this == o then true
      else if o == null then false
      else row == o.row && col == o.col
    }

    /** `hashCode`: the hash of the coordinates. */
    function HashCode(): (h: Int32)
      reads this
    {
      PairHash(row, col)
    }

    /** `toString`. */
    function ToString(): (s: string)
      reads this
    {
      CellText(row, col)
    }
  }

  /** Every cell equals itself. */
  lemma EqualsReflexive(a: Cell)
    ensures a.Equals(a)
  {
  }

  lemma EqualsSymmetric(a: Cell, b: Cell)
    ensures a.Equals(b) <==> b.Equals(a)
  {
  }

  lemma EqualsTransitive(a: Cell, b: Cell, c: Cell)
    requires a.Equals(b) && b.Equals(c)
    ensures a.Equals(c)
  {
  }

  /** Equal cells have equal hash codes, whatever their states. */
  lemma EqualHash(a: Cell, b: Cell)
    requires a.Equals(b)
    ensures a.HashCode() == b.HashCode()
  {
  }
}
