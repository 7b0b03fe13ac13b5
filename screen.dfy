/** The geometry of the 80x25 text screen: cursor positions, the row-major
    advance with wraparound that follows every character, and the effect on the
    cell buffer of writing a string from some position onwards.
 */
module Screen {
  import opened VgaEntry

  /** `VGA_WIDTH` and `VGA_HEIGHT`. */
  const Width: nat := 80
  const Height: nat := 25

  /** The number of cells of the screen buffer. */
  const Cells: nat := Width * Height

  /** The pair `terminal_row`, `terminal_column`. */
  datatype Cursor = Cursor(row: nat, column: nat)

  predicate InBounds(c: Cursor)
  {
    c.row < Height && c.column < Width
  }

  /** The buffer index `row * VGA_WIDTH + column` of a cursor position. */
  function Linear(c: Cursor): (k: nat)
    requires InBounds(c)
    ensures k < Cells
  {
    c.row * Width + c.column
  }

  /** The cursor position of a buffer index. */
  function FromLinear(k: nat): (c: Cursor)
    requires k < Cells
    ensures InBounds(c) && Linear(c) == k
  {
    Cursor(k / Width, k % Width)
  }

  /** Two in-bounds positions with the same buffer index are the same position. */
  lemma LinearInjective(c1: Cursor, c2: Cursor)
    requires InBounds(c1) && InBounds(c2)
    ensures Linear(c1) == Linear(c2) <==> c1 == c2
  {
  }

  /** The cursor update at the end of `putc`: the column moves right, wrapping to
      column 0 of the next row at the right edge, and the row wraps to the top
      at the bottom edge (there is no scrolling). */
  function Advance(c: Cursor): (next: Cursor)
    requires InBounds(c)
    ensures InBounds(next)
    ensures Linear(next) == (Linear(c) + 1) % Cells
  {
    if c.column + 1 == Width then
      if c.row + 1 == Height then Cursor(0, 0) else Cursor(c.row + 1, 0)
    else
      Cursor(c.row, c.column + 1)
  }

  /** The cursor after `n` calls of `putc`. */
  function AdvanceBy(c: Cursor, n: nat): (next: Cursor)
    requires InBounds(c)
    ensures InBounds(next)
  {
    if n == 0 then c else Advance(AdvanceBy(c, n - 1))
  }

  /** `n` characters move the buffer index forward by `n`, modulo the screen size. */
  lemma {:induction false} AdvanceByLinear(c: Cursor, n: nat)
    requires InBounds(c)
    ensures Linear(AdvanceBy(c, n)) == (Linear(c) + n) % Cells
  {
    if n > 0 {
      AdvanceByLinear(c, n - 1);
      WrapSucc(Linear(c) + n - 1);
    }
  }

  /** A full screen of characters brings the cursor back to where it started. */
  lemma AdvanceByFullScreen(c: Cursor)
    requires InBounds(c)
    ensures AdvanceBy(c, Cells) == c
  {
    AdvanceByLinear(c, Cells);
    DivModUnique(Linear(c) + Cells, 1, Linear(c));
    LinearInjective(AdvanceBy(c, Cells), c);
  }

  /** Reducing before or after adding one gives the same index. */
  lemma WrapSucc(x: nat)
    ensures (x % Cells + 1) % Cells == (x + 1) % Cells
  {
  }

  /** The remainder of `q * Cells + r` is `r`, for `r` below `Cells`. */
  lemma DivModUnique(x: nat, q: nat, r: nat)
    requires r < Cells && x == q * Cells + r
    ensures x % Cells == r
  {
  }

  /** How many cells after buffer index `p`, going round the screen, index `k` lies. */
  function Offset(p: nat, k: nat): (d: nat)
    requires p < Cells && k < Cells
    ensures d < Cells && (p + d) % Cells == k
  {
    if p <= k then k - p else k + Cells - p
  }

  /** The `i`th cell after `p`, for `i` below the screen size, is at offset `i`. */
  lemma OffsetOf(p: nat, i: nat)
    requires p < Cells && i < Cells
    ensures Offset(p, (p + i) % Cells) == i
  {
  }

  /** The cell buffer after writing `s` in colour `attr` character by character,
      starting at buffer index `p` and wrapping round the screen. */
  function WriteString(cells: seq<bv16>, p: nat, s: seq<bv8>, attr: bv8): (r: seq<bv16>)
    requires |cells| == Cells && p < Cells
    ensures |r| == Cells
    decreases |s|
  {
    if s == [] then cells
    else
      var n := |s| - 1;
      WriteString(cells, p, s[..n], attr)[(p + n) % Cells := Entry(s[n], attr)]
  }

  /** Writing one more character of `s` writes it at the next index. */
  lemma WriteStringStep(cells: seq<bv16>, p: nat, s: seq<bv8>, i: nat, attr: bv8)
    requires |cells| == Cells && p < Cells && i < |s|
    ensures WriteString(cells, p, s[..i + 1], attr) ==
            WriteString(cells, p, s[..i], attr)[(p + i) % Cells := Entry(s[i], attr)]
  {
    assert s[..i + 1][..i] == s[..i];
  }

  /** For a string no longer than the screen, the cell at offset `d` from the
      start holds the `d`th character if there is one, and is untouched
      otherwise. */
  lemma {:induction false} WriteStringAt(cells: seq<bv16>, p: nat, s: seq<bv8>, attr: bv8, k: nat)
    requires |cells| == Cells && p < Cells && |s| <= Cells && k < Cells
    ensures WriteString(cells, p, s, attr)[k] ==
            if Offset(p, k) < |s| then Entry(s[Offset(p, k)], attr) else cells[k]
  {
    if s != [] {
      var n := |s| - 1;
      var s' := s[..n];
      WriteStringAt(cells, p, s', attr, k);
      OffsetOf(p, n);
      if k != (p + n) % Cells {
        assert Offset(p, k) != n;
      }
    }
  }

  /** The same, stated per character: the `i`th character of a string no longer
      than the screen lands `i` cells after the start, and every cell the
      string does not reach keeps its contents. */
  lemma WriteStringCells(cells: seq<bv16>, p: nat, s: seq<bv8>, attr: bv8)
    requires |cells| == Cells && p < Cells && |s| <= Cells
    ensures forall i :: 0 <= i < |s| ==> WriteString(cells, p, s, attr)[(p + i) % Cells] == Entry(s[i], attr)
    ensures forall k :: 0 <= k < Cells && Offset(p, k) >= |s| ==> WriteString(cells, p, s, attr)[k] == cells[k]
  {
    forall i | 0 <= i < |s|
      ensures WriteString(cells, p, s, attr)[(p + i) % Cells] == Entry(s[i], attr)
    {
      WriteStringAt(cells, p, s, attr, (p + i) % Cells);
      OffsetOf(p, i);
    }
    forall k | 0 <= k < Cells && Offset(p, k) >= |s|
      ensures WriteString(cells, p, s, attr)[k] == cells[k]
    {
      WriteStringAt(cells, p, s, attr, k);
    }
  }
}
