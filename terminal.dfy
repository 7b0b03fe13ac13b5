/** The console state of the VGA text driver: the cursor, the current
    attribute byte and the 80x25 cell buffer, with the operations that write
    characters to the screen.
 */
module Video {
  import opened VgaEntry
  import opened Screen

  /** The character `initialize_terminal` fills the screen with. */
  const Space: bv8 := ' ' as int as bv8

  /** The attribute byte set by `initialize_terminal`: white on black. */
  function DefaultColor(): (attr: bv8)
    ensures Foreground(attr) == White && Background(attr) == Black
  {
    EntryColor(White, Black)
  }

  /** A blank cell in the default colour. */
  function Blank(): (cell: bv16)
    ensures Character(cell) == Space && Attribute(cell) == DefaultColor()
  {
    Entry(Space, DefaultColor())
  }

  /** The globals `terminal_row`, `terminal_column`, `terminal_color` and the
      memory the pointer `terminal_buffer` designates. */
  class Terminal {
    var row: nat
    var column: nat
    var color: bv8
    var buffer: array<bv16>

    /** The buffer covers the whole screen and the cursor is on it. */
    ghost predicate Valid()
      reads this
    {
      buffer.Length == Cells && InBounds(Cursor(row, column))
    }

    /** The cursor as a `Screen.Cursor` value. */
    function Position(): Cursor
      reads this
    {
      Cursor(row, column)
    }

    /** The state before `initialize_terminal`: the globals are zero and the
        screen memory is mapped; its contents are not specified. */
    constructor ()
      ensures Valid() && fresh(buffer)
      ensures row == 0 && column == 0 && color == 0
    {
      row, column, color := 0, 0, 0;
      buffer := new bv16[Cells];
    }

    /** `putc`: store the character in the current colour at the cursor, then
        advance the cursor. */
    method Putc(c: bv8)
      requires Valid()
      modifies this`row, this`column, buffer
      ensures Valid() && color == old(color)
      ensures buffer[..] == old(buffer[..])[Linear(old(Position())) := Entry(c, color)]
      ensures Position() == Advance(old(Position()))
      ensures Linear(Position()) == (Linear(old(Position())) + 1) % Cells
    {
      var index := row * Width + column;
      buffer[index] := Entry(c, color);
      column := column + 1;
      if column == Width {
        column := 0;
        row := row + 1;
        if row == Height {
          row := 0;
        }
      }
    }

    /** `puts`: write the characters of `s` one after the other. */
    method Puts(s: seq<bv8>)
      requires Valid()
      modifies this`row, this`column, buffer
      ensures Valid() && color == old(color)
      ensures buffer[..] == WriteString(old(buffer[..]), Linear(old(Position())), s, color)
      ensures Position() == AdvanceBy(old(Position()), |s|)
      ensures Linear(Position()) == (Linear(old(Position())) + |s|) % Cells
      ensures |s| <= Cells ==>
                forall k :: 0 <= k < Cells ==>
                  buffer[k] == if Offset(Linear(old(Position())), k) < |s|
                               then Entry(s[Offset(Linear(old(Position())), k)], color)
                               else old(buffer[k])
    {
      ghost var start := Position();
      ghost var p := Linear(start);
      ghost var cells := buffer[..];
      for i := 0 to |s|
        invariant Valid()
        invariant buffer[..] == WriteString(cells, p, s[..i], color)
        invariant Position() == AdvanceBy(start, i)
      {
        AdvanceByLinear(start, i);
        WriteStringStep(cells, p, s, i, color);
        Putc(s[i]);
      }
      assert s[..|s|] == s;
      AdvanceByLinear(start, |s|);
      if |s| <= Cells {
        forall k | 0 <= k < Cells
          ensures buffer[k] == if Offset(p, k) < |s| then Entry(s[Offset(p, k)], color) else cells[k]
        {
          WriteStringAt(cells, p, s, color, k);
        }
      }
    }

    /** `initialize_terminal`: reset the cursor and the colour, then write a
        space to every cell, row by row. */
    method Initialize()
      requires buffer.Length == Cells
      modifies this`row, this`column, this`color, buffer
      ensures Valid()
      ensures row == 0 && column == 0
      ensures color == DefaultColor()
      ensures forall k :: 0 <= k < Cells ==> buffer[k] == Blank()
    {
      row := 0;
      column := 0;
      color := EntryColor(White, Black);
      for r := 0 to Height
        invariant Valid() && color == DefaultColor()
        invariant row == r % Height && column == 0
        invariant forall k :: 0 <= k < r * Width ==> buffer[k] == Blank()
      {
        for c := 0 to Width
          invariant Valid() && color == DefaultColor()
          invariant c < Width ==> row == r && column == c
          invariant c == Width ==> row == (r + 1) % Height && column == 0
          invariant forall k :: 0 <= k < r * Width + c ==> buffer[k] == Blank()
        {
          ghost var index := r * Width + c;
          assert Linear(Position()) == index;
          Putc(Space);
          assert buffer[index] == buffer[..][index] == Blank();
        }
        assert r * Width + Width == (r + 1) * Width;
      }
    }
  }
}
