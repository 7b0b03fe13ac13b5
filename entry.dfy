/** Bit-packing of VGA text-mode attributes and cells.

    An attribute byte holds the foreground colour in its low nibble and the
    background colour in its high nibble.  A cell holds the character code in
    its low byte and the attribute byte in its high byte.
 */
module VgaEntry {

  /** A colour of the 16-entry VGA text palette. */
  predicate IsColor(c: nat) { c < 16 }

  /** The two colours `initialize_terminal` uses (values of the standard VGA palette). */
  const Black: nat := 0
  const White: nat := 15

  /** `vga_entry_color`: foreground in bits 0..3, background in bits 4..7. */
  function EntryColor(foreground: nat, background: nat): (attr: bv8)
    requires IsColor(foreground) && IsColor(background)
    ensures Foreground(attr) == foreground && Background(attr) == background
    ensures attr as int == foreground + 16 * background
  {
    (foreground as bv8) | ((background as bv8) << 4)
  }

  /** The foreground colour stored in an attribute byte. */
  function Foreground(attr: bv8): (c: nat)
    ensures IsColor(c)
  {
    (attr & 0x0F) as nat
  }

  /** The background colour stored in an attribute byte. */
  function Background(attr: bv8): (c: nat)
    ensures IsColor(c)
  {
    (attr >> 4) as nat
  }

  /** Every attribute byte is the packing of its own two colours. */
  lemma ColorDecodeEncode(attr: bv8)
    ensures EntryColor(Foreground(attr), Background(attr)) == attr
  {
  }

  /** Distinct colour pairs give distinct attribute bytes. */
  lemma EntryColorInjective(f1: nat, b1: nat, f2: nat, b2: nat)
    requires IsColor(f1) && IsColor(b1) && IsColor(f2) && IsColor(b2)
    ensures EntryColor(f1, b1) == EntryColor(f2, b2) <==> f1 == f2 && b1 == b2
  {
  }

  /** `vga_entry`: the character in bits 0..7, the attribute in bits 8..15. */
  function Entry(character: bv8, attr: bv8): (cell: bv16)
    ensures Character(cell) == character && Attribute(cell) == attr
    ensures cell as int == character as int + 256 * attr as int
  {
    CellValue(character, attr);
    (character as bv16) | ((attr as bv16) << 8)
  }

  /** The two fields of a cell occupy disjoint bits, so packing them is an addition that cannot overflow. */
  lemma CellValue(character: bv8, attr: bv8)
    ensures ((character as bv16) | ((attr as bv16) << 8)) as int == character as int + 256 * attr as int
  {
  }

  /** The character code stored in a cell. */
  function Character(cell: bv16): bv8
  {
    (cell & 0xFF) as bv8
  }

  /** The attribute byte stored in a cell. */
  function Attribute(cell: bv16): bv8
  {
    (cell >> 8) as bv8
  }

  /** Every cell is the packing of its own character and attribute. */
  lemma EntryDecodeEncode(cell: bv16)
    ensures Entry(Character(cell), Attribute(cell)) == cell
  {
  }

  /** Distinct (character, attribute) pairs give distinct cells. */
  lemma EntryInjective(c1: bv8, a1: bv8, c2: bv8, a2: bv8)
    ensures Entry(c1, a1) == Entry(c2, a2) <==> c1 == c2 && a1 == a2
  {
  }
}
