# VGA text-mode console driver, modelled in Dafny

This project models `src/video.c` of a small bare-metal kernel. The file is the kernel's first console driver. It writes characters into the 80x25 VGA text buffer and keeps a cursor that moves in row-major order. The cursor wraps from the last column to the next row and from the last row back to the top. There is no scrolling.

The model has three modules:

- `VgaEntry` (`entry.dfy`) covers the two bit-packing encoders. `vga_entry_color` puts the foreground colour in the low nibble and the background colour in the high nibble of an attribute byte. `vga_entry` puts the character in the low byte and the attribute in the high byte of a 16-bit cell. Each encoder has decoders (`Foreground`, `Background`, `Character`, `Attribute`) and round-trip lemmas in both directions.
- `Screen` (`screen.dfy`) covers the geometry: the constants `VGA_WIDTH`/`VGA_HEIGHT`, the cursor as a `(row, column)` pair, its buffer index `row * 80 + column`, and the cursor advance that `putc` performs. It also defines `WriteString`, which says what the buffer holds after a string is written from a given index with wraparound.
- `Video` (`terminal.dfy`) holds the class `Terminal`. Its fields stand for the globals `terminal_row`, `terminal_column` and `terminal_color`, and its `array<bv16>` of 2000 cells stands for the memory behind `terminal_buffer`. The methods `Putc`, `Puts` and `Initialize` are the driver's three procedures. They update the fields and the array in place, with the same loops as the C code, and each is proved against the functions of `Screen` and `VgaEntry`.

Characters are bytes (`bv8`) and cells are `bv16`. Colours are numbers below 16.

## Model

| member | source | states |
|---|---|---|
| `VgaEntry.EntryColor` | src/video.c:11-14 | for colours below 16, the attribute's low nibble decodes to the foreground, its high nibble decodes to the background, and its value is `foreground + 16 * background` |
| `VgaEntry.ColorDecodeEncode` | src/video.c:11-14 | every attribute byte is the packing of its own foreground and background nibbles, so packing is onto |
| `VgaEntry.EntryColorInjective` | src/video.c:11-14 | two colour pairs give the same attribute byte exactly when they are equal |
| `VgaEntry.Entry` | src/video.c:16-19 | the cell's low byte decodes to the character, its high byte decodes to the attribute, and its value is `character + 256 * attribute` |
| `VgaEntry.EntryDecodeEncode` | src/video.c:16-19 | every 16-bit cell is the packing of its own character and attribute bytes |
| `VgaEntry.EntryInjective` | src/video.c:16-19 | two (character, attribute) pairs give the same cell exactly when they are equal |
| `Screen.Linear` | src/video.c:40 | the write index `row * VGA_WIDTH + column` of an on-screen cursor is below 2000, so the buffer write is in bounds |
| `Screen.FromLinear` | src/video.c:40 | every buffer index below 2000 is the write index of an on-screen cursor |
| `Screen.LinearInjective` | src/video.c:40 | two on-screen cursors have the same write index exactly when they are equal |
| `Screen.Advance` | src/video.c:43-49 | the advance after a write keeps the cursor on screen, and moves the write index to `(old index + 1) % 2000` |
| `Screen.AdvanceBy` | src/video.c:43-49 | any number of advances keeps the cursor on screen |
| `Screen.AdvanceByLinear` | src/video.c:54-58 | `n` advances move the write index to `(old index + n) % 2000` |
| `Screen.AdvanceByFullScreen` | src/video.c:30-34 | 25 x 80 advances bring the cursor back to where it started |
| `Screen.WriteString` | src/video.c:54-58 | writing a string, one cell per character from a start index and wrapping at 2000, leaves a buffer of 2000 cells |
| `Screen.WriteStringAt` | src/video.c:54-58 | for a string of at most 2000 characters, the cell `d` places after the start holds character `d` in the colour when `d` is below the length, and otherwise keeps its old contents |
| `Screen.WriteStringCells` | src/video.c:54-58 | for a string of at most 2000 characters, character `i` lands in cell `(start + i) % 2000`, and every cell the string does not reach is unchanged |
| `Video.DefaultColor` | src/video.c:26 | the initial attribute decodes to a white foreground on a black background |
| `Video.Blank` | src/video.c:30-34 | the blank cell holds a space in the white-on-black attribute |
| `Video.Terminal.constructor` | src/video.c:6-9 | the state before initialisation: the cursor at (0,0) and the colour 0, as static storage gives, and a mapped buffer of 2000 cells |
| `Video.Terminal.Putc` | src/video.c:37-50 | exactly the cell at the old cursor's index becomes `vga_entry(c, color)` and every other cell is unchanged; the cursor advances as `Screen.Advance` says, so the index moves to `(old + 1) % 2000`, and it stays on screen; the colour is not touched |
| `Video.Terminal.Puts` | src/video.c:52-59 | the buffer becomes `WriteString` of the old buffer from the old index; the cursor advances `|s|` times, so the index moves by `|s|` modulo 2000; for a string of at most 2000 characters, the cell `d` places after the start holds character `d` when `d` is below the length and is otherwise unchanged; the colour is not touched |
| `Video.Terminal.Initialize` | src/video.c:21-35 | afterwards all 2000 cells hold a white-on-black space, the cursor is at (0,0) again after the 25 x 80 writes, and the colour is white on black |

## Left out

- The fixed physical address `0xB8000` and the pointer cast. The buffer is an array of 2000 cells that the `Terminal` object owns from construction. `Initialize` therefore does not reassign the buffer, and the model has no state where the buffer pointer is still null before initialisation. The model also does not say what the screen memory holds before `Initialize`: that is whatever the firmware left there.
- `strlen` and NUL-terminated strings. `Puts` takes a sequence of bytes of known length. Because of this it also accepts a zero byte, which a C string cannot contain.
- The numeric values of `enum vga_color`. They live in `video.h`, which is not part of this model. `White` and `Black` are named constants with the standard VGA palette values 15 and 0, and no proof depends on those values beyond their being below 16.
- `VgaEntry.EntryColor`: the truncation of `background << 4` to `uint8_t` for a colour of 16 or more is not modelled. Both colours must be below 16, which holds for every member of the palette enum.
- The signedness of C `char` and the `inline` linkage. Characters are bytes 0..255, as `vga_entry` receives them after the conversion to `unsigned char`.
- `size_t` overflow. The cursor fields never exceed 80 and 25, so no arithmetic in `putc` can wrap, and the model uses unbounded naturals.
- Concurrency and the hardware side of memory-mapped output: the display reading the buffer, caching, and volatile access.
