# lc3-vm program loader, modelled in Dafny

This project models the part of the `lc3-vm` emulator that has content: the
program-image loader `load_file`, the encodings of registers, opcodes and
condition codes, and `main`, which allocates memory and registers, loads the
image and runs the (so far empty) execution loop.

A program image is a big-endian byte stream. Its first two bytes are the
origin address. Every later pair of bytes is one 16-bit word. The loader
writes the words into consecutive memory cells, starting at the origin.

- `bytes.dfy` (`Bytes`): `byte` and `u16`, and `u16::from_be_bytes` with its inverse.
- `iter.dfy` (`Iter`): the iterator adaptors the loader chains together
  (`skip`, `step_by`, `zip`) as functions on sequences.
- `image.dfy` (`Image`): the decoder. It covers the header, the word stream,
  a reference encoder, and round trips in both directions.
- `loader.dfy` (`Loader`): the memory-population loop over an `array<u16>`,
  `load_file` as a method, and lemmas about the memory it leaves.
- `encodings.dfy` (`Encodings`): `Register`, `Opcode` and `ConditionCode`
  with their discriminants.
- `emulator.dfy` (`Emulator`): `main`'s allocation, load and run loop.

Panics are modelled as outcomes, not as preconditions:

- a buffer shorter than two bytes panics at index `|buffer|`;
- a word stream that runs past the end of memory panics at the first pointer
  that is not a cell. That pointer is the origin itself when the origin is out
  of range, and the memory length otherwise;
- the cells below that pointer have already been written when it panics.
  This is how the increasing write order can be observed;
- the debug read of cell 0x3000 after loading panics on a memory of 0x3000
  cells or fewer. `main` always passes 0xFFFF cells, so there it never panics.

Further facts about the code that the model keeps:

- memory has `u16::MAX` = 65535 cells, so address 0xFFFF has no cell (src/main.rs:77);
- the word decoder is part of `load_file` (src/main.rs:51-64);
- an odd trailing byte is dropped (src/main.rs:62);
- the loop in `main` clears `running` in its first iteration and does
  nothing else (src/main.rs:91-95).

## Model

| member | source | states |
|---|---|---|
| `Bytes.FromBigEndian` | src/main.rs:48 | the first byte is the word's high byte (`w / 256`), the second its low byte (`w % 256`) |
| `Bytes.ToBigEndian` | src/main.rs:48 | the two bytes given back recombine to the word, high byte first |
| `Bytes.FromToBigEndian` | src/main.rs:48 | splitting a word into big-endian bytes and joining them again yields the word |
| `Bytes.ToFromBigEndian` | src/main.rs:48 | joining two bytes and splitting the word again yields the same two bytes |
| `Bytes.FromBigEndianInjective` | src/main.rs:63 | two different byte pairs never decode to the same word |
| `Iter.Skip` | src/main.rs:54-56 | `skip(n)` yields `|s| - n` elements (none if fewer than `n`), element `k` being input element `n + k` |
| `Iter.StepBy` | src/main.rs:57 | `step_by(step)` yields `ceil(|s| / step)` elements |
| `Iter.StepByAt` | src/main.rs:57 | element `k` that `step_by(step)` yields is input element `k * step` |
| `Iter.Zip` | src/main.rs:62 | `zip` stops at the shorter input and pairs elements of the same position |
| `Image.Words` | src/main.rs:51-64 | the `skip`/`step_by`/`zip`/`map` stream holds `(|buffer| - 2) / 2` words, and none for a buffer of at most two bytes |
| `Image.WordsAt` | src/main.rs:51-64 | word `k` exists exactly when byte `3 + 2k` does, and it joins bytes `2 + 2k` and `3 + 2k` big-endian |
| `Image.WordValue` | src/main.rs:63 | word `k` equals `buffer[2 + 2k] * 256 + buffer[3 + 2k]` |
| `Image.Decode` | src/main.rs:48-64 | a buffer under two bytes panics at index `|buffer|`; otherwise the origin is `buffer[0] * 256 + buffer[1]` and the words are the word stream |
| `Image.EncodeWords` | src/main.rs:51-64 | reference encoder: two bytes per word, the word's big-endian bytes at positions `2k` and `2k + 1` |
| `Image.Encode` | src/main.rs:48-64 | reference encoder of a whole image: two header bytes, then two bytes per word |
| `Image.DecodeEncode` | src/main.rs:48-64 | decoding the encoding of any image gives back its origin and its words |
| `Image.EncodeDecode` | src/main.rs:48-64 | re-encoding a decoded buffer gives the buffer back without its odd trailing byte |
| `Image.EncodeWordsDecode` | src/main.rs:51-64 | re-encoding the word stream gives the bytes after the header, up to the last complete pair |
| `Image.EncodePairs` | src/main.rs:63 | words that each join two consecutive bytes encode back to exactly those bytes |
| `Image.OddTrailingByteIgnored` | src/main.rs:54-62 | one byte appended to an even-length buffer adds no word |
| `Loader.WriteWords` | src/main.rs:66-69 | consecutive cells from the origin hold the words and all other cells are unchanged; there is an overrun exactly when a word falls past the end, and it stops at the origin or at the end of memory |
| `Loader.LoadFile` | src/main.rs:46-74 | the outcome is `OutcomeOf(buffer, len)` and the memory is `LoadedMemory(old memory, buffer)` |
| `Loader.OutcomeOf` | src/main.rs:46-74 | the header panics exactly when the buffer is under two bytes; every panic's index is out of bounds of its collection, and a memory panic is against the memory's own length |
| `Loader.LoadedMemory` | src/main.rs:66-69 | loading never changes the number of cells, and a buffer without a complete header leaves memory as it was |
| `Loader.LoadedSplice` | src/main.rs:66-69 | when the words fit, loaded memory is the cells before the origin, then the words, then the cells after them; on an overrun from an in-range origin, the cells before the origin followed by the words cut off at the end of memory |
| `Loader.LoadedWord` | src/main.rs:66-69 | afterwards the cell at `origin + k` holds `buffer[2 + 2k] * 256 + buffer[3 + 2k]` |
| `Loader.LoadedElsewhereUnchanged` | src/main.rs:66-69 | every cell outside `[origin, origin + (|buffer| - 2) / 2)` keeps its value, and with a header under two bytes every cell does |
| `Loader.LoadsIff` | src/main.rs:48-77 | in `main`'s memory, loading succeeds exactly when the buffer has a header and any words end at or below 0xFFFF |
| `Loader.LastAddressUnwritable` | src/main.rs:66-77 | a word aimed at address 0xFFFF makes the load panic at index 0xFFFF of the 0xFFFF-cell memory |
| `Encodings.RegisterIndex` | src/main.rs:7-19 | each register's index lies below `COUNT` and is its position in the declaration |
| `Encodings.RegisterFileSize` | src/main.rs:7-19 | there are `COUNT` = 10 declared slots, and every index below 10 names the slot declared there |
| `Encodings.OpcodeNumber` | src/main.rs:21-38 | each opcode's number is below 16 and is its position in the declaration |
| `Encodings.OpcodeNumbering` | src/main.rs:21-38 | BR = 0 through TRAP = 15, with no gap and no number used twice |
| `Encodings.ConditionBits` | src/main.rs:40-44 | each condition code is a single nonzero bit within the low three bits |
| `Encodings.ConditionBitsDisjoint` | src/main.rs:40-44 | two condition codes AND to zero exactly when they differ, and P, Z and N together fill bits 0 to 2 |
| `Emulator.RunLoop` | src/main.rs:88-95 | the `while running` loop runs exactly one cycle and changes no state |
| `Emulator.Boot` | src/main.rs:76-96 | the memory has 65535 cells and the register file 10, the registers are zero, and the memory is zeroed memory after loading; the loop runs only after a load without a panic |

## Left out

- Reading the file (`std::fs::read(path).unwrap()`) is file I/O and is not modelled. `LoadFile` and `Boot` take the file's bytes, and the panic on a read error is not modelled.
- The command-line argument check in `main`, and its panic message, are process plumbing and are not modelled.
- The text printed by `println!` for cell 0x3000 is console output and is not modelled. Only the out-of-bounds panic its index can raise is kept.
- `load_file` always returns `Ok(())`, and `main` ignores that result. `LoadOutcome.Loaded` stands for it.
- The `instr` and `op` variables in `main` are declared but never used, so they are not modelled.
- `Register::COUNT` is modelled as the constant `RegisterCount`, not as an eleventh `Register` constructor. It is an array size, not a register.
- Instruction semantics, trap services and memory-mapped keyboard I/O do not exist in this program. The execution loop's body is empty apart from clearing `running`, so none of them are modelled.
