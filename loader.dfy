/** `load_file`: copies the words of a program image into word memory,
    starting at the image's origin, one address after the other. */
module Loader {
  import opened Bytes
  import opened Image

  /** The number of memory cells `main` allocates: `u16::MAX`, so the
      addresses are 0 to 0xFFFE and 0xFFFF has no cell. */
  const MemorySize: nat := U16Max

  /** The fixed address whose cell `load_file` prints after loading. */
  const PrintedAddress: nat := 0x3000

  /** How a call of `load_file` ends: it returns `Ok(())`, or it panics. */
  datatype LoadOutcome = Loaded | Panicked(panic: Panic)

  /** The outcome of loading `buffer` into a memory of `len` cells. The
      writes stop at the first pointer that is not below `len`: the origin
      itself when it is already out of range, `len` otherwise. An image with
      no words writes nothing, so its origin is never used as an index. */
  function OutcomeOf(buffer: seq<byte>, len: nat): (r: LoadOutcome)
    ensures (r.Panicked? && r.panic.BufferIndex?) <==> |buffer| < 2
    ensures r.Panicked? ==> r.panic.index >= r.panic.len
    ensures r.Panicked? && r.panic.MemoryIndex? ==> r.panic.len == len
  {
    match Decode(buffer)
    case DecodePanic(p) => Panicked(p)
    case Decoded(image) =>
      if image.words != [] && image.origin as int + |image.words| > len then
        Panicked(MemoryIndex(if image.origin as int >= len then image.origin as nat else len, len))
      else if PrintedAddress >= len then
        Panicked(MemoryIndex(PrintedAddress, len))
      else
        Loaded
  }

  /** The memory after loading `buffer` into `memory`: cell `i` holds word
      `i - origin` when that word exists, and is otherwise unchanged. On a
      memory overrun the cells below the end were written before the panic. */
  function LoadedMemory(memory: seq<u16>, buffer: seq<byte>): (loaded: seq<u16>)
    ensures |loaded| == |memory|
    ensures |buffer| < 2 ==> loaded == memory
  {
    match Decode(buffer)
    case DecodePanic(_) => memory
    case Decoded(image) =>
      seq(|memory|, i requires 0 <= i < |memory| => Overlay(memory, image.origin as nat, image.words, i))
  }

  /** Memory that agrees with `before` except on the cells from the origin
      to the end of the image, which hold the image's words, is the loaded
      memory. */
  lemma OverlaidIsLoaded(before: seq<u16>, after: seq<u16>, buffer: seq<byte>)
    requires |buffer| >= 2 && |after| == |before|
    requires forall i :: 0 <= i < |after| ==>
      after[i] == Overlay(before, Decode(buffer).image.origin as nat, Words(buffer), i)
    ensures after == LoadedMemory(before, buffer)
  {
    var image := Decode(buffer).image;
    assert image.words == Words(buffer);
    assert after == seq(|before|, i requires 0 <= i < |before| => Overlay(before, image.origin as nat, image.words, i));
  }

  /** Cell `i` of `memory` after `words` were written from `origin` on. */
  function Overlay(memory: seq<u16>, origin: nat, words: seq<u16>, i: nat): u16
    requires i < |memory|
  {
    if origin <= i < origin + |words| then words[i - origin] else memory[i]
  }

  /** The `for` loop of `load_file`: writes the words to consecutive cells
      from `origin` on, in increasing address order, and panics at the first
      pointer that is not a cell of `memory`; the cells below it have been
      written by then. */
  method WriteWords(memory: array<u16>, origin: nat, words: seq<u16>) returns (overrun: bool, pointer: nat)
    modifies memory
    ensures overrun <==> words != [] && origin + |words| > memory.Length
    ensures overrun ==> pointer == if origin >= memory.Length then origin else memory.Length
    ensures !overrun ==> pointer == origin + |words|
    ensures forall i :: 0 <= i < memory.Length ==> memory[i] == Overlay(old(memory[..]), origin, words, i)
  {
    pointer := origin;
    var k := 0;
    while k < |words|
      invariant 0 <= k <= |words|
      invariant pointer == origin + k
      invariant k > 0 ==> pointer <= memory.Length
      invariant forall i :: 0 <= i < memory.Length ==>
        memory[i] == if origin <= i < pointer then words[i - origin] else old(memory[i])
    {
      if pointer >= memory.Length {
        return true, pointer;
      }
      memory[pointer] := words[k];
      pointer := pointer + 1;
      k := k + 1;
    }
    return false, pointer;
  }

  /** `load_file(path, memory)` on the contents `buffer` of the file. */
  method LoadFile(buffer: seq<byte>, memory: array<u16>) returns (outcome: LoadOutcome)
    modifies memory
    ensures outcome == OutcomeOf(buffer, memory.Length)
    ensures memory[..] == LoadedMemory(old(memory[..]), buffer)
  {
    if |buffer| < 2 {
      return Panicked(BufferIndex(|buffer|, |buffer|));
    }
    var origin := FromBigEndian(buffer[0], buffer[1]);
    var overrun, pointer := WriteWords(memory, origin as nat, Words(buffer));
    OverlaidIsLoaded(old(memory[..]), memory[..], buffer);
    if overrun {
      return Panicked(MemoryIndex(pointer, memory.Length));
    }
    if PrintedAddress >= memory.Length {
      return Panicked(MemoryIndex(PrintedAddress, memory.Length));
    }
    return Loaded;
  }

  /** After loading, the cell at `origin + k` holds word `k` of the image,
      the big-endian pair of bytes `2 + 2k` and `3 + 2k`, for every word
      `k` that fits in memory. */
  lemma LoadedWord(memory: seq<u16>, buffer: seq<byte>, k: nat)
    requires 3 + 2 * k < |buffer|
    requires buffer[0] as int * 256 + buffer[1] as int + k < |memory|
    ensures LoadedMemory(memory, buffer)[buffer[0] as int * 256 + buffer[1] as int + k] as int
      == buffer[2 + 2 * k] as int * 256 + buffer[3 + 2 * k] as int
  {
    WordValue(buffer, k);
    WordsAt(buffer, k);
  }

  /** Loading leaves every cell outside `[origin, origin + n)` as it was,
      where `n = (|buffer| - 2) / 2` is the number of words; a buffer too
      short for the header leaves all of memory as it was. */
  lemma LoadedElsewhereUnchanged(memory: seq<u16>, buffer: seq<byte>, i: nat)
    requires i < |memory|
    requires |buffer| >= 2 ==>
      var origin := buffer[0] as int * 256 + buffer[1] as int;
      !(origin <= i < origin + (|buffer| - 2) / 2)
    ensures LoadedMemory(memory, buffer)[i] == memory[i]
  {
  }

  /** Into the memory `main` allocates, a buffer loads without a panic
      exactly when it has a header and its words, if any, end at or below
      address 0xFFFF, the first address without a cell. */
  lemma LoadsIff(buffer: seq<byte>)
    ensures OutcomeOf(buffer, MemorySize) == Loaded <==>
      |buffer| >= 2 &&
      (|buffer| < 4 || buffer[0] as int * 256 + buffer[1] as int + (|buffer| - 2) / 2 <= 0xFFFF)
  {
  }

  /** Address 0xFFFF is never written: an image whose words would reach it
      panics there, with pointer 0xFFFF on a memory of 0xFFFF cells. */
  lemma LastAddressUnwritable(buffer: seq<byte>, k: nat)
    requires 3 + 2 * k < |buffer|
    requires buffer[0] as int * 256 + buffer[1] as int + k == 0xFFFF
    ensures OutcomeOf(buffer, MemorySize) == Panicked(MemoryIndex(0xFFFF, MemorySize))
  {
    WordsAt(buffer, k);
  }

  /** The loaded memory is a splice: the cells before the origin, then the
      words, then the cells after them; on an overrun the words are cut off
      at the end of memory. */
  lemma LoadedSplice(memory: seq<u16>, buffer: seq<byte>)
    requires |buffer| >= 2
    ensures var o, n := buffer[0] as int * 256 + buffer[1] as int, |Words(buffer)|;
      o + n <= |memory| ==> LoadedMemory(memory, buffer) == memory[..o] + Words(buffer) + memory[o + n..]
    ensures var o, n := buffer[0] as int * 256 + buffer[1] as int, |Words(buffer)|;
      o < |memory| < o + n ==> LoadedMemory(memory, buffer) == memory[..o] + Words(buffer)[..|memory| - o]
  {
  }
}
