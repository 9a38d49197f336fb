/** `main`: allocates the emulator's memory and register file, loads the
    program image into memory, then runs the execution loop. */
module Emulator {
  import opened Bytes
  import opened Loader
  import opened Encodings

  /** The `while running` loop of `main`. Its body only clears `running`,
      so it runs exactly one cycle and changes no state. */
  method RunLoop() returns (cycles: nat)
    ensures cycles == 1
  {
    var running := true;
    cycles := 0;
    while running
      invariant cycles == if running then 0 else 1
      decreases running
    {
      running := false;
      cycles := cycles + 1;
    }
  }

  /** `main` on the contents `image` of the file named by its argument:
      `u16::MAX` zeroed memory cells and `Register::COUNT` zeroed registers,
      the memory as `load_file` leaves it, and the execution loop, which
      is reached only when loading did not panic. */
  method Boot(image: seq<byte>) returns (memory: array<u16>, registers: array<u16>, outcome: LoadOutcome, cycles: nat)
    ensures fresh(memory) && fresh(registers)
    ensures memory.Length == MemorySize && registers.Length == RegisterCount
    ensures forall i :: 0 <= i < registers.Length ==> registers[i] == 0
    ensures outcome == OutcomeOf(image, MemorySize)
    ensures memory[..] == LoadedMemory(seq(MemorySize, _ => 0), image)
    ensures cycles == if outcome == Loaded then 1 else 0
  {
    memory := new u16[MemorySize](_ => 0);
    registers := new u16[RegisterCount](_ => 0);
    assert memory[..] == seq(MemorySize, _ => 0);
    outcome := LoadFile(image, memory);
    cycles := 0;
    if outcome == Loaded {
      cycles := RunLoop();
    }
  }
}
