/** The fixed encodings declared beside the loader: register slots, opcode
    numbers and condition-code bits. */
module Encodings {

  /** The register slots, in declaration order. */
  datatype Register = R0 | R1 | R2 | R3 | R4 | R5 | R6 | R7 | PC | CC

  /** `Register::COUNT`: the sentinel declared after the ten slots, whose
      discriminant is the size of the register file. */
  const RegisterCount: nat := 10

  /** The registers as declared. */
  const Registers: seq<Register> := [R0, R1, R2, R3, R4, R5, R6, R7, PC, CC]

  /** The discriminant of a register, its index in the register file. */
  function RegisterIndex(r: Register): (i: nat)
    ensures i < RegisterCount
    ensures Registers[i] == r
  {
    match r
    case R0 => 0 case R1 => 1 case R2 => 2 case R3 => 3 case R4 => 4
    case R5 => 5 case R6 => 6 case R7 => 7 case PC => 8 case CC => 9
  }

  /** `COUNT` counts the slots: there are as many as declared, each slot's
      index is its position in the declaration, and every index below
      `COUNT` names one slot. */
  lemma RegisterFileSize()
    ensures |Registers| == RegisterCount
    ensures forall i :: 0 <= i < RegisterCount ==> RegisterIndex(Registers[i]) == i
  {
  }

  /** The opcodes, in declaration order; RTI and RES are unused. */
  datatype Opcode =
    | BR | ADD | AND | NOT | LD | ST | LDI | STI
    | JMP | JSR | LDR | STR | RTI | RES | LEA | TRAP

  const Opcodes: seq<Opcode> := [BR, ADD, AND, NOT, LD, ST, LDI, STI, JMP, JSR, LDR, STR, RTI, RES, LEA, TRAP]

  /** The discriminant of an opcode: its position in the declaration. */
  function OpcodeNumber(op: Opcode): (n: nat)
    ensures n < 16
    ensures Opcodes[n] == op
  {
    match op
    case BR => 0 case ADD => 1 case AND => 2 case NOT => 3
    case LD => 4 case ST => 5 case LDI => 6 case STI => 7
    case JMP => 8 case JSR => 9 case LDR => 10 case STR => 11
    case RTI => 12 case RES => 13 case LEA => 14 case TRAP => 15
  }

  /** The sixteen opcodes number 0 to 15 in declaration order, with no gap
      and no number used twice. */
  lemma OpcodeNumbering()
    ensures |Opcodes| == 16
    ensures forall n :: 0 <= n < 16 ==> OpcodeNumber(Opcodes[n]) == n
    ensures forall a: Opcode, b: Opcode :: OpcodeNumber(a) == OpcodeNumber(b) ==> a == b
  {
  }

  /** The condition codes. */
  datatype ConditionCode = P | Z | N

  /** The value of a condition code: `P = 1`, `Z = 1 << 1`, `N = 1 << 2`. */
  function ConditionBits(c: ConditionCode): (b: bv16)
    ensures b != 0 && b & (b - 1) == 0
    ensures b & 0x7 == b
  {
    match c
    case P => 1
    case Z => 1 << 1
    case N => 1 << 2
  }

  /** The condition codes are distinct single bits, so two different ones
      AND to zero and together they fill the low three bits. */
  lemma ConditionBitsDisjoint(c: ConditionCode, d: ConditionCode)
    ensures c != d <==> ConditionBits(c) & ConditionBits(d) == 0
    ensures ConditionBits(P) | ConditionBits(Z) | ConditionBits(N) == 0x7
  {
  }
}
