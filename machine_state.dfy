/**
 * Architectural state of the CHIP-8 virtual machine, as declared by the
 * `Chip8` class: memory, framebuffer, registers, keys, return stack,
 * program counter, index register, the two timers and the draw flag.
 *
 * The state is given here as a value (`State`); the class `Machine` in
 * module Chip8 holds the same state in arrays and fields and is proved
 * to follow the functions over this value.
 */
module MachineState {

  datatype Option<T> = None | Some(value: T)

  /** An unsigned 8-bit value (`uint8_t`). */
  type Byte = b: int | 0 <= b < 0x100

  /** An unsigned 16-bit value (`uint16_t`): `pc`, `index` and stack entries. */
  type Word = w: int | 0 <= w < 0x1_0000

  /** A 4-bit instruction field: a register number or a sprite height. */
  type Nibble = n: int | 0 <= n < 0x10

  /** A 12-bit instruction field (`nnn`). */
  type Addr = a: int | 0 <= a < 0x1000

  const MEMORY_SIZE: nat := 4096
  const STACK_SIZE: nat := 16
  const DISPLAY_WIDTH: nat := 64
  const DISPLAY_HEIGHT: nat := 32
  const DISPLAY_SIZE: nat := 2048
  const NUM_REGISTERS: nat := 16
  const NUM_KEYS: nat := 16
  const PROGRAM_START: nat := 512
  const MAX_PROGRAM_SIZE: nat := MEMORY_SIZE - PROGRAM_START
  const WORD_MODULUS: nat := 0x1_0000

  /** The flag register VF. */
  const VF: Nibble := 0xF

  /** Bytes per glyph of the built-in hexadecimal font. */
  const GLYPH_HEIGHT: nat := 5

  /** The built-in font: sixteen glyphs 0..F of five rows each, loaded at address 0. */
  const FONTSET: seq<Byte> := [
    0xF0, 0x90, 0x90, 0x90, 0xF0,   // 0
    0x20, 0x60, 0x20, 0x20, 0x70,   // 1
    0xF0, 0x10, 0xF0, 0x80, 0xF0,   // 2
    0xF0, 0x10, 0xF0, 0x10, 0xF0,   // 3
    0x90, 0x90, 0xF0, 0x10, 0x10,   // 4
    0xF0, 0x80, 0xF0, 0x10, 0xF0,   // 5
    0xF0, 0x80, 0xF0, 0x90, 0xF0,   // 6
    0xF0, 0x10, 0x20, 0x40, 0x40,   // 7
    0xF0, 0x90, 0xF0, 0x90, 0xF0,   // 8
    0xF0, 0x90, 0xF0, 0x10, 0xF0,   // 9
    0xF0, 0x90, 0xF0, 0x90, 0x90,   // A
    0xE0, 0x90, 0xE0, 0x90, 0xE0,   // B
    0xF0, 0x80, 0x80, 0x80, 0xF0,   // C
    0xE0, 0x90, 0x90, 0x90, 0xE0,   // D
    0xF0, 0x80, 0xF0, 0x80, 0xF0,   // E
    0xF0, 0x80, 0xF0, 0x80, 0x80    // F
  ]

  /**
   * The whole machine. `stack` holds the live return addresses, the most
   * recent last; `display` holds one byte per pixel, row-major, 64 wide.
   */
  datatype State = State(
    memory: seq<Byte>,
    display: seq<Byte>,
    registers: seq<Byte>,
    keys: seq<bool>,
    stack: seq<Word>,
    pc: Word,
    index: Word,
    delayTimer: Byte,
    soundTimer: Byte,
    drawFlag: bool)

  /** Fixed sizes, the stack bound, and every pixel either 0 or 1. */
  predicate Valid(s: State) {
    && |s.memory| == MEMORY_SIZE
    && |s.display| == DISPLAY_SIZE
    && |s.registers| == NUM_REGISTERS
    && |s.keys| == NUM_KEYS
    && |s.stack| <= STACK_SIZE
    && forall c | 0 <= c < |s.display| :: s.display[c] <= 1
  }

  /** Register Vr. */
  function V(s: State, r: Nibble): Byte
    requires Valid(s)
  {
    s.registers[r]
  }

  /** The memory cell an address refers to: every address is taken modulo the memory size. */
  function Load(s: State, address: int): Byte
    requires Valid(s)
  {
    s.memory[address % MEMORY_SIZE]
  }

  /** The state a freshly constructed machine is in. */
  function Initial(): (s: State)
    ensures Valid(s)
    ensures s.memory[..|FONTSET|] == FONTSET
    ensures forall a | |FONTSET| <= a < MEMORY_SIZE :: s.memory[a] == 0
    ensures forall c | 0 <= c < DISPLAY_SIZE :: s.display[c] == 0
    ensures forall r | 0 <= r < NUM_REGISTERS :: s.registers[r] == 0
    ensures forall k | 0 <= k < NUM_KEYS :: !s.keys[k]
    ensures s.stack == [] && s.pc == PROGRAM_START && s.index == 0
    ensures s.delayTimer == 0 && s.soundTimer == 0 && !s.drawFlag
  {
    State(
      FONTSET + seq(MEMORY_SIZE - |FONTSET|, _ => 0),
      seq(DISPLAY_SIZE, _ => 0),
      seq(NUM_REGISTERS, _ => 0),
      seq(NUM_KEYS, _ => false),
      [],
      PROGRAM_START, 0, 0, 0, false)
  }

  /**
   * The big-endian instruction word at `pc`: the byte at `pc` is the high
   * half and the byte after it the low half, both addresses wrapping.
   */
  function Fetch(s: State): (op: Word)
    requires Valid(s)
    ensures op / 256 == Load(s, s.pc) && op % 256 == Load(s, s.pc + 1)
  {
    Load(s, s.pc) * 256 + Load(s, s.pc + 1)
  }

  /** `pc + 2` as a 16-bit unsigned sum. */
  function Advance(pc: Word): (r: Word)
    ensures r == pc + 2 || (pc >= WORD_MODULUS - 2 && r == pc + 2 - WORD_MODULUS)
  {
    (pc + 2) % WORD_MODULUS
  }

  /** `pc - 2` as a 16-bit unsigned difference. */
  function Retreat(pc: Word): (r: Word)
    ensures Advance(r) == pc
  {
    (pc - 2) % WORD_MODULUS
  }
}
