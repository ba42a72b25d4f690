/**
 * What one instruction, one timer tick, one key event and one program
 * load do to the machine state. These functions fix the one semantics the
 * class `Machine` is proved to follow.
 */
module Semantics {
  import opened MachineState
  import opened Decoder

  /** A step either executes, or is rejected because the return stack is full or empty. */
  datatype Status = Executed | StackOverflow | StackUnderflow

  datatype Outcome = Outcome(status: Status, next: State)

  // ---------------------------------------------------------------- bytes

  function BitOr(a: Byte, b: Byte): Byte { ((a as bv8) | (b as bv8)) as int }
  function BitAnd(a: Byte, b: Byte): Byte { ((a as bv8) & (b as bv8)) as int }
  function BitXor(a: Byte, b: Byte): Byte { ((a as bv8) ^ (b as bv8)) as int }

  /** `v ^ 1`: bit 0 toggles, the other bits stay. */
  function Flip(v: Byte): (r: Byte)
    ensures r % 2 != v % 2 && r / 2 == v / 2
  {
    if v % 2 == 0 then v + 1 else v - 1
  }

  // ------------------------------------------------------------ registers

  /** Vx := v; nothing else changes. */
  function SetRegister(s: State, x: Nibble, v: Byte): (t: State)
    requires Valid(s)
    ensures Valid(t) && t == s.(registers := t.registers)
    ensures t.registers[x] == v
    ensures forall r | 0 <= r < NUM_REGISTERS && r != x :: t.registers[r] == s.registers[r]
  {
    s.(registers := s.registers[x := v])
  }

  /**
   * Vx := v and then VF := flag. When x is VF the flag is what remains.
   */
  function SetWithFlag(s: State, x: Nibble, v: Byte, flag: Byte): (t: State)
    requires Valid(s)
    ensures Valid(t) && t == s.(registers := t.registers)
    ensures t.registers[VF] == flag
    ensures x != VF ==> t.registers[x] == v
    ensures forall r | 0 <= r < NUM_REGISTERS && r != x && r != VF :: t.registers[r] == s.registers[r]
  {
    s.(registers := s.registers[x := v][VF := flag])
  }

  /** 8xy4: the carry out of the 8-bit sum of Vx and Vy goes to VF. */
  function AddRegisters(s: State, x: Nibble, y: Nibble): (t: State)
    requires Valid(s)
    ensures Valid(t) && t == s.(registers := t.registers)
    ensures var sum := V(s, x) + V(s, y);
      && t.registers[VF] <= 1
      && (t.registers[VF] == 1 <==> sum > 255)
      && (x != VF ==> t.registers[x] as int + 256 * (t.registers[VF] as int) == sum)
    ensures forall r | 0 <= r < NUM_REGISTERS && r != x && r != VF :: t.registers[r] == s.registers[r]
  {
    var sum := V(s, x) + V(s, y);
    SetWithFlag(s, x, sum % 256, if sum > 255 then 1 else 0)
  }

  /** 8xy5: Vx := Vx - Vy modulo 256, and VF := NOT borrow. */
  function Subtract(s: State, x: Nibble, y: Nibble): (t: State)
    requires Valid(s)
    ensures Valid(t) && t == s.(registers := t.registers)
    ensures
      && t.registers[VF] <= 1
      && (t.registers[VF] == 1 <==> V(s, x) >= V(s, y))
      && (x != VF ==> t.registers[x] == V(s, x) as int - V(s, y) + 256 * (1 - t.registers[VF] as int))
    ensures forall r | 0 <= r < NUM_REGISTERS && r != x && r != VF :: t.registers[r] == s.registers[r]
  {
    var vx, vy := V(s, x), V(s, y);
    SetWithFlag(s, x, (vx - vy) % 256, if vx >= vy then 1 else 0)
  }

  /** 8xy7: Vx := Vy - Vx modulo 256, and VF := NOT borrow. */
  function SubtractNegated(s: State, x: Nibble, y: Nibble): (t: State)
    requires Valid(s)
    ensures Valid(t) && t == s.(registers := t.registers)
    ensures
      && t.registers[VF] <= 1
      && (t.registers[VF] == 1 <==> V(s, y) >= V(s, x))
      && (x != VF ==> t.registers[x] == V(s, y) as int - V(s, x) + 256 * (1 - t.registers[VF] as int))
    ensures forall r | 0 <= r < NUM_REGISTERS && r != x && r != VF :: t.registers[r] == s.registers[r]
  {
    var vx, vy := V(s, x), V(s, y);
    SetWithFlag(s, x, (vy - vx) % 256, if vy >= vx then 1 else 0)
  }

  /** 8xy6: Vx shifts right by one; the bit shifted out goes to VF. */
  function ShiftRight(s: State, x: Nibble): (t: State)
    requires Valid(s)
    ensures Valid(t) && t == s.(registers := t.registers)
    ensures t.registers[VF] <= 1 && (t.registers[VF] == 1 <==> V(s, x) % 2 == 1)
    ensures x != VF ==> 2 * t.registers[x] as int + t.registers[VF] == V(s, x)
    ensures forall r | 0 <= r < NUM_REGISTERS && r != x && r != VF :: t.registers[r] == s.registers[r]
  {
    var vx := V(s, x);
    SetWithFlag(s, x, vx / 2, vx % 2)
  }

  /** 8xyE: Vx shifts left by one within 8 bits; the bit shifted out goes to VF. */
  function ShiftLeft(s: State, x: Nibble): (t: State)
    requires Valid(s)
    ensures Valid(t) && t == s.(registers := t.registers)
    ensures t.registers[VF] <= 1 && (t.registers[VF] == 1 <==> V(s, x) >= 128)
    ensures x != VF ==> t.registers[x] as int + 256 * (t.registers[VF] as int) == 2 * V(s, x) as int
    ensures forall r | 0 <= r < NUM_REGISTERS && r != x && r != VF :: t.registers[r] == s.registers[r]
  {
    var vx := V(s, x);
    SetWithFlag(s, x, (vx * 2) % 256, vx / 128)
  }

  /** The `8xyN` family. Move, Or, And and Xor leave VF alone (unless x is VF). */
  function ExecuteAlu(s: State, aop: AluOp, x: Nibble, y: Nibble): (t: State)
    requires Valid(s)
    ensures Valid(t) && t == s.(registers := t.registers)
    ensures aop == Move ==> t.registers[x] == V(s, y)
    ensures aop == Or ==> t.registers[x] == BitOr(V(s, x), V(s, y))
    ensures aop == And ==> t.registers[x] == BitAnd(V(s, x), V(s, y))
    ensures aop == Xor ==> t.registers[x] == BitXor(V(s, x), V(s, y))
    ensures aop in {Move, Or, And, Xor} ==>
      forall r | 0 <= r < NUM_REGISTERS && r != x :: t.registers[r] == s.registers[r]
    ensures !(aop in {Move, Or, And, Xor}) ==>
      forall r | 0 <= r < NUM_REGISTERS && r != x && r != VF :: t.registers[r] == s.registers[r]
  {
    match aop
    case Move => SetRegister(s, x, V(s, y))
    case Or => SetRegister(s, x, BitOr(V(s, x), V(s, y)))
    case And => SetRegister(s, x, BitAnd(V(s, x), V(s, y)))
    case Xor => SetRegister(s, x, BitXor(V(s, x), V(s, y)))
    case Add => AddRegisters(s, x, y)
    case Sub => Subtract(s, x, y)
    case Shr => ShiftRight(s, x)
    case SubN => SubtractNegated(s, x, y)
    case Shl => ShiftLeft(s, x)
  }

  // ---------------------------------------------------------- control flow

  /** Skip the next instruction when `cond` holds. */
  function SkipIf(s: State, cond: bool): (t: State)
    requires Valid(s)
    ensures Valid(t) && t == s.(pc := t.pc)
    ensures t.pc == if cond then Advance(s.pc) else s.pc
  {
    if cond then s.(pc := Advance(s.pc)) else s
  }

  /**
   * 2nnn: push the return address (the pc after the fetch) and jump. A
   * full stack rejects the call and leaves the state alone.
   */
  function CallSubroutine(s: State, nnn: Addr): (r: Outcome)
    requires Valid(s)
    ensures Valid(r.next)
    ensures r.status == Executed <==> |s.stack| < STACK_SIZE
    ensures r.status != Executed ==> r.status == StackOverflow && r.next == s
    ensures r.status == Executed ==>
      && r.next == s.(pc := nnn, stack := r.next.stack)
      && |r.next.stack| == |s.stack| + 1
      && r.next.stack[..|s.stack|] == s.stack
      && r.next.stack[|s.stack|] == s.pc
  {
    if |s.stack| == STACK_SIZE then Outcome(StackOverflow, s)
    else Outcome(Executed, s.(pc := nnn, stack := s.stack + [s.pc]))
  }

  /** 00EE: pop the most recent return address into pc. An empty stack rejects the return. */
  function Return(s: State): (r: Outcome)
    requires Valid(s)
    ensures Valid(r.next)
    ensures r.status == Executed <==> |s.stack| > 0
    ensures r.status != Executed ==> r.status == StackUnderflow && r.next == s
    ensures r.status == Executed ==>
      && r.next == s.(pc := r.next.pc, stack := r.next.stack)
      && r.next.stack + [r.next.pc] == s.stack
  {
    if |s.stack| == 0 then Outcome(StackUnderflow, s)
    else Outcome(Executed, s.(pc := s.stack[|s.stack| - 1], stack := s.stack[..|s.stack| - 1]))
  }

  // ------------------------------------------------------------------ keys

  /** Whether the key named by byte `k` is down; a byte that names no key (16 or more) is not. */
  predicate KeyDown(s: State, k: Byte)
    requires Valid(s)
    ensures KeyDown(s, k) ==> k < NUM_KEYS
    ensures k < NUM_KEYS ==> (KeyDown(s, k) <==> s.keys[k])
  {
    k < NUM_KEYS && s.keys[k]
  }

  /** The lowest-numbered key at or after `from` that is down. */
  function FirstPressed(keys: seq<bool>, from: nat): (k: Option<nat>)
    requires from <= |keys|
    ensures k.Some? ==> from <= k.value < |keys| && keys[k.value]
    ensures k.Some? ==> forall j | from <= j < k.value :: !keys[j]
    ensures k.None? ==> forall j | from <= j < |keys| :: !keys[j]
    decreases |keys| - from
  {
    if from == |keys| then None
    else if keys[from] then Some(from)
    else FirstPressed(keys, from + 1)
  }

  /**
   * Fx0A: with a key down, Vx := the index of the lowest such key; with
   * none, pc goes back to this instruction so that it runs again.
   */
  function WaitForKey(s: State, x: Nibble): (t: State)
    requires Valid(s)
    ensures Valid(t)
    ensures (forall k | 0 <= k < NUM_KEYS :: !s.keys[k]) ==> t == s.(pc := Retreat(s.pc))
    ensures forall k | 0 <= k < NUM_KEYS && s.keys[k] && (forall j | 0 <= j < k :: !s.keys[j]) ::
      t == s.(registers := s.registers[x := k])
  {
    match FirstPressed(s.keys, 0)
    case None => s.(pc := Retreat(s.pc))
    case Some(k) => SetRegister(s, x, k)
  }

  /** `handle_keypress`: key k changes between up and down. */
  function ToggleKey(s: State, k: nat): (t: State)
    requires Valid(s) && k < NUM_KEYS
    ensures Valid(t) && t == s.(keys := t.keys)
    ensures t.keys[k] == !s.keys[k]
    ensures forall j | 0 <= j < NUM_KEYS && j != k :: t.keys[j] == s.keys[j]
  {
    s.(keys := s.keys[k := !s.keys[k]])
  }

  // ---------------------------------------------------------------- memory

  /** How far `address` lies past `base`, counting round the end of memory. */
  function Offset(base: int, address: int): (d: nat)
    ensures d < MEMORY_SIZE
  {
    (address - base) % MEMORY_SIZE
  }

  /** Fx33: the hundreds, tens and units digits of Vx go to I, I+1 and I+2. */
  function StoreBcd(s: State, x: Nibble): (t: State)
    requires Valid(s)
    ensures Valid(t) && t == s.(memory := t.memory)
    ensures Load(t, s.index) < 10 && Load(t, s.index + 1) < 10 && Load(t, s.index + 2) < 10
    ensures 100 * Load(t, s.index) + 10 * Load(t, s.index + 1) + Load(t, s.index + 2) == V(s, x)
    ensures forall a | 0 <= a < MEMORY_SIZE && Offset(s.index, a) > 2 :: t.memory[a] == s.memory[a]
  {
    var v, i := V(s, x), s.index;
    var m := s.memory[i % MEMORY_SIZE := v / 100][(i + 1) % MEMORY_SIZE := (v / 10) % 10][(i + 2) % MEMORY_SIZE := v % 10];
    AddressesApart(i, 0, 1);
    AddressesApart(i, 0, 2);
    AddressesApart(i, 1, 2);
    forall a | 0 <= a < MEMORY_SIZE && Offset(i, a) > 2
      ensures a != i % MEMORY_SIZE && a != (i + 1) % MEMORY_SIZE && a != (i + 2) % MEMORY_SIZE
    {
      OffsetOfAddress(i, 0, a);
      OffsetOfAddress(i, 1, a);
      OffsetOfAddress(i, 2, a);
    }
    s.(memory := m)
  }

  /** Fx55: V0..Vx go to memory at I..I+x; I itself does not change. */
  function StoreRegisters(s: State, x: Nibble): (t: State)
    requires Valid(s)
    ensures Valid(t) && t == s.(memory := t.memory)
  {
    s.(memory := seq(MEMORY_SIZE, a requires 0 <= a < MEMORY_SIZE =>
      if Offset(s.index, a) <= x then s.registers[Offset(s.index, a)] else s.memory[a]))
  }

  /** Fx65: V0..Vx are read from memory at I..I+x; I itself does not change. */
  function LoadRegisters(s: State, x: Nibble): (t: State)
    requires Valid(s)
    ensures Valid(t) && t == s.(registers := t.registers)
  {
    s.(registers := seq(NUM_REGISTERS, r requires 0 <= r < NUM_REGISTERS =>
      if r <= x then s.memory[(s.index + r) % MEMORY_SIZE] else s.registers[r]))
  }

  /** Fx29: I := the address of the font glyph for digit Vx. */
  function PointToGlyph(s: State, x: Nibble): (t: State)
    requires Valid(s)
    ensures Valid(t) && t == s.(index := t.index)
    ensures t.index % GLYPH_HEIGHT == 0 && t.index / GLYPH_HEIGHT == V(s, x)
    ensures V(s, x) < 16 ==> t.index + GLYPH_HEIGHT <= |FONTSET|
  {
    s.(index := V(s, x) * GLYPH_HEIGHT)
  }

  // ------------------------------------------------------------ framebuffer

  /** 00E0: every pixel goes off and the frame is marked for redrawing. */
  function ClearScreen(s: State): (t: State)
    requires Valid(s)
    ensures Valid(t) && t == s.(display := t.display, drawFlag := true)
    ensures forall c | 0 <= c < DISPLAY_SIZE :: t.display[c] == 0
  {
    s.(display := seq(DISPLAY_SIZE, _ => 0), drawFlag := true)
  }

  /** Bit `col` of a sprite row, counting from the most significant bit. */
  predicate SpriteBit(bits: Byte, col: nat)
    requires col < 8
  {
    (bits as bv8) & ((0x80 as bv8) >> col) != 0
  }

  /**
   * The framebuffer cell that column `col` of sprite row `row` lands on
   * when the sprite is drawn at (xp, yp): the row-major index wraps round
   * the whole framebuffer.
   */
  function Cell(xp: Byte, yp: Byte, row: nat, col: nat): (c: nat)
    ensures c < DISPLAY_SIZE
  {
    (xp + col + (yp + row) * DISPLAY_WIDTH) % DISPLAY_SIZE
  }

  /** The framebuffer while a sprite is drawn, and whether a lit pixel has been hit so far. */
  datatype Canvas = Canvas(cells: seq<Byte>, collision: bool)

  predicate Binary(cells: seq<Byte>) {
    forall c | 0 <= c < |cells| :: cells[c] <= 1
  }

  /** The first `cols` columns of sprite row `row`, drawn one pixel at a time by XOR. */
  function PlotRow(c: Canvas, bits: Byte, xp: Byte, yp: Byte, row: nat, cols: nat): (r: Canvas)
    requires |c.cells| == DISPLAY_SIZE && cols <= 8
    ensures |r.cells| == DISPLAY_SIZE
    ensures Binary(c.cells) ==> Binary(r.cells)
    ensures c.collision ==> r.collision
    decreases cols
  {
    if cols == 0 then c
    else
      var d := PlotRow(c, bits, xp, yp, row, cols - 1);
      if SpriteBit(bits, cols - 1) then
        var p := Cell(xp, yp, row, cols - 1);
        Canvas(d.cells[p := Flip(d.cells[p])], d.collision || d.cells[p] == 1)
      else d
  }

  /** The first `rows` rows of a sprite, drawn row after row. */
  function PlotRows(c: Canvas, sprite: seq<Byte>, xp: Byte, yp: Byte, rows: nat): (r: Canvas)
    requires |c.cells| == DISPLAY_SIZE && rows <= |sprite|
    ensures |r.cells| == DISPLAY_SIZE
    ensures Binary(c.cells) ==> Binary(r.cells)
    decreases rows
  {
    if rows == 0 then c
    else PlotRow(PlotRows(c, sprite, xp, yp, rows - 1), sprite[rows - 1], xp, yp, rows - 1, 8)
  }

  /** The n sprite rows at I..I+n-1. */
  function SpriteAt(s: State, n: Nibble): (sprite: seq<Byte>)
    requires Valid(s)
    ensures |sprite| == n
    ensures forall i | 0 <= i < n :: sprite[i] == Load(s, s.index + i)
  {
    seq(n, i requires 0 <= i < n => s.memory[(s.index + i) % MEMORY_SIZE])
  }

  /**
   * Dxyn: XOR the n-row sprite at I onto the framebuffer at (Vx, Vy), the
   * coordinates being read before VF changes; VF := 1 if any lit pixel was
   * turned off, else 0; the frame is marked for redrawing.
   */
  function DrawSprite(s: State, x: Nibble, y: Nibble, n: Nibble): (t: State)
    requires Valid(s)
    ensures Valid(t) && t == s.(display := t.display, registers := t.registers, drawFlag := true)
    ensures t.registers == s.registers[VF := t.registers[VF]] && t.registers[VF] <= 1
  {
    var r := PlotRows(Canvas(s.display, false), SpriteAt(s, n), V(s, x), V(s, y), n);
    s.(display := r.cells, registers := s.registers[VF := if r.collision then 1 else 0], drawFlag := true)
  }

  /** Whether a skip instruction's condition holds in state `s`. */
  predicate SkipTaken(s: State, i: Instr)
    requires Valid(s)
  {
    match i
    case SkipEqByte(x, kk) => V(s, x) == kk
    case SkipNeByte(x, kk) => V(s, x) != kk
    case SkipEqReg(x, y) => V(s, x) == V(s, y)
    case SkipNeReg(x, y) => V(s, x) != V(s, y)
    case SkipPressed(x) => KeyDown(s, V(s, x))
    case SkipNotPressed(x) => !KeyDown(s, V(s, x))
    case _ => false
  }

  /** Every skip executes as SkipIf on its condition. */
  lemma ExecuteSkip(s: State, i: Instr, rnd: Byte)
    requires Valid(s) && IsSkip(i)
    ensures Execute(s, i, rnd) == Outcome(Executed, SkipIf(s, SkipTaken(s, i)))
  {
  }

  /** 1nnn: pc takes nnn and nothing else changes. */
  lemma ExecuteJump(s: State, nnn: Addr, rnd: Byte)
    requires Valid(s)
    ensures Execute(s, Jump(nnn), rnd) == Outcome(Executed, s.(pc := nnn))
  {
  }

  /** Annn: I takes nnn and nothing else changes. */
  lemma ExecuteLoadIndex(s: State, nnn: Addr, rnd: Byte)
    requires Valid(s)
    ensures Execute(s, LoadIndex(nnn), rnd) == Outcome(Executed, s.(index := nnn))
  {
  }

  /** Bnnn: pc takes nnn + V0, a sum that never leaves 16 bits, and nothing else changes. */
  lemma ExecuteJumpV0(s: State, nnn: Addr, rnd: Byte)
    requires Valid(s)
    ensures nnn + V(s, 0) < WORD_MODULUS
    ensures Execute(s, JumpV0(nnn), rnd) == Outcome(Executed, s.(pc := nnn + V(s, 0)))
  {
  }

  /**
   * 6xkk and 7xkk write Vx and no other register: kk, respectively
   * Vx + kk wrapped to 8 bits with no carry into VF.
   */
  lemma ExecuteLoadAdd(s: State, i: Instr, rnd: Byte)
    requires Valid(s) && (i.LoadByte? || i.AddByte?)
    ensures Execute(s, i, rnd).status == Executed
    ensures var t := Execute(s, i, rnd).next;
      && t == s.(registers := t.registers)
      && (forall q | 0 <= q < NUM_REGISTERS && q != i.x :: t.registers[q] == s.registers[q])
      && (i.LoadByte? ==> t.registers[i.x] == i.kk)
      && (i.AddByte? ==> (t.registers[i.x] == V(s, i.x) + i.kk <==> V(s, i.x) + i.kk < 256))
      && (i.AddByte? ==> (t.registers[i.x] == V(s, i.x) + i.kk - 256 <==> V(s, i.x) + i.kk >= 256))
  {
  }

  /** Cxkk: Vx takes the random byte masked by kk, and no other register changes. */
  lemma ExecuteRandom(s: State, x: Nibble, kk: Byte, rnd: Byte)
    requires Valid(s)
    ensures Execute(s, Random(x, kk), rnd).status == Executed
    ensures var t := Execute(s, Random(x, kk), rnd).next;
      && t == s.(registers := t.registers)
      && t.registers[x] == BitAnd(rnd, kk)
      && (forall q | 0 <= q < NUM_REGISTERS && q != x :: t.registers[q] == s.registers[q])
  {
  }

  // ------------------------------------------------------------------ step

  /** Execute one decoded instruction in the state after its fetch. */
  function Execute(s: State, i: Instr, rnd: Byte): (r: Outcome)
    requires Valid(s)
    ensures Valid(r.next)
    ensures r.status != Executed ==> r.next == s
    ensures r.status == StackOverflow <==> i.Call? && |s.stack| == STACK_SIZE
    ensures r.status == StackUnderflow <==> i.Ret? && |s.stack| == 0
  {
    match i
    case Cls => Outcome(Executed, ClearScreen(s))
    case Ret => Return(s)
    case Jump(nnn) => Outcome(Executed, s.(pc := nnn))
    case Call(nnn) => CallSubroutine(s, nnn)
    case SkipEqByte(x, kk) => Outcome(Executed, SkipIf(s, V(s, x) == kk))
    case SkipNeByte(x, kk) => Outcome(Executed, SkipIf(s, V(s, x) != kk))
    case SkipEqReg(x, y) => Outcome(Executed, SkipIf(s, V(s, x) == V(s, y)))
    case LoadByte(x, kk) => Outcome(Executed, SetRegister(s, x, kk))
    case AddByte(x, kk) => Outcome(Executed, SetRegister(s, x, (V(s, x) + kk) % 256))
    case Alu(aop, x, y) => Outcome(Executed, ExecuteAlu(s, aop, x, y))
    case SkipNeReg(x, y) => Outcome(Executed, SkipIf(s, V(s, x) != V(s, y)))
    case LoadIndex(nnn) => Outcome(Executed, s.(index := nnn))
    case JumpV0(nnn) => Outcome(Executed, s.(pc := nnn + V(s, 0)))
    case Random(x, kk) => Outcome(Executed, SetRegister(s, x, BitAnd(rnd, kk)))
    case Draw(x, y, n) => Outcome(Executed, DrawSprite(s, x, y, n))
    case SkipPressed(x) => Outcome(Executed, SkipIf(s, KeyDown(s, V(s, x))))
    case SkipNotPressed(x) => Outcome(Executed, SkipIf(s, !KeyDown(s, V(s, x))))
    case Misc(mop, x) => Outcome(Executed, ExecuteMisc(s, mop, x))
    case Unknown => Outcome(Executed, s)
  }

  /** The `FxNN` family. */
  function ExecuteMisc(s: State, mop: MiscOp, x: Nibble): (t: State)
    requires Valid(s)
    ensures Valid(t)
    ensures t.display == s.display && t.keys == s.keys && t.stack == s.stack && t.drawFlag == s.drawFlag
    ensures mop != WaitKey ==> t.pc == s.pc
    ensures mop == GetDelay ==>
      && t == s.(registers := t.registers) && t.registers[x] == s.delayTimer
      && forall r | 0 <= r < NUM_REGISTERS && r != x :: t.registers[r] == s.registers[r]
    ensures mop == SetDelay ==> t == s.(delayTimer := V(s, x))
    ensures mop == SetSound ==> t == s.(soundTimer := V(s, x))
    ensures mop == AddIndex ==>
      && t == s.(index := t.index)
      && (t.index == s.index + V(s, x) <==> s.index + V(s, x) < WORD_MODULUS)
      && (t.index == s.index + V(s, x) - WORD_MODULUS <==> s.index + V(s, x) >= WORD_MODULUS)
  {
    match mop
    case GetDelay => SetRegister(s, x, s.delayTimer)
    case WaitKey => WaitForKey(s, x)
    case SetDelay => s.(delayTimer := V(s, x))
    case SetSound => s.(soundTimer := V(s, x))
    case AddIndex => s.(index := (s.index + V(s, x)) % WORD_MODULUS)
    case Glyph => PointToGlyph(s, x)
    case Bcd => StoreBcd(s, x)
    case StoreRegs => StoreRegisters(s, x)
    case LoadRegs => LoadRegisters(s, x)
  }

  /**
   * `execute_instruction`: fetch the word at pc, advance pc by 2, decode
   * and execute. A rejected step leaves the state as it was after the fetch.
   */
  function Exec(s: State, rnd: Byte): (r: Outcome)
    requires Valid(s)
    ensures Valid(r.next)
    ensures r.status != Executed ==> r.next == s.(pc := Advance(s.pc))
  {
    Execute(s.(pc := Advance(s.pc)), Decode(Fetch(s)), rnd)
  }

  // ------------------------------------------------------ timers and load

  /** `decrement_timers`: each timer above zero goes down by one; a timer at zero stays there. */
  function Tick(s: State): (t: State)
    requires Valid(s)
    ensures Valid(t) && t == s.(delayTimer := t.delayTimer, soundTimer := t.soundTimer)
    ensures t.delayTimer <= s.delayTimer && t.soundTimer <= s.soundTimer
    ensures t.delayTimer == s.delayTimer <==> s.delayTimer == 0
    ensures t.soundTimer == s.soundTimer <==> s.soundTimer == 0
    ensures s.delayTimer - 1 <= t.delayTimer && s.soundTimer - 1 <= t.soundTimer
  {
    s.(delayTimer := if s.delayTimer > 0 then s.delayTimer - 1 else 0,
       soundTimer := if s.soundTimer > 0 then s.soundTimer - 1 else 0)
  }

  /** `k` timer ticks in a row. */
  function Ticks(s: State, k: nat): (t: State)
    requires Valid(s)
    ensures Valid(t)
    decreases k
  {
    if k == 0 then s else Tick(Ticks(s, k - 1))
  }

  /**
   * The copy of a program image to address 512. An image longer than the
   * memory above 512 is rejected (`None`) and nothing is written.
   */
  function LoadProgram(s: State, image: seq<Byte>): (r: Option<State>)
    requires Valid(s)
    ensures r.Some? <==> |image| <= MAX_PROGRAM_SIZE
    ensures r.Some? ==>
      && Valid(r.value) && r.value == s.(memory := r.value.memory)
      && r.value.memory[PROGRAM_START..PROGRAM_START + |image|] == image
      && r.value.memory[..PROGRAM_START] == s.memory[..PROGRAM_START]
      && r.value.memory[PROGRAM_START + |image|..] == s.memory[PROGRAM_START + |image|..]
  {
    if |image| > MAX_PROGRAM_SIZE then None
    else Some(s.(memory := s.memory[..PROGRAM_START] + image + s.memory[PROGRAM_START + |image|..]))
  }

  // ------------------------------------------------- address arithmetic

  /** A cell `d` places past `base` (wrapping round `m` cells) is exactly the one at distance `d`. */
  lemma DistanceFrom(base: int, d: nat, a: int, m: nat)
    requires m == DISPLAY_SIZE || m == MEMORY_SIZE
    requires d < m && 0 <= a < m
    ensures (a - base) % m == d <==> a == (base + d) % m
  {
    var q := (base + d) / m;
    assert (base + d) % m == base + d - q * m;
    if a == (base + d) % m {
      DivModUnique(a - base, m, -q, d);
    } else if (a - base) % m == d {
      var q' := (a - base) / m;
      assert a == base + d + q' * m;
      DivModUnique(base + d, m, -q', a);
    }
  }

  /** An address `d` bytes past `base` (wrapping) is exactly the one at offset `d`. */
  lemma OffsetOfAddress(base: int, d: nat, a: int)
    requires d < MEMORY_SIZE && 0 <= a < MEMORY_SIZE
    ensures Offset(base, a) == d <==> a == (base + d) % MEMORY_SIZE
  {
    DistanceFrom(base, d, a, MEMORY_SIZE);
  }

  /** Two different small offsets from one base name different memory cells. */
  lemma AddressesApart(base: int, d1: nat, d2: nat)
    requires d1 < d2 < MEMORY_SIZE
    ensures (base + d1) % MEMORY_SIZE != (base + d2) % MEMORY_SIZE
  {
    OffsetOfAddress(base, d1, (base + d1) % MEMORY_SIZE);
    OffsetOfAddress(base, d2, (base + d1) % MEMORY_SIZE);
  }
}
