/**
 * The `Chip8` class: the machine state held in arrays and fields that the
 * methods update in place. Each method is proved to leave the machine in
 * the state the corresponding function of module Semantics gives for the
 * state it found.
 */
module Chip8 {
  import opened MachineState
  import opened Decoder
  import opened Semantics

  class Machine {
    const memory: array<Byte>
    const display: array<Byte>
    const registers: array<Byte>
    const keys: array<bool>
    /** Return addresses; stack[..sp] are live, the most recent at sp - 1. */
    const stack: array<Word>
    var sp: nat
    var pc: Word
    var index: Word
    var delayTimer: Byte
    var soundTimer: Byte
    var drawFlag: bool

    ghost predicate Valid()
      reads this, memory, display, registers, keys, stack
    {
      && memory.Length == MEMORY_SIZE
      && display.Length == DISPLAY_SIZE
      && registers.Length == NUM_REGISTERS
      && keys.Length == NUM_KEYS
      && stack.Length == STACK_SIZE
      && memory != display && memory != registers && display != registers
      && sp <= STACK_SIZE
      && forall c | 0 <= c < DISPLAY_SIZE :: display[c] <= 1
    }

    /** The machine as a value. */
    ghost function View(): (s: State)
      reads this, memory, display, registers, keys, stack
      requires Valid()
      ensures MachineState.Valid(s)
    {
      State(memory[..], display[..], registers[..], keys[..], stack[..sp],
            pc, index, delayTimer, soundTimer, drawFlag)
    }

    /** A fresh machine: the font at address 0, everything else zero, pc at 512. */
    constructor ()
      ensures Valid() && View() == Initial()
      ensures fresh(memory) && fresh(display) && fresh(registers) && fresh(keys) && fresh(stack)
    {
      memory := new Byte[MEMORY_SIZE]((a: nat) => if a < |FONTSET| then FONTSET[a] else 0);
      display := new Byte[DISPLAY_SIZE](_ => 0);
      registers := new Byte[NUM_REGISTERS](_ => 0);
      keys := new bool[NUM_KEYS](_ => false);
      stack := new Word[STACK_SIZE](_ => 0);
      sp := 0;
      pc := PROGRAM_START;
      index := 0;
      delayTimer := 0;
      soundTimer := 0;
      drawFlag := false;
      new;
      assert memory[..] == Initial().memory;
    }

    /**
     * `load_rom`, with the file's bytes given as `image`: they are copied
     * to address 512 on. An image that does not fit is refused and memory
     * is left as it was.
     */
    method LoadRom(image: seq<Byte>) returns (ok: bool)
      requires Valid()
      modifies memory
      ensures Valid()
      ensures ok <==> |image| <= MAX_PROGRAM_SIZE
      ensures ok ==> View() == LoadProgram(old(View()), image).value
      ensures !ok ==> View() == old(View())
    {
      if |image| > MAX_PROGRAM_SIZE {
        return false;
      }
      var i := 0;
      while i < |image|
        invariant 0 <= i <= |image|
        invariant memory[..] == old(memory[..PROGRAM_START]) + image[..i] + old(memory[PROGRAM_START + i..])
      {
        memory[PROGRAM_START + i] := image[i];
        i := i + 1;
      }
      assert image[..i] == image;
      return true;
    }

    /** `decrement_timers`: each timer above zero counts down by one. */
    method DecrementTimers()
      requires Valid()
      modifies this
      ensures Valid() && View() == Tick(old(View()))
    {
      if delayTimer > 0 {
        delayTimer := delayTimer - 1;
      }
      if soundTimer > 0 {
        soundTimer := soundTimer - 1;
      }
    }

    /** `pixel_state`: whether pixel i is lit. */
    method PixelState(i: nat) returns (p: Byte)
      requires Valid() && i < DISPLAY_SIZE
      ensures p <= 1 && p == View().display[i]
    {
      p := display[i];
    }

    /** `handle_keypress`: key k changes between up and down. */
    method HandleKeypress(k: nat)
      requires Valid() && k < NUM_KEYS
      modifies keys
      ensures Valid() && View() == ToggleKey(old(View()), k)
    {
      keys[k] := !keys[k];
    }

    method GetDrawFlag() returns (f: bool)
      requires Valid()
      ensures f == View().drawFlag
    {
      f := drawFlag;
    }

    method SetDrawFlag(f: bool)
      requires Valid()
      modifies this
      ensures Valid() && View() == old(View()).(drawFlag := f)
    {
      drawFlag := f;
    }

    /**
     * `execute_instruction`: fetch the word at pc, advance pc, decode and
     * execute. A call on a full stack or a return on an empty one is
     * refused with a status other than Executed.
     */
    method Step(rnd: Byte) returns (status: Status)
      requires Valid()
      modifies this, memory, display, registers, stack
      ensures Valid() && Outcome(status, View()) == Exec(old(View()), rnd)
    {
      var op: Word := memory[pc % MEMORY_SIZE] as int * 256 + memory[(pc + 1) % MEMORY_SIZE];
      assert op == Fetch(View());
      pc := (pc + 2) % WORD_MODULUS;
      status := ExecuteInstruction(Decode(op), rnd);
    }

    /** One decoded instruction, pc already past it. */
    method ExecuteInstruction(instr: Instr, rnd: Byte) returns (status: Status)
      requires Valid()
      modifies this, memory, display, registers, stack
      ensures Valid() && Outcome(status, View()) == Execute(old(View()), instr, rnd)
    {
      if instr.Cls? || instr.Ret? || instr.Jump? || instr.Call? || instr.LoadIndex? || instr.JumpV0? || instr.Unknown? {
        status := ControlFlow(instr);
      } else if IsSkip(instr) {
        ExecuteSkip(old(View()), instr, rnd);
        Skip(instr);
        status := Executed;
      } else {
        RegisterOperation(instr, rnd);
        status := Executed;
      }
    }

    /** 00E0, 00EE, 1nnn, 2nnn, Annn, Bnnn and the words no instruction is assigned to. */
    method ControlFlow(instr: Instr) returns (status: Status)
      requires Valid()
      requires instr.Cls? || instr.Ret? || instr.Jump? || instr.Call? || instr.LoadIndex? || instr.JumpV0? || instr.Unknown?
      modifies this, display, stack
      ensures Valid() && forall rnd: Byte :: Outcome(status, View()) == Execute(old(View()), instr, rnd)
    {
      status := Executed;
      match instr
      case Cls =>
        ClearScreen();
      case Ret =>
        status := Return();
      case Jump(nnn) =>
        pc := nnn;
      case Call(nnn) =>
        status := Call(nnn);
      case LoadIndex(nnn) =>
        index := nnn;
      case JumpV0(nnn) =>
        pc := nnn + registers[0];
      case Unknown =>
      case _ =>
        assert false;
    }

    /** 3xkk, 4xkk, 5xy0, 9xy0, Ex9E, ExA1: pc moves past the next instruction when the condition holds. */
    method Skip(instr: Instr)
      requires Valid() && IsSkip(instr)
      modifies this
      ensures Valid() && View() == SkipIf(old(View()), SkipTaken(old(View()), instr))
    {
      ghost var s := View();
      var taken: bool;
      match instr {
        case SkipEqByte(x, kk) =>
          taken := registers[x] == kk;
        case SkipNeByte(x, kk) =>
          taken := registers[x] != kk;
        case SkipEqReg(x, y) =>
          taken := registers[x] == registers[y];
        case SkipNeReg(x, y) =>
          taken := registers[x] != registers[y];
        case SkipPressed(x) =>
          var k := registers[x];
          taken := k < NUM_KEYS && keys[k];
        case SkipNotPressed(x) =>
          var k := registers[x];
          taken := !(k < NUM_KEYS && keys[k]);
        case _ =>
          assert false;
      }
      assert taken == SkipTaken(s, instr);
      if taken {
        pc := (pc + 2) % WORD_MODULUS;
      }
      assert View() == SkipIf(s, taken);
    }

    /** 6xkk, 7xkk, 8xyN, Cxkk, Dxyn and FxNN. */
    method RegisterOperation(instr: Instr, rnd: Byte)
      requires Valid()
      requires instr.LoadByte? || instr.AddByte? || instr.Alu? || instr.Random? || instr.Draw? || instr.Misc?
      modifies this, memory, display, registers
      ensures Valid() && Outcome(Executed, View()) == Execute(old(View()), instr, rnd)
    {
      match instr
      case LoadByte(x, kk) =>
        registers[x] := kk;
      case AddByte(x, kk) =>
        registers[x] := (registers[x] as int + kk) % 256;
      case Alu(aop, x, y) =>
        Arithmetic(aop, x, y);
      case Random(x, kk) =>
        registers[x] := BitAnd(rnd, kk);
      case Draw(x, y, n) =>
        Draw(x, y, n);
      case Misc(mop, x) =>
        Miscellaneous(mop, x);
      case _ =>
        assert false;
    }

    /** 00E0. */
    method ClearScreen()
      requires Valid()
      modifies this, display
      ensures Valid() && View() == Semantics.ClearScreen(old(View()))
    {
      forall c | 0 <= c < display.Length {
        display[c] := 0;
      }
      drawFlag := true;
    }

    /** 2nnn: push pc and jump, unless the stack is full. */
    method Call(nnn: Addr) returns (status: Status)
      requires Valid()
      modifies this, stack
      ensures Valid() && Outcome(status, View()) == CallSubroutine(old(View()), nnn)
    {
      if sp == STACK_SIZE {
        return StackOverflow;
      }
      stack[sp] := pc;
      sp := sp + 1;
      pc := nnn;
      assert stack[..sp] == old(stack[..sp]) + [old(pc)];
      return Executed;
    }

    /** 00EE: pop pc, unless the stack is empty. */
    method Return() returns (status: Status)
      requires Valid()
      modifies this
      ensures Valid() && Outcome(status, View()) == Semantics.Return(old(View()))
    {
      if sp == 0 {
        return StackUnderflow;
      }
      sp := sp - 1;
      pc := stack[sp];
      return Executed;
    }

    /** The 8xyN family: operands are read first, then Vx is written, then VF. */
    method Arithmetic(aop: AluOp, x: Nibble, y: Nibble)
      requires Valid()
      modifies registers
      ensures Valid() && View() == ExecuteAlu(old(View()), aop, x, y)
    {
      var vx, vy := registers[x], registers[y];
      match aop
      case Move =>
        registers[x] := vy;
      case Or =>
        registers[x] := BitOr(vx, vy);
      case And =>
        registers[x] := BitAnd(vx, vy);
      case Xor =>
        registers[x] := BitXor(vx, vy);
      case Add =>
        registers[x] := (vx as int + vy) % 256;
        registers[VF] := if vx as int + vy > 255 then 1 else 0;
      case Sub =>
        registers[x] := (vx as int - vy) % 256;
        registers[VF] := if vx >= vy then 1 else 0;
      case Shr =>
        registers[x] := vx / 2;
        registers[VF] := vx % 2;
      case SubN =>
        registers[x] := (vy as int - vx) % 256;
        registers[VF] := if vy >= vx then 1 else 0;
      case Shl =>
        registers[x] := (vx as int * 2) % 256;
        registers[VF] := vx / 128;
    }

    /**
     * Dxyn: the coordinates are read before VF is cleared; each set bit of
     * each sprite row flips one pixel, and VF becomes 1 once a lit pixel
     * is hit.
     */
    method Draw(x: Nibble, y: Nibble, n: Nibble)
      requires Valid()
      modifies this, display, registers
      ensures Valid() && View() == DrawSprite(old(View()), x, y, n)
    {
      ghost var s := View();
      var xp, yp := registers[x], registers[y];
      registers[VF] := 0;
      DrawRows(xp, yp, n, SpriteAt(s, n));
      drawFlag := true;
    }

    /** The n sprite rows at I, I+1, ..., drawn row after row. */
    method DrawRows(xp: Byte, yp: Byte, n: Nibble, ghost sprite: seq<Byte>)
      requires Valid() && registers[VF] == 0
      requires |sprite| == n && forall i | 0 <= i < n :: sprite[i] == memory[(index + i) % MEMORY_SIZE]
      modifies display, registers
      ensures Valid()
      ensures var r := PlotRows(Canvas(old(display[..]), false), sprite, xp, yp, n);
        display[..] == r.cells && registers[..] == old(registers[..])[VF := if r.collision then 1 else 0]
    {
      ghost var start := Canvas(display[..], false);
      var row := 0;
      while row < n
        invariant 0 <= row <= n && Valid()
        invariant unchanged(this, memory)
        invariant display[..] == PlotRows(start, sprite, xp, yp, row).cells
        invariant registers[..] == old(registers[..])[VF := if PlotRows(start, sprite, xp, yp, row).collision then 1 else 0]
      {
        var bits := memory[(index + row) % MEMORY_SIZE];
        ghost var prior := PlotRows(start, sprite, xp, yp, row);
        assert bits == sprite[row];
        assert PlotRows(start, sprite, xp, yp, row + 1) == PlotRow(prior, bits, xp, yp, row, 8);
        ghost var regs := registers[..];
        DrawRow(bits, xp, yp, row, prior);
        ghost var flag: Byte := if PlotRow(prior, bits, xp, yp, row, 8).collision then 1 else 0;
        assert registers[..] == regs[VF := flag] == old(registers[..])[VF := flag];
        row := row + 1;
      }
    }

    /**
     * One sprite row: each set bit, from the most significant down, flips
     * one pixel; VF becomes 1 when the pixel was lit.
     */
    method DrawRow(bits: Byte, xp: Byte, yp: Byte, row: nat, ghost before: Canvas)
      requires Valid() && before.cells == display[..]
      requires registers[VF] == if before.collision then 1 else 0
      modifies display, registers
      ensures Valid()
      ensures var after := PlotRow(before, bits, xp, yp, row, 8);
        display[..] == after.cells && registers[..] == old(registers[..])[VF := if after.collision then 1 else 0]
    {
      var col := 0;
      while col < 8
        invariant 0 <= col <= 8 && Valid()
        invariant display[..] == PlotRow(before, bits, xp, yp, row, col).cells
        invariant registers[..] == old(registers[..])[VF := if PlotRow(before, bits, xp, yp, row, col).collision then 1 else 0]
      {
        if SpriteBit(bits, col) {
          var p := (xp + col + (yp + row) * DISPLAY_WIDTH) % DISPLAY_SIZE;
          assert p == Cell(xp, yp, row, col);
          if display[p] == 1 {
            registers[VF] := 1;
          }
          display[p] := Flip(display[p]);
        }
        col := col + 1;
      }
    }

    /** The FxNN family. */
    method Miscellaneous(mop: MiscOp, x: Nibble)
      requires Valid()
      modifies this, memory, registers
      ensures Valid() && View() == ExecuteMisc(old(View()), mop, x)
    {
      match mop
      case GetDelay =>
        registers[x] := delayTimer;
      case WaitKey =>
        WaitForKey(x);
      case SetDelay =>
        delayTimer := registers[x];
      case SetSound =>
        soundTimer := registers[x];
      case AddIndex =>
        index := (index + registers[x]) % WORD_MODULUS;
      case Glyph =>
        index := registers[x] * GLYPH_HEIGHT;
      case Bcd =>
        StoreBcd(x);
      case StoreRegs =>
        StoreRegisters(x);
      case LoadRegs =>
        LoadRegisters(x);
    }

    /** Fx33: the hundreds, tens and units digits of Vx go to memory at I, I+1 and I+2. */
    method StoreBcd(x: Nibble)
      requires Valid()
      modifies memory
      ensures Valid() && View() == Semantics.StoreBcd(old(View()), x)
    {
      var v := registers[x];
      memory[index % MEMORY_SIZE] := v / 100;
      memory[(index + 1) % MEMORY_SIZE] := (v / 10) % 10;
      memory[(index + 2) % MEMORY_SIZE] := v % 10;
    }

    /** Fx0A: Vx := the lowest key that is down; with none down, pc steps back so the wait repeats. */
    method WaitForKey(x: Nibble)
      requires Valid()
      modifies this, registers
      ensures Valid() && View() == Semantics.WaitForKey(old(View()), x)
    {
      var waiting := true;
      var i := 0;
      while waiting && i < NUM_KEYS
        invariant 0 <= i <= NUM_KEYS && Valid() && unchanged(this)
        invariant waiting ==> FirstPressed(keys[..], 0) == FirstPressed(keys[..], i) && registers[..] == old(registers[..])
        invariant !waiting ==> i < NUM_KEYS && FirstPressed(keys[..], 0) == Some(i) && registers[..] == old(registers[..])[x := i]
      {
        if keys[i] {
          registers[x] := i;
          waiting := false;
        } else {
          i := i + 1;
        }
      }
      if waiting {
        assert FirstPressed(keys[..], 0).None?;
        pc := (pc - 2) % WORD_MODULUS;
      } else {
        assert View() == SetRegister(old(View()), x, i);
      }
    }

    /** Fx55: V0..Vx go to memory at I, I+1, ..., I+x. */
    method StoreRegisters(x: Nibble)
      requires Valid()
      modifies memory
      ensures Valid() && View() == Semantics.StoreRegisters(old(View()), x)
    {
      var i := 0;
      while i <= x
        invariant 0 <= i <= x + 1
        invariant forall a | 0 <= a < MEMORY_SIZE ::
          memory[a] == if Offset(index, a) < i then registers[Offset(index, a)] else old(memory[a])
      {
        ghost var w := (index + i) % MEMORY_SIZE;
        forall a | 0 <= a < MEMORY_SIZE
          ensures Offset(index, a) == i <==> a == w
        {
          OffsetOfAddress(index, i, a);
        }
        memory[(index + i) % MEMORY_SIZE] := registers[i];
        i := i + 1;
      }
      assert memory[..] == Semantics.StoreRegisters(old(View()), x).memory;
    }

    /** Fx65: V0..Vx are read from memory at I, I+1, ..., I+x. */
    method LoadRegisters(x: Nibble)
      requires Valid()
      modifies registers
      ensures Valid() && View() == Semantics.LoadRegisters(old(View()), x)
    {
      var i := 0;
      while i <= x
        invariant 0 <= i <= x + 1
        invariant forall r | 0 <= r < NUM_REGISTERS ::
          registers[r] == if r < i then memory[(index + r) % MEMORY_SIZE] else old(registers[r])
      {
        registers[i] := memory[(index + i) % MEMORY_SIZE];
        i := i + 1;
      }
      assert registers[..] == Semantics.LoadRegisters(old(View()), x).registers;
    }
  }
}
