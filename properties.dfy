/**
 * Properties of whole steps and of sequences of operations: what a step
 * leaves alone, the call/return and store/load round trips, the key-wait
 * self-loop, timer countdown, key toggling and program loading.
 */
module Properties {
  import opened MachineState
  import opened Decoder
  import opened Semantics

  /** The state after `rnds` steps, the i-th step being given the random byte rnds[i]. */
  function Run(s: State, rnds: seq<Byte>): (t: State)
    requires Valid(s)
    ensures Valid(t)
    decreases |rnds|
  {
    if rnds == [] then s else Run(Exec(s, rnds[0]).next, rnds[1..])
  }

  /** An unrecognised word is a no-op: the step only moves pc past it. */
  lemma UnrecognisedIsNoOp(s: State, rnd: Byte)
    requires Valid(s) && Unrecognised(Fetch(s))
    ensures Exec(s, rnd) == Outcome(Executed, s.(pc := Advance(s.pc)))
  {
    DecodeUnknown(Fetch(s));
  }

  /**
   * 3xkk, 4xkk, 5xy0, 9xy0, Ex9E, ExA1: pc moves on by 4 when the condition
   * holds and by 2 otherwise (both modulo 2^16); nothing else changes.
   */
  lemma SkipStep(s: State, rnd: Byte)
    requires Valid(s) && IsSkip(Decode(Fetch(s)))
    ensures Exec(s, rnd).status == Executed
    ensures Exec(s, rnd).next == s.(pc := Exec(s, rnd).next.pc)
    ensures Exec(s, rnd).next.pc ==
      if SkipTaken(s, Decode(Fetch(s))) then Advance(Advance(s.pc)) else Advance(s.pc)
  {
  }

  /**
   * Every instruction other than a jump, call, return, skip or key wait
   * leaves pc just past itself.
   */
  lemma StraightLinePc(s: State, rnd: Byte)
    requires Valid(s)
    requires var i := Decode(Fetch(s));
      !(i.Jump? || i.Call? || i.Ret? || i.JumpV0? || IsSkip(i) || (i.Misc? && i.mop == WaitKey))
    ensures Exec(s, rnd).status == Executed && Exec(s, rnd).next.pc == Advance(s.pc)
  {
    var t := s.(pc := Advance(s.pc));
    match Decode(Fetch(s))
    case Alu(aop, x, y) =>
      assert ExecuteAlu(t, aop, x, y).pc == t.pc;
    case Misc(mop, x) =>
      assert mop != WaitKey;
    case _ =>
  }

  /**
   * A call followed by a return (at the called address) comes back to the
   * instruction after the call with the stack as it was; the two steps
   * together only move pc on by 2.
   */
  lemma CallThenReturn(s: State, rnd1: Byte, rnd2: Byte)
    requires Valid(s) && Decode(Fetch(s)).Call? && |s.stack| < STACK_SIZE
    requires Decode(Fetch(Exec(s, rnd1).next)) == Ret
    ensures Exec(s, rnd1).status == Executed && Exec(s, rnd1).next.pc == Decode(Fetch(s)).nnn
    ensures Exec(Exec(s, rnd1).next, rnd2) == Outcome(Executed, s.(pc := Advance(s.pc)))
  {
    var t := Exec(s, rnd1).next;
    var u := Exec(t, rnd2).next;
    assert t.stack == s.stack + [Advance(s.pc)];
    assert u.stack + [u.pc] == t.stack;
  }

  /** A call with 16 return addresses on the stack, or a return with none, is rejected. */
  lemma StackLimits(s: State, rnd: Byte)
    requires Valid(s)
    ensures Decode(Fetch(s)).Call? && |s.stack| == STACK_SIZE ==>
      Exec(s, rnd) == Outcome(StackOverflow, s.(pc := Advance(s.pc)))
    ensures Decode(Fetch(s)) == Ret && |s.stack| == 0 ==>
      Exec(s, rnd) == Outcome(StackUnderflow, s.(pc := Advance(s.pc)))
    ensures |s.stack| - 1 <= |Exec(s, rnd).next.stack| <= |s.stack| + 1
  {
  }

  /** Fx55: memory at I..I+x holds V0..Vx afterwards; every other cell and all registers keep their values. */
  lemma StoreRegistersWindow(s: State, x: Nibble)
    requires Valid(s)
    ensures var t := StoreRegisters(s, x);
      && (forall i | 0 <= i <= x :: Load(t, s.index + i) == V(s, i))
      && (forall a | 0 <= a < MEMORY_SIZE && Offset(s.index, a) > x :: t.memory[a] == s.memory[a])
      && t.registers == s.registers && t.index == s.index
  {
    var t := StoreRegisters(s, x);
    forall i | 0 <= i <= x
      ensures Load(t, s.index + i) == V(s, i)
    {
      OffsetOfAddress(s.index, i, (s.index + i) % MEMORY_SIZE);
    }
  }

  /** Fx65: V0..Vx get the bytes at I..I+x (modulo 4096); the other registers, memory and I keep their values. */
  lemma LoadRegistersWindow(s: State, x: Nibble)
    requires Valid(s)
    ensures var t := LoadRegisters(s, x);
      && (forall r | 0 <= r <= x :: t.registers[r] == Load(s, s.index + r))
      && (forall r | x < r < NUM_REGISTERS :: t.registers[r] == s.registers[r])
      && t.memory == s.memory && t.index == s.index
  {
  }

  /** Fx65 right after Fx55 with the same I and x changes nothing: V0..Vx come back as they were stored. */
  lemma StoreThenLoad(s: State, x: Nibble)
    requires Valid(s)
    ensures LoadRegisters(StoreRegisters(s, x), x) == StoreRegisters(s, x)
    ensures LoadRegisters(StoreRegisters(s, x), x).registers == s.registers
  {
    var t := StoreRegisters(s, x);
    StoreRegistersWindow(s, x);
    var u := LoadRegisters(t, x);
    assert u.registers == t.registers;
  }

  /** A step on an Fx-- word executes that operation on the state past the fetch. */
  lemma MiscStep(s: State, rnd: Byte, mop: MiscOp, x: Nibble)
    requires Valid(s) && Decode(Fetch(s)) == Misc(mop, x)
    ensures Exec(s, rnd) == Outcome(Executed, ExecuteMisc(s.(pc := Advance(s.pc)), mop, x))
  {
  }

  /** Two steps run one after the other. */
  lemma RunTwo(s: State, rnd1: Byte, rnd2: Byte)
    requires Valid(s)
    ensures Run(s, [rnd1, rnd2]) == Exec(Exec(s, rnd1).next, rnd2).next
  {
    var t := Exec(s, rnd1).next;
    var rest: seq<Byte> := [rnd2];
    assert [rnd1, rnd2][1..] == rest;
    assert Run(s, [rnd1, rnd2]) == Run(t, rest);
    assert rest[1..] == [];
    assert Run(t, rest) == Run(Exec(t, rnd2).next, []);
  }

  /** The same round trip over two whole steps: Fx55 at pc followed by Fx65 at pc + 2. */
  lemma StoreThenLoadSteps(s: State, x: Nibble, rnd1: Byte, rnd2: Byte)
    requires Valid(s) && Decode(Fetch(s)) == Misc(StoreRegs, x)
    requires Decode(Fetch(Exec(s, rnd1).next)) == Misc(LoadRegs, x)
    ensures Run(s, [rnd1, rnd2]).registers == s.registers
    ensures Run(s, [rnd1, rnd2]) == Exec(s, rnd1).next.(pc := Advance(Advance(s.pc)))
  {
    RunTwo(s, rnd1, rnd2);
    var s1 := s.(pc := Advance(s.pc));
    var t1 := StoreRegisters(s1, x);
    MiscStep(s, rnd1, StoreRegs, x);
    assert Exec(s, rnd1).next == t1;
    var s2 := t1.(pc := Advance(t1.pc));
    MiscStep(t1, rnd2, LoadRegs, x);
    assert Exec(t1, rnd2).next == LoadRegisters(s2, x);
    StoreThenLoad(s1, x);
    assert LoadRegisters(s2, x) == s2 by {
      assert LoadRegisters(s2, x).registers == LoadRegisters(t1, x).registers;
    }
  }

  /** Fx0A with no key down: the step changes nothing at all, pc included. */
  lemma WaitWithoutKey(s: State, x: Nibble, rnd: Byte)
    requires Valid(s) && Decode(Fetch(s)) == Misc(WaitKey, x)
    requires forall k | 0 <= k < NUM_KEYS :: !s.keys[k]
    ensures Exec(s, rnd) == Outcome(Executed, s)
  {
    assert FirstPressed(s.keys, 0).None?;
  }

  /** So however many steps run while no key is down, the machine stays where it is. */
  lemma {:induction false} WaitRepeats(s: State, x: Nibble, rnds: seq<Byte>)
    requires Valid(s) && Decode(Fetch(s)) == Misc(WaitKey, x)
    requires forall k | 0 <= k < NUM_KEYS :: !s.keys[k]
    ensures Run(s, rnds) == s
    decreases |rnds|
  {
    if rnds != [] {
      WaitWithoutKey(s, x, rnds[0]);
      WaitRepeats(s, x, rnds[1..]);
    }
  }

  /** Fx0A with a key down: Vx := the lowest key that is down, and pc moves on. */
  lemma WaitWithKey(s: State, x: Nibble, rnd: Byte, k: nat)
    requires Valid(s) && Decode(Fetch(s)) == Misc(WaitKey, x)
    requires k < NUM_KEYS && s.keys[k] && forall j | 0 <= j < k :: !s.keys[j]
    ensures Exec(s, rnd) == Outcome(Executed, s.(pc := Advance(s.pc), registers := s.registers[x := k]))
  {
    assert FirstPressed(s.keys, 0) == Some(k);
  }

  /** k timer ticks take each timer down by k, stopping at zero; nothing else changes. */
  lemma {:induction false} TicksCountDown(s: State, k: nat)
    requires Valid(s)
    ensures Ticks(s, k).delayTimer == if s.delayTimer >= k then s.delayTimer - k else 0
    ensures Ticks(s, k).soundTimer == if s.soundTimer >= k then s.soundTimer - k else 0
    ensures Ticks(s, k) == s.(delayTimer := Ticks(s, k).delayTimer, soundTimer := Ticks(s, k).soundTimer)
    decreases k
  {
    if k > 0 {
      TicksCountDown(s, k - 1);
    }
  }

  /** Toggling a key twice gives back the key state. */
  lemma ToggleTwice(s: State, k: nat)
    requires Valid(s) && k < NUM_KEYS
    ensures ToggleKey(ToggleKey(s, k), k) == s
  {
    assert ToggleKey(ToggleKey(s, k), k).keys == s.keys;
  }

  /** The program area starts above the font, so loading a program leaves the font in place. */
  lemma LoadKeepsFont(s: State, image: seq<Byte>)
    requires Valid(s) && |image| <= MAX_PROGRAM_SIZE
    ensures LoadProgram(s, image).value.memory[..|FONTSET|] == s.memory[..|FONTSET|]
    ensures LoadProgram(Initial(), image).value.memory[..|FONTSET|] == FONTSET
  {
    var t := LoadProgram(s, image).value;
    assert t.memory[..|FONTSET|] == t.memory[..PROGRAM_START][..|FONTSET|];
    var u := LoadProgram(Initial(), image).value;
    assert u.memory[..|FONTSET|] == u.memory[..PROGRAM_START][..|FONTSET|];
  }

  /** Fx29 on a machine whose font is in place: I points at the five rows of the glyph for Vx. */
  lemma GlyphRows(s: State, x: Nibble)
    requires Valid(s) && s.memory[..|FONTSET|] == FONTSET && V(s, x) < 16
    ensures var t := PointToGlyph(s, x);
      t.memory[t.index..t.index + GLYPH_HEIGHT] == FONTSET[V(s, x) * GLYPH_HEIGHT..(V(s, x) + 1) * GLYPH_HEIGHT]
  {
    var t := PointToGlyph(s, x);
    assert t.memory[t.index..t.index + GLYPH_HEIGHT] == s.memory[..|FONTSET|][t.index..t.index + GLYPH_HEIGHT];
  }
}
