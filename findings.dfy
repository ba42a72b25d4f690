/**
 * Instructions as the two source variants write them where they differ
 * from the evidently intended behaviour, each next to an input on which
 * the written form and the intended form (module Semantics) disagree.
 */
module Findings {
  import opened MachineState
  import opened Semantics
  import opened Decoder

  /** A fresh machine whose V0 and V1 hold `a` and `b`. */
  function WithOperands(a: Byte, b: Byte): (s: State)
    ensures Valid(s) && V(s, 0) == a && V(s, 1) == b
  {
    Initial().(registers := Initial().registers[0 := a][1 := b])
  }

  /**
   * 8xy5 in chip8.cc: VF := (Vy > Vx) first, then Vx := Vx - Vy with the
   * registers read again after VF changed. The flag is the borrow, not
   * NOT borrow.
   */
  function SubtractAsWritten(s: State, x: Nibble, y: Nibble): (t: State)
    requires Valid(s)
    ensures Valid(t) && t == s.(registers := t.registers)
    ensures x != VF ==> (t.registers[VF] == 1 <==> V(s, y) > V(s, x))
  {
    var flagged := SetRegister(s, VF, if V(s, y) > V(s, x) then 1 else 0);
    SetRegister(flagged, x, (V(flagged, x) as int - V(flagged, y)) % 256)
  }

  /** 5 - 3 does not borrow, yet the written 8xy5 clears VF; the intended one sets it. */
  lemma SubtractFlagInverted()
    ensures var s := WithOperands(5, 3);
      && SubtractAsWritten(s, 0, 1).registers[VF] == 0
      && Subtract(s, 0, 1).registers[VF] == 1
  {
  }

  /**
   * 8xy5 in chip8.cpp: Vx := Vx - Vy first, then VF := (new Vx > Vy). The
   * flag compares the difference, not the operands.
   */
  function SubtractAfterAsWritten(s: State, x: Nibble, y: Nibble): (t: State)
    requires Valid(s)
    ensures Valid(t) && t == s.(registers := t.registers)
    ensures x != VF && y != x ==> (t.registers[VF] == 1 <==> (V(s, x) as int - V(s, y)) % 256 > V(s, y))
  {
    var diff := SetRegister(s, x, (V(s, x) as int - V(s, y)) % 256);
    SetRegister(diff, VF, if V(diff, x) > V(diff, y) then 1 else 0)
  }

  /** 5 - 3 does not borrow, yet the chip8.cpp 8xy5 clears VF, since 2 is not above 3. */
  lemma SubtractAfterFlagWrong()
    ensures var s := WithOperands(5, 3);
      && SubtractAfterAsWritten(s, 0, 1).registers[VF] == 0
      && Subtract(s, 0, 1).registers[VF] == 1
  {
  }

  /**
   * 8xy7 in chip8.cc: VF := (Vx > Vy) first, the borrow of Vy - Vx, then
   * Vx := Vy - Vx with the registers read again after VF changed.
   */
  function SubtractNegatedAsWritten(s: State, x: Nibble, y: Nibble): (t: State)
    requires Valid(s)
    ensures Valid(t) && t == s.(registers := t.registers)
    ensures x != VF ==> (t.registers[VF] == 1 <==> V(s, x) > V(s, y))
  {
    var flagged := SetRegister(s, VF, if V(s, x) > V(s, y) then 1 else 0);
    SetRegister(flagged, x, (V(flagged, y) as int - V(flagged, x)) % 256)
  }

  /**
   * 8xy7 in chip8.cpp: Vx := Vy - Vx first, then VF := (Vy > new Vx). The
   * flag compares Vy with the difference.
   */
  function SubtractNegatedAfterAsWritten(s: State, x: Nibble, y: Nibble): (t: State)
    requires Valid(s)
    ensures Valid(t) && t == s.(registers := t.registers)
    ensures x != VF && y != x ==> (t.registers[VF] == 1 <==> V(s, y) > (V(s, y) as int - V(s, x)) % 256)
  {
    var diff := SetRegister(s, x, (V(s, y) as int - V(s, x)) % 256);
    SetRegister(diff, VF, if V(diff, y) > V(diff, x) then 1 else 0)
  }

  /**
   * 0 - 0 does not borrow, yet both written forms of 8xy7 clear VF; the
   * intended one sets it. 5 - 3 (Vx = 3, Vy = 5) and 5 - 0 separate the
   * written forms from the intended one even where equal operands are
   * read as borrowing.
   */
  lemma SubtractNegatedFlagWrong()
    ensures var s := WithOperands(0, 0);
      && SubtractNegatedAsWritten(s, 0, 1).registers[VF] == 0
      && SubtractNegatedAfterAsWritten(s, 0, 1).registers[VF] == 0
      && SubtractNegated(s, 0, 1).registers[VF] == 1
    ensures var s := WithOperands(3, 5);
      && SubtractNegatedAsWritten(s, 0, 1).registers[VF] == 0
      && SubtractNegated(s, 0, 1).registers[VF] == 1
    ensures var s := WithOperands(0, 5);
      && SubtractNegatedAfterAsWritten(s, 0, 1).registers[VF] == 0
      && SubtractNegated(s, 0, 1).registers[VF] == 1
  {
  }

  /**
   * 8xy4 in chip8.cpp: Vx := Vx + Vy first, then VF := (new Vx + Vy > 255).
   * The carry is tested on the already wrapped sum.
   */
  function AddAsWritten(s: State, x: Nibble, y: Nibble): (t: State)
    requires Valid(s)
    ensures Valid(t) && t == s.(registers := t.registers)
    ensures t.registers[VF] <= 1
    ensures x != VF && y != x ==> (t.registers[VF] == 1 <==> (V(s, x) + V(s, y)) % 256 + V(s, y) > 255)
  {
    var summed := SetRegister(s, x, (V(s, x) as int + V(s, y)) % 256);
    SetRegister(summed, VF, if V(summed, x) as int + V(summed, y) > 255 then 1 else 0)
  }

  /** 200 + 100 carries, yet the written 8xy4 clears VF; the intended one sets it. */
  lemma AddCarryLost()
    ensures var s := WithOperands(200, 100);
      && AddAsWritten(s, 0, 1).registers[VF] == 0
      && AddRegisters(s, 0, 1).registers[VF] == 1
  {
  }

  /**
   * 8xy4 in chip8.cc: VF := (Vx + Vy > 255) first, then Vx := Vx + Vy with
   * the registers read again after VF changed. The carry itself is right;
   * but when y is VF the sum adds the new flag instead of the old VF.
   */
  function AddFlagFirstAsWritten(s: State, x: Nibble, y: Nibble): (t: State)
    requires Valid(s)
    ensures Valid(t) && t == s.(registers := t.registers)
    ensures x != VF && y != VF ==> t.registers == AddRegisters(s, x, y).registers
    ensures x != VF && y == VF ==> t.registers[x] == (V(s, x) + t.registers[VF]) % 256
    ensures x != VF ==> (t.registers[VF] == 1 <==> V(s, x) + V(s, y) > 255)
  {
    var flagged := SetRegister(s, VF, if V(s, x) + V(s, y) > 255 then 1 else 0);
    SetRegister(flagged, x, (V(flagged, x) + V(flagged, y)) % 256)
  }

  /** With V0 = 5 and VF = 10, the written 8xy4 of V0 and VF leaves V0 at 5; the intended one makes it 15. */
  lemma AddFlagOperandLost()
    ensures var s := SetRegister(WithOperands(5, 0), VF, 10);
      && AddFlagFirstAsWritten(s, 0, VF).registers[0] == 5
      && AddRegisters(s, 0, VF).registers[0] == 15
  {
  }

  /**
   * 8xy6 in chip8.cpp: Vx := Vx >> 1 first, then VF := new Vx & 1, which
   * is bit 1 of the old value rather than the bit shifted out.
   */
  function ShiftRightAsWritten(s: State, x: Nibble): (t: State)
    requires Valid(s)
    ensures Valid(t) && t == s.(registers := t.registers)
    ensures x != VF ==> (t.registers[VF] == 1 <==> (V(s, x) / 2) % 2 == 1)
  {
    var shifted := SetRegister(s, x, V(s, x) / 2);
    SetRegister(shifted, VF, V(shifted, x) % 2)
  }

  /** Shifting 1 right drops a set bit, yet the written 8xy6 clears VF; the intended one sets it. */
  lemma ShiftFlagLost()
    ensures var s := WithOperands(1, 0);
      && ShiftRightAsWritten(s, 0).registers[VF] == 0
      && ShiftRight(s, 0).registers[VF] == 1
  {
  }

  /**
   * 8xyE in chip8.cpp: Vx := Vx << 1 first, then VF := new Vx >> 7, which
   * is bit 6 of the old value rather than the bit shifted out.
   */
  function ShiftLeftAsWritten(s: State, x: Nibble): (t: State)
    requires Valid(s)
    ensures Valid(t) && t == s.(registers := t.registers)
    ensures x != VF ==> (t.registers[VF] == 1 <==> (V(s, x) / 64) % 2 == 1)
  {
    var shifted := SetRegister(s, x, (V(s, x) * 2) % 256);
    SetRegister(shifted, VF, V(shifted, x) / 128)
  }

  /** Shifting 0x80 left drops a set bit, yet the written 8xyE clears VF; the intended one sets it. */
  lemma ShiftLeftFlagLost()
    ensures var s := WithOperands(0x80, 0);
      && ShiftLeftAsWritten(s, 0).registers[VF] == 0
      && ShiftLeft(s, 0).registers[VF] == 1
  {
  }

  /**
   * Fx0A in both variants: with a key down, Vx := keys[i], a `bool`
   * widened to a byte, so 1 whatever key it is.
   */
  function WaitForKeyAsWritten(s: State, x: Nibble): (t: State)
    requires Valid(s)
    ensures Valid(t)
    ensures FirstPressed(s.keys, 0).Some? ==> t == s.(registers := s.registers[x := 1])
    ensures FirstPressed(s.keys, 0).None? ==> t == s.(pc := Retreat(s.pc))
  {
    match FirstPressed(s.keys, 0)
    case None => s.(pc := Retreat(s.pc))
    case Some(_) => SetRegister(s, x, 1)
  }

  /** With key 5 down the written Fx0A stores 1; the intended one stores 5. */
  lemma WaitStoresOne()
    ensures var s := Initial().(keys := Initial().keys[5 := true]);
      && V(WaitForKeyAsWritten(s, 0), 0) == 1
      && V(Semantics.WaitForKey(s, 0), 0) == 5
  {
    var s := Initial().(keys := Initial().keys[5 := true]);
    assert FirstPressed(s.keys, 0) == Some(5) by {
      assert !s.keys[0] && !s.keys[1] && !s.keys[2] && !s.keys[3] && !s.keys[4] && s.keys[5];
    }
  }

  /**
   * The pixel index of chip8.cpp: only the row term is reduced modulo
   * the framebuffer size, so the column term can carry the index past
   * its end.
   */
  function CellAsWritten(xp: Byte, yp: Byte, row: nat, col: nat): (c: nat)
    ensures c >= (yp + row) * DISPLAY_WIDTH % DISPLAY_SIZE
    ensures c % DISPLAY_SIZE == Cell(xp, yp, row, col)
  {
    var a, b := xp + col, (yp + row) * DISPLAY_WIDTH;
    var c := a + b % DISPLAY_SIZE;
    DivModUnique(a + b, DISPLAY_SIZE, c / DISPLAY_SIZE + b / DISPLAY_SIZE, c % DISPLAY_SIZE);
    c
  }

  /** Column 7 of a sprite at (63, 31) lands past the last pixel as written, and inside the framebuffer as intended. */
  lemma CellPastEnd()
    ensures CellAsWritten(63, 31, 0, 7) >= DISPLAY_SIZE
    ensures Cell(63, 31, 0, 7) < DISPLAY_SIZE
  {
  }

  /**
   * The pixel index of chip8.cc: nothing is reduced modulo the
   * framebuffer size. It agrees with the intended index modulo 2048.
   */
  function CellUnreducedAsWritten(xp: Byte, yp: Byte, row: nat, col: nat): (c: nat)
    ensures c % DISPLAY_SIZE == Cell(xp, yp, row, col)
  {
    xp + col + (yp + row) * DISPLAY_WIDTH
  }

  /** The same sprite column as for chip8.cpp lands past the last pixel in chip8.cc as well. */
  lemma CellUnreducedPastEnd()
    ensures CellUnreducedAsWritten(63, 31, 0, 7) >= DISPLAY_SIZE
  {
  }

  /**
   * The per-pixel flag update of chip8.cc, on its own: each set bit
   * overwrites VF with the pixel it flips, so only the last flipped pixel
   * decides the flag. The cell index is the intended one (`Cell`), so that
   * only this difference shows.
   */
  function PlotRowAsWritten(c: Canvas, bits: Byte, xp: Byte, yp: Byte, row: nat, cols: nat): (r: Canvas)
    requires |c.cells| == DISPLAY_SIZE && cols <= 8
    ensures |r.cells| == DISPLAY_SIZE
    ensures r.cells == PlotRow(c, bits, xp, yp, row, cols).cells
    decreases cols
  {
    if cols == 0 then c
    else
      var d := PlotRowAsWritten(c, bits, xp, yp, row, cols - 1);
      if SpriteBit(bits, cols - 1) then
        var p := Cell(xp, yp, row, cols - 1);
        Canvas(d.cells[p := Flip(d.cells[p])], d.cells[p] == 1)
      else d
  }

  /**
   * Row 0xC0 at (0, 0) over a screen whose only lit pixel is 0: pixel 0
   * is erased, then pixel 1 is lit. Written, VF ends up 0; intended, 1.
   */
  lemma CollisionOverwritten()
    ensures var c := Canvas(seq(DISPLAY_SIZE, i => if i == 0 then 1 else 0), false);
      && !PlotRowAsWritten(c, 0xC0, 0, 0, 0, 8).collision
      && PlotRow(c, 0xC0, 0, 0, 0, 8).collision
  {
  }
}
