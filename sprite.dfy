/**
 * What drawing a sprite does to each framebuffer cell. `Semantics.DrawSprite`
 * follows the drawing loop pixel by pixel; the lemmas here give its effect
 * cell by cell: a cell under a set sprite bit is toggled and every other
 * cell is left alone, and VF reports whether a lit cell lay under the sprite.
 */
module SpriteDrawing {
  import opened MachineState
  import opened Decoder
  import opened Semantics

  /** How far cell `c` lies past the sprite origin (xp, yp), row-major, wrapping round the framebuffer. */
  function Distance(xp: Byte, yp: Byte, c: int): nat {
    (c - xp - yp * DISPLAY_WIDTH) % DISPLAY_SIZE
  }

  /** Cell `c` lies under a set bit among the first `cols` columns of sprite row `row`. */
  predicate CoveredByRow(bits: Byte, xp: Byte, yp: Byte, row: nat, cols: nat, c: int)
    requires cols <= 8
  {
    var d := Distance(xp, yp, c);
    d / DISPLAY_WIDTH == row && d % DISPLAY_WIDTH < cols && SpriteBit(bits, d % DISPLAY_WIDTH)
  }

  /** Cell `c` lies under a set bit of one of the first `rows` rows of the sprite. */
  predicate CoveredByRows(sprite: seq<Byte>, xp: Byte, yp: Byte, rows: nat, c: int)
    requires rows <= |sprite|
  {
    var d := Distance(xp, yp, c);
    d % DISPLAY_WIDTH < 8 && d / DISPLAY_WIDTH < rows && SpriteBit(sprite[d / DISPLAY_WIDTH], d % DISPLAY_WIDTH)
  }

  /** Cell `c` lies under a set bit of the sprite drawn at (xp, yp). */
  predicate Covers(sprite: seq<Byte>, xp: Byte, yp: Byte, c: int) {
    CoveredByRows(sprite, xp, yp, |sprite|, c)
  }

  /** The cell of (row, col) is the one cell at distance row * 64 + col from the origin. */
  lemma CellDistance(xp: Byte, yp: Byte, row: nat, col: nat, c: int)
    requires row < DISPLAY_HEIGHT && col < DISPLAY_WIDTH && 0 <= c < DISPLAY_SIZE
    ensures Distance(xp, yp, c) == row * DISPLAY_WIDTH + col <==> c == Cell(xp, yp, row, col)
    ensures Distance(xp, yp, Cell(xp, yp, row, col)) / DISPLAY_WIDTH == row
    ensures Distance(xp, yp, Cell(xp, yp, row, col)) % DISPLAY_WIDTH == col
  {
    var base := xp + yp * DISPLAY_WIDTH;
    var d := row * DISPLAY_WIDTH + col;
    assert xp + col + (yp + row) * DISPLAY_WIDTH == base + d;
    DistanceFrom(base, d, c, DISPLAY_SIZE);
    DistanceFrom(base, d, Cell(xp, yp, row, col), DISPLAY_SIZE);
    DivModUnique(d, DISPLAY_WIDTH, row, col);
  }

  /** Drawing the first `cols` columns of one row toggles exactly the cells under its set bits. */
  lemma {:induction false} PlotRowEffect(c: Canvas, bits: Byte, xp: Byte, yp: Byte, row: nat, cols: nat)
    requires |c.cells| == DISPLAY_SIZE && cols <= 8 && row < DISPLAY_HEIGHT
    ensures var r := PlotRow(c, bits, xp, yp, row, cols);
      forall p | 0 <= p < DISPLAY_SIZE ::
        r.cells[p] == if CoveredByRow(bits, xp, yp, row, cols, p) then Flip(c.cells[p]) else c.cells[p]
    ensures PlotRow(c, bits, xp, yp, row, cols).collision <==>
      c.collision || exists p | 0 <= p < DISPLAY_SIZE :: CoveredByRow(bits, xp, yp, row, cols, p) && c.cells[p] == 1
    decreases cols
  {
    if cols > 0 {
      var col := cols - 1;
      PlotRowEffect(c, bits, xp, yp, row, col);
      var p0 := Cell(xp, yp, row, col);
      CellDistance(xp, yp, row, col, p0);
      assert !CoveredByRow(bits, xp, yp, row, col, p0);
      forall p | 0 <= p < DISPLAY_SIZE
        ensures CoveredByRow(bits, xp, yp, row, cols, p) <==>
          CoveredByRow(bits, xp, yp, row, col, p) || (p == p0 && SpriteBit(bits, col))
      {
        CellDistance(xp, yp, row, col, p);
        var d := Distance(xp, yp, p);
        assert d == (d / DISPLAY_WIDTH) * DISPLAY_WIDTH + d % DISPLAY_WIDTH;
      }
      if SpriteBit(bits, col) {
        var d := PlotRow(c, bits, xp, yp, row, col);
        assert d.cells[p0] == c.cells[p0];
        if c.cells[p0] == 1 {
          assert CoveredByRow(bits, xp, yp, row, cols, p0);
        }
      }
    }
  }

  /** Row `row` covers a cell exactly when the rows up to it cover it and the rows before it do not. */
  lemma CoverageGrows(sprite: seq<Byte>, xp: Byte, yp: Byte, row: nat, p: int)
    requires row < |sprite|
    ensures CoveredByRows(sprite, xp, yp, row + 1, p) <==>
      CoveredByRows(sprite, xp, yp, row, p) || CoveredByRow(sprite[row], xp, yp, row, 8, p)
    ensures CoveredByRow(sprite[row], xp, yp, row, 8, p) ==> !CoveredByRows(sprite, xp, yp, row, p)
  {
  }

  /** Drawing the first `rows` rows toggles exactly the cells under their set bits. */
  lemma {:induction false} PlotRowsCells(c: Canvas, sprite: seq<Byte>, xp: Byte, yp: Byte, rows: nat)
    requires |c.cells| == DISPLAY_SIZE && rows <= |sprite| <= DISPLAY_HEIGHT
    ensures var r := PlotRows(c, sprite, xp, yp, rows);
      forall p | 0 <= p < DISPLAY_SIZE ::
        r.cells[p] == if CoveredByRows(sprite, xp, yp, rows, p) then Flip(c.cells[p]) else c.cells[p]
    decreases rows
  {
    if rows > 0 {
      var row := rows - 1;
      PlotRowsCells(c, sprite, xp, yp, row);
      var d := PlotRows(c, sprite, xp, yp, row);
      var r := PlotRows(c, sprite, xp, yp, rows);
      assert r == PlotRow(d, sprite[row], xp, yp, row, 8);
      PlotRowEffect(d, sprite[row], xp, yp, row, 8);
      forall p | 0 <= p < DISPLAY_SIZE
        ensures r.cells[p] == if CoveredByRows(sprite, xp, yp, rows, p) then Flip(c.cells[p]) else c.cells[p]
      {
        CoverageGrows(sprite, xp, yp, row, p);
        assert d.cells[p] == if CoveredByRows(sprite, xp, yp, row, p) then Flip(c.cells[p]) else c.cells[p];
        assert r.cells[p] == if CoveredByRow(sprite[row], xp, yp, row, 8, p) then Flip(d.cells[p]) else d.cells[p];
      }
    }
  }

  /** The collision flag after the first `rows` rows: some cell under them was lit before. */
  lemma {:induction false} PlotRowsCollision(c: Canvas, sprite: seq<Byte>, xp: Byte, yp: Byte, rows: nat)
    requires |c.cells| == DISPLAY_SIZE && rows <= |sprite| <= DISPLAY_HEIGHT
    ensures PlotRows(c, sprite, xp, yp, rows).collision <==>
      c.collision || exists p | 0 <= p < DISPLAY_SIZE :: CoveredByRows(sprite, xp, yp, rows, p) && c.cells[p] == 1
    decreases rows
  {
    if rows > 0 {
      var row := rows - 1;
      PlotRowsCollision(c, sprite, xp, yp, row);
      PlotRowsCells(c, sprite, xp, yp, row);
      var d := PlotRows(c, sprite, xp, yp, row);
      PlotRowEffect(d, sprite[row], xp, yp, row, 8);
      var r := PlotRows(c, sprite, xp, yp, rows);
      assert r == PlotRow(d, sprite[row], xp, yp, row, 8);
      if d.collision && !c.collision {
        var p :| 0 <= p < DISPLAY_SIZE && CoveredByRows(sprite, xp, yp, row, p) && c.cells[p] == 1;
        CoverageGrows(sprite, xp, yp, row, p);
      }
      if exists p | 0 <= p < DISPLAY_SIZE :: CoveredByRow(sprite[row], xp, yp, row, 8, p) && d.cells[p] == 1 {
        var p :| 0 <= p < DISPLAY_SIZE && CoveredByRow(sprite[row], xp, yp, row, 8, p) && d.cells[p] == 1;
        CoverageGrows(sprite, xp, yp, row, p);
        assert CoveredByRows(sprite, xp, yp, rows, p) && c.cells[p] == 1;
      }
      if exists p | 0 <= p < DISPLAY_SIZE :: CoveredByRows(sprite, xp, yp, rows, p) && c.cells[p] == 1 {
        var p :| 0 <= p < DISPLAY_SIZE && CoveredByRows(sprite, xp, yp, rows, p) && c.cells[p] == 1;
        CoverageGrows(sprite, xp, yp, row, p);
        if !CoveredByRows(sprite, xp, yp, row, p) {
          assert CoveredByRow(sprite[row], xp, yp, row, 8, p) && d.cells[p] == 1;
        }
      }
    }
  }

  /**
   * Dxyn, cell by cell: a cell under a set bit of the sprite at (Vx, Vy)
   * is toggled, every other cell keeps its value, and VF is 1 exactly
   * when some cell under the sprite was lit before.
   */
  lemma DrawSpriteEffect(s: State, x: Nibble, y: Nibble, n: Nibble)
    requires Valid(s)
    ensures var t := DrawSprite(s, x, y, n);
      forall p | 0 <= p < DISPLAY_SIZE ::
        t.display[p] == if Covers(SpriteAt(s, n), V(s, x), V(s, y), p) then 1 - s.display[p] else s.display[p]
    ensures DrawSprite(s, x, y, n).registers[VF] == 1 <==>
      exists p | 0 <= p < DISPLAY_SIZE :: Covers(SpriteAt(s, n), V(s, x), V(s, y), p) && s.display[p] == 1
  {
    PlotRowsCells(Canvas(s.display, false), SpriteAt(s, n), V(s, x), V(s, y), n);
    PlotRowsCollision(Canvas(s.display, false), SpriteAt(s, n), V(s, x), V(s, y), n);
  }

  /**
   * Drawing a sprite twice at the same place, with neither coordinate
   * register being VF, gives back the framebuffer; the second draw sets
   * VF exactly when some cell under the sprite was dark before the first.
   */
  lemma DrawTwice(s: State, x: Nibble, y: Nibble, n: Nibble)
    requires Valid(s) && x != VF && y != VF
    ensures DrawSprite(DrawSprite(s, x, y, n), x, y, n).display == s.display
    ensures DrawSprite(DrawSprite(s, x, y, n), x, y, n).registers[VF] == 1 <==>
      exists p | 0 <= p < DISPLAY_SIZE :: Covers(SpriteAt(s, n), V(s, x), V(s, y), p) && s.display[p] == 0
  {
    var t := DrawSprite(s, x, y, n);
    var u := DrawSprite(t, x, y, n);
    var sprite, xp, yp := SpriteAt(s, n), V(s, x), V(s, y);
    assert SpriteAt(t, n) == sprite;
    assert V(t, x) == xp && V(t, y) == yp;
    DrawSpriteEffect(s, x, y, n);
    DrawSpriteEffect(t, x, y, n);
    forall p | 0 <= p < DISPLAY_SIZE
      ensures u.display[p] == s.display[p]
      ensures Covers(sprite, xp, yp, p) ==> t.display[p] == 1 - s.display[p]
    {
    }
    assert u.display == s.display;
    if u.registers[VF] == 1 {
      var p :| 0 <= p < DISPLAY_SIZE && Covers(sprite, xp, yp, p) && t.display[p] == 1;
      assert s.display[p] == 0;
    }
    if exists p | 0 <= p < DISPLAY_SIZE :: Covers(sprite, xp, yp, p) && s.display[p] == 0 {
      var p :| 0 <= p < DISPLAY_SIZE && Covers(sprite, xp, yp, p) && s.display[p] == 0;
      assert t.display[p] == 1;
    }
  }

  /** Some bit of the first `n` sprite rows is set. */
  predicate HasSetBit(sprite: seq<Byte>) {
    exists i, j | 0 <= i < |sprite| && 0 <= j < 8 :: SpriteBit(sprite[i], j)
  }

  /** A sprite covers some cell exactly when it has a set bit: no set bit falls off the framebuffer. */
  lemma CoversSomeCell(sprite: seq<Byte>, xp: Byte, yp: Byte)
    requires |sprite| <= DISPLAY_HEIGHT
    ensures HasSetBit(sprite) <==> exists p | 0 <= p < DISPLAY_SIZE :: Covers(sprite, xp, yp, p)
  {
    if HasSetBit(sprite) {
      var i, j :| 0 <= i < |sprite| && 0 <= j < 8 && SpriteBit(sprite[i], j);
      CellDistance(xp, yp, i, j, Cell(xp, yp, i, j));
      assert Covers(sprite, xp, yp, Cell(xp, yp, i, j));
    }
    if exists p | 0 <= p < DISPLAY_SIZE :: Covers(sprite, xp, yp, p) {
      var p :| 0 <= p < DISPLAY_SIZE && Covers(sprite, xp, yp, p);
      var d := Distance(xp, yp, p);
      assert SpriteBit(sprite[d / DISPLAY_WIDTH], d % DISPLAY_WIDTH);
    }
  }

  /**
   * On a blank framebuffer, the first draw of a sprite reports no
   * collision and the second draw at the same place reports one exactly
   * when the sprite has a set bit.
   */
  lemma DrawTwiceOnBlank(s: State, x: Nibble, y: Nibble, n: Nibble)
    requires Valid(s) && x != VF && y != VF
    requires forall p | 0 <= p < DISPLAY_SIZE :: s.display[p] == 0
    ensures DrawSprite(s, x, y, n).registers[VF] == 0
    ensures DrawSprite(DrawSprite(s, x, y, n), x, y, n).registers[VF] == 1 <==> HasSetBit(SpriteAt(s, n))
  {
    DrawSpriteEffect(s, x, y, n);
    DrawTwice(s, x, y, n);
    CoversSomeCell(SpriteAt(s, n), V(s, x), V(s, y));
  }
}
