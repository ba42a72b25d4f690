/**
 * Instruction decoding: the split of a 16-bit instruction word into its
 * fields and the two-level dispatch (on the top nibble, then on `n`, `kk`
 * or the whole word) that names the instruction to execute.
 */
module Decoder {
  import opened MachineState

  /**
   * The fields of an instruction word `GXYN`: `group` = G, `x` = X,
   * `y` = Y, `n` = N, `kk` = YN and `nnn` = XYN. The masks and shifts of
   * the source are written as division and remainder by powers of two.
   */
  datatype Fields = Fields(group: Nibble, x: Nibble, y: Nibble, n: Nibble, kk: Byte, nnn: Addr)

  /** Splitting loses nothing: the fields reassemble into the word. */
  function Split(op: Word): (f: Fields)
    ensures f.kk == f.y * 16 + f.n
    ensures f.nnn == f.x * 256 + f.kk
    ensures op == f.group * 4096 + f.nnn
  {
    var nnn := op % 4096;
    var kk := nnn % 256;
    Fields(op / 4096, nnn / 256, kk / 16, kk % 16, kk, nnn)
  }

  /** Quotient and remainder by a field width are determined by any decomposition with a small remainder. */
  lemma DivModUnique(a: int, m: int, q: int, r: int)
    requires m == 16 || m == 64 || m == 256 || m == 2048 || m == 4096
    requires 0 <= r < m && a == q * m + r
    ensures a / m == q && a % m == r
  {
  }

  /** The logical and arithmetic family `8xyN`. */
  datatype AluOp = Move | Or | And | Xor | Add | Sub | Shr | SubN | Shl

  /** The miscellaneous family `FxNN`. */
  datatype MiscOp =
    | GetDelay    // Fx07
    | WaitKey     // Fx0A
    | SetDelay    // Fx15
    | SetSound    // Fx18
    | AddIndex    // Fx1E
    | Glyph       // Fx29
    | Bcd         // Fx33
    | StoreRegs   // Fx55
    | LoadRegs    // Fx65

  /** One decoded instruction; `Unknown` stands for every unrecognised encoding. */
  datatype Instr =
    | Cls                                   // 00E0
    | Ret                                   // 00EE
    | Jump(nnn: Addr)                       // 1nnn
    | Call(nnn: Addr)                       // 2nnn
    | SkipEqByte(x: Nibble, kk: Byte)       // 3xkk
    | SkipNeByte(x: Nibble, kk: Byte)       // 4xkk
    | SkipEqReg(x: Nibble, y: Nibble)       // 5xy0
    | LoadByte(x: Nibble, kk: Byte)         // 6xkk
    | AddByte(x: Nibble, kk: Byte)          // 7xkk
    | Alu(op: AluOp, x: Nibble, y: Nibble)  // 8xyN
    | SkipNeReg(x: Nibble, y: Nibble)       // 9xy0
    | LoadIndex(nnn: Addr)                  // Annn
    | JumpV0(nnn: Addr)                     // Bnnn
    | Random(x: Nibble, kk: Byte)           // Cxkk
    | Draw(x: Nibble, y: Nibble, n: Nibble) // Dxyn
    | SkipPressed(x: Nibble)                // Ex9E
    | SkipNotPressed(x: Nibble)             // ExA1
    | Misc(mop: MiscOp, x: Nibble)          // FxNN
    | Unknown

  /** The conditional skips 3xkk, 4xkk, 5xy0, 9xy0, Ex9E and ExA1. */
  predicate IsSkip(i: Instr) {
    i.SkipEqByte? || i.SkipNeByte? || i.SkipEqReg? || i.SkipNeReg? || i.SkipPressed? || i.SkipNotPressed?
  }

  function DecodeAlu(n: Nibble): Option<AluOp> {
    match n
    case 0x0 => Some(Move)
    case 0x1 => Some(Or)
    case 0x2 => Some(And)
    case 0x3 => Some(Xor)
    case 0x4 => Some(Add)
    case 0x5 => Some(Sub)
    case 0x6 => Some(Shr)
    case 0x7 => Some(SubN)
    case 0xE => Some(Shl)
    case _ => None
  }

  function DecodeMisc(kk: Byte): Option<MiscOp> {
    match kk
    case 0x07 => Some(GetDelay)
    case 0x0A => Some(WaitKey)
    case 0x15 => Some(SetDelay)
    case 0x18 => Some(SetSound)
    case 0x1E => Some(AddIndex)
    case 0x29 => Some(Glyph)
    case 0x33 => Some(Bcd)
    case 0x55 => Some(StoreRegs)
    case 0x65 => Some(LoadRegs)
    case _ => None
  }

  /**
   * The two-level dispatch: on the top nibble, then on the whole word
   * (group 0), on `n` (group 8) or on `kk` (groups E and F). Groups 5 and
   * 9 do not look at `n`. Only the four groups with a second-level
   * dispatch hold unrecognised words.
   */
  function Decode(op: Word): (i: Instr)
    ensures i.Unknown? ==> op < 0x1000 || 0x8000 <= op < 0x9000 || 0xE000 <= op
  {
    var f := Split(op);
    match f.group
    case 0x0 => if op == 0x00E0 then Cls else if op == 0x00EE then Ret else Unknown
    case 0x1 => Jump(f.nnn)
    case 0x2 => Call(f.nnn)
    case 0x3 => SkipEqByte(f.x, f.kk)
    case 0x4 => SkipNeByte(f.x, f.kk)
    case 0x5 => SkipEqReg(f.x, f.y)
    case 0x6 => LoadByte(f.x, f.kk)
    case 0x7 => AddByte(f.x, f.kk)
    case 0x8 =>
      (match DecodeAlu(f.n)
       case Some(aop) => Alu(aop, f.x, f.y)
       case None => Unknown)
    case 0x9 => SkipNeReg(f.x, f.y)
    case 0xA => LoadIndex(f.nnn)
    case 0xB => JumpV0(f.nnn)
    case 0xC => Random(f.x, f.kk)
    case 0xD => Draw(f.x, f.y, f.n)
    case 0xE => if f.kk == 0x9E then SkipPressed(f.x) else if f.kk == 0xA1 then SkipNotPressed(f.x) else Unknown
    case _ =>
      (match DecodeMisc(f.kk)
       case Some(mop) => Misc(mop, f.x)
       case None => Unknown)
  }

  function AluCode(aop: AluOp): (n: Nibble)
    ensures DecodeAlu(n) == Some(aop)
  {
    match aop
    case Move => 0x0
    case Or => 0x1
    case And => 0x2
    case Xor => 0x3
    case Add => 0x4
    case Sub => 0x5
    case Shr => 0x6
    case SubN => 0x7
    case Shl => 0xE
  }

  function MiscCode(mop: MiscOp): (kk: Byte)
    ensures DecodeMisc(kk) == Some(mop)
  {
    match mop
    case GetDelay => 0x07
    case WaitKey => 0x0A
    case SetDelay => 0x15
    case SetSound => 0x18
    case AddIndex => 0x1E
    case Glyph => 0x29
    case Bcd => 0x33
    case StoreRegs => 0x55
    case LoadRegs => 0x65
  }

  /** The word with top nibble `g` and low twelve bits `nnn`. */
  function Pack(g: Nibble, nnn: Addr): Word {
    g * 4096 + nnn
  }

  /** The twelve bits `xkk`, and the byte `yn`. */
  function Xkk(x: Nibble, kk: Byte): Addr { x * 256 + kk }
  function Yn(y: Nibble, n: Nibble): Byte { y * 16 + n }

  /** The canonical encoding of a recognised instruction (`n` = 0 for 5xy0 and 9xy0). */
  function Encode(i: Instr): Word
    requires !i.Unknown?
  {
    match i
    case Cls => Pack(0x0, 0x0E0)
    case Ret => Pack(0x0, 0x0EE)
    case Jump(nnn) => Pack(0x1, nnn)
    case Call(nnn) => Pack(0x2, nnn)
    case SkipEqByte(x, kk) => Pack(0x3, Xkk(x, kk))
    case SkipNeByte(x, kk) => Pack(0x4, Xkk(x, kk))
    case SkipEqReg(x, y) => Pack(0x5, Xkk(x, Yn(y, 0)))
    case LoadByte(x, kk) => Pack(0x6, Xkk(x, kk))
    case AddByte(x, kk) => Pack(0x7, Xkk(x, kk))
    case Alu(aop, x, y) => Pack(0x8, Xkk(x, Yn(y, AluCode(aop))))
    case SkipNeReg(x, y) => Pack(0x9, Xkk(x, Yn(y, 0)))
    case LoadIndex(nnn) => Pack(0xA, nnn)
    case JumpV0(nnn) => Pack(0xB, nnn)
    case Random(x, kk) => Pack(0xC, Xkk(x, kk))
    case Draw(x, y, n) => Pack(0xD, Xkk(x, Yn(y, n)))
    case SkipPressed(x) => Pack(0xE, Xkk(x, 0x9E))
    case SkipNotPressed(x) => Pack(0xE, Xkk(x, 0xA1))
    case Misc(mop, x) => Pack(0xF, Xkk(x, MiscCode(mop)))
  }

  /** Splitting a packed word gives back its parts, whatever they are. */
  lemma SplitPack(g: Nibble, x: Nibble, y: Nibble, n: Nibble)
    ensures Split(Pack(g, Xkk(x, Yn(y, n)))) == Fields(g, x, y, n, Yn(y, n), Xkk(x, Yn(y, n)))
  {
    DivModUnique(Pack(g, Xkk(x, Yn(y, n))), 4096, g, Xkk(x, Yn(y, n)));
    DivModUnique(Xkk(x, Yn(y, n)), 256, x, Yn(y, n));
    DivModUnique(Yn(y, n), 16, y, n);
  }

  /** The same for a byte operand `kk` and for a twelve-bit operand `nnn`. */
  lemma SplitPackByte(g: Nibble, x: Nibble, kk: Byte)
    ensures Split(Pack(g, Xkk(x, kk))) == Split(Pack(g, Xkk(x, Yn(kk / 16, kk % 16))))
  {
    assert Yn(kk / 16, kk % 16) == kk;
  }

  lemma SplitPackAddr(g: Nibble, nnn: Addr)
    ensures Pack(g, nnn) == Pack(g, Xkk(nnn / 256, Yn((nnn % 256) / 16, nnn % 16)))
  {
    var lo := nnn % 256;
    DivModUnique(nnn, 256, nnn / 256, lo);
    DivModUnique(lo, 16, lo / 16, lo % 16);
    DivModUnique(nnn, 16, nnn / 256 * 16 + lo / 16, lo % 16);
  }

  /** Decoding the encoding of any recognised instruction gives it back. */
  lemma DecodeEncode(i: Instr)
    requires !i.Unknown?
    ensures Decode(Encode(i)) == i
  {
    if i.Jump? || i.Call? || i.LoadIndex? || i.JumpV0? {
      DecodeEncodeAddr(i);
    } else if i.SkipEqByte? || i.SkipNeByte? || i.LoadByte? || i.AddByte? || i.Random? || i.Misc? {
      DecodeEncodeByte(i);
    } else {
      DecodeEncodeNibbles(i);
    }
  }

  /** The round trip for the instructions with a twelve-bit operand. */
  lemma DecodeEncodeAddr(i: Instr)
    requires i.Jump? || i.Call? || i.LoadIndex? || i.JumpV0?
    ensures Decode(Encode(i)) == i
  {
    var g: Nibble := if i.Jump? then 1 else if i.Call? then 2 else if i.LoadIndex? then 0xA else 0xB;
    var nnn := i.nnn;
    assert Encode(i) == Pack(g, nnn);
    SplitPackAddr(g, nnn);
    SplitPack(g, nnn / 256, (nnn % 256) / 16, nnn % 16);
  }

  /** The round trip for the instructions with a register and a byte operand. */
  lemma DecodeEncodeByte(i: Instr)
    requires i.SkipEqByte? || i.SkipNeByte? || i.LoadByte? || i.AddByte? || i.Random? || i.Misc?
    ensures Decode(Encode(i)) == i
  {
    var g: Nibble :=
      if i.SkipEqByte? then 3 else if i.SkipNeByte? then 4 else if i.LoadByte? then 6
      else if i.AddByte? then 7 else if i.Random? then 0xC else 0xF;
    var kk := if i.Misc? then MiscCode(i.mop) else i.kk;
    assert Encode(i) == Pack(g, Xkk(i.x, kk));
    SplitPackByte(g, i.x, kk);
    SplitPack(g, i.x, kk / 16, kk % 16);
  }

  /** The round trip for the remaining instructions, whose operands are whole nibbles. */
  lemma DecodeEncodeNibbles(i: Instr)
    requires !i.Unknown? && !(i.Jump? || i.Call? || i.LoadIndex? || i.JumpV0?)
    requires !(i.SkipEqByte? || i.SkipNeByte? || i.LoadByte? || i.AddByte? || i.Random? || i.Misc?)
    ensures Decode(Encode(i)) == i
  {
    match i
    case Cls => SplitPack(0, 0, 0xE, 0);
    case Ret => SplitPack(0, 0, 0xE, 0xE);
    case SkipEqReg(x, y) => SplitPack(5, x, y, 0);
    case Alu(aop, x, y) => SplitPack(8, x, y, AluCode(aop));
    case SkipNeReg(x, y) => SplitPack(9, x, y, 0);
    case Draw(x, y, n) => SplitPack(0xD, x, y, n);
    case SkipPressed(x) => SplitPack(0xE, x, 9, 0xE);
    case SkipNotPressed(x) => SplitPack(0xE, x, 0xA, 1);
  }

  /**
   * The encodings no instruction is assigned to: other 0nnn words,
   * 8xy8..8xyD and 8xyF, and every ExNN and FxNN outside the listed ones.
   */
  predicate Unrecognised(op: Word) {
    || (op < 0x1000 && op != 0x00E0 && op != 0x00EE)
    || (0x8000 <= op < 0x9000 && op % 16 in {0x8, 0x9, 0xA, 0xB, 0xC, 0xD, 0xF})
    || (0xE000 <= op < 0xF000 && op % 256 !in {0x9E, 0xA1})
    || (0xF000 <= op && op % 256 !in {0x07, 0x0A, 0x15, 0x18, 0x1E, 0x29, 0x33, 0x55, 0x65})
  }

  /** A word decodes to `Unknown` exactly when it is one of the unrecognised encodings. */
  lemma DecodeUnknown(op: Word)
    ensures Decode(op).Unknown? <==> Unrecognised(op)
  {
    var f := Split(op);
    DivModUnique(op, 16, f.group * 256 + f.x * 16 + f.y, f.n);
    DivModUnique(op, 256, f.group * 16 + f.x, f.kk);
  }

  /**
   * The other direction: re-encoding a recognised word gives the word
   * back, except that 5xyN and 9xyN come back with N = 0, the nibble
   * their decoding ignores.
   */
  lemma EncodeDecode(op: Word)
    requires !Unrecognised(op)
    ensures !Decode(op).Unknown?
    ensures Encode(Decode(op)) == if op / 4096 == 5 || op / 4096 == 9 then op - op % 16 else op
  {
    DecodeUnknown(op);
    var f := Split(op);
    DivModUnique(op, 4096, f.group, f.nnn);
    DivModUnique(op, 16, f.group * 256 + f.x * 16 + f.y, f.n);
    assert Pack(f.group, f.nnn) == op;
    assert Xkk(f.x, f.kk) == f.nnn && Yn(f.y, f.n) == f.kk;
    var i := Decode(op);
    match f.group
    case 0x0 =>
      assert i == Cls || i == Ret;
    case 0x1 => assert i == Jump(f.nnn) && Encode(i) == Pack(1, f.nnn);
    case 0x2 => assert i == Call(f.nnn) && Encode(i) == Pack(2, f.nnn);
    case 0x3 => assert i == SkipEqByte(f.x, f.kk) && Encode(i) == Pack(3, Xkk(f.x, f.kk));
    case 0x4 => assert i == SkipNeByte(f.x, f.kk) && Encode(i) == Pack(4, Xkk(f.x, f.kk));
    case 0x5 => assert i == SkipEqReg(f.x, f.y) && Encode(i) == Pack(5, Xkk(f.x, Yn(f.y, 0)));
    case 0x6 => assert i == LoadByte(f.x, f.kk) && Encode(i) == Pack(6, Xkk(f.x, f.kk));
    case 0x7 => assert i == AddByte(f.x, f.kk) && Encode(i) == Pack(7, Xkk(f.x, f.kk));
    case 0x8 =>
      var aop := DecodeAlu(f.n).value;
      assert AluCode(aop) == f.n;
      assert i == Alu(aop, f.x, f.y) && Encode(i) == Pack(8, Xkk(f.x, Yn(f.y, f.n)));
    case 0x9 => assert i == SkipNeReg(f.x, f.y) && Encode(i) == Pack(9, Xkk(f.x, Yn(f.y, 0)));
    case 0xA => assert i == LoadIndex(f.nnn) && Encode(i) == Pack(0xA, f.nnn);
    case 0xB => assert i == JumpV0(f.nnn) && Encode(i) == Pack(0xB, f.nnn);
    case 0xC => assert i == Random(f.x, f.kk) && Encode(i) == Pack(0xC, Xkk(f.x, f.kk));
    case 0xD => assert i == Draw(f.x, f.y, f.n) && Encode(i) == Pack(0xD, Xkk(f.x, Yn(f.y, f.n)));
    case 0xE =>
      assert i == SkipPressed(f.x) || i == SkipNotPressed(f.x);
    case 0xF =>
      var mop := DecodeMisc(f.kk).value;
      assert MiscCode(mop) == f.kk;
      assert i == Misc(mop, f.x) && Encode(i) == Pack(0xF, Xkk(f.x, f.kk));
  }
}
