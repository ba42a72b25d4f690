# CHIP-8 interpreter core in Dafny

This project models the core of a small CHIP-8 interpreter: the `Chip8` class. It exists in two variants with the same public interface:
- `src/chip8.h` with `src/chip8.cc`;
- `src/chip8.hpp` with `src/chip8.cpp`.

The machine has:
- 4096 bytes of memory, with the built-in hexadecimal font at addresses 0..79;
- a 64 x 32 monochrome framebuffer of 2048 cells;
- sixteen 8-bit registers V0..VF, where VF doubles as the carry, borrow and collision flag;
- sixteen keys;
- a return stack of depth 16;
- a 16-bit program counter and a 16-bit index register I;
- a delay timer, a sound timer and a "draw" flag for the host.

The model has two layers.

- **A functional specification.** Modules `MachineState`, `Decoder`, `Semantics` and `SpriteDrawing` give it:
  - a `State` value;
  - the decoding of a 16-bit instruction word into an `Instr` value, and back;
  - one function per instruction, per timer tick, per key event and per program load.

  Module `Properties` proves multi-step facts about it.
- **The class `Chip8.Machine`.** It keeps the state in arrays (`memory`, `display`, `registers`, `keys`, `stack`) and scalar fields, and its methods update them in place, with loops where the source loops. Each method is proved to leave the machine in exactly the state the corresponding function gives: `View() == F(old(View()))`.

The two source variants differ from each other in several instructions, and in places from the behaviour their own comments and the CHIP-8 instruction set document. The model follows the documented behaviour:
- Flags are computed from the operands before the result is written. Vx is written first and VF last.
- 8xy5 and 8xy7 set VF to NOT borrow (`Vx >= Vy`, respectively `Vy >= Vx`).
- Dxyn reads both coordinates before clearing VF. Each cell index is reduced modulo 2048. VF becomes 1 once any drawn pixel hits a lit one, and stays 1.
- Fx0A stores the number of the lowest key that is down.

In the places listed under "## Findings", the code as written is modelled too, next to an input on which it and the documented behaviour disagree. The differences that remain unmodelled are listed under "## Left out".

Some behaviour is undefined in the source, because it indexes out of bounds there. The model makes each such case total:
- Every memory access takes its address modulo 4096.
- `pc` and I wrap modulo 65536, like the `uint16_t` fields they are.
- A key number of 16 or more reads as "not down".
- A call with 16 return addresses stacked, or a return with none, is rejected with a `Status`, and the state is left as it was after the fetch.
- A program image longer than the 3584 bytes above address 512 is refused.

The random byte of Cxkk and the bytes of the program file are parameters.

## Model

| member | source | states |
|---|---|---|
| MachineState.Initial | src/chip8.cc:26-41 | a fresh machine: font at 0..79, all other memory, pixels, registers and keys zero, empty stack, pc = 512, I = 0, timers 0, draw flag off |
| MachineState.Fetch | src/chip8.cc:56 | the instruction word is the byte at pc (high) followed by the byte at pc + 1 (low), both addresses modulo 4096 |
| MachineState.Advance | src/chip8.cc:57 | pc + 2 as a 16-bit sum: exactly pc + 2, or pc + 2 - 65536 when that overflows |
| MachineState.Retreat | src/chip8.cc:292 | pc - 2 as a 16-bit difference: advancing it gives back pc |
| Decoder.Split | src/chip8.cc:59-63 | the fields x, y, n, kk, nnn and the top nibble reassemble into the word (kk = 16y + n, nnn = 256x + kk, op = 4096 group + nnn) |
| Decoder.AluCode | src/chip8.cc:139-201 | the n that selects an 8xyN operation decodes back to it |
| Decoder.MiscCode | src/chip8.cc:274-346 | the kk that selects an FxNN operation decodes back to it |
| Decoder.DecodeEncode | src/chip8.cc:66-351 | decoding the canonical encoding of any recognised instruction gives that instruction back |
| Decoder.Decode | src/chip8.cc:66-351 | the two-level dispatch; only words of groups 0, 8, E and F (those with a second-level switch) can decode to `Unknown` |
| Decoder.DecodeUnknown | src/chip8.cc:66-351 | a word decodes to `Unknown` exactly when it is one of the encodings no case of the dispatch handles (0nnn other than 00E0/00EE, 8xyN with N not in 0-7 or E, ExNN other than 9E/A1, FxNN other than the nine handled ones) |
| Decoder.EncodeDecode | src/chip8.cc:66-351 | every recognised word decodes to a recognised instruction whose encoding is the word itself, except that 5xyN and 9xyN come back with N = 0, since they ignore n |
| Semantics.Flip | src/chip8.cc:240 | XOR with 1 toggles bit 0 and keeps the other bits |
| Semantics.AddRegisters | src/chip8.cc:166-169 | 8xy4: VF = 1 exactly when Vx + Vy > 255, and (unless x is F) Vx' + 256 VF = Vx + Vy, so Vx' is the sum modulo 256; no other register changes |
| Semantics.Subtract | src/chip8.cc:173-176 | 8xy5: VF = 1 exactly when Vx >= Vy (NOT borrow), and (unless x is F) Vx' = Vx - Vy + 256 (1 - VF), the difference modulo 256; no other register changes |
| Semantics.SubtractNegated | src/chip8.cc:187-190 | 8xy7: VF = 1 exactly when Vy >= Vx, and (unless x is F) Vx' = Vy - Vx + 256 (1 - VF); no other register changes |
| Semantics.ShiftRight | src/chip8.cc:180-183 | 8xy6: VF is the bit shifted out (bit 0), and (unless x is F) 2 Vx' + VF = Vx; no other register changes |
| Semantics.ShiftLeft | src/chip8.cc:194-197 | 8xyE: VF is the bit shifted out (bit 7), and (unless x is F) Vx' + 256 VF = 2 Vx; no other register changes |
| Semantics.ExecuteAlu | src/chip8.cc:138-202 | the 8xyN family changes registers only. 8xy0 sets Vx = Vy, and 8xy1-8xy3 set Vx to the bitwise OR, AND or XOR of Vx and Vy. These four change no register but Vx, so VF is left alone unless x is F. The others change at most Vx and VF |
| Semantics.SkipIf | src/chip8.cc:103-107 | a skip moves pc on by 2 exactly when its condition holds; nothing else changes |
| Semantics.CallSubroutine | src/chip8.cc:96-99 | 2nnn executes exactly when fewer than 16 addresses are stacked: it pushes the return address and sets pc = nnn; otherwise it is rejected as overflow and changes nothing |
| Semantics.Return | src/chip8.cc:79-81 | 00EE executes exactly when the stack is non-empty: it pops the top address into pc; otherwise it is rejected as underflow and changes nothing |
| Semantics.FirstPressed | src/chip8.cc:285-291 | the key search finds the lowest key from the start index that is down, and finds none only when no key from there is down |
| Semantics.KeyDown | src/chip8.cc:253 | `keys[registers[x]]`: a byte of 16 or more names no key down; below 16 it is the key's state |
| Semantics.WaitForKey | src/chip8.cc:283-294 | Fx0A: with no key down, pc steps back by 2 and nothing else changes; with k the lowest key down, Vx = k and nothing else changes |
| Semantics.ToggleKey | src/chip8.cc:363-365 | `handle_keypress` flips key k and no other key |
| Semantics.StoreBcd | src/chip8.cc:322-326 | Fx33: the three bytes at I, I+1, I+2 are decimal digits whose value 100a + 10b + c is Vx; no other memory byte changes |
| Semantics.StoreRegisters | src/chip8.cc:330-334 | Fx55 changes memory only (what it writes: Properties.StoreRegistersWindow) |
| Semantics.LoadRegisters | src/chip8.cc:338-342 | Fx65 changes registers only (what it loads: Properties.LoadRegistersWindow) |
| Semantics.ExecuteMisc | src/chip8.cc:273-347 | the FxNN family never touches the framebuffer, keys, stack or draw flag, and only Fx0A moves pc. Fx07 sets Vx to the delay timer and changes no other register. Fx15 and Fx18 set the delay or sound timer to Vx and change nothing else. Fx1E changes only I: it becomes I + Vx, or I + Vx - 65536 exactly when the sum reaches 65536 |
| Semantics.PointToGlyph | src/chip8.cc:316-318 | Fx29: I is a multiple of 5 with I / 5 = Vx, and for a hex digit its five bytes lie within the font |
| Semantics.ClearScreen | src/chip8.cc:72-75 | 00E0: every pixel is 0 and the draw flag is set; nothing else changes |
| Semantics.Cell | src/chip8.cpp:219 | the pixel index of sprite row `row`, column `col` lies inside the framebuffer |
| Semantics.PlotRow | src/chip8.cpp:217-225 | drawing one sprite row keeps every pixel 0 or 1 and never clears a collision already seen |
| Semantics.PlotRows | src/chip8.cpp:215-226 | drawing the sprite rows one after another keeps every pixel 0 or 1 |
| Semantics.SpriteAt | src/chip8.cc:235 | the sprite of Dxyn is the n bytes at I, I+1, ..., addresses modulo 4096 |
| Semantics.DrawSprite | src/chip8.cpp:210-230 | Dxyn changes only the framebuffer, VF (0 or 1) and the draw flag, which it sets |
| Semantics.ExecuteSkip | src/chip8.cc:101-123 | each of 3xkk, 4xkk, 5xy0, 9xy0, Ex9E, ExA1 executes as "skip when its condition holds" |
| Semantics.Execute | src/chip8.cc:66-351 | an instruction is rejected exactly when it is a call with a full stack or a return with an empty one, and a rejected instruction changes nothing (what each executed instruction does: the Execute* lemmas below and the family functions above) |
| Semantics.ExecuteJump | src/chip8.cc:90-91 | 1nnn sets pc to nnn and changes nothing else |
| Semantics.ExecuteLoadIndex | src/chip8.cc:214-215 | Annn sets I to nnn and changes nothing else |
| Semantics.ExecuteJumpV0 | src/chip8.cc:220-221 | Bnnn sets pc to nnn + V0, which never reaches 65536, and changes nothing else |
| Semantics.ExecuteLoadAdd | src/chip8.cc:127-134 | 6xkk sets Vx = kk. 7xkk sets Vx to Vx + kk when that is below 256 and to Vx + kk - 256 otherwise. No other register changes, so VF takes no carry |
| Semantics.ExecuteRandom | src/chip8.cc:226-227 | Cxkk sets Vx to the random byte ANDed with kk and changes no other register |
| Semantics.Exec | src/chip8.cc:55-57 | a rejected step leaves the state as after the fetch, pc advanced by 2 |
| Semantics.Tick | src/chip8.cc:354-357 | each timer goes down by exactly one when above zero and stays when zero; nothing else changes |
| Semantics.LoadProgram | src/chip8.cc:43-53 | the image is accepted exactly when it fits in 3584 bytes; then it sits at 512.. and all memory outside it, and the rest of the state, is unchanged |
| SpriteDrawing.CellDistance | src/chip8.cpp:219 | the pixel of (row, col) is the unique cell at wrapped distance 64 row + col from the sprite origin |
| SpriteDrawing.PlotRowEffect | src/chip8.cpp:217-225 | drawing a row toggles exactly the cells under its set bits, and reports a collision exactly when one of them was lit (or one was already reported) |
| SpriteDrawing.PlotRowsCells | src/chip8.cpp:215-226 | drawing the first rows toggles exactly the cells under their set bits |
| SpriteDrawing.PlotRowsCollision | src/chip8.cpp:215-226 | the collision after the first rows holds exactly when some cell under them was lit before the draw |
| SpriteDrawing.DrawSpriteEffect | src/chip8.cpp:210-230 | Dxyn toggles exactly the cells under the sprite, and VF = 1 exactly when one of them was lit |
| SpriteDrawing.DrawTwice | src/chip8.cpp:210-230 | drawing the same sprite twice at the same place restores the framebuffer; the second draw sets VF exactly when some covered cell was dark before the first |
| SpriteDrawing.CoversSomeCell | src/chip8.cpp:219 | a sprite covers some pixel exactly when it has a set bit: wrapping loses no pixel |
| SpriteDrawing.DrawTwiceOnBlank | src/chip8.cpp:210-230 | on a blank screen the first draw clears VF, and the second sets it exactly when the sprite has a set bit |
| Properties.UnrecognisedIsNoOp | src/chip8.cc:55-351 | an unrecognised word only moves pc on by 2 |
| Properties.SkipStep | src/chip8.cc:248-264 | a whole step on a skip changes only pc: by 4 when the condition holds, else by 2 |
| Properties.StraightLinePc | src/chip8.cc:57 | every instruction other than jumps, calls, returns, skips and Fx0A leaves pc 2 past itself |
| Properties.CallThenReturn | src/chip8.cc:79-99 | a call followed by a return comes back after the call with the stack as it was |
| Properties.StackLimits | src/chip8.cc:79-99 | a call on a full stack and a return on an empty one are rejected, and one step changes the stack depth by at most one |
| Properties.StoreRegistersWindow | src/chip8.cc:330-334 | after Fx55, memory at I..I+x holds V0..Vx, every other byte and all registers are unchanged |
| Properties.LoadRegistersWindow | src/chip8.cc:338-342 | after Fx65, V0..Vx hold the bytes at I..I+x (modulo 4096), the other registers, memory and I are unchanged |
| Properties.StoreThenLoad | src/chip8.cc:330-342 | Fx65 right after Fx55 with the same I and x restores V0..Vx and changes nothing |
| Properties.StoreThenLoadSteps | src/chip8.cc:330-342 | the same over two whole steps: only pc moves, by 4 in total |
| Properties.WaitWithoutKey | src/chip8.cc:283-294 | Fx0A with no key down changes nothing, pc included |
| Properties.WaitRepeats | src/chip8.cc:283-294 | any number of steps on Fx0A with no key down leave the machine where it was |
| Properties.WaitWithKey | src/chip8.cc:283-294 | Fx0A with a key down stores the lowest such key number in Vx and moves on |
| Properties.TicksCountDown | src/chip8.cc:354-357 | k ticks take each timer down by k, stopping at zero, and change nothing else |
| Properties.ToggleTwice | src/chip8.cc:363-365 | toggling a key twice restores the key state |
| Properties.LoadKeepsFont | src/chip8.cc:40-52 | loading a program leaves addresses 0..79, and so the font of a fresh machine, untouched |
| Properties.GlyphRows | src/chip8.cc:316-318 | with the font in place, Fx29 points I at the five rows of the glyph for Vx |
| Chip8.Machine.constructor | src/chip8.cc:26-41 | a new machine is in the initial state |
| Chip8.Machine.LoadRom | src/chip8.cc:43-53 | copies the image byte by byte to 512.. when it fits, and reports whether it did |
| Chip8.Machine.DecrementTimers | src/chip8.cc:354-357 | the state after one timer tick |
| Chip8.Machine.PixelState | src/chip8.cc:359-361 | the value of pixel i, which is 0 or 1 |
| Chip8.Machine.HandleKeypress | src/chip8.cc:363-365 | the state after toggling key k |
| Chip8.Machine.GetDrawFlag | src/chip8.cc:367-369 | the draw flag |
| Chip8.Machine.SetDrawFlag | src/chip8.cc:371-373 | the draw flag is f and nothing else changes |
| Chip8.Machine.Step | src/chip8.cc:55-64 | fetch, advance, decode and execute: the new state and status are those of one step |
| Chip8.Machine.ExecuteInstruction | src/chip8.cc:66-351 | the new state and status are those of executing the decoded instruction |
| Chip8.Machine.ControlFlow | src/chip8.cc:68-99 | 00E0, 00EE, 1nnn, 2nnn, Annn, Bnnn and unrecognised words, executed in place |
| Chip8.Machine.Skip | src/chip8.cc:101-123 | the skips, executed in place |
| Chip8.Machine.RegisterOperation | src/chip8.cc:125-135 | 6xkk, 7xkk, Cxkk and dispatch to the 8xyN, Dxyn and FxNN methods, executed in place |
| Chip8.Machine.ClearScreen | src/chip8.cc:72-75 | the state after 00E0 |
| Chip8.Machine.Call | src/chip8.cc:96-99 | the state and status after 2nnn |
| Chip8.Machine.Return | src/chip8.cc:79-81 | the state and status after 00EE |
| Chip8.Machine.Arithmetic | src/chip8.cc:138-202 | the state after 8xyN |
| Chip8.Machine.Draw | src/chip8.cpp:210-230 | the state after Dxyn |
| Chip8.Machine.DrawRows | src/chip8.cpp:215-226 | the framebuffer and VF after drawing the sprite rows |
| Chip8.Machine.DrawRow | src/chip8.cpp:217-225 | the framebuffer and VF after drawing one sprite row |
| Chip8.Machine.Miscellaneous | src/chip8.cc:273-347 | the state after FxNN |
| Chip8.Machine.StoreBcd | src/chip8.cc:322-326 | the state after Fx33 |
| Chip8.Machine.WaitForKey | src/chip8.cc:283-294 | the state after Fx0A: the key scan stops at the first key down |
| Chip8.Machine.StoreRegisters | src/chip8.cc:330-334 | the state after Fx55 |
| Chip8.Machine.LoadRegisters | src/chip8.cc:338-342 | the state after Fx65 |
| Findings.SubtractAsWritten | src/chip8.cc:173-176 | 8xy5 as written: VF = 1 exactly when Vy > Vx, which is the borrow |
| Findings.SubtractFlagInverted | src/chip8.cc:173-176 | for 5 - 3, VF is 0 as written and 1 as intended |
| Findings.SubtractAfterAsWritten | src/chip8.cpp:151-154 | 8xy5 as written: with x and y distinct and x not F, VF = 1 exactly when the wrapped difference exceeds Vy |
| Findings.SubtractAfterFlagWrong | src/chip8.cpp:151-154 | for 5 - 3, VF is 0 as written and 1 as intended |
| Findings.SubtractNegatedAsWritten | src/chip8.cc:187-190 | 8xy7 as written: VF = 1 exactly when Vx > Vy, the borrow of Vy - Vx |
| Findings.SubtractNegatedAfterAsWritten | src/chip8.cpp:165-168 | 8xy7 as written: with x and y distinct and x not F, VF = 1 exactly when Vy exceeds the wrapped difference |
| Findings.SubtractNegatedFlagWrong | src/chip8.cpp:165-168 | for 0 - 0, both written forms of 8xy7 leave VF 0, where as intended it is 1. They disagree with the intended flag for any reading of equal operands too: chip8.cc gives VF 0 with Vx = 3, Vy = 5, and chip8.cpp gives VF 0 with Vx = 0, Vy = 5 |
| Findings.AddFlagFirstAsWritten | src/chip8.cc:166-169 | 8xy4 as written in chip8.cc, flag first and then the sum with the registers re-read. With neither x nor y F, the registers end as intended. With y = F, Vx takes Vx plus the new flag. With x not F, the flag is the carry |
| Findings.AddFlagOperandLost | src/chip8.cc:166-169 | with V0 = 5 and VF = 10, 80F4 leaves V0 = 5 as written, and 15 as intended |
| Findings.AddAsWritten | src/chip8.cpp:144-147 | 8xy4 as written: with x and y distinct and x not F, VF = 1 exactly when the wrapped sum plus Vy exceeds 255, i.e. the carry is tested on the wrapped sum |
| Findings.AddCarryLost | src/chip8.cpp:144-147 | for 200 + 100, VF is 0 as written and 1 as intended |
| Findings.ShiftRightAsWritten | src/chip8.cpp:158-161 | 8xy6 as written: VF is bit 1 of the old Vx, not the bit shifted out |
| Findings.ShiftFlagLost | src/chip8.cpp:158-161 | for Vx = 1, VF is 0 as written and 1 as intended |
| Findings.ShiftLeftAsWritten | src/chip8.cpp:172-175 | 8xyE as written: VF is bit 6 of the old Vx, not the bit shifted out |
| Findings.ShiftLeftFlagLost | src/chip8.cpp:172-175 | for Vx = 0x80, VF is 0 as written and 1 as intended |
| Findings.WaitForKeyAsWritten | src/chip8.cc:283-294 | Fx0A as written stores 1 whatever key is down |
| Findings.WaitStoresOne | src/chip8.cc:287 | with key 5 down, Vx is 1 as written and 5 as intended |
| Findings.CellAsWritten | src/chip8.cpp:219 | as written, only the row term of the pixel index is reduced modulo 2048; the result agrees with the intended index modulo 2048 |
| Findings.CellPastEnd | src/chip8.cpp:219 | for a sprite at (63, 31), column 7 lands past the framebuffer as written and inside it as intended |
| Findings.CellUnreducedAsWritten | src/chip8.cc:238 | as written, the pixel index is not reduced at all; it agrees with the intended index modulo 2048 |
| Findings.CellUnreducedPastEnd | src/chip8.cc:238 | for a sprite at (63, 31), column 7 lands past the framebuffer as written |
| Findings.PlotRowAsWritten | src/chip8.cc:239-240 | the per-pixel VF overwrite of chip8.cc on its own, over the intended cell index: the pixels change as intended, but VF only keeps the old value of the last flipped pixel |
| Findings.CollisionOverwritten | src/chip8.cc:236-242 | row 0xC0 at (0, 0) over a screen lit only at pixel 0 leaves VF 0 as written and 1 as intended |

## Findings

| source | as written | input that shows it | evidently intended | confidence | as-written member | corrected member |
|---|---|---|---|---|---|---|
| src/chip8.cc:173-176 | 8xy5 sets VF = (Vy > Vx), the borrow | V0 = 5, V1 = 3, 8015: VF = 0 | VF = NOT borrow (Vx >= Vy), as the comment at src/chip8.cpp:150 says | not executed | Findings.SubtractFlagInverted | Semantics.Subtract |
| src/chip8.cpp:151-154 | 8xy5 writes Vx first, then sets VF = (new Vx > Vy) | V0 = 5, V1 = 3, 8015: VF = (2 > 3) = 0 | VF = NOT borrow (Vx >= Vy), from the operands | not executed | Findings.SubtractAfterFlagWrong | Semantics.Subtract |
| src/chip8.cc:187-190 | 8xy7 sets VF = (Vx > Vy), the borrow | V0 = 3, V1 = 5, 8017: VF = 0 | VF = NOT borrow (Vy >= Vx) | not executed | Findings.SubtractNegatedFlagWrong | Semantics.SubtractNegated |
| src/chip8.cpp:165-168 | 8xy7 writes Vx first, then sets VF = (Vy > new Vx) | V0 = 0, V1 = 5, 8017: Vx becomes 5 and VF = (5 > 5) = 0 | VF = NOT borrow (Vy >= Vx), from the operands | not executed | Findings.SubtractNegatedFlagWrong | Semantics.SubtractNegated |
| src/chip8.cpp:172-175 | 8xyE shifts first, then takes bit 7 of the shifted value | V0 = 0x80, 800E: VF = 0 | VF = the bit shifted out | not executed | Findings.ShiftLeftFlagLost | Semantics.ShiftLeft |
| src/chip8.cc:166-169 | 8xy4 writes VF first and then adds Vy read again, so with y = F the sum adds the new flag | V0 = 5, VF = 10, 80F4: V0 = 5 + 0 = 5 | V0 = 15, the sum of the operands | not executed | Findings.AddFlagOperandLost | Semantics.AddRegisters |
| src/chip8.cpp:144-147 | 8xy4 writes Vx first, then tests the carry on the wrapped sum | V0 = 200, V1 = 100, 8014: VF = 0 | VF = 1 when Vx + Vy > 255, computed before Vx is written | not executed | Findings.AddCarryLost | Semantics.AddRegisters |
| src/chip8.cpp:158-161 | 8xy6 shifts first, then takes bit 0 of the shifted value | V0 = 1, 8006: VF = 0 | VF = the bit shifted out | not executed | Findings.ShiftFlagLost | Semantics.ShiftRight |
| src/chip8.cc:283-294 | Fx0A stores `keys[i]`, a bool, so Vx = 1 | key 5 down, F00A: V0 = 1 | Vx = the number of the key, 5 | not executed | Findings.WaitStoresOne | Properties.WaitWithKey |
| src/chip8.cpp:219 | `x_pos + j + ((y_pos + i) * 64) % 2048`: only the row term wraps | V0 = 63, V1 = 31, sprite row 0xFF, D011: index 2054, past the 2048-cell array | the whole index wraps modulo 2048 | not executed | Findings.CellPastEnd | Semantics.Cell |
| src/chip8.cc:238 | `registers[x] + j + ((registers[y] + i) * 64)`: nothing wraps | V0 = 63, V1 = 31, sprite row 0xFF, D011: index 2054, past the 2048-cell array | the whole index wraps modulo 2048 | not executed | Findings.CellUnreducedPastEnd | Semantics.Cell |
| src/chip8.cc:236-242 | each flipped pixel overwrites VF with its old value | row 0xC0 at (0, 0), only pixel 0 lit: VF = 0 | VF = 1 once any pixel collides | not executed | Findings.CollisionOverwritten | SpriteDrawing.DrawSpriteEffect |

## Left out

- `load_rom` opens, measures and reads a file. The file's bytes are the `image` parameter of `LoadRom`, and file errors are not modelled.
- The Mersenne Twister of Cxkk is not modelled. Its byte is the `rnd` parameter of `Step`.
- `play`, declared at src/chip8.h:17, has no definition in the core. It and the host loop (window, rendering, key events, pacing) are not part of this model.
- The `std::stack` of src/chip8.hpp:31 is modelled as the fixed array with a depth counter of src/chip8.h:26-31. Its unbounded growth past 16 entries is not modelled: a call on a full stack is rejected.
- Out-of-bounds accesses are made total instead of modelled as undefined behaviour: memory addresses wrap modulo 4096, pixel indices modulo 2048, and key numbers of 16 or more read as "not down". A return on an empty stack is rejected.
- `load_rom` writes past the end of memory for an image longer than 3584 bytes. The model refuses such an image and writes nothing.
- `pixel_state` and `handle_keypress` with an index out of range are not modelled. Their methods require a valid index.
- Semantics.StoreRegisters, Semantics.LoadRegisters: their own contracts state only which part of the state they may change. What they write and load is stated by Properties.StoreRegistersWindow and Properties.LoadRegistersWindow.
- Dxyn in src/chip8.cc:238 reads Vx and Vy again for every pixel, after VF has been cleared and possibly set. With x or y equal to F the coordinate then differs from the one read before the draw. The model reads both once, before VF is cleared, as src/chip8.cpp:211-212 does; this re-reading is not modelled as written.
- With x = F, src/chip8.cc writes the flag of 8xy6 and 8xyE before the result, so VF ends up holding the result; src/chip8.cpp and the model write the flag last. For 8xy4, 8xy5 and 8xy7 that order, and the re-reading of Vy after VF changed, is modelled as written by Findings.AddFlagFirstAsWritten, Findings.SubtractAsWritten and Findings.SubtractNegatedAsWritten.
