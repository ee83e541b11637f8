# VGA Memorize, modelled in Dafny

VGA Memorize (`VGAMEM.C`) is a "Simon"-style memory game for DOS. Each round
it flashes a sequence of colours (blue, green, red, yellow) on the VGA
screen. The player then types one key per colour. A wrong key loses, and the
next round starts over at level 1. A correct answer advances the level: the
sequence grows by two colours and each flash is 60000 microseconds shorter.
A correct answer at level 25 wins the game, and the game then starts over.

This project models the game's logic:

- `CTypes`: the C widths the logic depends on. `byte` is `unsigned char`
  and `int32` is DJGPP's `int`. `Truncate` stores an `int` key code into a
  byte, keeping it modulo 256.
- `Codec`: `key_value` (key byte to colour code 0..4, where 0 is "fail")
  and `color_code` (colour code to VGA palette index).
- `Buffer`: `clear_array`, zeroing a byte buffer in place.
- `Rounds`: the round logic of `main` as functions on the counters `level`,
  `sequences`, `delay` and `loose`. It covers the reset after a loss, the
  generated 52-byte buffer, the fail-fast answer check, the win check and
  the level advance, plus whole rounds (`Round`) and runs of rounds (`Run`).
- `Game`: class `Machine` holds the same locals and the `sequence` array.
  Its methods change them step by step as `main` does, and each method is
  proved against the `Rounds` functions.
- `Overrun`: the answer loop exactly as written, which reads past the
  buffer at level 25 (see Findings).

`getch()` and `rand()` are inputs. A round reads them from a `RoundInput`:
the start-screen key, the raw `rand()` draws and the answer keys. The
screen fills that flash the colours are returned as a sequence of palette
indices.

Behaviour of the code that the model keeps as written:

- Red is typed as `r` (114) or byte 12 (Ctrl-L), not `R` (82), although
  the on-screen help says "R for Red". Blue, green and yellow accept both
  cases (`Codec.LetterKeys`).
- Each answer key is stored into a byte. A key stored as 0 ends the answer
  loop without a loss, so the round counts as answered correctly
  (`Rounds.ZeroKeyEndsAnswer`). Extended keys send a 0 first, so they
  trigger this. A description of the game in which the check goes on until
  every position is confirmed would differ here; the model follows the code.
- A subtraction with no floor suggests that the flash delay could become
  zero or negative at high levels. In the code the level never passes 25, so the
  delay never drops below 560000 (`Rounds.LastLevel`, `Rounds.Run`).
- The ESC test on the start screen compares the untruncated `int` from
  `getch()` with 27.

## Model

| member | source | states |
|---|---|---|
| `CTypes.Truncate` | VGAMEM.C:209 | storing a key code into a byte keeps its value modulo 256 and leaves byte-sized codes unchanged |
| `Codec.KeyValue` | VGAMEM.C:74-96 | the result is 0 or a colour 1..4, and it is 1, 2, 3 or 4 exactly for keys 66/98, 71/103, 12/114 and 89/121 |
| `Codec.KeysForColours` | VGAMEM.C:66-96 | inverse image of the key table: each colour is typed by exactly two key bytes, the ones listed |
| `Codec.LetterKeys` | VGAMEM.C:76-91 | B, G and Y work in both cases, red is typed by `r`, and `R` decodes to fail |
| `Codec.ColorCode` | VGAMEM.C:110-120 | blue, green, red and yellow (codes 1..4) are shown as palette indices 1, 2, 12 and 14, each exactly for its code; every other code gives 0 |
| `Codec.ColorCodeInjective` | VGAMEM.C:33-36 | distinct colours are shown with distinct palette indices |
| `Codec.KeyLightsPalette` | VGAMEM.C:110-120 | `color_code(key_value(k))` is in the palette for every key, and blank exactly when the key names no colour |
| `Buffer.ClearArray` | VGAMEM.C:99-107 | bytes 0..size-1 become 0 and every other byte is unchanged; the byte counter never wraps |
| `Rounds.LastLevel` | VGAMEM.C:39-45 | on schedule, the answer length is at most 52 and the delay at least 560000; at level 25 they are exactly 52 and 560000 |
| `Rounds.ResetIfLost` | VGAMEM.C:153-159 | a round never starts lost; a lost session restarts at level 1 on schedule, and a running one is untouched |
| `Rounds.LossResets` | VGAMEM.C:153-159 | after any loss the counters are level 1, length 4 and delay 2000000, whatever level was reached |
| `Rounds.Finish` | VGAMEM.C:220-233 | the loop invariant and the schedule are kept; the session is lost afterwards exactly when it was lost before or level 25 was won; otherwise the level rises by one |
| `Rounds.AdvanceStep` | VGAMEM.C:228-233 | a correct answer below level 25 adds 2 to the length and takes 60000 from the delay |
| `Rounds.DrawColor` | VGAMEM.C:190 | `rand() % 4 + 1` is always a colour code 1..4 |
| `Rounds.DrawColorOnto` | VGAMEM.C:190 | every colour is reached: any four consecutive draws give all four colours |
| `Rounds.Generated` | VGAMEM.C:182-190 | after clearing and generating, the buffer holds exactly `n` colours, each drawn from its own `rand()` value, followed by empty slots |
| `Rounds.FlashesAt` | VGAMEM.C:188-196 | the fills `Flashes` lists for a sequence (blank, colour, blank per slot, in the order of lines 191-195) number three per colour, and fill 3k+1 is colour k between two blank fills |
| `Rounds.GeneratedFlashes` | VGAMEM.C:191-195 | every fill is a palette index, and a fill is a colour exactly at positions 3k+1 |
| `Rounds.Check` | VGAMEM.C:198-217 | fail-fast answer check: keys before the last one read are good; it stops early only on a key that is not good; it loses exactly when the last key read is non-zero and wrong |
| `Rounds.CheckUnique` | VGAMEM.C:209-217 | the fail-fast description determines the verdict uniquely |
| `Rounds.CorrectAnswerPasses` | VGAMEM.C:209-217 | a complete correct answer never loses and reads one key per colour |
| `Rounds.NonColourKeyLoses` | VGAMEM.C:209-217 | a non-zero key that names no colour loses as soon as it is read |
| `Rounds.ZeroKeyEndsAnswer` | VGAMEM.C:209 | a key stored as byte 0 ends the answer early without a loss |
| `Rounds.Round` | VGAMEM.C:149-233 | after a round the counters are on schedule; ESC quits exactly from the start screen, and then the counters are reset |
| `Rounds.Run` | VGAMEM.C:149-235 | every state the game loop reaches keeps the invariant; after any round the level is in 1..25 and the counters are on schedule |
| `Rounds.PerfectAnswersRound` | VGAMEM.C:209-217 | an answer right for the whole 52-byte buffer is right for the round at every level |
| `Rounds.CorrectRoundAdvances` | VGAMEM.C:209-233 | an answer identical to the drawn colours, exactly as long as the sequence, advances the level or wins |
| `Rounds.WrongAnswerLoses` | VGAMEM.C:211-214 | a wrong key after good ones sets `loose` and keeps the level, and the next round restarts at level 1 |
| `Rounds.FirstRoundExample` | VGAMEM.C:153-233 | all-blue first round: typing `b` gives level 2, length 6, delay 1940000; typing `g` loses and the next round restarts |
| `Rounds.Climb` | VGAMEM.C:220-233 | rounds answered correctly for their own length (the length of level `level + i` for round i) climb one level each; the round answered at level 25 sets `loose` instead of reaching level 26 |
| `Rounds.PerfectGameWins` | VGAMEM.C:220-225 | from the start screen, a start key other than ESC and 25 rounds each answered correctly for its own length (4, 6, ..., 52 colours) end in the win at level 25, length 52, delay 560000 |
| `Overrun.ScanAsWritten` | VGAMEM.C:209-217 | the loop as written runs off the end of the buffer exactly when no 0 is left and every remaining key is good; otherwise it stops inside the buffer, lost exactly on a wrong last key |
| `Overrun.LastLevelOverrun` | VGAMEM.C:209-217 | at level 25 a correct answer for all 52 colours makes the loop as written read `sequence[52]` |
| `Overrun.ScanAsWrittenStops` | VGAMEM.C:209-217 | with the 0 sentinel inside the buffer, the loop as written gives the bounded check's verdict |
| `Overrun.BoundAgreesBelowLastLevel` | VGAMEM.C:209-217 | below level 25 the added bound `i < ARRAY_SIZE` changes no verdict |
| `Game.Machine.constructor` | VGAMEM.C:140 | the game starts with `loose` set and a fresh 52-byte buffer |
| `Game.Machine.Begin` | VGAMEM.C:153-172 | the counters become `ResetIfLost` of the old ones; the game quits exactly on ESC after a loss |
| `Game.Machine.Generate` | VGAMEM.C:182-196 | the buffer becomes the generated buffer for the draws, and the fills are the flashes of its prefix |
| `Game.Machine.Validate` | VGAMEM.C:198-217 | `loose` and the number of keys read are the verdict of `Check` on the filled prefix |
| `Game.Machine.EndRound` | VGAMEM.C:220-233 | the counters become `Finish` of the old ones; the win is reported exactly for a correct answer at level 25 |
| `Game.Machine.PlayRound` | VGAMEM.C:149-233 | one pass of the game loop changes the counters, quits and flashes exactly as `Round` says |
| `Game.Machine.Play` | VGAMEM.C:149-235 | a run of game-loop passes, left by ESC, matches `Run` |

## Left out

- `set_mode` and its BIOS interrupt (`int86`): hardware calls with no logic to verify.
- `fill_screen`, the `VGA` framebuffer pointer and `__djgpp_conventional_base`: memory-mapped output. Only the colours the generation loop fills the screen with are kept, as palette indices. The blank fills at the top of the loop and before the level banner are not listed.
- `printf` banners and messages, `sleep`, `usleep` and `INTERVAL_DELAY`: console and timing output. `delay` is kept as a number only.
- `srand(time(NULL))` and `rand()`: the library generator and the clock. The raw draws are an input, and only `draw % 4 + 1` is modelled.
- The value of the `getch()` that confirms the win: it is read and discarded, so it is not an input.
- The `response` array: it is declared and never used.
- Game.Machine.Play: models a finite run of passes, not the endless `do ... while (1)` loop. Each round takes at least 52 draws and 52 keys as input, because `rand()` and `getch()` never run out and a round reads at most 52 of each.
- Game.Machine.Validate: bounds the index by `ARRAY_SIZE`, which the source omits. The model cannot read `sequence[52]`; what the unbounded loop does there is in Findings.

## Findings

| source | as written | input that shows it | evidently intended | confidence | as-written member | corrected member |
|---|---|---|---|---|---|---|
| VGAMEM.C:209 | the answer loop is bounded only by the 0 that ends the filled prefix | level 25: `sequences` is 52, so the whole buffer is filled; after 52 correct keys the loop evaluates `sequence[52]`, one past the array | stop at `i == ARRAY_SIZE`, so a full correct answer at level 25 reaches the win | high; not executed | `Overrun.LastLevelOverrun` | `Rounds.Check` |

`Rounds.Check` and `Game.Machine.Validate` use the bounded loop, and the rest
of the model is built on them. `Rounds.PerfectGameWins` proves that a correct
game then ends in the win at level 25. `Overrun.BoundAgreesBelowLastLevel`
proves that the bound changes nothing below level 25.
