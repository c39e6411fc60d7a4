# Interrupt buttons: deduplicating dispatch

A model of the button firmware of `u701-interrupt-buttons` (an ESP32 program in Rust). Two buttons,
on GPIO 12 and GPIO 13, raise interrupts. Each interrupt handler stores its pin number in a single
shared cell, `EVENT`, and overwrites whatever was there. Every 50 ms the main loop takes `EVENT`
and a second cell, `STATE`, which holds the pin it dispatched last. A pin equal to `STATE` is
skipped. Any other pin is written to the keyboard as decimal text, when the keyboard is connected,
and is stored back into `STATE`.

Both cells are only touched inside critical sections. So each interrupt and each loop iteration is
one atomic step of the model.

- `wrappers.dfy`: module `Wrappers`, the `Option` type of both cells.
- `decimal_text.dfy`: module `DecimalText`. `Text` is the text a pin id is written as: decimal, no
  leading zeros, a `-` before negative values. `Parse` reads such text back, and the lemmas prove
  that the round trip loses nothing.
- `dispatch.dfy`: module `Dispatch`, the behaviour on values. `Cells` holds the two cells, `Latch`
  is one interrupt and `Tick` is one loop iteration. A `Round` lists the interrupts that fire before
  a tick and says whether the keyboard is connected at that tick. `Run` covers a finite number of
  loop iterations, and `Written` is everything the keyboard received. The lemmas cover sequences of
  rounds.
- `firmware.dfy`: module `Firmware`. The class `Buttons` has the two cells as mutable fields. Its
  methods `Latch` (the interrupt handler) and `Tick` (the loop body) update them in place. The
  methods `LatchEach` and `RunLoop` drive them over a list of rounds. Each method is proved equal
  to the matching function of `Dispatch`.

Any interleaving of interrupts and ticks has this shape: some interrupts, then a tick, repeated.
So a list of rounds describes every schedule the firmware can see up to a given tick.

One behaviour follows from the code and is easy to miss. Both cells are taken at the start of a
tick. `STATE` is put back only when a new pin is dispatched. A duplicate tick and an idle tick
therefore both leave `STATE` empty. The buttons use level-triggered interrupts, and the handler
re-arms its interrupt. So a button held down latches its pin again before every tick, and its pin
is written on every other tick (`RepeatedPressAlternates`, `RepeatedPressLog`,
`RefireAlternates`). The comment on the duplicate branch speaks of suppressing an event until
release. The model follows the code, not that comment.

src/main.rs has no debounce, multi-click, hold or chord logic, so none is modelled.

## Model

| member | source | states |
|---|---|---|
| `Dispatch.PinsRegistered` | src/main.rs:75-76 | the registered pins, one per button driver, are exactly 12 and 13, and no two buttons share a pin |
| `Dispatch.Latch` | src/main.rs:55 | an interrupt makes EVENT the button's pin, whatever EVENT held before; STATE is unchanged; cells holding only registered pins keep doing so |
| `Dispatch.LatchAll` | src/main.rs:51-58 | several interrupts before a tick leave EVENT holding only the last pin; STATE is left alone; with no interrupt nothing changes |
| `Dispatch.Tick` | src/main.rs:89-111 | a tick always empties EVENT; STATE afterwards holds the latched pin exactly when it was new (no recorded pin, or a different one), and is empty otherwise, connected or not; something is written exactly when the keyboard is connected and the pin is new, and what is written is the pin's decimal text |
| `Dispatch.Step` | src/main.rs:51-111 | one round (its interrupts, then one tick) empties EVENT; the tick finds the last pin fired in the round, or the earlier EVENT if none fired; it writes exactly when connected and that pin differs from STATE, writes that pin's text, and records it in STATE exactly when it was new |
| `Dispatch.Run` | src/main.rs:88-115 | a run of loop iterations has one write slot per tick, and any run of at least one tick leaves EVENT empty |
| `Dispatch.Written` | src/main.rs:101-103 | the keyboard log is no longer than the number of ticks it came from |
| `Dispatch.AtMostOneWritePerTick` | src/main.rs:93-110 | each tick of a run writes at most one text, so the keyboard log is no longer than the run |
| `Dispatch.RunPrefix` | src/main.rs:88-115 | the writes of the first m iterations do not depend on later iterations |
| `Dispatch.RunAt` | src/main.rs:88-115 | tick i takes the cells that the first i iterations left and writes what one step from them writes |
| `Dispatch.WriteTracesToPress` | src/main.rs:90-105 | starting with EVENT empty, a tick writes only if an interrupt fired since the previous tick and the keyboard is connected, and it writes the last such pin; a latched pin is never dispatched by a later tick |
| `Dispatch.RunStaysRegistered` | src/main.rs:51-105 | from cells holding only registered pins, both cells keep holding only pins 12 or 13, and every text the keyboard receives is "12" or "13" |
| `Dispatch.RepeatedPressAlternates` | src/main.rs:91-104 | when the same button fires before every tick, starting from empty cells, tick 1, 3, 5, … write its pin (if connected) and tick 2, 4, … write nothing; STATE ends holding the pin after an odd number of ticks and empty after an even number |
| `Dispatch.RepeatedPressLog` | src/main.rs:91-104 | over n ticks of that kind with the keyboard connected, the keyboard receives the pin's text exactly (n + 1) / 2 times and nothing else |
| `Dispatch.RefireAlternates` | src/main.rs:91-104 | if the same button fires last before two consecutive connected ticks, exactly one of the two ticks writes |
| `Dispatch.IdleTickRearms` | src/main.rs:91-109 | press, idle tick, same press again: the idle tick writes nothing and clears STATE, so the second press is written again |
| `DecimalText.NatText` | src/main.rs:102 | the decimal text of a natural number is non-empty, all digits, and starts with '0' only for zero |
| `DecimalText.Text` | src/main.rs:102 | the text of an integer is non-empty and starts with '-' exactly when the integer is negative |
| `DecimalText.TextRoundTrip` | src/main.rs:102 | reading back the text of any integer gives that integer |
| `DecimalText.TextInjective` | src/main.rs:102 | different pin ids are written as different texts |
| `DecimalText.PinTexts` | src/main.rs:102 | pin 12 is written as "12" and pin 13 as "13" |
| `Firmware.Buttons.constructor` | src/main.rs:26-27 | both cells start empty and nothing has been written |
| `Firmware.Buttons.Latch` | src/main.rs:51-58 | the interrupt handler puts its button's pin into EVENT, replacing any earlier pin, and changes nothing else; only registered pins are ever held |
| `Firmware.Buttons.Tick` | src/main.rs:89-111 | the loop body leaves the cells as `Dispatch.Tick` gives them, returns what it wrote to the keyboard, and appends that to the keyboard log |
| `Firmware.LatchEach` | src/main.rs:51-58 | interrupts fired one after another leave the cells as `Dispatch.LatchAll` gives them |
| `Firmware.RunRound` | src/main.rs:51-111 | the interrupts of a round followed by one loop iteration leave the cells and the write as `Dispatch.Step` gives them, and the keyboard log grows by that write |
| `Firmware.RunLoop` | src/main.rs:88-115 | running the loop in place over a list of rounds gives the cells and writes of `Dispatch.Run`, and the keyboard log grows by `Dispatch.Written` of those writes |

## Left out

- Peripheral acquisition, `PinDriver` configuration (level-triggered interrupt, pull-up) and the
  macro that sets up each button (src/main.rs:38-50, 59-63, 71-76) are hardware I/O. Only which
  pins are registered is kept.
- The `unsafe` interrupt subscription, the re-arming of the interrupt with `enable_interrupt`, and
  the `critical_section` mechanism are concurrency and foreign calls. Each critical section is one
  atomic method call instead. When interrupts fire is a parameter: the presses of each `Round`.
- Firmware.Buttons.Latch: assumes every interrupt arrives after its button's driver has been
  stored (src/main.rs:63). An interrupt between enabling it (src/main.rs:62) and storing the driver
  would panic at the `unwrap` on src/main.rs:54 without writing EVENT. That panic is not modelled,
  and neither `Firmware.Buttons.Latch` nor `Dispatch.Latch` has a failing case.
- The `mpsc` channel set up in `lazy_static` (src/main.rs:29-36) is never read, so it is not
  modelled.
- The watchdog set-up and feeding, and the 50 ms delay (src/main.rs:78-86, 113-114), are timing and
  I/O.
- Logging and `println!` (src/main.rs:68-69, 100) are not modelled.
- The keyboard module is not part of this model. The keyboard is a `connected` flag per tick, plus
  the log of the texts it was given.
- `RunLoop` runs a finite number of iterations. The source loop never ends, so every property is
  stated about finite prefixes of it.
- `Text` renders any integer. The 32-bit width of the pin id does not matter here, because only
  12 and 13 occur.
- src/main-button.rs is an LED-toggling demo made only of hardware calls, so it is not modelled.
