# Edge-triggered NeoPixel colour controller

This project models the logic of the `esp32s2test` firmware in Dafny. The firmware polls GPIO17 in a busy loop. It drives one WS2812B LED on GPIO18:

- when the pin falls from high to low, it lights the LED in a randomly chosen palette colour, halved in brightness half of the time;
- when the pin rises from low to high, it switches the LED off.

The project has three modules:

- `Rgb` (`color.dfy`) is the `MyColor` value type. It holds three 8-bit channels. It has `half_brightness` (integer division by two per channel) and `to_rgb8` (a copy into the driver's `RGB8` record).
- `Selector` (`selector.dfy`) is the seven-entry palette and the colour selection. The first 32-bit random draw modulo 7 picks the entry. A second draw halves the entry when it is even.
- `Controller` (`controller.dfy`) is the main loop. At boot it writes the off colour once and stores the pin level it read. On each poll it compares the current level with the stored one. On a change it stores the new level and writes a colour (falling edge) or off (rising edge). An unchanged poll does nothing.

The hardware enters the model as inputs:
- Each `Poll` carries the pin level that was read and the two random draws. The draws are used only on a falling edge, in the order the firmware draws them.
- Each `Poll` also carries the result the LED driver reports if that iteration writes.
- The boot write's result is a separate input.
- Writes are collected in a log of `Write(color, sent)` records.

The loop of `main` works on local variables: the stored level and the colour being built. So it is modelled as the method `Controller.Run`. `Run` has a `while` loop over a finite sequence of polls. It is proved equal to the recursive specification functions `State` and `Writes`. The lemmas about those two functions state what the log looks like.

The code was followed where it differs from a plain "LED off / LED on" state machine. The stored state is the pin level and not the LED state. If the pin is already low at boot, the boot write switches the LED off. The first detected change is then a rise, and it writes off a second time. So the whole log alternates strictly between off and colour only when the pin is high at boot. The writes after boot always alternate. `Controller.LogShape` states both facts.

The modulo selection is kept as written, bias included. Of the 2^32 first draws, indices 0 to 3 are each reached by 613566757 values and indices 4 to 6 by 613566756 (`Selector.PaletteIndexBias`).

Some definitions carry no contract of their own. The lemmas in the table below state what they mean:

- `Selector.Palette` is the seven colours (src/bin/main.rs:77-85).
- `Controller.Off` is the all-zero record (src/bin/main.rs:86).
- `Selector.IsHalf` is the even test on the second draw (src/bin/main.rs:106).
- `Controller.State` and `Controller.Writes` repeat `Next` and `Respond` over a sequence of polls.
- `Controller.Log` puts the boot write in front of the polls' writes (src/bin/main.rs:88).

## Model

| member | source | states |
|---|---|---|
| `Rgb.HalfBrightness` | src/bin/main.rs:27-29 | each result channel is the floor of half of the same input channel; it never exceeds that channel and is at most 127 |
| `Rgb.HalfBrightnessChannelwise` | src/bin/main.rs:27-29 | each halved channel depends on the same input channel only |
| `Rgb.HalfBrightnessFixedOnlyAtBlack` | src/bin/main.rs:27-29 | halving leaves a colour unchanged exactly when all three channels are zero |
| `Rgb.ToRgb8` | src/bin/main.rs:31-37 | fields 0, 1, 2 become `r`, `g`, `b` in that order, values unchanged |
| `Rgb.ToRgb8Injective` | src/bin/main.rs:31-37 | the conversion loses nothing: two records are equal exactly when the colours are |
| `Selector.PickIndex` | src/bin/main.rs:102 | the index is always inside the palette and is the draw minus a whole number of palette lengths |
| `Selector.Pick` | src/bin/main.rs:102-109 | the chosen colour is a palette entry or that entry halved, never anything else |
| `Selector.SelectColor` | src/bin/main.rs:77-109 | the colour chosen on a falling edge is one of the seven palette entries or one of them halved |
| `Selector.PaletteHasNoBlack` | src/bin/main.rs:77-85 | no palette entry, full or halved, is all zero |
| `Selector.HalvedExactlyWhenEven` | src/bin/main.rs:106-109 | the entry is halved if and only if the second draw is even, and emitted unchanged if and only if it is odd |
| `Selector.SelectedColorIsNeverOff` | src/bin/main.rs:77-111 | a selected colour never converts to the all-zero off record |
| `Selector.SingleEntryPalette` | src/bin/main.rs:102-109 | with a one-entry palette every draw picks index 0, and the result is that entry, halved exactly on an even second draw |
| `Selector.HalfWhiteScenario` | src/bin/main.rs:77-108 | any first draw that selects index 0 (a multiple of 7), with an even second draw, gives (6, 12, 6) |
| `Selector.DrawsMappingToClosed` | src/bin/main.rs:102 | among the first n draws, `PickIndex` chooses each index below n mod the palette length once more often than the other indices |
| `Selector.PaletteIndexBias` | src/bin/main.rs:102 | of all 2^32 draws, `PickIndex` chooses each of indices 0-3 for 613566757 values and each of indices 4-6 for 613566756 |
| `Controller.Next` | src/bin/main.rs:97-99 | after one poll the stored level is the level just read, whether or not it changed |
| `Controller.Respond` | src/bin/main.rs:97-132 | an unchanged level writes nothing; a changed level writes exactly once, with the driver's result recorded: a full or halved palette colour (never off) on a fall, off on a rise |
| `Controller.StateIsLatestLevel` | src/bin/main.rs:95-99 | after any polls, the stored level is the level of the latest poll |
| `Controller.WritesAppend` | src/bin/main.rs:94-134 | running polls a then b is running a + b; a longer run's log extends a shorter run's log |
| `Controller.UnchangedPollsWriteNothing` | src/bin/main.rs:95-97 | polls that repeat the stored level add no write and leave the state unchanged |
| `Controller.StateParity` | src/bin/main.rs:97-99 | every write flips the stored level: the state differs from the boot level exactly when an odd number of writes was made |
| `Controller.WritesAlternate` | src/bin/main.rs:97-132 | after boot the writes alternate strictly; write k is a colour exactly when k is even and the pin started high, or k is odd and it started low |
| `Controller.WritesArePaletteOrOff` | src/bin/main.rs:101-128 | every write after boot is the off colour or a palette colour, full or halved |
| `Controller.LastWriteFollowsState` | src/bin/main.rs:97-132 | the latest write is off exactly when the latest detected change was a rise (else a colour, for a fall); with no write, the state is the boot level |
| `Controller.LogShape` | src/bin/main.rs:86-132 | the log opens with the boot off write; write k (k >= 1) is off exactly when k is even and the pin started high, or k is odd and it started low; every write is off or a palette colour |
| `Controller.DriverResultIgnored` | src/bin/main.rs:118-128 | runs that see the same levels and draws end in the same state and write the same colours, whatever the driver reports |
| `Controller.PressAndReleaseScenario` | src/bin/main.rs:94-133 | from high, the levels high, high, low, low, high give exactly two writes: the selected colour, then off |
| `Controller.Run` | src/bin/main.rs:73-134 | the loop's log is the boot off write followed by the specified writes, and its final state is the specified one (the latest level); the log shape and the palette-or-off property hold of the log it returns |

## Left out

- Peripheral bring-up is not modelled: `esp_hal::init`, the CPU clock, `Rmt::new`, the adapter, the GPIO input and their `unwrap` failures (src/bin/main.rs:58-72). This is hardware plumbing before the loop.
- The WS2812B bit encoding, the GRB byte order and the RMT buffer inside the driver's `write` are not modelled. These are foreign library code. A write is a log entry whose success or failure is an input.
- The 500 ms busy-wait after each write (src/bin/main.rs:122-123, 130-131) is not modelled. It is timing and has no effect on the state.
- `println!` output, the panic handler and the boot descriptor (src/bin/main.rs:40-47) are not modelled. They are observational or boot plumbing.
- The hardware random source is replaced by explicit draws. The firmware consumes draws from one stream, two per falling edge. The model gives each poll its own pair, used only if that poll is a falling edge. Any stream can be laid out this way, so no behaviour is lost. `as usize` is lossless, since `usize` has the same 32-bit width as `u32` on this target, so it does not appear.
- The infinite `loop` is modelled by finite prefixes of polls. `Controller.WritesAppend` shows that a longer prefix only extends the log.
