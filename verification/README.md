# Clocked peripherals and drivers of the Ibex demo system

A Dafny model of the timing-sensitive parts of the Ibex demo system, with proofs. The hardware modules are
registers that one clock edge updates; the drivers are methods that race against that hardware; three algorithms
(Internet checksum, number formatting, saturating fixed point) are modelled as the source writes them.
`dafny verify dfyconfig.toml` checks the whole project.

Each RTL module appears twice: as a class whose `ClockEdge` assigns the registers the way the source does, and as a
`Step` function on values. The class is proved to follow the function; the claims are proved about every run of the
function. All parameters (ClocksPerBaud, ToggleCount, CPHA, ClkCount, the phase counts, FIFO depths, PWM width) are
symbolic.

| file | content |
|---|---|
| `integers.dfy`, `wires.dfy` | 32-bit integers; bytes as registers, bounded FIFOs |
| `uart_frames.dfy`, `uart_tx.dfy`, `uart_rx.dfy` | the frame format, the transmitter, the receiver |
| `uart_stream.dfy` | streams from a sender with another bit period |
| `uart_loopback.dfy` | transmitter wired to receiver |
| `uart_device.dfy` | the UART behind its bus, and `uart_in`, `uart_out`, `puts` |
| `spi.dfy`, `spi_device.dfy` | the SPI engine and its observer; the device, `spi_tx`, `spi_wait_idle`, `spi_write` |
| `timer.dfy`, `timer_delay.dfy`, `timer_early.dfy` | split 64-bit accesses; `timer_delay` interleaved with ticks and interrupts; the runs in which it is early |
| `debounce.dfy`, `rst_ctrl.dfy` | the debouncer and the reset sequencer that resets it |
| `pwm.dfy` | the PWM channel, its register decode, `set_pwm` |
| `checksum.dfy`, `icmp.dfy`, `eth_device.dfy` | RFC 1071 sums, the in-place echo reply, 64-bit byte lanes |
| `printf.dfy`, `vsprintf.dfy` | `number`, `skip_atoi`, the directive parser, `ee_vsprintf` |
| `conversions.dfy` | what each conversion prints, stated on the characters of format and output |
| `fractal.dfy` | the saturating Mandelbrot iteration and the image loop |

## What the proofs found

- UART loopback holds for every ClocksPerBaud from 2 on except 3. At 3, with the first byte written in the first cycle
  after reset in which the FIFO takes one, the start edge falls on the free-running receive tick, the baud counter
  restarts at 0 instead of half a bit, and the second of two back-to-back bytes is lost. `LoopbackIff` is the exact
  condition, `ThreeClocksLoseAByte` the run.
- A FIFO takes nothing in the first cycle after a reset (`vendor/lowrisc_ip/ip/prim/rtl/prim_fifo_sync.sv:66-82`). The
  drivers lose no byte to that, because they read the status first.
- The receive tolerance depends on what the baud counter holds after the start edge (its lead): half a bit normally, 0
  when the edge falls on a free-running tick. `Receive` covers both; `ToleranceIsExact` shows the limit to be exactly the
  condition that all ten samples fall inside their slots, and `ToleranceIff` exactly the condition under which every
  single frame with that period is received, whatever follows it.
- For frames back to back the limit is stricter on the side of a fast sender. With bit period P and C = ClocksPerBaud,
  every stream is received byte by byte if and only if 9 (P - C) <= C - 1 - floor(C / 2) and 10 (C - P) < floor(C / 2)
  (`StreamIff`); at equality the next start edge arrives one cycle before the receiver is idle.
- `rtl/system/pwm.sv:34` says the output is high for pulse_width/max_counter of the time. It is high for
  min(pulse_width, max_counter + 1) of max_counter + 1 cycles; the two agree only for a zero width (`CommentedDuty`).
- `rtl/system/debounce.sv:5-8` says an input is stable after ClkCount cycles. It takes ClkCount + 1. The model follows
  the code.
- `timer_delay` adds ms to the intervals counted so far in 32 bits. Interrupts taken before that sum can make it wrap,
  and then the loop is left at once. Arguments up to 2^31 are always safe. Beyond, a call is safe if and only if
  ms * base <= (2^32 - ms) * (max(base, 5) + 2) + 5, where base is the interval in cycles: by the time 2^32 - ms
  interrupts have come, ms intervals are over (`DelayIsExact`; `EarlyRun` builds a failing run from entry for every other
  argument, `TwelveCycles` shows one). At 50 MHz the largest safe argument is 2147526596 (`AtFiftyMegahertz`).
  The failing runs at that boundary need the main program to make no step for 2^32 - ms intervals, about 25 days, between
  enabling interrupts and reading time_elapsed: the model does not limit how long a program can be held up.
- The echo responder reads past its buffers exactly for echo requests for this host whose IP length field is above
  1522, and writes past them exactly when the frame is longer than the buffer as well (`LoadsInBoundsIff`, `StoresInBoundsIff`;
  `OverlongReadsPast` is a packet of 60 octets). Frames longer than the buffer are harmless otherwise.
- `skip_atoi` adds the character code before it subtracts the code of 0, so an intermediate sum leaves the range of an int
  for the 48 largest values that an int holds; the 32-bit result is still right for these, and for exactly the values that
  an int holds (`SkipAtoi`).
- The timer interrupt is a register that stays set until mtimecmp is written
  (`vendor/lowrisc_ibex/shared/rtl/timer.sv:101`). The invariant of `timer_delay.dfy` accounts for interrupts latched
  before the compare register is rewritten.
- Between two low pulses the reset output stays high for at least DebounceCount + 3 cycles while the PLL is locked
  (`HighPulse`): that is what resetting the debouncer in phase 1 is for. It is so in every run if and only if phase 1 has
  at least two counts (`HighPulseIff`); with one, a high period can last a single cycle (`OneCountIsShort`).

## Model

| member | source | states |
|---|---|---|
| Wires.FifoNext | vendor/lowrisc_ip/ip/prim/rtl/prim_fifo_sync.sv:66-141 | a FIFO never holds more than its depth |
| Wires.FifoPush | vendor/lowrisc_ip/ip/prim/rtl/prim_fifo_sync.sv:66-101 | a push is lost when the queue is full, even when an element leaves in the same cycle, and in the first cycle after a reset; otherwise it ends up last |
| Wires.FifoAccount | vendor/lowrisc_ip/ip/prim/rtl/prim_fifo_sync.sv:100-101 | what was taken stays equal to what was given plus what is held |
| UartFrames.InSomeSlot | rtl/system/uart.sv:232-233 | every cycle of a run of bit periods lies in exactly one numbered bit slot |
| UartFrames.FrameOfValue | rtl/system/uart.sv:284-316 | a frame in numbers: a low start bit, the value of the byte least significant bit first, a high stop bit |
| UartTx.Step | rtl/system/uart.sv:227-318 | one transmitter clock edge keeps the FIFO within its depth, the counters in range, and START only with a non-empty FIFO |
| UartTx.Conservation | rtl/system/uart.sv:229-230 | in every run, bytes accepted = bytes popped ++ FIFO contents |
| UartTx.LogStep | rtl/system/uart.sv:227-318 | one more cycle of a logged run is one step of the transmitter, and what is written later changes nothing before |
| UartTx.Hold | rtl/system/uart.sv:265-275 | between baud ticks the state, shifter and pops stand still whatever software writes |
| UartTx.SlotEnd | rtl/system/uart.sv:284-317 | what the tick at the end of a bit does in each state; exactly START pops |
| UartTx.FrameEnd | rtl/system/uart.sv:292-316 | a START state puts one whole frame (0, eight bits LSB first, 1) of the FIFO head on the wire, pops it once, and is back at a bit boundary after ten bits |
| UartTx.Transmit | rtl/system/uart.sv:227-318 | at every cycle of every run the wire so far is exactly idle bits and whole frames, and accepted = bytes framed ++ byte in flight ++ FIFO |
| UartTx.TransmitFrom | rtl/system/uart.sv:277-318 | the same account continued from any bit boundary of a run |
| UartRx.Step | rtl/system/uart.sv:120-225 | one receiver clock edge keeps the bit and baud counters in range |
| UartRx.Pipeline | rtl/system/uart.sv:154-161 | the three synchroniser stages show the pin one, two and three cycles ago |
| UartRx.Coast | rtl/system/uart.sv:123-128 | between ticks only the baud counter moves, unless an idle receiver sees a falling edge |
| UartRx.ToTick | rtl/system/uart.sv:186-225 | what the receiver does with the level three cycles before a tick, in each state |
| UartRx.StayIdle | rtl/system/uart.sv:163-184 | without a falling edge an idle receiver presents nothing, for any stretch of time |
| UartRx.ToleranceIsExact | rtl/system/uart.sv:123-128 | the two-sided limit on the sender's bit period holds if and only if all ten samples fall inside their slots |
| UartRx.SampleSlot | rtl/system/uart.sv:199-223 | after sample j the receiver holds exactly the first j data bits |
| UartRx.Receive | rtl/system/uart.sv:120-225 | a frame within tolerance is presented as exactly its byte, once, at one fixed cycle, and nothing is presented before |
| UartStream.ZeroIsLost | rtl/system/uart.sv:120-225 | outside the limit there is a wire that carries a frame of the zero byte, in phase with the receiver, whose byte is not presented |
| UartStream.ToleranceIff | rtl/system/uart.sv:120-225 | every single frame with a given bit period is received, whatever follows it, if and only if the period is within the two-sided limit |
| UartStream.FollowOne | rtl/system/uart.sv:163-225 | one frame of a stream within the stream limit is presented, and the receiver is idle when the next start edge can reach it |
| UartStream.FollowFrom | rtl/system/uart.sv:120-225 | a stream of any length within the limit is presented byte by byte |
| UartStream.FastIsLost | rtl/system/uart.sv:163-184 | a sender at or past the fast limit never gets two back-to-back bytes through |
| UartStream.SlowIsLost | rtl/system/uart.sv:218-223 | a sender past the slow limit never gets the zero byte through |
| UartStream.StreamIff | rtl/system/uart.sv:120-225 | every back-to-back stream with a given bit period is received byte by byte if and only if the period is within the stream limit |
| UartLoopback.Gap | rtl/system/uart.sv:285-291 | an idle bit keeps transmitter and receiver in step |
| UartLoopback.FrameStep | rtl/system/uart.sv:163-225 | a frame, back to back or not, keeps them in step, the baud phases included |
| UartLoopback.Loopback | rtl/system/uart.sv:120-318 | from a common reset, for any clock ratio from 2 on except 3, at every cycle the bytes presented are a prefix of the bytes popped, at most one behind, and none behind after two idle cycles |
| UartLoopback.ThreeClocksLoseAByte | rtl/system/uart.sv:124-128 | at ClocksPerBaud 3 a concrete run of two bytes presents only the first |
| UartLoopback.LoopbackIff | rtl/system/uart.sv:120-318 | all runs loop back if and only if ClocksPerBaud is not 3 |
| UartDevice.WorkShrinks | rtl/system/uart.sv:229-233 | every cycle without a write strictly lowers a bound on the cycles until the FIFO is empty |
| UartDevice.Uart.ClockEdge | rtl/system/uart.sv:79-318 | one clock edge of all registers follows both machines, accounts for every byte in and out of both FIFOs and answers the bus |
| UartDevice.Uart.OnTheWire | rtl/system/uart.sv:227-318 | at any time everything the transmit FIFO of the device has taken is on its wire in whole frames, in flight, or in the FIFO |
| UartDevice.Uart.LoopedBack | rtl/system/uart.sv:79-318 | on the device wired to itself, while the receive FIFO has lost nothing, the bytes received are the bytes sent, in order, one behind at most, none behind once the transmitter has been idle for two cycles |
| UartDevice.Uart.NoOverflow | rtl/system/uart.sv:120-150 | wired to itself and with no more bytes outstanding than the receive FIFO holds, the device loses nothing |
| UartDevice.Port.ReadStatus | sw/c/common/uart.c:18 | what a status read says about the FIFOs before and after, with any number of cycles in between |
| UartDevice.Port.UartOut | sw/c/common/uart.c:25-30 | the sole writer loses no byte, adds exactly one, and its wait ends, for any bus timing, any input line and from the first cycle after reset on |
| UartDevice.Port.Puts | sw/c/common/demo_system.c:10-32 | all bytes ever written, the text with its line ends expanded last, are the bytes framed on the wire ++ the byte in flight ++ the FIFO |
| UartDevice.PrintedIs | sw/c/common/demo_system.c:10-15 | character 13 goes before every character 10, and nothing before any other |
| UartDevice.Port.UartIn | sw/c/common/uart.c:15-23 | EOF only if nothing had arrived, otherwise exactly the oldest byte leaves the FIFO and is returned; wired to the output, and with no more bytes outstanding than the FIFO holds, it is the next of the bytes uart_out has written |
| SpiHost.Step | rtl/system/spi_host.sv:49-159 | one clock edge keeps the FIFO within 127 bytes and the counters in range |
| SpiHost.HalfPeriod | rtl/system/spi_host.sv:46-65 | in SEND the serial clock toggles after exactly ToggleCount cycles |
| SpiHost.InvStep | rtl/system/spi_host.sv:49-159 | the whole invariant (FIFO account, shift register, receive registers, wire history, edge counts) survives any clock edge with any write and any input level |
| SpiHost.InvPop | rtl/system/spi_top.sv:49-59 | the edge-detected pop removes the byte just sent, once, however long STOP lasts |
| SpiHost.InvSample | rtl/system/spi_host.sv:130-151 | a data edge in SEND puts exactly the next bit on a sampling edge of sck_o and shifts in one input bit |
| SpiHost.InvState | rtl/system/spi_host.sv:85-112 | a state edge keeps the invariant in every state |
| SpiHost.Reachable | rtl/system/spi_host.sv:49-159 | every reachable state of every run satisfies the invariant |
| SpiHost.ExactlyOnce | rtl/system/spi_host.sv:49-159 | in every run, stalls and restarts included, the bits at the sampling edges are a prefix of the accepted bytes MSB first, one pulse per bit, whole bytes outside SEND |
| SpiHost.EmptyMeansOnTheWire | rtl/system/spi_top.sv:64-79 | when the FIFO is empty every byte ever accepted has been clocked out whole, with exactly eight pulses per byte, and the clock rests |
| SpiHost.HeardByte | rtl/system/spi_host.sv:106-111 | in STOP the byte output is the last eight input levels at the sampling edges |
| SpiHost.TiedHears | rtl/system/spi_host.sv:130-151 | with input tied to output the levels heard are the levels sent, in every run |
| SpiHost.RoundTrip | rtl/system/spi_host.sv:77-159 | with input tied to output, byte_data_o in STOP is the byte just sent, for both phases and any power-up contents |
| SpiDevice.WorkShrinks | rtl/system/spi_host.sv:49-65 | every cycle without a write strictly lowers a bound on the cycles until the FIFO is empty |
| SpiDevice.SpiTop.Advance | rtl/system/spi_host.sv:115-159 | all registers at a clock edge follow the engine, for both phases |
| SpiDevice.SpiTop.ClockEdge | rtl/system/spi_top.sv:49-101 | one clock edge keeps the invariant with the observer's history and registers the status read |
| SpiDevice.Port.GetStatus | sw/c/common/spi.c:22 | the status returned is that of the FIFO in the cycle after the request |
| SpiDevice.Port.SendByteBlocking | sw/c/common/spi.c:16-20 | the byte is always accepted and the wait ends |
| SpiDevice.Port.WaitIdle | sw/c/common/spi.c:24-26 | on return every byte ever accepted is on the wire; the wait ends |
| SpiDevice.Port.SpiTx | sw/c/common/spi.c:28-33 | every byte of the buffer is accepted, in order, nothing else |
| SpiDevice.Port.SpiWrite | sw/c/demo/lcd_st7735/main.c:249-253 | on return the wire carries all earlier bytes and then exactly the buffer, none in flight |
| TimerWords.NotTorn | sw/c/common/timer.c:38-42 | equal high words around the low read make the joined value the counter at the low read |
| TimerWords.NeverBelow | sw/c/common/timer.c:13-17 | the compare register goes from old to new without ever being below the smaller of the two |
| TimerWords.OneCarry | sw/c/common/timer.c:37-41 | within 2^32 ticks a failed comparison is followed by a successful one |
| TimerWords.Port.TimerRead | sw/c/common/timer.c:34-44 | for any counter that does not go back or wrap, the value returned is the counter at the low-word read of the last round; the loop ends, within two rounds if the call spans at most 2^32 ticks |
| TimerWords.CountDown.Start | sw/rust/ibex-demo-system-hal/src/timer.rs:114-123 | the timeout is the counter at one instant plus whole clock periods, wrapping; fails on a zero period |
| TimerWords.CountDown.Wait | sw/rust/ibex-demo-system-hal/src/timer.rs:125-134 | panics exactly when not started, otherwise ready exactly when the counter read has reached the timeout |
| TimerWords.CountDown.StartThenWait | sw/rust/ibex-demo-system-hal/src/timer.rs:112-135 | without wrap, ready if and only if the whole periods have elapsed between the two reads |
| TimerDelay.ReadStep | sw/c/common/timer.c:34-44 | each bus access of timer_read keeps what is known of the words read, with ticks in between |
| TimerDelay.WriteStep | sw/c/common/timer.c:13-17 | each write of timecmp_update keeps the compare register on its way to the target, whatever its old value |
| TimerDelay.InvTick | vendor/lowrisc_ibex/shared/rtl/timer.sv:77-109 | a clock cycle keeps the invariant, the latched interrupt included |
| TimerDelay.InvInterrupt | sw/c/common/timer.c:25-30 | an interrupt is taken only when the next interval is over |
| TimerDelay.InvHandler | sw/c/common/timer.c:27-30 | every step of the handler keeps the invariant |
| TimerDelay.InvMain | sw/c/common/timer.c:48-57 | every step of timer_enable, the polling loop and timer_disable keeps the invariant |
| TimerDelay.InvStep | sw/c/common/timer.c:13-57 | every action of the interleaving keeps the invariant |
| TimerDelay.Reachable | sw/c/demo/lcd_st7735/main.c:261-269 | the invariant holds after every sequence of ticks, program steps, interrupts and handler steps |
| TimerDelay.HalfRangeIsSafe | sw/c/demo/lcd_st7735/main.c:261-269 | every argument up to 2^31 is safe, whatever the interval |
| TimerDelay.NeverEarly | sw/c/demo/lcd_st7735/main.c:261-269 | time_elapsed * time_base never exceeds the time since timer_enable read the counter; for a safe argument the loop is left only after ms intervals, in every run |
| TimerDelay.LeftOnTime | sw/c/demo/lcd_st7735/main.c:264-267 | at every poll of every run whose timeout did not wrap, the next step of the program leaves the loop if and only if ms intervals have been counted since the timeout was computed |
| TimerEarly.StageStep | sw/c/common/timer.c:13-23 | the six bus accesses of an undisturbed increment_timecmp, one by one |
| TimerEarly.LapRuns | sw/c/common/timer.c:27-30 | one interval can be counted in exactly max(base, 5) + 2 cycles |
| TimerEarly.ClearStart | sw/c/common/timer.c:38-41 | for fewer than 2^31 reads a period apart there is a start from which none sees the high word change |
| TimerEarly.EarlyRun | sw/c/demo/lcd_st7735/main.c:261-269 | every argument that is not safe has a run from entry, without a wrap of the 64-bit sums, in which the loop is left early |
| TimerEarly.DelayIsExact | sw/c/demo/lcd_st7735/main.c:261-269 | no run from entry is early if and only if the arguments satisfy the safety inequality |
| TimerEarly.TwelveCycles | sw/c/demo/lcd_st7735/main.c:264-265 | a concrete run from entry that is left twelve cycles after the start with the largest argument |
| TimerEarly.AtFiftyMegahertz | sw/c/common/demo_system.h:29 | with a millisecond at 50 MHz the delays that are never early are exactly those up to 2147526596 |
| TimerEarly.OnTimeRun | sw/c/demo/lcd_st7735/main.c:261-269 | the delay is tight: some run from entry counts exactly ms intervals and is left, ms periods and five cycles after the start |
| Debounce.Refines | rtl/system/debounce.sv:27-40 | in every run the output is that of the counter-free history specification: it flips exactly when the last ClkCount + 1 inputs since the last flip or reset all differ; the counter never exceeds ClkCount |
| Debounce.FlipsAreApart | rtl/system/debounce.sv:37-40 | two flips, or a reset and a flip, are at least ClkCount + 1 cycles apart |
| Debounce.Debouncer.ClockEdge | rtl/system/debounce.sv:27-40 | the registers follow the specification, reset included |
| RstCtrl.LowPulse | rtl/fpga/rst_ctrl.sv:60-111 | every low pulse that ends with the PLL locked lasts at least ResetPhase1Count - ResetPhase0Count cycles under any button behaviour |
| RstCtrl.CountedBetween | rtl/fpga/rst_ctrl.sv:65-82 | between a count at or before phase 1 and a finished count lies one uninterrupted count through phase 1 |
| RstCtrl.CountedIsPulse | rtl/fpga/rst_ctrl.sv:100-102 | such a count is one full-length low pulse followed by a release |
| RstCtrl.Settles | rtl/system/debounce.sv:37-40 | with the button released, any power-up contents of the debouncer are gone after DebounceCount + 1 cycles |
| RstCtrl.RunsOut | rtl/fpga/rst_ctrl.sv:72-76 | then the counter runs to its end within a fixed bound and stays |
| RstCtrl.PowerOnReset | rtl/fpga/rst_ctrl.sv:54-111 | from any power-up contents, with the button released, one full pulse and then a lasting release within ResetPhase1Count + DebounceCount + 2 cycles |
| RstCtrl.PllLoss | rtl/fpga/rst_ctrl.sv:77-81 | a loss of lock takes the counter back to the start of phase 1 or before |
| RstCtrl.NoReleaseWithoutPulse | rtl/fpga/rst_ctrl.sv:77-81 | after a loss of lock, however lock and button behave, no finished count without a full pulse counted entirely with the PLL locked |
| RstCtrl.RelockResets | rtl/fpga/rst_ctrl.sv:72-81 | after a loss of lock, once relocked with the button released, a full new pulse and then a lasting release within the bound |
| RstCtrl.ClearHolds | rtl/fpga/rst_ctrl.sv:104-110 | after the sequencer clears the debouncer its output stays low for DebounceCount + 1 cycles |
| RstCtrl.HighPulse | rtl/fpga/rst_ctrl.sv:104-110 | with two counts in phase 1 and the PLL locked, high periods between two pulses last at least DebounceCount + 3 cycles |
| RstCtrl.OneCountIsShort | rtl/fpga/rst_ctrl.sv:104-110 | with one count in phase 1 there is a run, with the PLL locked, whose high period between two pulses lasts one cycle |
| RstCtrl.HighPulseIff | rtl/fpga/rst_ctrl.sv:54-111 | every locked high period between two pulses lasts DebounceCount + 3 cycles in every run if and only if phase 1 has two counts |
| RstCtrl.HeldButton | rtl/fpga/rst_ctrl.sv:65-69 | once the debounced button is high at the beginning of phase 1 or in phase 2, with the debouncer out of reset, the counter stands at the beginning of phase 1 and the reset is asserted for as long as the button is held, whatever the PLL does |
| RstCtrl.PressResets | rtl/fpga/rst_ctrl.sv:60-102 | every press longer than DebounceCount cycles in a running, locked system asserts the reset within DebounceCount + 3 cycles and holds it until the button is released |
| RstCtrl.PhaseZero | rtl/fpga/rst_ctrl.sv:60-96 | from a count of zero the reset is released for the next ResetPhase0Count cycles, whatever button and lock do |
| RstCtrl.RstController.ClockEdge | rtl/fpga/rst_ctrl.sv:54-111 | the registers, and the debouncer they reset, follow the specification |
| Pwm.ExactDuty | rtl/system/pwm.sv:19-41 | any window of max + 1 cycles starting with the counter in range is high for exactly min(width, max + 1) of them and returns the counter to where it was |
| Pwm.DutySettles | rtl/system/pwm.sv:28-39 | after one cycle every window is exact, from any left-over counter value |
| Pwm.ZeroIsOff | rtl/system/pwm.sv:23-26 | a zero maximum switches the output off from the next cycle on, whatever the width |
| Pwm.CommentedDuty | rtl/system/pwm.sv:34 | the ratio in the comment equals the real duty if and only if the width is zero |
| Pwm.PwmChannel.ClockEdge | rtl/system/pwm.sv:19-41 | the registers follow the specification |
| PwmWrapper.Decode | rtl/system/pwm_wrapper.sv:43-52 | an address selects a register of a channel if and only if it is that channel's and that register's address |
| PwmWrapper.Wrapper.ClockEdge | rtl/system/pwm_wrapper.sv:33-88 | every channel's registers and counter at a clock edge, with at most one request, and the response valid after any request |
| PwmWrapper.Wrapper.SetPwm | sw/c/common/pwm.c:9-12 | exactly channel i gets both truncated values and no other channel's registers change, for any bus timing |
| PwmWrapper.DutyAfterSet | rtl/system/pwm_wrapper.sv:67-75 | while nobody writes, the channel's duty is exact from the second cycle on, and always on exactly when width > max |
| Checksum.CsumAdd | sw/c/demo/eth_test/main.c:77-81 | adds all big-endian words, a last odd octet padded with zero, modulo 2^32 |
| Checksum.OddPadding | sw/c/demo/eth_test/main.c:79 | an odd message has the sum of the message with a zero octet appended |
| Checksum.NoOverflow | sw/c/demo/eth_test/main.c:77-81 | the 32-bit sum of at most 1536 octets does not wrap |
| Checksum.FoldKeeps | sw/c/demo/eth_test/main.c:83 | one fold strictly lowers the sum and keeps its one's-complement value |
| Checksum.CsumFin | sw/c/demo/eth_test/main.c:82-85 | the fold ends, with the complement of the sum modulo 65535 (zero only for zero) |
| Checksum.CheckVerifies | sw/c/demo/eth_test/main.c:98-101 | a message of any length that carries its own checksum checks to zero |
| Checksum.CheckIsUnique | sw/c/demo/eth_test/main.c:98-101 | a stored word that makes the message check to zero is the checksum, up to the two forms of zero |
| EthDevice.EthDev.ClockEdge | rtl/system/eth_dev.sv:55-110 | one clock edge writes exactly the enabled bytes of one 64-bit word and registers the response phase |
| EthDevice.Placement | rtl/system/eth_dev.sv:64-68 | four consecutive byte addresses are exactly the byte lanes selected by address bit 2 |
| EthDevice.EthDev.Write | rtl/system/eth_dev.sv:64-108 | a 32-bit write sets exactly its four byte addresses |
| EthDevice.EthDev.Read | rtl/system/eth_dev.sv:80-99 | a 32-bit read returns its four byte addresses and changes none |
| EthDevice.OctetWeights | rtl/system/eth_dev.sv:64-68 | the four octets of a data word are its digits in base 256, least significant first |
| EthDevice.EthDev.WriteBytes | rtl/system/eth_dev.sv:64-108 | with any byte enables, a write sets exactly the enabled ones of its four byte addresses |
| EthDevice.EthDev.ReadLink | rtl/system/eth_dev.sv:80-99 | a read of the first word returns the 16 bits of the link status, changes no memory and asks the MAC nothing |
| EthDevice.EthDev.ReadRegister | rtl/system/eth_dev.sv:80-99 | a register read returns the selected half of the MAC's next answer and changes no memory |
| EthDevice.WaitIdle | sw/c/demo/eth_test/main.c:31-35 | the poll ends at the first answer that is not busy |
| EthDevice.EthSend | sw/c/demo/eth_test/main.c:33-48 | after the first answer that is not busy, octet i of the transmit buffer is data[i] for every i, nothing beyond the rounded-up length moves, the length register gets len |
| EthDevice.OneBufferIsInside | sw/c/demo/eth_test/main.c:60-62 | at most 2048 octets of any receive buffer lie inside the address window |
| EthDevice.EthRecv | sw/c/demo/eth_test/main.c:53-71 | with the ring status and the length as the MAC answers them, exactly the first min(len, maxlen) octets of the current buffer are copied, for every remainder modulo 4, nothing past them, and the buffer is acknowledged |
| Icmp.LoadsInBoundsIff | sw/c/demo/eth_test/main.c:87-102 | every index read lies inside the buffers if and only if the packet is not an echo request for this host or its length field is at most 1522 |
| Icmp.StoresInBoundsIff | sw/c/demo/eth_test/main.c:95-101 | every index written lies inside the buffer if and only if the packet is safe to read or the frame is at most 1536 octets long |
| Icmp.OverlongReadsPast | sw/c/demo/eth_test/main.c:100 | a packet of 60 octets for which index 1549 is read |
| Icmp.Responder.HandleIcmp | sw/c/demo/eth_test/main.c:87-104 | for every packet that is safe to read, at any frame length: with a protocol other than 1, a destination other than 192.168.1.42 or a type other than 8 nothing is sent, stored or changed; otherwise the reply is built in place and its datagram, cut to the frame and padded to 60 octets, is in the transmit buffer with its length |
| Icmp.Responder.CopyAndAddress | sw/c/demo/eth_test/main.c:93-97 | the three copying loops give the copy with both address pairs exchanged |
| Icmp.Responder.BuildReply | sw/c/demo/eth_test/main.c:92-101 | the buffer ends as the reply value |
| Icmp.ReplyMessage | sw/c/demo/eth_test/main.c:98-101 | the reply's ICMP message is the request's with type and checksum field cleared and its own checksum stored |
| Icmp.ReplyVerifies | sw/c/demo/eth_test/main.c:87-104 | for every well-formed echo request, even or odd, the reply's ICMP message checks to zero and the sum does not wrap |
| Icmp.ReplyOctet | sw/c/demo/eth_test/main.c:95-101 | octet by octet: addresses exchanged, type 0, everything else of the datagram as in the request |
| Icmp.HeaderSurvives | sw/c/demo/eth_test/main.c:95-97 | for every header length the IPv4 header's sum survives the exchange of its addresses |
| Printf.DigitsHaveValue | sw/c/demo/lcd_st7735/coremark/ee_printf.c:84-93 | the digits evaluate in their base to the number |
| Printf.BodyReads | sw/c/demo/lcd_st7735/coremark/ee_printf.c:82-113 | the characters printed, leading zeros included, read back as the magnitude, for every base, case and precision, the most negative long included |
| Printf.LengthIsExact | sw/c/demo/lcd_st7735/coremark/ee_printf.c:54-114 | the text has exactly max(size, sign + prefix + max(digits, precision)) characters |
| Printf.FormatIs | sw/c/demo/lcd_st7735/coremark/ee_printf.c:42-117 | for every number, base, size, precision and flags the text is spaces, sign, prefix, zeros, digits of the base and case that read as the magnitude, and spaces, each of them as the flags say |
| Printf.Convert | sw/c/demo/lcd_st7735/coremark/ee_printf.c:82-93 | the division loop leaves the digits backwards in tmp and never overruns it |
| Printf.SignAndSize | sw/c/demo/lcd_st7735/coremark/ee_printf.c:52-80 | sign, magnitude and remaining width in all flag combinations |
| Printf.Head | sw/c/demo/lcd_st7735/coremark/ee_printf.c:97-111 | padding, sign, prefix and zero padding through the moving pointer |
| Printf.Tail | sw/c/demo/lcd_st7735/coremark/ee_printf.c:112-114 | precision zeros, digits and trailing spaces through the moving pointer |
| Printf.Backwards | sw/c/demo/lcd_st7735/coremark/ee_printf.c:113 | the digits come out most significant first |
| Printf.Number | sw/c/demo/lcd_st7735/coremark/ee_printf.c:42-117 | where no value of its int size overflows, writes exactly the specified text at the pointer, nothing else in the buffer, returns the end; NULL exactly for a bad base |
| Vsprintf.SkipAtoi | sw/c/demo/lcd_st7735/coremark/ee_printf.c:35-40 | passes the whole run of digits; the result is their value in 32-bit arithmetic, the value itself exactly when an int holds it, with no intermediate overflow exactly when the value stays 48 below the largest int |
| Vsprintf.AtoiInvertsNumber | sw/c/demo/lcd_st7735/coremark/ee_printf.c:35-117 | skip_atoi on what number prints for a non-negative int returns that int, whatever follows |
| Vsprintf.ParseDirective | sw/c/demo/lcd_st7735/coremark/ee_printf.c:410-459 | the parser as the source runs it computes the parse of the directive |
| Vsprintf.LiteralRoundTrip | sw/c/demo/lcd_st7735/coremark/ee_printf.c:423-451 | a literal width or precision is read as its value in 32 bits, back as itself exactly when an int holds it |
| Vsprintf.ParseInvertsShow | sw/c/demo/lcd_st7735/coremark/ee_printf.c:410-458 | every combination of flags, width, precision and qualifier with literals that an int holds, printed as a directive, is read back exactly, and the parser stops at the conversion character |
| Vsprintf.RenderInvertsText | sw/c/demo/lcd_st7735/coremark/ee_printf.c:402-544 | for every sequence of literal characters and directives and all arguments, interpreting the text of the format prints the items one by one, arguments handed on in order |
| Vsprintf.DirectivePrints | sw/c/demo/lcd_st7735/coremark/ee_printf.c:402-543 | every integer directive, printed and interpreted, prints its argument as number does with exactly those flags, width and precision, where the ints of number do not overflow |
| Vsprintf.PlainText | sw/c/demo/lcd_st7735/coremark/ee_printf.c:402-408 | a format without percent signs is its own text |
| Vsprintf.Justified | sw/c/demo/lcd_st7735/coremark/ee_printf.c:466-479 | a field is max(width, length) long, holds the text at its left or right end, and spaces everywhere else |
| Vsprintf.PutJustified | sw/c/demo/lcd_st7735/coremark/ee_printf.c:466-479 | one width counted down through both paddings, in the range of an int, gives the justified field |
| Vsprintf.Eaddr | sw/c/demo/lcd_st7735/coremark/ee_printf.c:119-139 | six pairs of hexadecimal digits joined by colons, in 17 characters |
| Vsprintf.Iaddr | sw/c/demo/lcd_st7735/coremark/ee_printf.c:141-178 | four octets in plain decimal joined by points, in at most 15 characters |
| Vsprintf.Direct | sw/c/demo/lcd_st7735/coremark/ee_printf.c:423-451 | the stars take their arguments first, a negative width left-justifies, a negative precision is zero, a width whose negation overflows is outside |
| Vsprintf.Sprintf | sw/c/demo/lcd_st7735/coremark/ee_printf.c:388-548 | for every format and arguments of the right kinds writes exactly the rendered text and a closing zero, nothing else in the buffer, and returns the length |
| Conversions.IntegerConversion | sw/c/demo/lcd_st7735/coremark/ee_printf.c:410-543 | every d, i, u, o, x and X directive with any flags, width and precision: base 10, 8 or 16, sign, prefix, case, precision and padding as its characters say, and the digits read as the argument, or as its remainder modulo 2^32 |
| Conversions.PlainConversion | sw/c/demo/lcd_st7735/coremark/ee_printf.c:501-543 | without flags, width and precision: x and X print in base 16, o in base 8, u in base 10, d and i a minus sign exactly for a negative argument and its magnitude, without leading zeros |
| Conversions.StringConversion | sw/c/demo/lcd_st7735/coremark/ee_printf.c:471-479 | a string up to its zero, cut to the precision, at the left or right end of its field; a null pointer prints as <NULL> |
| Conversions.CStringIs | sw/c/demo/lcd_st7735/coremark/ee_printf.c:473 | the characters of a string stop at its first zero and not before |
| Conversions.CharacterConversion | sw/c/demo/lcd_st7735/coremark/ee_printf.c:466-469 | one character, the argument modulo 256, in its field |
| Conversions.OtherCharacters | sw/c/demo/lcd_st7735/coremark/ee_printf.c:527-533 | two percent signs print one; any other character stands for itself after its percent sign; a percent sign at the end for itself |
| Conversions.StarsAreWrittenOut | sw/c/demo/lcd_st7735/coremark/ee_printf.c:423-451 | a width and precision from the arguments print what the literals would: a negative width as a minus sign and its magnitude, a negative precision as zero |
| Conversions.QualifierIsIgnored | sw/c/demo/lcd_st7735/coremark/ee_printf.c:454-459 | a qualifier l or L changes nothing but the conversion of an address |
| Conversions.PointerConversion | sw/c/demo/lcd_st7735/coremark/ee_printf.c:481-488 | a pointer without a width is eight lower-case hexadecimal digits with its value |
| Conversions.PointerField | sw/c/demo/lcd_st7735/coremark/ee_printf.c:481-488 | a pointer with a width prints as an x conversion does |
| Conversions.DoubleConversion | sw/c/demo/lcd_st7735/coremark/ee_printf.c:521-523 | a floating-point conversion prints what flt makes of its double |
| Conversions.InternetAddress | sw/c/demo/lcd_st7735/coremark/ee_printf.c:141-178 | four plain decimals with points in between, in their field |
| Conversions.EthernetAddress | sw/c/demo/lcd_st7735/coremark/ee_printf.c:119-139 | with a qualifier l, six pairs with colons in between, in their field |
| Conversions.PairReads | sw/c/demo/lcd_st7735/coremark/ee_printf.c:131-132 | a pair is two hexadecimal digits with the value of the octet, upper-case for A |
| Fractal.StepIsExact | sw/c/demo/lcd_st7735/fractal_fixed.c:40-62 | from inside the escape radius one saturating step equals the step over unbounded integers |
| Fractal.StepFits | sw/c/demo/lcd_st7735/fractal_fixed.c:40-62 | no 32-bit operation of that step overflows |
| Fractal.TestIsExact | sw/c/demo/lcd_st7735/fractal_fixed.c:44-70 | the saturated escape test decides as the true one, without overflow |
| Fractal.OrbitInside | sw/c/demo/lcd_st7735/fractal_fixed.c:68-73 | an orbit that has not escaped is inside the escape radius |
| Fractal.IterationIsExact | sw/c/demo/lcd_st7735/fractal_fixed.c:64-76 | in every iteration the loop reaches, the values are those of the unbounded recurrence and nothing overflows |
| Fractal.OrbitLaw | sw/c/demo/lcd_st7735/fractal_fixed.c:46-62 | complex squaring: each point of the orbit is within one unit of 1/4096 in the real part, and two in the imaginary part, of the square of its predecessor plus c |
| Fractal.EscapeLaw | sw/c/demo/lcd_st7735/fractal_fixed.c:44-72 | the escape test against the true squared modulus, within one unit at the one side and two at the other |
| Fractal.MandelIters | sw/c/demo/lcd_st7735/fractal_fixed.c:64-76 | the result is the only number that is the least escaping index of the unbounded recurrence, or max_iters |
| Fractal.Render | sw/c/demo/lcd_st7735/fractal_fixed.c:86-103 | every pixel of the 160 by 128 image gets the palette entry of its own point, the index always within the 51 entries |
| Fractal.PaintedIs | sw/c/demo/lcd_st7735/fractal_fixed.c:86-103 | what a painted pixel is in numbers: its point is (x/64 - 7/4, 1 - y/64), its colour the entry of the least escaping index below 50, or entry 50 |

## Left out

- The processor core, the bus fabric, the RAM, the debug module, clock generators, FPGA tops and build flows: wiring and
  external tools.
- The pointers and storage of `prim_fifo_sync`: a FIFO is a bounded queue with its flag for the first cycle after reset.
- The widths of baud, toggle and bit counters: the counters are proved to stay in the range the source sizes them for.
- Metastability: a synchroniser is a chain of registers.
- SPI with CPOL = 1 and ToggleCount = 1: not instantiated.
- Reading back the SPI receive byte over the bus: the source does not connect it.
- NeverEarly: assumes that time plus one interval stays below 2^64, and treats reading time_elapsed, which takes two
  32-bit loads, as one step; time_elapsed itself does not wrap.
- DelayIsExact: the interval is below 2^31, as SYSCLK_FREQ / 1000 is an int, and instructions other than timer accesses
  may take no time, so the bound is that of the fastest conceivable processor.
- OnTimeRun: gives its run for delays below 2^31 - 1; for longer ones no start from which every read is undisturbed is given.
- TimerRead: the counter is any non-decreasing function of the access number that stays below 2^64.
- `wfi` and the end of the wait in `timer_delay`: that the interrupt eventually comes is not stated of every run.
- Writing the counter (`set_counter`, `new`), `cancel` and `get_cmp` of the Rust timer: `get_cmp` is the read loop of
  `get_counter`; `set_counter` is the write order of `set_cmp` on a moving counter.
- StartThenWait: counts whole clock periods, as the source divides before it adds.
- LowPulse: a pulse cut short by a loss of lock in its last counted cycle is not bounded.
- HandleIcmp: says nothing about what follows an access outside the buffers.
- EthSend: the answers of the MAC are an arbitrary sequence in which some answer is not busy; a length written to TPLR is
  seen in the memory at its address.
- EthRecv: says nothing about reads past the address window of the device.
- ARP replies, `eth_init`, LEDs, the console output and the main loop of the Ethernet demo; the MAC behind
  `framing_top_sgmii` and the clock crossing of its status word, whose value is a parameter.
- Number: says nothing about a call in which the int `size` leaves its range, which the language leaves undefined; the
  negation of the most negative long, undefined as well, is taken to wrap to itself.
- Sprintf: says nothing about missing arguments or arguments of the wrong kind, or where an int overflows; the buffer is
  required to hold the text; the text that `flt` makes of a double is a parameter, because `ecvtbuf` and `fcvtbuf` are not
  part of this model.
- The LCD transfers of the fractal demo: the image is the sequence of colours handed to the display.
- GPIO, the Rust pin types, vector-table patching, `fbcon`, menus and the floating-point fractal: finite or
  single-expression code.
