# Tap-capture state machine of the `org.zay.KeyPressed1` service

The program shows an invisible window and records key taps. It offers two
D-Bus methods. `init_action(dur, keys_len)` arms a capture window of `dur`
milliseconds that expects `keys_len` taps. `get_key_seq()` is polled until the
window yields an answer. The UI's key callback appends the characters of each
key event to the shared `Action` record while the window is armed and not
expired.

`get_key_seq` answers in one of three ways:

- `""` when nothing is available yet;
- `"#escape"` when the capture was cancelled, because two different keys were
  tapped or ESC (code 27) was tapped;
- the captured characters, which are one key tapped between 1 and `keys_len` times.

The project has three modules:

- `Capture` (`capture.dfy`): the record as a value (`ActionState`) and the
  effect of each handler on it. `Arm` is `init_action`, `Press` is one key
  event and `Drain` is `get_key_seq`. `PressAll` is a run of key events.
- `KeyPressed` (`key_pressed.dfy`): the record as a class, `Action`, whose
  fields the three handlers update in place. `GetKeySeq` keeps the source's two
  `for` loops: the same-key scan that aborts at the first mismatch, and the
  ESC scan. Each method is proved to have exactly the effect of its
  counterpart in `Capture`, and to keep the record `Consistent`.
- `CaptureProperties` (`capture_properties.dfy`): lemmas over several calls.
  They cover re-arming, dropped key presses, silence after an answer, an
  expired window that stays armed, and the tap patterns (exact count, early
  finish after a 400 ms pause, mixed keys, ESC).

Time is the monotonic clock in whole milliseconds, passed to every handler as
`now`. `Elapsed(since, now)` saturates at zero when `now < since`, as Rust's
`Instant` subtraction does, so no handler needs `now` to be later than the
stored times. Expiry (`elapsed > interval`) and the inactivity test
(`elapsed < 400`) are strict, as in the code.

Preserved quirks of the code:

- A timed-out window is not cleared. It stays armed and every poll answers
  `""` until the next `init_action`. Mixed keys in such a window still answer
  `"#escape"`, because the same-key scan runs before the timeout test.
- Finalization does not reset `last_key_time`.
- A window that received more taps than `keys_len` never completes.

Two more points of the code that the model follows:

- A rejected `init_action` only logs. The caller gets no error.
- The fresh record has `keys_len = 0` and `interval = 0`. These are outside the
  validated ranges, so the ranges only hold while a window is armed (`Consistent`).

## Model

| member | source | states |
|---|---|---|
| `KeyPressed.Action.constructor` | src/main.rs:103-111 | `Action::new`: empty keys, `keys_len` 0, nothing armed, no last tap, zero interval; the record is consistent |
| `KeyPressed.Action.InitAction` | src/main.rs:68-91 | the new record is `Arm` of the old one; consistency is kept |
| `KeyPressed.Action.OnKeyPress` | src/main.rs:125-142 | the new record is `Press` of the old one; consistency is kept |
| `KeyPressed.Action.GetKeySeq` | src/main.rs:18-66 | the reply and the new record are those of `Drain` on the old record; consistency is kept |
| `Capture.Elapsed` | src/main.rs:35 | `elapsed()` read at `now`: the time since the stamp, or zero when `now` is earlier (Rust's saturating `Instant` subtraction) |
| `Capture.Arm` | src/main.rs:68-91 | a duration outside 500..10000 or a count outside 1..255 leaves every field unchanged; otherwise the record becomes an empty window with that count, `begin = now`, no last tap and that duration |
| `Capture.Press` | src/main.rs:128-135 | a key press never changes `begin`, `keys_len` or `interval`; with no window or an expired one it changes nothing; otherwise it appends the key's characters in order and stamps `last_key_time` with `now` |
| `Capture.Incomplete` | src/main.rs:35-44 | an expired window is never finalized; a window that may be finalized holds 1 to `keys_len` keys and a last-tap time, and when it is short of taps the last tap is at least 400 ms old |
| `Capture.Drain` | src/main.rs:22-58 | the reply is `""` exactly when the record is left unchanged; any other reply clears `begin` and `keys`; with no window the reply is `""`; two different characters anywhere give `"#escape"`; every reply is `""`, `"#escape"`, or the captured buffer, which then is one repeated non-ESC character of length 1 to `keys_len` |
| `Capture.PressAll` | src/main.rs:128-135 | a run of key presses never changes `begin`, `keys_len` or `interval`, and the old buffer is a prefix of the new one |
| `CaptureProperties.ConsistentIsInvariant` | src/main.rs:95-111 | the fresh record is consistent and all three handlers keep it so: no keys without an armed window, no keys without a last-tap time, and an armed window has a validated duration and count |
| `CaptureProperties.ArmReplacesAnyWindow` | src/main.rs:80-84 | an accepted request gives the same record whatever was there before, discarding any earlier window, even an unfinished one |
| `CaptureProperties.ArmThenDrainIsIncomplete` | src/main.rs:35-46 | polling a freshly armed window answers `""` and changes nothing, at any time |
| `CaptureProperties.IdleIgnoresKeys` | src/main.rs:128 | with no window armed, any run of key presses changes nothing |
| `CaptureProperties.FinalizedWindowIsSilent` | src/main.rs:27-29 | after any non-empty answer the window is closed, and any key presses followed by another poll give `""` and change nothing |
| `CaptureProperties.ExpiredStaysExpired` | src/main.rs:35 | an expired window is still expired at any later time |
| `CaptureProperties.ExpiredWindowIgnoresKeys` | src/main.rs:128-131 | key presses arriving after the window expired change nothing |
| `CaptureProperties.ExpiredWindowStaysArmed` | src/main.rs:35-46 | an expired window of one repeated key stays armed, ignores later keys, and every later poll answers `""` without change |
| `CaptureProperties.OverfullWindowNeverCompletes` | src/main.rs:38 | a same-key buffer longer than `keys_len` makes every poll answer `""` without change |
| `CaptureProperties.TypedTaps` | src/main.rs:132 | the characters of taps of one key are that key once per tap, in order |
| `CaptureProperties.PressesAccumulate` | src/main.rs:132-134 | key events of any length inside an unexpired window append all their characters, event after event, and stamp the last event's time |
| `CaptureProperties.ReadyWindowFinalizes` | src/main.rs:35-56 | an armed, unexpired window of one repeated key with a stamped tap and either exactly `keys_len` keys or fewer keys and a 400 ms pause is closed by the poll, which answers `"#escape"` if the key is ESC and the captured keys otherwise |
| `CaptureProperties.IncompleteWindowWaits` | src/main.rs:35-47 | an armed same-key window that is expired, empty, has no stamped tap, is overfull, or is short of taps with the last tap under 400 ms old makes the poll answer `""` and leaves the record unchanged; with ReadyWindowFinalizes this decides every armed same-key window |
| `CaptureProperties.TypedEventsComplete` | src/main.rs:125-142 | key events producing several characters each that fill the window with exactly `keys_len` copies of one key complete it with those characters (or `"#escape"` for ESC) |
| `CaptureProperties.EscapePauseCancels` | src/main.rs:51-53 | fewer ESC taps than `keys_len`, then a 400 ms pause, make the poll answer `"#escape"` |
| `CaptureProperties.TappedWindow` | src/main.rs:80-84 | after arming and tapping inside the window, the window is still armed at the start time, the buffer is exactly the taps, and the last tap is stamped |
| `CaptureProperties.ExactTapsComplete` | src/main.rs:48-56 | `keys_len` taps of one non-ESC key inside the window make the poll answer that key `keys_len` times and close the window |
| `CaptureProperties.PauseFinalizesEarly` | src/main.rs:39-44 | fewer taps than `keys_len`, then at least 400 ms without a tap, make the poll answer exactly the taps and close the window |
| `CaptureProperties.ActiveTappingIsIncomplete` | src/main.rs:39-46 | fewer taps than `keys_len`, polled less than 400 ms after the last tap, answer `""` and keep the buffer |
| `CaptureProperties.EscapeTapsCancel` | src/main.rs:51-55 | `keys_len` taps of ESC finalize as `"#escape"`, not as the captured characters |
| `CaptureProperties.ThreeTapsExample` | src/main.rs:48-56 | `init_action(1000, 3)`, then 'a' three times, then a poll: `"aaa"` |
| `CaptureProperties.MixedKeysExample` | src/main.rs:23-30 | `init_action(1000, 3)`, 'a', 'b', then a poll: `"#escape"`; a second poll: `""` |
| `CaptureProperties.EarlyFinalizeExample` | src/main.rs:39-44 | `init_action(2000, 5)`, 'x', a 400 ms pause, then a poll: `"x"` |

## Left out

- The D-Bus service: the interface attribute, `dbus_routine`, the connection builder and `pending()` (src/main.rs:16, 147-157). These belong to an external library and the transport.
- The Slint UI: the generated module, window creation, `hide` and `run` (src/main.rs:8, 117-118, 144). What reaches the model is the text of each key event, as a `string`.
- The tokio runtime and `spawn_local` (src/main.rs:115, 120-123). These are asynchronous glue.
- The `Arc<Mutex<…>>` lock. Each method is modelled as one critical section, so interleavings are not modelled. On a poisoned lock `get_key_seq` returns `""`, and `init_action` and the key callback do nothing (src/main.rs:61-64, 87-89, 137-139). These branches are not modelled.
- The `println!` logging (src/main.rs:62, 72, 76, 88, 138).
- The real clock. `Instant::now()` becomes the `now` parameter, in whole milliseconds. The code compares nanosecond `Duration`s, and that finer resolution is not modelled.
