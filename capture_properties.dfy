/**
 Properties of the tap-capture state machine across several calls: how
 `init_action` re-arms, what key presses can and cannot do to a window, and
 which answers `get_key_seq` gives for the tap patterns the service is built
 to recognise.
 */
module CaptureProperties {
  import opened Capture

  /** Taps of the single key `c`, one at each of `times`. */
  function Taps(c: char, times: seq<Instant>): (events: seq<KeyEvent>)
    ensures |events| == |times|
    ensures forall i | 0 <= i < |times| :: events[i] == KeyEvent([c], times[i])
  {
    if times == [] then [] else [KeyEvent([c], times[0])] + Taps(c, times[1..])
  }

  /** The character `c`, `n` times. */
  function Repeat(c: char, n: nat): (s: string)
    ensures |s| == n
    ensures forall i | 0 <= i < n :: s[i] == c
  {
    if n == 0 then [] else [c] + Repeat(c, n - 1)
  }

  /** Every handler keeps the record consistent, starting from `Action::new`. */
  lemma ConsistentIsInvariant(st: ActionState, dur: int32, len: int32, key: string, now: Instant)
    ensures Consistent(Initial)
    ensures Consistent(st) ==> Consistent(Arm(st, dur, len, now))
    ensures Consistent(st) ==> Consistent(Press(st, key, now))
    ensures Consistent(st) ==> Consistent(Drain(st, now).next)
  {
  }

  /**
   An accepted `init_action` gives the same record whatever was there before:
   an earlier window, even an unfinished one, is simply discarded.
   */
  lemma ArmReplacesAnyWindow(st1: ActionState, st2: ActionState, dur: int32, len: int32, now: Instant)
    requires ValidRequest(dur, len)
    ensures Arm(st1, dur, len, now) == Arm(st2, dur, len, now)
  {
  }

  /** Polling right after arming, before any tap, gives no answer and changes nothing. */
  lemma ArmThenDrainIsIncomplete(st: ActionState, dur: int32, len: int32, start: Instant, now: Instant)
    requires ValidRequest(dur, len)
    ensures Drain(Arm(st, dur, len, start), now) == Poll(NO_REPLY, Arm(st, dur, len, start))
  {
  }

  /** With no window armed, key presses are dropped. */
  lemma {:induction false} IdleIgnoresKeys(st: ActionState, events: seq<KeyEvent>)
    requires st.begin.None?
    ensures PressAll(st, events) == st
    decreases |events|
  {
    if events != [] {
      IdleIgnoresKeys(Press(st, events[0].text, events[0].at), events[1..]);
    }
  }

  /**
   Once `get_key_seq` has given an answer, it gives none again, whatever keys
   are pressed, until the next `init_action`.
   */
  lemma FinalizedWindowIsSilent(st: ActionState, now: Instant, events: seq<KeyEvent>, later: Instant)
    requires Drain(st, now).reply != NO_REPLY
    ensures Drain(st, now).next.begin.None?
    ensures Drain(PressAll(Drain(st, now).next, events), later) == Poll(NO_REPLY, Drain(st, now).next)
  {
    IdleIgnoresKeys(Drain(st, now).next, events);
  }

  /** A window that has expired stays expired as the clock moves on. */
  lemma ExpiredStaysExpired(st: ActionState, since: Instant, now: Instant)
    requires Expired(st, since) && since <= now
    ensures Expired(st, now)
  {
  }

  /** Key presses arriving after a window expired are dropped. */
  lemma {:induction false} ExpiredWindowIgnoresKeys(st: ActionState, since: Instant, events: seq<KeyEvent>)
    requires Expired(st, since)
    requires forall i | 0 <= i < |events| :: since <= events[i].at
    ensures PressAll(st, events) == st
    decreases |events|
  {
    if events != [] {
      ExpiredStaysExpired(st, since, events[0].at);
      assert Press(st, events[0].text, events[0].at) == st;
      assert forall i | 0 <= i < |events[1..]| :: events[1..][i] == events[i + 1];
      ExpiredWindowIgnoresKeys(st, since, events[1..]);
    }
  }

  /**
   An expired window of one repeated key is not cleared: it stays armed and
   every later poll answers nothing, until the next `init_action`.
   */
  lemma ExpiredWindowStaysArmed(st: ActionState, since: Instant, events: seq<KeyEvent>, later: Instant)
    requires Expired(st, since) && AllSame(st.keys)
    requires forall i | 0 <= i < |events| :: since <= events[i].at
    requires since <= later
    ensures PressAll(st, events) == st
    ensures Drain(PressAll(st, events), later) == Poll(NO_REPLY, st)
  {
    ExpiredWindowIgnoresKeys(st, since, events);
    ExpiredStaysExpired(st, since, later);
  }

  /** A buffer holding more taps than requested never completes. */
  lemma OverfullWindowNeverCompletes(st: ActionState, now: Instant)
    requires st.begin.Some? && AllSame(st.keys) && |st.keys| > st.keysLen as int
    ensures Drain(st, now) == Poll(NO_REPLY, st)
  {
  }

  /** The characters of a run of key events, in order. */
  function Typed(events: seq<KeyEvent>): string
  {
    if events == [] then [] else events[0].text + Typed(events[1..])
  }

  /** The characters typed by taps of one key are that key, once per tap. */
  lemma {:induction false} TypedTaps(c: char, times: seq<Instant>)
    ensures Typed(Taps(c, times)) == Repeat(c, |times|)
    decreases |times|
  {
    if times != [] {
      var taps := Taps(c, times);
      assert taps[0].text == [c];
      assert taps[1..] == Taps(c, times[1..]);
      TypedTaps(c, times[1..]);
    }
  }

  /**
   Key events inside an armed, unexpired window append all their characters,
   event after event, and stamp the time of the last event.
   */
  lemma {:induction false} PressesAccumulate(st: ActionState, events: seq<KeyEvent>)
    requires st.begin.Some?
    requires forall i | 0 <= i < |events| :: !Expired(st, events[i].at)
    ensures PressAll(st, events).keys == st.keys + Typed(events)
    ensures events != [] ==> PressAll(st, events).lastKeyTime == Some(events[|events| - 1].at)
    decreases |events|
  {
    if events != [] {
      var st' := Press(st, events[0].text, events[0].at);
      assert st' == st.(keys := st.keys + events[0].text, lastKeyTime := Some(events[0].at));
      assert forall i | 0 <= i < |events[1..]| :: events[1..][i] == events[i + 1];
      PressesAccumulate(st', events[1..]);
      assert st.keys + events[0].text + Typed(events[1..]) == st.keys + Typed(events);
    }
  }

  /**
   A window of one repeated key that is armed, unexpired, holds a stamped tap,
   and has either exactly `keysLen` keys or fewer keys and a pause of at least
   400 ms, is finalized: the poll answers "#escape" when the key is ESC and the
   captured keys otherwise, and closes the window.
   */
  lemma ReadyWindowFinalizes(st: ActionState, now: Instant)
    requires st.begin.Some? && !Expired(st, now)
    requires AllSame(st.keys) && st.keys != [] && st.lastKeyTime.Some?
    requires || |st.keys| == st.keysLen as int
             || (|st.keys| < st.keysLen as int && Elapsed(st.lastKeyTime.value, now) >= INACTIVITY)
    ensures Drain(st, now)
              == Poll(if HasEscape(st.keys) then ESCAPE_REPLY else st.keys, st.(begin := None, keys := []))
  {
  }

  /**
   The converse of ReadyWindowFinalizes: an armed window of one repeated key
   that is expired, empty, unstamped, overfull, or short of taps with the last
   tap less than 400 ms ago, makes the poll answer nothing and keep the record.
   */
  lemma IncompleteWindowWaits(st: ActionState, now: Instant)
    requires st.begin.Some? && AllSame(st.keys)
    requires || Expired(st, now)
             || st.keys == []
             || st.lastKeyTime.None?
             || |st.keys| > st.keysLen as int
             || (|st.keys| < st.keysLen as int && st.lastKeyTime.Some?
                 && Elapsed(st.lastKeyTime.value, now) < INACTIVITY)
    ensures Drain(st, now) == Poll(NO_REPLY, st)
  {
  }

  /**
   Key events, each producing any number of characters, that fill an armed
   window with exactly `len` copies of one key complete it.
   */
  lemma TypedEventsComplete(st: ActionState, dur: int32, len: int32, start: Instant, events: seq<KeyEvent>, now: Instant)
    requires ValidRequest(dur, len)
    requires forall i | 0 <= i < |events| :: events[i].at <= start + dur as int
    requires now <= start + dur as int
    requires AllSame(Typed(events)) && |Typed(events)| == len as int
    ensures var filled := PressAll(Arm(st, dur, len, start), events);
            Drain(filled, now)
              == Poll(if HasEscape(Typed(events)) then ESCAPE_REPLY else Typed(events),
                      filled.(begin := None, keys := []))
  {
    var armed := Arm(st, dur, len, start);
    assert armed.keys == [] && armed.begin == Some(start) && armed.interval == dur as int;
    assert events != [];
    PressesAccumulate(armed, events);
    var filled := PressAll(armed, events);
    assert filled.keys == Typed(events) && filled.keysLen as int == len as int;
    ReadyWindowFinalizes(filled, now);
  }

  /**
   Fewer ESC taps than requested, then a pause of at least 400 ms, cancel the
   capture.
   */
  lemma EscapePauseCancels(st: ActionState, dur: int32, len: int32, start: Instant, times: seq<Instant>, now: Instant)
    requires ValidRequest(dur, len)
    requires 1 <= |times| < len as int
    requires forall i | 0 <= i < |times| :: times[i] <= start + dur as int
    requires times[|times| - 1] + INACTIVITY <= now <= start + dur as int
    ensures Drain(Tapped(st, dur, len, start, ESC, times), now).reply == ESCAPE_REPLY
  {
    TappedWindow(st, dur, len, start, ESC, times);
    RepeatIsOneKey(ESC, |times|);
    assert Repeat(ESC, |times|)[0] == ESC;
    ReadyWindowFinalizes(Tapped(st, dur, len, start, ESC, times), now);
  }

  /** The repeated-tap buffer is a single key, and holds no ESC unless that key is ESC. */
  lemma RepeatIsOneKey(c: char, n: nat)
    ensures AllSame(Repeat(c, n))
    ensures c != ESC ==> !HasEscape(Repeat(c, n))
  {
  }

  /** `init_action(dur, len)` at `start`, then one tap of `c` at each of `times`. */
  function Tapped(st: ActionState, dur: int32, len: int32, start: Instant, c: char, times: seq<Instant>): ActionState
  {
    PressAll(Arm(st, dur, len, start), Taps(c, times))
  }

  /** After arming and tapping, the buffer is exactly the taps and the last tap is stamped. */
  lemma TappedWindow(st: ActionState, dur: int32, len: int32, start: Instant, c: char, times: seq<Instant>)
    requires ValidRequest(dur, len)
    requires forall i | 0 <= i < |times| :: times[i] <= start + dur as int
    ensures Tapped(st, dur, len, start, c, times).begin == Some(start)
    ensures Tapped(st, dur, len, start, c, times).keys == Repeat(c, |times|)
    ensures times != [] ==> Tapped(st, dur, len, start, c, times).lastKeyTime == Some(times[|times| - 1])
  {
    var armed := Arm(st, dur, len, start);
    assert armed.keys == [] && armed.begin == Some(start) && armed.interval == dur as int;
    PressesAccumulate(armed, Taps(c, times));
    TypedTaps(c, times);
  }

  /**
   Tapping the same key exactly `len` times inside the window completes it:
   the poll answers that key repeated `len` times and closes the window.
   */
  lemma ExactTapsComplete(st: ActionState, dur: int32, len: int32, start: Instant, c: char, times: seq<Instant>, now: Instant)
    requires ValidRequest(dur, len) && c != ESC
    requires |times| == len as int
    requires forall i | 0 <= i < |times| :: times[i] <= start + dur as int
    requires now <= start + dur as int
    ensures Drain(Tapped(st, dur, len, start, c, times), now).reply == Repeat(c, len as int)
    ensures Drain(Tapped(st, dur, len, start, c, times), now).next.begin.None?
  {
    TappedWindow(st, dur, len, start, c, times);
    RepeatIsOneKey(c, |times|);
  }

  /**
   Fewer taps than requested, followed by a pause of at least 400 ms, finish
   the window early with exactly the taps made.
   */
  lemma PauseFinalizesEarly(st: ActionState, dur: int32, len: int32, start: Instant, c: char, times: seq<Instant>, now: Instant)
    requires ValidRequest(dur, len) && c != ESC
    requires 1 <= |times| < len as int
    requires forall i | 0 <= i < |times| :: times[i] <= start + dur as int
    requires times[|times| - 1] + INACTIVITY <= now <= start + dur as int
    ensures Drain(Tapped(st, dur, len, start, c, times), now).reply == Repeat(c, |times|)
    ensures Drain(Tapped(st, dur, len, start, c, times), now).next.begin.None?
  {
    TappedWindow(st, dur, len, start, c, times);
    RepeatIsOneKey(c, |times|);
  }

  /**
   Fewer taps than requested, polled within 400 ms of the last one: no answer
   yet, and the buffer is kept for further taps.
   */
  lemma ActiveTappingIsIncomplete(st: ActionState, dur: int32, len: int32, start: Instant, c: char, times: seq<Instant>, now: Instant)
    requires ValidRequest(dur, len)
    requires 1 <= |times| < len as int
    requires forall i | 0 <= i < |times| :: times[i] <= start + dur as int
    requires times[|times| - 1] <= now < times[|times| - 1] + INACTIVITY
    ensures Drain(Tapped(st, dur, len, start, c, times), now)
              == Poll(NO_REPLY, Tapped(st, dur, len, start, c, times))
    ensures Tapped(st, dur, len, start, c, times).keys == Repeat(c, |times|)
  {
    TappedWindow(st, dur, len, start, c, times);
    RepeatIsOneKey(c, |times|);
  }

  /** Taps of ESC, however many, cancel the capture once it finalizes. */
  lemma EscapeTapsCancel(st: ActionState, dur: int32, len: int32, start: Instant, times: seq<Instant>, now: Instant)
    requires ValidRequest(dur, len)
    requires |times| == len as int
    requires forall i | 0 <= i < |times| :: times[i] <= start + dur as int
    requires now <= start + dur as int
    ensures Drain(Tapped(st, dur, len, start, ESC, times), now).reply == ESCAPE_REPLY
  {
    TappedWindow(st, dur, len, start, ESC, times);
    RepeatIsOneKey(ESC, |times|);
    assert Repeat(ESC, |times|)[0] == ESC;
  }

  /** `init_action(1000, 3)`, then 'a' three times: the poll answers "aaa". */
  lemma ThreeTapsExample()
    ensures Drain(Tapped(Initial, 1000, 3, 0, 'a', [100, 200, 300]), 350).reply == "aaa"
  {
    ExactTapsComplete(Initial, 1000, 3, 0, 'a', [100, 200, 300], 350);
  }

  /**
   `init_action(1000, 3)`, then 'a' and 'b': the poll answers "#escape" and
   the next poll answers nothing.
   */
  lemma MixedKeysExample()
    ensures var events := [KeyEvent("a", 100), KeyEvent("b", 200)];
            var p := Drain(PressAll(Arm(Initial, 1000, 3, 0), events), 250);
            p.reply == ESCAPE_REPLY && Drain(p.next, 300).reply == NO_REPLY
  {
    var events := [KeyEvent("a", 100), KeyEvent("b", 200)];
    var st := PressAll(Arm(Initial, 1000, 3, 0), events);
    assert st.keys == "ab";
    assert st.keys[0] != st.keys[1];
  }

  /** `init_action(2000, 5)`, then 'x', then a 400 ms pause: the poll answers "x". */
  lemma EarlyFinalizeExample()
    ensures Drain(Tapped(Initial, 2000, 5, 0, 'x', [10]), 410).reply == "x"
  {
    PauseFinalizesEarly(Initial, 2000, 5, 0, 'x', [10], 410);
  }
}
