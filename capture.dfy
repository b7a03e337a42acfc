/**
 The tap-capture state machine of the `org.zay.KeyPressed1` service, as values.

 `ActionState` is a snapshot of the `Action` record that the D-Bus handler and
 the UI key handler share. `Arm`, `Press` and `Drain` give the effect of
 `init_action`, of one key event and of `get_key_seq` on that record; the class
 in module KeyPressed is proved to behave exactly like them.

 Time is the monotonic clock in whole milliseconds, passed in as `now`.
 */
module Capture {

  datatype Option<T> = None | Some(value: T)

  /** The `i32` arguments of the D-Bus call `init_action`. */
  newtype int32 = x: int | -0x8000_0000 <= x < 0x8000_0000

  /** The `u8` type of the `keys_len` field. */
  newtype uint8 = x: int | 0 <= x < 0x100

  /** A reading of the monotonic clock (`Instant`), in milliseconds. */
  type Instant = nat

  /** A `Duration`, in milliseconds. */
  type Millis = nat

  const MIN_INTERVAL: int32 := 500
  const MAX_INTERVAL: int32 := 10000
  const MIN_KEYS_LEN: int32 := 1
  const MAX_KEYS_LEN: int32 := 255

  /** A pause this long after the last tap finishes a window that is still short of taps. */
  const INACTIVITY: Millis := 400

  /** The ESC control character (code 27). */
  const ESC: char := 27 as char

  /** What `get_key_seq` answers while no result is available. */
  const NO_REPLY: string := ""

  /** What `get_key_seq` answers for a cancelled capture. */
  const ESCAPE_REPLY: string := "#escape"

  /** The fields of `Action`. */
  datatype ActionState = ActionState(
    keys: seq<char>,
    keysLen: uint8,
    begin: Option<Instant>,
    lastKeyTime: Option<Instant>,
    interval: Millis)

  /** `Action::new`: no window armed. */
  const Initial: ActionState := ActionState([], 0, None, None, 0)

  /**
   `since.elapsed()` read at time `now`. Rust's `Instant` subtraction
   saturates at zero, so a reading taken before `since` counts as no time.
   */
  function Elapsed(since: Instant, now: Instant): (d: Millis)
    ensures since <= now ==> since + d == now
    ensures now < since ==> d == 0
  {
    if since <= now then now - since else 0
  }

  /** The armed window has outlived its duration (strictly). */
  predicate Expired(st: ActionState, now: Instant)
  {
    st.begin.Some? && Elapsed(st.begin.value, now) > st.interval
  }

  /** Every captured character is the same one: the buffer is a repeated tap of one key. */
  predicate AllSame(s: seq<char>)
  {
    forall i, j | 0 <= i < |s| && 0 <= j < |s| :: s[i] == s[j]
  }

  /** Some captured character is ESC. */
  predicate HasEscape(s: seq<char>)
  {
    exists i | 0 <= i < |s| :: s[i] == ESC
  }

  /** The arguments `init_action` accepts. */
  predicate ValidRequest(dur: int32, keysLen: int32)
  {
    MIN_INTERVAL <= dur <= MAX_INTERVAL && MIN_KEYS_LEN <= keysLen <= MAX_KEYS_LEN
  }

  /**
   What every reachable `Action` satisfies: an idle record holds no keys, keys
   are only held together with the time of the last tap, and an armed window
   carries a validated duration and tap count.
   */
  ghost predicate Consistent(st: ActionState)
  {
    && (st.begin.None? ==> st.keys == [])
    && (st.keys != [] ==> st.lastKeyTime.Some?)
    && (st.begin.Some? ==>
          && MIN_INTERVAL as int <= st.interval <= MAX_INTERVAL as int
          && MIN_KEYS_LEN as int <= st.keysLen as int <= MAX_KEYS_LEN as int)
  }

  /** `init_action(dur, keys_len)` at time `now`. */
  function Arm(st: ActionState, dur: int32, keysLen: int32, now: Instant): (r: ActionState)
    ensures !ValidRequest(dur, keysLen) ==> r == st
    ensures ValidRequest(dur, keysLen) ==>
              r == ActionState([], keysLen as int as uint8, Some(now), None, dur as int)
  {
    if dur < MIN_INTERVAL || dur > MAX_INTERVAL then st
    else if keysLen < MIN_KEYS_LEN || keysLen > MAX_KEYS_LEN then st
    else ActionState([], keysLen as int as uint8, Some(now), None, dur as int)
  }

  /**
   One key event carrying the characters `key`, delivered at time `now`.
   A key press only ever appends to `keys` and stamps `lastKeyTime`; it is
   dropped when no window is armed or the window has expired.
   */
  function Press(st: ActionState, key: string, now: Instant): (r: ActionState)
    ensures r.begin == st.begin && r.keysLen == st.keysLen && r.interval == st.interval
    ensures st.begin.None? || Expired(st, now) ==> r == st
    ensures st.begin.Some? && !Expired(st, now) ==>
              r == st.(keys := st.keys + key, lastKeyTime := Some(now))
  {
    if st.begin.None? then st
    else if Elapsed(st.begin.value, now) > st.interval then st
    else st.(keys := st.keys + key, lastKeyTime := Some(now))
  }

  /**
   The window is armed but `get_key_seq` must not finalize it yet. An expired
   window is always incomplete; a window that may be finalized holds between
   one and `keysLen` keys and the time of the last tap.
   */
  predicate Incomplete(st: ActionState, now: Instant)
    requires st.begin.Some?
    ensures Expired(st, now) ==> Incomplete(st, now)
    ensures !Incomplete(st, now) ==>
              && 1 <= |st.keys| <= st.keysLen as int
              && st.lastKeyTime.Some?
              && (|st.keys| < st.keysLen as int ==> Elapsed(st.lastKeyTime.value, now) >= INACTIVITY)
  {
    || Elapsed(st.begin.value, now) > st.interval
    || |st.keys| == 0
    || st.lastKeyTime.None?
    || |st.keys| > st.keysLen as int
    || (|st.keys| < st.keysLen as int &&
        match st.lastKeyTime
        case Some(t) => Elapsed(t, now) < INACTIVITY
        case None => false)
  }

  /** The answer of `get_key_seq` and the record it leaves behind. */
  datatype Poll = Poll(reply: string, next: ActionState)

  /**
   `get_key_seq` at time `now`. An answer other than the empty string always
   closes the window; the empty answer leaves the record as it was. A real
   result is the captured buffer: one key tapped between once and `keysLen`
   times, never containing ESC.
   */
  function Drain(st: ActionState, now: Instant): (p: Poll)
    ensures p.reply == NO_REPLY <==> p.next == st
    ensures p.reply != NO_REPLY ==> p.next == st.(begin := None, keys := [])
    ensures st.begin.None? ==> p.reply == NO_REPLY
    ensures st.begin.Some? && !AllSame(st.keys) ==> p.reply == ESCAPE_REPLY
    ensures || p.reply == NO_REPLY
            || p.reply == ESCAPE_REPLY
            || (&& p.reply == st.keys
                && 1 <= |p.reply| <= st.keysLen as int
                && AllSame(p.reply)
                && !HasEscape(p.reply))
  {
    if st.begin.None? then Poll(NO_REPLY, st)
    else if !AllSame(st.keys) then Poll(ESCAPE_REPLY, st.(begin := None, keys := []))
    else if Incomplete(st, now) then Poll(NO_REPLY, st)
    else
      var cleared := st.(begin := None, keys := []);
      if HasEscape(st.keys) then Poll(ESCAPE_REPLY, cleared) else Poll(st.keys, cleared)
  }

  /** A key event from the UI: the characters it produced and when it arrived. */
  datatype KeyEvent = KeyEvent(text: string, at: Instant)

  /**
   A run of key events with no `init_action` or `get_key_seq` in between.
   Key presses never touch the window's start, duration or tap count, and
   only ever add to the buffer.
   */
  function PressAll(st: ActionState, events: seq<KeyEvent>): (r: ActionState)
    ensures r.begin == st.begin && r.keysLen == st.keysLen && r.interval == st.interval
    ensures st.keys <= r.keys
    decreases |events|
  {
    if events == [] then st
    else PressAll(Press(st, events[0].text, events[0].at), events[1..])
  }
}
