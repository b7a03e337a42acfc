/**
 The shared `Action` record and the three handlers that change it in place:
 `KeyPressed::init_action` and `KeyPressed::get_key_seq` (the D-Bus methods)
 and the body of the UI's `on_key_press` callback. The mutex around the record
 is left out; each method is one critical section. Every method is proved to
 have exactly the effect of its counterpart in module Capture.
 */
module KeyPressed {
  import opened Capture

  class Action {
    var keys: seq<char>
    var keysLen: uint8
    var begin: Option<Instant>
    var lastKeyTime: Option<Instant>
    var interval: Millis

    /** The record's fields as a value. */
    function State(): ActionState
      reads this
    {
      ActionState(keys, keysLen, begin, lastKeyTime, interval)
    }

    ghost predicate Valid()
      reads this
    {
      Consistent(State())
    }

    /** `Action::new`. */
    constructor ()
      ensures Valid()
      ensures State() == Initial
    {
      keys := [];
      keysLen := 0;
      begin := None;
      lastKeyTime := None;
      interval := 0;
    }

    /** `init_action(dur, keys_len)`, called at time `now`. */
    method InitAction(dur: int32, len: int32, now: Instant)
      requires Valid()
      modifies this
      ensures Valid()
      ensures State() == Arm(old(State()), dur, len, now)
    {
      if dur < MIN_INTERVAL || dur > MAX_INTERVAL {
        return;
      }
      if len < MIN_KEYS_LEN || len > MAX_KEYS_LEN {
        return;
      }
      keys := [];
      keysLen := len as int as uint8;
      begin := Some(now);
      lastKeyTime := None;
      interval := dur as int;
    }

    /** The UI key callback, for a key event producing the characters `key` at time `now`. */
    method OnKeyPress(key: string, now: Instant)
      requires Valid()
      modifies this
      ensures Valid()
      ensures State() == Press(old(State()), key, now)
    {
      if begin.Some? {
        if Elapsed(begin.value, now) > interval {
          return;
        }
        keys := keys + key;
        lastKeyTime := Some(now);
      }
    }

    /** `get_key_seq`, called at time `now`. */
    method GetKeySeq(now: Instant) returns (reply: string)
      requires Valid()
      modifies this
      ensures Valid()
      ensures reply == Drain(old(State()), now).reply
      ensures State() == Drain(old(State()), now).next
    {
      if begin.None? {
        return NO_REPLY;
      }
      var start := begin.value;

      // Abort at the first character that differs from the first one.
      var sameKey: Option<char> := None;
      for i := 0 to |keys|
        invariant unchanged(this)
        invariant sameKey == if i == 0 then None else Some(keys[0])
        invariant forall j | 0 <= j < i :: keys[j] == keys[0]
      {
        match sameKey {
          case Some(k) =>
            if k != keys[i] {
              assert keys[0] != keys[i];
              begin := None;
              keys := [];
              return ESCAPE_REPLY;
            }
          case None =>
            sameKey := Some(keys[i]);
        }
      }

      if || Elapsed(start, now) > interval
         || |keys| == 0
         || lastKeyTime.None?
         || |keys| > keysLen as int
         || (|keys| < keysLen as int &&
             match lastKeyTime
             case Some(t) => Elapsed(t, now) < INACTIVITY
             case None => false)
      {
        return NO_REPLY;
      }

      begin := None;
      var captured := keys;
      keys := [];
      for i := 0 to |captured|
        invariant forall j | 0 <= j < i :: captured[j] != ESC
      {
        if captured[i] as int == 27 {
          return ESCAPE_REPLY;
        }
      }
      return captured;
    }
  }
}
