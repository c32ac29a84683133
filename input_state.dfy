/**
 * Input change detection of the SDL2 desktop frontend (`input/state.rs`).
 *
 * `DrainChanges` turns the set of currently pressed keys into
 *   - hotkey actions, each fired once on its rising edge, and
 *   - a keypad/touch update for the emulator, reported only when something
 *     changed since the last report.
 *
 * Whether a trigger (a key combination of the input map) is active for a set
 * of pressed keys is decided by `activated`, a parameter standing for
 * `Trigger::activated`. The input maps are Rust hash maps, so the loops visit
 * their entries in an unspecified order; here each loop picks any entry not
 * yet visited.
 */
module InputState {
  import opened Common

  /** A physical key held down, as collected in `pressed_keys`. */
  datatype PressedKey = PressedKey(code: nat)

  /** The frontend hotkey actions. */
  datatype Action =
    | PlayPause
    | Reset
    | Stop
    | ToggleFramerateLimit
    | ToggleSyncToAudio
    | ToggleFullWindowScreen

  /** A key combination of the input map; only its activation is observed. */
  datatype Trigger = Trigger(id: nat)

  /** One emulated key: the index of its bit in the `EmuKeys` bitflags. */
  type EmuKey = b: nat | b < 32

  /** The emulated keypad state, a bitflags value, as the set of its flags. */
  type EmuKeys = set<EmuKey>

  /** A touchscreen position, `[u16; 2]`. */
  datatype TouchPos = TouchPos(x: bv16, y: bv16)

  /** The input map: an optional trigger per hotkey action and per emulated key. */
  datatype InputMap = InputMap(hotkeys: map<Action, Option<Trigger>>, keypad: map<EmuKey, Option<Trigger>>)

  /** What is sent to the emulator when the keypad or the touch position changed. */
  datatype Changes = Changes(pressed: EmuKeys, released: EmuKeys, touchPos: Option<Option<TouchPos>>)

  // ---------------------------------------------------------------------
  // Hotkeys
  // ---------------------------------------------------------------------

  /** Hotkeys whose trigger is present and active. */
  function ActiveHotkeys(hotkeys: map<Action, Option<Trigger>>, activated: (Trigger, set<PressedKey>) -> bool,
                         keys: set<PressedKey>): set<Action>
  {
    set a | a in hotkeys && hotkeys[a].Some? && activated(hotkeys[a].value, keys)
  }

  /** Hotkeys whose trigger is present and not active. */
  function InactiveHotkeys(hotkeys: map<Action, Option<Trigger>>, activated: (Trigger, set<PressedKey>) -> bool,
                           keys: set<PressedKey>): set<Action>
  {
    set a | a in hotkeys && hotkeys[a].Some? && !activated(hotkeys[a].value, keys)
  }

  /** The actions a drain reports: active hotkeys that were not already held. */
  function FiredHotkeys(hotkeys: map<Action, Option<Trigger>>, activated: (Trigger, set<PressedKey>) -> bool,
                        keys: set<PressedKey>, held: set<Action>): (r: set<Action>)
    ensures r !! held
    ensures forall a :: a in r <==> a in hotkeys && hotkeys[a].Some? && activated(hotkeys[a].value, keys) && a !in held
  {
    ActiveHotkeys(hotkeys, activated, keys) - held
  }

  /**
   * `pressed_hotkeys` after a drain: an action with a trigger is held exactly
   * when its trigger is active; an action without a trigger keeps its state.
   */
  function HeldHotkeysAfter(hotkeys: map<Action, Option<Trigger>>, activated: (Trigger, set<PressedKey>) -> bool,
                            keys: set<PressedKey>, held: set<Action>): (r: set<Action>)
    ensures forall a :: a in hotkeys && hotkeys[a].Some? ==> (a in r <==> activated(hotkeys[a].value, keys))
    ensures forall a :: (a !in hotkeys || hotkeys[a].None?) ==> (a in r <==> a in held)
  {
    held - InactiveHotkeys(hotkeys, activated, keys) + ActiveHotkeys(hotkeys, activated, keys)
  }

  /**
   * A held hotkey fires once: a second drain with the same pressed keys
   * reports no action and leaves the held hotkeys as they are.
   */
  lemma HeldHotkeyFiresOnce(hotkeys: map<Action, Option<Trigger>>, activated: (Trigger, set<PressedKey>) -> bool,
                            keys: set<PressedKey>, held: set<Action>)
    ensures var held' := HeldHotkeysAfter(hotkeys, activated, keys, held);
      && FiredHotkeys(hotkeys, activated, keys, held') == {}
      && HeldHotkeysAfter(hotkeys, activated, keys, held') == held'
  {
    var held' := HeldHotkeysAfter(hotkeys, activated, keys, held);
    var active := ActiveHotkeys(hotkeys, activated, keys);
    assert active <= held';
    var again := HeldHotkeysAfter(hotkeys, activated, keys, held');
    forall a ensures a in again <==> a in held' {
      if a in hotkeys && hotkeys[a].Some? {
        assert a in again <==> activated(hotkeys[a].value, keys);
      }
    }
  }

  /** Visiting one more hotkey entry updates the held and fired sets for that action only. */
  lemma HotkeyStep(done: map<Action, Option<Trigger>>, action: Action, t: Option<Trigger>,
                   activated: (Trigger, set<PressedKey>) -> bool, keys: set<PressedKey>, held: set<Action>)
    requires action !in done
    ensures var before := HeldHotkeysAfter(done, activated, keys, held);
      && (action in before <==> action in held)
      && HeldHotkeysAfter(done[action := t], activated, keys, held)
         == (if t.None? then before else if activated(t.value, keys) then before + {action} else before - {action})
      && FiredHotkeys(done[action := t], activated, keys, held)
         == FiredHotkeys(done, activated, keys, held)
            + (if t.Some? && activated(t.value, keys) && action !in held then {action} else {})
  {
  }

  // ---------------------------------------------------------------------
  // Keypad
  // ---------------------------------------------------------------------

  /** The key has a trigger in the keypad map and that trigger is active. */
  predicate KeyActive(keypad: map<EmuKey, Option<Trigger>>, activated: (Trigger, set<PressedKey>) -> bool,
                      keys: set<PressedKey>, k: EmuKey)
  {
    k in keypad && keypad[k].Some? && activated(keypad[k].value, keys)
  }

  /** The keypad mask for the pressed keys: a key is set exactly when `KeyActive` holds. */
  ghost predicate IsKeypadMask(mask: EmuKeys, keypad: map<EmuKey, Option<Trigger>>,
                               activated: (Trigger, set<PressedKey>) -> bool, keys: set<PressedKey>)
  {
    forall k: EmuKey :: k in mask <==> KeyActive(keypad, activated, keys, k)
  }

  /** `EmuKeys::set(key, value)`: insert or remove one flag. */
  function SetKey(mask: EmuKeys, key: EmuKey, value: bool): (r: EmuKeys)
    ensures key in r <==> value
    ensures forall k :: k != key ==> (k in r <==> k in mask)
  {
    if value then mask + {key} else mask - {key}
  }

  /** A keypad mask is determined by the keypad map: two masks that satisfy `IsKeypadMask` are equal. */
  lemma KeypadMaskUnique(a: EmuKeys, b: EmuKeys, keypad: map<EmuKey, Option<Trigger>>,
                         activated: (Trigger, set<PressedKey>) -> bool, keys: set<PressedKey>)
    requires IsKeypadMask(a, keypad, activated, keys) && IsKeypadMask(b, keypad, activated, keys)
    ensures a == b
  {
    forall k: EmuKey ensures k in a <==> k in b {
      assert k in a <==> KeyActive(keypad, activated, keys, k);
    }
  }

  /**
   * The keypad loop of `drain_changes`: starting from an empty mask, set each
   * key that has a trigger to whether that trigger is active. Keys with no
   * trigger stay clear.
   */
  method NewKeypadMask(keypad: map<EmuKey, Option<Trigger>>, activated: (Trigger, set<PressedKey>) -> bool,
                       keys: set<PressedKey>) returns (mask: EmuKeys)
    ensures IsKeypadMask(mask, keypad, activated, keys)
  {
    mask := {};
    var remaining := keypad.Keys;
    while remaining != {}
      invariant remaining <= keypad.Keys
      invariant forall k: EmuKey :: k in mask <==> k !in remaining && KeyActive(keypad, activated, keys, k)
      decreases remaining
    {
      var key :| key in remaining;
      match keypad[key] {
        case Some(trigger) =>
          mask := SetKey(mask, key, activated(trigger, keys));
        case None =>
      }
      remaining := remaining - {key};
    }
  }

  /** `pressed = new & !old`: only keys that are down now and were up before. */
  function Pressed(before: EmuKeys, after: EmuKeys): (p: EmuKeys)
    ensures p !! before
    ensures p <= after && after <= before + p
  {
    after - before
  }

  /** `released = old & !new`: only keys that were down before and are up now. */
  function Released(before: EmuKeys, after: EmuKeys): (r: EmuKeys)
    ensures r !! after
    ensures r <= before && before <= after + r
  {
    before - after
  }

  /**
   * The keypad diff is exact: no key is both pressed and released, and a
   * receiver holding the old mask that sets the pressed keys and clears the
   * released ones obtains the new mask.
   */
  lemma KeypadDiffReconstructs(before: EmuKeys, after: EmuKeys)
    ensures Pressed(before, after) !! Released(before, after)
    ensures (before + Pressed(before, after)) - Released(before, after) == after
  {
  }

  // ---------------------------------------------------------------------
  // Touch and the change report
  // ---------------------------------------------------------------------

  /** How a receiver that remembers the last reported touch position applies a report. */
  function ApplyTouch(last: Option<TouchPos>, report: Option<Option<TouchPos>>): Option<TouchPos>
  {
    match report
    case None => last
    case Some(pos) => pos
  }

  /** How a receiver that remembers the last keypad mask and touch position applies a change report. */
  function ApplyChanges(keysBefore: EmuKeys, lastTouch: Option<TouchPos>, c: Changes): (EmuKeys, Option<TouchPos>)
  {
    ((keysBefore + c.pressed) - c.released, ApplyTouch(lastTouch, c.touchPos))
  }

  /**
   * The touch report: nothing when the position is the last one reported;
   * otherwise a report that brings the receiver to the current position.
   */
  function TouchReport(touch: Option<TouchPos>, prev: Option<TouchPos>): (r: Option<Option<TouchPos>>)
    ensures r.None? <==> touch == prev
    ensures ApplyTouch(prev, r) == touch
  {
    if touch == prev then None else Some(touch)
  }

  /**
   * The report of one drain while the emulator plays: present exactly when
   * the keypad mask or the touch position changed, and then it brings a
   * receiver holding the old mask and the last reported position to the new
   * ones.
   */
  function ChangeReport(before: EmuKeys, after: EmuKeys, touch: Option<TouchPos>, prev: Option<TouchPos>)
    : (r: Option<Changes>)
    ensures r.Some? <==> touch != prev || after != before
    ensures r.Some? ==> ApplyChanges(before, prev, r.value) == (after, touch)
    ensures r.Some? ==> r.value.pressed !! r.value.released
  {
    var touchPos := TouchReport(touch, prev);
    if touchPos.Some? || after != before then
      KeypadDiffReconstructs(before, after);
      Some(Changes(Pressed(before, after), Released(before, after), touchPos))
    else
      None
  }

  /**
   * Idempotence: once a drain has committed its keypad mask and touch
   * position, a second drain with the same inputs computes the same mask and
   * reports nothing.
   */
  lemma SecondDrainReportsNothing(committed: EmuKeys, recomputed: EmuKeys, keypad: map<EmuKey, Option<Trigger>>,
                                  activated: (Trigger, set<PressedKey>) -> bool, keys: set<PressedKey>,
                                  touch: Option<TouchPos>)
    requires IsKeypadMask(committed, keypad, activated, keys)
    requires IsKeypadMask(recomputed, keypad, activated, keys)
    ensures ChangeReport(committed, recomputed, touch, touch) == None
  {
    KeypadMaskUnique(committed, recomputed, keypad, activated, keys);
  }

  // ---------------------------------------------------------------------
  // The input state
  // ---------------------------------------------------------------------

  /** Whether no action occurs twice. */
  predicate NoDuplicates(actions: seq<Action>)
  {
    forall i, j :: 0 <= i < j < |actions| ==> actions[i] != actions[j]
  }

  /**
   * `State`: the input fields the change detection uses. The touchscreen
   * geometry and mouse position are floating-point and are not modelled;
   * `touchPos` stands for their result.
   */
  class State {
    var pressedKeys: set<PressedKey>
    var touchPos: Option<TouchPos>
    var prevTouchPos: Option<TouchPos>
    var pressedEmuKeys: EmuKeys
    var pressedHotkeys: set<Action>

    /** `State::new`: nothing pressed, no touch, nothing reported yet. */
    constructor ()
      ensures pressedKeys == {} && pressedHotkeys == {}
      ensures touchPos == None && prevTouchPos == None
      ensures pressedEmuKeys == {}
    {
      pressedKeys := {};
      touchPos := None;
      prevTouchPos := None;
      pressedEmuKeys := {};
      pressedHotkeys := {};
    }

    /**
     * The hotkey loop of `drain_changes`: report each hotkey whose trigger went
     * active since the last drain, and track which hotkeys are held.
     */
    method DrainHotkeys(hotkeys: map<Action, Option<Trigger>>, activated: (Trigger, set<PressedKey>) -> bool)
      returns (actions: seq<Action>)
      modifies this`pressedHotkeys
      ensures forall a :: a in actions <==> a in FiredHotkeys(hotkeys, activated, pressedKeys, old(pressedHotkeys))
      ensures NoDuplicates(actions)
      ensures pressedHotkeys == HeldHotkeysAfter(hotkeys, activated, pressedKeys, old(pressedHotkeys))
    {
      actions := [];
      var remaining := hotkeys.Keys;
      while remaining != {}
        invariant remaining <= hotkeys.Keys
        invariant pressedHotkeys == HeldHotkeysAfter(hotkeys - remaining, activated, pressedKeys, old(pressedHotkeys))
        invariant forall a :: a in actions <==> a in FiredHotkeys(hotkeys - remaining, activated, pressedKeys, old(pressedHotkeys))
        invariant forall a :: a in actions ==> a !in remaining
        invariant NoDuplicates(actions)
        decreases remaining
      {
        var action :| action in remaining;
        ghost var done := hotkeys - remaining;
        HotkeyStep(done, action, hotkeys[action], activated, pressedKeys, old(pressedHotkeys));
        match hotkeys[action] {
          case Some(trigger) =>
            if activated(trigger, pressedKeys) {
              if action !in pressedHotkeys {
                pressedHotkeys := pressedHotkeys + {action};
                actions := actions + [action];
              }
            } else {
              pressedHotkeys := pressedHotkeys - {action};
            }
          case None =>
        }
        remaining := remaining - {action};
        assert hotkeys - remaining == done[action := hotkeys[action]];
      }
    }

    /**
     * `drain_changes`: report the hotkeys that went down since the last
     * drain, and, while the emulator plays, the keypad and touch changes
     * since the last report.
     */
    method DrainChanges(m: InputMap, activated: (Trigger, set<PressedKey>) -> bool, emuPlaying: bool)
      returns (actions: seq<Action>, changes: Option<Changes>)
      modifies this`pressedHotkeys, this`pressedEmuKeys, this`prevTouchPos
      ensures forall a :: a in actions <==> a in FiredHotkeys(m.hotkeys, activated, pressedKeys, old(pressedHotkeys))
      ensures NoDuplicates(actions)
      ensures pressedHotkeys == HeldHotkeysAfter(m.hotkeys, activated, pressedKeys, old(pressedHotkeys))
      ensures !emuPlaying ==>
        changes == None && pressedEmuKeys == old(pressedEmuKeys) && prevTouchPos == old(prevTouchPos)
      ensures emuPlaying ==>
        && IsKeypadMask(pressedEmuKeys, m.keypad, activated, pressedKeys)
        && changes == ChangeReport(old(pressedEmuKeys), pressedEmuKeys, touchPos, old(prevTouchPos))
        && prevTouchPos == touchPos
        && (changes.None? ==> pressedEmuKeys == old(pressedEmuKeys))
    {
      actions := DrainHotkeys(m.hotkeys, activated);
      if !emuPlaying {
        return actions, None;
      }

      var newPressedEmuKeys := NewKeypadMask(m.keypad, activated, pressedKeys);
      var pressed := Pressed(pressedEmuKeys, newPressedEmuKeys);
      var released := Released(pressedEmuKeys, newPressedEmuKeys);
      var touch := TouchReport(touchPos, prevTouchPos);

      if touch.Some? || newPressedEmuKeys != pressedEmuKeys {
        pressedEmuKeys := newPressedEmuKeys;
        prevTouchPos := touchPos;
        changes := Some(Changes(pressed, released, touch));
      } else {
        changes := None;
      }
    }
  }
}
