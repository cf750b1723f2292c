/**
 * The input-mode state machine and the key dispatch of the editor's event
 * loop, as a deterministic transition function
 * (entries, selection, mode, buffer, key) -> new state, or quit with the entries.
 *
 * The filesystem probe `Path::exists` is the parameter `pathExists`.
 */
module InputMachine {
  import opened Wrappers
  import opened Strings
  import opened ListModel

  /** Navigating, or composing an entry to insert after / before the selection. */
  datatype InputMode = Normal | InsertAfter | InsertBefore

  /** The key codes the editor distinguishes; every other code is `Other`. */
  datatype KeyCode = Char(c: char) | Enter | Esc | Backspace | Up | Down | Other

  datatype Modifier = Shift | Control | Alt

  /** A key press: its code and the exact set of modifiers held. */
  datatype KeyEvent = KeyEvent(code: KeyCode, modifiers: set<Modifier>)

  /** The whole session: the list, the mode, and the text typed so far. */
  datatype State = State(list: Listing, mode: InputMode, input: string)

  /** The result of one key: the loop goes on, ends with the entries, or the program panics. */
  datatype Outcome = Running(state: State) | Quit(paths: seq<string>) | Panicked(panic: Panic)

  /** The session at start-up: first entry selected, navigating, empty buffer. */
  function InitialState(paths: seq<string>): (s: State)
    ensures s.list == Initial(paths) && s.mode == Normal && s.input == []
    ensures Consistent(s)
  {
    State(Initial(paths), Normal, [])
  }

  /**
   * The session invariant: a valid selection, and no text while navigating
   * (the buffer is cleared on every return to Normal, src/main.rs:174-179).
   */
  predicate Consistent(s: State) {
    Valid(s.list) && (s.mode == Normal ==> s.input == [])
  }

  /** `q`, Esc, or `c` with exactly the Control modifier. */
  predicate IsQuitKey(k: KeyEvent) {
    k.code == Char('q') || k.code == Esc || (k.code == Char('c') && k.modifiers == {Control})
  }

  predicate IsUpKey(k: KeyEvent) { k.code == Up || k.code == Char('k') }

  predicate IsDownKey(k: KeyEvent) { k.code == Down || k.code == Char('j') }

  /** The keys Normal mode acts on. */
  predicate IsBoundInNormalMode(k: KeyEvent) {
    IsQuitKey(k) || k.code == Char('a') || k.code == Char('b') || k.code == Char('d') || IsUpKey(k) || IsDownKey(k)
  }

  /** The side an insert mode inserts on. */
  function PointOf(mode: InputMode): (p: InsertionPoint)
    requires mode != Normal
  {
    if mode == InsertAfter then After else Before
  }

  /**
   * A key in an insert mode: Enter commits the trimmed text if the probe
   * accepts it, Esc cancels, a character is appended, Backspace drops the
   * last character; both Enter and Esc clear the text and return to Normal.
   */
  function HandleInputMode(s: State, k: KeyEvent, point: InsertionPoint, pathExists: string -> bool): (t: State)
    ensures k.code == Enter || k.code == Esc ==> t.mode == Normal && t.input == []
    ensures k.code != Enter ==> t.list == s.list
    ensures k.code != Enter && k.code != Esc ==> t.mode == s.mode
    ensures k.code == Enter ==>
              t.list == if pathExists(Trim(s.input)) then Insert(s.list, Trim(s.input), point) else s.list
    ensures k.code.Char? ==> t.input == s.input + [k.code.c]
    ensures k.code == Backspace && s.input == [] ==> t == s
    ensures k.code == Backspace && s.input != [] ==> t.input + [s.input[|s.input| - 1]] == s.input
    ensures k.code == Up || k.code == Down || k.code == Other ==> t == s
  {
    match k.code
    case Enter =>
      var entry := Trim(s.input);
      State(if pathExists(entry) then Insert(s.list, entry, point) else s.list, Normal, [])
    case Esc => State(s.list, Normal, [])
    case Char(c) => s.(input := s.input + [c])
    case Backspace => s.(input := if s.input == [] then [] else s.input[..|s.input| - 1])
    case _ => s
  }

  /** A key in Normal mode, as written. */
  function NormalKey(s: State, k: KeyEvent): (o: Outcome)
    ensures IsQuitKey(k) ==> o == Quit(s.list.paths)
    ensures o.Quit? ==> IsQuitKey(k)
    ensures !IsBoundInNormalMode(k) ==> o == Running(s)
    ensures k.code == Char('d') ==>
              (o.Panicked? <==> Delete(s.list).Err?)
              && (Delete(s.list).Ok? ==> o == Running(s.(list := Delete(s.list).value)))
    ensures IsUpKey(k) ==> o == Running(s.(list := MoveUpAsWritten(s.list)))
    ensures IsDownKey(k) ==>
              (o.Panicked? <==> MoveDownAsWritten(s.list).Err?)
              && (MoveDownAsWritten(s.list).Ok? ==> o == Running(s.(list := MoveDownAsWritten(s.list).value)))
    ensures o.Running? ==> o.state.list.paths == s.list.paths || k.code == Char('d')
  {
    if IsQuitKey(k) then Quit(s.list.paths)
    else if k.code == Char('a') then Running(State(s.list, InsertAfter, []))
    else if k.code == Char('b') then Running(State(s.list, InsertBefore, []))
    else if k.code == Char('d') then
      match Delete(s.list)
      case Ok(l) => Running(s.(list := l))
      case Err(e) => Panicked(e)
    else if IsUpKey(k) then Running(s.(list := MoveUpAsWritten(s.list)))
    else if IsDownKey(k) then
      match MoveDownAsWritten(s.list)
      case Ok(l) => Running(s.(list := l))
      case Err(e) => Panicked(e)
    else Running(s)
  }

  /** One key event, dispatched on the mode, as written. */
  function Step(s: State, k: KeyEvent, pathExists: string -> bool): (o: Outcome)
    ensures s.mode != Normal ==> o.Running?
  {
    match s.mode
    case Normal => NormalKey(s, k)
    case InsertAfter => Running(HandleInputMode(s, k, After, pathExists))
    case InsertBefore => Running(HandleInputMode(s, k, Before, pathExists))
  }

  /**
   * One key event with Up and Down made no-ops on an empty list, so that the
   * selection stays None there, as `d` leaves it (src/main.rs:98-99).
   */
  function StepCorrected(s: State, k: KeyEvent, pathExists: string -> bool): (o: Outcome)
    ensures !(s.mode == Normal && |s.list.paths| == 0 && (IsUpKey(k) || IsDownKey(k))) ==> o == Step(s, k, pathExists)
    ensures s.mode == Normal && |s.list.paths| == 0 && (IsUpKey(k) || IsDownKey(k)) ==> o == Running(s)
  {
    if s.mode == Normal && |s.list.paths| == 0 && (IsUpKey(k) || IsDownKey(k)) then Running(s)
    else Step(s, k, pathExists)
  }

  /**
   * The event loop over a sequence of keys: stops at the first key that quits
   * or panics. It ends with the entries only on a quit key, and with no keys
   * left it is still running, on the state it was given.
   */
  function Run(s: State, keys: seq<KeyEvent>, pathExists: string -> bool): (o: Outcome)
    ensures keys == [] ==> o == Running(s)
    ensures o.Quit? ==> exists i :: 0 <= i < |keys| && IsQuitKey(keys[i])
    decreases |keys|
  {
    if keys == [] then Running(s)
    else
      match StepCorrected(s, keys[0], pathExists)
      case Running(t) =>
        var o := Run(t, keys[1..], pathExists);
        assert o.Quit? ==> exists i :: 1 <= i < |keys| && IsQuitKey(keys[i]) by {
          if o.Quit? {
            var j :| 0 <= j < |keys[1..]| && IsQuitKey(keys[1..][j]);
            assert keys[j + 1] == keys[1..][j];
          }
        }
        o
      case other => other
  }

  /** The key presses that type `text`. */
  function Typing(text: string): (keys: seq<KeyEvent>)
    ensures |keys| == |text|
    ensures forall i :: 0 <= i < |text| ==> keys[i] == KeyEvent(Char(text[i]), {})
  {
    if text == [] then [] else [KeyEvent(Char(text[0]), {})] + Typing(text[1..])
  }

  // ---------------------------------------------------------------------------
  // Properties
  // ---------------------------------------------------------------------------

  /** The corrected step never panics and keeps the session invariant. */
  lemma StepCorrectedKeepsConsistent(s: State, k: KeyEvent, pathExists: string -> bool)
    requires Consistent(s)
    ensures !StepCorrected(s, k, pathExists).Panicked?
    ensures StepCorrected(s, k, pathExists).Running? ==> Consistent(StepCorrected(s, k, pathExists).state)
  {
    var o := StepCorrected(s, k, pathExists);
    if s.mode != Normal {
      var t := HandleInputMode(s, k, PointOf(s.mode), pathExists);
      assert o == Running(t);
      if k.code == Enter {
        assert Valid(t.list);
      } else {
        assert t.list == s.list;
      }
    } else if IsQuitKey(k) || k.code == Char('a') || k.code == Char('b') {
    } else if k.code == Char('d') {
      DeleteKeepsValid(s.list);
    } else if IsUpKey(k) {
      assert o == Running(s.(list := MoveUp(s.list)));
    } else if IsDownKey(k) {
      assert o == Running(s.(list := MoveDown(s.list)));
    }
  }

  /** The loop from a consistent state never panics, and if it is still running the state is consistent. */
  lemma {:induction false} RunKeepsConsistent(s: State, keys: seq<KeyEvent>, pathExists: string -> bool)
    requires Consistent(s)
    ensures !Run(s, keys, pathExists).Panicked?
    ensures Run(s, keys, pathExists).Running? ==> Consistent(Run(s, keys, pathExists).state)
    decreases |keys|
  {
    if keys != [] {
      StepCorrectedKeepsConsistent(s, keys[0], pathExists);
      var o := StepCorrected(s, keys[0], pathExists);
      if o.Running? {
        RunKeepsConsistent(o.state, keys[1..], pathExists);
      }
    }
  }

  /** As written, the code keeps only the weaker invariant, but keeps it on every step that does not panic. */
  lemma StepKeepsTolerated(s: State, k: KeyEvent, pathExists: string -> bool)
    requires Tolerated(s.list)
    ensures Step(s, k, pathExists).Running? ==> Tolerated(Step(s, k, pathExists).state.list)
  {
    AsWrittenKeepsTolerated(s.list, Trim(s.input), PointOf(if s.mode == Normal then InsertAfter else s.mode));
  }

  /** With an empty initial list, Up then `d` panics in `Vec::remove`. */
  lemma UpThenDeleteOnEmptyListPanics(pathExists: string -> bool)
    ensures var s0 := InitialState([]);
            var o1 := Step(s0, KeyEvent(Up, {}), pathExists);
            o1.Running? && o1.state.list == Listing([], Some(0))
            && Step(o1.state, KeyEvent(Char('d'), {}), pathExists) == Panicked(RemoveOutOfBounds)
  {
  }

  /** With an empty initial list, Up then Down underflows `paths.len() - 1`. */
  lemma UpThenDownOnEmptyListUnderflows(pathExists: string -> bool)
    ensures var s0 := InitialState([]);
            var o1 := Step(s0, KeyEvent(Up, {}), pathExists);
            o1.Running? && Step(o1.state, KeyEvent(Down, {}), pathExists) == Panicked(SubtractOverflow)
  {
  }

  /** In Normal mode the quit keys end the loop with the entries unchanged; unbound keys change nothing. */
  lemma NormalModeQuitAndIgnore(s: State, k: KeyEvent, pathExists: string -> bool)
    requires s.mode == Normal
    ensures IsQuitKey(k) ==> StepCorrected(s, k, pathExists) == Quit(s.list.paths)
    ensures !IsBoundInNormalMode(k) ==> StepCorrected(s, k, pathExists) == Running(s)
  {
  }

  /**
   * `a` and `b`, with any modifiers, enter the insert modes with an empty
   * buffer, touching neither entries nor selection.
   */
  lemma EnterInsertMode(s: State, m: set<Modifier>, pathExists: string -> bool)
    requires s.mode == Normal
    ensures StepCorrected(s, KeyEvent(Char('a'), m), pathExists) == Running(State(s.list, InsertAfter, []))
    ensures StepCorrected(s, KeyEvent(Char('b'), m), pathExists) == Running(State(s.list, InsertBefore, []))
  {
  }

  /** Quitting is only possible while navigating: an insert mode must be committed or cancelled first. */
  lemma NoQuitWhileComposing(s: State, k: KeyEvent, pathExists: string -> bool)
    requires s.mode != Normal
    ensures StepCorrected(s, k, pathExists).Running?
  {
  }

  /** Backspace right after typing a character restores the buffer. */
  lemma BackspaceUndoesChar(s: State, c: char, m: set<Modifier>, pathExists: string -> bool)
    requires s.mode != Normal
    ensures var o := Step(s, KeyEvent(Char(c), m), pathExists);
            o.Running? && Step(o.state, KeyEvent(Backspace, {}), pathExists) == Running(s)
  {
    var t := s.(input := s.input + [c]);
    assert t.input[..|t.input| - 1] == s.input;
  }

  /** The loop takes one step and goes on with the remaining keys. */
  lemma RunCons(s: State, k: KeyEvent, rest: seq<KeyEvent>, pathExists: string -> bool)
    requires StepCorrected(s, k, pathExists).Running?
    ensures Run(s, [k] + rest, pathExists) == Run(StepCorrected(s, k, pathExists).state, rest, pathExists)
  {
    assert ([k] + rest)[0] == k;
    assert ([k] + rest)[1..] == rest;
  }

  /** A character key in an insert mode appends the character and does nothing else. */
  lemma StepTypesChar(s: State, c: char, pathExists: string -> bool)
    requires s.mode != Normal
    ensures StepCorrected(s, KeyEvent(Char(c), {}), pathExists) == Running(s.(input := s.input + [c]))
  {
  }

  /** Enter in an insert mode commits the trimmed buffer on that mode's side when the probe accepts it. */
  lemma StepCommits(s: State, pathExists: string -> bool)
    requires s.mode != Normal
    ensures var entry := Trim(s.input);
            StepCorrected(s, KeyEvent(Enter, {}), pathExists)
            == Running(State(if pathExists(entry) then Insert(s.list, entry, PointOf(s.mode)) else s.list, Normal, []))
  {
  }

  /** A lone Enter in an insert mode ends the keys on the committed state. */
  lemma RunCommits(s: State, pathExists: string -> bool)
    requires s.mode != Normal
    ensures var entry := Trim(s.input);
            Run(s, [KeyEvent(Enter, {})], pathExists)
            == Running(State(if pathExists(entry) then Insert(s.list, entry, PointOf(s.mode)) else s.list, Normal, []))
  {
    var commit := KeyEvent(Enter, {});
    StepCommits(s, pathExists);
    RunCons(s, commit, [], pathExists);
    assert [commit] + [] == [commit];
  }

  /** Typing text in an insert mode appends it to the buffer and changes nothing else. */
  lemma {:induction false} RunTyping(s: State, text: string, rest: seq<KeyEvent>, pathExists: string -> bool)
    requires s.mode != Normal
    ensures Run(s, Typing(text) + rest, pathExists) == Run(s.(input := s.input + text), rest, pathExists)
    decreases |text|
  {
    if text == [] {
      assert Typing(text) + rest == rest;
      assert s.input + text == s.input;
    } else {
      var k := KeyEvent(Char(text[0]), {});
      var t := s.(input := s.input + [text[0]]);
      calc {
        Run(s, Typing(text) + rest, pathExists);
        { assert Typing(text) + rest == [k] + (Typing(text[1..]) + rest); }
        Run(s, [k] + (Typing(text[1..]) + rest), pathExists);
        { StepTypesChar(s, text[0], pathExists); RunCons(s, k, Typing(text[1..]) + rest, pathExists); }
        Run(t, Typing(text[1..]) + rest, pathExists);
        { RunTyping(t, text[1..], rest, pathExists); }
        Run(t.(input := t.input + text[1..]), rest, pathExists);
        { assert t.input + text[1..] == s.input + text; }
        Run(s.(input := s.input + text), rest, pathExists);
      }
    }
  }

  /** Entering an insert mode, typing, then Esc leaves the session exactly as it was. */
  lemma ComposeThenCancel(s: State, side: char, text: string, pathExists: string -> bool)
    requires Consistent(s) && s.mode == Normal
    requires side == 'a' || side == 'b'
    ensures Run(s, [KeyEvent(Char(side), {})] + Typing(text) + [KeyEvent(Esc, {})], pathExists) == Running(s)
  {
    var enter := KeyEvent(Char(side), {});
    var esc := KeyEvent(Esc, {});
    var composing := State(s.list, if side == 'a' then InsertAfter else InsertBefore, []);
    assert [enter] + Typing(text) + [esc] == [enter] + (Typing(text) + [esc]);
    assert StepCorrected(s, enter, pathExists) == Running(composing);
    RunCons(s, enter, Typing(text) + [esc], pathExists);
    RunTyping(composing, text, [esc], pathExists);
    var typed := composing.(input := text);
    assert StepCorrected(typed, esc, pathExists) == Running(s);
    RunCons(typed, esc, [], pathExists);
    assert [esc] + [] == [esc];
  }

  /**
   * Entering an insert mode, typing, then Enter inserts the trimmed text on
   * that side of the selection when the probe accepts it, and leaves the list
   * alone when it does not; either way the editor is back in Normal mode.
   */
  lemma ComposeThenCommit(s: State, side: char, text: string, pathExists: string -> bool)
    requires s.mode == Normal
    requires side == 'a' || side == 'b'
    ensures var point := if side == 'a' then After else Before;
            var entry := Trim(text);
            Run(s, [KeyEvent(Char(side), {})] + Typing(text) + [KeyEvent(Enter, {})], pathExists)
            == Running(State(if pathExists(entry) then Insert(s.list, entry, point) else s.list, Normal, []))
  {
    var typed := State(s.list, if side == 'a' then InsertAfter else InsertBefore, text);
    RunComposes(s, side, text, KeyEvent(Enter, {}), pathExists);
    RunCommits(typed, pathExists);
  }

  /** Entering an insert mode and typing leaves the text in the buffer before the last key. */
  lemma RunComposes(s: State, side: char, text: string, last: KeyEvent, pathExists: string -> bool)
    requires s.mode == Normal
    requires side == 'a' || side == 'b'
    ensures Run(s, [KeyEvent(Char(side), {})] + Typing(text) + [last], pathExists)
            == Run(State(s.list, if side == 'a' then InsertAfter else InsertBefore, text), [last], pathExists)
  {
    var enter := KeyEvent(Char(side), {});
    var composing := State(s.list, if side == 'a' then InsertAfter else InsertBefore, []);
    assert [enter] + Typing(text) + [last] == [enter] + (Typing(text) + [last]);
    EnterInsertMode(s, {}, pathExists);
    RunCons(s, enter, Typing(text) + [last], pathExists);
    RunTyping(composing, text, [last], pathExists);
    assert composing.(input := composing.input + text) == composing.(input := text);
  }
}
