/**
 * The running session: the state `run_app` keeps in local variables and
 * mutates in place (the entry vector, the list selection, the input mode and
 * the input buffer), as an object whose methods are proved to perform the
 * transitions of the InputMachine model, and the event loop over it.
 */
module Session {
  import opened Wrappers
  import opened Strings
  import opened ListModel
  import opened InputMachine
  import ShellCommand

  class Editor {
    var paths: seq<string>
    var selected: Option<nat>
    var mode: InputMode
    var input: string

    /** The value the object stands for. */
    function Snapshot(): (s: State)
      reads this
    {
      State(Listing(paths, selected), mode, input)
    }

    ghost predicate Valid()
      reads this
    {
      Consistent(Snapshot())
    }

    /** The session at start-up: the first entry is selected if there is one. */
    constructor (initial: seq<string>)
      ensures Snapshot() == InitialState(initial) && Valid()
    {
      paths := initial;
      selected := None;
      if |initial| > 0 {
        selected := Some(0);
      }
      mode := Normal;
      input := [];
    }

    /** Inserts `entry` before or after the selection and selects it. */
    method InsertPathAtSelection(entry: string, point: InsertionPoint)
      modifies this
      ensures Listing(paths, selected) == Insert(old(Listing(paths, selected)), entry, point)
      ensures mode == old(mode) && input == old(input)
    {
      var selectedIndex := if selected.Some? then selected.value else 0;
      var insertIndex := if point == Before then selectedIndex else selectedIndex + 1;
      if insertIndex > |paths| {
        insertIndex := |paths|;
      }
      paths := paths[..insertIndex] + [entry] + paths[insertIndex..];
      selected := Some(insertIndex);
    }

    /** Removes the selected entry; `Vec::remove` demands that the selection index an entry. */
    method DeleteSelected()
      requires selected.Some? ==> selected.value < |paths|
      modifies this
      ensures Delete(old(Listing(paths, selected))) == Ok(Listing(paths, selected))
      ensures mode == old(mode) && input == old(input)
    {
      if selected.Some? {
        var i := selected.value;
        paths := paths[..i] + paths[i + 1..];
        var newIndex := if i >= |paths| then (if |paths| == 0 then 0 else |paths| - 1) else i;
        if |paths| == 0 {
          selected := None;
        } else {
          selected := Some(newIndex);
        }
      }
    }

    /** Moves the selection one entry up, stopping at the first; nothing happens on an empty list. */
    method MoveUp()
      modifies this
      ensures Listing(paths, selected) == ListModel.MoveUp(old(Listing(paths, selected)))
      ensures mode == old(mode) && input == old(input)
    {
      if |paths| > 0 {
        match selected
        case Some(i) =>
          selected := Some(if i > 0 then i - 1 else 0);
        case None =>
          selected := Some(0);
      }
    }

    /** Moves the selection one entry down, stopping at the last; nothing happens on an empty list. */
    method MoveDown()
      modifies this
      ensures Listing(paths, selected) == ListModel.MoveDown(old(Listing(paths, selected)))
      ensures mode == old(mode) && input == old(input)
    {
      if |paths| > 0 {
        match selected
        case Some(i) =>
          selected := Some(if i < |paths| - 1 then i + 1 else |paths| - 1);
        case None =>
          selected := Some(0);
      }
    }

    /** A key while composing an entry to insert on side `point`. */
    method HandleInputMode(key: KeyEvent, point: InsertionPoint, pathExists: string -> bool)
      modifies this
      ensures Snapshot() == InputMachine.HandleInputMode(old(Snapshot()), key, point, pathExists)
    {
      match key.code
      case Enter =>
        var entry := Trim(input);
        if pathExists(entry) {
          InsertPathAtSelection(entry, point);
        }
        input := [];
        mode := Normal;
      case Esc =>
        input := [];
        mode := Normal;
      case Char(c) =>
        input := input + [c];
      case Backspace =>
        if |input| > 0 {
          input := input[..|input| - 1];
        }
      case _ =>
    }

    /** One key event of the loop; `quit` is true when the loop ends with the current entries. */
    method HandleKey(key: KeyEvent, pathExists: string -> bool) returns (quit: bool)
      requires Valid()
      modifies this
      ensures Valid()
      ensures StepCorrected(old(Snapshot()), key, pathExists) == if quit then Quit(paths) else Running(Snapshot())
    {
      quit := false;
      match mode {
      case Normal =>
        if IsQuitKey(key) {
          quit := true;
        } else if key.code == Char('a') {
          mode := InsertAfter;
          input := [];
        } else if key.code == Char('b') {
          mode := InsertBefore;
          input := [];
        } else if key.code == Char('d') {
          DeleteSelected();
        } else if IsUpKey(key) {
          MoveUp();
        } else if IsDownKey(key) {
          MoveDown();
        }
      case InsertAfter =>
        HandleInputMode(key, After, pathExists);
      case InsertBefore =>
        HandleInputMode(key, Before, pathExists);
      }
      StepCorrectedKeepsConsistent(old(Snapshot()), key, pathExists);
    }
  }

  /**
   * The event loop of `run_app` fed with a finite key sequence: the entries
   * when a quit key arrives, or None when the keys run out first.
   */
  method RunApp(initial: seq<string>, keys: seq<KeyEvent>, pathExists: string -> bool)
    returns (result: Option<seq<string>>)
    ensures result.Some? <==> Run(InitialState(initial), keys, pathExists).Quit?
    ensures result.Some? ==> result.value == Run(InitialState(initial), keys, pathExists).paths
  {
    var editor := new Editor(initial);
    var i := 0;
    while i < |keys|
      invariant 0 <= i <= |keys|
      invariant editor.Valid()
      invariant Run(InitialState(initial), keys, pathExists) == Run(editor.Snapshot(), keys[i..], pathExists)
    {
      assert keys[i..] == [keys[i]] + keys[i + 1..];
      var quit := editor.HandleKey(keys[i], pathExists);
      if quit {
        return Some(editor.paths);
      }
      i := i + 1;
    }
    result := None;
  }

  /**
   * Quitting at once hands back the entries read from PATH unchanged, and the
   * statement printed for them is the shell's prefix followed by the unchanged
   * text of PATH, closed by a double quote in the POSIX form.
   */
  lemma QuitAtOnceReappliesPath(pathVar: string, shellVar: Option<string>, pathExists: string -> bool)
    ensures var entries := ShellCommand.PathEntries(Some(pathVar));
            Run(InitialState(entries), [KeyEvent(Char('q'), {})], pathExists) == Quit(entries)
            && ShellCommand.GenerateShellCommand(entries, shellVar)
               == Ok(if ShellCommand.DetectShell(shellVar) == Some("fish") then ShellCommand.FishPrefix + pathVar
                     else ShellCommand.PosixPrefix + pathVar + "\"")
  {
    var entries := ShellCommand.PathEntries(Some(pathVar));
    ShellCommand.UnchangedPathRoundTrip(pathVar);
    ShellCommand.CommandOfJoin(entries, shellVar, pathVar);
  }
}
