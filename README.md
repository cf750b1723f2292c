# pathctl, modelled in Dafny

pathctl is a terminal editor for the `PATH` environment variable. It reads
the entries of `PATH` into an ordered list with a selection cursor. The user
inserts entries before or after the selection (typed in an input mode, trimmed,
and kept only if the path exists), deletes the selected entry and moves the
selection. On quit it prints one shell statement that sets `PATH` to the
edited list: `set -x PATH …` for fish, `export PATH="…"` for every other shell.

The model has two layers:

- **Values** (`ListModel`, `InputMachine`, `ShellCommand`, `Strings`). The
  list with its selection, the three list operations, the input-mode state
  machine as a transition function over keys, the loop as a fold over a finite
  key sequence, and the command generator. Rust panics (`Vec::remove` past the
  end, `usize` subtraction below zero in a debug build) are results
  (`Err(Panic)`, `Outcome.Panicked`), not preconditions.
- **State** (`Session`). The mutable locals of `run_app` (entry vector,
  list selection, input mode, input buffer) are the fields of the class
  `Editor`. Each of its methods is proved to perform the matching transition
  of the value layer. `RunApp` is the event loop over a key sequence, proved
  to end exactly as the fold does.

Environment reads are parameters: the values of `PATH` and `SHELL` (`None`
when unset or not valid Unicode, where `env::var` fails). The filesystem probe `Path::exists` is the function parameter
`pathExists`. The platform is Unix: the list separator is `:`, path
components are separated by `/`.

Files:
- `wrappers.dfy`: `Option` and `Result`.
- `strings.dfy`: trim, split and join.
- `list_model.dfy`: the list and its operations.
- `input_machine.dfy`: the key dispatch.
- `session.dfy`: the editor object and its loop.
- `shell_command.dfy`: reading `PATH`, the shell name and the printed statement.

## Model

| member | source | states |
|---|---|---|
| Strings.Trim | src/main.rs:170 | the trimmed buffer is a slice of the buffer with only Unicode whitespace before and after it, and neither of its ends is whitespace |
| Strings.TrimFixedPoint | src/main.rs:170 | trim leaves a string unchanged exactly when neither end is whitespace (both directions) |
| Strings.TrimIdempotent | src/main.rs:170 | trimming an already trimmed buffer changes nothing |
| Strings.Split | src/main.rs:325 | splitting at the separator gives at least one part (an empty value is one empty entry) |
| Strings.JoinSplit | src/main.rs:325 | joining the parts of a split gives back the original string |
| Strings.SplitJoin | src/main.rs:333 | splitting a join of separator-free parts gives back the parts |
| Strings.LastPart | src/main.rs:358-359 | the text after the last separator is the last part |
| ListModel.Initial | src/main.rs:55-59 | the start-up listing holds the entries, selects entry 0 if there is one and nothing otherwise, and is valid |
| ListModel.InsertIndexDefaults | src/main.rs:210-215 | a missing selection inserts as if entry 0 were selected; a selection at or past the end inserts at the end |
| ListModel.InsertIndex | src/main.rs:210-215 | the insert index is never past the end; on a real selection it is that index (Before) or the next (After); on an empty list with no selection it is 0 |
| ListModel.Insert | src/main.rs:204-218 | the list grows by one, the new entry is at the selected insert index, entries before and after it are unchanged, and the result is valid |
| ListModel.Delete | src/main.rs:90-103 | panics exactly when the selection is past the end; with no selection nothing changes; otherwise exactly the selected entry is removed, the selection stays or clamps to the new last index, or becomes None on an empty list |
| ListModel.MoveUpAsWritten | src/main.rs:105-117 | entries unchanged; no selection becomes 0; 0 stays 0; any other index decreases by one |
| ListModel.MoveDownAsWritten | src/main.rs:118-130 | underflows exactly when there is a selection on an empty list; otherwise entries unchanged and the selection moves down by one, clamped at the last index; no selection becomes 0 |
| ListModel.MoveUp | src/main.rs:105-117 | corrected Up: entries unchanged; no-op on an empty list; on a non-empty list exactly the Up of the code as written; keeps the listing valid |
| ListModel.MoveDown | src/main.rs:118-130 | corrected Down: entries unchanged; no-op on an empty list; on a non-empty list exactly the Down of the code as written, which then cannot underflow; keeps the listing valid |
| ListModel.InsertKeepsOthers | src/main.rs:215-217 | removing the new entry from the grown list gives the original list, in order |
| ListModel.DeleteUndoesInsert | src/main.rs:204-218 | deleting at the selection right after an insert succeeds and gives back the original entries |
| ListModel.InsertAtSelection | src/main.rs:210-217 | on a valid listing the new selection is the old one (Before) or the next (After); into an empty list the entry becomes the single, selected entry |
| ListModel.InsertExample | src/main.rs:417-460 | the unit test's two insertions give the expected lists with selection 1 and then 2 |
| ListModel.DeleteKeepsValid | src/main.rs:90-103 | on a valid listing delete never panics and keeps the listing valid |
| ListModel.DeleteLastRemaining | src/main.rs:98-99 | deleting the only entry leaves an empty list with no selection |
| ListModel.MoveClampsAtEnds | src/main.rs:105-130 | Up at the first entry and Down at the last change nothing |
| ListModel.AsWrittenKeepsTolerated | src/main.rs:90-130 | every operation as written that does not panic keeps the weaker invariant (an empty list may carry selection 0) |
| ListModel.EmptyListUpSelectsMissingEntry | src/main.rs:105-130 | on an empty list Up selects the missing entry 0, after which delete and Down both panic |
| InputMachine.InitialState | src/main.rs:55-61 | the session starts with the start-up listing (entry 0 selected if there is one), navigating, with an empty buffer, in a consistent state |
| InputMachine.HandleInputMode | src/main.rs:160-189 | Enter inserts the trimmed buffer on the given side exactly when the probe accepts it; Enter and Esc clear the buffer and return to Normal; only Enter can change the list; a character is appended; Backspace drops the last character and does nothing on an empty buffer; other keys change nothing |
| InputMachine.NormalKey | src/main.rs:69-133 | the loop ends, with the entries unchanged, exactly on a quit key; `d` deletes and panics exactly when delete does; Up/`k` and Down/`j` perform the moves as written, Down panicking exactly when it underflows; unbound keys change nothing; only `d` can change the entries |
| InputMachine.Step | src/main.rs:68-154 | a key in an insert mode never ends the loop |
| InputMachine.StepCorrected | src/main.rs:105-130 | Up and Down in Normal mode on an empty list change nothing; on every other key and state the step is the one of the code as written |
| InputMachine.Run | src/main.rs:63-157 | the loop over the keys (corrected step) runs on unchanged when no keys remain, and ends with the entries only if one of the keys is a quit key |
| InputMachine.StepCorrectedKeepsConsistent | src/main.rs:68-154 | from a consistent state the corrected step never panics and keeps the state consistent |
| InputMachine.RunKeepsConsistent | src/main.rs:63-157 | the loop over any key sequence from a consistent state never panics and stays consistent |
| InputMachine.StepKeepsTolerated | src/main.rs:68-154 | every non-panicking step as written keeps the weaker invariant |
| InputMachine.UpThenDeleteOnEmptyListPanics | src/main.rs:90-117 | with no entries, Up then `d` panics in `Vec::remove` |
| InputMachine.UpThenDownOnEmptyListUnderflows | src/main.rs:105-124 | with no entries, Up then Down underflows `paths.len() - 1` |
| InputMachine.NormalModeQuitAndIgnore | src/main.rs:71-77 | `q`, Esc or Ctrl-`c` quit with the entries unchanged; unbound keys change nothing |
| InputMachine.EnterInsertMode | src/main.rs:80-89 | `a`/`b`, with any modifiers, enter InsertAfter/InsertBefore with an empty buffer, leaving the list untouched |
| InputMachine.NoQuitWhileComposing | src/main.rs:134-153 | in an insert mode no key ends the loop |
| InputMachine.BackspaceUndoesChar | src/main.rs:181-186 | Backspace right after a typed character restores the state |
| InputMachine.StepTypesChar | src/main.rs:181-183 | a character key in an insert mode only appends it to the buffer |
| InputMachine.StepCommits | src/main.rs:169-176 | Enter inserts the trimmed buffer on the mode's side if the probe accepts it, else leaves the list; then clears and returns to Normal |
| InputMachine.RunTyping | src/main.rs:181-183 | typing a text in an insert mode appends exactly that text to the buffer |
| InputMachine.ComposeThenCancel | src/main.rs:177-180 | `a`/`b`, any text, then Esc leaves the session exactly as it was |
| InputMachine.ComposeThenCommit | src/main.rs:169-176 | `a`/`b`, a text, then Enter inserts the trimmed text on that side when it exists, else leaves the list, back in Normal mode |
| Session.Editor.constructor | src/main.rs:55-61 | the new editor is the initial state of its entries and is valid |
| Session.Editor.InsertPathAtSelection | src/main.rs:204-218 | the entries and selection become those of `Insert`; mode and buffer are unchanged |
| Session.Editor.DeleteSelected | src/main.rs:90-103 | the entries and selection become those of a successful `Delete`; mode and buffer are unchanged |
| Session.Editor.MoveUp | src/main.rs:105-117 | the selection becomes that of the corrected Up; nothing else changes |
| Session.Editor.MoveDown | src/main.rs:118-130 | the selection becomes that of the corrected Down; nothing else changes |
| Session.Editor.HandleInputMode | src/main.rs:160-189 | the new state is the input-mode transition of the old state |
| Session.Editor.HandleKey | src/main.rs:66-154 | keeps the editor valid, and quits with the entries or goes on exactly as the corrected step says |
| Session.RunApp | src/main.rs:54-157 | returns entries exactly when the fold over the keys quits, and then the same entries |
| Session.QuitAtOnceReappliesPath | src/main.rs:317-341 | quitting at once returns the entries read from PATH, and the printed statement is the shell's prefix followed by the unchanged PATH text, closed by `"` in the POSIX form |
| ShellCommand.PathEntries | src/main.rs:317-330 | an unset PATH gives no entries; a set one gives at least one entry and none holds the separator |
| ShellCommand.JoinPaths | src/main.rs:333 | the join fails exactly when some entry contains `:` |
| ShellCommand.JoinPathsSplitsBack | src/main.rs:333 | a successful join splits back into its entries; no entries join to the empty string |
| ShellCommand.UnchangedPathRoundTrip | src/main.rs:324-325 | the entries read from a PATH value join back to that value |
| ShellCommand.PathEntriesOfJoin | src/main.rs:372-390 | reading back a joined PATH gives the entries it was joined from |
| ShellCommand.FileName | src/main.rs:358-359 | a file name is never empty, `.` or `..`, and contains no `/` |
| ShellCommand.FileNameIsLastComponent | src/main.rs:358-359 | the file name of `dir/name`, and of `name` alone, is `name` |
| ShellCommand.DetectShell | src/main.rs:356-363 | no SHELL gives no name; a detected name is non-empty and contains no `/` |
| ShellCommand.DetectShellExamples | src/main.rs:465-486 | `/bin/bash` gives `bash`, `/usr/bin/zsh` gives `zsh`, `/usr/bin/fish` gives `fish` |
| ShellCommand.GenerateShellCommand | src/main.rs:332-341 | command generation fails exactly when an entry contains `:` |
| ShellCommand.CommandOfJoin | src/main.rs:338-341 | the statement is `set -x PATH ` + joined for fish, else `export PATH="` + joined + `"` |
| ShellCommand.CommandForm | src/main.rs:338-341 | the statement has the fish form exactly when the shell's name is `fish` |
| ShellCommand.CommandCarriesEntries | src/main.rs:332-341 | the statement's text, read literally (prefix and closing quote cut off, split at `:`), gives back exactly the edited entries, in order |
| ShellCommand.JoinPathsExamples | src/main.rs:333 | the entries of the unit test of `generate_shell_command` join to `/custom/bin:/another/bin`; an entry holding `:` fails |
| ShellCommand.GenerateShellCommandForms | src/main.rs:392-414 | the unit test's expected statement in the fish and the POSIX form, and the failure on an entry holding `:` |

## Left out

- Terminal setup and teardown: raw mode, alternate screen and mouse capture (src/main.rs:21-52). This is terminal I/O with no logic. The printing of the statement or of the error is also left out.
- The 100 ms event poll and non-key events (src/main.rs:66-67): the loop is a fold over a finite key sequence. When the keys run out before a quit key, `RunApp` returns None, where the program would keep waiting.
- `draw` (src/main.rs:220-315): widget and layout calls into the terminal UI library. `draw` receives the list state mutably (src/main.rs:64, 265); the model takes rendering to leave the selection alone, as the list widget only moves its scroll offset. Both findings below rest on that.
- `get_windows_path_entries` and the Windows join rules (src/main.rs:344-353): the model is Unix only.
- The reads of `PATH` and `SHELL` and the probe `Path::exists` are parameters. The model does not capture what the environment or the filesystem holds.
- OS-string encoding: paths are plain strings, so the lossy conversions `to_string_lossy` and `display` used for printing are not modelled. A `PATH` or `SHELL` value that is not valid Unicode makes `env::var` fail (src/main.rs:324, 357), which the model gives as `None`: no entries, or the POSIX form.
- Release builds: `usize` wrap-around instead of the overflow panic is not modelled. The model follows debug builds.
- ShellCommand.FileName: models Unix `Path::file_name` through the final normal component after splitting at `/`. Other `Path::components` details (such as a leading `//`) are not distinguished.
- Session.Editor.DeleteSelected: requires the selection to index an entry. The out-of-range panic is modelled by `ListModel.Delete`, and the editor only reaches it through the corrected step, which never produces such a selection.
- Session.Editor.HandleKey, Session.Editor.MoveUp, Session.Editor.MoveDown, Session.RunApp, InputMachine.Run: follow the corrected step, in which Up and Down do nothing on an empty list. The code as written is `InputMachine.Step`, which differs only there (see Findings).
- ShellCommand.CommandCarriesEntries, Session.QuitAtOnceReappliesPath: read the statement literally. The statement interpolates the joined value with no quoting or escaping (src/main.rs:339-340). So fish splits an entry holding a space into two words, and a POSIX shell parses or expands `"`, `$`, a backtick or `\` inside the double quotes. What a real shell assigns is not modelled.
- The I/O errors that `?` propagates from drawing, polling and reading events (src/main.rs:64, 66-67) are not modelled; the loop only ends on a quit key or a panic.

The fish statement carries the same `:`-joined value as the POSIX one, after `set -x PATH ` (src/main.rs:339).

## Findings

| source | as written | input that shows it | evidently intended | confidence | as-written member | corrected member |
|---|---|---|---|---|---|---|
| src/main.rs:105-117, src/main.rs:90-92 | Up with no selection selects `Some(0)` even when the list is empty | PATH unset, so no entries; then keys Up, `d`: `Vec::remove(0)` on an empty vector panics | navigation on an empty list does nothing, so the selection stays None | not executed | InputMachine.UpThenDeleteOnEmptyListPanics | InputMachine.StepCorrectedKeepsConsistent |
| src/main.rs:118-124 | Down computes `paths.len() - 1` whenever there is a selection | PATH unset, so no entries; then keys Up, Down: `0 - 1` underflows `usize` (panic in a debug build) | navigation on an empty list does nothing | not executed | InputMachine.UpThenDownOnEmptyListUnderflows | InputMachine.StepCorrectedKeepsConsistent |
