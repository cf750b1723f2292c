/**
 * The two ends of a session: reading the entries from PATH, and the command
 * generator, which joins the final entries with the platform's path-list
 * separator and formats the shell statement that sets PATH to them, in fish
 * syntax when the user's shell is fish and in POSIX syntax otherwise.
 *
 * The environment reads become parameters: the values of PATH and SHELL are
 * `pathVar` and `shellVar` (None when unset or not valid Unicode, where
 * `env::var` fails). The platform is Unix: the
 * separator is ':' and path components are separated by '/'.
 */
module ShellCommand {
  import opened Wrappers
  import opened Strings

  /** The Unix path-list separator. */
  const PathSeparator: char := ':'

  /** `env::join_paths` fails when an entry holds the separator. */
  datatype JoinPathsError = JoinPathsError

  /** Some entry contains the separator and so cannot be joined unambiguously. */
  predicate HasSeparator(paths: seq<string>) {
    exists i :: 0 <= i < |paths| && PathSeparator in paths[i]
  }

  /** `env::join_paths` on Unix: the entries separated by ':', or an error if an entry holds ':'. */
  function JoinPaths(paths: seq<string>): (r: Result<string, JoinPathsError>)
    ensures r.Err? <==> HasSeparator(paths)
  {
    if HasSeparator(paths) then Err(JoinPathsError)
    else Ok(Join(paths, PathSeparator))
  }

  /**
   * `get_path_entries` on Unix: the value of PATH split at every ':' (an
   * empty value is one empty entry), or no entries when PATH is unset or not valid Unicode.
   */
  function PathEntries(pathVar: Option<string>): (r: seq<string>)
    ensures pathVar.None? ==> r == []
    ensures pathVar.Some? ==> |r| >= 1 && !HasSeparator(r)
  {
    match pathVar
    case None => []
    case Some(v) =>
      SplitPartsLackSeparator(v, PathSeparator);
      Split(v, PathSeparator)
  }

  /** An ordinary component: neither empty nor "." (both of which `Path::components` skips). */
  predicate IsNormalComponent(c: string) {
    c != [] && c != "."
  }

  /** The components of a split path that `Path::components` keeps, in order. */
  function NormalComponents(parts: seq<string>): (r: seq<string>)
    ensures |r| <= |parts|
    ensures forall i :: 0 <= i < |r| ==> IsNormalComponent(r[i]) && r[i] in parts
  {
    if parts == [] then []
    else
      var init := NormalComponents(parts[..|parts| - 1]);
      if IsNormalComponent(parts[|parts| - 1]) then init + [parts[|parts| - 1]] else init
  }

  /**
   * `Path::file_name` on Unix: the last component of the path, unless the
   * path has none (empty, "/", ".") or its last component is "..".
   */
  function FileName(path: string): (r: Option<string>)
    ensures r.Some? ==> r.value != [] && r.value != "." && r.value != ".." && '/' !in r.value
  {
    var parts := Split(path, '/');
    var comps := NormalComponents(parts);
    SplitPartsLackSeparator(path, '/');
    if comps == [] || comps[|comps| - 1] == ".." then None
    else Some(comps[|comps| - 1])
  }

  /** `detect_shell`: the final component of the SHELL variable, if it is set and has one. */
  function DetectShell(shellVar: Option<string>): (r: Option<string>)
    ensures shellVar.None? ==> r.None?
    ensures r.Some? ==> '/' !in r.value && r.value != []
  {
    match shellVar
    case None => None
    case Some(path) => FileName(path)
  }

  /** The fish statement prefix. */
  const FishPrefix: string := "set -x PATH "

  /** The POSIX statement prefix; the value is closed by a double quote. */
  const PosixPrefix: string := "export PATH=\""

  /**
   * `generate_shell_command`: the statement that sets PATH to the joined
   * entries, or the join error on which the program panics.
   */
  function GenerateShellCommand(paths: seq<string>, shellVar: Option<string>): (r: Result<string, JoinPathsError>)
    ensures r.Err? <==> HasSeparator(paths)
  {
    match JoinPaths(paths)
    case Err(e) => Err(e)
    case Ok(joined) =>
      Ok(if DetectShell(shellVar) == Some("fish") then FishPrefix + joined else PosixPrefix + joined + "\"")
  }

  /**
   * The entries a statement carries, read literally: the text after the fish
   * prefix, or between the POSIX prefix and the closing quote, split at ':'.
   * None if the text is neither statement form. No shell word splitting,
   * quoting or expansion is applied to the text.
   */
  function LiteralEntries(command: string): (r: Option<seq<string>>)
  {
    if |FishPrefix| <= |command| && command[..|FishPrefix|] == FishPrefix then
      Some(Split(command[|FishPrefix|..], PathSeparator))
    else if |PosixPrefix| + 1 <= |command| && command[..|PosixPrefix|] == PosixPrefix && command[|command| - 1] == '"' then
      Some(Split(command[|PosixPrefix|..|command| - 1], PathSeparator))
    else None
  }

  // ---------------------------------------------------------------------------
  // Properties
  // ---------------------------------------------------------------------------

  /** The fish form is chosen exactly when the shell's name is "fish". */
  lemma CommandForm(paths: seq<string>, shellVar: Option<string>)
    requires !HasSeparator(paths)
    ensures var command := GenerateShellCommand(paths, shellVar).value;
            (|FishPrefix| <= |command| && command[..|FishPrefix|] == FishPrefix) <==> DetectShell(shellVar) == Some("fish")
  {
    var command := GenerateShellCommand(paths, shellVar).value;
    var joined := JoinPaths(paths).value;
    if DetectShell(shellVar) != Some("fish") {
      assert command[0] == 'e';
    } else {
      assert command[..|FishPrefix|] == FishPrefix;
    }
  }

  /**
   * The statement carries exactly the edited list: read literally, it gives
   * back the entries in order (an empty list reads back as one empty entry).
   */
  lemma CommandCarriesEntries(paths: seq<string>, shellVar: Option<string>)
    requires !HasSeparator(paths)
    ensures LiteralEntries(GenerateShellCommand(paths, shellVar).value) == Some(if paths == [] then [[]] else paths)
  {
    var command := GenerateShellCommand(paths, shellVar).value;
    var joined := JoinPaths(paths).value;
    JoinPathsSplitsBack(paths);
    if DetectShell(shellVar) == Some("fish") {
      assert command == FishPrefix + joined;
      assert command[..|FishPrefix|] == FishPrefix;
      assert command[|FishPrefix|..] == joined;
    } else {
      assert command == PosixPrefix + joined + "\"";
      assert command[0] == 'e';
      assert command[..|FishPrefix|] != FishPrefix by {
        assert command[..|FishPrefix|][0] == 'e';
      }
      assert command[..|PosixPrefix|] == PosixPrefix;
      assert command[|PosixPrefix|..|command| - 1] == joined;
    }
  }

  /** A join that succeeds splits back into its entries (an empty list joins to the empty string). */
  lemma JoinPathsSplitsBack(paths: seq<string>)
    requires !HasSeparator(paths)
    ensures paths != [] ==> Split(JoinPaths(paths).value, PathSeparator) == paths
    ensures paths == [] ==> JoinPaths(paths) == Ok([])
  {
    if paths != [] {
      SplitJoin(paths, PathSeparator);
    }
  }

  /** The entries of a PATH value split back into the value they were split from. */
  lemma UnchangedPathRoundTrip(pathVar: string)
    ensures JoinPaths(PathEntries(Some(pathVar))) == Ok(pathVar)
  {
    JoinSplit(pathVar, PathSeparator);
  }

  /** Reading back a joined PATH gives the entries it was joined from. */
  lemma PathEntriesOfJoin(paths: seq<string>)
    requires !HasSeparator(paths) && paths != []
    ensures PathEntries(Some(JoinPaths(paths).value)) == paths
  {
    JoinPathsSplitsBack(paths);
  }

  /** Components after the last '/' are the file name: "/bin/bash" names "bash". */
  lemma FileNameIsLastComponent(dir: string, name: string)
    requires '/' !in name && name != [] && name != "." && name != ".."
    ensures FileName(dir + "/" + name) == Some(name)
    ensures FileName(name) == Some(name)
  {
    var parts := Split(dir + "/" + name, '/');
    LastPart(dir, '/', name);
    assert parts == parts[..|parts| - 1] + [name];
    SplitWithoutSeparator(name);
  }

  /** A name without '/' is a path of one component. */
  lemma SplitWithoutSeparator(name: string)
    requires '/' !in name
    ensures Split(name, '/') == [name]
  {
  }

  /** The shells of the unit test of `detect_shell` (src/main.rs:465-486), and fish. */
  lemma DetectShellExamples()
    ensures DetectShell(Some("/bin/bash")) == Some("bash")
    ensures DetectShell(Some("/usr/bin/zsh")) == Some("zsh")
    ensures DetectShell(Some("/usr/bin/fish")) == Some("fish")
    ensures DetectShell(None) == None
  {
    FileNameIsLastComponent("/bin", "bash");
    assert "/bin" + "/" + "bash" == "/bin/bash";
    FileNameIsLastComponent("/usr/bin", "zsh");
    assert "/usr/bin" + "/" + "zsh" == "/usr/bin/zsh";
    FileNameIsLastComponent("/usr/bin", "fish");
    assert "/usr/bin" + "/" + "fish" == "/usr/bin/fish";
  }

  /** The entries of the unit test of `generate_shell_command` (src/main.rs:392-414) join to one ':'-separated string; an entry holding ':' does not join. */
  lemma JoinPathsExamples()
    ensures JoinPaths(["/custom/bin", "/another/bin"]) == Ok("/custom/bin:/another/bin")
    ensures JoinPaths(["/opt/a:b"]) == Err(JoinPathsError)
  {
    var paths := ["/custom/bin", "/another/bin"];
    assert !HasSeparator(paths) by {
      assert PathSeparator !in paths[0];
      assert PathSeparator !in paths[1];
    }
    assert Join(paths, PathSeparator) == "/custom/bin:/another/bin";
    assert PathSeparator in ["/opt/a:b"][0];
  }

  /**
   * The statement for the entries of the unit test of `generate_shell_command`
   * (src/main.rs:392-414): the fish form for a fish shell (such as
   * "/usr/bin/fish"), the POSIX form for any other (such as "/bin/bash", or
   * no SHELL at all); an entry holding ':' fails.
   */
  lemma GenerateShellCommandForms(shellVar: Option<string>)
    ensures var paths := ["/custom/bin", "/another/bin"];
            && (DetectShell(shellVar) == Some("fish") ==>
                  GenerateShellCommand(paths, shellVar) == Ok("set -x PATH " + "/custom/bin:/another/bin"))
            && (DetectShell(shellVar) != Some("fish") ==>
                  GenerateShellCommand(paths, shellVar) == Ok("export PATH=\"" + "/custom/bin:/another/bin" + "\""))
    ensures GenerateShellCommand(["/opt/a:b"], shellVar) == Err(JoinPathsError)
  {
    JoinPathsExamples();
    CommandOfJoin(["/custom/bin", "/another/bin"], shellVar, "/custom/bin:/another/bin");
  }

  /** The statement is the chosen prefix around the joined entries. */
  lemma CommandOfJoin(paths: seq<string>, shellVar: Option<string>, joined: string)
    requires JoinPaths(paths) == Ok(joined)
    ensures DetectShell(shellVar) == Some("fish") ==> GenerateShellCommand(paths, shellVar) == Ok(FishPrefix + joined)
    ensures DetectShell(shellVar) != Some("fish") ==> GenerateShellCommand(paths, shellVar) == Ok(PosixPrefix + joined + "\"")
  {
  }
}
