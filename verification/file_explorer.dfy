/**
  `FileSystemContextMenu`'s file-explorer lookup in pyqode: the explorer
  name derived from the output of `xdg-mime query default inode/directory`,
  the command used to reveal a file, and the class-level cache of both.
  The platform and the `xdg-mime` output are parameters; a call that
  exits with a non-zero status is passed as empty output, as the source
  turns `CalledProcessError` into "".
 */
module FileExplorer {
  import opened Strings
  import opened Results

  /** What `platform.system()` reports; `OtherSystem` is any other answer. */
  datatype Platform = Linux | Windows | Darwin | OtherSystem

  /** The class attributes `_explorer` and `_command`, both `None` at first. */
  datatype Cache = Cache(explorer: Option<string>, command: Option<string>)

  /** `get_file_explorer_command` on a platform it does not know reaches
      its `return` with `explorer_cmd` never assigned. */
  datatype CommandError = UnboundCommand

  const EmptyCache := Cache(None, None)

  /** The two suffixes `get_linux_file_explorer` removes from a desktop
      entry name. */
  const DesktopSuffix: string := ".desktop"
  const FolderHandler: string := "-folder-handler"

  /** The explorer name in the first line of `xdg-mime` output such as
      "org.gnome.Nautilus.desktop": every ".desktop" and "-folder-handler"
      removed, the last dot-separated piece, lower-cased.  Empty output
      gives the empty name. */
  function LinuxExplorerName(output: string): (r: string)
    ensures output == "" ==> r == ""
    ensures |r| <= |output|
    ensures '.' !in r
    ensures forall i :: 0 <= i < |r| ==> !IsUpper(r[i]) && !IsLineBreak(r[i])
  {
    if output == "" then ""
    else
      var line := FirstLine(output);
      var stripped := RemoveAll(RemoveAll(line, DesktopSuffix), FolderHandler);
      var piece := LastPiece(stripped, '.');
      LastPieceIsSuffix(stripped, '.');
      assert forall c :: c in piece ==> c in line;
      assert forall c :: c in line ==> !IsLineBreak(c);
      assert forall i :: 0 <= i < |piece| ==> !IsLineBreak(piece[i]);
      Lower(piece)
  }

  /** Text in which neither suffix occurs and no line ends. */
  ghost predicate PlainText(p: string)
  {
    && (forall i :: 0 <= i < |p| ==> !IsLineBreak(p[i]))
    && (forall i: nat :: !OccursAt(p, DesktopSuffix, i))
    && (forall i: nat :: !OccursAt(p, FolderHandler, i))
  }

  /** No proper suffix of ".desktop" begins text that starts with '.' or '-'. */
  lemma DesktopNoBorder(y: string)
    requires |y| > 0 && (y[0] == '.' || y[0] == '-')
    ensures forall k :: 0 < k < |DesktopSuffix| && |DesktopSuffix| - k <= |y| ==>
              DesktopSuffix[k..] != y[..|DesktopSuffix| - k]
  {
    assert DesktopSuffix[1..] == "desktop";
    assert '.' !in "desktop" && '-' !in "desktop";
    forall k | 0 < k < |DesktopSuffix| && |DesktopSuffix| - k <= |y|
      ensures DesktopSuffix[k..] != y[..|DesktopSuffix| - k]
    {
      assert DesktopSuffix[k] == DesktopSuffix[1..][k - 1];
      assert DesktopSuffix[k..][0] == DesktopSuffix[k];
      assert y[..|DesktopSuffix| - k][0] == y[0];
    }
  }

  /** No proper suffix of "-folder-handler" is also a prefix of it. */
  lemma FolderHandlerNoBorder()
    ensures forall k :: 0 < k < |FolderHandler| ==> FolderHandler[k..] != FolderHandler[..|FolderHandler| - k]
  {
    assert FolderHandler[1..7] == "folder" && FolderHandler[8..] == "handler";
    assert '-' !in "folder" && '-' !in "handler";
    forall k | 0 < k < |FolderHandler|
      ensures FolderHandler[k..] != FolderHandler[..|FolderHandler| - k]
    {
      if k == 7 {
        assert FolderHandler[k..][1] == 'h';
        assert FolderHandler[..|FolderHandler| - k][1] == 'f';
      } else {
        if k < 7 {
          assert FolderHandler[k] == FolderHandler[1..7][k - 1];
        } else {
          assert FolderHandler[k] == FolderHandler[8..][k - 8];
        }
        assert FolderHandler[k..][0] == FolderHandler[k];
      }
    }
  }

  /** A trailing ".desktop" is removed and nothing before it changes. */
  lemma StripDesktop(p: string)
    requires forall i: nat :: !OccursAt(p, DesktopSuffix, i)
    ensures RemoveAll(p + DesktopSuffix, DesktopSuffix) == p
  {
    DesktopNoBorder(DesktopSuffix);
    NoStraddle(p, DesktopSuffix, DesktopSuffix);
    RemoveAllKeepsPrefix(p, DesktopSuffix, DesktopSuffix);
    RemoveAllLeading(DesktopSuffix, "");
    assert DesktopSuffix + "" == DesktopSuffix;
    assert p + "" == p;
  }

  /** A trailing "-folder-handler" is removed and nothing before it changes. */
  lemma StripFolderHandler(p: string)
    requires forall i: nat :: !OccursAt(p, FolderHandler, i)
    ensures RemoveAll(p + FolderHandler, FolderHandler) == p
  {
    FolderHandlerNoBorder();
    NoStraddle(p, FolderHandler, FolderHandler);
    RemoveAllKeepsPrefix(p, FolderHandler, FolderHandler);
    RemoveAllLeading(FolderHandler, "");
    assert FolderHandler + "" == FolderHandler;
    assert p + "" == p;
  }

  /** Appending "-folder-handler" creates no ".desktop". */
  lemma NoDesktopInHandler(p: string)
    requires forall i: nat :: !OccursAt(p, DesktopSuffix, i)
    ensures forall i: nat :: !OccursAt(p + FolderHandler, DesktopSuffix, i)
  {
    DesktopNoBorder(FolderHandler);
    NoStraddle(p, FolderHandler, DesktopSuffix);
    assert '.' !in FolderHandler;
    forall i: nat | |p| <= i && i + |DesktopSuffix| <= |p + FolderHandler|
      ensures !OccursAt(p + FolderHandler, DesktopSuffix, i)
    {
      var c := FolderHandler[i - |p|];
      assert (p + FolderHandler)[i..i + |DesktopSuffix|][0] == c;
      assert c in FolderHandler && c != '.';
      assert DesktopSuffix[0] == '.';
    }
  }

  /** The first line "<p>.desktop" or "<p>-folder-handler.desktop" of the
      output, for plain text `p`, names the last dot-separated piece of `p`,
      lower-cased. */
  lemma EntryName(p: string, handler: bool, rest: string)
    requires PlainText(p)
    requires rest == "" || IsLineBreak(rest[0])
    ensures var line := if handler then p + FolderHandler + DesktopSuffix else p + DesktopSuffix;
            LinuxExplorerName(line + rest) == Lower(LastPiece(p, '.'))
  {
    var line := if handler then p + FolderHandler + DesktopSuffix else p + DesktopSuffix;
    assert forall i :: 0 <= i < |DesktopSuffix| ==> !IsLineBreak(DesktopSuffix[i]);
    assert forall i :: 0 <= i < |FolderHandler| ==> !IsLineBreak(FolderHandler[i]);
    if rest == "" {
      FirstLineWhole(line);
      assert line + rest == line;
    } else {
      FirstLineOfLine(line, rest);
    }
    if handler {
      NoDesktopInHandler(p);
      StripDesktop(p + FolderHandler);
      StripFolderHandler(p);
    } else {
      StripDesktop(p);
      RemoveAllAbsent(p, FolderHandler);
    }
  }

  /** A desktop entry "<vendor>.<name>.desktop", such as
      "org.gnome.Nautilus.desktop", names the explorer `name`, lower-cased. */
  lemma DesktopEntryName(vendor: string, name: string, rest: string)
    requires PlainText(vendor + "." + name) && '.' !in name
    requires rest == "" || IsLineBreak(rest[0])
    ensures LinuxExplorerName(vendor + "." + name + DesktopSuffix + rest) == Lower(name)
  {
    EntryName(vendor + "." + name, false, rest);
    LastPieceAfter(vendor, name, '.');
  }

  /** A folder-handler entry "<vendor>.<name>-folder-handler.desktop"
      names the explorer `name`, lower-cased. */
  lemma FolderHandlerEntryName(vendor: string, name: string, rest: string)
    requires PlainText(vendor + "." + name) && '.' !in name
    requires rest == "" || IsLineBreak(rest[0])
    ensures LinuxExplorerName(vendor + "." + name + FolderHandler + DesktopSuffix + rest) == Lower(name)
  {
    EntryName(vendor + "." + name, true, rest);
    LastPieceAfter(vendor, name, '.');
  }

  /** An entry without a vendor prefix, "<name>.desktop" or
      "<name>-folder-handler.desktop" such as
      "nautilus-folder-handler.desktop", names `name`, lower-cased. */
  lemma BareEntryName(name: string, handler: bool, rest: string)
    requires PlainText(name) && '.' !in name
    requires rest == "" || IsLineBreak(rest[0])
    ensures LinuxExplorerName((if handler then name + FolderHandler + DesktopSuffix else name + DesktopSuffix) + rest) == Lower(name)
  {
    EntryName(name, handler, rest);
    LastPieceIsSuffix(name, '.');
  }

  /** `get_linux_file_explorer`: the cached name when there is one;
      otherwise the name derived from the output, cached only when the
      output was not empty. */
  function GetLinuxFileExplorer(c: Cache, output: string): (r: (string, Cache))
    ensures c.explorer.Some? ==> r == (c.explorer.value, c)
    ensures c.explorer.None? && output == "" ==> r == ("", c)
    ensures c.explorer.None? && output != "" ==>
              r.1 == c.(explorer := Some(r.0)) && r.0 == LinuxExplorerName(output)
    ensures r.1.command == c.command
  {
    if c.explorer.Some? then (c.explorer.value, c)
    else if output == "" then ("", c)
    else
      var explorer := LinuxExplorerName(output);
      (explorer, c.(explorer := Some(explorer)))
  }

  /** Once a name is cached, later calls return it whatever `xdg-mime`
      would print. */
  lemma LinuxExplorerCached(c: Cache, first: string, later: string)
    requires first != "" || c.explorer.Some?
    ensures var (name, c1) := GetLinuxFileExplorer(c, first);
            GetLinuxFileExplorer(c1, later) == (name, c1)
  {
  }

  /** The program name of a command: its first space-separated token,
      reduced to the part after the last "/" when it is an absolute path. */
  function ProgramName(command: string): (r: string)
    ensures ' ' !in r
    ensures |r| <= |command|
    ensures var pgm := Split(command, ' ')[0];
            |pgm| > 0 && pgm[0] == '/' ==>
              && '/' !in r && |r| < |pgm|
              && r == pgm[|pgm| - |r|..] && pgm[|pgm| - |r| - 1] == '/'
    ensures !(|Split(command, ' ')[0]| > 0 && Split(command, ' ')[0][0] == '/') ==> r == Split(command, ' ')[0]
  {
    var pgm := Split(command, ' ')[0];
    SplitFirstIsPrefix(command, ' ');
    if |pgm| > 0 && pgm[0] == '/' then
      LastPieceIsSuffix(pgm, '/');
      assert forall c :: c in LastPiece(pgm, '/') ==> c in pgm;
      LastPiece(pgm, '/')
    else pgm
  }

  /** `set_file_explorer_command(command)`: caches the command and its
      program name. */
  function SetFileExplorerCommand(c: Cache, command: string): (r: Cache)
    ensures r.command == Some(command)
    ensures r.explorer == Some(ProgramName(command))
  {
    Cache(Some(ProgramName(command)), Some(command))
  }

  /** The command template for a Linux explorer: Nautilus and Dolphin are
      asked to select the file, any other explorer gets the path alone. */
  function LinuxCommand(explorer: string): (r: string)
    ensures explorer in {"nautilus", "dolphin"} ==> r == explorer + " --select %s"
    ensures explorer !in {"nautilus", "dolphin"} ==> r == explorer + " %s"
  {
    if explorer in {"nautilus", "dolphin"} then explorer + " --select %s" else explorer + " %s"
  }

  /** `get_file_explorer_command`: the cached command, or the platform's
      command, which is then cached.  On Linux the explorer lookup may
      cache the explorer name too. */
  function GetFileExplorerCommand(c: Cache, system: Platform, output: string): (r: Result<(string, Cache), CommandError>)
    ensures c.command.Some? ==> r == Ok((c.command.value, c))
    ensures c.command.None? ==> (r.Err? <==> system.OtherSystem?)
    ensures r.Ok? ==> r.value.1.command == Some(r.value.0)
    ensures c.command.None? && system == Windows ==> r == Ok(("explorer /select,%s", c.(command := Some("explorer /select,%s"))))
    ensures c.command.None? && system == Darwin ==> r == Ok(("open -R %s", c.(command := Some("open -R %s"))))
    ensures c.command.None? && system == Linux ==>
              var (explorer, c1) := GetLinuxFileExplorer(c, output);
              r == Ok((LinuxCommand(explorer), c1.(command := Some(LinuxCommand(explorer)))))
  {
    if c.command.Some? then Ok((c.command.value, c))
    else
      match system
      case Linux =>
        var (explorer, c1) := GetLinuxFileExplorer(c, output);
        var cmd := LinuxCommand(explorer);
        Ok((cmd, c1.(command := Some(cmd))))
      case Windows => Ok(("explorer /select,%s", c.(command := Some("explorer /select,%s"))))
      case Darwin => Ok(("open -R %s", c.(command := Some("open -R %s"))))
      case OtherSystem => Err(UnboundCommand)
  }

  lemma CapitalizedNames()
    ensures Capitalize("finder") == "Finder" && Capitalize("explorer") == "Explorer"
  {
    LowerNoUpper("inder");
    LowerNoUpper("xplorer");
  }

  /** `get_file_explorer_name`: "Finder" on macOS, "Explorer" on Windows,
      otherwise the capitalised program name of the explorer command. */
  function GetFileExplorerName(c: Cache, system: Platform, output: string): (r: Result<(string, Cache), CommandError>)
    ensures system == Darwin ==> r == Ok(("Finder", c))
    ensures system == Windows ==> r == Ok(("Explorer", c))
    ensures !system.Darwin? && !system.Windows? ==>
              (r.Ok? <==> GetFileExplorerCommand(c, system, output).Ok?)
    ensures r.Ok? && !system.Darwin? && !system.Windows? ==>
              r.value.0 == Capitalize(ProgramName(GetFileExplorerCommand(c, system, output).value.0))
  {
    match system
    case Darwin => CapitalizedNames(); Ok((Capitalize("finder"), c))
    case Windows => CapitalizedNames(); Ok((Capitalize("explorer"), c))
    case _ =>
      match GetFileExplorerCommand(c, system, output)
      case Ok((cmd, c1)) => Ok((Capitalize(ProgramName(cmd)), c1))
      case Err(e) => Err(e)
  }

  /** A command set by the user is what every later lookup returns, on
      every platform, and its program name is the cached explorer. */
  lemma SetThenGet(c: Cache, command: string, system: Platform, output: string)
    ensures GetFileExplorerCommand(SetFileExplorerCommand(c, command), system, output).Ok?
    ensures GetFileExplorerCommand(SetFileExplorerCommand(c, command), system, output).value.0 == command
    ensures GetLinuxFileExplorer(SetFileExplorerCommand(c, command), output).0 == ProgramName(command)
  {
  }

  /** After a user-set command, the explorer name on Linux and other
      Unix systems is that command's capitalised program name. */
  lemma SetThenName(c: Cache, command: string, system: Platform, output: string)
    requires !system.Darwin? && !system.Windows?
    ensures GetFileExplorerName(SetFileExplorerCommand(c, command), system, output)
            == Ok((Capitalize(ProgramName(command)), SetFileExplorerCommand(c, command)))
  {
  }

  /** The command is computed once: a second lookup returns the first
      result and leaves the cache as it is. */
  lemma CommandCached(c: Cache, system: Platform, first: string, later: string)
    requires GetFileExplorerCommand(c, system, first).Ok?
    ensures var (cmd, c1) := GetFileExplorerCommand(c, system, first).value;
            GetFileExplorerCommand(c1, system, later) == Ok((cmd, c1))
  {
  }
}
