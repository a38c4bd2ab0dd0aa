/**
 * The Linux index builder (src/cross_platform/linux.rs): desktop entries
 * of an application directory become shell-command records, and search
 * roots with `*` are expanded before scanning.
 */
module Linux {
  import opened Base
  import opened Strings
  import opened FileSystem
  import opened Commands
  import opened Apps

  /** The fields of a parsed desktop entry that the scanner reads. */
  datatype DesktopEntry = DesktopEntry(
    name: Option<string>,
    comment: Option<string>,
    exec: Option<string>,
    icon: Option<string>,
    noDisplay: bool,
    hidden: bool)

  /**
   * `DesktopEntry::from_str` over a file's path and text: the entry, or
   * none when the text does not parse. The desktop-entry format itself is
   * not modelled.
   */
  type EntryParser = (string, string) -> Option<DesktopEntry>

  /** Expands a search root with wildcards into the matching paths, in the order the expansion yields them. */
  type GlobExpander = string -> seq<string>

  // -------------------------------------------------------------- Exec

  /** An Exec token standing for a field code such as `%U` or `%f`. */
  predicate IsFieldCode(t: string) {
    |t| > 0 && t[0] == '%'
  }

  /** The tokens that are not field codes, in order. */
  function DropFieldCodes(ts: seq<string>): (r: seq<string>)
    ensures |r| <= |ts|
    ensures forall k :: 0 <= k < |r| ==> !IsFieldCode(r[k]) && r[k] in ts
    ensures forall t :: t in ts && !IsFieldCode(t) ==> t in r
    ensures r == [] <==> forall k :: 0 <= k < |ts| ==> IsFieldCode(ts[k])
  {
    if |ts| == 0 then []
    else if IsFieldCode(ts[0]) then DropFieldCodes(ts[1..])
    else [ts[0]] + DropFieldCodes(ts[1..])
  }

  /** The first token kept is the first token of the line that is not a field code. */
  lemma {:induction false} DropFieldCodesFirst(ts: seq<string>)
    requires DropFieldCodes(ts) != []
    ensures exists k ::
              && 0 <= k < |ts| && DropFieldCodes(ts)[0] == ts[k] && !IsFieldCode(ts[k])
              && forall j :: 0 <= j < k ==> IsFieldCode(ts[j])
    decreases |ts|
  {
    if IsFieldCode(ts[0]) {
      DropFieldCodesFirst(ts[1..]);
      var k :| && 0 <= k < |ts[1..]| && DropFieldCodes(ts[1..])[0] == ts[1..][k] && !IsFieldCode(ts[1..][k])
               && forall j :: 0 <= j < k ==> IsFieldCode(ts[1..][j]);
      assert forall j :: 0 <= j < k + 1 ==> IsFieldCode(ts[j]) by {
        forall j | 0 < j < k + 1 ensures IsFieldCode(ts[j]) {
          assert ts[j] == ts[1..][j - 1];
        }
      }
      assert DropFieldCodes(ts)[0] == ts[k + 1];
    } else {
      assert DropFieldCodes(ts)[0] == ts[0];
    }
  }

  /** Every token that is not a field code is kept as often as it occurs, and no field code is. */
  lemma {:induction false} DropFieldCodesCounts(ts: seq<string>)
    ensures forall t :: multiset(DropFieldCodes(ts))[t] == if IsFieldCode(t) then 0 else multiset(ts)[t]
    decreases |ts|
  {
    if |ts| > 0 {
      DropFieldCodesCounts(ts[1..]);
      assert ts == [ts[0]] + ts[1..];
      assert multiset(ts) == multiset{ts[0]} + multiset(ts[1..]);
    }
  }

  /** Filtering a concatenation filters each part, so the kept tokens stay in line order. */
  lemma {:induction false} DropFieldCodesAppend(a: seq<string>, b: seq<string>)
    ensures DropFieldCodes(a + b) == DropFieldCodes(a) + DropFieldCodes(b)
    decreases |a|
  {
    if |a| > 0 {
      assert (a + b)[0] == a[0];
      assert (a + b)[1..] == a[1..] + b;
      DropFieldCodesAppend(a[1..], b);
    } else {
      assert a + b == b;
    }
  }

  /**
   * The Exec line as command and arguments: the first token left after
   * dropping field codes, and the others joined by single spaces; none when
   * no token is left.
   */
  function ParseExec(exec: string): Option<(string, string)> {
    var parts := DropFieldCodes(SplitWhitespace(exec));
    if |parts| == 0 then None else Some((parts[0], Join(parts[1..], " ")))
  }

  /** There is no command exactly when every Exec token is a field code (a blank line included). */
  lemma ParseExecNone(exec: string)
    ensures ParseExec(exec).None? <==> forall t :: t in SplitWhitespace(exec) ==> IsFieldCode(t)
  {
    var ts := SplitWhitespace(exec);
    forall t | t in ts ensures exists k :: 0 <= k < |ts| && ts[k] == t {
    }
  }

  /** The command is the first token of the Exec line that is not a field code. */
  lemma ParseExecCommand(exec: string)
    requires ParseExec(exec).Some?
    ensures var ts := SplitWhitespace(exec);
      exists k ::
        && 0 <= k < |ts| && ParseExec(exec).value.0 == ts[k] && !IsFieldCode(ts[k])
        && forall j :: 0 <= j < k ==> IsFieldCode(ts[j])
  {
    DropFieldCodesFirst(SplitWhitespace(exec));
    assert ParseExec(exec).value.0 == DropFieldCodes(SplitWhitespace(exec))[0];
  }

  /**
   * The command is the first non-field-code token, and splitting the
   * arguments again gives the remaining ones: none of them a field code.
   */
  lemma ParseExecTokens(exec: string)
    requires ParseExec(exec).Some?
    ensures var (cmd, args) := ParseExec(exec).value;
      && [cmd] + SplitWhitespace(args) == DropFieldCodes(SplitWhitespace(exec))
      && !IsFieldCode(cmd)
      && forall t :: t in SplitWhitespace(args) ==> !IsFieldCode(t)
  {
    var ts := SplitWhitespace(exec);
    var parts := DropFieldCodes(ts);
    assert ParseExec(exec).value == (parts[0], Join(parts[1..], " "));
    KeptTokensAreWords(ts);
    TailResplit(parts);
    assert [parts[0]] + parts[1..] == parts;
  }

  /** Words without field codes: those after the first, joined by spaces, split back into themselves. */
  lemma TailResplit(parts: seq<string>)
    requires |parts| > 0
    requires forall k :: 0 <= k < |parts| ==> parts[k] != "" && NoWhitespace(parts[k]) && !IsFieldCode(parts[k])
    ensures SplitWhitespace(Join(parts[1..], " ")) == parts[1..]
    ensures forall t :: t in parts[1..] ==> !IsFieldCode(t)
  {
    var rest := parts[1..];
    assert forall k :: 0 <= k < |rest| ==> rest[k] == parts[k + 1];
    SplitWhitespaceOfJoin(rest);
  }

  /** Dropping field codes from whitespace-free words leaves whitespace-free words. */
  lemma KeptTokensAreWords(ts: seq<string>)
    requires forall k :: 0 <= k < |ts| ==> ts[k] != "" && NoWhitespace(ts[k])
    ensures forall k :: 0 <= k < |DropFieldCodes(ts)| ==>
      DropFieldCodes(ts)[k] != "" && NoWhitespace(DropFieldCodes(ts)[k]) && !IsFieldCode(DropFieldCodes(ts)[k])
  {
    var parts := DropFieldCodes(ts);
    forall k | 0 <= k < |parts| ensures parts[k] != "" && NoWhitespace(parts[k]) {
      var j :| 0 <= j < |ts| && ts[j] == parts[k];
    }
  }

  /** A command and its argument text, separated by one space, split back into their tokens. */
  lemma SplitCommandLine(cmd: string, args: string)
    requires cmd != "" && NoWhitespace(cmd)
    ensures SplitWhitespace(cmd + " " + args) == [cmd] + SplitWhitespace(args)
  {
    var line := cmd + " " + args;
    assert line == cmd + (" " + args);
    WordLengthOf(cmd, " " + args);
    assert line[..|cmd|] == cmd;
    assert line[|cmd|..] == " " + args;
    assert (" " + args)[1..] == args;
  }

  // ------------------------------------------------------ desktop entries

  /** The parsed entry of a `.desktop` file of `dir`; none for other names, unreadable files and parse failures. */
  function EntryOf(fs: FileSystem, dir: string, name: string, parse: EntryParser): Option<DesktopEntry> {
    var path := JoinPath(dir, name);
    if Extension(name) != Some("desktop") then None
    else match ReadToString(fs, path)
      case None => None
      case Some(content) => parse(path, content)
  }

  /** An entry that is listed: not NoDisplay, not Hidden, with a Name and an Exec holding a command. */
  predicate Shown(de: DesktopEntry) {
    !de.noDisplay && !de.hidden && de.name.Some? && de.exec.Some? && ParseExec(de.exec.value).Some?
  }

  /**
   * The record for one directory entry: present exactly when it is a
   * `.desktop` file whose entry is shown; named by Name, keyed by its
   * lowercase, described by Comment (empty when absent), never with an icon,
   * running the parsed Exec.
   */
  function DesktopApp(fs: FileSystem, dir: string, name: string, parse: EntryParser): (r: Option<App>)
    ensures r.Some? <==> EntryOf(fs, dir, name, parse).Some? && Shown(EntryOf(fs, dir, name, parse).value)
    ensures r.Some? ==>
              var de := EntryOf(fs, dir, name, parse).value;
              && Extension(name) == Some("desktop")
              && r.value.name == de.name.value
              && r.value.nameLc == Lower(r.value.name)
              && r.value.desc == de.comment.GetOr("")
              && r.value.icon.None?
              && r.value.openCommand == Function(RunShellCommand(
                   [ParseExec(de.exec.value).value.0, ParseExec(de.exec.value).value.1]))
  {
    match EntryOf(fs, dir, name, parse)
    case None => None
    case Some(de) =>
      if de.noDisplay || de.hidden then None
      else if de.name.None? || de.exec.None? then None
      else match ParseExec(de.exec.value)
        case None => None
        case Some((cmd, args)) =>
          var n := de.name.value;
          Some(App(Function(RunShellCommand([cmd, args])), de.comment.GetOr(""), None, n, Lower(n)))
  }

  /**
   * What a listed entry runs: a `sh -c` line that splits back into exactly
   * the Exec tokens that are not field codes.
   */
  lemma DesktopCommandLine(fs: FileSystem, dir: string, name: string, parse: EntryParser)
    requires DesktopApp(fs, dir, name, parse).Some?
    ensures var a := DesktopApp(fs, dir, name, parse).value;
      && a.openCommand.Function? && a.openCommand.func.RunShellCommand?
      && SplitWhitespace(ShellArgument(a.openCommand.func.command))
         == DropFieldCodes(SplitWhitespace(EntryOf(fs, dir, name, parse).value.exec.value))
  {
    var exec := EntryOf(fs, dir, name, parse).value.exec.value;
    var (cmd, args) := ParseExec(exec).value;
    ParseExecTokens(exec);
    var ts := SplitWhitespace(exec);
    var parts := DropFieldCodes(ts);
    var j :| 0 <= j < |ts| && ts[j] == parts[0];
    SplitCommandLine(cmd, args);
    assert [cmd, args][1..] == [args];
    assert Join([cmd, args], " ") == cmd + " " + Join([args], " ");
  }

  /** The records of `names` in order, one for each listed entry. */
  function DesktopApps(fs: FileSystem, dir: string, names: seq<string>, parse: EntryParser): (r: seq<App>)
    ensures |r| <= |names|
    decreases |names|
  {
    if |names| == 0 then []
    else
      var init := names[..|names| - 1];
      var last := names[|names| - 1];
      DesktopApps(fs, dir, init, parse)
        + match DesktopApp(fs, dir, last, parse) case None => [] case Some(a) => [a]
  }

  /** One more entry adds its record, if it has one. */
  lemma DesktopAppsStep(fs: FileSystem, dir: string, names: seq<string>, i: nat, parse: EntryParser)
    requires i < |names|
    ensures DesktopApps(fs, dir, names[..i + 1], parse)
      == DesktopApps(fs, dir, names[..i], parse)
         + match DesktopApp(fs, dir, names[i], parse) case None => [] case Some(a) => [a]
  {
    assert names[..i + 1][..i] == names[..i];
    assert names[..i + 1][i] == names[i];
  }

  /** Every record is that of one of the listed entries. */
  lemma {:induction false} DesktopAppsSound(fs: FileSystem, dir: string, names: seq<string>, parse: EntryParser)
    ensures forall a :: a in DesktopApps(fs, dir, names, parse) ==> exists n :: n in names && DesktopApp(fs, dir, n, parse) == Some(a)
    decreases |names|
  {
    if |names| > 0 {
      var init := names[..|names| - 1];
      var last := names[|names| - 1];
      DesktopAppsSound(fs, dir, init, parse);
      forall a | a in DesktopApps(fs, dir, names, parse)
        ensures exists n :: n in names && DesktopApp(fs, dir, n, parse) == Some(a)
      {
        if a in DesktopApps(fs, dir, init, parse) {
          var n :| n in init && DesktopApp(fs, dir, n, parse) == Some(a);
          var i :| 0 <= i < |init| && init[i] == n;
          assert names[i] == n;
        } else {
          assert DesktopApp(fs, dir, last, parse) == Some(a);
          assert names[|names| - 1] == last;
        }
      }
    }
  }

  lemma {:induction false} DesktopAppsCompleteAt(fs: FileSystem, dir: string, names: seq<string>, parse: EntryParser, i: nat)
    requires i < |names| && DesktopApp(fs, dir, names[i], parse).Some?
    ensures DesktopApp(fs, dir, names[i], parse).value in DesktopApps(fs, dir, names, parse)
    decreases |names|
  {
    var init := names[..|names| - 1];
    var a := DesktopApp(fs, dir, names[i], parse).value;
    var here := match DesktopApp(fs, dir, names[|names| - 1], parse) case None => [] case Some(b) => [b];
    assert DesktopApps(fs, dir, names, parse) == DesktopApps(fs, dir, init, parse) + here;
    if i < |names| - 1 {
      assert init[i] == names[i];
      DesktopAppsCompleteAt(fs, dir, init, parse, i);
      assert a in DesktopApps(fs, dir, init, parse);
    } else {
      assert here == [a];
    }
  }

  /** Every listed entry has its record. */
  lemma DesktopAppsComplete(fs: FileSystem, dir: string, names: seq<string>, parse: EntryParser, n: string)
    requires n in names && DesktopApp(fs, dir, n, parse).Some?
    ensures DesktopApp(fs, dir, n, parse).value in DesktopApps(fs, dir, names, parse)
  {
    var i :| 0 <= i < |names| && names[i] == n;
    DesktopAppsCompleteAt(fs, dir, names, parse, i);
  }

  /** What the scanner makes of each entry, in listing order. */
  function DesktopOutcomes(fs: FileSystem, dir: string, names: seq<string>, parse: EntryParser): (r: seq<Option<App>>)
    ensures |r| == |names|
    decreases |names|
  {
    if |names| == 0 then []
    else DesktopOutcomes(fs, dir, names[..|names| - 1], parse) + [DesktopApp(fs, dir, names[|names| - 1], parse)]
  }

  /** The outcome at position `i` is that of the `i`-th entry. */
  lemma {:induction false} DesktopOutcomesAt(fs: FileSystem, dir: string, names: seq<string>, parse: EntryParser, i: nat)
    requires i < |names|
    ensures DesktopOutcomes(fs, dir, names, parse)[i] == DesktopApp(fs, dir, names[i], parse)
    decreases |names|
  {
    if i < |names| - 1 {
      var init := names[..|names| - 1];
      DesktopOutcomesAt(fs, dir, init, parse, i);
      assert init[i] == names[i];
    }
  }

  /** Dropping the last entry drops its outcome and, if it had one, its record. */
  lemma DesktopSnoc(fs: FileSystem, dir: string, names: seq<string>, parse: EntryParser)
    requires |names| > 0
    ensures var o := DesktopApp(fs, dir, names[|names| - 1], parse);
      && DesktopOutcomes(fs, dir, names, parse) == DesktopOutcomes(fs, dir, names[..|names| - 1], parse) + [o]
      && DesktopApps(fs, dir, names, parse) == DesktopApps(fs, dir, names[..|names| - 1], parse) + (if o.Some? then [o.value] else [])
  {
  }

  /** The records are exactly those of the listed entries, each once, in listing order. */
  lemma {:induction false} DesktopAppsSelection(fs: FileSystem, dir: string, names: seq<string>, parse: EntryParser)
    ensures exists idx :: Selection(DesktopApps(fs, dir, names, parse), DesktopOutcomes(fs, dir, names, parse), idx)
    decreases |names|
  {
    if |names| == 0 {
      assert Selection(DesktopApps(fs, dir, names, parse), DesktopOutcomes(fs, dir, names, parse), []);
    } else {
      var init := names[..|names| - 1];
      var o := DesktopApp(fs, dir, names[|names| - 1], parse);
      var before := DesktopApps(fs, dir, init, parse);
      var initOutcomes := DesktopOutcomes(fs, dir, init, parse);
      DesktopAppsSelection(fs, dir, init, parse);
      var prev :| Selection(before, initOutcomes, prev);
      SelectionSnoc(initOutcomes, o, before, prev);
      DesktopSnoc(fs, dir, names, parse);
    }
  }

  /** `get_installed_apps(path, _)`: a root that is not a directory gives no records. */
  function LinuxApps(fs: FileSystem, root: string, parse: EntryParser): seq<App> {
    if IsDir(fs, root) then DesktopApps(fs, root, fs[root].entries, parse) else []
  }

  /**
   * `get_installed_apps`: the entry loop with its early skips. The icon
   * setting is read by the source but never reaches a record.
   */
  method GetInstalledApps(fs: FileSystem, root: string, storeIcons: bool, parse: EntryParser) returns (apps: seq<App>)
    ensures apps == LinuxApps(fs, root, parse)
  {
    apps := [];
    if !IsDir(fs, root) {
      return;
    }
    var names := fs[root].entries;
    var i := 0;
    while i < |names|
      invariant 0 <= i <= |names|
      invariant apps == DesktopApps(fs, root, names[..i], parse)
    {
      var name := names[i];
      DesktopAppsStep(fs, root, names, i, parse);
      ghost var expected := DesktopApp(fs, root, name, parse);
      i := i + 1;
      var path := JoinPath(root, name);
      if Extension(name) != Some("desktop") {
        assert expected.None?;
        continue;
      }
      var content := ReadToString(fs, path);
      if content.None? {
        assert expected.None?;
        continue;
      }
      var entry := parse(path, content.value);
      if entry.None? {
        assert expected.None?;
        continue;
      }
      var de := entry.value;
      if de.noDisplay || de.hidden {
        assert expected.None?;
        continue;
      }
      if de.name.None? || de.exec.None? {
        assert expected.None?;
        continue;
      }
      var parts := DropFieldCodes(SplitWhitespace(de.exec.value));
      if |parts| == 0 {
        assert expected.None?;
        continue;
      }
      var cmd := parts[0];
      var args := Join(parts[1..], " ");
      var n := de.name.value;
      apps := apps + [App(Function(RunShellCommand([cmd, args])), de.comment.GetOr(""), None, n, Lower(n))];
      assert expected == Some(apps[|apps| - 1]);
    }
    assert names[..i] == names;
  }

  /** The records of several roots, one root after another. */
  function AppsOver(fs: FileSystem, roots: seq<string>, parse: EntryParser): seq<App>
    decreases |roots|
  {
    if |roots| == 0 then [] else LinuxApps(fs, roots[0], parse) + AppsOver(fs, roots[1..], parse)
  }

  /** `get_installed_apps_glob`: a root with `*` is expanded and its matches scanned in turn. */
  function GlobApps(fs: FileSystem, root: string, parse: EntryParser, expand: GlobExpander): seq<App> {
    if '*' in root then AppsOver(fs, expand(root), parse) else LinuxApps(fs, root, parse)
  }

  /** `get_installed_linux_apps` over the default application roots. */
  function LinuxInstalledApps(fs: FileSystem, roots: seq<string>, parse: EntryParser, expand: GlobExpander): seq<App>
    decreases |roots|
  {
    if |roots| == 0 then [] else GlobApps(fs, roots[0], parse, expand) + LinuxInstalledApps(fs, roots[1..], parse, expand)
  }

  /** What every Linux record satisfies: keyed by its lowercased name, no icon, a shell command of two parts. */
  predicate DesktopShaped(a: App) {
    && a.nameLc == Lower(a.name)
    && a.icon.None?
    && a.openCommand.Function? && a.openCommand.func.RunShellCommand?
    && |a.openCommand.func.command| == 2
    && !IsFieldCode(a.openCommand.func.command[0])
  }

  lemma LinuxAppsShaped(fs: FileSystem, root: string, parse: EntryParser)
    ensures forall a :: a in LinuxApps(fs, root, parse) ==> DesktopShaped(a)
    ensures IsDir(fs, root) ==> |LinuxApps(fs, root, parse)| <= |fs[root].entries|
  {
    if IsDir(fs, root) {
      DesktopAppsSound(fs, root, fs[root].entries, parse);
    }
    forall a | a in LinuxApps(fs, root, parse) ensures DesktopShaped(a) {
      var n :| n in fs[root].entries && DesktopApp(fs, root, n, parse) == Some(a);
      var exec := EntryOf(fs, root, n, parse).value.exec.value;
      ParseExecTokens(exec);
    }
  }

  /** A directory root's records are those of its listed entries, each once, in listing order. */
  lemma LinuxAppsSelection(fs: FileSystem, root: string, parse: EntryParser)
    requires IsDir(fs, root)
    ensures exists idx :: Selection(LinuxApps(fs, root, parse), DesktopOutcomes(fs, root, fs[root].entries, parse), idx)
  {
    assert LinuxApps(fs, root, parse) == DesktopApps(fs, root, fs[root].entries, parse);
    DesktopAppsSelection(fs, root, fs[root].entries, parse);
  }

  lemma {:induction false} AppsOverShaped(fs: FileSystem, roots: seq<string>, parse: EntryParser)
    ensures forall a :: a in AppsOver(fs, roots, parse) ==> DesktopShaped(a)
    decreases |roots|
  {
    if |roots| > 0 {
      LinuxAppsShaped(fs, roots[0], parse);
      AppsOverShaped(fs, roots[1..], parse);
    }
  }

  /**
   * Over any roots and any expansion, every record is keyed by its
   * lowercased name, has no icon, and runs a command that is not a field code.
   */
  lemma {:induction false} LinuxInstalledAppsShaped(fs: FileSystem, roots: seq<string>, parse: EntryParser, expand: GlobExpander)
    ensures forall a :: a in LinuxInstalledApps(fs, roots, parse, expand) ==> DesktopShaped(a)
    decreases |roots|
  {
    if |roots| > 0 {
      if '*' in roots[0] {
        AppsOverShaped(fs, expand(roots[0]), parse);
      } else {
        LinuxAppsShaped(fs, roots[0], parse);
      }
      LinuxInstalledAppsShaped(fs, roots[1..], parse, expand);
    }
  }

  /** A root without `*` is scanned as it is, whatever the expansion would give. */
  lemma GlobPlainRoot(fs: FileSystem, root: string, parse: EntryParser, e1: GlobExpander, e2: GlobExpander)
    requires '*' !in root
    ensures GlobApps(fs, root, parse, e1) == GlobApps(fs, root, parse, e2) == LinuxApps(fs, root, parse)
  {
  }

  /** A root that is not a directory contributes nothing. */
  lemma MissingRootIsEmpty(fs: FileSystem, root: string, parse: EntryParser)
    requires !IsDir(fs, root)
    ensures LinuxApps(fs, root, parse) == []
  {
  }
}
