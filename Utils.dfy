/**
 * The macOS index builder of src/utils.rs: the bundle scanner with its
 * icon resolution (declared icon from Info.plist, then a search of the
 * Resources directory), the extra-directory indexer that appends to an
 * application list, and the URL check.
 */
module Utils {
  import opened Base
  import opened Strings
  import opened FileSystem
  import opened Commands
  import opened Apps

  // ------------------------------------------------------- icon decoding

  /** One resolution an icon family lists, with what decoding it yields. */
  datatype IconVariant = IconVariant(iconType: nat, image: Option<Handle>)

  /** The variants of an icon container, in the container's own order. */
  datatype IconFamily = IconFamily(available: seq<IconVariant>)

  /**
   * Parses a container's bytes into its family (`IconFamily::read`); the
   * container format is not modelled, only whether it parses and what it lists.
   */
  type IcnsReader = seq<bv8> -> Option<IconFamily>

  function FamilyAt(fs: FileSystem, path: string, read: IcnsReader): Option<IconFamily> {
    match Read(fs, path)
    case None => None
    case Some(bytes) => read(bytes)
  }

  /**
   * `handle_from_icns`: the image of the first variant the container lists,
   * or none when the file is unreadable, does not parse, lists nothing or
   * that first variant does not decode.
   */
  function HandleFromIcns(fs: FileSystem, path: string, read: IcnsReader): (r: Option<Handle>)
    ensures r.Some? ==> FamilyAt(fs, path, read).Some? && |FamilyAt(fs, path, read).value.available| > 0
    ensures FamilyAt(fs, path, read).Some? && |FamilyAt(fs, path, read).value.available| > 0
      ==> r == FamilyAt(fs, path, read).value.available[0].image
  {
    match FamilyAt(fs, path, read)
    case None => None
    case Some(family) =>
      if |family.available| == 0 then None else family.available[0].image
  }

  /** The first listed variant decides, whatever the others hold. */
  lemma HandleFromIcnsTakesFirst(fs: FileSystem, path: string, read: IcnsReader, first: IconVariant, rest: seq<IconVariant>)
    requires FamilyAt(fs, path, read) == Some(IconFamily([first] + rest))
    ensures HandleFromIcns(fs, path, read) == first.image
  {
  }

  // ------------------------------------------------- Info.plist icon name

  const IconKey := "<key>CFBundleIconFile</key>"
  const StringOpen := "<string>"
  const StringClose := "</string>"
  const DefaultIconName := "AppIcon.icns"

  /** The first line whose trimmed text is the icon key. */
  function FirstKeyIndex(lines: seq<string>): (r: Option<nat>)
    ensures r.Some? ==> r.value < |lines| && Trim(lines[r.value]) == IconKey
    ensures r.Some? ==> forall j :: 0 <= j < r.value ==> Trim(lines[j]) != IconKey
    ensures r.None? ==> forall j :: 0 <= j < |lines| ==> Trim(lines[j]) != IconKey
  {
    if |lines| == 0 then None
    else if Trim(lines[0]) == IconKey then Some(0)
    else match FirstKeyIndex(lines[1..])
      case None => None
      case Some(k) => Some(k + 1)
  }

  /**
   * The line immediately after the first key line: present exactly when
   * some key line is not the last line.
   */
  function IconLine(lines: seq<string>): (r: Option<string>)
    ensures r.Some? <==> exists k :: 0 <= k < |lines| - 1 && Trim(lines[k]) == IconKey
    ensures r.Some? ==> exists k ::
              && 0 <= k < |lines| - 1 && Trim(lines[k]) == IconKey
              && (forall j :: 0 <= j < k ==> Trim(lines[j]) != IconKey)
              && r.value == lines[k + 1]
  {
    match FirstKeyIndex(lines)
    case None => None
    case Some(k) => if k + 1 < |lines| then Some(lines[k + 1]) else None
  }

  /**
   * The `scan` over the plist's lines with its `expect_next` flag, stopping
   * at the first line it yields.
   */
  method ScanIconLine(lines: seq<string>) returns (line: Option<string>)
    ensures line == IconLine(lines)
  {
    var expectNext := false;
    var i := 0;
    while i < |lines|
      invariant 0 <= i <= |lines|
      invariant expectNext ==> 0 < i && Trim(lines[i - 1]) == IconKey
      invariant forall j :: 0 <= j < (if expectNext then i - 1 else i) ==> Trim(lines[j]) != IconKey
    {
      if expectNext {
        return Some(lines[i]);
      }
      if Trim(lines[i]) == IconKey {
        expectNext := true;
      }
      i := i + 1;
    }
    return None;
  }

  /** An opening tag at the front and a closing tag at the end never overlap. */
  lemma TagsApart(t: string)
    requires StartsWith(t, StringOpen) && EndsWith(t, StringClose)
    ensures |t| >= |StringOpen| + |StringClose|
  {
    assert t[|t| - 8] == StringClose[1] == '/';
    assert t[|t| - 9] == StringClose[0] == '<';
    assert forall i :: 0 <= i < 8 ==> t[i] == StringOpen[i];
  }

  /** After an opening tag, the closing tag ends the line exactly when it ends the rest. */
  lemma CloseAfterOpen(t: string)
    requires StartsWith(t, StringOpen)
    ensures EndsWith(t, StringClose) <==> EndsWith(t[|StringOpen|..], StringClose)
  {
    var rest := t[|StringOpen|..];
    if EndsWith(t, StringClose) {
      TagsApart(t);
      assert t[|t| - |StringClose|..] == rest[|rest| - |StringClose|..];
    }
    if EndsWith(rest, StringClose) {
      assert t[|t| - |StringClose|..] == rest[|rest| - |StringClose|..];
    }
  }

  /**
   * The icon name on the value line: the text between `<string>` and
   * `</string>` when the line has both, and the empty name otherwise.
   */
  function StringValue(t: string): (r: string)
    ensures StartsWith(t, StringOpen) && EndsWith(t, StringClose) ==> t == StringOpen + r + StringClose
    ensures !(StartsWith(t, StringOpen) && EndsWith(t, StringClose)) ==> r == ""
  {
    if StartsWith(t, StringOpen) then
      CloseAfterOpen(t);
      var rest := t[|StringOpen|..];
      if EndsWith(rest, StringClose) then rest[..|rest| - |StringClose|] else ""
    else ""
  }

  /** The file name tier 1 looks for: the declared name, or `AppIcon.icns` when no line follows the key. */
  function IconFileName(plist: string): string {
    match IconLine(Lines(plist))
    case None => DefaultIconName
    case Some(l) => StringValue(Trim(l))
  }

  /** A key line followed by a `<string>` line declares that name. */
  lemma IconFileNameDeclared(plist: string, k: nat, name: string)
    requires k + 1 < |Lines(plist)|
    requires Trim(Lines(plist)[k]) == IconKey
    requires forall j :: 0 <= j < k ==> Trim(Lines(plist)[j]) != IconKey
    requires Trim(Lines(plist)[k + 1]) == StringOpen + name + StringClose
    ensures IconFileName(plist) == name
  {
    var lines := Lines(plist);
    assert FirstKeyIndex(lines) == Some(k);
    var t := StringOpen + name + StringClose;
    assert StartsWith(t, StringOpen) && EndsWith(t, StringClose) by {
      assert t[..|StringOpen|] == StringOpen;
      assert t[|t| - |StringClose|..] == StringClose;
    }
    var v := StringValue(t);
    assert |v| == |name|;
    assert v == t[|StringOpen|..|t| - |StringClose|] == name;
  }

  /** Without the key, or with the key on the last line, tier 1 looks for `AppIcon.icns`. */
  lemma IconFileNameDefault(plist: string)
    requires forall k :: 0 <= k < |Lines(plist)| - 1 ==> Trim(Lines(plist)[k]) != IconKey
    ensures IconFileName(plist) == DefaultIconName
  {
  }

  // ----------------------------------------------------- icon resolution

  function InfoPlistPath(app: string): string {
    app + "/Contents/Info.plist"
  }

  function ResourcesPath(app: string): string {
    app + "/Contents/Resources"
  }

  /** Tier 1: the file Info.plist names, in Resources; none when the plist is unreadable. */
  function DeclaredIcon(fs: FileSystem, app: string, read: IcnsReader): Option<Handle> {
    match ReadToString(fs, InfoPlistPath(app))
    case None => None
    case Some(plist) => HandleFromIcns(fs, ResourcesPath(app) + "/" + IconFileName(plist), read)
  }

  /** The Resources entries whose names end in `.icns`, in listing order. */
  function IcnsNames(names: seq<string>): (r: seq<string>)
    ensures |r| <= |names|
    ensures forall n :: n in r <==> n in names && EndsWith(n, ".icns")
  {
    if |names| == 0 then []
    else if EndsWith(names[0], ".icns") then [names[0]] + IcnsNames(names[1..])
    else IcnsNames(names[1..])
  }

  /** There is no candidate exactly when no listed name ends in `.icns`. */
  lemma IcnsNamesEmpty(names: seq<string>)
    ensures IcnsNames(names) == [] <==> forall i :: 0 <= i < |names| ==> !EndsWith(names[i], ".icns")
  {
    if IcnsNames(names) != [] {
      var n := IcnsNames(names)[0];
      assert n in IcnsNames(names);
      var i :| 0 <= i < |names| && names[i] == n;
    }
  }

  /** Each `.icns` name is a candidate as often as it is listed, and no other name is. */
  lemma {:induction false} IcnsNamesCounts(names: seq<string>)
    ensures forall n :: multiset(IcnsNames(names))[n] == if EndsWith(n, ".icns") then multiset(names)[n] else 0
    decreases |names|
  {
    if |names| > 0 {
      IcnsNamesCounts(names[1..]);
      assert names == [names[0]] + names[1..];
      assert multiset(names) == multiset{names[0]} + multiset(names[1..]);
    }
  }

  lemma IcnsNamesCons(x: string, rest: seq<string>)
    ensures IcnsNames([x] + rest) == (if EndsWith(x, ".icns") then [x] else []) + IcnsNames(rest)
  {
    assert ([x] + rest)[0] == x;
    assert ([x] + rest)[1..] == rest;
  }

  /** The candidates of two listings one after the other are those of the first followed by those of the second. */
  lemma {:induction false} IcnsNamesAppend(a: seq<string>, b: seq<string>)
    ensures IcnsNames(a + b) == IcnsNames(a) + IcnsNames(b)
    decreases |a|
  {
    if |a| == 0 {
      assert a + b == b;
    } else {
      var head := if EndsWith(a[0], ".icns") then [a[0]] else [];
      assert a + b == [a[0]] + (a[1..] + b);
      assert a == [a[0]] + a[1..];
      IcnsNamesCons(a[0], a[1..] + b);
      IcnsNamesCons(a[0], a[1..]);
      IcnsNamesAppend(a[1..], b);
      assert head + (IcnsNames(a[1..]) + IcnsNames(b)) == (head + IcnsNames(a[1..])) + IcnsNames(b);
    }
  }

  function IcnsCandidates(fs: FileSystem, app: string): seq<string> {
    match ReadDir(fs, ResourcesPath(app))
    case None => []
    case Some(names) => IcnsNames(names)
  }

  /**
   * Tier 2: one candidate is taken; among several only `AppIcon.icns` is,
   * and none is taken when it is absent.
   */
  function FallbackIcon(fs: FileSystem, app: string, read: IcnsReader): Option<Handle> {
    var candidates := IcnsCandidates(fs, app);
    if |candidates| > 1 then
      if DefaultIconName in candidates then HandleFromIcns(fs, JoinPath(ResourcesPath(app), DefaultIconName), read)
      else None
    else if |candidates| == 1 then HandleFromIcns(fs, JoinPath(ResourcesPath(app), candidates[0]), read)
    else None
  }

  /** The icon of a bundle: tier 1, and tier 2 only when tier 1 yields nothing. */
  function ResolveIcon(fs: FileSystem, app: string, read: IcnsReader): (r: Option<Handle>)
    ensures DeclaredIcon(fs, app, read).Some? ==> r == DeclaredIcon(fs, app, read)
    ensures DeclaredIcon(fs, app, read).None? ==> r == FallbackIcon(fs, app, read)
  {
    var declared := DeclaredIcon(fs, app, read);
    if declared.Some? then declared else FallbackIcon(fs, app, read)
  }

  /** A declared icon that decodes wins over every file of the directory search. */
  lemma DeclaredIconWins(fs: FileSystem, app: string, read: IcnsReader, plist: string, name: string, h: Handle)
    requires ReadToString(fs, InfoPlistPath(app)) == Some(plist)
    requires IconFileName(plist) == name
    requires HandleFromIcns(fs, ResourcesPath(app) + "/" + name, read) == Some(h)
    ensures ResolveIcon(fs, app, read) == Some(h)
  {
  }

  lemma TwoDistinctMembers(r: seq<string>, a: string, b: string)
    requires a in r && b in r && a != b
    ensures |r| > 1
  {
    var i :| 0 <= i < |r| && r[i] == a;
    var j :| 0 <= j < |r| && r[j] == b;
    assert i != j;
  }

  /**
   * When tier 1 yields nothing and Resources holds two `.icns` files, none
   * of them `AppIcon.icns`, there is no icon.
   */
  lemma AmbiguousFallbackHasNoIcon(fs: FileSystem, app: string, read: IcnsReader, a: string, b: string)
    requires DeclaredIcon(fs, app, read).None?
    requires IsDir(fs, ResourcesPath(app))
    requires a in fs[ResourcesPath(app)].entries && b in fs[ResourcesPath(app)].entries && a != b
    requires EndsWith(a, ".icns") && EndsWith(b, ".icns")
    requires DefaultIconName !in fs[ResourcesPath(app)].entries
    ensures ResolveIcon(fs, app, read).None?
  {
    TwoDistinctMembers(IcnsCandidates(fs, app), a, b);
  }

  /** When tier 1 yields nothing and several candidates include `AppIcon.icns`, that file is decoded. */
  lemma FallbackPrefersDefault(fs: FileSystem, app: string, read: IcnsReader, other: string)
    requires DeclaredIcon(fs, app, read).None?
    requires IsDir(fs, ResourcesPath(app))
    requires DefaultIconName in fs[ResourcesPath(app)].entries
    requires other in fs[ResourcesPath(app)].entries && other != DefaultIconName && EndsWith(other, ".icns")
    ensures ResolveIcon(fs, app, read) == HandleFromIcns(fs, JoinPath(ResourcesPath(app), DefaultIconName), read)
  {
    assert EndsWith(DefaultIconName, ".icns");
    TwoDistinctMembers(IcnsCandidates(fs, app), DefaultIconName, other);
  }

  /**
   * When tier 1 yields nothing and Resources lists exactly one name ending
   * in `.icns`, once, that file is decoded whatever its name.
   */
  lemma FallbackSingleCandidate(fs: FileSystem, app: string, read: IcnsReader, c: string)
    requires DeclaredIcon(fs, app, read).None?
    requires IsDir(fs, ResourcesPath(app))
    requires EndsWith(c, ".icns") && multiset(fs[ResourcesPath(app)].entries)[c] == 1
    requires forall n :: n in fs[ResourcesPath(app)].entries && EndsWith(n, ".icns") ==> n == c
    ensures ResolveIcon(fs, app, read) == HandleFromIcns(fs, JoinPath(ResourcesPath(app), c), read)
  {
    var names := fs[ResourcesPath(app)].entries;
    var r := IcnsNames(names);
    IcnsNamesCounts(names);
    assert multiset(r) == multiset{c} by {
      forall n ensures multiset(r)[n] == multiset{c}[n] {
        assert n != c && EndsWith(n, ".icns") ==> n !in names;
      }
    }
    assert |r| == 1 by {
      assert |multiset(r)| == |r|;
    }
    assert r[0] in multiset(r);
  }

  /** When tier 1 yields nothing and Resources holds no `.icns` name, there is no icon. */
  lemma FallbackWithoutCandidates(fs: FileSystem, app: string, read: IcnsReader)
    requires DeclaredIcon(fs, app, read).None?
    requires IsDir(fs, ResourcesPath(app)) ==> forall n :: n in fs[ResourcesPath(app)].entries ==> !EndsWith(n, ".icns")
    ensures ResolveIcon(fs, app, read).None?
  {
    if IsDir(fs, ResourcesPath(app)) {
      IcnsNamesEmpty(fs[ResourcesPath(app)].entries);
    }
  }

  // ------------------------------------------------------ bundle scanner

  const BundleSuffix := ".app"

  predicate IsBundle(fs: FileSystem, dir: string, name: string) {
    EndsWith(name, BundleSuffix) && IsDir(fs, JoinPath(dir, name))
  }

  /** What the scanner records for bundle `entry` of `dir`. */
  ghost predicate BundleRecord(fs: FileSystem, dir: string, entry: string, storeIcons: bool, read: IcnsReader, a: App) {
    && IsBundle(fs, dir, entry)
    && a.name + BundleSuffix == entry
    && a.nameLc == Lower(a.name)
    && a.desc == "Application"
    && a.openCommand == Function(OpenApp(JoinPath(dir, entry)))
    && a.icon == (if storeIcons then ResolveIcon(fs, JoinPath(dir, entry), read) else None)
  }

  /** The record for one directory entry, when it is a bundle. */
  function BundleApp(fs: FileSystem, dir: string, entry: string, storeIcons: bool, read: IcnsReader): (r: Option<App>)
    ensures r.Some? <==> IsBundle(fs, dir, entry)
    ensures r.Some? ==> BundleRecord(fs, dir, entry, storeIcons, read, r.value)
  {
    if !IsBundle(fs, dir, entry) then None
    else
      var path := JoinPath(dir, entry);
      var name := entry[..|entry| - |BundleSuffix|];
      assert name + BundleSuffix == entry;
      Some(App(Function(OpenApp(path)), "Application",
               if storeIcons then ResolveIcon(fs, path, read) else None,
               name, Lower(name)))
  }

  /**
   * The records of the bundles among `entries`: one for each bundle entry,
   * and nothing else.
   */
  function BundleApps(fs: FileSystem, dir: string, entries: seq<string>, storeIcons: bool, read: IcnsReader): (apps: seq<App>)
    ensures |apps| <= |entries|
    ensures forall a :: a in apps ==> exists e :: e in entries && BundleRecord(fs, dir, e, storeIcons, read, a)
  {
    if |entries| == 0 then []
    else
      var rest := BundleApps(fs, dir, entries[1..], storeIcons, read);
      match BundleApp(fs, dir, entries[0], storeIcons, read)
      case None => rest
      case Some(a) => [a] + rest
  }

  /** Each bundle entry has its record among the scanner's results. */
  lemma {:induction false} BundleAppsComplete(fs: FileSystem, dir: string, entries: seq<string>, storeIcons: bool, read: IcnsReader, e: string)
    requires e in entries && IsBundle(fs, dir, e)
    ensures exists a :: a in BundleApps(fs, dir, entries, storeIcons, read) && BundleRecord(fs, dir, e, storeIcons, read, a)
    decreases |entries|
  {
    if e == entries[0] {
      var a := BundleApp(fs, dir, e, storeIcons, read).value;
      assert a in BundleApps(fs, dir, entries, storeIcons, read);
    } else {
      assert e in entries[1..];
      BundleAppsComplete(fs, dir, entries[1..], storeIcons, read, e);
    }
  }

  /** What the scanner makes of each entry, in listing order. */
  function BundleOutcomes(fs: FileSystem, dir: string, entries: seq<string>, storeIcons: bool, read: IcnsReader): seq<Option<App>> {
    seq(|entries|, i requires 0 <= i < |entries| => BundleApp(fs, dir, entries[i], storeIcons, read))
  }

  /**
   * The scanner keeps exactly the bundles' records, in listing order: at
   * most one record per entry.
   */
  lemma {:induction false} BundleAppsSelection(fs: FileSystem, dir: string, entries: seq<string>, storeIcons: bool, read: IcnsReader)
    ensures exists idx :: Selection(BundleApps(fs, dir, entries, storeIcons, read), BundleOutcomes(fs, dir, entries, storeIcons, read), idx)
    decreases |entries|
  {
    var outcomes := BundleOutcomes(fs, dir, entries, storeIcons, read);
    if |entries| == 0 {
      assert Selection(BundleApps(fs, dir, entries, storeIcons, read), outcomes, []);
    } else {
      var tail := entries[1..];
      BundleAppsSelection(fs, dir, tail, storeIcons, read);
      var rest := BundleApps(fs, dir, tail, storeIcons, read);
      var prev :| Selection(rest, BundleOutcomes(fs, dir, tail, storeIcons, read), prev);
      var o := BundleApp(fs, dir, entries[0], storeIcons, read);
      assert outcomes == [o] + BundleOutcomes(fs, dir, tail, storeIcons, read);
      SelectionCons(o, BundleOutcomes(fs, dir, tail, storeIcons, read), rest, prev);
      assert BundleApps(fs, dir, entries, storeIcons, read) == (if o.Some? then [o.value] else []) + rest;
    }
  }

  datatype ScanError = DirectoryUnreadable | EntryTypeUnreadable

  /** Listed entries whose type cannot be read. */
  predicate SomeEntryUnreadable(fs: FileSystem, dir: string) {
    IsDir(fs, dir) && exists e :: e in fs[dir].entries && JoinPath(dir, e) !in fs
  }

  /**
   * `get_installed_apps(dir, store_icons)`: an unreadable directory or an
   * entry of unknown type ends the whole call; otherwise one record per
   * bundle, with no icon work at all unless `storeIcons`.
   */
  function MacInstalledApps(fs: FileSystem, dir: string, storeIcons: bool, read: IcnsReader): (r: Result<seq<App>, ScanError>)
    ensures r == Err(DirectoryUnreadable) <==> !IsDir(fs, dir)
    ensures r == Err(EntryTypeUnreadable) <==> SomeEntryUnreadable(fs, dir)
    ensures r.Ok? ==> |r.value| <= |fs[dir].entries|
    ensures r.Ok? ==> forall a :: a in r.value ==>
      exists e :: e in fs[dir].entries && BundleRecord(fs, dir, e, storeIcons, read, a)
  {
    match ReadDir(fs, dir)
    case None => Err(DirectoryUnreadable)
    case Some(entries) =>
      if exists e :: e in entries && JoinPath(dir, e) !in fs then Err(EntryTypeUnreadable)
      else Ok(BundleApps(fs, dir, entries, storeIcons, read))
  }

  /** A successful scan records every bundle of the directory. */
  lemma MacScanComplete(fs: FileSystem, dir: string, storeIcons: bool, read: IcnsReader, e: string)
    requires IsDir(fs, dir) && !SomeEntryUnreadable(fs, dir)
    requires e in fs[dir].entries && IsBundle(fs, dir, e)
    ensures exists a ::
              && a in MacInstalledApps(fs, dir, storeIcons, read).value
              && BundleRecord(fs, dir, e, storeIcons, read, a)
  {
    BundleAppsComplete(fs, dir, fs[dir].entries, storeIcons, read, e);
  }

  /** A successful scan keeps exactly the bundles' records, one per bundle entry, in listing order. */
  lemma MacScanSelection(fs: FileSystem, dir: string, storeIcons: bool, read: IcnsReader)
    requires IsDir(fs, dir) && !SomeEntryUnreadable(fs, dir)
    ensures exists idx :: Selection(MacInstalledApps(fs, dir, storeIcons, read).value,
                                    BundleOutcomes(fs, dir, fs[dir].entries, storeIcons, read), idx)
  {
    assert MacInstalledApps(fs, dir, storeIcons, read) == Ok(BundleApps(fs, dir, fs[dir].entries, storeIcons, read));
    BundleAppsSelection(fs, dir, fs[dir].entries, storeIcons, read);
  }

  /** Every record's search key is its lowercased name, and with icons off no record has an icon. */
  lemma MacRecordsKeyedAndIconless(fs: FileSystem, dir: string, storeIcons: bool, read: IcnsReader)
    requires MacInstalledApps(fs, dir, storeIcons, read).Ok?
    ensures forall a :: a in MacInstalledApps(fs, dir, storeIcons, read).value ==>
      a.nameLc == Lower(a.name) && a.desc == "Application" && (!storeIcons ==> a.icon.None?)
  {
    var apps := MacInstalledApps(fs, dir, storeIcons, read).value;
    forall a | a in apps ensures a.nameLc == Lower(a.name) && a.desc == "Application" && (!storeIcons ==> a.icon.None?) {
      var e :| e in fs[dir].entries && BundleRecord(fs, dir, e, storeIcons, read, a);
    }
  }

  lemma {:induction false} BundleAppsIgnoreReaderWithoutIcons(fs: FileSystem, dir: string, entries: seq<string>, r1: IcnsReader, r2: IcnsReader)
    ensures BundleApps(fs, dir, entries, false, r1) == BundleApps(fs, dir, entries, false, r2)
    decreases |entries|
  {
    if |entries| > 0 {
      BundleAppsIgnoreReaderWithoutIcons(fs, dir, entries[1..], r1, r2);
    }
  }

  /** With icons off the scan never consults the icon decoder: any two decoders give the same index. */
  lemma MacScanWithoutIconsIgnoresReader(fs: FileSystem, dir: string, r1: IcnsReader, r2: IcnsReader)
    ensures MacInstalledApps(fs, dir, false, r1) == MacInstalledApps(fs, dir, false, r2)
  {
    if IsDir(fs, dir) {
      BundleAppsIgnoreReaderWithoutIcons(fs, dir, fs[dir].entries, r1, r2);
    }
  }

  // --------------------------------------------------------------- URLs

  const UrlSuffixes := ["com", "net", "org", "edu", "gov", "io", "co", "me", "app", "dev"]

  /** Whether `s` ends in a dot and one of `labels`, tried in order. */
  function EndsWithDomain(s: string, labels: seq<string>): bool {
    |labels| > 0 && (EndsWith(s, "." + labels[0]) || EndsWithDomain(s, labels[1..]))
  }

  /** `is_valid_url`: ends in one of ten top-level domains. */
  function IsValidUrl(s: string): bool {
    EndsWithDomain(s, UrlSuffixes)
  }

  /** The text after the last dot, if there is a dot. */
  function LastLabel(s: string): (r: Option<string>)
    ensures r.Some? ==> '.' !in r.value && EndsWith(s, "." + r.value)
    ensures r.None? ==> '.' !in s
  {
    match LastIndexOfChar(s, '.')
    case None => None
    case Some(k) =>
      assert s[k..] == "." + s[k + 1..];
      Some(s[k + 1..])
  }

  /** A text ends in a dot and a dot-free label exactly when that label follows its last dot. */
  lemma EndsWithDotLabel(s: string, t: string)
    requires '.' !in t
    ensures EndsWith(s, "." + t) <==> LastLabel(s) == Some(t)
  {
    if EndsWith(s, "." + t) {
      var k := |s| - |t| - 1;
      assert s[k..] == "." + t;
      assert s[k] == '.';
      forall j | k < j < |s| ensures s[j] != '.' {
        assert s[j] == t[j - k - 1];
      }
      LastIndexOfCharAt(s, '.', k);
      assert s[k + 1..] == t;
    }
  }

  /** With dot-free labels, the ordered suffix tests amount to one look at the last label. */
  lemma {:induction false} EndsWithDomainByLastLabel(s: string, labels: seq<string>)
    requires forall k :: 0 <= k < |labels| ==> '.' !in labels[k]
    ensures EndsWithDomain(s, labels) <==> LastLabel(s).Some? && LastLabel(s).value in labels
    decreases |labels|
  {
    if |labels| > 0 {
      EndsWithDotLabel(s, labels[0]);
      EndsWithDomainByLastLabel(s, labels[1..]);
      assert labels == [labels[0]] + labels[1..];
    }
  }

  /** A URL is valid exactly when the label after its last dot is one of the listed domains. */
  lemma IsValidUrlByLastLabel(s: string)
    ensures IsValidUrl(s) <==> LastLabel(s).Some? && LastLabel(s).value in UrlSuffixes
  {
    EndsWithDomainByLastLabel(s, UrlSuffixes);
  }

  // ------------------------------------------------ extra-directory index

  datatype Platform = MacOS | Windows

  /** The configuration the indexer reads: the extra directories to scan. */
  datatype Config = Config(indexDirs: seq<string>)

  /** `0o111`: the execute bits of owner, group and others. */
  const ExecuteBits: bv32 := 0x49

  /** The platform's test for a runnable entry, on the entry's metadata. */
  predicate IsExecutable(platform: Platform, name: string, node: Node) {
    match platform
    case Windows => node.File? && Extension(name) == Some("exe")
    case MacOS => (node.File? && node.mode & ExecuteBits != 0) || Extension(name) == Some("app")
  }

  /**
   * On Windows any file named `<stem>.exe` qualifies, whatever its mode; on
   * macOS any `<stem>.app` entry does, file or directory.
   */
  lemma ExtensionQualifies(stem: string, node: Node)
    requires stem != ""
    ensures node.File? ==> IsExecutable(Windows, stem + ".exe", node)
    ensures IsExecutable(MacOS, stem + ".app", node)
  {
    assert stem + ".exe" == stem + "." + "exe";
    assert stem + ".app" == stem + "." + "app";
    ExtensionOf(stem, "exe");
    ExtensionOf(stem, "app");
  }

  /** The record pushed for a runnable entry: full file name, no description, no icon. */
  function ConfigApp(path: string, name: string): App {
    App(Function(OpenApp(path)), "", None, name, Lower(name))
  }

  /** What the indexer has pushed so far, and whether it has panicked. */
  datatype Run = Run(pushed: seq<App>, panicked: bool)

  ghost predicate ConfigRecord(fs: FileSystem, dir: string, names: seq<string>, platform: Platform, a: App) {
    exists n :: n in names && JoinPath(dir, n) in fs && IsExecutable(platform, n, fs[JoinPath(dir, n)])
      && a == ConfigApp(JoinPath(dir, n), n)
  }

  /**
   * The entries of one directory in order: a runnable entry is pushed, and
   * an entry without metadata panics (`metadata(..).unwrap()`) and ends the run.
   */
  function EntriesRun(fs: FileSystem, dir: string, names: seq<string>, platform: Platform): (r: Run)
    ensures |r.pushed| <= |names|
    decreases |names|
  {
    if |names| == 0 then Run([], false)
    else
      var init := names[..|names| - 1];
      var before := EntriesRun(fs, dir, init, platform);
      var name := names[|names| - 1];
      var path := JoinPath(dir, name);
      if before.panicked then before
      else if path !in fs then Run(before.pushed, true)
      else if IsExecutable(platform, name, fs[path]) then Run(before.pushed + [ConfigApp(path, name)], false)
      else before
  }

  /** One more entry extends the run by that entry alone, unless it has already panicked. */
  lemma EntriesRunStep(fs: FileSystem, dir: string, names: seq<string>, j: nat, platform: Platform)
    requires j < |names|
    ensures var before := EntriesRun(fs, dir, names[..j], platform);
      var path := JoinPath(dir, names[j]);
      EntriesRun(fs, dir, names[..j + 1], platform)
      == if before.panicked then before
         else if path !in fs then Run(before.pushed, true)
         else if IsExecutable(platform, names[j], fs[path]) then Run(before.pushed + [ConfigApp(path, names[j])], false)
         else before
  {
    assert names[..j + 1][..j] == names[..j];
  }

  /** A directory's entries panic exactly when one of them has no metadata. */
  lemma {:induction false} EntriesRunPanics(fs: FileSystem, dir: string, names: seq<string>, platform: Platform)
    ensures !EntriesRun(fs, dir, names, platform).panicked <==> forall n :: n in names ==> JoinPath(dir, n) in fs
    decreases |names|
  {
    if |names| > 0 {
      var init := names[..|names| - 1];
      EntriesRunPanics(fs, dir, init, platform);
      assert names == init + [names[|names| - 1]];
    }
  }

  /** Every record pushed for a directory is that of one of its runnable entries. */
  lemma {:induction false} EntriesRunSound(fs: FileSystem, dir: string, names: seq<string>, platform: Platform)
    ensures forall a :: a in EntriesRun(fs, dir, names, platform).pushed ==> ConfigRecord(fs, dir, names, platform, a)
    decreases |names|
  {
    if |names| > 0 {
      var init := names[..|names| - 1];
      var name := names[|names| - 1];
      EntriesRunSound(fs, dir, init, platform);
      assert names == init + [name];
      forall a | a in EntriesRun(fs, dir, names, platform).pushed
        ensures ConfigRecord(fs, dir, names, platform, a)
      {
        if a in EntriesRun(fs, dir, init, platform).pushed {
          var n :| n in init && JoinPath(dir, n) in fs && IsExecutable(platform, n, fs[JoinPath(dir, n)])
            && a == ConfigApp(JoinPath(dir, n), n);
          assert n in names;
        } else {
          assert name in names;
        }
      }
    }
  }

  /** Unless it panics, a directory's run pushes the record of every runnable entry. */
  lemma {:induction false} EntriesRunComplete(fs: FileSystem, dir: string, names: seq<string>, platform: Platform)
    ensures !EntriesRun(fs, dir, names, platform).panicked ==> forall n ::
              n in names && JoinPath(dir, n) in fs && IsExecutable(platform, n, fs[JoinPath(dir, n)])
              ==> ConfigApp(JoinPath(dir, n), n) in EntriesRun(fs, dir, names, platform).pushed
    decreases |names|
  {
    if |names| > 0 {
      var init := names[..|names| - 1];
      var name := names[|names| - 1];
      EntriesRunComplete(fs, dir, init, platform);
      assert names == init + [name];
      forall n | n in names
        ensures n in init || n == name
      {
      }
    }
  }

  /** What the indexer makes of one entry: the record of a runnable entry, none otherwise. */
  function ConfigOutcome(fs: FileSystem, dir: string, name: string, platform: Platform): Option<App> {
    var path := JoinPath(dir, name);
    if path in fs && IsExecutable(platform, name, fs[path]) then Some(ConfigApp(path, name)) else None
  }

  /** The outcomes of a directory's entries, in listing order. */
  function ConfigOutcomes(fs: FileSystem, dir: string, names: seq<string>, platform: Platform): (r: seq<Option<App>>)
    ensures |r| == |names|
    decreases |names|
  {
    if |names| == 0 then []
    else ConfigOutcomes(fs, dir, names[..|names| - 1], platform) + [ConfigOutcome(fs, dir, names[|names| - 1], platform)]
  }

  /** The outcome at position `i` is that of the `i`-th entry. */
  lemma {:induction false} ConfigOutcomesAt(fs: FileSystem, dir: string, names: seq<string>, platform: Platform, i: nat)
    requires i < |names|
    ensures ConfigOutcomes(fs, dir, names, platform)[i] == ConfigOutcome(fs, dir, names[i], platform)
    decreases |names|
  {
    if i < |names| - 1 {
      var init := names[..|names| - 1];
      ConfigOutcomesAt(fs, dir, init, platform, i);
      assert init[i] == names[i];
    }
  }

  /** A run that has not panicked has pushed exactly the outcome of its last entry, if any, after the earlier ones. */
  lemma EntriesRunSnoc(fs: FileSystem, dir: string, names: seq<string>, platform: Platform)
    requires |names| > 0 && !EntriesRun(fs, dir, names, platform).panicked
    ensures var o := ConfigOutcome(fs, dir, names[|names| - 1], platform);
      && !EntriesRun(fs, dir, names[..|names| - 1], platform).panicked
      && ConfigOutcomes(fs, dir, names, platform) == ConfigOutcomes(fs, dir, names[..|names| - 1], platform) + [o]
      && EntriesRun(fs, dir, names, platform).pushed
         == EntriesRun(fs, dir, names[..|names| - 1], platform).pushed + (if o.Some? then [o.value] else [])
  {
  }

  /**
   * Unless it panics, a directory's run pushes the records of its runnable
   * entries, one per entry, in listing order.
   */
  lemma {:induction false} EntriesRunSelection(fs: FileSystem, dir: string, names: seq<string>, platform: Platform)
    ensures !EntriesRun(fs, dir, names, platform).panicked ==>
      exists idx :: Selection(EntriesRun(fs, dir, names, platform).pushed, ConfigOutcomes(fs, dir, names, platform), idx)
    decreases |names|
  {
    if |names| == 0 {
      assert Selection(EntriesRun(fs, dir, names, platform).pushed, ConfigOutcomes(fs, dir, names, platform), []);
    } else if !EntriesRun(fs, dir, names, platform).panicked {
      var init := names[..|names| - 1];
      var o := ConfigOutcome(fs, dir, names[|names| - 1], platform);
      var before := EntriesRun(fs, dir, init, platform).pushed;
      var initOutcomes := ConfigOutcomes(fs, dir, init, platform);
      EntriesRunSnoc(fs, dir, names, platform);
      EntriesRunSelection(fs, dir, init, platform);
      var prev :| Selection(before, initOutcomes, prev);
      SelectionSnoc(initOutcomes, o, before, prev);
    }
  }

  /**
   * A run that panics stops at the first entry without metadata: what it
   * pushed is the run of the entries before that one, which did not panic.
   */
  lemma {:induction false} EntriesRunPanicPrefix(fs: FileSystem, dir: string, names: seq<string>, platform: Platform)
    ensures EntriesRun(fs, dir, names, platform).panicked ==>
      exists j :: && 0 <= j < |names| && JoinPath(dir, names[j]) !in fs
                  && !EntriesRun(fs, dir, names[..j], platform).panicked
                  && EntriesRun(fs, dir, names, platform).pushed == EntriesRun(fs, dir, names[..j], platform).pushed
    decreases |names|
  {
    if |names| > 0 && EntriesRun(fs, dir, names, platform).panicked {
      var init := names[..|names| - 1];
      if EntriesRun(fs, dir, init, platform).panicked {
        EntriesRunPanicPrefix(fs, dir, init, platform);
        var j :| && 0 <= j < |init| && JoinPath(dir, init[j]) !in fs
                 && !EntriesRun(fs, dir, init[..j], platform).panicked
                 && EntriesRun(fs, dir, init, platform).pushed == EntriesRun(fs, dir, init[..j], platform).pushed;
        assert init[..j] == names[..j] && init[j] == names[j];
      } else {
        assert names[..|names| - 1] == init;
      }
    }
  }

  /**
   * One configured directory: a missing one is passed over, one that is
   * not a directory panics (`read_dir(..).unwrap()`).
   */
  function DirRun(fs: FileSystem, dir: string, platform: Platform): Run {
    if dir !in fs then Run([], false)
    else match ReadDir(fs, dir)
      case None => Run([], true)
      case Some(names) => EntriesRun(fs, dir, names, platform)
  }

  /** The configured directories in order, stopping at the first panic. */
  function DirsRun(fs: FileSystem, dirs: seq<string>, platform: Platform): Run
    decreases |dirs|
  {
    if |dirs| == 0 then Run([], false)
    else
      var before := DirsRun(fs, dirs[..|dirs| - 1], platform);
      if before.panicked then before
      else
        var here := DirRun(fs, dirs[|dirs| - 1], platform);
        Run(before.pushed + here.pushed, here.panicked)
  }

  lemma {:induction false} EntriesRunPanicSticks(fs: FileSystem, dir: string, names: seq<string>, j: nat, platform: Platform)
    requires j <= |names| && EntriesRun(fs, dir, names[..j], platform).panicked
    ensures EntriesRun(fs, dir, names, platform) == EntriesRun(fs, dir, names[..j], platform)
    decreases |names|
  {
    if j < |names| {
      var init := names[..|names| - 1];
      assert init[..j] == names[..j];
      EntriesRunPanicSticks(fs, dir, init, j, platform);
    } else {
      assert names[..j] == names;
    }
  }

  lemma {:induction false} DirsRunPanicSticks(fs: FileSystem, dirs: seq<string>, i: nat, platform: Platform)
    requires i <= |dirs| && DirsRun(fs, dirs[..i], platform).panicked
    ensures DirsRun(fs, dirs, platform) == DirsRun(fs, dirs[..i], platform)
    decreases |dirs|
  {
    if i < |dirs| {
      var init := dirs[..|dirs| - 1];
      assert init[..i] == dirs[..i];
      DirsRunPanicSticks(fs, init, i, platform);
    } else {
      assert dirs[..i] == dirs;
    }
  }

  /**
   * Every record the indexer pushes names a runnable entry of an existing
   * configured directory by its full file name, keyed by its lowercase, with
   * no icon.
   */
  lemma {:induction false} DirsRunRecords(fs: FileSystem, dirs: seq<string>, platform: Platform)
    ensures forall a :: a in DirsRun(fs, dirs, platform).pushed ==>
      && a.nameLc == Lower(a.name) && a.icon.None?
      && exists d :: d in dirs && IsDir(fs, d) && ConfigRecord(fs, d, fs[d].entries, platform, a)
    decreases |dirs|
  {
    if |dirs| > 0 {
      var init := dirs[..|dirs| - 1];
      var d := dirs[|dirs| - 1];
      DirsRunRecords(fs, init, platform);
      assert dirs == init + [d];
      var r := DirsRun(fs, dirs, platform);
      forall a | a in r.pushed
        ensures a.nameLc == Lower(a.name) && a.icon.None?
        ensures exists d' :: d' in dirs && IsDir(fs, d') && ConfigRecord(fs, d', fs[d'].entries, platform, a)
      {
        if a in DirsRun(fs, init, platform).pushed {
          var d' :| d' in init && IsDir(fs, d') && ConfigRecord(fs, d', fs[d'].entries, platform, a);
          assert d' in dirs;
        } else {
          assert a in DirRun(fs, d, platform).pushed;
          EntriesRunSound(fs, d, fs[d].entries, platform);
          assert IsDir(fs, d) && ConfigRecord(fs, d, fs[d].entries, platform, a);
        }
      }
    }
  }

  /** Unless it panics, the indexer pushes the record of every runnable entry of every configured directory. */
  lemma {:induction false} DirsRunComplete(fs: FileSystem, dirs: seq<string>, platform: Platform)
    ensures !DirsRun(fs, dirs, platform).panicked ==> forall d, n ::
              && d in dirs && IsDir(fs, d) && n in fs[d].entries
              && JoinPath(d, n) in fs && IsExecutable(platform, n, fs[JoinPath(d, n)])
              ==> ConfigApp(JoinPath(d, n), n) in DirsRun(fs, dirs, platform).pushed
    decreases |dirs|
  {
    if |dirs| > 0 {
      var init := dirs[..|dirs| - 1];
      var last := dirs[|dirs| - 1];
      DirsRunComplete(fs, init, platform);
      assert dirs == init + [last];
      if IsDir(fs, last) {
        EntriesRunComplete(fs, last, fs[last].entries, platform);
      }
      forall d | d in dirs
        ensures d in init || d == last
      {
      }
    }
  }

  /** One more directory extends the run by that directory's run, unless it has already panicked. */
  lemma DirsRunStep(fs: FileSystem, dirs: seq<string>, i: nat, platform: Platform)
    requires i < |dirs|
    ensures var before := DirsRun(fs, dirs[..i], platform);
      DirsRun(fs, dirs[..i + 1], platform)
      == if before.panicked then before
         else Run(before.pushed + DirRun(fs, dirs[i], platform).pushed, DirRun(fs, dirs[i], platform).panicked)
  {
    assert dirs[..i + 1][..i] == dirs[..i];
  }

  /** What the indexer makes of one configured directory's entries; none when it is not a directory. */
  function DirOutcomes(fs: FileSystem, dir: string, platform: Platform): seq<Option<App>> {
    if IsDir(fs, dir) then ConfigOutcomes(fs, dir, fs[dir].entries, platform) else []
  }

  /** The outcomes of the configured directories' entries, directory after directory. */
  function DirsOutcomes(fs: FileSystem, dirs: seq<string>, platform: Platform): seq<Option<App>>
    decreases |dirs|
  {
    if |dirs| == 0 then []
    else DirsOutcomes(fs, dirs[..|dirs| - 1], platform) + DirOutcomes(fs, dirs[|dirs| - 1], platform)
  }

  /** Unless it panics, one configured directory gives the selection of its entries' outcomes. */
  lemma DirRunSelection(fs: FileSystem, dir: string, platform: Platform)
    ensures !DirRun(fs, dir, platform).panicked ==>
      exists idx :: Selection(DirRun(fs, dir, platform).pushed, DirOutcomes(fs, dir, platform), idx)
  {
    if !IsDir(fs, dir) {
      assert !DirRun(fs, dir, platform).panicked ==> Selection(DirRun(fs, dir, platform).pushed, DirOutcomes(fs, dir, platform), []);
    } else {
      assert DirRun(fs, dir, platform) == EntriesRun(fs, dir, fs[dir].entries, platform);
      assert DirOutcomes(fs, dir, platform) == ConfigOutcomes(fs, dir, fs[dir].entries, platform);
      EntriesRunSelection(fs, dir, fs[dir].entries, platform);
    }
  }

  /**
   * Unless it panics, the indexer pushes the records of the runnable entries
   * of the configured directories, one per entry, directory by directory in
   * configuration order and each in listing order.
   */
  lemma {:induction false} DirsRunSelection(fs: FileSystem, dirs: seq<string>, platform: Platform)
    ensures !DirsRun(fs, dirs, platform).panicked ==>
      exists idx :: Selection(DirsRun(fs, dirs, platform).pushed, DirsOutcomes(fs, dirs, platform), idx)
    decreases |dirs|
  {
    if |dirs| == 0 {
      assert Selection(DirsRun(fs, dirs, platform).pushed, DirsOutcomes(fs, dirs, platform), []);
    } else if !DirsRun(fs, dirs, platform).panicked {
      var init := dirs[..|dirs| - 1];
      var last := dirs[|dirs| - 1];
      var before := DirsRun(fs, init, platform);
      var here := DirRun(fs, last, platform);
      assert !before.panicked && !here.panicked;
      assert DirsRun(fs, dirs, platform).pushed == before.pushed + here.pushed;
      assert DirsOutcomes(fs, dirs, platform) == DirsOutcomes(fs, init, platform) + DirOutcomes(fs, last, platform);
      DirsRunSelection(fs, init, platform);
      DirRunSelection(fs, last, platform);
      var ia :| Selection(before.pushed, DirsOutcomes(fs, init, platform), ia);
      var ib :| Selection(here.pushed, DirOutcomes(fs, last, platform), ib);
      SelectionAppend(before.pushed, DirsOutcomes(fs, init, platform), ia, here.pushed, DirOutcomes(fs, last, platform), ib);
    }
  }

  /** A configured directory that makes the indexer panic. */
  ghost predicate PanicsOn(fs: FileSystem, d: string) {
    d in fs && (!IsDir(fs, d) || exists n :: n in fs[d].entries && JoinPath(d, n) !in fs)
  }

  /**
   * The indexer panics exactly when some configured directory exists but is
   * not a directory, or lists an entry without metadata.
   */
  lemma {:induction false} DirsRunPanics(fs: FileSystem, dirs: seq<string>, platform: Platform)
    ensures DirsRun(fs, dirs, platform).panicked <==> exists d :: d in dirs && PanicsOn(fs, d)
    decreases |dirs|
  {
    if |dirs| > 0 {
      var init := dirs[..|dirs| - 1];
      var last := dirs[|dirs| - 1];
      DirsRunPanics(fs, init, platform);
      assert dirs == init + [last];
      if IsDir(fs, last) {
        EntriesRunPanics(fs, last, fs[last].entries, platform);
      }
      assert DirRun(fs, last, platform).panicked <==> PanicsOn(fs, last);
      assert (exists d :: d in dirs && PanicsOn(fs, d))
        <==> (exists d :: d in init && PanicsOn(fs, d)) || PanicsOn(fs, last);
    }
  }

  /** The indexer's outcome: `index_dirs_from_config` returned, or it panicked. */
  datatype IndexOutcome = Returned(indexed: bool) | Panicked

  /** The caller's application list that the indexer appends to. */
  class AppList {
    var apps: seq<App>

    constructor (initial: seq<App>)
      ensures apps == initial
    {
      apps := initial;
    }

    /**
     * `index_dirs_from_config`: with no directories, false and nothing
     * changes; otherwise the records of the runnable entries are appended
     * in directory order and true is returned, unless it panics midway,
     * leaving what was appended by then.
     */
    method IndexDirsFromConfig(config: Config, fs: FileSystem, platform: Platform) returns (outcome: IndexOutcome)
      modifies this
      ensures |config.indexDirs| == 0 ==> outcome == Returned(false) && apps == old(apps)
      ensures apps == old(apps) + DirsRun(fs, config.indexDirs, platform).pushed
      ensures outcome == Panicked <==> DirsRun(fs, config.indexDirs, platform).panicked
      ensures |config.indexDirs| > 0 && outcome != Panicked ==> outcome == Returned(true)
    {
      if |config.indexDirs| == 0 {
        return Returned(false);
      }
      var panicked := IndexDirs(config.indexDirs, fs, platform);
      outcome := if panicked then Panicked else Returned(true);
    }

    /** The outer loop over the configured directories, stopping at the first panic. */
    method IndexDirs(dirs: seq<string>, fs: FileSystem, platform: Platform) returns (panicked: bool)
      modifies this
      ensures apps == old(apps) + DirsRun(fs, dirs, platform).pushed
      ensures panicked == DirsRun(fs, dirs, platform).panicked
    {
      panicked := false;
      var i := 0;
      while i < |dirs| && !panicked
        invariant 0 <= i <= |dirs|
        invariant panicked == DirsRun(fs, dirs[..i], platform).panicked
        invariant apps == old(apps) + DirsRun(fs, dirs[..i], platform).pushed
      {
        ghost var before := DirsRun(fs, dirs[..i], platform).pushed;
        DirsRunStep(fs, dirs, i, platform);
        panicked := IndexDir(dirs[i], fs, platform);
        assert apps == old(apps) + (before + DirRun(fs, dirs[i], platform).pushed);
        i := i + 1;
      }
      if panicked {
        DirsRunPanicSticks(fs, dirs, i, platform);
      } else {
        assert dirs[..i] == dirs;
      }
    }

    /** One configured directory: passed over when missing, a panic when it is not a directory. */
    method IndexDir(dir: string, fs: FileSystem, platform: Platform) returns (panicked: bool)
      modifies this
      ensures apps == old(apps) + DirRun(fs, dir, platform).pushed
      ensures panicked == DirRun(fs, dir, platform).panicked
    {
      if dir !in fs {
        return false;
      }
      var listing := ReadDir(fs, dir);
      if listing.None? {
        return true;
      }
      panicked := IndexEntries(dir, listing.value, fs, platform);
    }

    /** The inner loop over one directory's entries, stopping at an entry without metadata. */
    method IndexEntries(dir: string, names: seq<string>, fs: FileSystem, platform: Platform) returns (panicked: bool)
      modifies this
      ensures apps == old(apps) + EntriesRun(fs, dir, names, platform).pushed
      ensures panicked == EntriesRun(fs, dir, names, platform).panicked
    {
      panicked := false;
      var j := 0;
      while j < |names| && !panicked
        invariant 0 <= j <= |names|
        invariant panicked == EntriesRun(fs, dir, names[..j], platform).panicked
        invariant apps == old(apps) + EntriesRun(fs, dir, names[..j], platform).pushed
      {
        var name := names[j];
        var path := JoinPath(dir, name);
        EntriesRunStep(fs, dir, names, j, platform);
        if path !in fs {
          panicked := true;
        } else if IsExecutable(platform, name, fs[path]) {
          apps := apps + [ConfigApp(path, name)];
        }
        j := j + 1;
      }
      if panicked {
        EntriesRunPanicSticks(fs, dir, names, j, platform);
      } else {
        assert names[..j] == names;
      }
    }
  }
}
