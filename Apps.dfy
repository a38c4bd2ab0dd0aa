/**
 * The index record (src/app/apps.rs): what an entry does when chosen, the
 * entry itself, its hand-written equality, the press message a rendered
 * entry carries, and the built-in entries.
 */
module Apps {
  import opened Base
  import opened Strings
  import opened Commands

  /** A decoded icon as the UI holds it: an RGBA raster. */
  datatype Handle = Handle(width: nat, height: nat, pixels: seq<bv8>)

  datatype Page = EmojiSearch | ClipboardHistory

  /** The application messages this core names. */
  datatype Message =
    | RunFunction(func: Function)
    | SwitchToPage(page: Page)
    | ReloadConfig

  /** What choosing an entry does; `Display` entries only show text. */
  datatype AppCommand =
    | Function(func: Function)
    | Message(message: Message)
    | Display

  /** One searchable result. */
  datatype App = App(
    openCommand: AppCommand,
    desc: string,
    icon: Option<Handle>,
    name: string,
    nameLc: string)

  /** The hand-written `PartialEq`: every field but the command. */
  predicate AppEq(a: App, b: App) {
    a.nameLc == b.nameLc && a.icon == b.icon && a.desc == b.desc && a.name == b.name
  }

  /** Two entries are equal exactly when they agree once the command is disregarded. */
  lemma AppEqIgnoresCommand(a: App, b: App)
    ensures AppEq(a, b) <==> a.(openCommand := b.openCommand) == b
  {
  }

  /** The equality is an equivalence. */
  lemma AppEqIsEquivalence(a: App, b: App, c: App)
    ensures AppEq(a, a)
    ensures AppEq(a, b) <==> AppEq(b, a)
    ensures AppEq(a, b) && AppEq(b, c) ==> AppEq(a, c)
  {
  }

  /** The message a rendered entry sends when pressed; a display entry has none. */
  function PressMessage(command: AppCommand): (r: Option<Message>)
    ensures r.None? <==> command.Display?
    ensures command.Function? ==> r == Some(RunFunction(command.func))
    ensures command.Message? ==> r == Some(command.message)
  {
    match command
    case Function(f) => Some(RunFunction(f))
    case Message(m) => Some(m)
    case Display => None
  }

  predicate Runnable(app: App) {
    PressMessage(app.openCommand).Some?
  }

  // ------------------------------------------------------------ built-ins

  const VersionPrefix := "Current RustCast Version: "
  const UnknownVersion := "Unknown Version"
  const FinderPath := "/System/Library/CoreServices/Finder.app"

  /**
   * `basic_apps`, given the description constant the UI shares, the
   * version fixed at build time (if any) and the bundled icon.
   */
  function BasicApps(descName: string, appVersion: Option<string>, icon: Option<Handle>): seq<App> {
    [
      App(Function(Quit), descName, icon, "Quit RustCast", "quit"),
      App(Function(OpenPrefPane), descName, icon, "Open RustCast Preferences", "settings"),
      App(Message(SwitchToPage(EmojiSearch)), descName, icon, "Search for an Emoji", "emoji"),
      App(Message(SwitchToPage(ClipboardHistory)), descName, icon, "Clipboard History", "clipboard"),
      App(Message(ReloadConfig), descName, icon, "Reload RustCast", "refresh"),
      App(Display, descName, icon, VersionPrefix + appVersion.GetOr(UnknownVersion), "version"),
      App(Function(OpenApp(FinderPath)), "Application", icon, "Finder", "finder")
    ]
  }

  /**
   * Seven entries sharing one icon, with fixed search keys; only the
   * version banner, the sixth, cannot be run.
   */
  lemma BasicAppsTable(descName: string, appVersion: Option<string>, icon: Option<Handle>)
    ensures var apps := BasicApps(descName, appVersion, icon);
      && |apps| == 7
      && (forall i :: 0 <= i < |apps| ==> apps[i].icon == icon)
      && (forall i :: 0 <= i < |apps| ==> (!Runnable(apps[i]) <==> i == 5))
      && (forall i :: 0 <= i < |apps| ==> (apps[i].openCommand.Display? <==> i == 5))
      && seq(7, i requires 0 <= i < 7 => apps[i].nameLc)
         == ["quit", "settings", "emoji", "clipboard", "refresh", "version", "finder"]
      && apps[5].name == VersionPrefix + (if appVersion.Some? then appVersion.value else UnknownVersion)
  {
  }

  /** The built-in search keys are chosen words, not the lowercased names. */
  lemma BasicKeysAreNotLowercasedNames(descName: string, appVersion: Option<string>, icon: Option<Handle>)
    ensures var apps := BasicApps(descName, appVersion, icon);
      Lower(apps[0].name) != apps[0].nameLc && Lower(apps[6].name) == apps[6].nameLc
  {
    var apps := BasicApps(descName, appVersion, icon);
    assert |Lower(apps[0].name)| != |apps[0].nameLc|;
    assert Lower("Finder") == "finder";
  }
}
