/**
 * The commands an index entry can run (src/commands.rs): the `Function`
 * variants, the pure part of `Function::execute` (which program, URL or
 * text each variant hands to the host) and clipboard-content equality.
 */
module Commands {
  import opened Base
  import opened Strings

  newtype i32 = x: int | -0x8000_0000 <= x < 0x8000_0000

  datatype Function =
    | OpenApp(path: string)
    | RunShellCommand(command: seq<string>)
    | RandomVar(value: i32)
    | GoogleSearch(query: string)
    | OpenPrefPane
    | Quit

  /** What `execute` asks of the host: the side effect itself is not modelled. */
  datatype Effect =
    | OpenFileUrl(path: string)
    | Spawn(program: string, args: seq<string>)
    | SetClipboardText(text: string)
    | OpenWebUrl(url: string)
    | Exit(code: int)

  const Placeholder := "%s"

  // ----------------------------------------------------------- web search

  /** The query as it goes into the URL: each space becomes `+`, nothing else changes. */
  function EncodeQuery(query: string): (r: string)
    ensures |r| == |query|
    ensures forall i :: 0 <= i < |query| ==> r[i] == (if query[i] == ' ' then '+' else query[i])
  {
    ReplaceCharPointwise(query, ' ', '+');
    Replace(query, " ", "+")
  }

  /** A query without `+` is recovered from its encoding. */
  lemma EncodeQueryRoundTrip(query: string)
    requires '+' !in query
    ensures Replace(EncodeQuery(query), "+", " ") == query
  {
    var e := EncodeQuery(query);
    ReplaceCharPointwise(e, '+', ' ');
    var d := Replace(e, "+", " ");
    assert |d| == |query|;
    forall i | 0 <= i < |query| ensures d[i] == query[i] {
      assert query[i] != '+';
    }
  }

  /**
   * The URL opened for a search: the configured template cut at its `%s`
   * placeholders into placeholder-free pieces, which rejoined with `%s` give
   * the template back and rejoined with the encoded query give the URL.
   */
  function SearchUrl(template: string, query: string): (r: string)
    ensures var pieces := Split(template, Placeholder);
      && r == Join(pieces, EncodeQuery(query))
      && Join(pieces, Placeholder) == template
      && forall k :: 0 <= k < |pieces| ==> !Occurs(pieces[k], Placeholder)
  {
    ReplaceIsJoinOfSplit(template, Placeholder, EncodeQuery(query));
    SplitJoinRoundTrip(template, Placeholder);
    SplitPiecesFree(template, Placeholder);
    Replace(template, Placeholder, EncodeQuery(query))
  }

  /** A template without a placeholder is opened as it is. */
  lemma SearchUrlWithoutPlaceholder(template: string, query: string)
    requires !Occurs(template, Placeholder)
    ensures SearchUrl(template, query) == template
  {
    ReplaceWithoutOccurrence(template, Placeholder, EncodeQuery(query));
  }

  // -------------------------------------------------------- shell command

  /** The single `sh -c` argument: the command's tokens separated by single spaces. */
  function ShellArgument(command: seq<string>): (r: string)
    ensures |command| > 0 && (forall k :: 0 <= k < |command| ==> ' ' !in command[k])
      ==> Split(r, " ") == command
  {
    // Both branches give the same text; the first only brings the round-trip lemma into scope.
    if |command| > 0 && (forall k :: 0 <= k < |command| ==> ' ' !in command[k]) then
      JoinSplitRoundTrip(command, ' ');
      Join(command, " ")
    else
      Join(command, " ")
  }

  // ------------------------------------------------------ decimal numbers

  function DigitChar(d: nat): (c: char)
    requires d < 10
    ensures '0' <= c <= '9'
  {
    ('0' as int + d) as char
  }

  predicate AllDigits(s: string) {
    forall i :: 0 <= i < |s| ==> '0' <= s[i] <= '9'
  }

  /** Decimal digits of a natural number, most significant first, no leading zero. */
  function NatToDecimal(n: nat): (r: string)
    ensures |r| > 0 && AllDigits(r)
    ensures |r| > 1 ==> r[0] != '0'
  {
    if n < 10 then [DigitChar(n)] else NatToDecimal(n / 10) + [DigitChar(n % 10)]
  }

  function DecimalToNat(s: string): nat
    requires AllDigits(s)
  {
    if |s| == 0 then 0 else 10 * DecimalToNat(s[..|s| - 1]) + (s[|s| - 1] as int - '0' as int)
  }

  /** `i32::to_string` */
  function I32ToString(v: i32): string {
    if v < 0 then "-" + NatToDecimal(-(v as int)) else NatToDecimal(v as int)
  }

  function ParseDecimal(s: string): int
    requires |s| > 0 ==> AllDigits(if s[0] == '-' then s[1..] else s)
  {
    if |s| > 0 && s[0] == '-' then -(DecimalToNat(s[1..]) as int) else DecimalToNat(s)
  }

  lemma {:induction false} NatDecimalRoundTrip(n: nat)
    ensures DecimalToNat(NatToDecimal(n)) == n
  {
    if n >= 10 {
      NatDecimalRoundTrip(n / 10);
      var r := NatToDecimal(n);
      assert r[..|r| - 1] == NatToDecimal(n / 10);
    }
  }

  /** The text put on the clipboard for `RandomVar` reads back as the number. */
  lemma I32ToStringRoundTrip(v: i32)
    ensures |I32ToString(v)| > 0
    ensures AllDigits(if I32ToString(v)[0] == '-' then I32ToString(v)[1..] else I32ToString(v))
    ensures ParseDecimal(I32ToString(v)) == v as int
  {
    if v < 0 {
      NatDecimalRoundTrip(-(v as int));
      assert ("-" + NatToDecimal(-(v as int)))[1..] == NatToDecimal(-(v as int));
    } else {
      NatDecimalRoundTrip(v as int);
    }
  }

  // -------------------------------------------------------------- execute

  /**
   * What `execute` does for each variant, given the configured search
   * template and the `HOME` variable.
   */
  function Execute(f: Function, searchTemplate: string, home: Option<string>): (r: Effect)
    ensures f.RunShellCommand? ==> r == Spawn("sh", ["-c", ShellArgument(f.command)])
    ensures f.RunShellCommand? && |f.command| > 0 && (forall k :: 0 <= k < |f.command| ==> ' ' !in f.command[k])
      ==> Split(r.args[1], " ") == f.command
    ensures f.RandomVar? ==>
              && r.SetClipboardText? && |r.text| > 0
              && AllDigits(if r.text[0] == '-' then r.text[1..] else r.text)
              && ParseDecimal(r.text) == f.value as int
    ensures f.GoogleSearch? ==> r.OpenWebUrl? && r.url == SearchUrl(searchTemplate, f.query)
  {
    match f
    case OpenApp(path) => OpenFileUrl(path)
    case RunShellCommand(command) => Spawn("sh", ["-c", ShellArgument(command)])
    case RandomVar(v) =>
      I32ToStringRoundTrip(v);
      SetClipboardText(I32ToString(v))
    case GoogleSearch(query) => OpenWebUrl(SearchUrl(searchTemplate, query))
    case OpenPrefPane => Spawn("open", [home.GetOr("") + "/.config/rustcast/config.toml"])
    case Quit => Exit(0)
  }

  // ------------------------------------------------------------ clipboard

  datatype ImageData = ImageData(width: nat, height: nat, bytes: seq<bv8>)

  datatype ClipBoardContentType = Text(text: string) | Image(image: ImageData)

  /** The hand-written equality: texts by content, images by their bytes alone. */
  predicate ContentEq(a: ClipBoardContentType, b: ClipBoardContentType) {
    if a.Text? && b.Text? then a.text == b.text
    else if a.Image? && b.Image? then a.image.bytes == b.image.bytes
    else false
  }

  /** A text never equals an image; like kinds compare their strings or their byte buffers. */
  lemma ContentEqCases(a: ClipBoardContentType, b: ClipBoardContentType)
    ensures a.Text? != b.Text? ==> !ContentEq(a, b)
    ensures a.Text? && b.Text? ==> (ContentEq(a, b) <==> a.text == b.text)
    ensures a.Image? && b.Image? ==> (ContentEq(a, b) <==> a.image.bytes == b.image.bytes)
  {
  }

  /** The equality is an equivalence: reflexive, symmetric and transitive. */
  lemma ContentEqIsEquivalence(a: ClipBoardContentType, b: ClipBoardContentType, c: ClipBoardContentType)
    ensures ContentEq(a, a)
    ensures ContentEq(a, b) <==> ContentEq(b, a)
    ensures ContentEq(a, b) && ContentEq(b, c) ==> ContentEq(a, c)
  {
  }

  /** Two images with the same bytes are equal even when their dimensions differ. */
  lemma ImagesEqualDespiteDimensions()
    ensures ContentEq(Image(ImageData(1, 4, [0, 0, 0, 0])), Image(ImageData(4, 1, [0, 0, 0, 0])))
    ensures Image(ImageData(1, 4, [0, 0, 0, 0])) != Image(ImageData(4, 1, [0, 0, 0, 0]))
  {
  }
}
