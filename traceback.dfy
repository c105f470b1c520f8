/** The traceback printer of wasabi: a configuration fixed at construction
    and a pure rendering of (title, body texts, optional trail of stack
    records, optional highlight) into one message string. */
module Traceback {
  import opened Wrappers
  import opened Builtins

  /* ---------------------------------------------------------------------- */
  /* What the printer takes from the utility module                          */
  /* ---------------------------------------------------------------------- */

  /** A colour as callers give it: a name such as "red" or a terminal code. */
  datatype ColorSpec = ColorName(name: string) | ColorCode(code: int)

  /** The utility module's `color(text, fg, bold, underline)`, which wraps a
      text in terminal codes; the printer treats it as a black box. */
  type Painter = (string, Option<ColorSpec>, bool, bool) -> string

  /** The three tree-drawing glyphs LINE_EDGE, LINE_FORK and LINE_PATH. */
  datatype Glyphs = Glyphs(edge: string, fork: string, path: string)

  const Utf8Glyphs: Glyphs := Glyphs("└─", "├─", "──")
  const AsciiGlyphs: Glyphs := Glyphs("|_", "|__", "__")

  /** The utility module as the printer sees it: the NO_UTF8 flag that
      picks the glyphs, and the colour function. */
  datatype Util = Util(noUtf8: bool, color: Painter) {
    /** The glyphs in use: the ASCII set exactly when NO_UTF8 is set. Being
        one of the two sets is what `GlyphsPlain` and `ConnectorStart` need. */
    function LineGlyphs(): (g: Glyphs)
      ensures g == Utf8Glyphs || g == AsciiGlyphs
      ensures g == AsciiGlyphs <==> noUtf8
    {
      if noUtf8 then AsciiGlyphs else Utf8Glyphs
    }
  }

  /* ---------------------------------------------------------------------- */
  /* Configuration                                                           */
  /* ---------------------------------------------------------------------- */

  /** The printer's fields, set once at construction and never changed.
      `indent` is the indentation string, `tbBase` the marker `/<base>/`
      used to shorten paths, `tbExclude` the excluded file-name suffixes and
      `supportsAnsi` the cached answer of the terminal probe. */
  datatype Config = Config(
    colorError: ColorSpec,
    colorTb: ColorSpec,
    colorHighlight: ColorSpec,
    indent: string,
    tbBase: Option<string>,
    tbExclude: seq<string>,
    supportsAnsi: bool)
  {
    /** What construction guarantees: the indent is made of spaces and a
        path marker, when there is one, is not empty. */
    predicate Valid() {
      && (forall k :: 0 <= k < |indent| ==> indent[k] == ' ')
      && (tbBase.Some? ==> |tbBase.value| > 0)
    }
  }

  /** The path marker built from the base directory name: `/<name>/` for a
      non-empty name, and none when the name is absent or empty. */
  function BaseMarker(tbBase: Option<string>): (m: Option<string>)
    ensures m.Some? <==> tbBase.Some? && tbBase.value != ""
    ensures m.Some? ==> |m.value| == |tbBase.value| + 2
    ensures m.Some? ==> m.value[0] == '/' && m.value[|m.value| - 1] == '/'
    ensures m.Some? ==> m.value[1..|m.value| - 1] == tbBase.value
  {
    if tbBase.Some? && tbBase.value != "" then Some("/" + tbBase.value + "/") else None
  }

  /** The constructor. `supportsAnsi` is the result of the terminal probe,
      which construction performs once; the other parameters carry the
      source's defaults. */
  function NewPrinter(
    supportsAnsi: bool,
    colorError: ColorSpec := ColorName("red"),
    colorTb: ColorSpec := ColorName("blue"),
    colorHighlight: ColorSpec := ColorName("yellow"),
    indent: int := 2,
    tbBase: Option<string> := None,
    tbExclude: seq<string> := []): (c: Config)
    ensures c.Valid()
    ensures |c.indent| == (if indent <= 0 then 0 else indent)
    ensures c.tbBase == BaseMarker(tbBase)
    ensures c.tbExclude == tbExclude && c.supportsAnsi == supportsAnsi
    ensures c.colorError == colorError && c.colorTb == colorTb && c.colorHighlight == colorHighlight
  {
    var spaces := Repeat(" ", indent);
    RepeatMembers(" ", indent);
    Config(colorError, colorTb, colorHighlight, spaces, BaseMarker(tbBase), tbExclude, supportsAnsi)
  }

  /* ---------------------------------------------------------------------- */
  /* Stack records and their selection                                       */
  /* ---------------------------------------------------------------------- */

  /** One record of the trail: (path, line, function name, source text). */
  datatype Frame = Frame(path: string, line: nat, fn: string, text: string)

  /** The records whose path ends with none of the excluded suffixes, in
      their original order. */
  function Exclude(tb: seq<Frame>, exclude: seq<string>): (r: seq<Frame>)
    ensures |r| <= |tb|
    ensures forall f :: f in r <==> f in tb && !EndsWithAny(f.path, exclude)
  {
    if tb == [] then []
    else (if EndsWithAny(tb[0].path, exclude) then [] else [tb[0]]) + Exclude(tb[1..], exclude)
  }

  /** The records shown: the slice `[-5:-2]` of the filtered trail. */
  function Shown(tb: seq<Frame>): seq<Frame>
  {
    Slice(tb, -5, -2)
  }

  /* ---------------------------------------------------------------------- */
  /* One frame line                                                          */
  /* ---------------------------------------------------------------------- */

  /** The tree connector of frame `i` of `count`: the edge glyph for the
      last frame and the fork glyph otherwise, then `i` path glyphs. */
  function Connector(g: Glyphs, i: nat, count: nat): string
  {
    (if i == count - 1 then g.edge else g.fork) + Repeat(g.path, i)
  }

  /** The path as shown: the text after the last occurrence of the marker
      when it occurs, and the unchanged path otherwise. */
  function ShortenPath(marker: Option<string>, path: string): string
    requires marker.Some? ==> |marker.value| > 0
  {
    if marker.Some? && Contains(path, marker.value) then AfterLast(path, marker.value) else path
  }

  /** A highlight is used when it is present and non-empty. */
  predicate Active(highlight: Option<string>) {
    highlight.Some? && highlight.value != ""
  }

  /** The `>>>` marker that points at the source text of frame `i`. */
  function Spacing(cfg: Config, util: Util, i: nat): string
  {
    var spacing := Repeat("  ", i) + " >>>";
    if cfg.supportsAnsi then util.color(spacing, Some(cfg.colorError), false, false) else spacing
  }

  /** The source text with every occurrence of the highlight coloured, when
      colour is supported and the highlight is used; otherwise unchanged. */
  function Highlighted(cfg: Config, util: Util, text: string, highlight: Option<string>): string
  {
    if Active(highlight) && cfg.supportsAnsi then
      var h := highlight.value;
      Replace(text, h, util.color(h, Some(cfg.colorHighlight), false, false))
    else text
  }

  /** The source-text annotation of the innermost shown frame. */
  function FormatUserError(cfg: Config, util: Util, text: string, i: nat, highlight: Option<string>): string
  {
    "\n" + cfg.indent + "  " + Spacing(cfg, util, i) + " " + Highlighted(cfg, util, text, highlight)
  }

  /** The text appended to frame `i` of `count`: the annotation for the last
      frame and nothing for the others. */
  function FrameText(cfg: Config, util: Util, f: Frame, i: nat, count: nat, highlight: Option<string>): (r: string)
    ensures r != "" <==> i == count - 1
    ensures r != "" ==> r[0] == '\n'
  {
    if i == count - 1 then FormatUserError(cfg, util, f.text, i, highlight) else ""
  }

  /** The function name as shown: bold when colour is supported. */
  function ShownName(cfg: Config, util: Util, fn: string): string
  {
    if cfg.supportsAnsi then util.color(fn, None, true, false) else fn
  }

  /** The path as shown: shortened, and underlined when colour is supported. */
  function ShownPath(cfg: Config, util: Util, path: string): string
    requires cfg.Valid()
  {
    var p := ShortenPath(cfg.tbBase, path);
    if cfg.supportsAnsi then util.color(p, None, false, true) else p
  }

  /** What follows the connector in a frame line: ` {fn} [{line}] in {path}{text}`. */
  function FrameTail(cfg: Config, util: Util, f: Frame, i: nat, count: nat, highlight: Option<string>): string
    requires cfg.Valid()
  {
    " " + ShownName(cfg, util, f.fn) + " [" + ToString(f.line) + "] in " + ShownPath(cfg, util, f.path)
    + FrameText(cfg, util, f, i, count, highlight)
  }

  /** `{base_indent}{indent} {fn} [{line}] in {path}{text}` for frame `i`. */
  function FormatFrame(cfg: Config, util: Util, f: Frame, i: nat, count: nat, highlight: Option<string>): string
    requires cfg.Valid()
  {
    cfg.indent + Connector(util.LineGlyphs(), i, count) + FrameTail(cfg, util, f, i, count, highlight)
  }

  /** The formatted lines of the shown frames, numbered from 0. */
  function FrameLines(cfg: Config, util: Util, frames: seq<Frame>, highlight: Option<string>): (lines: seq<string>)
    requires cfg.Valid()
    ensures |lines| == |frames|
  {
    seq(|frames|, i requires 0 <= i < |frames| => FormatFrame(cfg, util, frames[i], i, |frames|, highlight))
  }

  /* ---------------------------------------------------------------------- */
  /* The traceback section and the whole message                             */
  /* ---------------------------------------------------------------------- */

  /** The "Traceback:" header, bold and coloured when colour is supported. */
  function TracebackTitle(cfg: Config, util: Util): string
  {
    if cfg.supportsAnsi then util.color("Traceback:", Some(cfg.colorTb), true, false) else "Traceback:"
  }

  /** The joined and stripped lines of the frames shown for a trail. */
  function TracebackData(cfg: Config, util: Util, tb: seq<Frame>, highlight: Option<string>): string
    requires cfg.Valid()
  {
    Strip(Join("\n", FrameLines(cfg, util, Shown(Exclude(tb, cfg.tbExclude)), highlight)))
  }

  /** The traceback section for a non-empty trail. */
  function GetTraceback(cfg: Config, util: Util, tb: seq<Frame>, highlight: Option<string>): string
    requires cfg.Valid()
  {
    "\n\n" + cfg.indent + TracebackTitle(cfg, util) + "\n" + cfg.indent
    + TracebackData(cfg, util, tb, highlight)
  }

  /** The title, bold and in the error colour when colour is supported. */
  function Title(cfg: Config, util: Util, title: string): string
  {
    if cfg.supportsAnsi then util.color(title, Some(cfg.colorError), true, false) else title
  }

  /** The body: nothing without texts, otherwise a newline and the texts,
      each behind the indent, one per line. */
  function Info(cfg: Config, texts: seq<string>): string
  {
    if texts == [] then ""
    else "\n" + Join("\n", seq(|texts|, k requires 0 <= k < |texts| => cfg.indent + texts[k]))
  }

  /** The traceback section: present only for a trail that is given and
      non-empty. */
  function TrailSection(cfg: Config, util: Util, tb: Option<seq<Frame>>, highlight: Option<string>): string
    requires cfg.Valid()
  {
    if tb.Some? && tb.value != [] then GetTraceback(cfg, util, tb.value, highlight) else ""
  }

  /** Calling the printer: the whole message. */
  function Format(
    cfg: Config, util: Util, title: string, texts: seq<string>,
    highlight: Option<string> := None, tb: Option<seq<Frame>> := None): string
    requires cfg.Valid()
  {
    "\n\n" + cfg.indent + Title(cfg, util, title) + Info(cfg, texts)
    + TrailSection(cfg, util, tb, highlight) + "\n"
  }
}
