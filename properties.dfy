/** What the traceback printer promises, proved about the model in module
    Traceback: which records are shown and in what order, how each frame
    line is drawn, how paths are shortened, where the source text and its
    highlight go, and how the message is assembled. */
module TracebackProperties {
  import opened Wrappers
  import opened Builtins
  import opened Traceback

  /* ---------------------------------------------------------------------- */
  /* Helpers about characters in pieces of a string                          */
  /* ---------------------------------------------------------------------- */

  /** Every element of a slice is an element of the whole. */
  lemma SliceMembers<T>(s: seq<T>, lo: int, hi: int)
    requires 0 <= lo <= hi <= |s|
    ensures forall x :: x in s[lo..hi] ==> x in s
  {
    forall x | x in s[lo..hi] ensures x in s {
      var k :| 0 <= k < hi - lo && s[lo..hi][k] == x;
      assert s[lo + k] == x;
    }
  }

  /* ---------------------------------------------------------------------- */
  /* Filtering                                                               */
  /* ---------------------------------------------------------------------- */

  /** Filtering keeps order: it distributes over concatenation. */
  lemma {:induction false} ExcludeAppend(a: seq<Frame>, b: seq<Frame>, exclude: seq<string>)
    ensures Exclude(a + b, exclude) == Exclude(a, exclude) + Exclude(b, exclude)
    decreases |a|
  {
    if a == [] {
      assert a + b == b;
    } else {
      assert (a + b)[0] == a[0] && (a + b)[1..] == a[1..] + b;
      ExcludeAppend(a[1..], b, exclude);
    }
  }

  /** A single record is kept exactly when its path ends with no excluded
      suffix; with `ExcludeAppend` this determines the filter. */
  lemma ExcludeSingle(f: Frame, exclude: seq<string>)
    ensures Exclude([f], exclude) == if EndsWithAny(f.path, exclude) then [] else [f]
  {
    assert [f][1..] == [];
  }

  /** An empty exclusion tuple keeps every record. */
  lemma {:induction false} ExcludeNothing(tb: seq<Frame>)
    ensures Exclude(tb, []) == tb
  {
    if tb != [] {
      ExcludeNothing(tb[1..]);
      assert !EndsWithAny(tb[0].path, []);
      assert tb == [tb[0]] + tb[1..];
    }
  }

  /** A trail whose every path ends with an excluded suffix filters to
      nothing. */
  lemma {:induction false} ExcludeEverything(tb: seq<Frame>, exclude: seq<string>)
    requires forall j :: 0 <= j < |tb| ==> EndsWithAny(tb[j].path, exclude)
    ensures Exclude(tb, exclude) == []
  {
    if tb != [] {
      assert EndsWithAny(tb[0].path, exclude);
      assert forall j :: 0 <= j < |tb[1..]| ==> tb[1..][j] == tb[j + 1];
      ExcludeEverything(tb[1..], exclude);
    }
  }

  /* ---------------------------------------------------------------------- */
  /* The [-5:-2] window                                                      */
  /* ---------------------------------------------------------------------- */

  /** The slice `[-5:-2]` has min(3, max(0, L - 2)) records, and they are
      the run that ends two records before the end. */
  lemma ShownWindow(tb: seq<Frame>)
    ensures |Shown(tb)| == (if |tb| <= 2 then 0 else if |tb| >= 5 then 3 else |tb| - 2)
    ensures forall j :: 0 <= j < |Shown(tb)| ==> Shown(tb)[j] == tb[|tb| - 2 - |Shown(tb)| + j]
  {
  }

  /** A shown record is a record of the trail whose path ends with none of
      the excluded suffixes. */
  lemma ShownNotExcluded(tb: seq<Frame>, exclude: seq<string>)
    ensures forall f :: f in Shown(Exclude(tb, exclude)) ==> f in tb && !EndsWithAny(f.path, exclude)
  {
    var e := Exclude(tb, exclude);
    var n := |e|;
    var lo, hi := SliceBound(-5, n), SliceBound(-2, n);
    if lo < hi {
      SliceMembers(e, lo, hi);
    }
  }

  /* ---------------------------------------------------------------------- */
  /* Connectors                                                              */
  /* ---------------------------------------------------------------------- */

  /** The connector of frame `i` is the edge glyph for the last frame and
      the fork glyph otherwise, followed by exactly `i` path glyphs. */
  lemma ConnectorShape(g: Glyphs, i: nat, count: nat)
    ensures var head := if i == count - 1 then g.edge else g.fork;
            var c := Connector(g, i, count);
            StartsWith(c, head) && IsCopies(c[|head|..], g.path, i)
  {
    var head := if i == count - 1 then g.edge else g.fork;
    var c := Connector(g, i, count);
    assert c[|head|..] == Repeat(g.path, i);
    RepeatIsCopies(g.path, i);
  }

  /** With the UTF-8 glyphs, a connector starts with LINE_EDGE exactly for
      the last frame. */
  lemma ConnectorEdgeIffLast(i: nat, count: nat)
    ensures StartsWith(Connector(Utf8Glyphs, i, count), Utf8Glyphs.edge) <==> i == count - 1
  {
    var c := Connector(Utf8Glyphs, i, count);
    if i != count - 1 {
      assert c[0] == '├';
    }
  }

  /** With the ASCII glyphs the fork glyph "|__" itself begins with the
      edge glyph "|_", so every ASCII connector, the last frame's or not,
      starts with the edge glyph. */
  lemma AsciiForkStartsWithEdge(i: nat, count: nat)
    ensures StartsWith(Connector(AsciiGlyphs, i, count), AsciiGlyphs.edge)
  {
    var head := if i == count - 1 then AsciiGlyphs.edge else AsciiGlyphs.fork;
    var c := Connector(AsciiGlyphs, i, count);
    assert c[..2] == head[..2];
  }

  /* ---------------------------------------------------------------------- */
  /* Path shortening                                                         */
  /* ---------------------------------------------------------------------- */

  /** The path changes exactly when a marker is configured and occurs in
      it; then the shown path is what follows the marker's last
      occurrence, and holds no occurrence of the marker. */
  lemma ShortenPathSpec(marker: Option<string>, path: string)
    requires marker.Some? ==> |marker.value| > 0
    ensures ShortenPath(marker, path) != path <==> marker.Some? && Contains(path, marker.value)
    ensures marker.Some? && Contains(path, marker.value) ==>
              var r := ShortenPath(marker, path);
              && EndsWith(path, marker.value + r)
              && !Contains(r, marker.value)
              && forall j :: |path| - |r| - |marker.value| < j ==> !OccursAt(path, marker.value, j)
  {
    if marker.Some? && Contains(path, marker.value) {
      var m := marker.value;
      var r := AfterLast(path, m);
      var p := |path| - |r| - |m|;
      assert path[p..] == path[p..p + |m|] + path[p + |m|..];
    }
  }

  /** The base name "thinc" gives the marker "/thinc/". */
  lemma ThincMarker()
    ensures BaseMarker(Some("thinc")) == Some("/thinc/")
  {
    assert "/" + "thinc" + "/" == "/thinc/";
  }

  /** In the example path "/thinc/" starts at position 8 and at none of
      the next four positions. */
  lemma ThincOccurrencesLow(path: string, m: string)
    requires path == "/usr/lib/thinc/errors.py" && m == "/thinc/"
    ensures OccursAt(path, m, 8)
    ensures forall j :: 9 <= j <= 12 ==> !OccursAt(path, m, j)
  {
    assert path[8..15] == m;
    Mismatch(path, m, 9, 0);
    Mismatch(path, m, 10, 0);
    Mismatch(path, m, 11, 0);
    Mismatch(path, m, 12, 0);
  }

  /** Nor does it start at any later position where it would still fit. */
  lemma ThincOccurrencesHigh(path: string, m: string)
    requires path == "/usr/lib/thinc/errors.py" && m == "/thinc/"
    ensures forall j :: 13 <= j <= 17 ==> !OccursAt(path, m, j)
  {
    Mismatch(path, m, 13, 0);
    Mismatch(path, m, 14, 1);
    Mismatch(path, m, 15, 0);
    Mismatch(path, m, 16, 0);
    Mismatch(path, m, 17, 0);
  }

  /** The text after the last "/thinc/" of the example path. */
  lemma ThincLastOccurrence(path: string, m: string)
    requires path == "/usr/lib/thinc/errors.py" && m == "/thinc/"
    ensures Contains(path, m) && AfterLast(path, m) == "errors.py"
  {
    ThincOccurrencesLow(path, m);
    ThincOccurrencesHigh(path, m);
    AfterLastAt(path, m, 8);
    assert path[15..] == "errors.py";
  }

  /** A path under base "thinc" is shown relative to the last "/thinc/". */
  lemma ThincExample()
    ensures ShortenPath(BaseMarker(Some("thinc")), "/usr/lib/thinc/errors.py") == "errors.py"
  {
    ThincMarker();
    ThincLastOccurrence("/usr/lib/thinc/errors.py", "/thinc/");
  }

  /* ---------------------------------------------------------------------- */
  /* The source-text annotation                                              */
  /* ---------------------------------------------------------------------- */

  /** The highlight changes nothing without colour or without a highlight,
      and nothing when it does not occur; otherwise each of its
      `s.count(h)` occurrences is replaced by its coloured form. */
  lemma HighlightedSpec(cfg: Config, util: Util, text: string, highlight: Option<string>)
    ensures !cfg.supportsAnsi || !Active(highlight) ==> Highlighted(cfg, util, text, highlight) == text
    ensures cfg.supportsAnsi && Active(highlight) && !Contains(text, highlight.value) ==>
              Highlighted(cfg, util, text, highlight) == text
    ensures cfg.supportsAnsi && Active(highlight) ==>
              var h := highlight.value;
              var painted := util.color(h, Some(cfg.colorHighlight), false, false);
              |Highlighted(cfg, util, text, highlight)| == |text| + Count(text, h) * (|painted| - |h|)
              && (Count(text, h) == 0 <==> !Contains(text, h))
  {
    if cfg.supportsAnsi && Active(highlight) {
      var h := highlight.value;
      var painted := util.color(h, Some(cfg.colorHighlight), false, false);
      ReplaceLength(text, h, painted);
      CountZeroIff(text, h);
      if !Contains(text, h) {
        ReplaceAbsent(text, h, painted);
      }
    }
  }

  /** With colour and a highlight `h` in use, in a text `a + h + b` whose
      first occurrence of `h` is the one after `a`, the text `a` is kept,
      that occurrence becomes its coloured form, and `b` is highlighted in
      the same way. */
  lemma HighlightedFirst(cfg: Config, util: Util, a: string, b: string, highlight: Option<string>)
    requires cfg.supportsAnsi && Active(highlight)
    requires forall j :: 0 <= j < |a| ==> !OccursAt(a + highlight.value + b, highlight.value, j)
    ensures var h := highlight.value;
            var painted := util.color(h, Some(cfg.colorHighlight), false, false);
            Highlighted(cfg, util, a + h + b, highlight)
            == a + painted + Highlighted(cfg, util, b, highlight)
  {
    var h := highlight.value;
    ReplaceSplit(a, h, b, util.color(h, Some(cfg.colorHighlight), false, false));
  }

  /** Without colour the marker is `2i` spaces followed by " >>>". */
  lemma SpacingPlain(cfg: Config, util: Util, i: nat)
    requires !cfg.supportsAnsi
    ensures |Spacing(cfg, util, i)| == 2 * i + 4
    ensures forall k :: 0 <= k < 2 * i ==> Spacing(cfg, util, i)[k] == ' '
    ensures Spacing(cfg, util, i)[2 * i..] == " >>>"
  {
    RepeatMembers("  ", i);
    var r := Repeat("  ", i);
    assert Spacing(cfg, util, i) == r + " >>>";
  }

  /** Without colour the annotation is a newline, the indent, two spaces,
      the marker, a space and the source text verbatim. */
  lemma UserErrorPlain(cfg: Config, util: Util, text: string, i: nat, highlight: Option<string>)
    requires !cfg.supportsAnsi
    ensures FormatUserError(cfg, util, text, i, highlight)
            == "\n" + cfg.indent + "  " + Repeat("  ", i) + " >>>" + " " + text
  {
    HighlightedSpec(cfg, util, text, highlight);
  }

  /* ---------------------------------------------------------------------- */
  /* Frame lines                                                             */
  /* ---------------------------------------------------------------------- */

  /** Without colour a frame line shows the function name and the shortened
      path verbatim. */
  lemma FramePlain(cfg: Config, util: Util, f: Frame, i: nat, count: nat, highlight: Option<string>)
    requires cfg.Valid() && !cfg.supportsAnsi
    ensures FormatFrame(cfg, util, f, i, count, highlight)
            == cfg.indent + Connector(util.LineGlyphs(), i, count)
               + (" " + f.fn + " [" + ToString(f.line) + "] in " + ShortenPath(cfg.tbBase, f.path)
                  + FrameText(cfg, util, f, i, count, highlight))
  {
  }

  predicate NoNewline(s: string) {
    '\n' !in s
  }

  /** The glyphs hold no newline and no escape character. */
  lemma GlyphsPlain(g: Glyphs, c: char)
    requires g == Utf8Glyphs || g == AsciiGlyphs
    requires c == '\n' || c == Esc
    ensures c !in g.edge && c !in g.fork && c !in g.path
  {
  }

  /** A character in none of the glyphs is not in a connector. */
  lemma ConnectorMembers(g: Glyphs, i: nat, count: nat, c: char)
    requires c !in g.edge && c !in g.fork && c !in g.path
    ensures c !in Connector(g, i, count)
  {
    RepeatMembers(g.path, i);
  }

  /** The shown path is made of characters of the path. */
  lemma ShortenPathMembers(marker: Option<string>, path: string)
    requires marker.Some? ==> |marker.value| > 0
    ensures forall c :: c in ShortenPath(marker, path) ==> c in path
  {
    if marker.Some? && Contains(path, marker.value) {
      var r := AfterLast(path, marker.value);
      SliceMembers(path, |path| - |r|, |path|);
    }
  }

  /** A decimal numeral holds only digits. */
  lemma ToStringMembers(n: nat, c: char)
    requires !IsDigit(c)
    ensures c !in ToString(n)
  {
  }

  /** The part of a frame line before its annotation, without colour, holds
      no character that is in none of its fields and none of the glyphs. */
  lemma FrameHeadMembers(cfg: Config, util: Util, f: Frame, i: nat, count: nat, c: char)
    requires cfg.Valid() && !cfg.supportsAnsi
    requires c == '\n' || c == Esc
    requires c !in f.path && c !in f.fn
    ensures c !in cfg.indent + Connector(util.LineGlyphs(), i, count)
    ensures c !in " " + f.fn + " [" + ToString(f.line) + "] in " + ShortenPath(cfg.tbBase, f.path)
  {
    GlyphsPlain(util.LineGlyphs(), c);
    ConnectorMembers(util.LineGlyphs(), i, count, c);
    ShortenPathMembers(cfg.tbBase, f.path);
    ToStringMembers(f.line, c);
    assert c !in cfg.indent;
  }

  /** Without colour, and for records whose fields hold no newline, only the
      line of the last shown frame breaks onto a second line: only it
      carries the source text. */
  lemma OnlyLastAnnotated(cfg: Config, util: Util, frames: seq<Frame>, highlight: Option<string>, i: nat)
    requires cfg.Valid() && !cfg.supportsAnsi
    requires forall f :: f in frames ==> NoNewline(f.path) && NoNewline(f.fn) && NoNewline(f.text)
    requires i < |frames|
    ensures '\n' in FrameLines(cfg, util, frames, highlight)[i] <==> i == |frames| - 1
  {
    var f := frames[i];
    var line := FrameLines(cfg, util, frames, highlight)[i];
    FramePlain(cfg, util, f, i, |frames|, highlight);
    FrameHeadMembers(cfg, util, f, i, |frames|, '\n');
    var text := FrameText(cfg, util, f, i, |frames|, highlight);
    if i == |frames| - 1 {
      assert text[0] == '\n';
      assert line[|line| - |text|] == '\n';
    } else {
      assert text == "";
    }
  }

  /* ---------------------------------------------------------------------- */
  /* The traceback section                                                   */
  /* ---------------------------------------------------------------------- */

  /** No connector is empty or starts with whitespace. */
  lemma ConnectorStart(g: Glyphs, i: nat, count: nat)
    requires g == Utf8Glyphs || g == AsciiGlyphs
    ensures |Connector(g, i, count)| > 0 && !IsSpace(Connector(g, i, count)[0])
  {
    var head := if i == count - 1 then g.edge else g.fork;
    assert Connector(g, i, count)[0] == head[0];
    assert head[0] == '└' || head[0] == '├' || head[0] == '|';
  }

  /** A frame line is the indent followed by the connector. */
  lemma FrameLineStart(cfg: Config, util: Util, f: Frame, i: nat, count: nat, highlight: Option<string>)
    requires cfg.Valid()
    ensures var line := FormatFrame(cfg, util, f, i, count, highlight);
            && |cfg.indent| < |line|
            && line[..|cfg.indent|] == cfg.indent
            && !IsSpace(line[|cfg.indent|])
  {
    var c := Connector(util.LineGlyphs(), i, count);
    ConnectorStart(util.LineGlyphs(), i, count);
    var line := FormatFrame(cfg, util, f, i, count, highlight);
    var a := cfg.indent + c;
    assert line[..|a|] == a;
    assert line[|cfg.indent|] == a[|cfg.indent|] == c[0];
    assert line[..|cfg.indent|] == a[..|cfg.indent|];
  }

  /** The joined frame lines begin with the indent followed by a glyph. */
  lemma FrameLinesStart(cfg: Config, util: Util, frames: seq<Frame>, highlight: Option<string>)
    requires cfg.Valid() && frames != []
    ensures var joined := Join("\n", FrameLines(cfg, util, frames, highlight));
            && |cfg.indent| < |joined|
            && joined[..|cfg.indent|] == cfg.indent
            && !IsSpace(joined[|cfg.indent|])
  {
    var lines := FrameLines(cfg, util, frames, highlight);
    JoinStartsWithFirst("\n", lines);
    FrameLineStart(cfg, util, frames[0], 0, |frames|, highlight);
    var joined := Join("\n", lines);
    assert joined[..|lines[0]|] == lines[0];
    assert joined[|cfg.indent|] == lines[0][|cfg.indent|];
    assert joined[..|cfg.indent|] == lines[0][..|cfg.indent|];
  }

  /** `str.strip` removes exactly the indent of the first frame line at the
      front, which the section's template puts back; at the back it removes
      trailing whitespace only. */
  lemma StripDropsFirstIndent(cfg: Config, util: Util, frames: seq<Frame>, highlight: Option<string>)
    requires cfg.Valid() && frames != []
    ensures var joined := Join("\n", FrameLines(cfg, util, frames, highlight));
            cfg.indent + Strip(joined) == TrimRight(joined)
  {
    var joined := Join("\n", FrameLines(cfg, util, frames, highlight));
    FrameLinesStart(cfg, util, frames, highlight);
    var rest := joined[|cfg.indent|..];
    assert joined == cfg.indent + rest;
    assert forall k :: 0 <= k < |cfg.indent| ==> IsSpace(cfg.indent[k]);
    TrimLeftExact(cfg.indent, rest);
    TrimRightAfterPrefix(cfg.indent, rest);
  }

  /** `rstrip` of a text that starts with a non-space keeps any prefix. */
  lemma TrimRightAfterPrefix(pre: string, rest: string)
    requires rest != [] && !IsSpace(rest[0])
    ensures pre + TrimRight(rest) == TrimRight(pre + rest)
    decreases |rest|
  {
    var s := pre + rest;
    if IsSpace(rest[|rest| - 1]) {
      assert s[..|s| - 1] == pre + rest[..|rest| - 1];
      TrimRightAfterPrefix(pre, rest[..|rest| - 1]);
    }
  }

  /** With no frame shown, the section is a blank line, the indent, the
      header, a line break and the indent. */
  lemma SectionWithoutFrames(cfg: Config, util: Util, tb: seq<Frame>, highlight: Option<string>)
    requires cfg.Valid() && Shown(Exclude(tb, cfg.tbExclude)) == []
    ensures GetTraceback(cfg, util, tb, highlight)
            == "\n\n" + cfg.indent + TracebackTitle(cfg, util) + "\n" + cfg.indent
  {
    var shown := Shown(Exclude(tb, cfg.tbExclude));
    assert FrameLines(cfg, util, shown, highlight) == [];
    assert TracebackData(cfg, util, tb, highlight) == Strip("");
  }

  /** With frames shown, the section is a blank line, the indent, the
      header, a line break and then the frame lines, each with its own
      indent, with trailing whitespace removed. */
  lemma SectionWithFrames(cfg: Config, util: Util, tb: seq<Frame>, highlight: Option<string>)
    requires cfg.Valid() && Shown(Exclude(tb, cfg.tbExclude)) != []
    ensures var shown := Shown(Exclude(tb, cfg.tbExclude));
            GetTraceback(cfg, util, tb, highlight)
            == "\n\n" + cfg.indent + TracebackTitle(cfg, util) + "\n"
               + TrimRight(Join("\n", FrameLines(cfg, util, shown, highlight)))
  {
    var shown := Shown(Exclude(tb, cfg.tbExclude));
    var joined := Join("\n", FrameLines(cfg, util, shown, highlight));
    var head := "\n\n" + cfg.indent + TracebackTitle(cfg, util) + "\n";
    StripDropsFirstIndent(cfg, util, shown, highlight);
    assert GetTraceback(cfg, util, tb, highlight) == head + cfg.indent + Strip(joined);
    ConcatAssoc(head, cfg.indent, Strip(joined));
  }

  lemma ConcatAssoc(a: string, b: string, c: string)
    ensures a + b + c == a + (b + c)
  {
  }

  /* ---------------------------------------------------------------------- */
  /* The message                                                             */
  /* ---------------------------------------------------------------------- */

  /** Reference definition of the body: each text on its own line behind
      the indent. */
  function IndentedLines(indent: string, texts: seq<string>): string
  {
    if texts == [] then "" else "\n" + indent + texts[0] + IndentedLines(indent, texts[1..])
  }

  lemma {:induction false} PrefixEachIndented(indent: string, texts: seq<string>)
    ensures PrefixEach("\n", seq(|texts|, k requires 0 <= k < |texts| => indent + texts[k]))
            == IndentedLines(indent, texts)
    decreases |texts|
  {
    var parts := seq(|texts|, k requires 0 <= k < |texts| => indent + texts[k]);
    if texts != [] {
      PrefixEachIndented(indent, texts[1..]);
      assert parts[1..] == seq(|texts[1..]|, k requires 0 <= k < |texts[1..]| => indent + texts[1..][k]);
    }
  }

  /** The body is empty without texts, and otherwise puts every text on a
      line of its own behind the indent. */
  lemma InfoIsIndentedLines(cfg: Config, texts: seq<string>)
    ensures Info(cfg, texts) == IndentedLines(cfg.indent, texts)
    ensures texts == [] ==> Info(cfg, texts) == ""
  {
    if texts != [] {
      var parts := seq(|texts|, k requires 0 <= k < |texts| => cfg.indent + texts[k]);
      JoinAsPrefixes("\n", parts);
      PrefixEachIndented(cfg.indent, texts);
    }
  }

  /** Without a trail, or with an empty one, there is no traceback section. */
  lemma NoTrailNoSection(cfg: Config, util: Util, title: string, texts: seq<string>,
                         highlight: Option<string>, tb: Option<seq<Frame>>)
    requires cfg.Valid() && (tb.None? || tb.value == [])
    ensures Format(cfg, util, title, texts, highlight, tb)
            == "\n\n" + cfg.indent + Title(cfg, util, title) + IndentedLines(cfg.indent, texts) + "\n"
  {
    InfoIsIndentedLines(cfg, texts);
  }

  /** The message is a blank line, the indent, the title, the body, the
      traceback section and a final line break; without colour the title
      is the caller's verbatim. */
  lemma MessageShape(cfg: Config, util: Util, title: string, texts: seq<string>,
                     highlight: Option<string>, tb: Option<seq<Frame>>)
    requires cfg.Valid()
    ensures Format(cfg, util, title, texts, highlight, tb)
            == "\n\n" + cfg.indent + Title(cfg, util, title) + IndentedLines(cfg.indent, texts)
               + TrailSection(cfg, util, tb, highlight) + "\n"
    ensures !cfg.supportsAnsi ==> Title(cfg, util, title) == title
  {
    InfoIsIndentedLines(cfg, texts);
  }

  /** A given, non-empty trail yields a section that starts with a blank
      line, the indent and the "Traceback:" header, whatever the filter
      keeps; without colour the header is the plain word. */
  lemma SectionHeader(cfg: Config, util: Util, tb: seq<Frame>, highlight: Option<string>)
    requires cfg.Valid() && tb != []
    ensures StartsWith(TrailSection(cfg, util, Some(tb), highlight),
                       "\n\n" + cfg.indent + TracebackTitle(cfg, util) + "\n" + cfg.indent)
    ensures !cfg.supportsAnsi ==> TracebackTitle(cfg, util) == "Traceback:"
  {
    PrefixOfConcat("\n\n" + cfg.indent + TracebackTitle(cfg, util) + "\n" + cfg.indent,
                   TracebackData(cfg, util, tb, highlight));
  }

  lemma PrefixOfConcat(a: string, b: string)
    ensures StartsWith(a + b, a)
  {
    assert (a + b)[..|a|] == a;
  }

  /** A non-empty trail always yields the header, even when filtering
      leaves fewer than three records and so no frame is shown. */
  lemma HeaderWithoutFrames(cfg: Config, util: Util, title: string, texts: seq<string>,
                            highlight: Option<string>, tb: seq<Frame>)
    requires cfg.Valid() && tb != [] && |Exclude(tb, cfg.tbExclude)| <= 2
    ensures Format(cfg, util, title, texts, highlight, Some(tb))
            == "\n\n" + cfg.indent + Title(cfg, util, title) + IndentedLines(cfg.indent, texts)
               + "\n\n" + cfg.indent + TracebackTitle(cfg, util) + "\n" + cfg.indent + "\n"
  {
    InfoIsIndentedLines(cfg, texts);
    ShownWindow(Exclude(tb, cfg.tbExclude));
    SectionWithoutFrames(cfg, util, tb, highlight);
  }

  /** A non-empty trail whose records are all excluded still yields the
      header. */
  lemma HeaderWhenAllExcluded(cfg: Config, util: Util, title: string, texts: seq<string>,
                              highlight: Option<string>, tb: seq<Frame>)
    requires cfg.Valid() && tb != []
    requires forall j :: 0 <= j < |tb| ==> EndsWithAny(tb[j].path, cfg.tbExclude)
    ensures Exclude(tb, cfg.tbExclude) == []
    ensures Format(cfg, util, title, texts, highlight, Some(tb))
            == "\n\n" + cfg.indent + Title(cfg, util, title) + IndentedLines(cfg.indent, texts)
               + "\n\n" + cfg.indent + TracebackTitle(cfg, util) + "\n" + cfg.indent + "\n"
  {
    ExcludeEverything(tb, cfg.tbExclude);
    HeaderWithoutFrames(cfg, util, title, texts, highlight, tb);
  }

  /** The default printer without colour renders a one-line body under the
      title with the two-space indent. */
  lemma BadValueExample(util: Util)
    ensures Format(NewPrinter(false), util, "Bad value", ["Expected int"])
            == "\n\n  Bad value\n  Expected int\n"
  {
    var cfg := NewPrinter(false);
    DefaultIndent();
    NoTrailNoSection(cfg, util, "Bad value", ["Expected int"], None, None);
    OneIndentedLine(cfg.indent, "Expected int");
    BadValueLayout(cfg.indent, Title(cfg, util, "Bad value"), IndentedLines(cfg.indent, ["Expected int"]));
  }

  /** One text makes one indented line. */
  lemma OneIndentedLine(indent: string, text: string)
    ensures IndentedLines(indent, [text]) == "\n" + indent + text
  {
    assert [text][1..] == [];
  }

  lemma BadValueLayout(indent: string, title: string, body: string)
    requires indent == "  " && title == "Bad value" && body == "\n" + indent + "Expected int"
    ensures "\n\n" + indent + title + body + "\n" == "\n\n  Bad value\n  Expected int\n"
  {
  }

  /** The default indentation is two spaces. */
  lemma DefaultIndent()
    ensures NewPrinter(false).indent == "  "
  {
    assert Repeat(" ", 2) == " " + Repeat(" ", 1);
  }

  /* ---------------------------------------------------------------------- */
  /* No escape codes without colour                                          */
  /* ---------------------------------------------------------------------- */

  /** The escape character that starts every terminal colour code. */
  const Esc: char := '\U{1B}'

  predicate FramePlainText(f: Frame) {
    Esc !in f.path && Esc !in f.fn && Esc !in f.text
  }

  lemma {:induction false} JoinMembers(sep: string, parts: seq<string>, c: char)
    requires c !in sep && forall p :: p in parts ==> c !in p
    ensures c !in Join(sep, parts)
    decreases |parts|
  {
    if |parts| > 1 {
      JoinMembers(sep, parts[1..], c);
    }
  }

  lemma StripMembers(s: string)
    ensures forall c :: c in Strip(s) ==> c in s
  {
    var r := Strip(s);
    SliceMembers(s, StripStart(s), StripStart(s) + |r|);
  }

  /** Without colour, a shown frame line holds no escape character unless
      one of its record's fields does. */
  lemma FrameNoEscape(cfg: Config, util: Util, f: Frame, i: nat, count: nat, highlight: Option<string>)
    requires cfg.Valid() && !cfg.supportsAnsi && FramePlainText(f)
    ensures Esc !in FormatFrame(cfg, util, f, i, count, highlight)
  {
    FramePlain(cfg, util, f, i, count, highlight);
    FrameHeadMembers(cfg, util, f, i, count, Esc);
    if i == count - 1 {
      UserErrorPlain(cfg, util, f.text, i, highlight);
      RepeatMembers("  ", i);
      assert Esc !in cfg.indent;
    }
  }

  /** Without colour the body holds no escape character unless the texts do. */
  lemma InfoNoEscape(cfg: Config, texts: seq<string>)
    requires cfg.Valid()
    requires forall t :: t in texts ==> Esc !in t
    ensures Esc !in Info(cfg, texts)
  {
    assert Esc !in cfg.indent;
    if texts != [] {
      var parts := seq(|texts|, k requires 0 <= k < |texts| => cfg.indent + texts[k]);
      forall p | p in parts ensures Esc !in p {
        var k :| 0 <= k < |parts| && parts[k] == p;
        assert texts[k] in texts;
      }
      JoinMembers("\n", parts, Esc);
    }
  }

  /** Without colour the stripped frame lines hold no escape character
      unless the records do. */
  lemma DataNoEscape(cfg: Config, util: Util, tb: seq<Frame>, highlight: Option<string>)
    requires cfg.Valid() && !cfg.supportsAnsi
    requires forall f :: f in tb ==> FramePlainText(f)
    ensures Esc !in TracebackData(cfg, util, tb, highlight)
  {
    var shown := Shown(Exclude(tb, cfg.tbExclude));
    ShownNotExcluded(tb, cfg.tbExclude);
    var lines := FrameLines(cfg, util, shown, highlight);
    forall p | p in lines ensures Esc !in p {
      var k :| 0 <= k < |lines| && lines[k] == p;
      assert shown[k] in shown;
      FrameNoEscape(cfg, util, shown[k], k, |shown|, highlight);
    }
    JoinMembers("\n", lines, Esc);
    StripMembers(Join("\n", lines));
  }

  /** Without colour the traceback section holds no escape character
      unless the records do. */
  lemma SectionNoEscape(cfg: Config, util: Util, tb: Option<seq<Frame>>, highlight: Option<string>)
    requires cfg.Valid() && !cfg.supportsAnsi
    requires tb.Some? ==> forall f :: f in tb.value ==> FramePlainText(f)
    ensures Esc !in TrailSection(cfg, util, tb, highlight)
  {
    if tb.Some? && tb.value != [] {
      TracebackNoEscape(cfg, util, tb.value, highlight);
    }
  }

  /** The same for the section of a given trail. */
  lemma TracebackNoEscape(cfg: Config, util: Util, tb: seq<Frame>, highlight: Option<string>)
    requires cfg.Valid() && !cfg.supportsAnsi
    requires forall f :: f in tb ==> FramePlainText(f)
    ensures Esc !in GetTraceback(cfg, util, tb, highlight)
  {
    DataNoEscape(cfg, util, tb, highlight);
    HeaderNoEscape(cfg, TracebackTitle(cfg, util), TracebackData(cfg, util, tb, highlight));
  }

  /** The section layout adds no escape character of its own. */
  lemma HeaderNoEscape(cfg: Config, title: string, data: string)
    requires cfg.Valid() && title == "Traceback:" && Esc !in data
    ensures Esc !in "\n\n" + cfg.indent + title + "\n" + cfg.indent + data
  {
    assert Esc !in cfg.indent;
  }

  /** Without colour the message contains no escape character, and so no
      terminal code, unless the caller's own texts or records do. */
  lemma PlainMessage(cfg: Config, util: Util, title: string, texts: seq<string>,
                     highlight: Option<string>, tb: Option<seq<Frame>>)
    requires cfg.Valid() && !cfg.supportsAnsi
    requires Esc !in title && forall t :: t in texts ==> Esc !in t
    requires tb.Some? ==> forall f :: f in tb.value ==> FramePlainText(f)
    ensures Esc !in Format(cfg, util, title, texts, highlight, tb)
  {
    assert Esc !in cfg.indent;
    InfoNoEscape(cfg, texts);
    SectionNoEscape(cfg, util, tb, highlight);
    var info, section := Info(cfg, texts), TrailSection(cfg, util, tb, highlight);
    assert Format(cfg, util, title, texts, highlight, tb) == "\n\n" + cfg.indent + title + info + section + "\n";
  }
}
