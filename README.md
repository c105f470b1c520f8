# wasabi traceback printer in Dafny

This project models `TracebackPrinter` from wasabi's `traceback.py`. The
printer is made once with a configuration: colours, indent width, a base
directory name and a tuple of file-name suffixes to exclude. Calling it with
a title, some body texts, an optional trail of `(path, line, function, text)`
stack records and an optional highlight returns one formatted message string.

The source is pure, and so is the model:

- module `Traceback` holds the printer. `Config` is a datatype with the
  fields that `__init__` sets. Construction is `NewPrinter`, and every method
  of the class is a function of the configuration and its arguments.
- `supports_ansi()` runs once, at construction. Its answer is a parameter of
  `NewPrinter` and is kept in the field `supportsAnsi`.
- The utility module's `NO_UTF8` flag and its `color` function are the
  datatype `Util`. `Util` holds the flag and an arbitrary function value
  `Painter`, so the proofs hold for every colouring function. The glyphs
  `LINE_EDGE`, `LINE_FORK` and `LINE_PATH` are the constants `Utf8Glyphs`
  and `AsciiGlyphs`, and the flag picks between them.
- module `Builtins` defines the Python operations the printer relies on:
  - `str.endswith` with a tuple of suffixes, the `in` test,
    `rsplit(sep, 1)[1]` and `replace`;
  - `count`, which the printer never calls: it only states how much
    `replace` changes a text's length;
  - `str.isspace` and `strip`, `join`, `str * n`;
  - the decimal rendering of a line number;
  - slicing with negative bounds.
- module `TracebackProperties` proves what the printer promises.

## Model

| member | source | states |
|---|---|---|
| Traceback.NewPrinter | wasabi/traceback.py:13-40 | The configuration keeps the colours, the exclusion tuple and the ANSI answer as given. The indent is exactly `max(0, n)` spaces. The marker is that of `BaseMarker`. The result satisfies `Valid`. |
| Traceback.Util.LineGlyphs | wasabi/traceback.py:7-9 | The glyphs are one of the two sets, and they are the ASCII set "\|_", "\|__", "__" exactly when `NO_UTF8` is set, so the UTF-8 set "└─", "├─", "──" otherwise. `GlyphsPlain` states that neither set holds a line break or an escape character. |
| Traceback.BaseMarker | wasabi/traceback.py:38 | There is a marker exactly when the base name is given and non-empty. The marker is the name between two slashes, two characters longer than the name. |
| Traceback.Exclude | wasabi/traceback.py:65 | A record is in the filtered trail exactly when it is in the trail and its path ends with none of the excluded suffixes. The filter never lengthens the trail. |
| TracebackProperties.ExcludeAppend | wasabi/traceback.py:65 | Filtering distributes over concatenation, so it keeps the records' original order. |
| TracebackProperties.ExcludeSingle | wasabi/traceback.py:65 | A single record is kept exactly when its path ends with no excluded suffix. |
| TracebackProperties.ExcludeNothing | wasabi/traceback.py:65 | An empty exclusion tuple keeps every record. |
| TracebackProperties.ExcludeEverything | wasabi/traceback.py:65 | A trail whose every path ends with an excluded suffix filters to nothing. |
| TracebackProperties.ShownWindow | wasabi/traceback.py:66 | `tb[-5:-2]` of a trail of length L has 0 records for L <= 2, 3 records for L >= 5 and L - 2 otherwise. Its records are the contiguous run that ends two records before the end. |
| TracebackProperties.ShownNotExcluded | wasabi/traceback.py:65-66 | Every shown record is a record of the trail that is not excluded. |
| Builtins.SliceBound | wasabi/traceback.py:66 | A slice bound on a sequence of length `n` is determined in every case. A bound in `[0, n]` is kept, and a bound above `n` becomes `n`. A negative bound counts from the end, and one that reaches before the start becomes 0. |
| Builtins.SliceWindow | wasabi/traceback.py:66 | A Python slice `s[start:stop]` is the run of `s` from the clamped start to the clamped stop, with one element per position between them, and empty when the start is not before the stop. Every element of the slice is an element of `s`. |
| TracebackProperties.ConnectorShape | wasabi/traceback.py:81 | The connector of frame `i` of `count` is the edge glyph when `i == count - 1` and the fork glyph otherwise, followed by exactly `i` copies of the path glyph. |
| TracebackProperties.ConnectorEdgeIffLast | wasabi/traceback.py:81 | With the UTF-8 glyphs, a connector starts with `LINE_EDGE` exactly for the last frame. |
| TracebackProperties.AsciiForkStartsWithEdge | wasabi/traceback.py:81 | With the ASCII glyphs, every connector starts with `LINE_EDGE`, the fork connectors too, because the fork glyph begins with the edge glyph. |
| Builtins.RepeatIsCopies | wasabi/traceback.py:81 | `s * n` is `n` copies of `s` placed side by side. |
| Builtins.RepeatCopies | wasabi/traceback.py:81 | The `j`-th block of `s * n`, as wide as `s`, is `s`, for every `j < n`. |
| Builtins.RepeatMembers | wasabi/traceback.py:37 | Every character of `s * n` is a character of `s`, so `" " * n` is all spaces. |
| Builtins.Repeat | wasabi/traceback.py:81 | `s * n` is `n` times as long as `s` for positive `n`, and empty otherwise. |
| Builtins.RFind | wasabi/traceback.py:82-83 | The search finds nothing exactly when the text does not contain the marker. Otherwise it finds an occurrence with no later one. |
| Builtins.AfterLast | wasabi/traceback.py:83 | `rsplit(sep, 1)[1]` is a suffix of the text. The separator occurs right before it, never later, and not inside it. |
| Builtins.AfterLastAt | wasabi/traceback.py:83 | When the last occurrence starts at `k`, the part after it is exactly the text from the end of that occurrence on. |
| TracebackProperties.ShortenPathSpec | wasabi/traceback.py:82-83 | The shown path differs from the path exactly when a marker is configured and occurs in the path. In that case the path ends with the marker followed by the shown path, the shown path holds no occurrence of the marker, and the marker occurs at no later position. |
| TracebackProperties.ThincMarker | wasabi/traceback.py:38 | The base "thinc" gives the marker "/thinc/". |
| TracebackProperties.ThincLastOccurrence | wasabi/traceback.py:83 | The text after the last "/thinc/" in "/usr/lib/thinc/errors.py" is "errors.py". |
| TracebackProperties.ThincExample | wasabi/traceback.py:82-83 | With base "thinc", the path "/usr/lib/thinc/errors.py" is shown as "errors.py". |
| TracebackProperties.ShortenPathMembers | wasabi/traceback.py:82-83 | The shown path is made only of characters of the original path. |
| Traceback.FrameText | wasabi/traceback.py:84 | The text attached to a frame is non-empty exactly for the last frame, and then it starts with a line break. |
| TracebackProperties.UserErrorPlain | wasabi/traceback.py:98-106 | Without colour, the annotation is a line break, the indent, two spaces, `"  " * i + " >>>"`, a space and the source text unchanged. |
| TracebackProperties.SpacingPlain | wasabi/traceback.py:99 | Without colour, the marker is `2i` spaces followed by " >>>". |
| TracebackProperties.HighlightedSpec | wasabi/traceback.py:102-105 | The source text is unchanged when colour is unsupported, when the highlight is absent or empty, or when it does not occur. Otherwise the result's length grows by the coloured form's extra length once for each of the `count` non-overlapping occurrences. |
| TracebackProperties.HighlightedFirst | wasabi/traceback.py:102-105 | With colour and a highlight `h` in use, in a text `a + h + b` with no occurrence of `h` that starts inside `a`, the result is `a`, then the coloured `h`, then `b` highlighted in the same way. Applied occurrence by occurrence, this fixes the whole result. |
| Builtins.ReplaceSplit | wasabi/traceback.py:105 | `replace` keeps everything before the first occurrence, puts the replacement in its place and goes on with the text after it. |
| Builtins.ReplaceLength | wasabi/traceback.py:105 | `s.replace(p, r)` grows by the difference in length between `r` and `p` once for each of the `s.count(p)` occurrences. |
| Builtins.ReplaceAbsent | wasabi/traceback.py:105 | Replacing a pattern that does not occur changes nothing. |
| Builtins.ReplaceSelf | wasabi/traceback.py:105 | Replacing a pattern by itself changes nothing. |
| Builtins.CountZeroIff | wasabi/traceback.py:105 | The count is zero exactly when the pattern does not occur. |
| Builtins.ToString | wasabi/traceback.py:85 | The rendered line number is a non-empty string of digits with no leading zero except for 0 itself. |
| Builtins.ToStringRoundTrip | wasabi/traceback.py:85 | Reading the rendered line number back gives the number. |
| TracebackProperties.ToStringMembers | wasabi/traceback.py:85 | A rendered line number holds no character that is not a digit. |
| TracebackProperties.FramePlain | wasabi/traceback.py:80-96 | Without colour, a frame line is the indent, the connector, a space, the function name, " [", the line number, "] in ", the shortened path and the attached text, all verbatim. |
| TracebackProperties.FrameHeadMembers | wasabi/traceback.py:80-96 | Without colour, the part of a frame line before its annotation holds no line break and no escape character unless the function name or the path does. |
| TracebackProperties.OnlyLastAnnotated | wasabi/traceback.py:84 | Without colour, and for records with no line breaks, a frame line contains a line break exactly when it is the last shown one. |
| Traceback.FrameLines | wasabi/traceback.py:67-70 | One line for each shown record. |
| TracebackProperties.FrameLineStart | wasabi/traceback.py:89-96 | Every frame line starts with the indent, followed by a non-space glyph. |
| TracebackProperties.FrameLinesStart | wasabi/traceback.py:67-71 | The joined frame lines start with the indent, followed by a non-space glyph. |
| Builtins.Strip | wasabi/traceback.py:71 | `strip` gives the piece of the text between its leading and its trailing whitespace. That piece neither starts nor ends with whitespace. |
| Builtins.TrimLeft | wasabi/traceback.py:71 | `lstrip` drops the longest whitespace prefix and nothing more. |
| Builtins.TrimRight | wasabi/traceback.py:71 | `rstrip` drops the longest whitespace suffix and nothing more. |
| Builtins.TrimLeftExact | wasabi/traceback.py:71 | A run of whitespace followed by a non-space is removed exactly. |
| Builtins.StripIdempotent | wasabi/traceback.py:71 | Stripping twice is stripping once. |
| TracebackProperties.StripDropsFirstIndent | wasabi/traceback.py:71 | `strip` removes exactly the first frame line's indent at the front, which the section template puts back. At the back it removes trailing whitespace. |
| TracebackProperties.TrimRightAfterPrefix | wasabi/traceback.py:71 | `rstrip` of a prefix followed by a text that starts with a non-space keeps the prefix. |
| Builtins.JoinAsPrefixes | wasabi/traceback.py:57 | A separator followed by `sep.join(parts)` is every part preceded by the separator. |
| Builtins.JoinStartsWithFirst | wasabi/traceback.py:71 | `sep.join(parts)` starts with the first part. |
| TracebackProperties.SectionWithoutFrames | wasabi/traceback.py:71-77 | With no frame shown, the section is a blank line, the indent, the header, a line break and the indent. |
| TracebackProperties.SectionWithFrames | wasabi/traceback.py:71-77 | With frames shown, the section is a blank line, the indent, the header, a line break, then the joined frame lines, each with its own indent and with trailing whitespace removed. |
| TracebackProperties.SectionHeader | wasabi/traceback.py:72-77 | A given, non-empty trail yields a section that starts with a blank line, the indent, the header, a line break and the indent, whatever the filter keeps. Without colour the header is "Traceback:". |
| TracebackProperties.InfoIsIndentedLines | wasabi/traceback.py:57 | The body is empty without texts. Otherwise it puts each text on its own line behind the indent. |
| TracebackProperties.PrefixEachIndented | wasabi/traceback.py:57 | The comprehension of indented texts, each preceded by a line break, is the reference rendering of the body. |
| TracebackProperties.MessageShape | wasabi/traceback.py:55-59 | The message is a blank line, the indent, the title, the body, the traceback section and a final line break. Without colour the title is verbatim. |
| TracebackProperties.NoTrailNoSection | wasabi/traceback.py:58 | Without a trail, or with an empty one, the message has no traceback section. |
| TracebackProperties.HeaderWithoutFrames | wasabi/traceback.py:65-66 | A non-empty trail that filters to at most two records still yields the header, with no frame lines. |
| TracebackProperties.HeaderWhenAllExcluded | wasabi/traceback.py:58 | A non-empty trail whose records are all excluded filters to nothing and still yields the header. The test is on the unfiltered trail. |
| TracebackProperties.BadValueExample | wasabi/traceback.py:55-60 | The default printer without colour renders "Bad value" with the body "Expected int" as "\n\n  Bad value\n  Expected int\n". |
| TracebackProperties.DefaultIndent | wasabi/traceback.py:37 | The default indent is two spaces. |
| TracebackProperties.FrameNoEscape | wasabi/traceback.py:86-88 | Without colour, a frame line holds no escape character unless its record does. |
| TracebackProperties.InfoNoEscape | wasabi/traceback.py:57 | The body holds no escape character unless a text does. |
| TracebackProperties.DataNoEscape | wasabi/traceback.py:65-71 | Without colour, the stripped frame lines hold no escape character unless the records do. |
| TracebackProperties.TracebackNoEscape | wasabi/traceback.py:72-77 | Without colour, the section adds no escape character to its frame lines. |
| TracebackProperties.SectionNoEscape | wasabi/traceback.py:63-77 | Without colour, the traceback section holds no escape character unless the records do. |
| TracebackProperties.PlainMessage | wasabi/traceback.py:55-59 | Without colour, the message holds no escape character, and so no terminal code, unless the caller's title, texts or records do. |
| Traceback.Format | wasabi/traceback.py:42-60 | No contract of its own. `MessageShape` states the message layout, `PlainMessage` states that without colour it adds no escape character, and `BadValueExample` works one call out. |
| Traceback.Title | wasabi/traceback.py:55-56 | No contract of its own. `MessageShape` states that without colour the title is verbatim. |
| Traceback.Info | wasabi/traceback.py:57 | No contract of its own. `InfoIsIndentedLines` ties it to the reference rendering `IndentedLines`, and `InfoNoEscape` states that it adds no escape character. |
| Traceback.TrailSection | wasabi/traceback.py:58 | No contract of its own. `NoTrailNoSection` and `SectionHeader` state when the section appears, and `HeaderWhenAllExcluded` states that the test is on the unfiltered trail. |
| Traceback.GetTraceback | wasabi/traceback.py:63-77 | No contract of its own. `SectionWithoutFrames`, `SectionWithFrames` and `SectionHeader` state its layout, and `TracebackNoEscape` states that without colour it adds no escape character. |
| Traceback.TracebackData | wasabi/traceback.py:65-71 | No contract of its own. `SectionWithFrames` and `StripDropsFirstIndent` state what stripping the joined lines removes, and `DataNoEscape` states that it adds no escape character. |
| Traceback.TracebackTitle | wasabi/traceback.py:72-74 | No contract of its own. `SectionHeader` states that without colour it is "Traceback:". |
| Traceback.Shown | wasabi/traceback.py:66 | No contract of its own. `ShownWindow` states the length and position of the window, and `ShownNotExcluded` states that it holds only kept records. |
| Traceback.FormatFrame | wasabi/traceback.py:79-96 | No contract of its own. `FramePlain` states the line's layout without colour, and `FrameLineStart` and `FrameNoEscape` state how it starts and that it adds no escape character. |
| Traceback.FrameTail | wasabi/traceback.py:80-96 | No contract of its own. `FramePlain` and `FrameHeadMembers` state what follows the connector. |
| Traceback.Connector | wasabi/traceback.py:81 | No contract of its own. `ConnectorShape` states the head glyph and the number of path glyphs, and `ConnectorEdgeIffLast` and `AsciiForkStartsWithEdge` state how it starts. |
| Traceback.ShortenPath | wasabi/traceback.py:82-83 | No contract of its own. `ShortenPathSpec` states when the path changes and what is left of it, and `ThincExample` works one path out. |
| Traceback.ShownName | wasabi/traceback.py:86-87 | No contract of its own. `FramePlain` states that without colour the function name is verbatim. |
| Traceback.ShownPath | wasabi/traceback.py:82-88 | No contract of its own. `FramePlain` states that without colour it is the shortened path verbatim. |
| Traceback.FormatUserError | wasabi/traceback.py:98-106 | No contract of its own. `UserErrorPlain` states the annotation without colour. |
| Traceback.Spacing | wasabi/traceback.py:99-101 | No contract of its own. `SpacingPlain` states the marker without colour. |
| Traceback.Highlighted | wasabi/traceback.py:102-105 | No contract of its own. `HighlightedSpec` and `HighlightedFirst` state the highlighted text. |
| Traceback.Active | wasabi/traceback.py:102 | The truth test on the highlight: it is in use when present and non-empty. |
| Builtins.Replace | wasabi/traceback.py:105 | No contract of its own. `ReplaceSplit`, `ReplaceAbsent`, `ReplaceSelf` and `ReplaceLength` state what `str.replace` gives. |
| Builtins.Join | wasabi/traceback.py:57 | No contract of its own. `JoinAsPrefixes` and `JoinStartsWithFirst` state what `str.join` gives. |
| Builtins.Slice | wasabi/traceback.py:66 | The slice is never longer than the sequence. `SliceWindow` states that it is the run between the clamped bounds, empty when the start is not before the stop, and holds only elements of the sequence. `SliceBound` states how the bounds are clamped. |
| Builtins.EndsWithAny | wasabi/traceback.py:65 | `str.endswith` with a tuple: true when some suffix of the tuple ends the text, so an empty tuple never matches. |
| Builtins.Contains | wasabi/traceback.py:82 | The `in` test on strings: the text holds an occurrence of the pattern at some position. |
| Builtins.IsSpace | wasabi/traceback.py:71 | The whitespace that `strip` removes, as Python's `str.isspace` defines it. |

## Left out

- `supports_ansi()`, `color()`, `to_string()`, `locale_escape` and
  `NO_UTF8` live in wasabi's `util.py`, which is not part of this model.
  - The terminal probe is a boolean parameter of construction.
  - `color` is an arbitrary function value, so nothing is assumed about the
    codes it adds.
  - `NO_UTF8` is a boolean in `Util`.
- `to_string(line)` is modelled as the decimal rendering of a natural
  number, so line numbers are naturals rather than arbitrary values.
- `to_string(highlight)` is the identity: the highlight is an optional
  string, and it is in use when present and non-empty, as Python's truth
  test treats `False`, `None` and `""`. Non-string highlight values are not
  modelled.
- The trail is a finite sequence of four-field records. Other iterables,
  and records that are not 4-tuples (which fail to unpack at line 69), are
  not modelled.
- `__call__` reads `highlight` and `tb` from its keyword settings. Here
  they are optional parameters whose defaults are those of
  `settings.get` (lines 53-54).
- The commented-out `locale_escape` call (line 61) is dead code.
- How trails are produced, and printing to a terminal, happen outside this
  file.
- Python's `rsplit` with an empty separator raises. `Config.Valid` rules this
  out, because `__init__` never builds an empty marker, and every function
  that shortens paths requires it.
- That formatting never changes the configuration holds by construction:
  every operation is a function of an immutable `Config` value, so no lemma
  states it.
- Traceback.Connector: "starts with LINE_EDGE exactly for the last frame" is
  proved only for the UTF-8 glyphs (`ConnectorEdgeIffLast`). With the ASCII
  glyphs the fork "\|__" itself begins with the edge "\|_", as
  `AsciiForkStartsWithEdge` shows. `ConnectorShape` states the exact head
  glyph for both.
