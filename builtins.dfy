/** Models of the Python built-in string and list operations the traceback
    printer relies on: `str.endswith` with a tuple of suffixes, `in` on
    strings, `str.rsplit(sep, 1)[1]`, `str.replace`, `str.count`,
    `str.strip`, `str.join`, `str * n`, `str()` of a non-negative integer and
    list slicing with negative bounds. */
module Builtins {
  import opened Wrappers

  /* ---------------------------------------------------------------------- */
  /* Prefixes, suffixes and occurrences                                      */
  /* ---------------------------------------------------------------------- */

  predicate StartsWith(s: string, prefix: string) {
    |prefix| <= |s| && s[..|prefix|] == prefix
  }

  predicate EndsWith(s: string, suffix: string) {
    |suffix| <= |s| && s[|s| - |suffix|..] == suffix
  }

  /** `s.endswith(suffixes)` for a tuple: true when some suffix matches, so
      false for the empty tuple. */
  predicate EndsWithAny(s: string, suffixes: seq<string>) {
    exists k :: 0 <= k < |suffixes| && EndsWith(s, suffixes[k])
  }

  /** `sub` occurs in `s` starting at position `k`. */
  predicate OccursAt(s: string, sub: string, k: int) {
    0 <= k && k + |sub| <= |s| && s[k..k + |sub|] == sub
  }

  /** `sub in s` */
  predicate Contains(s: string, sub: string) {
    exists k :: 0 <= k <= |s| - |sub| && OccursAt(s, sub, k)
  }

  /** An occurrence inside a suffix of `s` is an occurrence in `s`. */
  lemma OccursInSuffix(s: string, sub: string, d: nat, j: int)
    requires d <= |s| && OccursAt(s[d..], sub, j)
    ensures OccursAt(s, sub, d + j)
  {
    assert s[d + j..d + j + |sub|] == s[d..][j..j + |sub|];
  }

  /** One differing character rules out an occurrence. */
  lemma Mismatch(s: string, sub: string, k: int, d: nat)
    requires d < |sub| && 0 <= k && k + d < |s| && s[k + d] != sub[d]
    ensures !OccursAt(s, sub, k)
  {
  }

  /** The largest start position `<= k` where `sub` occurs in `s`. */
  function RFindUpTo(s: string, sub: string, k: int): (r: Option<nat>)
    ensures r.Some? ==> r.value <= k && OccursAt(s, sub, r.value)
    ensures r.Some? ==> forall j :: r.value < j <= k ==> !OccursAt(s, sub, j)
    ensures r.None? ==> forall j :: j <= k ==> !OccursAt(s, sub, j)
    decreases k
  {
    if k < 0 then None
    else if OccursAt(s, sub, k) then Some(k)
    else RFindUpTo(s, sub, k - 1)
  }

  /** `s.rfind(sub)`, with None for Python's -1. */
  function RFind(s: string, sub: string): (r: Option<nat>)
    ensures r.None? <==> !Contains(s, sub)
    ensures r.Some? ==> OccursAt(s, sub, r.value)
    ensures r.Some? ==> forall j :: r.value < j ==> !OccursAt(s, sub, j)
  {
    RFindUpTo(s, sub, |s| - |sub|)
  }

  /** When no occurrence starts after `k`, none lies in the text that
      follows the occurrence at `k`. */
  lemma NoOccurrenceAfter(s: string, sep: string, k: nat)
    requires |sep| > 0 && OccursAt(s, sep, k)
    requires forall j :: k < j ==> !OccursAt(s, sep, j)
    ensures !Contains(s[k + |sep|..], sep)
  {
    if Contains(s[k + |sep|..], sep) {
      var j :| OccursAt(s[k + |sep|..], sep, j);
      OccursInSuffix(s, sep, k + |sep|, j);
    }
  }

  /** `s.rsplit(sep, 1)[1]`: the text after the last occurrence of `sep`.
      Python raises when `sep` is empty or, because the split then has one
      part, when `sep` does not occur; both are excluded here. */
  function AfterLast(s: string, sep: string): (r: string)
    requires |sep| > 0 && Contains(s, sep)
    ensures |r| + |sep| <= |s|
    ensures r == s[|s| - |r|..] && OccursAt(s, sep, |s| - |r| - |sep|)
    ensures forall j :: |s| - |r| - |sep| < j ==> !OccursAt(s, sep, j)
    ensures !Contains(r, sep)
  {
    var k := RFind(s, sep).value;
    NoOccurrenceAfter(s, sep, k);
    s[k + |sep|..]
  }

  /** The text after the last occurrence is determined by where that
      occurrence is: after an occurrence at `k` with none later, it is
      `s[k + |sep|..]`. */
  lemma AfterLastAt(s: string, sep: string, k: nat)
    requires |sep| > 0 && OccursAt(s, sep, k)
    requires forall j :: k < j <= |s| - |sep| ==> !OccursAt(s, sep, j)
    ensures Contains(s, sep) && AfterLast(s, sep) == s[k + |sep|..]
  {
    var r := AfterLast(s, sep);
    var p := |s| - |r| - |sep|;
    assert p == k;
  }

  /* ---------------------------------------------------------------------- */
  /* Replacement and counting                                                */
  /* ---------------------------------------------------------------------- */

  /** `s.replace(pat, repl)`: every non-overlapping occurrence of `pat`, taken
      from left to right, becomes `repl`. */
  function Replace(s: string, pat: string, repl: string): string
    requires |pat| > 0
    decreases |s|
  {
    if |s| < |pat| then s
    else if s[..|pat|] == pat then repl + Replace(s[|pat|..], pat, repl)
    else [s[0]] + Replace(s[1..], pat, repl)
  }

  /** `s.count(pat)`: the number of non-overlapping occurrences, taken from
      left to right, the same ones `Replace` rewrites. */
  function Count(s: string, pat: string): nat
    requires |pat| > 0
    decreases |s|
  {
    if |s| < |pat| then 0
    else if s[..|pat|] == pat then 1 + Count(s[|pat|..], pat)
    else Count(s[1..], pat)
  }

  /** An occurrence past the first `d` characters is an occurrence in the
      suffix that starts at `d`. */
  lemma OccursInSuffixConverse(s: string, sub: string, d: nat, k: int)
    requires d <= k && OccursAt(s, sub, k)
    ensures OccursAt(s[d..], sub, k - d)
  {
    assert s[d..][k - d..k - d + |sub|] == s[k..k + |sub|];
  }

  /** `pat` occurs in `s` exactly when `s.count(pat)` is positive. */
  lemma {:induction false} CountZeroIff(s: string, pat: string)
    requires |pat| > 0
    ensures Count(s, pat) == 0 <==> !Contains(s, pat)
    decreases |s|
  {
    if |s| < |pat| {
    } else if s[..|pat|] == pat {
      assert OccursAt(s, pat, 0);
    } else {
      CountZeroIff(s[1..], pat);
      assert !OccursAt(s, pat, 0);
      if Contains(s, pat) {
        var k :| 0 <= k <= |s| - |pat| && OccursAt(s, pat, k);
        OccursInSuffixConverse(s, pat, 1, k);
      }
      if Contains(s[1..], pat) {
        var j :| 0 <= j <= |s| - 1 - |pat| && OccursAt(s[1..], pat, j);
        OccursInSuffix(s, pat, 1, j);
      }
    }
  }

  /** Each replacement changes the length by `|repl| - |pat|`. */
  lemma {:induction false} ReplaceLength(s: string, pat: string, repl: string)
    requires |pat| > 0
    ensures |Replace(s, pat, repl)| == |s| + Count(s, pat) * (|repl| - |pat|)
    decreases |s|
  {
    if |s| < |pat| {
    } else if s[..|pat|] == pat {
      ReplaceLength(s[|pat|..], pat, repl);
      MulSucc(Count(s[|pat|..], pat), |repl| - |pat|);
    } else {
      ReplaceLength(s[1..], pat, repl);
    }
  }

  /** `replace` keeps the text `a` before the first occurrence, puts
      `repl` in its place and goes on with the text `b` after it. */
  lemma {:induction false} ReplaceSplit(a: string, pat: string, b: string, repl: string)
    requires |pat| > 0
    requires forall j :: 0 <= j < |a| ==> !OccursAt(a + pat + b, pat, j)
    ensures Replace(a + pat + b, pat, repl) == a + repl + Replace(b, pat, repl)
    decreases |a|
  {
    if a == [] {
      ReplaceAtStart(pat, b, repl);
    } else {
      ReplacePastHead(a, pat, b, repl);
      ReplaceSplit(a[1..], pat, b, repl);
      ConsRegroup(a, repl, Replace(b, pat, repl));
    }
  }

  lemma ReplaceAtStart(pat: string, b: string, repl: string)
    requires |pat| > 0
    ensures Replace([] + pat + b, pat, repl) == [] + repl + Replace(b, pat, repl)
  {
    var s := [] + pat + b;
    assert s[..|pat|] == pat && s[|pat|..] == b;
  }

  /** No occurrence at the head: `replace` keeps the first character and
      goes on with the rest, which has no occurrence before `pat` either. */
  lemma ReplacePastHead(a: string, pat: string, b: string, repl: string)
    requires |pat| > 0 && a != []
    requires forall j :: 0 <= j < |a| ==> !OccursAt(a + pat + b, pat, j)
    ensures Replace(a + pat + b, pat, repl) == [a[0]] + Replace(a[1..] + pat + b, pat, repl)
    ensures forall j :: 0 <= j < |a[1..]| ==> !OccursAt(a[1..] + pat + b, pat, j)
  {
    var s := a + pat + b;
    assert !OccursAt(s, pat, 0);
    assert s[..|pat|] != pat;
    assert s[1..] == a[1..] + pat + b;
    forall j | 0 <= j < |a[1..]| ensures !OccursAt(a[1..] + pat + b, pat, j) {
      if OccursAt(a[1..] + pat + b, pat, j) {
        OccursInSuffix(s, pat, 1, j);
      }
    }
  }

  lemma ConsRegroup(a: string, x: string, y: string)
    requires a != []
    ensures [a[0]] + (a[1..] + x + y) == a + x + y
  {
    assert a == [a[0]] + a[1..];
  }

  lemma MulSucc(c: int, d: int)
    ensures (1 + c) * d == d + c * d
  {
  }

  /** Replacing a pattern that does not occur leaves the text unchanged. */
  lemma {:induction false} ReplaceAbsent(s: string, pat: string, repl: string)
    requires |pat| > 0 && !Contains(s, pat)
    ensures Replace(s, pat, repl) == s
    decreases |s|
  {
    if |s| >= |pat| {
      assert !OccursAt(s, pat, 0);
      if Contains(s[1..], pat) {
        var j :| OccursAt(s[1..], pat, j);
        OccursInSuffix(s, pat, 1, j);
      }
      ReplaceAbsent(s[1..], pat, repl);
    }
  }

  /** Replacing a pattern by itself leaves the text unchanged. */
  lemma {:induction false} ReplaceSelf(s: string, pat: string)
    requires |pat| > 0
    ensures Replace(s, pat, pat) == s
    decreases |s|
  {
    if |s| < |pat| {
    } else if s[..|pat|] == pat {
      ReplaceSelf(s[|pat|..], pat);
      assert s == s[..|pat|] + s[|pat|..];
    } else {
      ReplaceSelf(s[1..], pat);
      assert s == [s[0]] + s[1..];
    }
  }

  /* ---------------------------------------------------------------------- */
  /* Repetition                                                              */
  /* ---------------------------------------------------------------------- */

  /** `s * n`: `n` copies of `s`, and the empty string when `n <= 0`. */
  function Repeat(s: string, n: int): (r: string)
    ensures |r| == if n <= 0 then 0 else n * |s|
    decreases n
  {
    if n <= 0 then "" else s + Repeat(s, n - 1)
  }

  /** Every character of `s * n` is a character of `s`. */
  lemma {:induction false} RepeatMembers(s: string, n: int)
    ensures forall k :: 0 <= k < |Repeat(s, n)| ==> Repeat(s, n)[k] in s
    decreases n
  {
    if n > 0 {
      RepeatMembers(s, n - 1);
      assert forall k :: |s| <= k < |Repeat(s, n)| ==> Repeat(s, n)[k] == Repeat(s, n - 1)[k - |s|];
    }
  }

  /** The `j`-th block of `width` characters of `s`. */
  function Block(s: string, width: nat, j: nat): string
    requires (j + 1) * width <= |s|
  {
    s[j * width..(j + 1) * width]
  }

  /** `s * n` is made of `n` consecutive copies of `s`. */
  lemma {:induction false} RepeatCopies(s: string, n: nat, j: nat)
    requires j < n
    ensures (j + 1) * |s| <= |Repeat(s, n)|
    ensures Block(Repeat(s, n), |s|, j) == s
    decreases n
  {
    if j > 0 {
      RepeatCopies(s, n - 1, j - 1);
      var rest := Repeat(s, n - 1);
      assert Repeat(s, n) == s + rest;
      assert j * |s| == |s| + (j - 1) * |s|;
      assert (j + 1) * |s| == |s| + j * |s|;
      assert Repeat(s, n)[j * |s|..(j + 1) * |s|] == rest[(j - 1) * |s|..j * |s|];
    }
  }

  /** `s` is `n` copies of `unit` side by side. */
  predicate IsCopies(s: string, unit: string, n: nat)
    decreases n
  {
    if n == 0 then s == []
    else StartsWith(s, unit) && IsCopies(s[|unit|..], unit, n - 1)
  }

  /** `s * n` is `n` copies of `s`, for `n >= 0`. */
  lemma {:induction false} RepeatIsCopies(s: string, n: nat)
    ensures IsCopies(Repeat(s, n), s, n)
    decreases n
  {
    if n > 0 {
      RepeatIsCopies(s, n - 1);
      assert Repeat(s, n)[|s|..] == Repeat(s, n - 1);
    }
  }

  /* ---------------------------------------------------------------------- */
  /* Whitespace and strip                                                    */
  /* ---------------------------------------------------------------------- */

  /** The characters for which `str.isspace()` is true: tab, line feed,
      vertical tab, form feed and carriage return (9 to 13), the separators
      28 to 31, space, next line, no-break space, ogham space mark, the
      spaces U+2000 to U+200A, the line and paragraph separators, the
      narrow no-break space, the medium mathematical space and the
      ideographic space. */
  predicate IsSpace(c: char) {
    || '\t' <= c <= '\r'
    || '\U{1C}' <= c <= ' '
    || c == '\U{85}' || c == '\U{A0}' || c == '\U{1680}'
    || '\U{2000}' <= c <= '\U{200A}'
    || c == '\U{2028}' || c == '\U{2029}' || c == '\U{202F}' || c == '\U{205F}' || c == '\U{3000}'
  }

  /** `s.lstrip()` */
  function TrimLeft(s: string): (r: string)
    ensures |r| <= |s| && r == s[|s| - |r|..]
    ensures forall k :: 0 <= k < |s| - |r| ==> IsSpace(s[k])
    ensures r == [] || !IsSpace(r[0])
    decreases |s|
  {
    if s != [] && IsSpace(s[0]) then TrimLeft(s[1..]) else s
  }

  /** `s.rstrip()` */
  function TrimRight(s: string): (r: string)
    ensures |r| <= |s| && r == s[..|r|]
    ensures forall k :: |r| <= k < |s| ==> IsSpace(s[k])
    ensures r == [] || !IsSpace(r[|r| - 1])
    decreases |s|
  {
    if s != [] && IsSpace(s[|s| - 1]) then TrimRight(s[..|s| - 1]) else s
  }

  /** Where `s.strip()` begins: after the leading whitespace of `s`. */
  function StripStart(s: string): nat
  {
    |s| - |TrimLeft(s)|
  }

  /** `s.strip()`: the piece of `s` left between its leading and its
      trailing whitespace. */
  function Strip(s: string): (r: string)
    ensures StripStart(s) + |r| <= |s| && r == s[StripStart(s)..StripStart(s) + |r|]
    ensures forall k :: 0 <= k < StripStart(s) ==> IsSpace(s[k])
    ensures forall k :: StripStart(s) + |r| <= k < |s| ==> IsSpace(s[k])
    ensures r == [] || (!IsSpace(r[0]) && !IsSpace(r[|r| - 1]))
  {
    var left := TrimLeft(s);
    var r := TrimRight(left);
    var i := |s| - |left|;
    StripPieces(s, left, r, i);
    r
  }

  /** The pieces of `Strip`: `r` is the prefix of the suffix `left` of `s`
      that starts at `i`, and the rest of `left` is whitespace. */
  lemma StripPieces(s: string, left: string, r: string, i: nat)
    requires i + |left| == |s| && left == s[i..]
    requires |r| <= |left| && r == left[..|r|]
    requires forall k :: |r| <= k < |left| ==> IsSpace(left[k])
    ensures i + |r| <= |s| && r == s[i..i + |r|]
    ensures forall k :: i + |r| <= k < |s| ==> IsSpace(s[k])
  {
    forall k | i + |r| <= k < |s| ensures IsSpace(s[k]) {
      assert s[k] == left[k - i];
    }
  }

  /** `lstrip` removes exactly a leading run of whitespace that is followed
      by a non-whitespace character (or by nothing). */
  lemma {:induction false} TrimLeftExact(spaces: string, rest: string)
    requires forall k :: 0 <= k < |spaces| ==> IsSpace(spaces[k])
    requires rest == [] || !IsSpace(rest[0])
    ensures TrimLeft(spaces + rest) == rest
    decreases |spaces|
  {
    if spaces != [] {
      assert (spaces + rest)[1..] == spaces[1..] + rest;
      TrimLeftExact(spaces[1..], rest);
    }
  }

  /** Stripping is idempotent. */
  lemma StripIdempotent(s: string)
    ensures Strip(Strip(s)) == Strip(s)
  {
    TrimLeftExact("", Strip(s));
  }

  /* ---------------------------------------------------------------------- */
  /* Join                                                                    */
  /* ---------------------------------------------------------------------- */

  /** `sep.join(parts)` */
  function Join(sep: string, parts: seq<string>): string
  {
    if |parts| == 0 then ""
    else if |parts| == 1 then parts[0]
    else parts[0] + sep + Join(sep, parts[1..])
  }

  /** Concatenation of all parts, each preceded by `lead`: the reference
      definition `Join` is compared with. */
  function PrefixEach(lead: string, parts: seq<string>): string
  {
    if parts == [] then "" else lead + parts[0] + PrefixEach(lead, parts[1..])
  }

  /** Putting the separator in front of a join gives every part the
      separator as its prefix. */
  lemma {:induction false} JoinAsPrefixes(sep: string, parts: seq<string>)
    requires parts != []
    ensures sep + Join(sep, parts) == PrefixEach(sep, parts)
    decreases |parts|
  {
    if |parts| > 1 {
      JoinAsPrefixes(sep, parts[1..]);
    }
  }

  /** A join begins with its first part. */
  lemma JoinStartsWithFirst(sep: string, parts: seq<string>)
    requires parts != []
    ensures StartsWith(Join(sep, parts), parts[0])
  {
    if |parts| > 1 {
      assert Join(sep, parts) == parts[0] + (sep + Join(sep, parts[1..]));
    }
  }

  /* ---------------------------------------------------------------------- */
  /* str() of a non-negative integer                                         */
  /* ---------------------------------------------------------------------- */

  predicate IsDigit(c: char) {
    48 <= c as int <= 57
  }

  function DigitChar(d: int): (c: char)
    requires 0 <= d < 10
    ensures IsDigit(c)
  {
    (48 + d) as char
  }

  function DigitValue(c: char): (d: nat)
    requires IsDigit(c)
    ensures d < 10
  {
    c as int - 48
  }

  /** `str(n)`: the shortest decimal numeral of `n`. */
  function ToString(n: nat): (r: string)
    ensures |r| > 0
    ensures forall k :: 0 <= k < |r| ==> IsDigit(r[k])
    ensures r[0] == '0' ==> r == "0" && n == 0
  {
    if n < 10 then [DigitChar(n)] else ToString(n / 10) + [DigitChar(n % 10)]
  }

  /** `int(s)` for a string of decimal digits. */
  function ParseDecimal(s: string): nat
    requires forall k :: 0 <= k < |s| ==> IsDigit(s[k])
  {
    if s == [] then 0
    else 10 * ParseDecimal(s[..|s| - 1]) + DigitValue(s[|s| - 1])
  }

  /** `int(str(n)) == n` */
  lemma {:induction false} ToStringRoundTrip(n: nat)
    ensures ParseDecimal(ToString(n)) == n
  {
    if n >= 10 {
      ToStringRoundTrip(n / 10);
      var r := ToString(n);
      assert r[..|r| - 1] == ToString(n / 10);
    }
  }

  /* ---------------------------------------------------------------------- */
  /* List slicing                                                            */
  /* ---------------------------------------------------------------------- */

  /** A slice bound as Python reads it: a negative bound counts from the
      end, and the result is clamped into `[0, n]`. */
  function SliceBound(k: int, n: nat): (b: nat)
    ensures b <= n
    ensures 0 <= k <= n ==> b == k
    ensures k < 0 && 0 <= k + n ==> b == k + n
    ensures k > n ==> b == n
    ensures k + n < 0 ==> b == 0
  {
    if k < 0 then (if k + n < 0 then 0 else k + n)
    else if k > n then n
    else k
  }

  /** `s[start:stop]` */
  function Slice<T>(s: seq<T>, start: int, stop: int): (r: seq<T>)
    ensures |r| <= |s|
  {
    var lo, hi := SliceBound(start, |s|), SliceBound(stop, |s|);
    if lo < hi then s[lo..hi] else []
  }

  /** A slice is the run of `s` between its clamped bounds, empty when the
      start is not before the stop, and it holds only elements of `s`. */
  lemma SliceWindow<T>(s: seq<T>, start: int, stop: int)
    ensures var lo, hi := SliceBound(start, |s|), SliceBound(stop, |s|);
            && |Slice(s, start, stop)| == (if lo < hi then hi - lo else 0)
            && forall j :: 0 <= j < |Slice(s, start, stop)| ==> Slice(s, start, stop)[j] == s[lo + j]
    ensures forall x :: x in Slice(s, start, stop) ==> x in s
  {
    var r := Slice(s, start, stop);
    var lo := SliceBound(start, |s|);
    forall x | x in r ensures x in s {
      var k :| 0 <= k < |r| && r[k] == x;
      assert s[lo + k] == x;
    }
  }
}
