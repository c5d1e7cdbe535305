/**
 * The grep clone of 06/main.go: option validation, pattern composition,
 * per-line match collection, highlighting and the printing pass.
 *
 * The regular-expression engine is not part of the model: a compiled
 * expression is represented by its pattern text, `compiles` says whether
 * `regexp.Compile` accepts a pattern, and `engine(pattern)(line)` stands for
 * `FindAllStringIndex(line, -1)`, whose only promise used here is that the
 * spans come left to right, do not overlap and lie inside the line.
 * Lines are byte strings; a `char` stands for one byte.
 */
module Grep {
  import opened Wrappers
  import opened GoStrings

  // ------------------------------------------------------------ options

  /** The option bundle filled in by the flag parser (`-A -B -C -c -i -v -F -h` and the pattern argument). */
  datatype Options = Options(
    after: int, before: int, context: int,
    count: bool, ignoreCase: bool, invert: bool, fixed: bool, lineNum: bool,
    pattern: string)

  datatype GrepError = ConfigConflict | MissingPattern | InvalidPattern

  predicate ContextConflict(o: Options) {
    o.context != 0 && (o.before != 0 || o.after != 0)
  }

  /**
   * The checks of getConfig: `-C` together with `-A` or `-B` is refused, then a
   * missing pattern is refused; a non-zero `-C` becomes both `-A` and `-B`.
   */
  function GetConfig(o: Options): (r: Result<Options, GrepError>)
    ensures r == Failure(ConfigConflict) <==> ContextConflict(o)
    ensures r == Failure(MissingPattern) <==> !ContextConflict(o) && o.pattern == []
    ensures r.Failure? ==> r.error != InvalidPattern
    ensures r.Success? ==> r.value.pattern == o.pattern && o.pattern != []
    ensures r.Success? && o.context != 0 ==> r.value.before == o.context && r.value.after == o.context
    ensures r.Success? && o.context == 0 ==> r.value.before == o.before && r.value.after == o.after
    ensures r.Success? ==> (r.value.context == o.context && r.value.count == o.count
                              && r.value.ignoreCase == o.ignoreCase && r.value.invert == o.invert
                              && r.value.fixed == o.fixed && r.value.lineNum == o.lineNum)
  {
    if o.context != 0 && (o.before != 0 || o.after != 0) then Failure(ConfigConflict)
    else
      var cfg := if o.context != 0 then o.(before := o.context, after := o.context) else o;
      if cfg.pattern == [] then Failure(MissingPattern) else Success(cfg)
  }

  // ------------------------------------------------ pattern composition

  /** The characters `regexp.QuoteMeta` escapes with a backslash. */
  predicate IsSpecial(c: char) {
    c in "\\.+*?()|[]{}^$"
  }

  /** `regexp.QuoteMeta`: a backslash before every special character. */
  function QuoteMeta(s: string): string
  {
    if s == [] then []
    else (if IsSpecial(s[0]) then ['\\', s[0]] else [s[0]]) + QuoteMeta(s[1..])
  }

  /**
   * A pattern made only of ordinary characters and escaped special
   * characters: it matches exactly one literal string.
   */
  predicate IsLiteral(r: string)
    decreases |r|
  {
    if r == [] then true
    else if IsSpecial(r[0]) then r[0] == '\\' && |r| >= 2 && IsSpecial(r[1]) && IsLiteral(r[2..])
    else IsLiteral(r[1..])
  }

  /** The literal string a literal pattern matches. */
  function LiteralText(r: string): string
    requires IsLiteral(r)
    decreases |r|
  {
    if r == [] then []
    else if IsSpecial(r[0]) then [r[1]] + LiteralText(r[2..])
    else [r[0]] + LiteralText(r[1..])
  }

  /** Quoting turns any text into a literal pattern for exactly that text. */
  lemma {:induction false} QuoteMetaIsLiteral(s: string)
    ensures IsLiteral(QuoteMeta(s)) && LiteralText(QuoteMeta(s)) == s
  {
    if s != [] {
      QuoteMetaIsLiteral(s[1..]);
      var q := QuoteMeta(s);
      if IsSpecial(s[0]) {
        assert q == ['\\', s[0]] + QuoteMeta(s[1..]);
        assert q[2..] == QuoteMeta(s[1..]);
      } else {
        assert q == [s[0]] + QuoteMeta(s[1..]);
        assert q[1..] == QuoteMeta(s[1..]);
      }
    }
  }

  const CaseInsensitive: string := "(?i)"

  /** The expression text getRegEx hands to the compiler. */
  function EffectivePattern(cfg: Options): string
  {
    (if cfg.ignoreCase then CaseInsensitive else []) + (if cfg.fixed then QuoteMeta(cfg.pattern) else cfg.pattern)
  }

  /**
   * With `-F` the compiled expression, after the optional `(?i)` flag group,
   * is a literal pattern for the given pattern; without `-F` it is the
   * pattern itself. `-i` always adds the flag group in front.
   */
  lemma EffectivePatternShape(cfg: Options)
    ensures var rgx := EffectivePattern(cfg);
      var k := if cfg.ignoreCase then |CaseInsensitive| else 0;
      k <= |rgx| && rgx[..k] == (if cfg.ignoreCase then CaseInsensitive else [])
      && (cfg.fixed ==> IsLiteral(rgx[k..]) && LiteralText(rgx[k..]) == cfg.pattern)
      && (!cfg.fixed ==> rgx[k..] == cfg.pattern)
  {
    var rgx := EffectivePattern(cfg);
    var k := if cfg.ignoreCase then |CaseInsensitive| else 0;
    assert rgx[k..] == (if cfg.fixed then QuoteMeta(cfg.pattern) else cfg.pattern);
    if cfg.fixed { QuoteMetaIsLiteral(cfg.pattern); }
  }

  /** getRegEx: a pattern the compiler refuses stops the run before any line is scanned. */
  function GetRegEx(cfg: Options, compiles: string -> bool): (r: Result<string, GrepError>)
    ensures r.Success? <==> compiles(EffectivePattern(cfg))
    ensures r.Success? ==> r.value == EffectivePattern(cfg)
    ensures r.Failure? ==> r.error == InvalidPattern
  {
    var rgx := EffectivePattern(cfg);
    if compiles(rgx) then Success(rgx) else Failure(InvalidPattern)
  }

  // ------------------------------------------------------ spans, matches

  /** A half-open byte range `[start, end)` of one match inside a line. */
  datatype Span = Span(start: nat, end: nat)

  /** The engine's promise for one line: spans left to right, not overlapping, inside `[from, len]`. */
  predicate OrderedSpans(spans: seq<Span>, from: nat, len: nat)
    decreases |spans|
  {
    spans == [] || (from <= spans[0].start <= spans[0].end <= len && OrderedSpans(spans[1..], spans[0].end, len))
  }

  /** `engine(pattern)(line)` is `FindAllStringIndex(line, -1)` of the compiled pattern. */
  type Engine = string -> string -> seq<Span>

  ghost predicate ConformingEngine(engine: Engine) {
    forall p, l :: OrderedSpans(engine(p)(l), 0, |l|)
  }

  function Starts(spans: seq<Span>): (r: seq<nat>)
    ensures |r| == |spans|
  {
    seq(|spans|, k requires 0 <= k < |spans| => spans[k].start)
  }

  function Ends(spans: seq<Span>): (r: seq<nat>)
    ensures |r| == |spans|
  {
    seq(|spans|, k requires 0 <= k < |spans| => spans[k].end)
  }

  /** The `match` record: a line index and the parallel `from`/`to` offset lists. */
  datatype Match = Match(line: nat, from: seq<nat>, to: seq<nat>)

  predicate Increasing(ms: seq<Match>) {
    forall j, k :: 0 <= j < k < |ms| ==> ms[j].line < ms[k].line
  }

  predicate HasRecord(ms: seq<Match>, i: nat) {
    exists k :: 0 <= k < |ms| && ms[k].line == i
  }

  /** For each line, whether the matcher found at least one span in it. */
  function Hits(data: seq<string>, find: string -> seq<Span>): (h: seq<bool>)
    ensures |h| == |data|
  {
    seq(|data|, i requires 0 <= i < |data| => find(data[i]) != [])
  }

  function CountTrue(h: seq<bool>): nat
  {
    if h == [] then 0 else CountTrue(h[..|h| - 1]) + (if h[|h| - 1] then 1 else 0)
  }

  /**
   * What findAll produces: records in strictly increasing line order, one for
   * every line with at least one span and for no other line, each carrying
   * that line's span offsets.
   */
  predicate IsMatchSetOf(ms: seq<Match>, data: seq<string>, find: string -> seq<Span>) {
    && Increasing(ms)
    && (forall k :: 0 <= k < |ms| ==>
          ms[k].line < |data| && find(data[ms[k].line]) != []
          && ms[k].from == Starts(find(data[ms[k].line])) && ms[k].to == Ends(find(data[ms[k].line])))
    && (forall i :: 0 <= i < |data| && find(data[i]) != [] ==> HasRecord(ms, i))
  }

  /** What findAll has built after scanning the first `n` lines. */
  predicate RecordsUpTo(ms: seq<Match>, data: seq<string>, find: string -> seq<Span>, n: nat)
    requires n <= |data|
  {
    && Increasing(ms)
    && (forall k :: 0 <= k < |ms| ==>
          ms[k].line < n && find(data[ms[k].line]) != []
          && ms[k].from == Starts(find(data[ms[k].line])) && ms[k].to == Ends(find(data[ms[k].line])))
    && (forall j :: 0 <= j < n && find(data[j]) != [] ==> HasRecord(ms, j))
  }

  /** Scanning one more line keeps the records consistent: a line without spans adds nothing, a line with spans adds its record. */
  lemma RecordsUpToStep(ms: seq<Match>, data: seq<string>, find: string -> seq<Span>, i: nat)
    requires i < |data| && RecordsUpTo(ms, data, find, i)
    ensures find(data[i]) == [] ==> RecordsUpTo(ms, data, find, i + 1)
    ensures find(data[i]) != [] ==>
      RecordsUpTo(ms + [Match(i, Starts(find(data[i])), Ends(find(data[i])))], data, find, i + 1)
  {
    var x := Match(i, Starts(find(data[i])), Ends(find(data[i])));
    if find(data[i]) != [] {
      HasRecordExtend(ms, x);
      assert HasRecord(ms + [x], i) by { assert (ms + [x])[|ms|].line == i; }
    }
  }

  /** findAll: scan the lines in order and keep a record for each line with a match. */
  method FindAll(data: seq<string>, find: string -> seq<Span>) returns (matches: seq<Match>)
    ensures IsMatchSetOf(matches, data, find)
    ensures |matches| == CountTrue(Hits(data, find))
  {
    matches := [];
    var i := 0;
    while i < |data|
      invariant 0 <= i <= |data|
      invariant RecordsUpTo(matches, data, find, i)
      invariant |matches| == CountTrue(Hits(data, find)[..i])
    {
      var lineMatches := find(data[i]);
      RecordsUpToStep(matches, data, find, i);
      assert Hits(data, find)[..i + 1][..i] == Hits(data, find)[..i];
      if lineMatches == [] {
        i := i + 1;
        continue;
      }
      var from, to := [], [];
      var m := 0;
      while m < |lineMatches|
        invariant 0 <= m <= |lineMatches|
        invariant from == Starts(lineMatches[..m]) && to == Ends(lineMatches[..m])
      {
        from := from + [lineMatches[m].start];
        to := to + [lineMatches[m].end];
        m := m + 1;
      }
      assert lineMatches[..m] == lineMatches;
      matches := matches + [Match(i, from, to)];
      i := i + 1;
    }
    assert Hits(data, find)[..|data|] == Hits(data, find);
  }

  lemma HasRecordExtend(ms: seq<Match>, x: Match)
    ensures forall j :: HasRecord(ms, j) ==> HasRecord(ms + [x], j)
  {
    forall j | HasRecord(ms, j) ensures HasRecord(ms + [x], j) {
      var k :| 0 <= k < |ms| && ms[k].line == j;
      assert (ms + [x])[k].line == j;
    }
  }

  /** The records found are exactly the lines with a match: each such line has one record and no other line has any. */
  lemma RecordsAreMatchingLines(ms: seq<Match>, data: seq<string>, find: string -> seq<Span>, i: nat)
    requires IsMatchSetOf(ms, data, find) && i < |data|
    ensures HasRecord(ms, i) <==> find(data[i]) != []
    ensures forall j, k :: 0 <= j < |ms| && 0 <= k < |ms| && ms[j].line == i && ms[k].line == i ==> j == k
    ensures forall k :: 0 <= k < |ms| ==> |ms[k].from| == |ms[k].to| > 0
  {
  }

  // ------------------------------------------------------- highlighting

  const Esc: char := 27 as char
  /** The ANSI sequences written before and after every match. */
  const MarkOn: string := [Esc] + "[31m"
  const MarkOff: string := [Esc] + "[0m"

  /** The offset lists of one record are well formed from cursor `cur` on: ordered, not overlapping, inside the line. */
  predicate SpansFrom(from: seq<nat>, to: seq<nat>, cur: nat, len: nat)
    decreases |from|
  {
    |from| == |to| && (from == [] || (cur <= from[0] <= to[0] <= len && SpansFrom(from[1..], to[1..], to[0], len)))
  }

  lemma {:induction false} OrderedSpansFrom(spans: seq<Span>, cur: nat, len: nat)
    requires OrderedSpans(spans, cur, len)
    ensures SpansFrom(Starts(spans), Ends(spans), cur, len)
    decreases |spans|
  {
    if spans != [] {
      OrderedSpansFrom(spans[1..], spans[0].end, len);
      assert Starts(spans)[1..] == Starts(spans[1..]);
      assert Ends(spans)[1..] == Ends(spans[1..]);
    }
  }

  /** The rendering of `str[cur:]` with every span wrapped in the two markers. */
  function Highlighted(str: string, from: seq<nat>, to: seq<nat>, cur: nat): string
    requires cur <= |str| && SpansFrom(from, to, cur, |str|)
    decreases |from|
  {
    if from == [] then str[cur..]
    else str[cur..from[0]] + MarkOn + str[from[0]..to[0]] + MarkOff + Highlighted(str, from[1..], to[1..], to[0])
  }

  /** buildHighlitedString: copy the text between spans and wrap each span, advancing a cursor. */
  method BuildHighlightedString(str: string, starts: seq<nat>, ends: seq<nat>) returns (r: string)
    requires SpansFrom(starts, ends, 0, |str|)
    ensures r == Highlighted(str, starts, ends, 0)
    ensures starts == [] ==> r == str
    ensures |r| == |str| + |starts| * (|MarkOn| + |MarkOff|)
  {
    if |starts| < 1 {
      return str;
    }
    var buffer := [];
    var cur: nat := 0;
    var i := 0;
    while i < |starts|
      invariant 0 <= i <= |starts| && cur <= |str|
      invariant SpansFrom(starts[i..], ends[i..], cur, |str|)
      invariant buffer + Highlighted(str, starts[i..], ends[i..], cur) == Highlighted(str, starts, ends, 0)
    {
      assert starts[i..][1..] == starts[i + 1..] && ends[i..][1..] == ends[i + 1..];
      ghost var before := buffer;
      ghost var piece := str[cur..starts[i]] + MarkOn + str[starts[i]..ends[i]] + MarkOff;
      ghost var rest := Highlighted(str, starts[i + 1..], ends[i + 1..], ends[i]);
      assert Highlighted(str, starts[i..], ends[i..], cur) == piece + rest;
      buffer := buffer + str[cur..starts[i]] + MarkOn + str[starts[i]..ends[i]] + MarkOff;
      assert buffer == before + piece;
      ConcatAssoc(before, piece, rest);
      cur := ends[i];
      i := i + 1;
    }
    buffer := buffer + str[cur..];
    r := buffer;
    HighlightedLength(str, starts, ends, 0);
  }

  lemma {:induction false} HighlightedLength(str: string, from: seq<nat>, to: seq<nat>, cur: nat)
    requires cur <= |str| && SpansFrom(from, to, cur, |str|)
    ensures |Highlighted(str, from, to, cur)| == |str| - cur + |from| * (|MarkOn| + |MarkOff|)
    decreases |from|
  {
    if from != [] {
      HighlightedLength(str, from[1..], to[1..], to[0]);
    }
  }

  /** Drops every highlight marker from a rendered line. */
  function Unmark(s: string): string
    decreases |s|
  {
    if |MarkOn| <= |s| && s[..|MarkOn|] == MarkOn then Unmark(s[|MarkOn|..])
    else if |MarkOff| <= |s| && s[..|MarkOff|] == MarkOff then Unmark(s[|MarkOff|..])
    else if s == [] then []
    else [s[0]] + Unmark(s[1..])
  }

  /** A character other than ESC is kept by `Unmark`. */
  lemma UnmarkFirst(s: string)
    requires s != [] && s[0] != Esc
    ensures Unmark(s) == [s[0]] + Unmark(s[1..])
  {
    assert MarkOn[0] == Esc && MarkOff[0] == Esc;
    assert !(|MarkOn| <= |s| && s[..|MarkOn|] == MarkOn) by { if |MarkOn| <= |s| { assert s[..|MarkOn|][0] == s[0]; } }
    assert !(|MarkOff| <= |s| && s[..|MarkOff|] == MarkOff) by { if |MarkOff| <= |s| { assert s[..|MarkOff|][0] == s[0]; } }
  }

  lemma {:induction false} UnmarkPlain(a: string, b: string)
    requires Esc !in a
    ensures Unmark(a + b) == a + Unmark(b)
    decreases |a|
  {
    if a != [] {
      var s := a + b;
      assert s[0] == a[0];
      UnmarkFirst(s);
      assert s[1..] == a[1..] + b;
      UnmarkPlain(a[1..], b);
      assert Unmark(s) == [a[0]] + (a[1..] + Unmark(b));
      ConcatAssoc([a[0]], a[1..], Unmark(b));
      assert [a[0]] + a[1..] == a;
    } else {
      assert a + b == b;
    }
  }

  lemma UnmarkMarkOn(b: string)
    ensures Unmark(MarkOn + b) == Unmark(b)
  {
    var s := MarkOn + b;
    assert s[..|MarkOn|] == MarkOn;
    assert s[|MarkOn|..] == b;
  }

  lemma UnmarkMarkOff(b: string)
    ensures Unmark(MarkOff + b) == Unmark(b)
  {
    var s := MarkOff + b;
    assert s[..|MarkOff|] == MarkOff;
    assert s[|MarkOff|..] == b;
    assert !(|MarkOn| <= |s| && s[..|MarkOn|] == MarkOn) by {
      if |MarkOn| <= |s| { assert s[..|MarkOn|][2] == '0' != MarkOn[2]; }
    }
  }

  lemma EscFreeSlice(str: string, i: nat, j: nat)
    requires i <= j <= |str| && Esc !in str
    ensures Esc !in str[i..j]
  {
  }

  /** One span of the rendering loses its markers. */
  lemma UnmarkSpan(a: string, m: string, rest: string)
    requires Esc !in a && Esc !in m
    ensures Unmark(a + MarkOn + m + MarkOff + rest) == a + m + Unmark(rest)
  {
    assert a + MarkOn + m + MarkOff + rest == a + (MarkOn + (m + (MarkOff + rest)));
    UnmarkPlain(a, MarkOn + (m + (MarkOff + rest)));
    UnmarkMarkOn(m + (MarkOff + rest));
    UnmarkPlain(m, MarkOff + rest);
    UnmarkMarkOff(rest);
  }

  /** Removing the markers from a highlighted line gives back the line (for lines without ESC bytes). */
  lemma {:induction false} UnmarkHighlighted(str: string, from: seq<nat>, to: seq<nat>, cur: nat)
    requires cur <= |str| && SpansFrom(from, to, cur, |str|)
    requires Esc !in str
    ensures Unmark(Highlighted(str, from, to, cur)) == str[cur..]
    decreases |from|
  {
    if from == [] {
      EscFreeSlice(str, cur, |str|);
      UnmarkPlain(str[cur..], []);
      assert str[cur..] + [] == str[cur..];
    } else {
      EscFreeSlice(str, cur, from[0]);
      EscFreeSlice(str, from[0], to[0]);
      UnmarkSpan(str[cur..from[0]], str[from[0]..to[0]], Highlighted(str, from[1..], to[1..], to[0]));
      UnmarkHighlighted(str, from[1..], to[1..], to[0]);
      assert str[cur..] == str[cur..from[0]] + str[from[0]..to[0]] + str[to[0]..];
    }
  }

  /** highlightResults: rewrite, in place, every line that has a record; leave the others alone. */
  method HighlightResults(data: array<string>, matches: seq<Match>)
    requires Increasing(matches)
    requires forall k :: 0 <= k < |matches| ==>
      matches[k].line < data.Length && SpansFrom(matches[k].from, matches[k].to, 0, |data[matches[k].line]|)
    modifies data
    ensures forall k :: 0 <= k < |matches| ==>
      data[matches[k].line] == Highlighted(old(data[matches[k].line]), matches[k].from, matches[k].to, 0)
    ensures forall i :: 0 <= i < data.Length && !HasRecord(matches, i) ==> data[i] == old(data[i])
  {
    var i := 0;
    while i < |matches|
      invariant 0 <= i <= |matches|
      invariant forall k :: 0 <= k < i ==>
        data[matches[k].line] == Highlighted(old(data[matches[k].line]), matches[k].from, matches[k].to, 0)
      invariant forall k :: i <= k < |matches| ==> data[matches[k].line] == old(data[matches[k].line])
      invariant forall j :: 0 <= j < data.Length && !HasRecord(matches, j) ==> data[j] == old(data[j])
    {
      var line := matches[i].line;
      data[line] := BuildHighlightedString(data[line], matches[i].from, matches[i].to);
      i := i + 1;
    }
  }

  // ------------------------------------------------------------ printing

  /** One unit of output: a printed line, the `--` separator, or the count-mode summary. */
  datatype Output = Line(text: string) | Separator | Found(count: nat)

  /** Whether each line has a record in `ms`. */
  function MatchFlags(ms: seq<Match>, n: nat): (h: seq<bool>)
    ensures |h| == n
  {
    seq(n, i requires 0 <= i < n => HasRecord(ms, i))
  }

  /** The indices of the selected lines (match XOR invert), in increasing order. */
  function Selection(hits: seq<bool>, invert: bool): (p: seq<nat>)
    ensures forall k :: 0 <= k < |p| ==> p[k] < |hits|
  {
    if hits == [] then []
    else Selection(hits[..|hits| - 1], invert) + (if hits[|hits| - 1] != invert then [|hits| - 1] else [])
  }

  /**
   * The reference output of the printing pass: the selected lines in order,
   * with one separator in front of every selected line that does not directly
   * follow the previously selected one.
   */
  function WithSeparators(data: seq<string>, p: seq<nat>): seq<Output>
    requires forall k :: 0 <= k < |p| ==> p[k] < |data|
  {
    if p == [] then []
    else
      var last := p[|p| - 1];
      WithSeparators(data, p[..|p| - 1])
        + (if |p| >= 2 && last != p[|p| - 2] + 1 then [Separator] else [])
        + [Line(data[last])]
  }

  /** The lines selected among the first `n` (a record XOR invert), in increasing order. */
  function SelectedUpTo(res: seq<Match>, invert: bool, n: nat): (p: seq<nat>)
  {
    if n == 0 then [] else SelectedUpTo(res, invert, n - 1) + (if HasRecord(res, n - 1) != invert then [n - 1] else [])
  }

  lemma {:induction false} SelectedUpToIsSelection(res: seq<Match>, invert: bool, n: nat)
    ensures SelectedUpTo(res, invert, n) == Selection(MatchFlags(res, n), invert)
  {
    if n > 0 {
      SelectedUpToIsSelection(res, invert, n - 1);
      assert MatchFlags(res, n)[..n - 1] == MatchFlags(res, n - 1);
    }
  }

  /** sendResults walks the records with a cursor: the cursor's record is the only one that can be on line `i`. */
  lemma RecordAtCursor(res: seq<Match>, resIdx: nat, i: nat)
    requires Increasing(res) && resIdx <= |res|
    requires forall k :: 0 <= k < resIdx ==> res[k].line < i
    requires resIdx < |res| ==> res[resIdx].line >= i
    ensures HasRecord(res, i) <==> resIdx < |res| && res[resIdx].line == i
  {
    if resIdx < |res| {
      forall k | resIdx < k < |res|
        ensures res[k].line > i
      {
        assert res[resIdx].line < res[k].line;
      }
    }
  }

  /** One step of the cursor walk extends the selection by line `i` exactly when the cursor's record is on it (XOR invert). */
  lemma SelectedStep(res: seq<Match>, invert: bool, resIdx: nat, i: nat)
    requires Increasing(res) && resIdx <= |res|
    requires resIdx > 0 ==> res[resIdx - 1].line < i
    requires resIdx < |res| ==> res[resIdx].line >= i
    ensures SelectedUpTo(res, invert, i + 1) == SelectedUpTo(res, invert, i) + (if AtCursor(res, i, resIdx) != invert then [i] else [])
  {
    forall k | 0 <= k < resIdx
      ensures res[k].line < i
    {
      if k < resIdx - 1 {
        assert res[k].line < res[resIdx - 1].line;
      }
    }
    RecordAtCursor(res, resIdx, i);
  }

  lemma {:induction false} SelectedUpToBelow(res: seq<Match>, invert: bool, n: nat)
    ensures forall k :: 0 <= k < |SelectedUpTo(res, invert, n)| ==> SelectedUpTo(res, invert, n)[k] < n
  {
    if n > 0 {
      SelectedUpToBelow(res, invert, n - 1);
    }
  }

  /** What the printing pass has emitted once it has looked at the first `i` lines. */
  function Emitted(data: seq<string>, res: seq<Match>, invert: bool, i: nat): seq<Output>
    requires i <= |data|
  {
    SelectedUpToBelow(res, invert, i);
    WithSeparators(data, SelectedUpTo(res, invert, i))
  }

  /** One printing step: a selected line is emitted, preceded by a separator when it does not follow the previous one. */
  lemma EmittedStep(data: seq<string>, res: seq<Match>, invert: bool, selected: bool, i: nat)
    requires i < |data|
    requires SelectedUpTo(res, invert, i + 1) == SelectedUpTo(res, invert, i) + (if selected then [i] else [])
    ensures var p := SelectedUpTo(res, invert, i);
      Emitted(data, res, invert, i + 1)
      == Emitted(data, res, invert, i)
         + (if selected then (if p != [] && i != p[|p| - 1] + 1 then [Separator] else []) + [Line(data[i])] else [])
  {
    var p := SelectedUpTo(res, invert, i);
    SelectedUpToBelow(res, invert, i);
    if selected {
      WithSeparatorsNext(data, p, i);
    } else {
      assert p + [] == p;
    }
  }

  /** The selected lines so far all precede the cursor line. */
  lemma SelectedBeforeCursor(res: seq<Match>, invert: bool, i: nat)
    ensures var p := SelectedUpTo(res, invert, i);
      p != [] ==> p[|p| - 1] < i
  {
    SelectedUpToBelow(res, invert, i);
  }

  lemma WithSeparatorsNext(data: seq<string>, p: seq<nat>, i: nat)
    requires forall k :: 0 <= k < |p| ==> p[k] < |data|
    requires i < |data|
    ensures WithSeparators(data, p + [i])
         == WithSeparators(data, p) + (if p != [] && i != p[|p| - 1] + 1 then [Separator] else []) + [Line(data[i])]
  {
    assert (p + [i])[..|p|] == p;
  }

  /** Whether the record under the cursor is on line `i`. */
  function AtCursor(res: seq<Match>, i: nat, resIdx: nat): bool
  {
    resIdx < |res| && i == res[resIdx].line
  }

  /** Whether sendResults skips line `i`: with records left, a match XOR invert decides; past the last record only invert does. */
  function Skips(res: seq<Match>, invert: bool, i: nat, resIdx: nat): bool
  {
    if resIdx < |res| then AtCursor(res, i, resIdx) == invert else !invert
  }

  /** The cursor after line `i`. */
  function NextCursor(res: seq<Match>, i: nat, resIdx: nat): nat
  {
    if AtCursor(res, i, resIdx) then resIdx + 1 else resIdx
  }

  /** The pass's memory of the previous line after line `i`: -1 before any printed line, 0 right after one, 1 after a gap. */
  function NextSkipped(skip: bool, skipped: int): int
  {
    if !skip then 0 else if skipped != -1 then 1 else -1
  }

  /** The output of the printing pass from line `i` on, with the record cursor at `resIdx` and the memory `skipped`. */
  function Walk(data: seq<string>, res: seq<Match>, invert: bool, i: nat, resIdx: nat, skipped: int): seq<Output>
    requires i <= |data|
    decreases |data| - i
  {
    if i == |data| then []
    else
      var skip := Skips(res, invert, i, resIdx);
      var rest := Walk(data, res, invert, i + 1, NextCursor(res, i, resIdx), NextSkipped(skip, skipped));
      if skip then rest
      else (if skipped == 1 then [Separator] else []) + [Line(data[i])] + rest
  }

  /** The facts sendResults keeps about its cursor and its memory of the previous line after looking at `i` lines. */
  ghost predicate PassState(res: seq<Match>, invert: bool, i: nat, resIdx: nat, skipped: int)
  {
    && resIdx <= |res|
    && (resIdx > 0 ==> res[resIdx - 1].line < i)
    && (resIdx < |res| ==> res[resIdx].line >= i)
    && var p := SelectedUpTo(res, invert, i);
    && (skipped == -1 <==> p == [])
    && (skipped == 0 ==> p != [] && p[|p| - 1] == i - 1)
    && (skipped == 1 ==> p != [] && p[|p| - 1] < i - 1)
    && (skipped == -1 || skipped == 0 || skipped == 1)
  }

  /** One iteration of the pass keeps its state consistent. */
  lemma PassStateStep(res: seq<Match>, invert: bool, i: nat, resIdx: nat, skipped: int)
    requires Increasing(res)
    requires PassState(res, invert, i, resIdx, skipped)
    ensures PassState(res, invert, i + 1, NextCursor(res, i, resIdx), NextSkipped(Skips(res, invert, i, resIdx), skipped))
  {
    SelectedStep(res, invert, resIdx, i);
    SelectedBeforeCursor(res, invert, i);
  }

  /** One iteration of the pass moves one line's output from `Walk` to `Emitted`. */
  lemma WalkStep(data: seq<string>, res: seq<Match>, invert: bool, i: nat, resIdx: nat, skipped: int)
    requires Increasing(res) && i < |data|
    requires PassState(res, invert, i, resIdx, skipped)
    ensures var skip := Skips(res, invert, i, resIdx);
      Emitted(data, res, invert, i) + Walk(data, res, invert, i, resIdx, skipped)
      == Emitted(data, res, invert, i + 1) + Walk(data, res, invert, i + 1, NextCursor(res, i, resIdx), NextSkipped(skip, skipped))
  {
    var skip := Skips(res, invert, i, resIdx);
    SelectedStep(res, invert, resIdx, i);
    SelectedBeforeCursor(res, invert, i);
    EmittedStep(data, res, invert, !skip, i);
    var e := Emitted(data, res, invert, i);
    if skip {
      assert Emitted(data, res, invert, i + 1) == e + [];
    } else {
      var piece := (if skipped == 1 then [Separator] else []) + [Line(data[i])];
      var w := Walk(data, res, invert, i + 1, NextCursor(res, i, resIdx), 0);
      assert Emitted(data, res, invert, i + 1) == e + piece;
      ConcatAssoc(e, piece, w);
    }
  }

  /** The pass, started from any consistent state, completes what has been emitted so far to the reference output. */
  lemma {:induction false} WalkEmits(data: seq<string>, res: seq<Match>, invert: bool, i: nat, resIdx: nat, skipped: int)
    requires Increasing(res) && i <= |data|
    requires PassState(res, invert, i, resIdx, skipped)
    ensures Emitted(data, res, invert, i) + Walk(data, res, invert, i, resIdx, skipped) == Emitted(data, res, invert, |data|)
    decreases |data| - i
  {
    if i < |data| {
      PassStateStep(res, invert, i, resIdx, skipped);
      WalkStep(data, res, invert, i, resIdx, skipped);
      WalkEmits(data, res, invert, i + 1, NextCursor(res, i, resIdx), NextSkipped(Skips(res, invert, i, resIdx), skipped));
    }
  }

  /** sendResults: the count summary in count mode; otherwise the selected lines with separators between disjoint runs. */
  method SendResults(data: seq<string>, res: seq<Match>, cfg: Options) returns (out: seq<Output>)
    requires Increasing(res)
    ensures cfg.count ==> out == [Found(|res|)]
    ensures !cfg.count ==> out == WithSeparators(data, Selection(MatchFlags(res, |data|), cfg.invert))
  {
    if cfg.count {
      return [Found(|res|)];
    }
    out := [];
    var skippedLine := -1;
    var resIdx := 0;
    var i := 0;
    WalkEmits(data, res, cfg.invert, 0, 0, -1);
    while i < |data|
      invariant 0 <= i <= |data| && 0 <= resIdx <= |res|
      invariant out + Walk(data, res, cfg.invert, i, resIdx, skippedLine) == Emitted(data, res, cfg.invert, |data|)
    {
      ghost var skips := Skips(res, cfg.invert, i, resIdx);
      ghost var next := Walk(data, res, cfg.invert, i + 1, NextCursor(res, i, resIdx), NextSkipped(skips, skippedLine));
      ghost var piece: seq<Output> := (if skippedLine == 1 then [Separator] else []) + [Line(data[i])];
      assert Walk(data, res, cfg.invert, i, resIdx, skippedLine) == if skips then next else piece + next;
      ghost var before := out;
      var skip := !cfg.invert;
      if |res| > resIdx {
        var isMatch := i == res[resIdx].line;
        skip := isMatch == cfg.invert;
        if isMatch {
          resIdx := resIdx + 1;
        }
      }
      if skip {
        if skippedLine != -1 {
          skippedLine := 1;
        }
        i := i + 1;
        continue;
      }
      if skippedLine == 1 {
        out := out + [Separator];
      }
      skippedLine := 0;
      out := out + [Line(data[i])];
      assert out == before + piece;
      ConcatAssoc(before, piece, next);
      i := i + 1;
    }
    SelectedUpToIsSelection(res, cfg.invert, |data|);
  }

  /** A selected index is one whose flag differs from `invert`; the list is strictly increasing. */
  lemma {:induction false} SelectionMembers(hits: seq<bool>, invert: bool)
    ensures forall i :: 0 <= i < |hits| ==> (i in Selection(hits, invert) <==> hits[i] != invert)
    decreases |hits|
  {
    if hits != [] {
      var q := hits[..|hits| - 1];
      SelectionMembers(q, invert);
      forall i | 0 <= i < |hits| - 1
        ensures hits[i] == q[i]
      {
      }
    }
  }

  lemma {:induction false} SelectionIncreasing(hits: seq<bool>, invert: bool)
    ensures var p := Selection(hits, invert);
      forall j, k :: 0 <= j < k < |p| ==> p[j] < p[k]
    decreases |hits|
  {
    if hits != [] {
      var q := hits[..|hits| - 1];
      SelectionIncreasing(q, invert);
      var p := Selection(hits, invert);
      assert forall k :: 0 <= k < |Selection(q, invert)| ==> p[k] == Selection(q, invert)[k] < |q|;
    }
  }

  /** Between two consecutive selected lines every line is unselected: a gap means a skipped line. */
  lemma {:induction false} SelectionGapsSkipped(hits: seq<bool>, invert: bool, k: nat, j: nat)
    requires var p := Selection(hits, invert); k + 1 < |p| && p[k] < j < p[k + 1]
    ensures hits[j] == invert
    decreases |hits|
  {
    var p := Selection(hits, invert);
    var q := Selection(hits[..|hits| - 1], invert);
    SelectionMembers(hits[..|hits| - 1], invert);
    SelectionIncreasing(hits[..|hits| - 1], invert);
    if k + 1 < |q| {
      assert p[k] == q[k] && p[k + 1] == q[k + 1];
      SelectionGapsSkipped(hits[..|hits| - 1], invert, k, j);
    } else {
      // p[k + 1] is the last line, and p[k] the last selected line before it
      assert p[k + 1] == |hits| - 1 && k == |q| - 1;
      if hits[j] != invert {
        assert false;
      }
    }
  }

  /** Number of separators a list of outputs holds. */
  function SeparatorCount(out: seq<Output>): nat
  {
    if out == [] then 0 else SeparatorCount(out[..|out| - 1]) + (if out[|out| - 1].Separator? then 1 else 0)
  }

  /** Number of places where a selected line does not directly follow the previous one. */
  function Gaps(p: seq<nat>): nat
  {
    if |p| < 2 then 0 else Gaps(p[..|p| - 1]) + (if p[|p| - 1] != p[|p| - 2] + 1 then 1 else 0)
  }

  function LineTexts(out: seq<Output>): seq<string>
  {
    if out == [] then [] else LineTexts(out[..|out| - 1]) + (if out[|out| - 1].Line? then [out[|out| - 1].text] else [])
  }

  lemma LineTextsAppend(a: seq<Output>, b: seq<Output>)
    ensures LineTexts(a + b) == LineTexts(a) + LineTexts(b)
    ensures SeparatorCount(a + b) == SeparatorCount(a) + SeparatorCount(b)
    decreases |b|
  {
    if b == [] {
      assert a + b == a;
    } else {
      assert (a + b)[..|a + b| - 1] == a + b[..|b| - 1];
      assert (a + b)[|a + b| - 1] == b[|b| - 1];
      LineTextsAppend(a, b[..|b| - 1]);
    }
  }

  /** The last selected line, with the separator that may precede it. */
  lemma WithSeparatorsLast(data: seq<string>, p: seq<nat>)
    requires forall k :: 0 <= k < |p| ==> p[k] < |data|
    requires p != []
    ensures var sep: seq<Output> := if |p| >= 2 && p[|p| - 1] != p[|p| - 2] + 1 then [Separator] else [];
      && WithSeparators(data, p) == WithSeparators(data, p[..|p| - 1]) + sep + [Line(data[p[|p| - 1]])]
      && LineTexts(sep + [Line(data[p[|p| - 1]])]) == [data[p[|p| - 1]]]
      && SeparatorCount(sep + [Line(data[p[|p| - 1]])]) == |sep|
  {
    var sep: seq<Output> := if |p| >= 2 && p[|p| - 1] != p[|p| - 2] + 1 then [Separator] else [];
    var line := Line(data[p[|p| - 1]]);
    LineTextsAppend(sep, [line]);
    assert LineTexts([line]) == [line.text] by { assert [line][..0] == []; }
    assert SeparatorCount([line]) == 0 by { assert [line][..0] == []; }
    if sep != [] {
      assert LineTexts(sep) == [] && SeparatorCount(sep) == 1 by { assert sep[..0] == []; }
    }
  }

  /** The printing pass prints exactly the selected lines, in order, each once. */
  lemma {:induction false} PrintedLines(data: seq<string>, p: seq<nat>)
    requires forall k :: 0 <= k < |p| ==> p[k] < |data|
    ensures LineTexts(WithSeparators(data, p)) == seq(|p|, k requires 0 <= k < |p| => data[p[k]])
    decreases |p|
  {
    if p != [] {
      var q := p[..|p| - 1];
      PrintedLines(data, q);
      WithSeparatorsLast(data, p);
      var sep: seq<Output> := if |p| >= 2 && p[|p| - 1] != p[|p| - 2] + 1 then [Separator] else [];
      ConcatAssoc(WithSeparators(data, q), sep, [Line(data[p[|p| - 1]])]);
      LineTextsAppend(WithSeparators(data, q), sep + [Line(data[p[|p| - 1]])]);
      LinesOfStep(data, p);
    }
  }

  /** The texts of the selected lines, last one split off. */
  lemma LinesOfStep(data: seq<string>, p: seq<nat>)
    requires forall k :: 0 <= k < |p| ==> p[k] < |data|
    requires p != []
    ensures seq(|p|, k requires 0 <= k < |p| => data[p[k]])
         == seq(|p| - 1, k requires 0 <= k < |p| - 1 => data[p[..|p| - 1][k]]) + [data[p[|p| - 1]]]
  {
  }

  /** The printing pass prints one separator per gap between selected lines. */
  lemma {:induction false} PrintedGaps(data: seq<string>, p: seq<nat>)
    requires forall k :: 0 <= k < |p| ==> p[k] < |data|
    ensures SeparatorCount(WithSeparators(data, p)) == Gaps(p)
    decreases |p|
  {
    if p != [] {
      var q := p[..|p| - 1];
      PrintedGaps(data, q);
      WithSeparatorsLast(data, p);
      var sep: seq<Output> := if |p| >= 2 && p[|p| - 1] != p[|p| - 2] + 1 then [Separator] else [];
      ConcatAssoc(WithSeparators(data, q), sep, [Line(data[p[|p| - 1]])]);
      LineTextsAppend(WithSeparators(data, q), sep + [Line(data[p[|p| - 1]])]);
    }
  }

  /** A separator is never first, never last, and never next to another separator. */
  lemma {:induction false} SeparatorsBetweenLines(data: seq<string>, p: seq<nat>)
    requires forall k :: 0 <= k < |p| ==> p[k] < |data|
    ensures var out := WithSeparators(data, p);
      && (out != [] ==> out[0].Line? && out[|out| - 1].Line?)
      && (forall k :: 0 <= k < |out| - 1 ==> !(out[k].Separator? && out[k + 1].Separator?))
    decreases |p|
  {
    if p != [] {
      var q := p[..|p| - 1];
      SeparatorsBetweenLines(data, q);
      WithSeparatorsLast(data, p);
      assert |p| >= 2 ==> WithSeparators(data, q) != [];
    }
  }

  /** When the selected lines form one contiguous run there is no separator at all. */
  lemma {:induction false} ContiguousNoSeparator(data: seq<string>, p: seq<nat>)
    requires forall k :: 0 <= k < |p| ==> p[k] < |data|
    requires forall k :: 0 < k < |p| ==> p[k] == p[k - 1] + 1
    ensures forall k :: 0 <= k < |WithSeparators(data, p)| ==> WithSeparators(data, p)[k].Line?
    decreases |p|
  {
    if p != [] {
      ContiguousNoSeparator(data, p[..|p| - 1]);
    }
  }

  /** With `-v` the selected lines are exactly the unselected lines of the normal run. */
  lemma InvertComplements(hits: seq<bool>, i: nat)
    requires i < |hits|
    ensures i in Selection(hits, true) <==> i !in Selection(hits, false)
  {
    SelectionMembers(hits, true);
    SelectionMembers(hits, false);
  }

  // ------------------------------------------------------- printInRange

  /** The first line printInRange prints: `start` raised to 0 and to `lastLine + 1`. */
  function ClampStart(start: int, lastLine: int): int
  {
    var s := if start < 0 then 0 else start;
    if s <= lastLine then lastLine + 1 else s
  }

  function Rows(data: seq<string>, s: int, e: int): seq<Output>
    requires 0 <= s && (s < e ==> e <= |data|)
  {
    if e <= s then [] else seq(e - s, k requires 0 <= k < e - s => Line(data[s + k]))
  }

  /**
   * printInRange (never called by the program): print `data[start:end]`
   * clamped to the file and to what was already printed, with a separator
   * when the range does not continue the last printed line.
   */
  method PrintInRange(data: seq<string>, start: int, end: int, lastLine: int) returns (out: seq<Output>, last: int)
    ensures var s := ClampStart(start, lastLine);
      var e := if end > |data| then |data| else end;
      && 0 <= s && s > lastLine
      && (e <= lastLine ==> out == [] && last == lastLine)
      && (e > lastLine ==>
            last == e - 1 && out == (if s != lastLine + 1 && lastLine >= 0 then [Separator] else []) + Rows(data, s, e))
    ensures last >= lastLine
  {
    var s := start;
    var e := end;
    if s < 0 {
      s := 0;
    }
    if s <= lastLine {
      s := lastLine + 1;
    }
    if e > |data| {
      e := |data|;
    }
    if e <= lastLine {
      return [], lastLine;
    }
    out := [];
    if s != lastLine + 1 && lastLine >= 0 {
      out := [Separator];
    }
    ghost var s0, prefix := s, out;
    while s < e
      invariant s == s0 || s0 < s <= e
      invariant out == prefix + Rows(data, s0, s)
    {
      assert Rows(data, s0, s + 1) == Rows(data, s0, s) + [Line(data[s])];
      out := out + [Line(data[s])];
      s := s + 1;
    }
    return out, e - 1;
  }

  // ------------------------------------------------------------ the run

  /** The line as printed: highlighted when the matcher found spans in it, unchanged otherwise. */
  function Rendered(line: string, spans: seq<Span>): string
    requires OrderedSpans(spans, 0, |line|)
  {
    OrderedSpansFrom(spans, 0, |line|);
    Highlighted(line, Starts(spans), Ends(spans), 0)
  }

  function Display(data: seq<string>, find: string -> seq<Span>): (d: seq<string>)
    requires forall l :: OrderedSpans(find(l), 0, |l|)
    ensures |d| == |data|
  {
    seq(|data|, i requires 0 <= i < |data| => Rendered(data[i], find(data[i])))
  }

  lemma MatchesHighlightable(matches: seq<Match>, data: seq<string>, find: string -> seq<Span>)
    requires forall l :: OrderedSpans(find(l), 0, |l|)
    requires IsMatchSetOf(matches, data, find)
    ensures forall k :: 0 <= k < |matches| ==> SpansFrom(matches[k].from, matches[k].to, 0, |data[matches[k].line]|)
  {
    forall k | 0 <= k < |matches|
      ensures SpansFrom(matches[k].from, matches[k].to, 0, |data[matches[k].line]|)
    {
      OrderedSpansFrom(find(data[matches[k].line]), 0, |data[matches[k].line]|);
    }
  }

  /** After highlightResults the line array is the displayed text, and the record flags are the hit flags. */
  lemma HighlightedIsDisplay(matches: seq<Match>, data: seq<string>, find: string -> seq<Span>, lines: seq<string>)
    requires forall l :: OrderedSpans(find(l), 0, |l|)
    requires IsMatchSetOf(matches, data, find)
    requires |lines| == |data|
    requires forall k :: 0 <= k < |matches| ==> SpansFrom(matches[k].from, matches[k].to, 0, |data[matches[k].line]|)
    requires forall k :: 0 <= k < |matches| ==>
      lines[matches[k].line] == Highlighted(data[matches[k].line], matches[k].from, matches[k].to, 0)
    requires forall i :: 0 <= i < |data| && !HasRecord(matches, i) ==> lines[i] == data[i]
    ensures lines == Display(data, find)
  {
    forall i | 0 <= i < |data|
      ensures lines[i] == Display(data, find)[i]
    {
      OrderedSpansFrom(find(data[i]), 0, |data[i]|);
      if HasRecord(matches, i) {
        var k :| 0 <= k < |matches| && matches[k].line == i;
      } else {
        assert find(data[i]) == [];
      }
    }
  }

  /** The lines with a record are exactly the lines the engine finds a match in. */
  lemma RecordsAreHits(matches: seq<Match>, data: seq<string>, find: string -> seq<Span>)
    requires IsMatchSetOf(matches, data, find)
    ensures MatchFlags(matches, |data|) == Hits(data, find)
  {
    forall i | 0 <= i < |data|
      ensures MatchFlags(matches, |data|)[i] == Hits(data, find)[i]
    {
      RecordsAreMatchingLines(matches, data, find, i);
    }
  }

  /**
   * main: validate the options, compile the pattern, find the matches,
   * highlight them and print. Errors stop the run before any output. The
   * context options `-A`, `-B`, `-C` are validated but do not influence the output.
   */
  method Run(o: Options, data: seq<string>, engine: Engine, compiles: string -> bool)
    returns (r: Result<seq<Output>, GrepError>)
    requires ConformingEngine(engine)
    ensures GetConfig(o).Failure? ==> r == Failure(GetConfig(o).error)
    ensures GetConfig(o).Success? && !compiles(EffectivePattern(o)) ==> r == Failure(InvalidPattern)
    ensures GetConfig(o).Success? && compiles(EffectivePattern(o)) ==> r.Success?
    ensures r.Success? ==>
      var find := engine(EffectivePattern(o));
      if o.count then r.value == [Found(CountTrue(Hits(data, find)))]
      else r.value == WithSeparators(Display(data, find), Selection(Hits(data, find), o.invert))
  {
    var c := GetConfig(o);
    if c.Failure? {
      return Failure(c.error);
    }
    var cfg := c.value;
    assert EffectivePattern(cfg) == EffectivePattern(o);
    var re := GetRegEx(cfg, compiles);
    if re.Failure? {
      return Failure(re.error);
    }
    var out := SearchAndSend(data, engine(re.value), cfg);
    return Success(out);
  }

  /**
   * The second half of main, once the pattern is compiled: find the matches,
   * highlight them in the lines and print.
   */
  method SearchAndSend(data: seq<string>, find: string -> seq<Span>, cfg: Options) returns (out: seq<Output>)
    requires forall l :: OrderedSpans(find(l), 0, |l|)
    ensures cfg.count ==> out == [Found(CountTrue(Hits(data, find)))]
    ensures !cfg.count ==> out == WithSeparators(Display(data, find), Selection(Hits(data, find), cfg.invert))
  {
    var matches := FindAll(data, find);
    var lines := HighlightCopy(data, matches, find);
    RecordsAreHits(matches, data, find);
    out := SendResults(lines, matches, cfg);
  }

  /** highlightResults applied to a buffer holding the lines: the highlighted lines are the reference display. */
  method HighlightCopy(data: seq<string>, matches: seq<Match>, find: string -> seq<Span>) returns (lines: seq<string>)
    requires forall l :: OrderedSpans(find(l), 0, |l|)
    requires IsMatchSetOf(matches, data, find)
    ensures lines == Display(data, find)
  {
    var buffer := new string[|data|](i requires 0 <= i < |data| => data[i]);
    MatchesHighlightable(matches, data, find);
    HighlightResults(buffer, matches);
    HighlightedIsDisplay(matches, data, find, buffer[..]);
    lines := buffer[..];
  }
}
