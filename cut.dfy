/**
 * The `cut` clone: a field list such as `1,3-5,7-` selects pieces of each
 * input line split on a delimiter; lines without the delimiter pass through
 * unchanged, or are dropped in separated mode.
 */
module Cut {
  import opened Wrappers
  import opened GoStrings

  /**
   * One item of the field list, as 0-based indices: a single piece, or the
   * pieces from `start` up to (not including) `end`, where -1 at either end
   * means that end is open.
   */
  datatype Field = Single(idx: int) | Range(start: int, end: int)

  /** The settings of one run: the field list, the delimiter and the separated-only switch. */
  datatype Config = Config(fields: seq<Field>, delimiter: string, separated: bool)

  /** A field that selects pieces without ever indexing outside the line. */
  predicate WellFormed(f: Field) {
    match f
    case Single(idx) => idx >= 0
    case Range(start, _) => start >= -1
  }

  predicate AllWellFormed(fields: seq<Field>) {
    forall i :: 0 <= i < |fields| ==> WellFormed(fields[i])
  }

  // ------------------------------------------------------------- parsing

  /** parseSingleField: a positive decimal number N selects the N-th piece. */
  function ParseSingleField(str: string): (r: Option<Field>)
    ensures r.Some? <==> ParseInt(str).Some? && ParseInt(str).value > 0
    ensures r.Some? ==> r.value.Single? && r.value.idx == ParseInt(str).value - 1 && WellFormed(r.value)
  {
    var n := ParseInt(str);
    if n.Some? && n.value > 0 then Some(Single(n.value - 1)) else None
  }

  /** One end of a range: empty means open (-1), otherwise it must be a number. */
  function RangeBound(part: string): Option<int>
  {
    if part == [] then Some(-1) else ParseInt(part)
  }

  /**
   * parseRangeField as the source writes it: the start is stored as its
   * number minus one even when it was left out, so an open start such as
   * `-3` becomes -2 rather than the open marker -1.
   */
  function ParseRangeFieldAsWritten(str: string): (r: Option<Field>)
    ensures r.Some? ==> r.value.Range? && |Split(str, "-")| == 2
  {
    var parts := Split(str, "-");
    if |parts| != 2 then None
    else
      var n1 := RangeBound(parts[0]);
      var n2 := RangeBound(parts[1]);
      if n1.None? || n2.None? then None
      else if n1.value <= 0 && n2.value <= 0 then None
      else Some(Range(n1.value - 1, n2.value))
  }

  /**
   * parseRangeField with the open start kept open: `N-M` selects pieces N to
   * M, `N-` from N on, `-M` up to M; at least one end must be a positive number.
   */
  function ParseRangeField(str: string): (r: Option<Field>)
    ensures r.Some? ==> r.value.Range? && |Split(str, "-")| == 2
    ensures r.Some? ==> WellFormed(r.value)
    ensures r.Some? ==> r.value.start >= 0 || r.value.end > 0
    ensures var parts := Split(str, "-");
      r.Some? <==> |parts| == 2 && RangeBound(parts[0]).Some? && RangeBound(parts[1]).Some? &&
                   (RangeBound(parts[0]).value > 0 || RangeBound(parts[1]).value > 0)
    ensures var parts := Split(str, "-");
      r.Some? ==> (parts[0] == [] ==> r.value.start == -1) && (r.value.end == -1 <==> parts[1] == [])
    ensures var parts := Split(str, "-");
      r.Some? ==> (parts[0] != [] ==> r.value.start == ParseInt(parts[0]).value - 1) &&
                  (parts[1] != [] ==> r.value.end == ParseInt(parts[1]).value)
  {
    var parts := Split(str, "-");
    if |parts| != 2 then None
    else
      var n1 := RangeBound(parts[0]);
      var n2 := RangeBound(parts[1]);
      if n1.None? || n2.None? then None
      else if n1.value <= 0 && n2.value <= 0 then None
      else
        SplitPartsFree(str, "-", 0);
        DashFreeBound(parts[0]);
        Some(Range(if parts[0] == [] then -1 else n1.value - 1, n2.value))
  }

  /** A bound written without a dash is open or a number that is not negative. */
  lemma DashFreeBound(part: string)
    requires Index(part, "-") == -1
    ensures RangeBound(part).Some? ==> RangeBound(part).value >= -1
  {
    if part != [] {
      assert !OccursAt(part, "-", 0);
      assert part[0..1] == [part[0]];
    }
  }

  /** One item of the field list: a single field if it reads as one, a range otherwise. */
  function ParseField(item: string): (r: Option<Field>)
    ensures r.Some? ==> WellFormed(r.value)
  {
    var single := ParseSingleField(item);
    if single.Some? then single else ParseRangeField(item)
  }

  /**
   * parseFields: split the list on commas and parse every item in order; one
   * bad item rejects the whole list.
   */
  method ParseFields(fieldsStr: string) returns (r: Option<seq<Field>>)
    ensures var items := Split(fieldsStr, ",");
      r.Some? <==> forall i :: 0 <= i < |items| ==> ParseField(items[i]).Some?
    ensures var items := Split(fieldsStr, ",");
      r.Some? ==> |r.value| == |items| && forall i :: 0 <= i < |items| ==> r.value[i] == ParseField(items[i]).value
    ensures r.Some? ==> AllWellFormed(r.value)
  {
    var ls := Split(fieldsStr, ",");
    var fields: seq<Field> := [];
    for i := 0 to |ls|
      invariant |fields| == i
      invariant forall j :: 0 <= j < i ==> ParseField(ls[j]).Some? && fields[j] == ParseField(ls[j]).value
    {
      var single := ParseSingleField(ls[i]);
      if single.Some? {
        fields := fields + [single.value];
        continue;
      }
      var range := ParseRangeField(ls[i]);
      if range.Some? {
        fields := fields + [range.value];
        continue;
      }
      return None;
    }
    return Some(fields);
  }

  // ------------------------------------------------------------ selecting

  /** Whether field `f` selects the piece at 0-based index `k`. */
  predicate Covers(f: Field, k: nat) {
    match f
    case Single(idx) => k == idx
    case Range(start, end) => start <= k && (end == -1 || k < end)
  }

  /** The pieces from index `from` on that `f` selects, in line order. */
  function Picked(f: Field, strs: seq<string>, from: nat): seq<string>
    decreases |strs| - from
  {
    if from >= |strs| then []
    else (if Covers(f, from) then [strs[from]] else []) + Picked(f, strs, from + 1)
  }

  /** Pieces `f` does not select contribute nothing. */
  lemma {:induction false} PickedSkip(f: Field, strs: seq<string>, from: nat, to: nat)
    requires from <= to
    requires forall k: nat :: from <= k < to && k < |strs| ==> !Covers(f, k)
    ensures Picked(f, strs, from) == Picked(f, strs, to)
    decreases (to as int) - (from as int)
  {
    if from < to && from < |strs| {
      PickedSkip(f, strs, from + 1, to);
    } else if from < to {
      PickedEnd(f, strs, to);
    }
  }

  lemma PickedEnd(f: Field, strs: seq<string>, from: nat)
    requires from >= |strs|
    ensures Picked(f, strs, from) == []
  {
  }

  /** Nothing is picked from an index on when no later piece is selected. */
  lemma PickedNone(f: Field, strs: seq<string>, from: nat)
    requires forall k: nat :: from <= k < |strs| ==> !Covers(f, k)
    ensures Picked(f, strs, from) == []
  {
    if from < |strs| {
      PickedSkip(f, strs, from, |strs|);
    }
  }

  /** singleFiled.getString: the selected piece, or nothing when the line has fewer pieces. */
  function SingleGetString(f: Field, strs: seq<string>): (res: seq<string>)
    requires f.Single? && f.idx >= 0
    ensures res == Picked(f, strs, 0)
  {
    PickedSkip(f, strs, 0, f.idx);
    if f.idx < |strs| then
      PickedSkip(f, strs, f.idx + 1, |strs|);
      [strs[f.idx]]
    else
      []
  }

  /** On the pieces of a line, field `f` selects exactly the indices from `lo` up to `hi`. */
  ghost predicate SelectsInterval(f: Field, strs: seq<string>, lo: int, hi: int) {
    forall k: nat :: k < |strs| ==> (Covers(f, k) <==> lo <= k < hi)
  }

  /** A range selects the indices from its start to its end, with -1 read as the open end. */
  lemma RangeSelects(f: Field, strs: seq<string>, lo: int, hi: int)
    requires f.Range? && f.start >= -1
    requires lo == (if f.start == -1 then 0 else f.start)
    requires hi == (if f.end == -1 then |strs| else f.end)
    ensures SelectsInterval(f, strs, lo, hi)
  {
  }

  /** Inside the interval, the piece at `k` heads what is picked from `k` on. */
  lemma IntervalHead(f: Field, strs: seq<string>, lo: int, hi: int, k: nat)
    requires SelectsInterval(f, strs, lo, hi)
    requires lo <= k < hi && k < |strs|
    ensures Picked(f, strs, k) == [strs[k]] + Picked(f, strs, k + 1)
  {
  }

  /** Past the end of the interval nothing more is picked. */
  lemma IntervalTail(f: Field, strs: seq<string>, lo: int, hi: int, k: nat)
    requires SelectsInterval(f, strs, lo, hi)
    requires k >= hi || k >= |strs|
    ensures Picked(f, strs, k) == []
  {
    PickedNone(f, strs, k);
  }

  /** rangeFiled.getString: the pieces from the start of the range up to its end or the end of the line. */
  method RangeGetString(f: Field, strs: seq<string>) returns (res: seq<string>)
    requires f.Range? && f.start >= -1
    ensures res == Picked(f, strs, 0)
  {
    var start := f.start;
    if start == -1 {
      start := 0;
    }
    var end := f.end;
    if end == -1 {
      end := |strs|;
    }
    ghost var lo := start;
    RangeSelects(f, strs, lo, end);
    PickedSkip(f, strs, 0, start);
    res := [];
    while start < end && start < |strs|
      invariant 0 <= lo <= start
      invariant res + Picked(f, strs, start) == Picked(f, strs, 0)
      decreases |strs| - start
    {
      IntervalHead(f, strs, lo, end, start);
      ConcatAssoc(res, [strs[start]], Picked(f, strs, start + 1));
      res := res + [strs[start]];
      start := start + 1;
    }
    IntervalTail(f, strs, lo, end, start);
  }

  /** field.getString: the pieces the field selects, whichever kind it is. */
  method GetString(f: Field, strs: seq<string>) returns (res: seq<string>)
    requires WellFormed(f)
    ensures res == Picked(f, strs, 0)
  {
    if f.Single? {
      res := SingleGetString(f, strs);
    } else {
      res := RangeGetString(f, strs);
    }
  }

  // -------------------------------------------------------------- cutting

  /** The pieces every field selects, field after field, duplicates kept. */
  function Selection(fields: seq<Field>, parts: seq<string>): seq<string>
  {
    if fields == [] then []
    else Selection(fields[..|fields| - 1], parts) + Picked(fields[|fields| - 1], parts, 0)
  }

  /**
   * applyCut: a line without the delimiter comes back unchanged and marked
   * as not cut; otherwise the selected pieces, joined by the delimiter.
   */
  method ApplyCut(line: string, cfg: Config) returns (out: string, ok: bool)
    requires AllWellFormed(cfg.fields)
    ensures ok <==> |Split(line, cfg.delimiter)| >= 2
    ensures !ok ==> out == line
    ensures ok ==> out == Join(Selection(cfg.fields, Split(line, cfg.delimiter)), cfg.delimiter)
  {
    var parts := Split(line, cfg.delimiter);
    if |parts| < 2 {
      return line, false;
    }
    var res: seq<string> := [];
    for flIdx := 0 to |cfg.fields|
      invariant res == Selection(cfg.fields[..flIdx], parts)
    {
      var strs := GetString(cfg.fields[flIdx], parts);
      assert cfg.fields[..flIdx + 1][..flIdx] == cfg.fields[..flIdx];
      res := res + strs;
    }
    assert cfg.fields[..|cfg.fields|] == cfg.fields;
    return Join(res, cfg.delimiter), true;
  }

  /** What the program prints for `lines`: each cut line, and each uncut one unless in separated mode. */
  function Printed(lines: seq<string>, cfg: Config): seq<string>
  {
    if lines == [] then []
    else
      var line := lines[|lines| - 1];
      var parts := Split(line, cfg.delimiter);
      Printed(lines[..|lines| - 1], cfg)
        + (if |parts| >= 2 then [Join(Selection(cfg.fields, parts), cfg.delimiter)]
           else if cfg.separated then []
           else [line])
  }

  /** sendResults: cut every line in order and emit those that were cut or that separated mode keeps. */
  method SendResults(lines: seq<string>, cfg: Config) returns (out: seq<string>)
    requires AllWellFormed(cfg.fields)
    ensures out == Printed(lines, cfg)
  {
    out := [];
    for i := 0 to |lines|
      invariant out == Printed(lines[..i], cfg)
    {
      var str, succ := ApplyCut(lines[i], cfg);
      assert lines[..i + 1][..i] == lines[..i];
      if succ || !cfg.separated {
        out := out + [str];
      }
    }
    assert lines[..|lines|] == lines;
  }

  // ----------------------------------------------------------- properties

  /** The lines that contain the delimiter. */
  function Delimited(lines: seq<string>, delimiter: string): (r: seq<string>)
    ensures |r| <= |lines|
  {
    if lines == [] then []
    else
      var line := lines[|lines| - 1];
      Delimited(lines[..|lines| - 1], delimiter) + (if |Split(line, delimiter)| >= 2 then [line] else [])
  }

  /** Without separated mode every input line produces exactly one output line. */
  lemma {:induction false} PrintedOnePerLine(lines: seq<string>, cfg: Config)
    requires !cfg.separated
    ensures |Printed(lines, cfg)| == |lines|
  {
    if lines != [] {
      PrintedOnePerLine(lines[..|lines| - 1], cfg);
    }
  }

  /** Separated mode prints exactly what the lines containing the delimiter alone would print. */
  lemma {:induction false} SeparatedKeepsDelimited(lines: seq<string>, cfg: Config)
    requires cfg.separated
    ensures Printed(lines, cfg) == Printed(Delimited(lines, cfg.delimiter), cfg.(separated := false))
  {
    if lines != [] {
      var init := lines[..|lines| - 1];
      var line := lines[|lines| - 1];
      var kept := Delimited(init, cfg.delimiter);
      SeparatedKeepsDelimited(init, cfg);
      if |Split(line, cfg.delimiter)| >= 2 {
        assert (kept + [line])[..|kept|] == kept;
        assert Delimited(lines, cfg.delimiter) == kept + [line];
      } else {
        assert Delimited(lines, cfg.delimiter) == kept + [] == kept;
        assert Printed(lines, cfg) == Printed(init, cfg) + [] == Printed(init, cfg);
      }
    }
  }

  /** The selection for a list of fields is the selections of its parts, one after the other. */
  lemma {:induction false} SelectionAppend(f1: seq<Field>, f2: seq<Field>, parts: seq<string>)
    ensures Selection(f1 + f2, parts) == Selection(f1, parts) + Selection(f2, parts)
    decreases |f2|
  {
    if f2 == [] {
      assert f1 + f2 == f1;
    } else {
      var init := f2[..|f2| - 1];
      var last := Picked(f2[|f2| - 1], parts, 0);
      assert (f1 + f2)[..|f1 + f2| - 1] == f1 + init;
      assert Selection(f1 + f2, parts) == Selection(f1 + init, parts) + last;
      SelectionAppend(f1, init, parts);
      ConcatAssoc(Selection(f1, parts), Selection(init, parts), last);
    }
  }

  /** A range open at both ends of the line, as `1-` parses, selects every piece from `from` on. */
  lemma {:induction false} PickedWhole(parts: seq<string>, from: nat)
    requires from <= |parts|
    ensures Picked(Range(0, -1), parts, from) == parts[from..]
    decreases |parts| - from
  {
    if from < |parts| {
      PickedWhole(parts, from + 1);
      assert parts[from..] == [parts[from]] + parts[from + 1..];
    }
  }

  /** Cutting a delimited line with the field list `1-` gives the line back unchanged. */
  lemma WholeRangeKeepsLine(line: string, delimiter: string)
    ensures ParseField("1-") == Some(Range(0, -1))
    ensures Join(Selection([ParseField("1-").value], Split(line, delimiter)), delimiter) == line
  {
    OpenEndReadsBack(1);
    assert NatToDigits(1) + "-" == "1-";
    var parts := Split(line, delimiter);
    PickedWhole(parts, 0);
    assert [Range(0, -1)][..0] == [];
    assert parts[0..] == parts;
    assert Selection([Range(0, -1)], parts) == Selection([], parts) + Picked(Range(0, -1), parts, 0);
    assert Selection([Range(0, -1)], parts) == parts;
    JoinSplit(line, delimiter);
  }

  /** A single field selects the piece at its index exactly when the line has that many pieces. */
  lemma SingleSelects(idx: nat, parts: seq<string>)
    ensures Selection([Single(idx)], parts) == if idx < |parts| then [parts[idx]] else []
  {
    assert [Single(idx)][..0] == [];
    var _ := SingleGetString(Single(idx), parts);
  }

  /**
   * On a line built by joining pieces with a one-character delimiter they do
   * not contain, field N selects the N-th piece.
   */
  lemma SingleOfJoined(parts: seq<string>, delimiter: string, idx: nat)
    requires |delimiter| == 1 && |parts| >= 1
    requires forall k :: 0 <= k < |parts| ==> Lacks(parts[k], delimiter[0])
    ensures Selection([Single(idx)], Split(Join(parts, delimiter), delimiter))
      == if idx < |parts| then [parts[idx]] else []
  {
    SplitJoin(parts, delimiter);
    SingleSelects(idx, parts);
  }

  // -------------------------------------------------------- reading back

  /** Two dash-free strings joined by one dash split back into the two. */
  lemma SplitDash(a: string, b: string)
    requires Lacks(a, '-') && Lacks(b, '-')
    ensures Split(a + "-" + b, "-") == [a, b]
  {
    assert Join([a, b], "-") == a + "-" + b by {
      assert [a, b][1..] == [b];
    }
    SplitJoin([a, b], "-");
  }

  /** Decimal digits never contain a dash. */
  lemma DigitsDashFree(n: nat)
    ensures Lacks(NatToDigits(n), '-')
  {
    var d := NatToDigits(n);
    forall k | 0 <= k < |d|
      ensures d[k] != '-'
    {
      assert IsDigit(d[k]);
    }
  }

  /** The range `A-B` written in decimal reads back as pieces A through B. */
  lemma RangeReadsBack(a: nat, b: nat)
    requires 0 < a <= MaxInt64 && 0 < b <= MaxInt64
    ensures ParseRangeField(NatToDigits(a) + "-" + NatToDigits(b)) == Some(Range(a - 1, b))
  {
    DigitsDashFree(a);
    DigitsDashFree(b);
    SplitDash(NatToDigits(a), NatToDigits(b));
    BoundOfDigits(a);
    BoundOfDigits(b);
  }

  /** A positive number written in decimal is a closed range bound with that value. */
  lemma BoundOfDigits(n: nat)
    requires 0 < n <= MaxInt64
    ensures NatToDigits(n) != [] && RangeBound(NatToDigits(n)) == Some(n)
  {
    ParseIntOfDigits(n);
  }

  /** The open-start range `-B` reads back as every piece up to B. */
  lemma OpenStartReadsBack(b: nat)
    requires 0 < b <= MaxInt64
    ensures ParseRangeField("-" + NatToDigits(b)) == Some(Range(-1, b))
  {
    DigitsDashFree(b);
    SplitDash([], NatToDigits(b));
    assert [] + "-" + NatToDigits(b) == "-" + NatToDigits(b);
    ParseIntOfDigits(b);
  }

  /** The open-ended range `N-` written in decimal reads back as pieces N to the end. */
  lemma OpenEndReadsBack(a: nat)
    requires 0 < a <= MaxInt64
    ensures ParseField(NatToDigits(a) + "-") == Some(Range(a - 1, -1))
  {
    DigitsDashFree(a);
    SplitDash(NatToDigits(a), []);
    assert NatToDigits(a) + "-" + [] == NatToDigits(a) + "-";
    ParseIntOfDigits(a);
    assert ParseInt(NatToDigits(a) + "-").None?;
  }

  /** The number N written in decimal reads back as the single field N. */
  lemma SingleReadsBack(n: nat)
    requires 0 < n <= MaxInt64
    ensures ParseField(NatToDigits(n)) == Some(Single(n - 1))
  {
    ParseIntOfDigits(n);
  }

  /**
   * The parser as written turns every open-start range `-B` into a start of
   * -2, which getString does not treat as open and would index with.
   */
  lemma OpenStartAsWritten(b: nat)
    requires 0 < b <= MaxInt64
    ensures ParseRangeFieldAsWritten("-" + NatToDigits(b)) == Some(Range(-2, b))
    ensures !WellFormed(Range(-2, b))
    ensures forall strs: seq<string> :: |strs| >= 2 ==> FirstIndexRead(Range(-2, b), strs) == Some(-2)
  {
    DigitsDashFree(b);
    SplitDash([], NatToDigits(b));
    assert [] + "-" + NatToDigits(b) == "-" + NatToDigits(b);
    ParseIntOfDigits(b);
  }

  /**
   * The index getString's loop reads first: the normalised start, when the
   * guard `start < end && start < len(strs)` lets the loop run at all.
   */
  function FirstIndexRead(f: Field, strs: seq<string>): (r: Option<int>)
    requires f.Range?
    ensures r.Some? ==> r.value < |strs|
  {
    var start := if f.start == -1 then 0 else f.start;
    var end := if f.end == -1 then |strs| else f.end;
    if start < end && start < |strs| then Some(start) else None
  }

  /** From a well-formed range, the first index read is never below 0. */
  lemma WellFormedReadsInBounds(f: Field, strs: seq<string>)
    requires f.Range? && WellFormed(f)
    ensures FirstIndexRead(f, strs).Some? ==> 0 <= FirstIndexRead(f, strs).value < |strs|
    ensures FirstIndexRead(f, strs).Some? <==> Picked(f, strs, 0) != []
  {
    var lo := if f.start == -1 then 0 else f.start;
    var hi := if f.end == -1 then |strs| else f.end;
    RangeSelects(f, strs, lo, hi);
    if lo < hi && lo < |strs| {
      PickedSkip(f, strs, 0, lo);
      IntervalHead(f, strs, lo, hi, lo);
    } else {
      PickedNone(f, strs, 0);
    }
  }

  /** The two parsers differ only on ranges with an open start, which only the corrected one keeps open. */
  lemma AsWrittenDiffersOnlyOnOpenStart(str: string)
    ensures ParseRangeFieldAsWritten(str) != ParseRangeField(str) ==>
      && ParseRangeField(str).Some? && ParseRangeField(str).value.start == -1
      && ParseRangeFieldAsWritten(str).Some? && ParseRangeFieldAsWritten(str).value.start == -2
      && ParseRangeFieldAsWritten(str).value.end == ParseRangeField(str).value.end
  {
  }

  /** An empty field list is rejected: its one empty item is neither a number nor a range. */
  lemma EmptyFieldListRejected()
    ensures Split([], ",") == [[]]
    ensures ParseField([]).None?
  {
    assert Split([], "-") == [[]];
  }
}
