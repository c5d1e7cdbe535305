/**
 * The `sort` clone: each line becomes an item carrying its sort key (the
 * whole line or one column of it), optionally read as a number or as a month
 * name; numeric modes put the numeric items first in key order, the output
 * pass walks the items forwards or backwards and can drop adjacent repeats,
 * and the check mode reports the first line that is out of order.
 *
 * Numbers are read by a parameter `parseNum` standing for the float parser
 * (with or without size suffixes); keys are integers here.
 */
module SortLines {
  import opened Wrappers
  import opened GoStrings

  /** One input line with its sort keys: the key text, and the numeric key when it reads as a number. */
  datatype SortItem = SortItem(val: string, sortKeyStr: string, sortKeyNum: int, isNumber: bool)

  /** The flags of one run (`-k -s -n -r -u -M -b -c -h`); the file names are left out. */
  datatype Config = Config(
    column: int, sep: string,
    numSort: bool, reverse: bool, uniqueOutput: bool, monthSort: bool,
    ignoreTrailSpace: bool, checkSorted: bool, withSuffix: bool)

  // ------------------------------------------------------------- getConfig

  function BoolToInt(b: bool): (n: nat)
    ensures n <= 1 && (n == 1 <==> b)
  {
    if b then 1 else 0
  }

  /** The check in getConfig: at most one of `-n`, `-h` and `-M` may be given. */
  function ModesExclusive(cfg: Config): (ok: bool)
    ensures ok <==> !(cfg.numSort && cfg.withSuffix) && !(cfg.numSort && cfg.monthSort) && !(cfg.withSuffix && cfg.monthSort)
  {
    BoolToInt(cfg.numSort) + BoolToInt(cfg.withSuffix) + BoolToInt(cfg.monthSort) <= 1
  }

  /** The modes that compare numeric keys. */
  predicate NumericMode(cfg: Config) {
    cfg.withSuffix || cfg.numSort || cfg.monthSort
  }

  // ------------------------------------------------------------------ -b

  /** The `-b` pass of main: every line loses its leading and trailing spaces, in place. */
  method TrimAll(data: array<string>)
    modifies data
    ensures forall i :: 0 <= i < data.Length ==> data[i] == TrimSpaces(old(data[i]))
  {
    for i := 0 to data.Length
      invariant forall k :: 0 <= k < i ==> data[k] == TrimSpaces(old(data[k]))
      invariant forall k :: i <= k < data.Length ==> data[k] == old(data[k])
    {
      data[i] := TrimSpaces(data[i]);
    }
  }

  /** A line without leading spaces has none to drop. */
  lemma LeadingSpacesNone(s: string)
    requires s == [] || s[0] != ' '
    ensures LeadingSpaces(s) == 0
  {
  }

  /** A line without trailing spaces has none to drop. */
  lemma TrailingSpacesNone(s: string)
    requires s == [] || s[|s| - 1] != ' '
    ensures TrailingSpaces(s) == 0
  {
  }

  /** Trimming twice is trimming once. */
  lemma TrimIdempotent(s: string)
    ensures TrimSpaces(TrimSpaces(s)) == TrimSpaces(s)
  {
    var r := TrimSpaces(s);
    LeadingSpacesNone(r);
    assert r[0..] == r;
    TrailingSpacesNone(r);
    assert r[..|r| - 0] == r;
  }

  // --------------------------------------------------------- key extraction

  /** The getKey closure of intoSortItems: the whole line, or its column-th piece, or empty. */
  function GetKey(s: string, cfg: Config): (key: string)
    ensures cfg.column < 0 ==> key == s
    ensures key == s || key == [] || key in Split(s, cfg.sep)
  {
    if cfg.column < 0 then s
    else if |s| == 0 then s
    else
      var spl := Split(s, cfg.sep);
      if |spl| > cfg.column then spl[cfg.column] else []
  }

  /**
   * The key of a line built from columns joined by a one-character separator
   * they do not contain is the chosen column, or empty past the last one.
   */
  lemma KeyOfJoined(parts: seq<string>, cfg: Config)
    requires cfg.column >= 0 && |cfg.sep| == 1 && |parts| >= 1
    requires forall k :: 0 <= k < |parts| ==> Lacks(parts[k], cfg.sep[0])
    requires Join(parts, cfg.sep) != []
    ensures GetKey(Join(parts, cfg.sep), cfg) == if cfg.column < |parts| then parts[cfg.column] else []
  {
    SplitJoin(parts, cfg.sep);
    var spl := Split(Join(parts, cfg.sep), cfg.sep);
    assert spl == parts;
  }

  // ------------------------------------------------------------- numbers

  /** tryToNumber for one item: the number its key reads as, or zero and not numeric. */
  function NumberKeyed(it: SortItem, parseNum: string -> Option<int>): (r: SortItem)
    ensures r.val == it.val && r.sortKeyStr == it.sortKeyStr
    ensures r.isNumber <==> parseNum(it.sortKeyStr).Some?
    ensures r.isNumber ==> r.sortKeyNum == parseNum(it.sortKeyStr).value
  {
    match parseNum(it.sortKeyStr)
    case None => it.(sortKeyNum := 0, isNumber := false)
    case Some(v) => it.(sortKeyNum := v, isNumber := true)
  }

  /** tryToNumber: every item is keyed by the number its key reads as, in place. */
  method TryToNumber(data: array<SortItem>, parseNum: string -> Option<int>)
    modifies data
    ensures forall i :: 0 <= i < data.Length ==> data[i] == NumberKeyed(old(data[i]), parseNum)
  {
    for i := 0 to data.Length
      invariant forall k :: 0 <= k < i ==> data[k] == NumberKeyed(old(data[k]), parseNum)
      invariant forall k :: i <= k < data.Length ==> data[k] == old(data[k])
    {
      data[i] := NumberKeyed(data[i], parseNum);
    }
  }

  // -------------------------------------------------------------- months

  const Months: seq<string> := [
    "january", "february", "march", "april", "may", "june",
    "july", "august", "september", "october", "november", "december"]

  /** The first name from index `m` on that starts with `key`. */
  function FirstWithPrefix(names: seq<string>, key: string, m: nat): (r: Option<nat>)
    requires m <= |names|
    ensures r.Some? ==> m <= r.value < |names| && HasPrefix(names[r.value], key)
    ensures r.Some? ==> forall j :: m <= j < r.value ==> !HasPrefix(names[j], key)
    ensures r.None? ==> forall j :: m <= j < |names| ==> !HasPrefix(names[j], key)
    decreases |names| - m
  {
    if m == |names| then None
    else if HasPrefix(names[m], key) then Some(m)
    else FirstWithPrefix(names, key, m + 1)
  }

  /**
   * tryToMonth for one item: a key of three or more letters that, in lower
   * case, begins one of the month names becomes that month's index.
   */
  function MonthKeyed(it: SortItem, months: seq<string>): (r: SortItem)
  {
    if |it.sortKeyStr| < 3 then it
    else
      match FirstWithPrefix(months, ToLower(it.sortKeyStr), 0)
      case None => it
      case Some(m) => it.(sortKeyNum := m, isNumber := true)
  }

  /**
   * tryToMonth: every item whose key names a month is keyed by that month, in
   * place. The month table is the parameter `months` (the constant `Months`).
   */
  method TryToMonth(data: array<SortItem>, months: seq<string>)
    modifies data
    ensures forall i :: 0 <= i < data.Length ==> data[i] == MonthKeyed(old(data[i]), months)
  {
    for dataIdx := 0 to data.Length
      invariant forall k :: 0 <= k < dataIdx ==> data[k] == MonthKeyed(old(data[k]), months)
      invariant forall k :: dataIdx <= k < data.Length ==> data[k] == old(data[k])
    {
      if |data[dataIdx].sortKeyStr| < 3 {
        continue;
      }
      var key := ToLower(data[dataIdx].sortKeyStr);
      ghost var before := data[..];
      for monthIdx := 0 to |months|
        invariant FirstWithPrefix(months, key, 0) == FirstWithPrefix(months, key, monthIdx)
        invariant data[..] == before
      {
        if HasPrefix(months[monthIdx], key) {
          data[dataIdx] := data[dataIdx].(sortKeyNum := monthIdx, isNumber := true);
          break;
        }
      }
    }
  }

  const Abbreviations: seq<string> := ["jan", "feb", "mar", "apr", "may", "jun", "jul", "aug", "sep", "oct", "nov", "dec"]

  /** Each month's name starts with its three-letter abbreviation. */
  lemma MonthsAbbreviated()
    ensures |Months| == |Abbreviations| == 12
    ensures forall m :: 0 <= m < 12 ==> 3 <= |Months[m]| && Months[m][..3] == Abbreviations[m]
  {
  }

  /** The three-letter abbreviations of the months are all different. */
  lemma AbbreviationsDistinct()
    ensures forall a, b :: 0 <= a < b < |Abbreviations| ==> Abbreviations[a] != Abbreviations[b]
  {
  }

  /** A string whose first `k` characters differ from those of `p` does not start with `p`. */
  lemma StartsDiffer(s: string, p: string, k: nat)
    requires k <= |p| && k <= |s| && s[..k] != p[..k]
    ensures !HasPrefix(s, p)
  {
    if |p| <= |s| {
      assert s[..|p|][..k] == s[..k];
    }
  }

  /**
   * Among names whose first three letters are all different, a key of at
   * least three letters that starts name `m` picks name `m`.
   */
  lemma PrefixPicksName(names: seq<string>, m: nat, p: string)
    requires forall a, b :: 0 <= a < b < |names| ==> 3 <= |names[a]| && 3 <= |names[b]| && names[a][..3] != names[b][..3]
    requires m < |names| && 3 <= |p| && HasPrefix(names[m], p)
    ensures FirstWithPrefix(names, p, 0) == Some(m)
  {
    assert names[m][..|p|][..3] == p[..3];
    forall j | 0 <= j < m
      ensures !HasPrefix(names[j], p)
    {
      StartsDiffer(names[j], p, 3);
    }
  }

  /** No two months share their first three letters. */
  lemma MonthStartsDistinct()
    ensures forall a, b :: 0 <= a < b < |Months| ==> 3 <= |Months[a]| && 3 <= |Months[b]| && Months[a][..3] != Months[b][..3]
  {
    MonthsAbbreviated();
    AbbreviationsDistinct();
  }

  /** Every lower-case prefix of a month name with at least three letters names that month and no other. */
  lemma MonthPrefixNamesMonth(m: nat, p: string)
    requires m < 12 && 3 <= |p| && HasPrefix(Months[m], p)
    ensures FirstWithPrefix(Months, p, 0) == Some(m)
  {
    MonthStartsDistinct();
    PrefixPicksName(Months, m, p);
  }

  /**
   * So an item whose key, in any letter case, is three or more letters of a
   * month name ("Jan", "JANUARY", "sept") is keyed by that month's index.
   */
  lemma MonthNamesKeyed(it: SortItem, m: nat)
    requires m < 12 && 3 <= |it.sortKeyStr| && HasPrefix(Months[m], ToLower(it.sortKeyStr))
    ensures MonthKeyed(it, Months) == it.(sortKeyNum := m, isNumber := true)
  {
    MonthPrefixNamesMonth(m, ToLower(it.sortKeyStr));
  }

  /** An item whose key starts no month name keeps its keys. */
  lemma NonMonthUnchanged(it: SortItem)
    requires forall m :: 0 <= m < |Months| ==> !HasPrefix(Months[m], ToLower(it.sortKeyStr))
    ensures MonthKeyed(it, Months) == it
  {
  }

  // -------------------------------------------------------- intoSortItems

  /** The item intoSortItems makes of one line. */
  function Keyed(line: string, cfg: Config, parseNum: string -> Option<int>): (it: SortItem)
    ensures it.val == line && it.sortKeyStr == GetKey(line, cfg)
    ensures !cfg.monthSort && !cfg.numSort && !cfg.withSuffix ==> !it.isNumber
  {
    var it := SortItem(line, GetKey(line, cfg), 0, false);
    var it2 := if cfg.numSort || cfg.withSuffix then NumberKeyed(it, parseNum) else it;
    if cfg.monthSort then MonthKeyed(it2, Months) else it2
  }

  /** intoSortItems: one item per line, keyed, then read as numbers and as months as the flags ask. */
  method IntoSortItems(data: seq<string>, cfg: Config, parseNum: string -> Option<int>) returns (res: array<SortItem>)
    ensures fresh(res) && res.Length == |data|
    ensures forall i :: 0 <= i < |data| ==> res[i] == Keyed(data[i], cfg, parseNum)
  {
    res := new SortItem[|data|](i => SortItem([], [], 0, false));
    for i := 0 to |data|
      invariant forall k :: 0 <= k < i ==> res[k] == SortItem(data[k], GetKey(data[k], cfg), 0, false)
    {
      res[i] := SortItem(data[i], GetKey(data[i], cfg), 0, false);
    }
    if cfg.numSort || cfg.withSuffix {
      TryToNumber(res, parseNum);
    }
    if cfg.monthSort {
      TryToMonth(res, Months);
    }
  }

  // ---------------------------------------------------------- sortNumeric

  /** The numeric items, in order. */
  function Numbers(s: seq<SortItem>): (r: seq<SortItem>)
    ensures forall k :: 0 <= k < |r| ==> r[k].isNumber
  {
    if s == [] then []
    else Numbers(s[..|s| - 1]) + (if s[|s| - 1].isNumber then [s[|s| - 1]] else [])
  }

  /** The items that are not numeric, in order. */
  function NonNumbers(s: seq<SortItem>): (r: seq<SortItem>)
    ensures forall k :: 0 <= k < |r| ==> !r[k].isNumber
  {
    if s == [] then []
    else NonNumbers(s[..|s| - 1]) + (if s[|s| - 1].isNumber then [] else [s[|s| - 1]])
  }

  /** Splitting the items into numeric and non-numeric ones loses and adds nothing. */
  lemma {:induction false} PartitionPermutes(s: seq<SortItem>)
    ensures multiset(Numbers(s)) + multiset(NonNumbers(s)) == multiset(s)
  {
    if s != [] {
      var init, last := s[..|s| - 1], s[|s| - 1];
      PartitionPermutes(init);
      assert s == init + [last];
      var a, b := multiset(Numbers(init)), multiset(NonNumbers(init));
      assert multiset(s) == a + b + multiset{last};
      if last.isNumber {
        assert multiset(Numbers(s)) == a + multiset{last};
        assert multiset(NonNumbers(s)) == b;
      } else {
        assert multiset(Numbers(s)) == a;
        assert multiset(NonNumbers(s)) == b + multiset{last};
      }
    }
  }

  predicate KeySorted(s: seq<SortItem>) {
    forall i, j :: 0 <= i < j < |s| ==> s[i].sortKeyNum <= s[j].sortKeyNum
  }

  /** Every key in `s` is at least `b`. */
  predicate AtLeast(s: seq<SortItem>, b: int) {
    forall k :: 0 <= k < |s| ==> b <= s[k].sortKeyNum
  }

  /** `x` placed before the first item of `s` with a larger or equal key. */
  function InsertByKey(x: SortItem, s: seq<SortItem>): (r: seq<SortItem>)
    ensures |r| == |s| + 1
  {
    if s == [] then [x]
    else if x.sortKeyNum <= s[0].sortKeyNum then [x] + s
    else [s[0]] + InsertByKey(x, s[1..])
  }

  /**
   * `slices.SortFunc(nums, floatSort)`: the numeric items ordered by key. The
   * library's algorithm is not modelled, only its promise (proved below for
   * this insertion sort); items with equal keys may come in any order.
   */
  function SortByKey(s: seq<SortItem>): (r: seq<SortItem>)
    ensures |r| == |s|
  {
    if s == [] then [] else InsertByKey(s[0], SortByKey(s[1..]))
  }

  lemma {:induction false} InsertAtLeast(x: SortItem, s: seq<SortItem>, b: int)
    requires AtLeast(s, b) && b <= x.sortKeyNum
    ensures AtLeast(InsertByKey(x, s), b)
  {
    if s != [] && x.sortKeyNum > s[0].sortKeyNum {
      InsertAtLeast(x, s[1..], b);
    }
  }

  /** Inserting into a key-sorted sequence keeps it key-sorted. */
  lemma {:induction false} InsertSorted(x: SortItem, s: seq<SortItem>)
    requires KeySorted(s)
    ensures KeySorted(InsertByKey(x, s))
  {
    if s != [] && x.sortKeyNum > s[0].sortKeyNum {
      InsertSorted(x, s[1..]);
      InsertAtLeast(x, s[1..], s[0].sortKeyNum);
      var t := InsertByKey(x, s[1..]);
      assert forall j :: 0 <= j < |t| ==> s[0].sortKeyNum <= t[j].sortKeyNum;
    }
  }

  /** Inserting adds exactly the one item. */
  lemma {:induction false} InsertPermutes(x: SortItem, s: seq<SortItem>)
    ensures multiset(InsertByKey(x, s)) == multiset(s) + multiset{x}
  {
    if s != [] && x.sortKeyNum > s[0].sortKeyNum {
      InsertPermutes(x, s[1..]);
      assert s == [s[0]] + s[1..];
    }
  }

  /** The sort orders by key. */
  lemma {:induction false} SortByKeySorted(s: seq<SortItem>)
    ensures KeySorted(SortByKey(s))
  {
    if s != [] {
      SortByKeySorted(s[1..]);
      InsertSorted(s[0], SortByKey(s[1..]));
    }
  }

  /** The sort loses and adds no item. */
  lemma {:induction false} SortByKeyPermutes(s: seq<SortItem>)
    ensures multiset(SortByKey(s)) == multiset(s)
  {
    if s != [] {
      SortByKeyPermutes(s[1..]);
      InsertPermutes(s[0], SortByKey(s[1..]));
      assert s == [s[0]] + s[1..];
    }
  }

  /**
   * The order sortNumeric leaves: the numeric items first, sorted by key, then
   * the other items. The non-numeric items keep their input order here; the
   * source orders them with sortStrData, which is not part of this model.
   */
  ghost predicate NumbersFirst(before: seq<SortItem>, after: seq<SortItem>) {
    var n := |Numbers(before)|;
    && |after| == |before| && n <= |after|
    && KeySorted(after[..n]) && multiset(after[..n]) == multiset(Numbers(before))
    && after[n..] == NonNumbers(before)
  }

  /** `nums` and `nans` are the numeric and the other items among the first `i` of `s`. */
  predicate Partitioned(s: seq<SortItem>, i: nat, nums: seq<SortItem>, nans: seq<SortItem>) {
    i <= |s| && nums == Numbers(s[..i]) && nans == NonNumbers(s[..i])
  }

  /** One more item split off: it joins the numeric or the non-numeric items. */
  lemma PartitionStep(s: seq<SortItem>, i: nat, nums: seq<SortItem>, nans: seq<SortItem>)
    requires Partitioned(s, i, nums, nans) && i < |s|
    ensures s[i].isNumber ==> Partitioned(s, i + 1, nums + [s[i]], nans)
    ensures !s[i].isNumber ==> Partitioned(s, i + 1, nums, nans + [s[i]])
  {
    assert s[..i + 1][..i] == s[..i];
  }

  /** Once every item is split off, the two parts are the numeric and the other items. */
  lemma PartitionDone(s: seq<SortItem>, nums: seq<SortItem>, nans: seq<SortItem>)
    requires Partitioned(s, |s|, nums, nans)
    ensures nums == Numbers(s) && nans == NonNumbers(s)
  {
    assert s[..|s|] == s;
  }

  /** The numeric items sorted, followed by the other items, are in the order sortNumeric promises. */
  lemma NumbersFirstOf(input: seq<SortItem>, sorted: seq<SortItem>, nans: seq<SortItem>)
    requires KeySorted(sorted) && multiset(sorted) == multiset(Numbers(input)) && nans == NonNumbers(input)
    ensures |sorted + nans| == |input|
    ensures NumbersFirst(input, sorted + nans)
  {
    assert |sorted| == |Numbers(input)| by {
      assert |multiset(sorted)| == |multiset(Numbers(input))|;
    }
    PartitionPermutes(input);
    assert |Numbers(input)| + |nans| == |input| by {
      assert |multiset(Numbers(input)) + multiset(nans)| == |multiset(input)|;
    }
    var all := sorted + nans;
    assert all[..|sorted|] == sorted;
    assert all[|sorted|..] == nans;
  }

  /** The first `g` cells of `a` hold those of `all`. */
  predicate Filled(a: seq<SortItem>, all: seq<SortItem>, g: nat) {
    |a| == |all| && g <= |a| && a[..g] == all[..g]
  }

  lemma FillStep(a: seq<SortItem>, all: seq<SortItem>, g: nat)
    requires Filled(a, all, g) && g < |a|
    ensures Filled(a[g := all[g]], all, g + 1)
  {
  }

  /** The first loop of sortNumeric: the numeric items and the other items, each in input order. */
  method SplitByNumber(arr: array<SortItem>) returns (nums: seq<SortItem>, nans: seq<SortItem>)
    ensures nums == Numbers(arr[..]) && nans == NonNumbers(arr[..])
  {
    nums := [];
    nans := [];
    for idx := 0 to arr.Length
      invariant Partitioned(arr[..], idx, nums, nans)
    {
      PartitionStep(arr[..], idx, nums, nans);
      if arr[idx].isNumber {
        nums := nums + [arr[idx]];
      } else {
        nans := nans + [arr[idx]];
      }
    }
    PartitionDone(arr[..], nums, nans);
  }

  /** The last two loops of sortNumeric: the sorted numeric items, then the others, written over the array. */
  method WriteBack(arr: array<SortItem>, nums: seq<SortItem>, nans: seq<SortItem>)
    requires |nums| + |nans| == arr.Length
    modifies arr
    ensures arr[..] == nums + nans
  {
    ghost var all := nums + nans;
    var gIdx := 0;
    for idx := 0 to |nums|
      invariant gIdx == idx && Filled(arr[..], all, gIdx)
    {
      FillStep(arr[..], all, gIdx);
      arr[gIdx] := nums[idx];
      gIdx := gIdx + 1;
    }
    for idx := 0 to |nans|
      invariant gIdx == |nums| + idx && Filled(arr[..], all, gIdx)
    {
      FillStep(arr[..], all, gIdx);
      arr[gIdx] := nans[idx];
      gIdx := gIdx + 1;
    }
    assert gIdx == |all|;
    assert arr[..] == all;
  }

  /**
   * sortNumeric: the numeric items, sorted by key, are written to the front of
   * the array and the other items after them.
   */
  method SortNumeric(arr: array<SortItem>)
    modifies arr
    ensures NumbersFirst(old(arr[..]), arr[..])
  {
    ghost var input := arr[..];
    var nums, nans := SplitByNumber(arr);
    SortByKeySorted(nums);
    SortByKeyPermutes(nums);
    nums := SortByKey(nums);
    NumbersFirstOf(input, nums, nans);
    WriteBack(arr, nums, nans);
  }

  /** sortNumeric moves the items around but loses and adds none. */
  lemma NumbersFirstPermutes(before: seq<SortItem>, after: seq<SortItem>)
    requires NumbersFirst(before, after)
    ensures multiset(after) == multiset(before)
  {
    var n := |Numbers(before)|;
    assert after == after[..n] + after[n..];
    PartitionPermutes(before);
  }

  /** After sortNumeric exactly the numeric items come first. */
  lemma NumbersFirstSplits(before: seq<SortItem>, after: seq<SortItem>)
    requires NumbersFirst(before, after)
    ensures forall k :: 0 <= k < |after| ==> (after[k].isNumber <==> k < |Numbers(before)|)
  {
    var n := |Numbers(before)|;
    forall k | 0 <= k < n
      ensures after[k].isNumber
    {
      assert after[..n][k] in multiset(Numbers(before));
    }
    forall k | n <= k < |after|
      ensures !after[k].isNumber
    {
      assert after[k] == after[n..][k - n];
    }
  }

  // ----------------------------------------------------------- sendSorted

  /** The values of the items in the order sendSorted visits them: first to last, or last to first. */
  function Visit(data: seq<SortItem>, reverse: bool): (r: seq<string>)
    ensures |r| == |data|
  {
    if data == [] then []
    else if reverse then [data[|data| - 1].val] + Visit(data[..|data| - 1], true)
    else [data[0].val] + Visit(data[1..], false)
  }

  /** The value of item `k`, counted from the end with `-r`. */
  function ItemAt(data: seq<SortItem>, reverse: bool, k: nat): string
    requires k < |data|
  {
    if reverse then data[|data| - 1 - k].val else data[k].val
  }

  /** The `k`-th value visited is that of item `k`, counted from the end with `-r`. */
  lemma {:induction false} VisitAt(data: seq<SortItem>, reverse: bool, k: nat)
    requires k < |data|
    ensures Visit(data, reverse)[k] == ItemAt(data, reverse, k)
  {
    if k > 0 {
      if reverse {
        VisitAt(data[..|data| - 1], true, k - 1);
      } else {
        VisitAt(data[1..], false, k - 1);
      }
    }
  }

  /** Adjacent repeats dropped: an element is kept unless it equals the one just before it. */
  function Dedup(s: seq<string>): (r: seq<string>)
    ensures |r| <= |s|
    ensures s != [] ==> r != [] && r[|r| - 1] == s[|s| - 1]
  {
    if |s| <= 1 then s
    else Dedup(s[..|s| - 1]) + (if s[|s| - 1] == s[|s| - 2] then [] else [s[|s| - 1]])
  }

  /** What sendSorted writes: the visited values, with adjacent repeats dropped in unique mode. */
  function Emitted(s: seq<string>, unique: bool): seq<string>
  {
    if unique then Dedup(s) else s
  }

  /**
   * sendSorted: walk the items from the first to the last, or from the last
   * to the first with `-r`, printing each value unless `-u` is set and it
   * equals the value printed just before.
   */
  method SendSorted(data: seq<SortItem>, cfg: Config) returns (out: seq<string>)
    ensures out == Emitted(Visit(data, cfg.reverse), cfg.uniqueOutput)
  {
    var cur := 0;
    var end := |data|;
    var incr := 1;
    if cfg.reverse {
      end := 1;
      cur := |data| - 1;
      incr := -1;
    }
    ghost var visited: seq<string> := [];
    out := [];
    var prev: string := [];
    var startFlag := true;
    while incr * cur < end
      invariant incr == (if cfg.reverse then -1 else 1)
      invariant end == (if cfg.reverse then 1 else |data|)
      invariant cur == if cfg.reverse then |data| - 1 - |visited| else |visited|
      invariant Sent(data, cfg, visited, out, startFlag, prev)
      decreases |data| - |visited|
    {
      Direction(incr, cur);
      SentStep(data, cfg, visited, out, startFlag, prev);
      if cfg.uniqueOutput && !startFlag && prev == data[cur].val {
      } else {
        out := out + [data[cur].val];
        startFlag := false;
        prev := data[cur].val;
      }
      visited := visited + [data[cur].val];
      cur := cur + incr;
    }
    Direction(incr, cur);
    VisitMatches(data, cfg.reverse, visited);
  }

  /**
   * The state of sendSorted after visiting the values `visited`: `out` is what
   * has been written, `startFlag` says nothing has been visited yet, and `prev`
   * is the last value visited.
   */
  predicate Sent(data: seq<SortItem>, cfg: Config, visited: seq<string>, out: seq<string>, startFlag: bool, prev: string) {
    && VisitedSoFar(data, cfg.reverse, visited)
    && out == Emitted(visited, cfg.uniqueOutput)
    && (startFlag <==> visited == [])
    && (!startFlag ==> prev == visited[|visited| - 1])
  }

  /** One step of sendSorted: the next value is written unless unique mode drops it as a repeat. */
  lemma SentStep(data: seq<SortItem>, cfg: Config, visited: seq<string>, out: seq<string>, startFlag: bool, prev: string)
    requires Sent(data, cfg, visited, out, startFlag, prev) && |visited| < |data|
    ensures var x := ItemAt(data, cfg.reverse, |visited|);
      var skip := cfg.uniqueOutput && !startFlag && prev == x;
      Sent(data, cfg, visited + [x], if skip then out else out + [x], startFlag && skip, if skip then prev else x)
  {
    var x := ItemAt(data, cfg.reverse, |visited|);
    VisitedExtend(data, cfg.reverse, visited);
    EmitStep(visited, x, cfg.uniqueOutput, out, startFlag, prev);
  }

  /** The loop test of sendSorted multiplies the index by the step, plus or minus one. */
  lemma Direction(incr: int, cur: int)
    requires incr == 1 || incr == -1
    ensures incr * cur == if incr == 1 then cur else -cur
  {
  }

  /** One more value visited: it is written unless unique mode drops it as a repeat of the one before. */
  lemma EmitStep(visited: seq<string>, x: string, unique: bool, out: seq<string>, startFlag: bool, prev: string)
    requires out == Emitted(visited, unique)
    requires (startFlag <==> visited == []) && (!startFlag ==> prev == visited[|visited| - 1])
    ensures (if unique && !startFlag && prev == x then out else out + [x]) == Emitted(visited + [x], unique)
  {
    var t := visited + [x];
    assert t[..|t| - 1] == visited;
  }

  /** `visited` holds the first values in visiting order. */
  predicate VisitedSoFar(data: seq<SortItem>, reverse: bool, visited: seq<string>) {
    |visited| <= |data| && forall k :: 0 <= k < |visited| ==> visited[k] == ItemAt(data, reverse, k)
  }

  lemma VisitedExtend(data: seq<SortItem>, reverse: bool, visited: seq<string>)
    requires VisitedSoFar(data, reverse, visited) && |visited| < |data|
    ensures VisitedSoFar(data, reverse, visited + [ItemAt(data, reverse, |visited|)])
  {
  }

  /** A sequence that holds, position by position, all the values in visiting order is the visit. */
  lemma VisitMatches(data: seq<SortItem>, reverse: bool, visited: seq<string>)
    requires |visited| == |data| && VisitedSoFar(data, reverse, visited)
    ensures visited == Visit(data, reverse)
  {
    forall k | 0 <= k < |data|
      ensures Visit(data, reverse)[k] == visited[k]
    {
      VisitAt(data, reverse, k);
    }
  }

  /** Unique mode leaves no two equal values next to each other. */
  lemma {:induction false} DedupNoRepeats(s: seq<string>)
    ensures forall k :: 0 <= k < |Dedup(s)| - 1 ==> Dedup(s)[k] != Dedup(s)[k + 1]
  {
    if |s| > 1 {
      var init := s[..|s| - 1];
      DedupNoRepeats(init);
    }
  }

  /** Unique mode keeps every value that occurs and invents none. */
  lemma {:induction false} DedupSameValues(s: seq<string>)
    ensures forall x :: x in Dedup(s) <==> x in s
  {
    if |s| > 1 {
      var init := s[..|s| - 1];
      DedupSameValues(init);
      assert s == init + [s[|s| - 1]];
    }
  }

  /** Unique mode changes nothing when no two neighbours are equal. */
  lemma {:induction false} DedupKeepsDistinctNeighbours(s: seq<string>)
    requires forall k :: 0 <= k < |s| - 1 ==> s[k] != s[k + 1]
    ensures Dedup(s) == s
  {
    if |s| > 1 {
      var init := s[..|s| - 1];
      DedupKeepsDistinctNeighbours(init);
      assert s == init + [s[|s| - 1]];
    }
  }

  /** The first value is always printed, in unique mode too. */
  lemma {:induction false} DedupKeepsFirst(s: seq<string>)
    requires s != []
    ensures Dedup(s)[0] == s[0]
  {
    if |s| > 1 {
      DedupKeepsFirst(s[..|s| - 1]);
    }
  }

  // ---------------------------------------------------------- checkSorted

  /** The comparison checkSorted uses: numeric keys in numeric modes, key text otherwise. */
  predicate Less(a: SortItem, b: SortItem, cfg: Config) {
    if NumericMode(cfg) then a.sortKeyNum < b.sortKeyNum else StrLess(a.sortKeyStr, b.sortKeyStr)
  }

  /** A neighbouring pair in the order checkSorted accepts: strictly ascending, or not ascending with `-r`. */
  predicate InOrder(a: SortItem, b: SortItem, cfg: Config) {
    Less(a, b, cfg) != cfg.reverse
  }

  /**
   * checkSorted: -1 when every neighbouring pair is in order, otherwise the
   * 1-based line number of the second line of the first pair that is not.
   */
  method CheckSorted(data: seq<SortItem>, cfg: Config) returns (r: int)
    ensures r == -1 <==> forall i :: 0 <= i < |data| - 1 ==> InOrder(data[i], data[i + 1], cfg)
    ensures r != -1 ==> 2 <= r <= |data| && !InOrder(data[r - 2], data[r - 1], cfg)
    ensures r != -1 ==> forall i :: 0 <= i < r - 2 ==> InOrder(data[i], data[i + 1], cfg)
  {
    var idx := 0;
    while idx < |data| - 1
      invariant 0 <= idx <= if |data| == 0 then 0 else |data| - 1
      invariant forall i :: 0 <= i < idx ==> InOrder(data[i], data[i + 1], cfg)
    {
      if Less(data[idx], data[idx + 1], cfg) == cfg.reverse {
        return idx + 2;
      }
      idx := idx + 1;
    }
    return -1;
  }

  /** The order checkSorted accepts is transitive, in both directions. */
  lemma InOrderTransitive(a: SortItem, b: SortItem, c: SortItem, cfg: Config)
    requires InOrder(a, b, cfg) && InOrder(b, c, cfg)
    ensures InOrder(a, c, cfg)
  {
    if !NumericMode(cfg) {
      var x, y, z := a.sortKeyStr, b.sortKeyStr, c.sortKeyStr;
      if !cfg.reverse {
        StrLessTransitive(x, y, z);
      } else if StrLess(x, z) {
        if x != y && y != z {
          StrLessTotal(x, y);
          StrLessTotal(y, z);
          StrLessTransitive(z, y, x);
          StrLessTransitive(x, z, x);
          StrLessIrreflexive(x);
        }
      }
    }
  }

  /**
   * When checkSorted answers -1, every pair of lines is in order, not just the
   * neighbours: in forward mode the keys strictly increase, so no two are equal.
   */
  lemma {:induction false} SortedEveryPair(data: seq<SortItem>, cfg: Config, i: nat, j: nat)
    requires forall k :: 0 <= k < |data| - 1 ==> InOrder(data[k], data[k + 1], cfg)
    requires i < j < |data|
    ensures InOrder(data[i], data[j], cfg)
    decreases j - i
  {
    if i + 1 < j {
      SortedEveryPair(data, cfg, i, j - 1);
      InOrderTransitive(data[i], data[j - 1], data[j], cfg);
    }
  }

  /** Two neighbours with the same key are reported as unsorted in forward mode. */
  lemma EqualKeysOutOfOrder(a: SortItem, b: SortItem, cfg: Config)
    requires !cfg.reverse
    requires NumericMode(cfg) ==> a.sortKeyNum == b.sortKeyNum
    requires !NumericMode(cfg) ==> a.sortKeyStr == b.sortKeyStr
    ensures !InOrder(a, b, cfg)
  {
    if !NumericMode(cfg) {
      StrLessIrreflexive(a.sortKeyStr);
    }
  }
}
