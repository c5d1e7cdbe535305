/**
 * The pieces of Go's `strings` and `strconv` packages that the programs rely on:
 * `strings.Split`, `strings.Join`, `strings.Index`, `strings.HasPrefix`,
 * `strings.Trim(s, " ")`, and decimal `strconv.ParseInt`/`strconv.Atoi`.
 * A Go string is modelled as a sequence of characters; each character stands for
 * one rune (or one byte where the program indexes bytes).
 */
module GoStrings {
  import opened Wrappers

  // ---------------------------------------------------------------- digits

  predicate IsDigit(c: char) { '0' <= c <= '9' }

  predicate AllDigits(s: seq<char>) { forall i :: 0 <= i < |s| ==> IsDigit(s[i]) }

  function DigitValue(c: char): (d: nat)
    requires IsDigit(c)
    ensures d < 10
  {
    (c as int) - ('0' as int)
  }

  function DigitChar(d: nat): (c: char)
    requires d < 10
    ensures IsDigit(c) && DigitValue(c) == d
  {
    (('0' as int) + d) as char
  }

  /** The value of a run of decimal digits, most significant digit first. */
  function DigitsValue(s: seq<char>): nat
    requires AllDigits(s)
  {
    if s == [] then 0 else 10 * DigitsValue(s[..|s| - 1]) + DigitValue(s[|s| - 1])
  }

  /** Decimal notation of `n` without leading zeros (`"0"` for zero). */
  function NatToDigits(n: nat): (s: seq<char>)
    ensures |s| > 0 && AllDigits(s)
    ensures DigitsValue(s) == n
    ensures n > 0 ==> s[0] != '0'
  {
    if n < 10 then [DigitChar(n)]
    else
      var prefix := NatToDigits(n / 10);
      var s := prefix + [DigitChar(n % 10)];
      assert s[..|s| - 1] == prefix;
      s
  }

  // --------------------------------------------------- strconv.ParseInt

  const MaxInt64: int := 0x7fff_ffff_ffff_ffff
  const MinInt64: int := -0x8000_0000_0000_0000

  /**
   * `strconv.ParseInt(s, 10, 64)` (and `strconv.Atoi` on a 64-bit platform):
   * an optional `+` or `-`, then one or more decimal digits, with the value
   * inside the 64-bit signed range; anything else is an error.
   */
  function ParseInt(s: string): (r: Option<int>)
    ensures r.Some? ==> MinInt64 <= r.value <= MaxInt64
    ensures r.Some? ==> |s| > 0 && IsDigit(s[|s| - 1])
    ensures r.Some? ==> forall k :: 0 <= k < |s| ==> IsDigit(s[k]) || (k == 0 && (s[0] == '-' || s[0] == '+'))
  {
    if s == [] then None
    else
      var neg := s[0] == '-';
      var body := if s[0] == '-' || s[0] == '+' then s[1..] else s;
      if body == [] || !AllDigits(body) then None
      else
        var u := DigitsValue(body);
        if !neg && u > MaxInt64 then None
        else if neg && u > -MinInt64 then None
        else Some(if neg then 0 - u else u)
  }

  lemma ParseIntOfDigits(n: nat)
    requires n <= MaxInt64
    ensures ParseInt(NatToDigits(n)) == Some(n)
  {
    var s := NatToDigits(n);
    assert s[0] != '-' && s[0] != '+' by { assert IsDigit(s[0]); }
  }

  // --------------------------------------------------------- searching

  predicate OccursAt(s: string, sep: string, i: nat) {
    i + |sep| <= |s| && s[i..i + |sep|] == sep
  }

  /** `strings.Index(s[from:], sep)` shifted back by `from`: the first occurrence at or after `from`. */
  function IndexFrom(s: string, sep: string, from: nat): (r: int)
    requires from <= |s|
    ensures r == -1 || from <= r <= |s|
    ensures r >= 0 ==> OccursAt(s, sep, r)
    ensures forall j: nat :: from <= j && (r < 0 || j < r) ==> !OccursAt(s, sep, j)
    decreases |s| - from
  {
    if OccursAt(s, sep, from) then from
    else if from == |s| then -1
    else IndexFrom(s, sep, from + 1)
  }

  /** `strings.Index`: the leftmost occurrence of `sep` in `s`, or -1. */
  function Index(s: string, sep: string): (r: int)
    ensures r == -1 || 0 <= r <= |s|
    ensures r >= 0 ==> OccursAt(s, sep, r)
    ensures forall j: nat :: (r < 0 || j < r) ==> !OccursAt(s, sep, j)
  {
    IndexFrom(s, sep, 0)
  }

  /** `strings.HasPrefix`. */
  predicate HasPrefix(s: string, prefix: string) {
    |prefix| <= |s| && s[..|prefix|] == prefix
  }

  // ------------------------------------------------------ split and join

  /** Concatenation regroups freely; stated once so that long proofs can name the step. */
  lemma ConcatAssoc<T>(a: seq<T>, b: seq<T>, c: seq<T>)
    ensures a + (b + c) == (a + b) + c
  {
  }

  /** `strings.Split(s, "")`: one piece per character. */
  function Explode(s: string): (parts: seq<string>)
    ensures |parts| == |s|
    ensures forall i :: 0 <= i < |s| ==> parts[i] == [s[i]]
  {
    seq(|s|, i requires 0 <= i < |s| => [s[i]])
  }

  /** `strings.Split(s, sep)` for a non-empty `sep`: the pieces between the leftmost non-overlapping occurrences. */
  function SplitOn(s: string, sep: string): (parts: seq<string>)
    requires sep != []
    ensures |parts| >= 1
    decreases |s|
  {
    var i := Index(s, sep);
    if i < 0 then [s] else [s[..i]] + SplitOn(s[i + |sep|..], sep)
  }

  /** `strings.Split(s, sep)`. */
  function Split(s: string, sep: string): (parts: seq<string>)
    ensures sep != [] ==> |parts| >= 1
    ensures sep == [] ==> |parts| == |s|
  {
    if sep == [] then Explode(s) else SplitOn(s, sep)
  }

  /** `strings.Join`. */
  function Join(parts: seq<string>, sep: string): string
  {
    if parts == [] then []
    else if |parts| == 1 then parts[0]
    else parts[0] + sep + Join(parts[1..], sep)
  }

  lemma {:induction false} JoinExplode(s: string)
    ensures Join(Explode(s), []) == s
  {
    if |s| > 1 {
      JoinExplode(s[1..]);
      assert Explode(s)[1..] == Explode(s[1..]);
      assert s == [s[0]] + s[1..];
    }
  }

  lemma SplitOnStep(s: string, sep: string, i: int)
    requires sep != [] && Index(s, sep) == i && i >= 0
    ensures SplitOn(s, sep) == [s[..i]] + SplitOn(s[i + |sep|..], sep)
    ensures s == s[..i] + sep + s[i + |sep|..]
  {
    SplitAround(s, sep, i);
  }

  lemma SplitAround(s: string, sep: string, i: nat)
    requires OccursAt(s, sep, i)
    ensures s == s[..i] + sep + s[i + |sep|..]
  {
    assert s == s[..i] + s[i..i + |sep|] + s[i + |sep|..];
  }

  lemma JoinCons(a: string, sep: string, tail: seq<string>)
    requires |tail| >= 1
    ensures Join([a] + tail, sep) == a + sep + Join(tail, sep)
  {
    assert ([a] + tail)[1..] == tail;
  }

  lemma {:induction false} JoinSplitOn(s: string, sep: string)
    requires sep != []
    ensures Join(SplitOn(s, sep), sep) == s
    decreases |s|
  {
    var i := Index(s, sep);
    if i >= 0 {
      var rest := s[i + |sep|..];
      JoinSplitOn(rest, sep);
      SplitOnStep(s, sep, i);
      JoinCons(s[..i], sep, SplitOn(rest, sep));
    }
  }

  /** Joining the pieces of a split with the same separator gives back the original string. */
  lemma JoinSplit(s: string, sep: string)
    ensures Join(Split(s, sep), sep) == s
  {
    if sep == [] { JoinExplode(s); } else { JoinSplitOn(s, sep); }
  }

  /** With a non-empty separator there are at least two pieces exactly when the separator occurs. */
  lemma SplitHasSeveralParts(s: string, sep: string)
    requires sep != []
    ensures |Split(s, sep)| >= 2 <==> Index(s, sep) >= 0
  {
  }

  /** An occurrence inside a prefix is an occurrence in the whole string. */
  lemma PrefixOccurrences(s: string, sep: string, i: nat)
    requires i <= |s|
    ensures forall j: nat :: OccursAt(s[..i], sep, j) ==> OccursAt(s, sep, j)
  {
    forall j: nat | OccursAt(s[..i], sep, j)
      ensures OccursAt(s, sep, j)
    {
      assert s[..i][j..j + |sep|] == s[j..j + |sep|];
    }
  }

  /** The text before the leftmost occurrence holds no occurrence. */
  lemma FirstPieceFree(s: string, sep: string, i: nat)
    requires sep != [] && Index(s, sep) == i
    ensures Index(s[..i], sep) == -1
  {
    PrefixOccurrences(s, sep, i);
  }

  /** No piece of a split contains the separator. */
  lemma {:induction false} SplitPartsFree(s: string, sep: string, k: nat)
    requires sep != [] && k < |SplitOn(s, sep)|
    ensures Index(SplitOn(s, sep)[k], sep) == -1
    decreases |s|
  {
    var i := Index(s, sep);
    if i >= 0 {
      var rest := s[i + |sep|..];
      SplitOnStep(s, sep, i);
      if k == 0 {
        FirstPieceFree(s, sep, i);
      } else {
        SplitPartsFree(rest, sep, k - 1);
        assert SplitOn(s, sep)[k] == SplitOn(rest, sep)[k - 1];
      }
    }
  }

  /** `s` does not contain the character `c`. */
  predicate Lacks(s: string, c: char) {
    forall k :: 0 <= k < |s| ==> s[k] != c
  }

  /** A one-character separator does not occur in a string that lacks its character. */
  lemma NoOccurrence(b: string, sep: string)
    requires |sep| == 1 && Lacks(b, sep[0])
    ensures forall j: nat :: !OccursAt(b, sep, j)
    ensures Index(b, sep) == -1 && SplitOn(b, sep) == [b]
  {
    forall j: nat | j + 1 <= |b|
      ensures !OccursAt(b, sep, j)
    {
      assert b[j..j + 1][0] == b[j];
    }
  }

  /** A one-character separator splits off the text before its first occurrence. */
  lemma SplitFirst(a: string, sep: string, b: string)
    requires |sep| == 1 && Lacks(a, sep[0])
    ensures SplitOn(a + sep + b, sep) == [a] + SplitOn(b, sep)
  {
    var s := a + sep + b;
    assert OccursAt(s, sep, |a|) by { assert s[|a|..|a| + 1] == sep; }
    forall j: nat | j < |a|
      ensures !OccursAt(s, sep, j)
    {
      assert s[j..j + 1][0] == a[j];
    }
    assert Index(s, sep) == |a|;
    assert s[..|a|] == a;
    assert s[|a| + 1..] == b;
    SplitOnStep(s, sep, |a|);
  }

  /** Splitting pieces joined by a one-character separator that none of them contains gives the pieces back. */
  lemma {:induction false} SplitJoin(parts: seq<string>, sep: string)
    requires |sep| == 1 && |parts| >= 1
    requires forall k :: 0 <= k < |parts| ==> Lacks(parts[k], sep[0])
    ensures Split(Join(parts, sep), sep) == parts
    decreases |parts|
  {
    if |parts| == 1 {
      NoOccurrence(parts[0], sep);
    } else {
      SplitJoin(parts[1..], sep);
      SplitFirst(parts[0], sep, Join(parts[1..], sep));
      assert parts == [parts[0]] + parts[1..];
    }
  }

  // ---------------------------------------------------------- trimming

  function LeadingSpaces(s: string): (n: nat)
    ensures n <= |s|
    ensures forall k :: 0 <= k < n ==> s[k] == ' '
    ensures n < |s| ==> s[n] != ' '
  {
    if s == [] || s[0] != ' ' then 0 else 1 + LeadingSpaces(s[1..])
  }

  function TrailingSpaces(s: string): (n: nat)
    ensures n <= |s|
    ensures forall k :: |s| - n <= k < |s| ==> s[k] == ' '
    ensures n < |s| ==> s[|s| - 1 - n] != ' '
  {
    if s == [] || s[|s| - 1] != ' ' then 0 else 1 + TrailingSpaces(s[..|s| - 1])
  }

  /**
   * `strings.Trim(s, " ")`: the middle of `s` once every leading and trailing
   * space is dropped; everything dropped is a space.
   */
  function TrimSpaces(s: string): (r: string)
    ensures r != [] ==> r[0] != ' ' && r[|r| - 1] != ' '
    ensures LeadingSpaces(s) + |r| <= |s|
    ensures r == s[LeadingSpaces(s)..LeadingSpaces(s) + |r|]
    ensures forall k :: 0 <= k < |s| && !(LeadingSpaces(s) <= k < LeadingSpaces(s) + |r|) ==> s[k] == ' '
  {
    var l := LeadingSpaces(s);
    var t := TrailingSpaces(s[l..]);
    s[l..|s| - t]
  }

  // ---------------------------------------------------------- letter case

  /**
   * `unicode.ToLower` on the letters this model meets: ASCII capitals and
   * the capitals of the basic Cyrillic block (U+0400..U+042F). Every other
   * rune is left as it is.
   */
  function LowerRune(c: char): char
  {
    if 'A' <= c <= 'Z' then (c as int + 0x20) as char
    else if 0x400 <= c as int <= 0x40F then (c as int + 0x50) as char
    else if 0x410 <= c as int <= 0x42F then (c as int + 0x20) as char
    else c
  }

  /** `strings.ToLower`, rune by rune. */
  function ToLower(s: string): (r: string)
    ensures |r| == |s|
    ensures forall k :: 0 <= k < |s| ==> r[k] == LowerRune(s[k])
  {
    seq(|s|, k requires 0 <= k < |s| => LowerRune(s[k]))
  }

  /** Lowering twice is lowering once: no lowered rune is a capital. */
  lemma ToLowerIdempotent(s: string)
    ensures ToLower(ToLower(s)) == ToLower(s)
  {
    forall k | 0 <= k < |s|
      ensures LowerRune(LowerRune(s[k])) == LowerRune(s[k])
    {
    }
  }

  // ------------------------------------------------------------ ordering

  /**
   * Go's `<` on strings: lexicographic order. Go compares UTF-8 bytes; on
   * valid UTF-8 that is the order of the code points compared here.
   */
  function StrLess(a: string, b: string): bool
  {
    if a == [] then b != []
    else if b == [] then false
    else if a[0] != b[0] then a[0] < b[0]
    else StrLess(a[1..], b[1..])
  }

  lemma {:induction false} StrLessIrreflexive(a: string)
    ensures !StrLess(a, a)
    decreases |a|
  {
    if a != [] {
      StrLessIrreflexive(a[1..]);
    }
  }

  lemma {:induction false} StrLessTransitive(a: string, b: string, c: string)
    requires StrLess(a, b) && StrLess(b, c)
    ensures StrLess(a, c)
    decreases |a|
  {
    if a != [] && b != [] && c != [] && a[0] == b[0] && b[0] == c[0] {
      StrLessTransitive(a[1..], b[1..], c[1..]);
    }
  }

  lemma {:induction false} StrLessTotal(a: string, b: string)
    requires a != b
    ensures StrLess(a, b) || StrLess(b, a)
    decreases |a|
  {
    if a != [] && b != [] && a[0] == b[0] {
      assert a == [a[0]] + a[1..] && b == [b[0]] + b[1..];
      StrLessTotal(a[1..], b[1..]);
    }
  }
}
