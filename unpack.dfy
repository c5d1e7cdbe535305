/**
 * The run-length string unpacker: each rune may be followed by a decimal
 * repeat count (`a4bc2d5e` unpacks to `aaaabccddddde`), a backslash escapes a
 * digit or another backslash so that it stands for itself, and a count of zero
 * (or no count at all) means one copy.
 */
module Unpack {
  import opened Wrappers
  import opened GoStrings

  /** A rune read from the input and the index just past what was read. */
  datatype Parsed = Parsed(rune: char, usedBefore: nat)

  /** One unit of the packed form: a rune and how many copies of it to write. */
  datatype Token = Token(rune: char, count: nat)

  // ------------------------------------------------------------- ParseCount

  /** The end of the maximal run of digits starting at `i`. */
  function RunEnd(runes: string, i: nat): (e: nat)
    ensures i <= e && (i <= |runes| ==> e <= |runes|)
    ensures forall k :: i <= k < e ==> k < |runes| && IsDigit(runes[k])
    ensures e < |runes| ==> !IsDigit(runes[e])
    ensures i > |runes| ==> e == i
    decreases |runes| - i
  {
    if i < |runes| && IsDigit(runes[i]) then RunEnd(runes, i + 1) else i
  }

  /** The number of copies a digit run asks for: its value, where zero (and the empty run) means one. */
  function RepeatCount(digits: string): (n: nat)
    requires AllDigits(digits)
    ensures n >= 1
  {
    var v := DigitsValue(digits);
    if v == 0 then 1 else v
  }

  /**
   * ParseCount: read the maximal digit run at `startAt` and return its count
   * together with the index just past the run.
   */
  method ParseCount(runes: string, startAt: nat) returns (count: nat, usedBefore: nat)
    ensures startAt <= usedBefore && (startAt <= |runes| ==> usedBefore <= |runes|)
    ensures forall k :: startAt <= k < usedBefore ==> k < |runes| && IsDigit(runes[k])
    ensures usedBefore < |runes| ==> !IsDigit(runes[usedBefore])
    ensures startAt <= |runes| ==> count == RepeatCount(runes[startAt..usedBefore])
    ensures startAt > |runes| ==> count == 1 && usedBefore == startAt
    ensures count >= 1
  {
    count := 0;
    usedBefore := startAt;
    while usedBefore < |runes|
      invariant startAt <= usedBefore && (startAt <= |runes| ==> usedBefore <= |runes|)
      invariant forall k :: startAt <= k < usedBefore ==> k < |runes| && IsDigit(runes[k])
      invariant startAt <= |runes| ==> count == DigitsValue(runes[startAt..usedBefore])
      invariant startAt > |runes| ==> count == 0 && usedBefore == startAt
    {
      if !IsDigit(runes[usedBefore]) {
        break;
      }
      assert runes[startAt..usedBefore + 1][..usedBefore - startAt] == runes[startAt..usedBefore];
      count := count * 10 + DigitValue(runes[usedBefore]);
      usedBefore := usedBefore + 1;
    }
    if count == 0 {
      return 1, usedBefore;
    }
  }

  // ------------------------------------------------- HandleEscapeSeq, ParseRune

  /** HandleEscapeSeq: after a backslash only a digit or a backslash may follow, and it stands for itself. */
  function HandleEscapeSeq(runes: string, startAt: nat): (r: Option<Parsed>)
    ensures r.Some? <==> startAt < |runes| && (IsDigit(runes[startAt]) || runes[startAt] == '\\')
    ensures r.Some? ==> r.value == Parsed(runes[startAt], startAt + 1)
  {
    if startAt >= |runes| then None
    else if IsDigit(runes[startAt]) then Some(Parsed(runes[startAt], startAt + 1))
    else if runes[startAt] == '\\' then Some(Parsed(runes[startAt], startAt + 1))
    else None
  }

  /**
   * ParseRune: the rune at `startAt`, or the escaped rune after a backslash;
   * an unescaped digit and a position past the end are errors.
   */
  function ParseRune(runes: string, startAt: nat): (r: Option<Parsed>)
    ensures r.Some? ==> startAt < r.value.usedBefore <= |runes|
    ensures startAt < |runes| && runes[startAt] != '\\' ==>
      (r.Some? <==> !IsDigit(runes[startAt])) && (r.Some? ==> r.value == Parsed(runes[startAt], startAt + 1))
    ensures startAt < |runes| && runes[startAt] == '\\' ==> r == HandleEscapeSeq(runes, startAt + 1)
    ensures startAt >= |runes| ==> r.None?
  {
    if startAt >= |runes| then None
    else if runes[startAt] == '\\' then HandleEscapeSeq(runes, startAt + 1)
    else if IsDigit(runes[startAt]) then None
    else Some(Parsed(runes[startAt], startAt + 1))
  }

  // ------------------------------------------------------------------ Unpack

  /** A token read from the input and the index where reading resumes. */
  datatype Read = Read(token: Token, next: nat)

  /** One step of the unpacker at index `i`: a rune, then the count its digit run asks for. */
  function ReadToken(runes: string, i: nat): (r: Option<Read>)
    ensures r.Some? ==> i < r.value.next <= |runes|
  {
    match ParseRune(runes, i)
    case None => None
    case Some(p) =>
      var e := RunEnd(runes, p.usedBefore);
      Some(Read(Token(p.rune, RepeatCount(runes[p.usedBefore..e])), e))
  }

  /** The tokens the unpacker reads from index `i` on, or `None` when a parse error stops it. */
  function Tokenize(runes: string, i: nat): Option<seq<Token>>
    decreases |runes| - i
  {
    if i >= |runes| then Some([])
    else
      match ReadToken(runes, i)
      case None => None
      case Some(rd) => Prefixed([rd.token], Tokenize(runes, rd.next))
  }

  function Repeat(c: char, n: nat): (s: string)
    ensures |s| == n && forall k :: 0 <= k < n ==> s[k] == c
  {
    seq(n, _ => c)
  }

  /** The text a token sequence stands for: each rune written `count` times, in order. */
  function Expand(toks: seq<Token>): string
  {
    if toks == [] then [] else Expand(toks[..|toks| - 1]) + Repeat(toks[|toks| - 1].rune, toks[|toks| - 1].count)
  }

  /** `toks` in front of a tokenization that may have failed. */
  function Prefixed(toks: seq<Token>, r: Option<seq<Token>>): Option<seq<Token>>
  {
    match r
    case None => None
    case Some(rest) => Some(toks + rest)
  }

  /**
   * Unpack: read a rune and its count until the input is used up, writing the
   * copies; a parse error returns no result at all, never a partial one.
   */
  method Unpack(str: string) returns (r: Option<string>)
    ensures Tokenize(str, 0).None? ==> r.None?
    ensures Tokenize(str, 0).Some? ==> r == Some(Expand(Tokenize(str, 0).value))
    ensures str == [] ==> r == Some([])
  {
    var buffer: string := [];
    var runes := str;
    var curIdx: nat := 0;
    ghost var toks: seq<Token> := [];
    PrefixedEmpty(Tokenize(runes, 0));
    while curIdx < |runes|
      invariant curIdx <= |runes|
      invariant buffer == Expand(toks)
      invariant Tokenize(runes, 0) == Prefixed(toks, Tokenize(runes, curIdx))
      decreases |runes| - curIdx
    {
      var parsed := ParseRune(runes, curIdx);
      if parsed.None? {
        return None;
      }
      var rn := parsed.value.rune;
      var count, next := ParseCount(runes, parsed.value.usedBefore);
      ghost var rest := Tokenize(runes, next);
      ReadTokenStep(runes, curIdx, Token(rn, count), parsed.value.usedBefore, next);
      var k := 0;
      while k < count
        invariant k <= count
        invariant buffer == Expand(toks) + Repeat(rn, k)
      {
        buffer := buffer + [rn];
        k := k + 1;
      }
      assert Expand(toks + [Token(rn, count)]) == buffer by {
        assert (toks + [Token(rn, count)])[..|toks|] == toks;
      }
      PrefixedAppend(toks, Token(rn, count), rest);
      toks := toks + [Token(rn, count)];
      curIdx := next;
    }
    assert toks + [] == toks;
    return Some(buffer);
  }

  /** The maximal digit run at `i` ends where `RunEnd` says. */
  lemma {:induction false} RunEndUnique(runes: string, i: nat, e: nat)
    requires i <= e <= |runes|
    requires forall k :: i <= k < e ==> IsDigit(runes[k])
    requires e < |runes| ==> !IsDigit(runes[e])
    ensures RunEnd(runes, i) == e
    decreases e - i
  {
    if i < e {
      RunEndUnique(runes, i + 1, e);
    }
  }

  /** One iteration of the unpacking loop reads exactly the first token of what is left. */
  lemma ReadTokenStep(runes: string, i: nat, t: Token, start: nat, next: nat)
    requires i < |runes| && ParseRune(runes, i) == Some(Parsed(t.rune, start))
    requires start <= next <= |runes|
    requires forall k :: start <= k < next ==> IsDigit(runes[k])
    requires next < |runes| ==> !IsDigit(runes[next])
    requires t.count == RepeatCount(runes[start..next])
    ensures ReadToken(runes, i) == Some(Read(t, next))
  {
    RunEndUnique(runes, start, next);
  }

  /** Where a token can be read, the unpacker's result is that token in front of what follows it. */
  lemma TokenizeHead(runes: string, i: nat, rd: Read)
    requires i < |runes| && ReadToken(runes, i) == Some(rd)
    ensures Tokenize(runes, i) == Prefixed([rd.token], Tokenize(runes, rd.next))
  {
  }

  lemma PrefixedEmpty(r: Option<seq<Token>>)
    ensures Prefixed([], r) == r
  {
    if r.Some? {
      assert [] + r.value == r.value;
    }
  }

  lemma PrefixedAppend(toks: seq<Token>, t: Token, r: Option<seq<Token>>)
    ensures Prefixed(toks, Prefixed([t], r)) == Prefixed(toks + [t], r)
  {
    if r.Some? {
      assert toks + ([t] + r.value) == (toks + [t]) + r.value;
    }
  }

  // -------------------------------------------------------- properties

  /** A string read as plain runes, each written once. */
  function Plain(t: string): (toks: seq<Token>)
    ensures |toks| == |t|
  {
    seq(|t|, k requires 0 <= k < |t| => Token(t[k], 1))
  }

  /** Neither a digit nor a backslash occurs in `s`. */
  predicate NoControl(s: string) {
    forall k :: 0 <= k < |s| ==> !IsDigit(s[k]) && s[k] != '\\'
  }

  lemma {:induction false} TokenizePlain(s: string, i: nat)
    requires NoControl(s) && i <= |s|
    ensures Tokenize(s, i) == Some(Plain(s[i..]))
    decreases |s| - i
  {
    if i < |s| {
      assert ParseRune(s, i) == Some(Parsed(s[i], i + 1));
      RunEndUnique(s, i + 1, i + 1);
      assert s[i + 1..i + 1] == [];
      TokenizePlain(s, i + 1);
      assert Plain(s[i..]) == [Token(s[i], 1)] + Plain(s[i + 1..]);
    } else {
      assert s[i..] == [];
    }
  }

  lemma {:induction false} ExpandPlain(t: string)
    ensures Expand(Plain(t)) == t
    decreases |t|
  {
    if t != [] {
      var n := |t| - 1;
      assert Plain(t)[..n] == Plain(t[..n]);
      ExpandPlain(t[..n]);
      assert Repeat(t[n], 1) == [t[n]];
      assert t == t[..n] + [t[n]];
    }
  }

  /** A string without digits and backslashes unpacks to itself. */
  lemma PlainUnchanged(s: string)
    requires NoControl(s)
    ensures Tokenize(s, 0).Some? && Expand(Tokenize(s, 0).value) == s
  {
    TokenizePlain(s, 0);
    assert s[0..] == s;
    ExpandPlain(s);
  }

  // ------------------------------------------------------- the round trip

  /** How a rune is written in the packed form: digits and backslashes behind a backslash. */
  function EscapeRune(c: char): (e: string)
    ensures |e| >= 1 && e[|e| - 1] == c
    ensures e[0] == '\\' || !IsDigit(e[0])
  {
    if IsDigit(c) || c == '\\' then ['\\', c] else [c]
  }

  /** How a count is written when it is written shortest: nothing for one, its decimal digits otherwise. */
  function CountDigits(n: nat): (d: string)
    requires n >= 1
    ensures AllDigits(d) && RepeatCount(d) == n
  {
    if n == 1 then [] else NatToDigits(n)
  }

  /** `ds` spells the counts of `toks`: one digit run per token, asking for exactly that token's count. */
  predicate Spells(toks: seq<Token>, ds: seq<string>) {
    && |ds| == |toks|
    && forall k :: 0 <= k < |toks| ==> AllDigits(ds[k]) && RepeatCount(ds[k]) == toks[k].count
  }

  /** Tokens written with the given count spellings: each escaped rune followed by its digit run. */
  function PackWith(toks: seq<Token>, ds: seq<string>): (s: string)
    requires |ds| == |toks|
    ensures toks == [] <==> s == []
    ensures s != [] ==> s[0] == '\\' || !IsDigit(s[0])
  {
    if toks == [] then [] else EscapeRune(toks[0].rune) + ds[0] + PackWith(toks[1..], ds[1..])
  }

  predicate Packable(toks: seq<Token>) {
    forall k :: 0 <= k < |toks| ==> toks[k].count >= 1
  }

  /** The shortest spelling of the counts of `toks`. */
  function Spelling(toks: seq<Token>): (ds: seq<string>)
    requires Packable(toks)
    ensures Spells(toks, ds)
  {
    seq(|toks|, k requires 0 <= k < |toks| => CountDigits(toks[k].count))
  }

  /** The packed form of a token sequence: the inverse of the unpacker's parsing. */
  function Pack(toks: seq<Token>): string
    requires Packable(toks)
  {
    PackWith(toks, Spelling(toks))
  }

  /** The escaped rune at the head of a packed token parses back to that rune. */
  lemma EscapedRuneParses(s: string, i: nat, c: char)
    requires i + |EscapeRune(c)| <= |s| && s[i..i + |EscapeRune(c)|] == EscapeRune(c)
    ensures ParseRune(s, i) == Some(Parsed(c, i + |EscapeRune(c)|))
  {
    var e := EscapeRune(c);
    assert s[i] == s[i..i + |e|][0] == e[0];
    if |e| == 2 {
      assert s[i + 1] == s[i..i + |e|][1] == e[1];
    }
  }

  /** A digit string written into the text is a run of digits there. */
  lemma DigitRun(s: string, j: nat, d: string)
    requires AllDigits(d) && j + |d| <= |s| && s[j..j + |d|] == d
    ensures forall k :: j <= k < j + |d| ==> IsDigit(s[k])
  {
    forall k | j <= k < j + |d|
      ensures IsDigit(s[k])
    {
      assert s[k] == s[j..j + |d|][k - j] == d[k - j];
    }
  }

  /** An escaped rune and a digit run at `i`, not followed by another digit, are read back as one token. */
  lemma ReadPacked(s: string, i: nat, c: char, d: string)
    requires AllDigits(d)
    requires var n := i + |EscapeRune(c)| + |d|;
      && n <= |s| && s[i..n] == EscapeRune(c) + d
      && (n < |s| ==> s[n] == '\\' || !IsDigit(s[n]))
    ensures ReadToken(s, i) == Some(Read(Token(c, RepeatCount(d)), i + |EscapeRune(c)| + |d|))
  {
    var e := EscapeRune(c);
    var j := i + |e|;
    var n := j + |d|;
    var w := s[i..n];
    assert s[i..j] == w[..|e|] == e;
    assert s[j..n] == w[|e|..] == d;
    EscapedRuneParses(s, i, c);
    DigitRun(s, j, d);
    ReadTokenStep(s, i, Token(c, RepeatCount(d)), j, n);
  }

  /** A suffix that is a concatenation splits at the length of its first part. */
  lemma SuffixSplit<T>(s: seq<T>, i: nat, a: seq<T>, b: seq<T>)
    requires i <= |s| && s[i..] == a + b
    ensures i + |a| <= |s| && s[i..i + |a|] == a && s[i + |a|..] == b
    ensures i + |a| < |s| ==> s[i + |a|] == b[0]
  {
    assert s[i..i + |a|] == s[i..][..|a|];
    assert s[i + |a|..] == s[i..][|a|..];
    if i + |a| < |s| {
      assert s[i + |a|] == s[i..][|a|];
    }
  }

  /**
   * Unpacking tokens written with any spelling of their counts (the shortest,
   * or with leading zeros, or `0` and `1` for a single copy) reads back exactly
   * those tokens, wherever they start.
   */
  lemma {:induction false} PackWithRoundTrip(s: string, i: nat, toks: seq<Token>, ds: seq<string>)
    requires Spells(toks, ds)
    requires i <= |s| && s[i..] == PackWith(toks, ds)
    ensures Tokenize(s, i) == Some(toks)
    decreases |toks|
  {
    if toks == [] {
      assert |s[i..]| == 0;
    } else {
      var t := toks[0];
      var a := EscapeRune(t.rune) + ds[0];
      var n := i + |a|;
      SuffixSplit(s, i, a, PackWith(toks[1..], ds[1..]));
      ReadPacked(s, i, t.rune, ds[0]);
      TokenizeHead(s, i, Read(t, n));
      PackWithRoundTrip(s, n, toks[1..], ds[1..]);
      assert [t] + toks[1..] == toks;
    }
  }

  /** Unpacking the packed form of any tokens with positive counts reads back exactly those tokens. */
  lemma PackRoundTrip(toks: seq<Token>)
    requires Packable(toks)
    ensures Tokenize(Pack(toks), 0) == Some(toks)
  {
    PackWithRoundTrip(Pack(toks), 0, toks, Spelling(toks));
  }
}
