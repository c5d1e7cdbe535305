/**
 * The anagram grouper: every word is lowered and reduced to its imprint,
 * the count of each of the 33 Russian letters in it; words with the same
 * imprint share one entry, whose list stays strictly ascending and free of
 * repeats by binary-search insertion, and whose key is the first word seen.
 * The result maps each key to its list, for the entries that gathered at
 * least two distinct words.
 */
module Anagram {
  import opened GoStrings

  // --------------------------------------------------------------- imprints

  /** The letters of the 33-letter Russian alphabet: а..я and ё. */
  predicate Russian(c: char) {
    0x430 <= c as int <= 0x44F || c as int == 0x451
  }

  predicate RussianWord(s: string) {
    forall i :: 0 <= i < |s| ==> Russian(s[i])
  }

  /**
   * The runes `getImprint` can count without indexing out of its array:
   * U+0430..U+0451. U+0450 (ѐ) is among them and shares ё's slot.
   */
  predicate ImprintableWord(s: string) {
    forall i :: 0 <= i < |s| ==> 0x430 <= s[i] as int <= 0x451
  }

  /** The counter a rune increments: 32 for ё, its offset from а otherwise. */
  function Slot(c: char): int {
    if c as int == 0x451 then 32 else c as int - 0x430
  }

  /** The letter counted in slot `k`. */
  function Letter(k: nat): char
    requires k < 33
  {
    if k == 32 then 0x451 as char else (0x430 + k) as char
  }

  lemma SlotLetter(c: char, k: nat)
    requires Russian(c) && k < 33
    ensures Slot(c) == k <==> c == Letter(k)
  {
  }

  /** How many runes of `s` land in slot `k`. */
  function CountSlot(s: string, k: int): nat
  {
    if s == [] then 0
    else CountSlot(s[..|s| - 1], k) + (if Slot(s[|s| - 1]) == k then 1 else 0)
  }

  /** The imprint of a word: its 33 slot counts. */
  function Imprint(s: string): (r: seq<nat>)
    ensures |r| == 33
  {
    seq(33, k requires 0 <= k < 33 => CountSlot(s, k))
  }

  /**
   * getImprint: one counter per slot, bumped rune by rune. A rune outside
   * U+0430..U+0451 would index out of the array, so callers must not pass one.
   */
  method GetImprint(st: string) returns (imprint: seq<nat>)
    requires ImprintableWord(st)
    ensures imprint == Imprint(st)
  {
    var counts := new nat[33](_ => 0);
    for i := 0 to |st|
      invariant forall k :: 0 <= k < 33 ==> counts[k] == CountSlot(st[..i], k)
    {
      var rn := st[i];
      assert st[..i + 1][..i] == st[..i];
      if rn as int == 0x451 {
        counts[32] := counts[32] + 1;
      } else {
        counts[rn as int - 0x430] := counts[rn as int - 0x430] + 1;
      }
    }
    assert st[..|st|] == st;
    imprint := counts[..];
  }

  /** On a Russian word, slot `k` counts the occurrences of letter `k`. */
  lemma {:induction false} CountIsMultiplicity(s: string, k: nat)
    requires RussianWord(s) && k < 33
    ensures CountSlot(s, k) == multiset(s)[Letter(k)]
    decreases |s|
  {
    if s != [] {
      var init := s[..|s| - 1];
      assert s == init + [s[|s| - 1]];
      CountIsMultiplicity(init, k);
      SlotLetter(s[|s| - 1], k);
    }
  }

  /** Two Russian words have the same imprint exactly when they are anagrams. */
  lemma ImprintIffAnagram(a: string, b: string)
    requires RussianWord(a) && RussianWord(b)
    ensures Imprint(a) == Imprint(b) <==> multiset(a) == multiset(b)
  {
    if multiset(a) == multiset(b) {
      forall k | 0 <= k < 33
        ensures Imprint(a)[k] == Imprint(b)[k]
      {
        CountIsMultiplicity(a, k);
        CountIsMultiplicity(b, k);
      }
    }
    if Imprint(a) == Imprint(b) {
      forall c
        ensures multiset(a)[c] == multiset(b)[c]
      {
        if Russian(c) {
          var k: nat := Slot(c);
          SlotLetter(c, k);
          CountIsMultiplicity(a, k);
          CountIsMultiplicity(b, k);
          assert Imprint(a)[k] == Imprint(b)[k];
        } else {
          assert c !in a && c !in b;
        }
      }
    }
  }

  /** ѐ (U+0450) is counted in ё's slot, so the two one-letter words share an imprint. */
  lemma GraveEShareSlot()
    ensures Imprint([0x450 as char]) == Imprint([0x451 as char])
    ensures multiset([0x450 as char]) != multiset([0x451 as char])
  {
    var a, b := [0x450 as char], [0x451 as char];
    forall k | 0 <= k < 33
      ensures Imprint(a)[k] == Imprint(b)[k]
    {
      assert a[..0] == [] && b[..0] == [];
    }
    assert multiset(a)[0x450 as char] == 1;
  }

  // ------------------------------------------------ sorted lists of words

  /** Strictly ascending in Go's string order, hence also free of repeats. */
  ghost predicate Ascending(arr: seq<string>) {
    forall i, j :: 0 <= i < j < |arr| ==> StrLess(arr[i], arr[j])
  }

  /** The first position whose word is not below `x` (linear here; the library halves). */
  function SearchPos(arr: seq<string>, x: string): (p: nat)
    ensures p <= |arr|
  {
    if arr == [] || !StrLess(arr[0], x) then 0 else 1 + SearchPos(arr[1..], x)
  }

  /** `slices.BinarySearch`: the insertion position and whether `x` is there. */
  function BinarySearch(arr: seq<string>, x: string): (nat, bool)
  {
    var p := SearchPos(arr, x);
    (p, p < |arr| && arr[p] == x)
  }

  /** `slices.Insert` of one word. */
  function Insert(arr: seq<string>, idx: nat, x: string): seq<string>
    requires idx <= |arr|
  {
    arr[..idx] + [x] + arr[idx..]
  }

  /** On an ascending list, the position splits the words below `x` from the rest. */
  lemma {:induction false} SearchPosSplits(arr: seq<string>, x: string)
    requires Ascending(arr)
    ensures forall j :: 0 <= j < SearchPos(arr, x) ==> StrLess(arr[j], x)
    ensures forall j :: SearchPos(arr, x) <= j < |arr| ==> !StrLess(arr[j], x)
    decreases |arr|
  {
    if arr != [] {
      if StrLess(arr[0], x) {
        var tail := arr[1..];
        assert Ascending(tail) by {
          forall i, j | 0 <= i < j < |tail|
            ensures StrLess(tail[i], tail[j])
          {
            assert tail[i] == arr[i + 1] && tail[j] == arr[j + 1];
          }
        }
        SearchPosSplits(tail, x);
        forall j | 0 <= j < |arr|
          ensures j < SearchPos(arr, x) <==> StrLess(arr[j], x)
        {
          if j > 0 {
            assert arr[j] == tail[j - 1];
          }
        }
      } else {
        forall j | 0 < j < |arr|
          ensures !StrLess(arr[j], x)
        {
          if StrLess(arr[j], x) {
            StrLessTransitive(arr[0], arr[j], x);
          }
        }
      }
    }
  }

  /**
   * On an ascending list the search finds `x` exactly when `x` is in the
   * list, and every word before the position is below `x`, every word from it
   * on above or equal.
   */
  lemma BinarySearchSpec(arr: seq<string>, x: string)
    requires Ascending(arr)
    ensures BinarySearch(arr, x).0 <= |arr|
    ensures BinarySearch(arr, x).1 <==> x in arr
    ensures forall j :: 0 <= j < BinarySearch(arr, x).0 ==> StrLess(arr[j], x)
    ensures forall j :: BinarySearch(arr, x).0 <= j < |arr| ==> !StrLess(arr[j], x)
  {
    var p := SearchPos(arr, x);
    SearchPosSplits(arr, x);
    if x in arr {
      var j :| 0 <= j < |arr| && arr[j] == x;
      if j < p {
        StrLessIrreflexive(x);
      }
    }
  }

  /** Inserting a missing word at its search position keeps the list ascending. */
  lemma InsertAscending(arr: seq<string>, x: string)
    requires Ascending(arr) && x !in arr
    ensures Ascending(Insert(arr, SearchPos(arr, x), x))
    ensures forall y :: y in Insert(arr, SearchPos(arr, x), x) <==> y in arr || y == x
  {
    var p := SearchPos(arr, x);
    var r := Insert(arr, p, x);
    SearchPosSplits(arr, x);
    assert |r| == |arr| + 1;
    assert forall i :: 0 <= i < p ==> r[i] == arr[i];
    assert r[p] == x;
    assert forall i :: p < i < |r| ==> r[i] == arr[i - 1];
    forall j | p <= j < |arr|
      ensures StrLess(x, arr[j])
    {
      StrLessTotal(arr[j], x);
    }
    forall i, j | 0 <= i < j < |r|
      ensures StrLess(r[i], r[j])
    {
      if j < p || i > p {
      } else if i == p || j == p {
      } else {
        assert r[i] == arr[i] && r[j] == arr[j - 1];
      }
    }
    assert r == arr[..p] + [x] + arr[p..];
  }

  // ------------------------------------------------------------ the groups

  /** One imprint's entry: the first word seen and the sorted distinct words. */
  datatype Entry = Entry(first: string, arr: seq<string>)

  /** What the loop over the words does with one lowered word. */
  function Add(mp: map<seq<nat>, Entry>, w: string): map<seq<nat>, Entry>
  {
    var imprint := Imprint(w);
    if imprint !in mp then mp[imprint := Entry(w, [w])]
    else
      var entry := mp[imprint];
      var (idx, found) := BinarySearch(entry.arr, w);
      if found then mp else mp[imprint := entry.(arr := Insert(entry.arr, idx, w))]
  }

  /** The entries after the loop has seen the words `ws`, in order. */
  function Groups(ws: seq<string>): map<seq<nat>, Entry>
  {
    if ws == [] then map[] else Add(Groups(ws[..|ws| - 1]), ws[|ws| - 1])
  }

  /** Every word of every list has the entry's imprint; the key word is in the list. */
  ghost predicate ValidEntry(k: seq<nat>, e: Entry) {
    && e.first in e.arr
    && Imprint(e.first) == k
    && Ascending(e.arr)
    && forall y :: y in e.arr ==> Imprint(y) == k
  }

  ghost predicate Valid(mp: map<seq<nat>, Entry>) {
    forall k :: k in mp ==> ValidEntry(k, mp[k])
  }

  /** What `Add` does to the keys, the key words and the lists. */
  lemma AddEffect(mp: map<seq<nat>, Entry>, w: string)
    ensures forall k :: k in Add(mp, w) <==> k in mp || k == Imprint(w)
    ensures w in Add(mp, w)[Imprint(w)].arr
    ensures Imprint(w) !in mp ==> Add(mp, w)[Imprint(w)].first == w
    ensures forall k :: k in mp ==> Add(mp, w)[k].first == mp[k].first
    ensures forall k, y :: k in mp && y in mp[k].arr ==> y in Add(mp, w)[k].arr
    ensures forall k, y :: k in Add(mp, w) && y in Add(mp, w)[k].arr ==>
              y == w || (k in mp && y in mp[k].arr)
  {
    var imprint := Imprint(w);
    if imprint in mp {
      var arr := mp[imprint].arr;
      var (idx, found) := BinarySearch(arr, w);
      if !found {
        var r := Insert(arr, idx, w);
        assert r[idx] == w;
        forall y
          ensures y in r <==> y in arr || y == w
        {
          assert r == arr[..idx] + [w] + arr[idx..];
          assert arr == arr[..idx] + arr[idx..];
        }
      }
    }
  }

  lemma AddValid(mp: map<seq<nat>, Entry>, w: string)
    requires Valid(mp)
    ensures Valid(Add(mp, w))
  {
    var imprint := Imprint(w);
    if imprint in mp {
      var arr := mp[imprint].arr;
      BinarySearchSpec(arr, w);
      if w !in arr {
        InsertAscending(arr, w);
      }
    }
  }

  lemma {:induction false} GroupsValid(ws: seq<string>)
    ensures Valid(Groups(ws))
    decreases |ws|
  {
    if ws != [] {
      GroupsValid(ws[..|ws| - 1]);
      AddValid(Groups(ws[..|ws| - 1]), ws[|ws| - 1]);
    }
  }

  lemma GroupsStep(ws: seq<string>, i: nat)
    requires i < |ws|
    ensures Groups(ws[..i + 1]) == Add(Groups(ws[..i]), ws[i])
  {
    assert ws[..i + 1][..i] == ws[..i];
  }

  /** Every word in a list was seen. */
  lemma {:induction false} GroupsWordsSeen(ws: seq<string>)
    ensures forall k, y :: k in Groups(ws) && y in Groups(ws)[k].arr ==> y in ws
    decreases |ws|
  {
    if ws != [] {
      var init, w := ws[..|ws| - 1], ws[|ws| - 1];
      GroupsWordsSeen(init);
      AddEffect(Groups(init), w);
      assert ws == init + [w];
    }
  }

  /** Every word seen is in the list of its imprint. */
  lemma {:induction false} GroupsWordsFiled(ws: seq<string>)
    ensures forall y :: y in ws ==> Imprint(y) in Groups(ws) && y in Groups(ws)[Imprint(y)].arr
    decreases |ws|
  {
    if ws != [] {
      var init, w := ws[..|ws| - 1], ws[|ws| - 1];
      GroupsWordsFiled(init);
      AddEffect(Groups(init), w);
      assert ws == init + [w];
    }
  }

  /** The position of the first word with imprint `k`, or `|ws|` when there is none. */
  function FirstWith(ws: seq<string>, k: seq<nat>): (r: nat)
    ensures r <= |ws|
    ensures r < |ws| ==> Imprint(ws[r]) == k
    ensures forall j :: 0 <= j < r ==> Imprint(ws[j]) != k
  {
    if ws == [] then 0
    else if Imprint(ws[0]) == k then 0
    else
      var r := 1 + FirstWith(ws[1..], k);
      assert forall j :: 1 <= j < r ==> ws[j] == ws[1..][j - 1];
      r
  }

  lemma FirstWithExtend(init: seq<string>, w: string, k: seq<nat>)
    ensures FirstWith(init + [w], k) ==
              if FirstWith(init, k) < |init| then FirstWith(init, k)
              else if Imprint(w) == k then |init| else |init| + 1
  {
    var ws := init + [w];
    var f, r := FirstWith(init, k), FirstWith(ws, k);
    assert forall j :: 0 <= j < |init| ==> ws[j] == init[j];
    assert ws[|init|] == w;
    if f < |init| {
      assert Imprint(ws[f]) == k;
    }
  }

  /** The key word of an entry is the first word seen with its imprint. */
  lemma {:induction false} GroupsFirstSeen(ws: seq<string>)
    ensures forall k :: k in Groups(ws) ==>
              FirstWith(ws, k) < |ws| && ws[FirstWith(ws, k)] == Groups(ws)[k].first
    decreases |ws|
  {
    if ws != [] {
      var init, w := ws[..|ws| - 1], ws[|ws| - 1];
      assert ws == init + [w];
      var mp := Groups(init);
      GroupsFirstSeen(init);
      GroupsWordsFiled(init);
      AddEffect(mp, w);
      forall k | k in Groups(ws)
        ensures FirstWith(ws, k) < |ws| && ws[FirstWith(ws, k)] == Groups(ws)[k].first
      {
        FirstWithExtend(init, w, k);
        if k in mp {
          assert ws[FirstWith(init, k)] == init[FirstWith(init, k)];
        }
      }
    }
  }

  // ------------------------------------------------------------ the result

  /** The entries among `done` with at least two words, each under its key word. */
  ghost function Collect(mp: map<seq<nat>, Entry>, done: set<seq<nat>>): map<string, seq<string>>
    requires Valid(mp)
  {
    map k | k in done && k in mp && |mp[k].arr| >= 2 :: mp[k].first := mp[k].arr
  }

  ghost function Result(mp: map<seq<nat>, Entry>): map<string, seq<string>>
    requires Valid(mp)
  {
    Collect(mp, mp.Keys)
  }

  lemma CollectStep(mp: map<seq<nat>, Entry>, done: set<seq<nat>>, k: seq<nat>)
    requires Valid(mp) && k in mp && k !in done
    ensures |mp[k].arr| < 2 ==> Collect(mp, done + {k}) == Collect(mp, done)
    ensures |mp[k].arr| >= 2 ==>
              Collect(mp, done + {k}) == Collect(mp, done)[mp[k].first := mp[k].arr]
  {
    var before, after := Collect(mp, done), Collect(mp, done + {k});
    if |mp[k].arr| >= 2 {
      assert mp[k].first in after;
      forall key | key in after
        ensures key in before || key == mp[k].first
      {
      }
    }
  }

  /** The lowered input words, in input order. */
  function Lowered(ls: seq<string>): (ws: seq<string>)
    ensures |ws| == |ls|
    ensures forall i :: 0 <= i < |ls| ==> ws[i] == ToLower(ls[i])
  {
    seq(|ls|, i requires 0 <= i < |ls| => ToLower(ls[i]))
  }

  /** The groups `GetAnagrams` returns for the words `ls`. */
  ghost function Anagrams(ls: seq<string>): map<string, seq<string>>
  {
    GroupsValid(Lowered(ls));
    Result(Groups(Lowered(ls)))
  }

  lemma AnagramsUnfold(ls: seq<string>)
    ensures Valid(Groups(Lowered(ls))) && Anagrams(ls) == Result(Groups(Lowered(ls)))
  {
    GroupsValid(Lowered(ls));
  }

  /**
   * GetAnagrams: a first pass files every lowered word under its imprint, a
   * second pass keeps the entries with two words or more. A word whose
   * lowered form has a rune outside U+0430..U+0451 would crash the imprint,
   * so callers must not pass one.
   */
  method GetAnagrams(ls: seq<string>) returns (correctMp: map<string, seq<string>>)
    requires forall i :: 0 <= i < |ls| ==> ImprintableWord(ToLower(ls[i]))
    ensures correctMp == Anagrams(ls)
  {
    ghost var ws := Lowered(ls);
    var mp: map<seq<nat>, Entry> := map[];
    for i := 0 to |ls|
      invariant mp == Groups(ws[..i])
    {
      var str := ToLower(ls[i]);
      var imprint := GetImprint(str);
      GroupsStep(ws, i);
      if imprint !in mp {
        mp := mp[imprint := Entry(str, [str])];
        continue;
      }
      var entry := mp[imprint];
      var (idx, found) := BinarySearch(entry.arr, str);
      if found {
        continue;
      }
      mp := mp[imprint := entry.(arr := Insert(entry.arr, idx, str))];
    }
    assert ws[..|ls|] == ws;
    GroupsValid(ws);

    correctMp := map[];
    var rest := mp.Keys;
    while rest != {}
      invariant rest <= mp.Keys
      invariant correctMp == Collect(mp, mp.Keys - rest)
      decreases |rest|
    {
      var k :| k in rest;
      var v := mp[k];
      CollectStep(mp, mp.Keys - rest, k);
      assert mp.Keys - (rest - {k}) == (mp.Keys - rest) + {k};
      rest := rest - {k};
      if |v.arr| < 2 {
        continue;
      }
      correctMp := correctMp[v.first := v.arr];
    }
    assert mp.Keys - rest == mp.Keys;
  }

  // ------------------------------------------------- what the result says

  /** The entry behind one key of the result. */
  lemma EntryOf(mp: map<seq<nat>, Entry>, key: string) returns (k: seq<nat>)
    requires Valid(mp) && key in Result(mp)
    ensures k in mp && mp[k].first == key && |mp[k].arr| >= 2
    ensures Result(mp)[key] == mp[k].arr
  {
    k :| k in mp && |mp[k].arr| >= 2 && mp[k].first == key;
  }

  /** Every list has two words or more, is strictly ascending and holds its key. */
  lemma ResultLists(ls: seq<string>)
    ensures forall key :: key in Anagrams(ls) ==>
              |Anagrams(ls)[key]| >= 2 && Ascending(Anagrams(ls)[key]) && key in Anagrams(ls)[key]
  {
    var mp := Groups(Lowered(ls));
    AnagramsUnfold(ls);
    forall key | key in Result(mp)
      ensures |Result(mp)[key]| >= 2 && Ascending(Result(mp)[key]) && key in Result(mp)[key]
    {
      var k := EntryOf(mp, key);
    }
  }

  /** Every word returned, key or list member, is a lowered input word. */
  lemma ResultFromInput(ls: seq<string>)
    ensures forall key, y :: key in Anagrams(ls) && y in Anagrams(ls)[key] ==>
              y in Lowered(ls) && ToLower(y) == y
  {
    var ws := Lowered(ls);
    var mp := Groups(ws);
    AnagramsUnfold(ls);
    GroupsWordsSeen(ws);
    forall key, y | key in Result(mp) && y in Result(mp)[key]
      ensures y in ws && ToLower(y) == y
    {
      var k := EntryOf(mp, key);
      assert y in mp[k].arr;
      assert y in ws;
      var i :| 0 <= i < |ws| && ws[i] == y;
      ToLowerIdempotent(ls[i]);
    }
  }

  /** No word is in two lists. */
  lemma ResultDisjoint(ls: seq<string>)
    ensures forall a, b, y ::
              (a in Anagrams(ls) && b in Anagrams(ls) && y in Anagrams(ls)[a] && y in Anagrams(ls)[b])
              ==> a == b
  {
    var mp := Groups(Lowered(ls));
    AnagramsUnfold(ls);
    forall a, b, y | a in Result(mp) && b in Result(mp) && y in Result(mp)[a] && y in Result(mp)[b]
      ensures a == b
    {
      var ka := EntryOf(mp, a);
      var kb := EntryOf(mp, b);
      assert Imprint(y) == ka && Imprint(y) == kb;
    }
  }

  /** Some other input word, lowered, has the same imprint as `y`. */
  ghost predicate HasPartner(ws: seq<string>, y: string) {
    exists z :: z in ws && z != y && Imprint(z) == Imprint(y)
  }

  /** A lowered input word with a partner is in the list of its imprint's entry. */
  lemma PartnerReturned(ls: seq<string>, y: string)
    requires y in Lowered(ls) && HasPartner(Lowered(ls), y)
    ensures exists key :: key in Anagrams(ls) && y in Anagrams(ls)[key]
  {
    var ws := Lowered(ls);
    var mp := Groups(ws);
    AnagramsUnfold(ls);
    GroupsWordsFiled(ws);
    var k := Imprint(y);
    var arr := mp[k].arr;
    var z :| z in ws && z != y && Imprint(z) == k;
    var iy :| 0 <= iy < |arr| && arr[iy] == y;
    var iz :| 0 <= iz < |arr| && arr[iz] == z;
    assert |arr| >= 2;
    var first := mp[k].first;
    assert first in Result(mp);
    var kf := EntryOf(mp, first);
    assert kf == k;
  }

  /** A returned word has a distinct partner among the lowered input words. */
  lemma ReturnedHasPartner(ls: seq<string>, key: string, y: string)
    requires key in Anagrams(ls) && y in Anagrams(ls)[key]
    ensures HasPartner(Lowered(ls), y)
  {
    var ws := Lowered(ls);
    var mp := Groups(ws);
    AnagramsUnfold(ls);
    GroupsWordsSeen(ws);
    var k := EntryOf(mp, key);
    var arr := mp[k].arr;
    StrLessIrreflexive(arr[0]);
    var other := if arr[0] == y then arr[1] else arr[0];
    assert other in arr;
    assert other in ws && other != y && Imprint(other) == Imprint(y);
  }

  /**
   * A lowered input word is returned exactly when another distinct input word
   * shares its imprint: entries with a single distinct word are dropped.
   */
  lemma ResultComplete(ls: seq<string>, y: string)
    requires y in Lowered(ls)
    ensures (exists key :: key in Anagrams(ls) && y in Anagrams(ls)[key]) <==> HasPartner(Lowered(ls), y)
  {
    if HasPartner(Lowered(ls), y) {
      PartnerReturned(ls, y);
    }
    if exists key :: key in Anagrams(ls) && y in Anagrams(ls)[key] {
      var key :| key in Anagrams(ls) && y in Anagrams(ls)[key];
      ReturnedHasPartner(ls, key, y);
    }
  }

  /** A returned word sits in the list keyed by the first input word with its imprint. */
  lemma ResultKeyIsFirst(ls: seq<string>, key: string, y: string)
    requires key in Anagrams(ls) && y in Anagrams(ls)[key]
    ensures FirstWith(Lowered(ls), Imprint(y)) < |ls|
    ensures key == Lowered(ls)[FirstWith(Lowered(ls), Imprint(y))]
  {
    var ws := Lowered(ls);
    var mp := Groups(ws);
    AnagramsUnfold(ls);
    GroupsFirstSeen(ws);
    var k := EntryOf(mp, key);
    assert Imprint(y) == k;
  }
}
