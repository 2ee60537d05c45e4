/** Candidate edits, the conflict resolver of `_make_replacements` and the
    splicing of the kept edits into a file's text.

    `Render` is the reference meaning of a rewrite: every kept range of the
    original text is replaced by its alias and every character outside the
    kept ranges stays, in its original order. The lemmas show that the sort,
    the sweep and the descending splice produce exactly that text. */
module Edits {
  import opened Text

  /** A candidate replacement of `text[start..End())` by `alias`; `original` is
      the spelling expected there and `usr` the symbol it renames. */
  datatype Edit = Edit(start: nat, alias: string, original: string, usr: string)
  {
    /** The end of the range; the source stores `start + len(original)`. */
    function End(): nat { start + |original| }
  }

  // ------------------------------------------------------------ sorting

  type Key = (int, int)

  /** Lexicographic order on sort keys. */
  predicate KeyLe(a: Key, b: Key)
  {
    a.0 < b.0 || (a.0 == b.0 && a.1 <= b.1)
  }

  /** The key of the first sort: `(start, end)`. */
  function RangeKey(e: Edit): Key { (e.start, e.End()) }

  /** The key of the second sort, by start with `reverse=True`: Python keeps
      equal keys in their original order, which is an ascending stable sort on
      the negated start. */
  function DescendingStartKey(e: Edit): Key { var s: int := e.start; (-s, 0) }

  predicate SortedBy(s: seq<Edit>, key: Edit -> Key)
  {
    forall i, j :: 0 <= i < j < |s| ==> KeyLe(key(s[i]), key(s[j]))
  }

  /** The edits of `s` whose key is `k`, in their order in `s`. */
  function WithKey(s: seq<Edit>, key: Edit -> Key, k: Key): seq<Edit>
  {
    if s == [] then [] else (if key(s[0]) == k then [s[0]] else []) + WithKey(s[1..], key, k)
  }

  lemma {:induction false} WithKeyAppend(a: seq<Edit>, b: seq<Edit>, key: Edit -> Key, k: Key)
    ensures WithKey(a + b, key, k) == WithKey(a, key, k) + WithKey(b, key, k)
  {
    if a == [] {
      assert a + b == b;
    } else {
      assert (a + b)[1..] == a[1..] + b;
      WithKeyAppend(a[1..], b, key, k);
    }
  }

  /** Inserts `x` before the first element whose key is not below its own. */
  function Insert(x: Edit, s: seq<Edit>, key: Edit -> Key): (r: seq<Edit>)
    ensures multiset(r) == multiset(s) + multiset{x}
    ensures |r| == |s| + 1
  {
    if s == [] || KeyLe(key(x), key(s[0])) then [x] + s
    else
      assert s == [s[0]] + s[1..];
      [s[0]] + Insert(x, s[1..], key)
  }

  lemma {:induction false} InsertKeepsSorted(x: Edit, s: seq<Edit>, key: Edit -> Key)
    requires SortedBy(s, key)
    ensures SortedBy(Insert(x, s, key), key)
  {
    if s != [] && !KeyLe(key(x), key(s[0])) {
      var rest := Insert(x, s[1..], key);
      InsertKeepsSorted(x, s[1..], key);
      forall j | 0 <= j < |rest| ensures KeyLe(key(s[0]), key(rest[j])) {
        assert rest[j] in multiset(rest);
        if rest[j] != x {
          assert rest[j] in s[1..];
        }
      }
    }
  }

  /** `x` goes before every element with its own key, so per key the order
      is that of `[x] + s`. */
  lemma {:induction false} InsertIsStable(x: Edit, s: seq<Edit>, key: Edit -> Key, k: Key)
    ensures WithKey(Insert(x, s, key), key, k) == WithKey([x] + s, key, k)
  {
    if s != [] && !KeyLe(key(x), key(s[0])) {
      var rest := Insert(x, s[1..], key);
      assert s == [s[0]] + s[1..];
      assert key(s[0]) != key(x);
      InsertIsStable(x, s[1..], key, k);
      WithKeyAppend([s[0]], rest, key, k);
      WithKeyAppend([x], s[1..], key, k);
      WithKeyAppend([s[0]], s[1..], key, k);
      WithKeyAppend([x], s, key, k);
    }
  }

  /** Python's `list.sort(key=...)`: ascending, a permutation of the input,
      and stable — edits with equal keys keep their relative order. */
  function StableSort(s: seq<Edit>, key: Edit -> Key): (r: seq<Edit>)
    ensures SortedBy(r, key)
    ensures multiset(r) == multiset(s)
    ensures |r| == |s|
    ensures forall k :: WithKey(r, key, k) == WithKey(s, key, k)
  {
    if s == [] then []
    else
      var rest := StableSort(s[1..], key);
      var r := Insert(s[0], rest, key);
      assert s == [s[0]] + s[1..];
      InsertKeepsSorted(s[0], rest, key);
      assert forall k :: WithKey(r, key, k) == WithKey(s, key, k) by {
        forall k ensures WithKey(r, key, k) == WithKey(s, key, k) {
          InsertIsStable(s[0], rest, key, k);
          WithKeyAppend([s[0]], rest, key, k);
          WithKeyAppend([s[0]], s[1..], key, k);
        }
      }
      r
  }

  // ------------------------------------------------------------ the sweep

  /** `a` is `b` with some elements left out. */
  ghost predicate Subsequence(a: seq<Edit>, b: seq<Edit>)
    decreases |b|
  {
    a == [] || (b != [] && ((a[0] == b[0] && Subsequence(a[1..], b[1..])) || Subsequence(a, b[1..])))
  }

  lemma {:induction false} SubsequenceMembers(a: seq<Edit>, b: seq<Edit>)
    requires Subsequence(a, b)
    ensures forall x :: x in a ==> x in b
    decreases |b|
  {
    if a != [] {
      if a[0] == b[0] && Subsequence(a[1..], b[1..]) {
        SubsequenceMembers(a[1..], b[1..]);
        assert a == [a[0]] + a[1..];
      } else {
        SubsequenceMembers(a, b[1..]);
      }
    }
  }

  /** Every start lies at or after the previous end: no two edits overlap,
      while edits that merely touch are allowed. */
  predicate NonOverlapping(r: seq<Edit>)
  {
    forall i, j :: 0 <= i < j < |r| ==> r[i].End() <= r[j].start
  }

  /** The greedy sweep: keep an edit when it starts at or after `lastEnd`,
      the end of the last kept edit, and skip it otherwise. */
  function Sweep(s: seq<Edit>, lastEnd: int): (r: seq<Edit>)
    ensures forall i :: 0 <= i < |r| ==> lastEnd <= r[i].start
    ensures NonOverlapping(r)
    ensures Subsequence(r, s)
    ensures s != [] && lastEnd <= s[0].start ==> r != [] && r[0] == s[0]
  {
    if s == [] then []
    else if s[0].start < lastEnd then Sweep(s[1..], lastEnd)
    else
      var rest := Sweep(s[1..], s[0].End());
      var r := [s[0]] + rest;
      assert r[1..] == rest;
      r
  }

  /** One step of the sweep over `s` from index `i`, with `kept` the edits
      kept so far: `s[i]` is kept exactly when it starts at or after
      `lastEnd`, and then the bound moves to its end. */
  lemma SweepAdvance(kept: seq<Edit>, s: seq<Edit>, i: nat, lastEnd: int)
    requires i < |s|
    ensures kept + Sweep(s[i..], lastEnd) ==
            if s[i].start >= lastEnd then (kept + [s[i]]) + Sweep(s[i + 1..], s[i].End())
            else kept + Sweep(s[i + 1..], lastEnd)
  {
    assert s[i..][1..] == s[i + 1..];
    if s[i].start >= lastEnd {
      AppendAssoc(kept, [s[i]], Sweep(s[i + 1..], s[i].End()));
    }
  }

  /** Once every edit has been looked at, the kept edits are the sweep. */
  lemma SweepFinished(kept: seq<Edit>, s: seq<Edit>, lastEnd: int)
    ensures kept + Sweep(s[|s|..], lastEnd) == kept
  {
    assert s[|s|..] == [];
    assert kept + [] == kept;
  }

  /** The edits `_make_replacements` keeps, in ascending order. */
  function Kept(edits: seq<Edit>): seq<Edit>
  {
    Sweep(StableSort(edits, RangeKey), -1)
  }

  /** The loop of `_make_replacements` over the edits sorted by
      `(start, end)`: an edit starting before the end of the last kept one is
      skipped. */
  method RemoveOverlaps(sorted: seq<Edit>) returns (unique: seq<Edit>)
    ensures unique == Sweep(sorted, -1)
  {
    unique := [];
    var lastEnd: int := -1;
    var i := 0;
    while i < |sorted|
      invariant 0 <= i <= |sorted|
      invariant unique + Sweep(sorted[i..], lastEnd) == Sweep(sorted, -1)
    {
      var r := sorted[i];
      SweepAdvance(unique, sorted, i, lastEnd);
      if r.start >= lastEnd {
        unique := unique + [r];
        lastEnd := r.End();
      }
      i := i + 1;
    }
    SweepFinished(unique, sorted, lastEnd);
  }

  /** The kept edits in the order they are spliced: by start, descending. */
  function Resolve(edits: seq<Edit>): seq<Edit>
  {
    StableSort(Kept(edits), DescendingStartKey)
  }

  /** The kept edits are a subsequence of the candidates sorted by
      `(start, end)`, pairwise non-overlapping, drawn from the candidates, and
      the leftmost sorted candidate is always among them. */
  lemma KeptIsNonOverlappingSubsequence(edits: seq<Edit>)
    ensures Subsequence(Kept(edits), StableSort(edits, RangeKey))
    ensures NonOverlapping(Kept(edits))
    ensures forall e :: e in Kept(edits) ==> e in edits
    ensures edits != [] ==> Kept(edits) != [] && Kept(edits)[0] == StableSort(edits, RangeKey)[0]
  {
    var sorted := StableSort(edits, RangeKey);
    SubsequenceMembers(Kept(edits), sorted);
    forall e | e in Kept(edits) ensures e in edits {
      assert e in multiset(sorted);
    }
    if edits != [] {
      assert |sorted| > 0;
    }
  }

  /** With `s` sorted and every start at or after `prevStart`, each candidate
      is kept, or starts inside a kept edit, or starts before `lastEnd`. */
  lemma {:induction false} SweepCoversFrom(s: seq<Edit>, lastEnd: int, prevStart: int)
    requires SortedBy(s, RangeKey)
    requires forall i :: 0 <= i < |s| ==> prevStart <= s[i].start
    ensures forall e :: e in s ==>
              e in Sweep(s, lastEnd) || prevStart <= e.start < lastEnd
              || exists k :: k in Sweep(s, lastEnd) && k.start <= e.start < k.End()
  {
    if s != [] {
      var e0 := s[0];
      assert s == [e0] + s[1..];
      if e0.start < lastEnd {
        SweepCoversFrom(s[1..], lastEnd, prevStart);
      } else {
        SweepCoversFrom(s[1..], e0.End(), e0.start);
        var r := Sweep(s, lastEnd);
        assert r == [e0] + Sweep(s[1..], e0.End());
        forall e | e in s
          ensures e in r || prevStart <= e.start < lastEnd
                  || exists k :: k in r && k.start <= e.start < k.End()
        {
          if e != e0 {
            assert e in s[1..];
            if e0.start <= e.start < e0.End() {
              assert e0 in r;
            }
          }
        }
      }
    }
  }

  /** Greedy maximality: every candidate that is not kept starts inside the
      range of a kept edit, which is why it was skipped. */
  lemma DroppedEditsOverlapKept(edits: seq<Edit>)
    ensures forall e :: e in edits ==>
              e in Kept(edits) || exists k :: k in Kept(edits) && k.start <= e.start < k.End()
  {
    var sorted := StableSort(edits, RangeKey);
    SweepCoversFrom(sorted, -1, 0);
    forall e | e in edits ensures e in sorted {
      assert e in multiset(edits);
    }
  }

  /** Once the cursor has passed `k.0`, no edit with key `k` is kept. */
  lemma {:induction false} SweepSkipsPassedKey(s: seq<Edit>, lastEnd: int, k: Key)
    requires k.0 < lastEnd
    ensures WithKey(Sweep(s, lastEnd), RangeKey, k) == []
  {
    if s != [] {
      if s[0].start < lastEnd {
        SweepSkipsPassedKey(s[1..], lastEnd, k);
      } else {
        var rest := Sweep(s[1..], s[0].End());
        SweepSkipsPassedKey(s[1..], s[0].End(), k);
        WithKeyAppend([s[0]], rest, RangeKey, k);
      }
    }
  }

  /** Of several candidates with the same non-empty range, at most the first
      one survives the sweep. */
  lemma {:induction false} SweepKeepsFirstOfKey(s: seq<Edit>, lastEnd: int, k: Key)
    requires k.0 < k.1
    ensures var w := WithKey(Sweep(s, lastEnd), RangeKey, k);
            w == [] || (WithKey(s, RangeKey, k) != [] && w == [WithKey(s, RangeKey, k)[0]])
  {
    if s != [] {
      var e0 := s[0];
      if e0.start < lastEnd {
        if RangeKey(e0) == k {
          SweepSkipsPassedKey(s[1..], lastEnd, k);
        } else {
          SweepKeepsFirstOfKey(s[1..], lastEnd, k);
        }
      } else {
        var rest := Sweep(s[1..], e0.End());
        WithKeyAppend([e0], rest, RangeKey, k);
        if RangeKey(e0) == k {
          SweepSkipsPassedKey(s[1..], e0.End(), k);
        } else {
          SweepKeepsFirstOfKey(s[1..], e0.End(), k);
        }
      }
    }
  }

  /** Duplicate candidates: when an edit for a non-empty range `k` is kept, it
      is the candidate for `k` that was appended first (the sort is stable). */
  lemma FirstAppendedDuplicateWins(edits: seq<Edit>, k: Key)
    requires k.0 < k.1
    ensures var w := WithKey(Kept(edits), RangeKey, k);
            w == [] || (WithKey(edits, RangeKey, k) != [] && w == [WithKey(edits, RangeKey, k)[0]])
  {
    SweepKeepsFirstOfKey(StableSort(edits, RangeKey), -1, k);
  }

  // ------------------------------------------------------------ splicing

  /** `text[:start] + alias + text[end:]`, with Python's clamped slicing. */
  function Splice(text: string, e: Edit): string
  {
    text[..Min(e.start, |text|)] + e.alias + text[Min(e.End(), |text|)..]
  }

  /** Splicing a list of edits one after the other, in list order. */
  function SpliceAll(text: string, edits: seq<Edit>): string
    decreases |edits|
  {
    if edits == [] then text else SpliceAll(Splice(text, edits[0]), edits[1..])
  }

  lemma {:induction false} SpliceAllSnoc(text: string, edits: seq<Edit>, e: Edit)
    ensures SpliceAll(text, edits + [e]) == Splice(SpliceAll(text, edits), e)
    decreases |edits|
  {
    if edits != [] {
      assert (edits + [e])[1..] == edits[1..] + [e];
      SpliceAllSnoc(Splice(text, edits[0]), edits[1..], e);
    }
  }

  /** One step of splicing the edits of `edits` in list order. */
  lemma SpliceAllAdvance(source: string, edits: seq<Edit>, j: nat)
    requires j < |edits|
    ensures SpliceAll(source, edits[..j + 1]) == Splice(SpliceAll(source, edits[..j]), edits[j])
  {
    assert edits[..j + 1] == edits[..j] + [edits[j]];
    SpliceAllSnoc(source, edits[..j], edits[j]);
  }

  lemma SpliceAllFinished(source: string, edits: seq<Edit>)
    ensures SpliceAll(source, edits[..|edits|]) == SpliceAll(source, edits)
  {
    assert edits[..|edits|] == edits;
  }

  /** The splicing loop of `_make_replacements`, in list order. */
  method SpliceInOrder(source: string, edits: seq<Edit>) returns (text: string)
    ensures text == SpliceAll(source, edits)
  {
    text := source;
    var j := 0;
    while j < |edits|
      invariant 0 <= j <= |edits|
      invariant text == SpliceAll(source, edits[..j])
    {
      var r := edits[j];
      text := text[..Min(r.start, |text|)] + r.alias + text[Min(r.End(), |text|)..];
      SpliceAllAdvance(source, edits, j);
      j := j + 1;
    }
    SpliceAllFinished(source, edits);
  }

  function Reversed(s: seq<Edit>): (r: seq<Edit>)
    ensures |r| == |s|
    ensures forall i :: 0 <= i < |s| ==> r[i] == s[|s| - 1 - i]
  {
    if s == [] then [] else Reversed(s[1..]) + [s[0]]
  }

  /** The edits lie in `[from, n)` in ascending order without overlapping. */
  predicate Chain(kept: seq<Edit>, from: nat, n: nat)
    decreases |kept|
  {
    kept == [] || (from <= kept[0].start <= kept[0].End() <= n && Chain(kept[1..], kept[0].End(), n))
  }

  /** The reference rewrite of `text[from..]`: each kept range replaced by its
      alias, the text between kept ranges copied unchanged and in order. */
  function Render(text: string, kept: seq<Edit>, from: nat): string
    requires from <= |text| && Chain(kept, from, |text|)
    decreases |kept|
  {
    if kept == [] then text[from..]
    else text[from..kept[0].start] + kept[0].alias + Render(text, kept[1..], kept[0].End())
  }

  /** Splicing `e` into a text that agrees with `text` up to `e`'s end. */
  lemma SpliceOnPrefix(text: string, e: Edit, tail: string)
    requires e.End() <= |text|
    ensures Splice(text[..e.End()] + tail, e) == text[..e.start] + e.alias + tail
  {
    var cur := text[..e.End()] + tail;
    assert cur[..e.start] == text[..e.start];
    assert cur[e.End()..] == tail;
  }

  /** Splicing ascending, non-overlapping edits last-first yields the
      reference rewrite: no splice disturbs the offsets of those still
      pending. */
  lemma {:induction false} SpliceReversedRenders(text: string, kept: seq<Edit>, from: nat)
    requires from <= |text| && Chain(kept, from, |text|)
    ensures SpliceAll(text, Reversed(kept)) == text[..from] + Render(text, kept, from)
    decreases |kept|
  {
    if kept == [] {
      assert text == text[..from] + text[from..];
    } else {
      var e := kept[0];
      var rest := Reversed(kept[1..]);
      assert Reversed(kept) == rest + [e];
      SpliceAllSnoc(text, rest, e);
      SpliceReversedRenders(text, kept[1..], e.End());
      var tail := Render(text, kept[1..], e.End());
      SpliceOnPrefix(text, e, tail);
      assert text[..e.start] == text[..from] + text[from..e.start];
      AppendAssoc(text[..from], text[from..e.start], e.alias);
      AppendAssoc(text[..from], text[from..e.start] + e.alias, tail);
    }
  }

  lemma {:induction false} NonOverlappingChain(kept: seq<Edit>, from: nat, n: nat)
    requires NonOverlapping(kept)
    requires forall i :: 0 <= i < |kept| ==> from <= kept[i].start <= kept[i].End() <= n
    ensures Chain(kept, from, n)
    decreases |kept|
  {
    if kept != [] {
      NonOverlappingChain(kept[1..], kept[0].End(), n);
    }
  }

  predicate StrictlyAscendingStarts(s: seq<Edit>)
  {
    forall i, j :: 0 <= i < j < |s| ==> s[i].start < s[j].start
  }

  lemma {:induction false} InsertAtEnd(x: Edit, s: seq<Edit>, key: Edit -> Key)
    requires forall i :: 0 <= i < |s| ==> !KeyLe(key(x), key(s[i]))
    ensures Insert(x, s, key) == s + [x]
  {
    if s != [] {
      InsertAtEnd(x, s[1..], key);
      assert s == [s[0]] + s[1..];
    }
  }

  /** With strictly ascending starts, the descending stable sort is plain
      reversal. */
  lemma {:induction false} DescendingSortReverses(s: seq<Edit>)
    requires StrictlyAscendingStarts(s)
    ensures StableSort(s, DescendingStartKey) == Reversed(s)
  {
    if s != [] {
      DescendingSortReverses(s[1..]);
      var rev := Reversed(s[1..]);
      InsertAtEnd(s[0], rev, DescendingStartKey);
    }
  }

  /** Non-overlapping edits that each cover at least one character have
      strictly ascending starts and lie inside any bound they all respect. */
  lemma NonEmptyNonOverlapping(kept: seq<Edit>, n: nat)
    requires NonOverlapping(kept)
    requires forall e :: e in kept ==> e.start < e.End() <= n
    ensures StrictlyAscendingStarts(kept)
    ensures forall i :: 0 <= i < |kept| ==> 0 <= kept[i].start <= kept[i].End() <= n
  {
    forall i, j | 0 <= i < j < |kept| ensures kept[i].start < kept[j].start {
      assert kept[i] in kept;
    }
    forall i | 0 <= i < |kept| ensures kept[i].End() <= n {
      assert kept[i] in kept;
    }
  }

  /** `_make_replacements`' text result when every candidate is non-empty and
      inside the text: the output is the reference rewrite of the kept edits,
      which lie in ascending, non-overlapping order inside the text. */
  lemma RewriteRendersKept(text: string, edits: seq<Edit>)
    requires forall e :: e in edits ==> e.start < e.End() <= |text|
    ensures Chain(Kept(edits), 0, |text|)
    ensures SpliceAll(text, Resolve(edits)) == Render(text, Kept(edits), 0)
  {
    var kept := Kept(edits);
    KeptIsNonOverlappingSubsequence(edits);
    NonEmptyNonOverlapping(kept, |text|);
    NonOverlappingChain(kept, 0, |text|);
    DescendingSortReverses(kept);
    SpliceReversedRenders(text, kept, 0);
  }

  /** Splicing the kept edits last-first, in reverse of their `(start, end)`
      order instead of by start alone, gives the reference rewrite for every
      list of in-bounds candidates, empty ones included. */
  lemma ReversedKeptRenders(text: string, edits: seq<Edit>)
    requires forall e :: e in edits ==> e.End() <= |text|
    ensures Chain(Kept(edits), 0, |text|)
    ensures SpliceAll(text, Reversed(Kept(edits))) == Render(text, Kept(edits), 0)
  {
    var kept := Kept(edits);
    KeptIsNonOverlappingSubsequence(edits);
    NonOverlappingChain(kept, 0, |text|);
    SpliceReversedRenders(text, kept, 0);
  }

  /** An empty edit and a one-character edit at the same start are both kept
      (the empty one ends where the other starts) and tie under the
      descending sort, so the empty one is spliced first. The later splice
      then overwrites the start of the empty edit's alias and leaves its own
      original spelling in place: `abcd` becomes `aEZbcd`, which keeps `b`
      and cuts `ZZ` to `Z`, where the reference rewrite is `aZZEcd`. */
  lemma EmptyEditTieSplicesOutOfOrder()
    ensures var e := Edit(1, "E", "b", "e");
            var z := Edit(1, "ZZ", "", "z");
            Kept([e, z]) == [z, e]
            && Chain([z, e], 0, 4)
            && SpliceAll("abcd", Resolve([e, z])) == "aEZbcd"
            && Render("abcd", [z, e], 0) == "aZZEcd"
            && "aEZbcd" != "aZZEcd"
  {
    var e := Edit(1, "E", "b", "e");
    var z := Edit(1, "ZZ", "", "z");
    TieSortedByRange(e, z);
    TieSweptBoth(e, z);
    TieKeptInDescendingSort(e, z);
    TieSplicedOutOfOrder(e, z);
    assert "aEZbcd"[1] != "aZZEcd"[1];
  }

  lemma TieSortedByRange(e: Edit, z: Edit)
    requires e == Edit(1, "E", "b", "e") && z == Edit(1, "ZZ", "", "z")
    ensures StableSort([e, z], RangeKey) == [z, e]
  {
    assert [e, z][1..] == [z];
    assert [z][1..] == [];
    assert StableSort([z], RangeKey) == [z];
    assert Insert(e, [z], RangeKey) == [z] + Insert(e, [], RangeKey);
  }

  lemma TieSweptBoth(e: Edit, z: Edit)
    requires e == Edit(1, "E", "b", "e") && z == Edit(1, "ZZ", "", "z")
    ensures Sweep([z, e], -1) == [z, e]
  {
    assert [z, e][1..] == [e];
    assert [e][1..] == [];
  }

  lemma TieKeptInDescendingSort(e: Edit, z: Edit)
    requires e == Edit(1, "E", "b", "e") && z == Edit(1, "ZZ", "", "z")
    ensures StableSort([z, e], DescendingStartKey) == [z, e]
  {
    assert [z, e][1..] == [e];
    assert [e][1..] == [];
    assert StableSort([e], DescendingStartKey) == [e];
  }

  lemma TieSplicedOutOfOrder(e: Edit, z: Edit)
    requires e == Edit(1, "E", "b", "e") && z == Edit(1, "ZZ", "", "z")
    ensures SpliceAll("abcd", [z, e]) == "aEZbcd"
    ensures Chain([z, e], 0, 4) && Render("abcd", [z, e], 0) == "aZZEcd"
  {
    assert [z, e][1..] == [e];
    assert [e][1..] == [];
    assert "abcd"[..1] == "abcd"[0..1] == "a" && "abcd"[1..] == "bcd" && "abcd"[1..1] == "";
    assert "abcd"[2..] == "cd";
    assert "aZZbcd"[..1] == "a" && "aZZbcd"[2..] == "Zbcd";
    assert Splice("abcd", z) == "aZZbcd";
    assert Splice("aZZbcd", e) == "aEZbcd";
    assert Render("abcd", [e], 1) == "E" + "cd";
    assert SpliceAll("aZZbcd", [e]) == SpliceAll("aEZbcd", []);
    assert SpliceAll("abcd", [z, e]) == SpliceAll("aZZbcd", [e]);
  }
}
