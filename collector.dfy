/** The rename-event collector `_build_replacements` as a function of the
    alias map, the alias counter and the edit list, together with what it
    guarantees: aliases once given are kept (constructors and destructors
    excepted), fresh aliases are never shared, recorded edits match the text,
    and a second walk over a tree never needs a new alias. */
module Collector {
  import opened Text
  import opened Cursors
  import opened Edits

  /** `"goober_" + str(n)`. */
  function Alias(n: nat): string { "goober_" + NatToString(n) }

  /** Different counter values give different aliases. */
  lemma AliasInjective(a: nat, b: nat)
    requires Alias(a) == Alias(b)
    ensures a == b
  {
    assert NatToString(a) == Alias(a)[7..];
    assert NatToString(b) == Alias(b)[7..];
    NatToStringInjective(a, b);
  }

  /** What a walk reads and never changes: the input file set, the file being
      processed and its text. */
  datatype Context = Context(files: seq<string>, file: string, source: string)

  /** What a walk changes: `goober_map`, `goober_n` and `current_replacements`. */
  datatype State = State(aliases: map<string, string>, next: nat, edits: seq<Edit>)

  /** The recorded text at the edit's range is its original spelling. */
  predicate Matches(e: Edit, source: string)
  {
    PySlice(source, e.start, e.End()) == e.original
  }

  /** `_add_replacement`: locate the spelling, and record an edit to the alias
      of `usr` only when the text found there is that spelling. */
  function AddEdit(st: State, ctx: Context, c: Cursor, name: string, usr: string): (r: State)
    requires usr in st.aliases
    ensures r.aliases == st.aliases && r.next == st.next
    ensures var e := Edit(AccurateOffset(c, name), st.aliases[usr], name, usr);
            (Matches(e, ctx.source) ==> r.edits == st.edits + [e])
            && (!Matches(e, ctx.source) ==> r.edits == st.edits)
  {
    var start := AccurateOffset(c, name);
    var stop := start + |name|;
    if PySlice(ctx.source, start, stop) != name then st
    else st.(edits := st.edits + [Edit(start, st.aliases[usr], name, usr)])
  }

  /** A recorded edit starts at the first token spelled like the name (or the
      cursor's own offset), and, for a non-empty name, the original text at
      its range is exactly the name; a located range that runs past the end of
      the text is never recorded. */
  lemma AddEditGuard(st: State, ctx: Context, c: Cursor, name: string, usr: string)
    requires usr in st.aliases
    requires name != ""
    ensures var r := AddEdit(st, ctx, c, name, usr);
            var start := AccurateOffset(c, name);
            (|r.edits| == |st.edits| + 1 <==>
               start + |name| <= |ctx.source| && ctx.source[start..start + |name|] == name)
            && (|r.edits| == |st.edits| ==> r == st)
  {
    var start := AccurateOffset(c, name);
    if PySlice(ctx.source, start, start + |name|) == name {
      SliceMatchIsInBounds(ctx.source, start, name);
    }
  }

  /** Binds `usr` to the next alias and advances the counter. */
  function Bind(st: State, usr: string): State
  {
    st.(aliases := st.aliases[usr := Alias(st.next)], next := st.next + 1)
  }

  /** What `_build_replacements` does at one node before walking its children. */
  function Visit(st: State, ctx: Context, n: Node): State
  {
    var c := n.cursor;
    if !CanBeRenamed(Some(c), ctx.files) then st
    else if IsDeclaration(c.kind) then
      var st1 := if c.usr in st.aliases then st else Bind(st, c.usr);
      AddEdit(st1, ctx, c, c.spelling, c.usr)
    else if IsReference(c.kind) then
      if !CanBeRenamed(n.referenced, ctx.files) then st
      else
        var target := n.referenced.value;
        if target.usr in st.aliases then AddEdit(st, ctx, c, target.spelling, target.usr)
        else if CheckUserCode(target, ctx.files) then
          AddEdit(Bind(st, target.usr), ctx, c, target.spelling, target.usr)
        else st
    else if c.kind == Constructor || c.kind == Destructor then
      if c.parent.usr in st.aliases then
        var st1 := st.(aliases := st.aliases[c.usr := st.aliases[c.parent.usr]]);
        AddEdit(st1, ctx, c, c.parent.spelling, c.usr)
      else st
    else st
  }

  /** The node lies in a file other than the one being processed. */
  predicate Foreign(n: Node, ctx: Context)
  {
    n.cursor.file.Some? && n.cursor.file.value != ctx.file
  }

  /** The pre-order walk: a foreign subtree is skipped whole; otherwise the
      node is visited and its children walked in order. */
  function Walk(st: State, ctx: Context, n: Node): State
    decreases n, |n.children| + 1
  {
    if Foreign(n, ctx) then st else WalkFrom(Visit(st, ctx, n), ctx, n, 0)
  }

  /** Walks the children of `n` from the `i`-th on. */
  function WalkFrom(st: State, ctx: Context, n: Node, i: nat): State
    requires i <= |n.children|
    decreases n, |n.children| - i
  {
    if i == |n.children| then st else WalkFrom(Walk(st, ctx, n.children[i]), ctx, n, i + 1)
  }

  // ------------------------------------------------------------ traversal rules

  /** A subtree from another file contributes nothing, and a node that cannot
      be renamed emits nothing but still has its children walked. */
  lemma TraversalRules(st: State, ctx: Context, n: Node)
    ensures Foreign(n, ctx) ==> Walk(st, ctx, n) == st
    ensures !Foreign(n, ctx) && !CanBeRenamed(Some(n.cursor), ctx.files) ==>
              Walk(st, ctx, n) == WalkFrom(st, ctx, n, 0)
    ensures !Foreign(n, ctx) && IsReference(n.cursor.kind) && !CanBeRenamed(n.referenced, ctx.files) ==>
              Walk(st, ctx, n) == WalkFrom(st, ctx, n, 0)
  {
  }

  // ------------------------------------------------------------ per-node rules

  ghost predicate IsAliasBelow(a: string, n: nat)
  {
    exists k :: 0 <= k < n && a == Alias(k)
  }

  /** Every alias on file, and every alias an edit carries, was handed out by
      the counter before its current value. */
  ghost predicate Consistent(st: State)
  {
    (forall u :: u in st.aliases ==> IsAliasBelow(st.aliases[u], st.next))
    && (forall e :: e in st.edits ==> IsAliasBelow(e.alias, st.next))
  }

  lemma AliasBelowMonotone(a: string, n: nat, m: nat)
    requires IsAliasBelow(a, n) && n <= m
    ensures IsAliasBelow(a, m)
  {
    var k :| 0 <= k < n && a == Alias(k);
    assert 0 <= k < m && a == Alias(k);
  }

  /** The next alias is not yet in use. */
  lemma NextAliasIsFresh(st: State)
    requires Consistent(st)
    ensures forall u :: u in st.aliases ==> st.aliases[u] != Alias(st.next)
  {
    forall u | u in st.aliases ensures st.aliases[u] != Alias(st.next) {
      if st.aliases[u] == Alias(st.next) {
        var k :| 0 <= k < st.next && st.aliases[u] == Alias(k);
        AliasInjective(k, st.next);
      }
    }
  }

  lemma BindKeepsConsistent(st: State, usr: string)
    requires Consistent(st)
    ensures Consistent(Bind(st, usr))
  {
    var r := Bind(st, usr);
    forall u | u in r.aliases ensures IsAliasBelow(r.aliases[u], r.next) {
      if u == usr {
        assert r.aliases[u] == Alias(st.next);
      } else {
        AliasBelowMonotone(st.aliases[u], st.next, r.next);
      }
    }
    forall e | e in r.edits ensures IsAliasBelow(e.alias, r.next) {
      AliasBelowMonotone(e.alias, st.next, r.next);
    }
  }

  /** A declaration: a USR already on file keeps its alias and the counter
      stays; a new USR gets `goober_<counter>`, which no other USR has, and the
      counter rises by one. Either way the only edit that may be added carries
      the declaration's alias. */
  lemma VisitDeclaration(st: State, ctx: Context, n: Node)
    requires Consistent(st)
    requires CanBeRenamed(Some(n.cursor), ctx.files) && IsDeclaration(n.cursor.kind)
    ensures var r := Visit(st, ctx, n);
            var u := n.cursor.usr;
            u in r.aliases
            && (u in st.aliases ==> r.aliases == st.aliases && r.next == st.next)
            && (u !in st.aliases ==>
                  r.aliases == st.aliases[u := Alias(st.next)] && r.next == st.next + 1
                  && forall v :: v in r.aliases && v != u ==> r.aliases[v] != r.aliases[u])
            && (r.edits == st.edits || r.edits == st.edits + [Edit(AccurateOffset(n.cursor, n.cursor.spelling), r.aliases[u], n.cursor.spelling, u)])
  {
    NextAliasIsFresh(st);
  }

  /** A reference to a renamable target: the target's alias is reused when it
      has one; otherwise the target gets the next alias, shared with no other
      USR. A reference to a non-renamable target changes nothing. */
  lemma VisitReference(st: State, ctx: Context, n: Node)
    requires Consistent(st)
    requires CanBeRenamed(Some(n.cursor), ctx.files) && IsReference(n.cursor.kind)
    ensures !CanBeRenamed(n.referenced, ctx.files) ==> Visit(st, ctx, n) == st
    ensures CanBeRenamed(n.referenced, ctx.files) ==>
              var r := Visit(st, ctx, n);
              var t := n.referenced.value;
              t.usr in r.aliases
              && (t.usr in st.aliases ==> r.aliases == st.aliases && r.next == st.next)
              && (t.usr !in st.aliases ==>
                    r.aliases == st.aliases[t.usr := Alias(st.next)] && r.next == st.next + 1
                    && forall v :: v in r.aliases && v != t.usr ==> r.aliases[v] != r.aliases[t.usr])
              && (r.edits == st.edits || r.edits == st.edits + [Edit(AccurateOffset(n.cursor, t.spelling), r.aliases[t.usr], t.spelling, t.usr)])
  {
    if CanBeRenamed(n.referenced, ctx.files) {
      RenamableIsUserCode(n.referenced, ctx.files);
      NextAliasIsFresh(st);
    }
  }

  /** A constructor or destructor whose class has an alias is bound to exactly
      that alias, and its edit (if the text matches) replaces the class name;
      when the class has none, nothing changes. The counter never moves. */
  lemma VisitConstructor(st: State, ctx: Context, n: Node)
    requires CanBeRenamed(Some(n.cursor), ctx.files)
    requires n.cursor.kind == Constructor || n.cursor.kind == Destructor
    ensures var r := Visit(st, ctx, n);
            var c := n.cursor;
            (c.parent.usr in st.aliases ==>
               r.aliases == st.aliases[c.usr := st.aliases[c.parent.usr]] && r.next == st.next
               && (r.edits == st.edits
                   || r.edits == st.edits + [Edit(AccurateOffset(c, c.parent.spelling), st.aliases[c.parent.usr], c.parent.spelling, c.usr)]))
            && (c.parent.usr !in st.aliases ==> r == st)
  {
  }

  lemma VisitKeepsConsistent(st: State, ctx: Context, n: Node)
    requires Consistent(st)
    ensures Consistent(Visit(st, ctx, n))
  {
    var c := n.cursor;
    if CanBeRenamed(Some(c), ctx.files) {
      if IsDeclaration(c.kind) {
        if c.usr !in st.aliases { BindKeepsConsistent(st, c.usr); }
      } else if IsReference(c.kind) {
        if CanBeRenamed(n.referenced, ctx.files) && n.referenced.value.usr !in st.aliases {
          BindKeepsConsistent(st, n.referenced.value.usr);
        }
      } else if (c.kind == Constructor || c.kind == Destructor) && c.parent.usr in st.aliases {
        var st1 := st.(aliases := st.aliases[c.usr := st.aliases[c.parent.usr]]);
        assert Consistent(st1);
      }
    }
  }

  /** Outside constructors and destructors, a USR already on file keeps its
      alias; keys are never removed and the counter never goes down. */
  lemma VisitKeepsAliases(st: State, ctx: Context, n: Node)
    ensures var r := Visit(st, ctx, n);
            st.aliases.Keys <= r.aliases.Keys && st.next <= r.next && st.edits <= r.edits
            && forall u :: u in st.aliases && u !in Rebound(n) ==> r.aliases[u] == st.aliases[u]
  {
  }

  /** The USR node `n` rebinds: its own, when it is a constructor or destructor. */
  function Rebound(n: Node): set<string>
  {
    if n.cursor.kind == Constructor || n.cursor.kind == Destructor then {n.cursor.usr} else {}
  }

  // ------------------------------------------------------------ whole walks

  /** The USRs of the constructors and destructors in the tree below `n`. */
  function RebindUsrs(n: Node): set<string>
    decreases n, |n.children| + 1
  {
    Rebound(n) + RebindUsrsFrom(n, 0)
  }

  function RebindUsrsFrom(n: Node, i: nat): set<string>
    requires i <= |n.children|
    decreases n, |n.children| - i
  {
    if i == |n.children| then {} else RebindUsrs(n.children[i]) + RebindUsrsFrom(n, i + 1)
  }

  /** Across a whole walk, the alias of a USR already on file changes only if
      a constructor or destructor with that USR is met; the map only grows,
      the counter never goes down and edits are only appended. */
  lemma {:induction false} WalkKeepsAliases(st: State, ctx: Context, n: Node)
    ensures var r := Walk(st, ctx, n);
            st.aliases.Keys <= r.aliases.Keys && st.next <= r.next && st.edits <= r.edits
            && forall u :: u in st.aliases && u !in RebindUsrs(n) ==> r.aliases[u] == st.aliases[u]
    decreases n, |n.children| + 1
  {
    if !Foreign(n, ctx) {
      var v := Visit(st, ctx, n);
      VisitKeepsAliases(st, ctx, n);
      WalkFromKeepsAliases(v, ctx, n, 0);
    }
  }

  lemma {:induction false} WalkFromKeepsAliases(st: State, ctx: Context, n: Node, i: nat)
    requires i <= |n.children|
    ensures var r := WalkFrom(st, ctx, n, i);
            st.aliases.Keys <= r.aliases.Keys && st.next <= r.next && st.edits <= r.edits
            && forall u :: u in st.aliases && u !in RebindUsrsFrom(n, i) ==> r.aliases[u] == st.aliases[u]
    decreases n, |n.children| - i
  {
    if i < |n.children| {
      var w := Walk(st, ctx, n.children[i]);
      WalkKeepsAliases(st, ctx, n.children[i]);
      WalkFromKeepsAliases(w, ctx, n, i + 1);
    }
  }

  /** The consistency of the alias map and the edit list survives a walk. */
  lemma {:induction false} WalkKeepsConsistent(st: State, ctx: Context, n: Node)
    requires Consistent(st)
    ensures Consistent(Walk(st, ctx, n))
    decreases n, |n.children| + 1
  {
    if !Foreign(n, ctx) {
      VisitKeepsConsistent(st, ctx, n);
      WalkFromKeepsConsistent(Visit(st, ctx, n), ctx, n, 0);
    }
  }

  lemma {:induction false} WalkFromKeepsConsistent(st: State, ctx: Context, n: Node, i: nat)
    requires i <= |n.children|
    requires Consistent(st)
    ensures Consistent(WalkFrom(st, ctx, n, i))
    decreases n, |n.children| - i
  {
    if i < |n.children| {
      WalkKeepsConsistent(st, ctx, n.children[i]);
      WalkFromKeepsConsistent(Walk(st, ctx, n.children[i]), ctx, n, i + 1);
    }
  }

  /** Every recorded edit is trustworthy: the text at its range is its
      original spelling. */
  ghost predicate AllMatch(edits: seq<Edit>, source: string)
  {
    forall e :: e in edits ==> Matches(e, source)
  }

  lemma VisitRecordsMatches(st: State, ctx: Context, n: Node)
    requires AllMatch(st.edits, ctx.source)
    ensures AllMatch(Visit(st, ctx, n).edits, ctx.source)
  {
  }

  lemma {:induction false} WalkRecordsMatches(st: State, ctx: Context, n: Node)
    requires AllMatch(st.edits, ctx.source)
    ensures AllMatch(Walk(st, ctx, n).edits, ctx.source)
    decreases n, |n.children| + 1
  {
    if !Foreign(n, ctx) {
      VisitRecordsMatches(st, ctx, n);
      WalkFromRecordsMatches(Visit(st, ctx, n), ctx, n, 0);
    }
  }

  lemma {:induction false} WalkFromRecordsMatches(st: State, ctx: Context, n: Node, i: nat)
    requires i <= |n.children|
    requires AllMatch(st.edits, ctx.source)
    ensures AllMatch(WalkFrom(st, ctx, n, i).edits, ctx.source)
    decreases n, |n.children| - i
  {
    if i < |n.children| {
      WalkRecordsMatches(st, ctx, n.children[i]);
      WalkFromRecordsMatches(Walk(st, ctx, n.children[i]), ctx, n, i + 1);
    }
  }

  // ------------------------------------------------------------ settled maps

  /** Visiting a node again, with every key the first visit ended with
      already on file, hands out no new alias. */
  lemma VisitSettled(a: State, b: State, ctx: Context, n: Node)
    requires Visit(a, ctx, n).aliases.Keys <= b.aliases.Keys
    ensures Visit(b, ctx, n).next == b.next
  {
    var c := n.cursor;
    if CanBeRenamed(Some(c), ctx.files) && IsReference(c.kind) && CanBeRenamed(n.referenced, ctx.files) {
      RenamableIsUserCode(n.referenced, ctx.files);
    }
  }

  /** Walking a tree again from a map that holds every key the first walk
      ended with hands out no new alias: the alias numbering is settled by the
      first walk. */
  lemma {:induction false} WalkSettled(a: State, b: State, ctx: Context, n: Node)
    requires Walk(a, ctx, n).aliases.Keys <= b.aliases.Keys
    ensures Walk(b, ctx, n).next == b.next
    decreases n, |n.children| + 1
  {
    if !Foreign(n, ctx) {
      var va, vb := Visit(a, ctx, n), Visit(b, ctx, n);
      WalkFromKeepsAliases(va, ctx, n, 0);
      VisitSettled(a, b, ctx, n);
      VisitKeepsAliases(b, ctx, n);
      WalkFromSettled(va, vb, ctx, n, 0);
    }
  }

  lemma {:induction false} WalkFromSettled(a: State, b: State, ctx: Context, n: Node, i: nat)
    requires i <= |n.children|
    requires WalkFrom(a, ctx, n, i).aliases.Keys <= b.aliases.Keys
    ensures WalkFrom(b, ctx, n, i).next == b.next
    decreases n, |n.children| - i
  {
    if i < |n.children| {
      var child := n.children[i];
      var wa, wb := Walk(a, ctx, child), Walk(b, ctx, child);
      WalkFromKeepsAliases(wa, ctx, n, i + 1);
      WalkSettled(a, b, ctx, child);
      WalkKeepsAliases(b, ctx, child);
      WalkFromSettled(wa, wb, ctx, n, i + 1);
    }
  }

  // ------------------------------------------------------------ non-empty edits

  /** Every constructor and destructor in the tree below `n` belongs to a
      class with a name. */
  predicate ClassesNamed(n: Node)
    decreases n, |n.children| + 1
  {
    ((n.cursor.kind == Constructor || n.cursor.kind == Destructor) ==> n.cursor.parent.spelling != "")
    && ClassesNamedFrom(n, 0)
  }

  predicate ClassesNamedFrom(n: Node, i: nat)
    requires i <= |n.children|
    decreases n, |n.children| - i
  {
    i == |n.children| || (ClassesNamed(n.children[i]) && ClassesNamedFrom(n, i + 1))
  }

  ghost predicate NonEmptyEdits(edits: seq<Edit>)
  {
    forall e :: e in edits ==> e.original != ""
  }

  /** Declarations and references are renamed only when their names are
      non-empty, so only a constructor or destructor of an unnamed class could
      record an empty edit. */
  lemma VisitNonEmpty(st: State, ctx: Context, n: Node)
    requires NonEmptyEdits(st.edits)
    requires (n.cursor.kind == Constructor || n.cursor.kind == Destructor) ==> n.cursor.parent.spelling != ""
    ensures NonEmptyEdits(Visit(st, ctx, n).edits)
  {
  }

  /** In a tree whose classes are named, every recorded edit covers at least
      one character. */
  lemma {:induction false} WalkNonEmpty(st: State, ctx: Context, n: Node)
    requires NonEmptyEdits(st.edits) && ClassesNamed(n)
    ensures NonEmptyEdits(Walk(st, ctx, n).edits)
    decreases n, |n.children| + 1
  {
    if !Foreign(n, ctx) {
      VisitNonEmpty(st, ctx, n);
      WalkFromNonEmpty(Visit(st, ctx, n), ctx, n, 0);
    }
  }

  lemma {:induction false} WalkFromNonEmpty(st: State, ctx: Context, n: Node, i: nat)
    requires i <= |n.children|
    requires NonEmptyEdits(st.edits) && ClassesNamedFrom(n, i)
    ensures NonEmptyEdits(WalkFrom(st, ctx, n, i).edits)
    decreases n, |n.children| - i
  {
    if i < |n.children| {
      WalkNonEmpty(st, ctx, n.children[i]);
      WalkFromNonEmpty(Walk(st, ctx, n.children[i]), ctx, n, i + 1);
    }
  }

  // ------------------------------------------------------------ edits carry the alias on file

  /** Every edit from index `from` on whose USR is a key of `aliases` outside
      `rebound` carries exactly that key's alias. */
  ghost predicate UsesAliases(edits: seq<Edit>, from: nat, aliases: map<string, string>, rebound: set<string>)
  {
    forall j :: from <= j < |edits| && edits[j].usr in aliases && edits[j].usr !in rebound ==>
      edits[j].alias == aliases[edits[j].usr]
  }

  lemma VisitEditsUseAliases(st: State, ctx: Context, n: Node)
    ensures UsesAliases(Visit(st, ctx, n).edits, |st.edits|, st.aliases, Rebound(n))
  {
  }

  /** A symbol already on file when a walk starts is renamed, by every edit
      the walk records, to the alias it had then, unless a constructor or
      destructor with its USR is met. */
  lemma {:induction false} WalkEditsUseAliases(st: State, ctx: Context, n: Node)
    ensures UsesAliases(Walk(st, ctx, n).edits, |st.edits|, st.aliases, RebindUsrs(n))
    decreases n, |n.children| + 1
  {
    if !Foreign(n, ctx) {
      var v := Visit(st, ctx, n);
      var r := WalkFrom(v, ctx, n, 0);
      VisitEditsUseAliases(st, ctx, n);
      VisitKeepsAliases(st, ctx, n);
      WalkFromEditsUseAliases(v, ctx, n, 0);
      WalkFromKeepsAliases(v, ctx, n, 0);
      forall j | |st.edits| <= j < |r.edits| && r.edits[j].usr in st.aliases && r.edits[j].usr !in RebindUsrs(n)
        ensures r.edits[j].alias == st.aliases[r.edits[j].usr]
      {
        if j < |v.edits| {
          assert r.edits[j] == v.edits[j];
        }
      }
    }
  }

  lemma {:induction false} WalkFromEditsUseAliases(st: State, ctx: Context, n: Node, i: nat)
    requires i <= |n.children|
    ensures UsesAliases(WalkFrom(st, ctx, n, i).edits, |st.edits|, st.aliases, RebindUsrsFrom(n, i))
    decreases n, |n.children| - i
  {
    if i < |n.children| {
      var child := n.children[i];
      var w := Walk(st, ctx, child);
      var r := WalkFrom(w, ctx, n, i + 1);
      WalkEditsUseAliases(st, ctx, child);
      WalkKeepsAliases(st, ctx, child);
      WalkFromEditsUseAliases(w, ctx, n, i + 1);
      WalkFromKeepsAliases(w, ctx, n, i + 1);
      forall j | |st.edits| <= j < |r.edits| && r.edits[j].usr in st.aliases && r.edits[j].usr !in RebindUsrsFrom(n, i)
        ensures r.edits[j].alias == st.aliases[r.edits[j].usr]
      {
        if j < |w.edits| {
          assert r.edits[j] == w.edits[j];
        }
      }
    }
  }

  // ------------------------------------------------------------ distinct aliases

  /** Two different USRs share an alias only when one of them is in
      `rebound`. */
  ghost predicate DistinctExcept(aliases: map<string, string>, rebound: set<string>)
  {
    forall u, v :: u in aliases && v in aliases && u != v && aliases[u] == aliases[v] ==>
      u in rebound || v in rebound
  }

  /** A fresh alias is shared with no one, and only a constructor or
      destructor takes an alias already in use. */
  lemma VisitKeepsDistinct(st: State, ctx: Context, n: Node, rebound: set<string>)
    requires Consistent(st) && DistinctExcept(st.aliases, rebound)
    ensures DistinctExcept(Visit(st, ctx, n).aliases, rebound + Rebound(n))
  {
    NextAliasIsFresh(st);
  }

  /** Across a walk, two USRs share an alias only when one of them was
      already exempt or is the USR of a constructor or destructor met. */
  lemma {:induction false} WalkKeepsDistinct(st: State, ctx: Context, n: Node, rebound: set<string>)
    requires Consistent(st) && DistinctExcept(st.aliases, rebound)
    ensures DistinctExcept(Walk(st, ctx, n).aliases, rebound + RebindUsrs(n))
    decreases n, |n.children| + 1
  {
    if Foreign(n, ctx) {
      assert DistinctExcept(st.aliases, rebound + RebindUsrs(n));
    } else {
      VisitKeepsConsistent(st, ctx, n);
      VisitKeepsDistinct(st, ctx, n, rebound);
      WalkFromKeepsDistinct(Visit(st, ctx, n), ctx, n, 0, rebound + Rebound(n));
      assert (rebound + Rebound(n)) + RebindUsrsFrom(n, 0) == rebound + RebindUsrs(n);
    }
  }

  lemma {:induction false} WalkFromKeepsDistinct(st: State, ctx: Context, n: Node, i: nat, rebound: set<string>)
    requires i <= |n.children|
    requires Consistent(st) && DistinctExcept(st.aliases, rebound)
    ensures DistinctExcept(WalkFrom(st, ctx, n, i).aliases, rebound + RebindUsrsFrom(n, i))
    decreases n, |n.children| - i
  {
    if i == |n.children| {
      assert rebound + RebindUsrsFrom(n, i) == rebound;
    } else {
      var child := n.children[i];
      WalkKeepsConsistent(st, ctx, child);
      WalkKeepsDistinct(st, ctx, child, rebound);
      WalkFromKeepsDistinct(Walk(st, ctx, child), ctx, n, i + 1, rebound + RebindUsrs(child));
      assert (rebound + RebindUsrs(child)) + RebindUsrsFrom(n, i + 1) == rebound + RebindUsrsFrom(n, i);
    }
  }
}
