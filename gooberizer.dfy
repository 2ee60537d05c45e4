/** The `Gooberizer` object: its alias map and counter shared across files,
    the per-file edit list and working text, and the two-pass run. Each
    method is proved to change the object exactly as the functions of
    `Collector` and `Edits` say; the lemmas at the end state what a pass and a
    run guarantee. */
module Gooberizing {
  import opened Text
  import opened Cursors
  import opened Edits
  import opened Collector

  /** What the analyzer yields for one input file: its text and its tree, or
      no tree when the file cannot be parsed. */
  datatype Analysis = Analysis(path: string, source: string, tree: Option<Node>)

  /** A rewritten file, written under the output directory. */
  datatype Output = Output(path: string, text: string)

  /** What outlives one file: the alias map, the counter and the outputs. */
  datatype RunState = RunState(aliases: map<string, string>, next: nat, outputs: seq<Output>)

  /** The text `_make_replacements` produces from a file's candidate edits. */
  function Rewrite(source: string, edits: seq<Edit>): string
  {
    SpliceAll(source, Resolve(edits))
  }

  /** `_process_file`: a file that does not parse is skipped; otherwise its
      tree is walked with an empty edit list, and in the second pass the edits
      are resolved, spliced in and the text is written out. */
  function ProcessFileSpec(p: RunState, files: seq<string>, input: Analysis, firstPass: bool): RunState
  {
    match input.tree
    case None => p
    case Some(root) =>
      var st := Walk(State(p.aliases, p.next, []), Context(files, input.path, input.source), root);
      if firstPass then RunState(st.aliases, st.next, p.outputs)
      else RunState(st.aliases, st.next, p.outputs + [Output(input.path, Rewrite(input.source, st.edits))])
  }

  /** One pass over the input files, in order. */
  function PassSpec(p: RunState, files: seq<string>, inputs: seq<Analysis>, firstPass: bool): RunState
    decreases |inputs|
  {
    if inputs == [] then p
    else PassSpec(ProcessFileSpec(p, files, inputs[0], firstPass), files, inputs[1..], firstPass)
  }

  /** `run`: a pass that only builds the alias map, then a pass that rewrites. */
  function RunSpec(p: RunState, files: seq<string>, inputs: seq<Analysis>): RunState
  {
    PassSpec(PassSpec(p, files, inputs, true), files, inputs, false)
  }

  class Gooberizer {
    const files: seq<string>
    var gooberMap: map<string, string>
    var gooberN: nat
    var currentReplacements: seq<Edit>
    var currentSource: string
    var currentFile: string
    var outputs: seq<Output>

    /** The state a walk changes. */
    function Snapshot(): State
      reads this
    {
      State(gooberMap, gooberN, currentReplacements)
    }

    /** The state that outlives one file. */
    function Observed(): RunState
      reads this
    {
      RunState(gooberMap, gooberN, outputs)
    }

    /** Creating the output directory is left to the environment. */
    constructor (filePaths: seq<string>)
      ensures files == filePaths
      ensures gooberMap == map[] && gooberN == 0 && outputs == []
      ensures currentReplacements == [] && currentSource == "" && currentFile == ""
    {
      files := filePaths;
      gooberMap := map[];
      gooberN := 0;
      currentReplacements := [];
      currentSource := "";
      currentFile := "";
      outputs := [];
    }

    method Run(analyses: seq<Analysis>)
      requires |analyses| == |files|
      requires forall i :: 0 <= i < |files| ==> analyses[i].path == files[i]
      modifies this`gooberMap, this`gooberN, this`currentReplacements, this`currentSource,
               this`currentFile, this`outputs
      ensures Observed() == RunSpec(old(Observed()), files, analyses)
    {
      // first pass builds the alias map
      ghost var afterFirst := PassSpec(Observed(), files, analyses, true);
      var i := 0;
      while i < |analyses|
        invariant 0 <= i <= |analyses|
        invariant PassSpec(Observed(), files, analyses[i..], true) == afterFirst
      {
        assert analyses[i..][1..] == analyses[i + 1..];
        ProcessFile(analyses[i], true);
        i := i + 1;
      }
      // second pass collects, resolves and applies the edits
      ghost var afterSecond := PassSpec(Observed(), files, analyses, false);
      i := 0;
      while i < |analyses|
        invariant 0 <= i <= |analyses|
        invariant PassSpec(Observed(), files, analyses[i..], false) == afterSecond
      {
        assert analyses[i..][1..] == analyses[i + 1..];
        ProcessFile(analyses[i], false);
        i := i + 1;
      }
    }

    method ProcessFile(input: Analysis, firstPass: bool)
      modifies this`gooberMap, this`gooberN, this`currentReplacements, this`currentSource,
               this`currentFile, this`outputs
      ensures Observed() == ProcessFileSpec(old(Observed()), files, input, firstPass)
    {
      if input.tree.None? {
        // the analyzer failed: the failure is reported and the file skipped
        return;
      }
      currentReplacements := [];
      currentSource := input.source;
      currentFile := input.path;
      BuildReplacements(input.tree.value);
      if !firstPass {
        MakeReplacements();
        WriteFile(currentFile);
      }
    }

    method BuildReplacements(node: Node)
      modifies this`gooberMap, this`gooberN, this`currentReplacements
      ensures Snapshot() == Walk(old(Snapshot()), Context(files, currentFile, currentSource), node)
      decreases node, 1
    {
      // only nodes of the file being processed are looked at
      if node.cursor.file.Some? && node.cursor.file.value != currentFile {
        return;
      }
      VisitNode(node);
      BuildChildren(node);
    }

    /** The body of `_build_replacements` for one node, before its children:
        the alias map, the counter and the edit list change as `Visit` says. */
    method VisitNode(node: Node)
      modifies this`gooberMap, this`gooberN, this`currentReplacements
      ensures Snapshot() == Visit(old(Snapshot()), Context(files, currentFile, currentSource), node)
    {
      var cursor := node.cursor;
      // a node that cannot be renamed is skipped, but not its children
      if !CanBeRenamed(Some(cursor), files) {
        return;
      }
      if IsDeclaration(cursor.kind) {
        if cursor.usr !in gooberMap {
          gooberMap := gooberMap[cursor.usr := Alias(gooberN)];
          gooberN := gooberN + 1;
        }
        AddReplacement(cursor, cursor.spelling, cursor.usr);
      } else if IsReference(cursor.kind) {
        if !CanBeRenamed(node.referenced, files) {
          return;
        }
        var referenced := node.referenced.value;
        if referenced.usr in gooberMap {
          AddReplacement(cursor, referenced.spelling, referenced.usr);
        } else if CheckUserCode(referenced, files) {
          gooberMap := gooberMap[referenced.usr := Alias(gooberN)];
          gooberN := gooberN + 1;
          AddReplacement(cursor, referenced.spelling, referenced.usr);
        }
      } else if cursor.kind == Constructor || cursor.kind == Destructor {
        // the two branches of the source are identical: rename after the class
        var parent := cursor.parent;
        if parent.usr in gooberMap {
          gooberMap := gooberMap[cursor.usr := gooberMap[parent.usr]];
          AddReplacement(cursor, parent.spelling, cursor.usr);
        }
      }
    }

    /** The recursive calls over a node's children, in order. */
    method BuildChildren(node: Node)
      modifies this`gooberMap, this`gooberN, this`currentReplacements
      ensures Snapshot() == WalkFrom(old(Snapshot()), Context(files, currentFile, currentSource), node, 0)
      decreases node, 0
    {
      var ctx := Context(files, currentFile, currentSource);
      var i := 0;
      while i < |node.children|
        invariant 0 <= i <= |node.children|
        invariant WalkFrom(Snapshot(), ctx, node, i) == WalkFrom(old(Snapshot()), ctx, node, 0)
      {
        BuildReplacements(node.children[i]);
        i := i + 1;
      }
    }

    method AddReplacement(cursor: Cursor, originalName: string, usr: string)
      requires usr in gooberMap
      modifies this`currentReplacements
      ensures Snapshot() == AddEdit(old(Snapshot()), Context(files, currentFile, currentSource), cursor, originalName, usr)
    {
      var startPos := GetAccurateOffset(cursor, originalName);
      var endPos := startPos + |originalName|;
      // make sure what is being replaced is actually the expected name
      var actualText := PySlice(currentSource, startPos, endPos);
      if actualText != originalName {
        return;
      }
      currentReplacements := currentReplacements + [Edit(startPos, gooberMap[usr], originalName, usr)];
    }

    method MakeReplacements()
      modifies this`currentReplacements, this`currentSource
      ensures currentReplacements == Resolve(old(currentReplacements))
      ensures currentSource == Rewrite(old(currentSource), old(currentReplacements))
    {
      var sorted := StableSort(currentReplacements, RangeKey);
      var uniqueReplacements := RemoveOverlaps(sorted);
      currentReplacements := StableSort(uniqueReplacements, DescendingStartKey);
      currentSource := SpliceInOrder(currentSource, currentReplacements);
    }

    /** Writing the text under the output directory; the write is recorded. */
    method WriteFile(originalPath: string)
      modifies this`outputs
      ensures outputs == old(outputs) + [Output(originalPath, currentSource)]
    {
      outputs := outputs + [Output(originalPath, currentSource)];
    }
  }

  // ------------------------------------------------------------ run lemmas

  /** A pass only adds keys and never lowers the counter. */
  lemma {:induction false} PassGrows(p: RunState, files: seq<string>, inputs: seq<Analysis>, firstPass: bool)
    ensures p.aliases.Keys <= PassSpec(p, files, inputs, firstPass).aliases.Keys
    ensures p.next <= PassSpec(p, files, inputs, firstPass).next
    decreases |inputs|
  {
    if inputs != [] {
      var input := inputs[0];
      if input.tree.Some? {
        WalkKeepsAliases(State(p.aliases, p.next, []), Context(files, input.path, input.source), input.tree.value);
      }
      PassGrows(ProcessFileSpec(p, files, input, firstPass), files, inputs[1..], firstPass);
    }
  }

  /** A pass started from a map that already holds every key some earlier
      pass over the same files ended with hands out no new alias. */
  lemma {:induction false} PassSettled(a: RunState, b: RunState, files: seq<string>, inputs: seq<Analysis>,
                                       firstA: bool, firstB: bool)
    requires PassSpec(a, files, inputs, firstA).aliases.Keys <= b.aliases.Keys
    ensures PassSpec(b, files, inputs, firstB).next == b.next
    decreases |inputs|
  {
    if inputs != [] {
      var input := inputs[0];
      var a1 := ProcessFileSpec(a, files, input, firstA);
      var b1 := ProcessFileSpec(b, files, input, firstB);
      PassGrows(a1, files, inputs[1..], firstA);
      if input.tree.Some? {
        var ctx := Context(files, input.path, input.source);
        var root := input.tree.value;
        WalkSettled(State(a.aliases, a.next, []), State(b.aliases, b.next, []), ctx, root);
        WalkKeepsAliases(State(b.aliases, b.next, []), ctx, root);
      }
      PassSettled(a1, b1, files, inputs[1..], firstA, firstB);
    }
  }

  /** The second pass assigns no alias: every alias is numbered by the first
      pass, so a symbol declared in one file and used in another gets the same
      alias in both, whatever the file order. */
  lemma SecondPassAddsNoAlias(p: RunState, files: seq<string>, inputs: seq<Analysis>)
    ensures RunSpec(p, files, inputs).next == PassSpec(p, files, inputs, true).next
  {
    var first := PassSpec(p, files, inputs, true);
    PassSettled(p, first, files, inputs, true, false);
  }

  /** Every alias in the map was handed out by the counter, before and after
      any pass. */
  lemma {:induction false} PassKeepsConsistent(p: RunState, files: seq<string>, inputs: seq<Analysis>, firstPass: bool)
    requires Consistent(State(p.aliases, p.next, []))
    ensures var q := PassSpec(p, files, inputs, firstPass); Consistent(State(q.aliases, q.next, []))
    decreases |inputs|
  {
    if inputs != [] {
      var input := inputs[0];
      if input.tree.Some? {
        var ctx := Context(files, input.path, input.source);
        var st := Walk(State(p.aliases, p.next, []), ctx, input.tree.value);
        WalkKeepsConsistent(State(p.aliases, p.next, []), ctx, input.tree.value);
        assert Consistent(State(st.aliases, st.next, []));
      }
      PassKeepsConsistent(ProcessFileSpec(p, files, input, firstPass), files, inputs[1..], firstPass);
    }
  }

  /** A rewritten file: when every constructor and destructor belongs to a
      named class, the kept edits lie in ascending, non-overlapping order
      inside the text, each covers exactly its original spelling, and the
      output is the text with each kept range replaced by its alias and
      every other character kept, in order. */
  lemma FileRewriteRendersKept(p: RunState, files: seq<string>, input: Analysis)
    requires input.tree.Some? && ClassesNamed(input.tree.value)
    ensures var st := Walk(State(p.aliases, p.next, []), Context(files, input.path, input.source), input.tree.value);
            var kept := Kept(st.edits);
            Chain(kept, 0, |input.source|)
            && (forall e :: e in kept ==> e.End() <= |input.source| && input.source[e.start..e.End()] == e.original)
            && Rewrite(input.source, st.edits) == Render(input.source, kept, 0)
  {
    var ctx := Context(files, input.path, input.source);
    var st0 := State(p.aliases, p.next, []);
    var st := Walk(st0, ctx, input.tree.value);
    WalkRecordsMatches(st0, ctx, input.tree.value);
    WalkNonEmpty(st0, ctx, input.tree.value);
    forall e | e in st.edits ensures e.start < e.End() <= |input.source| && input.source[e.start..e.End()] == e.original {
      SliceMatchIsInBounds(input.source, e.start, e.original);
    }
    KeptIsNonOverlappingSubsequence(st.edits);
    RewriteRendersKept(input.source, st.edits);
  }

  /** In the second pass, a file that parses and whose classes are named is
      written out as the reference rewrite of its text. */
  lemma SecondPassWritesRender(p: RunState, files: seq<string>, input: Analysis)
    requires input.tree.Some? && ClassesNamed(input.tree.value)
    ensures var st := Walk(State(p.aliases, p.next, []), Context(files, input.path, input.source), input.tree.value);
            Chain(Kept(st.edits), 0, |input.source|)
            && ProcessFileSpec(p, files, input, false).outputs
               == p.outputs + [Output(input.path, Render(input.source, Kept(st.edits), 0))]
  {
    var st := Walk(State(p.aliases, p.next, []), Context(files, input.path, input.source), input.tree.value);
    assert ProcessFileSpec(p, files, input, false).outputs
             == p.outputs + [Output(input.path, Rewrite(input.source, st.edits))];
    FileRewriteRendersKept(p, files, input);
  }

  /** The USRs of the constructors and destructors of the inputs that parse:
      the only symbols whose alias an input can rebind. */
  function RebindUsrsIn(inputs: seq<Analysis>): set<string>
    decreases |inputs|
  {
    if inputs == [] then {}
    else (if inputs[0].tree.Some? then RebindUsrs(inputs[0].tree.value) else {}) + RebindUsrsIn(inputs[1..])
  }

  lemma {:induction false} RebindUsrsInParts(inputs: seq<Analysis>, i: nat)
    requires i < |inputs|
    ensures RebindUsrsIn(inputs[..i]) <= RebindUsrsIn(inputs)
    ensures inputs[i].tree.Some? ==> RebindUsrs(inputs[i].tree.value) <= RebindUsrsIn(inputs)
    decreases i
  {
    if i > 0 {
      assert inputs[..i][1..] == inputs[1..][..i - 1];
      RebindUsrsInParts(inputs[1..], i - 1);
    }
  }

  /** A pass is the pass over the files before `i`, then file `i`, then the
      pass over the rest: file `i` is processed from the state the files
      before it left. */
  lemma {:induction false} PassSplit(p: RunState, files: seq<string>, inputs: seq<Analysis>, firstPass: bool, i: nat)
    requires i < |inputs|
    ensures PassSpec(p, files, inputs, firstPass)
            == PassSpec(ProcessFileSpec(PassSpec(p, files, inputs[..i], firstPass), files, inputs[i], firstPass),
                        files, inputs[i + 1..], firstPass)
    decreases i
  {
    if i > 0 {
      assert inputs[..i][1..] == inputs[1..][..i - 1];
      assert inputs[1..][i - 1 + 1..] == inputs[i + 1..];
      PassSplit(ProcessFileSpec(p, files, inputs[0], firstPass), files, inputs[1..], firstPass, i - 1);
    }
  }

  /** Over a pass, an alias on file stays as it is unless a constructor or
      destructor with that USR is met. */
  lemma {:induction false} PassKeepsAliases(p: RunState, files: seq<string>, inputs: seq<Analysis>, firstPass: bool)
    ensures var q := PassSpec(p, files, inputs, firstPass);
            forall u :: u in p.aliases && u !in RebindUsrsIn(inputs) ==> u in q.aliases && q.aliases[u] == p.aliases[u]
    decreases |inputs|
  {
    if inputs != [] {
      var input := inputs[0];
      var p1 := ProcessFileSpec(p, files, input, firstPass);
      PassKeepsAliases(p1, files, inputs[1..], firstPass);
      if input.tree.Some? {
        WalkKeepsAliases(State(p.aliases, p.next, []), Context(files, input.path, input.source), input.tree.value);
      }
    }
  }

  /** A symbol no constructor or destructor shares a USR with keeps, in the
      second pass, the alias the first pass gave it. */
  lemma SecondPassKeepsAliases(p: RunState, files: seq<string>, inputs: seq<Analysis>, u: string)
    requires u in PassSpec(p, files, inputs, true).aliases
    requires u !in RebindUsrsIn(inputs)
    ensures u in RunSpec(p, files, inputs).aliases
    ensures RunSpec(p, files, inputs).aliases[u] == PassSpec(p, files, inputs, true).aliases[u]
  {
    PassKeepsAliases(PassSpec(p, files, inputs, true), files, inputs, false);
  }

  /** Every file renames a symbol alike: in the second pass, file `i` is
      walked from the state the files before it left, and each edit it
      records for a USR the first pass named, and that no constructor or
      destructor of any input rebinds, carries the first pass's alias. */
  lemma SecondPassEditsUseAliases(p: RunState, files: seq<string>, inputs: seq<Analysis>, i: nat)
    requires i < |inputs| && inputs[i].tree.Some?
    ensures var first := PassSpec(p, files, inputs, true);
            var before := PassSpec(first, files, inputs[..i], false);
            var input := inputs[i];
            var st := Walk(State(before.aliases, before.next, []), Context(files, input.path, input.source), input.tree.value);
            RunSpec(p, files, inputs)
              == PassSpec(ProcessFileSpec(before, files, input, false), files, inputs[i + 1..], false)
            && UsesAliases(st.edits, 0, first.aliases, RebindUsrsIn(inputs))
  {
    var first := PassSpec(p, files, inputs, true);
    var before := PassSpec(first, files, inputs[..i], false);
    var input := inputs[i];
    var st0 := State(before.aliases, before.next, []);
    PassSplit(first, files, inputs, false, i);
    PassKeepsAliases(first, files, inputs[..i], false);
    RebindUsrsInParts(inputs, i);
    WalkEditsUseAliases(st0, Context(files, input.path, input.source), input.tree.value);
  }

  /** Over a pass, two USRs share an alias only when one of them was already
      exempt or is the USR of a constructor or destructor of some input. */
  lemma {:induction false} PassKeepsDistinct(p: RunState, files: seq<string>, inputs: seq<Analysis>, firstPass: bool,
                                             rebound: set<string>)
    requires Consistent(State(p.aliases, p.next, [])) && DistinctExcept(p.aliases, rebound)
    ensures DistinctExcept(PassSpec(p, files, inputs, firstPass).aliases, rebound + RebindUsrsIn(inputs))
    decreases |inputs|
  {
    if inputs == [] {
      assert rebound + RebindUsrsIn(inputs) == rebound;
    } else {
      var input := inputs[0];
      var p1 := ProcessFileSpec(p, files, input, firstPass);
      var here: set<string> := if input.tree.Some? then RebindUsrs(input.tree.value) else {};
      if input.tree.Some? {
        var st0 := State(p.aliases, p.next, []);
        var ctx := Context(files, input.path, input.source);
        WalkKeepsConsistent(st0, ctx, input.tree.value);
        WalkKeepsDistinct(st0, ctx, input.tree.value, rebound);
        var st := Walk(st0, ctx, input.tree.value);
        assert Consistent(State(st.aliases, st.next, []));
      } else {
        assert rebound + here == rebound;
      }
      PassKeepsDistinct(p1, files, inputs[1..], firstPass, rebound + here);
      assert (rebound + here) + RebindUsrsIn(inputs[1..]) == rebound + RebindUsrsIn(inputs);
    }
  }

  /** After a run from an empty map, different symbols have different
      aliases, except that a constructor or destructor shares its class's. */
  lemma RunAliasesDistinct(files: seq<string>, inputs: seq<Analysis>)
    ensures DistinctExcept(RunSpec(RunState(map[], 0, []), files, inputs).aliases, RebindUsrsIn(inputs))
  {
    var p := RunState(map[], 0, []);
    var first := PassSpec(p, files, inputs, true);
    PassKeepsDistinct(p, files, inputs, true, {});
    PassKeepsConsistent(p, files, inputs, true);
    PassKeepsDistinct(first, files, inputs, false, {} + RebindUsrsIn(inputs));
    assert ({} + RebindUsrsIn(inputs)) + RebindUsrsIn(inputs) == RebindUsrsIn(inputs);
  }

  /** The paths of the files that parse, in input order. */
  function ParsedPaths(inputs: seq<Analysis>): seq<string>
  {
    if inputs == [] then []
    else (if inputs[0].tree.Some? then [inputs[0].path] else []) + ParsedPaths(inputs[1..])
  }

  function OutputPaths(outs: seq<Output>): seq<string>
  {
    if outs == [] then [] else [outs[0].path] + OutputPaths(outs[1..])
  }

  lemma {:induction false} OutputPathsSnoc(outs: seq<Output>, o: Output)
    ensures OutputPaths(outs + [o]) == OutputPaths(outs) + [o.path]
  {
    if outs != [] {
      assert (outs + [o])[1..] == outs[1..] + [o];
      OutputPathsSnoc(outs[1..], o);
    }
  }

  /** The first pass writes nothing; the second writes one file per input
      that parses, in input order, and nothing for the others. */
  lemma {:induction false} PassOutputs(p: RunState, files: seq<string>, inputs: seq<Analysis>, firstPass: bool)
    ensures firstPass ==> PassSpec(p, files, inputs, firstPass).outputs == p.outputs
    ensures !firstPass ==> OutputPaths(PassSpec(p, files, inputs, firstPass).outputs)
                           == OutputPaths(p.outputs) + ParsedPaths(inputs)
    decreases |inputs|
  {
    if inputs == [] {
      assert OutputPaths(p.outputs) + [] == OutputPaths(p.outputs);
    } else {
      var input := inputs[0];
      var p1 := ProcessFileSpec(p, files, input, firstPass);
      PassOutputs(p1, files, inputs[1..], firstPass);
      if !firstPass {
        if input.tree.Some? {
          OutputPathsSnoc(p.outputs, Output(input.path, p1.outputs[|p1.outputs| - 1].text));
          AppendAssoc(OutputPaths(p.outputs), [input.path], ParsedPaths(inputs[1..]));
        } else {
          assert [] + ParsedPaths(inputs[1..]) == ParsedPaths(inputs[1..]);
        }
      }
    }
  }

  /** Consistency holds across a whole run. */
  lemma RunKeepsConsistent(p: RunState, files: seq<string>, inputs: seq<Analysis>)
    requires Consistent(State(p.aliases, p.next, []))
    ensures var q := RunSpec(p, files, inputs); Consistent(State(q.aliases, q.next, []))
  {
    PassKeepsConsistent(p, files, inputs, true);
    PassKeepsConsistent(PassSpec(p, files, inputs, true), files, inputs, false);
  }
}
