# Gooberizer core in Dafny

`gooberizer.py` anonymises C++ sources: it renames every user-defined
identifier (variables, parameters, functions, classes, structs, enums and
their constants, methods, fields, typedefs and aliases) to `goober_<n>`. It
keeps the program's structure and leaves untouched the entry point `main`,
operator overloads, virtual member functions other than destructors, and
everything outside the input files. A virtual destructor is renamed with its
class.
It walks the syntax tree the analyzer produces for each input file. Along
the way it builds one alias map, shared by all files, from a symbol's USR
(the analyzer's unique symbol identifier) to its alias. It collects
candidate edits, drops overlapping ones and splices the survivors into the
file's text. The map is built in a first pass over all files, and the
files are rewritten in a second pass.

The model has six modules:

- `Text`: the Python built-ins the tool relies on:
  - `str(n)`;
  - clamped slicing `s[a:b]`;
  - `str.strip()`;
  - the substring test `pat in s`.
- `IncludePaths`: the scan of the compiler's `-v` diagnostics for system
  include directories. It is a loop proved against a prefix function, with
  lemmas that characterise exactly which lines become `-I` arguments.
- `Cursors`: the part of a syntax-tree node the renamer reads, the
  renamability classifier, and the token search that locates a name
  precisely.
- `Edits`: candidate edits and the conflict resolver of
  `_make_replacements`. It covers a stable sort by `(start, end)`, the
  greedy sweep that drops overlapping edits, the stable descending sort and
  the splicing. The lemmas relate the rewritten text to a reference
  rendering, `Render`, that replaces every kept range by its alias and
  copies everything else unchanged.
- `Collector`: `_build_replacements` as a function `Walk` on the alias map,
  the counter and the edit list. The lemmas state the per-node rules and
  what a whole walk preserves. A later walk over a tree that an earlier
  walk has seen never hands out a new alias.
- `Gooberizing`: the `Gooberizer` object as a class whose fields the
  methods update in place. Each method is proved to change the object
  exactly as `Walk`, `AddEdit`, `Resolve`/`Rewrite` and the pass functions
  say. It also holds the two-pass run and its lemmas.

## Model

| member | source | states |
|---|---|---|
| `Text.NatToStringInjective` | gooberizer.py:145 | different counter values have different decimal spellings, so `"goober_" + str(n)` never repeats |
| `Text.NatToString` | gooberizer.py:145 | `str(n)` for a counter value: a non-empty decimal spelling, of at least two digits from 10 on |
| `Collector.Alias` | gooberizer.py:145 | the alias `"goober_" + str(n)` handed out for counter value `n` |
| `Collector.AliasInjective` | gooberizer.py:145 | `goober_<a>` equals `goober_<b>` only when `a == b` |
| `Text.PySlice` | gooberizer.py:237 | the slice equals `s[a..b]` whenever the bounds lie inside the string; otherwise the bounds are clamped and the result is never longer than `s` |
| `Text.SliceMatchIsInBounds` | gooberizer.py:237-239 | a clamped slice equal to a non-empty name lies inside the text and is exactly the name, so an offset past the end never yields an edit |
| `Text.Strip` | gooberizer.py:36 | the result is `s` with leading and trailing white space removed: it is a slice of `s` with only white space outside it, and it starts and ends with non-white-space |
| `Text.Contains` | gooberizer.py:27 | `pat in s` holds exactly when `pat` occurs at some index of `s` |
| `IncludePaths.Opens` | gooberizer.py:27-29 | a line opens the include section when it holds the start marker |
| `IncludePaths.Closes` | gooberizer.py:30-32 | a line closes the section when it holds the end marker and, since the start marker is tested first, not the start marker |
| `IncludePaths.IncludeArg` | gooberizer.py:34-37 | the argument of a line read inside the section is `-I` followed by the stripped line |
| `IncludePaths.InSection` | gooberizer.py:23-32 | the in-section flag after the first `k` lines: set by a line holding the start marker, cleared by a line holding the end marker but not the start marker, otherwise unchanged |
| `IncludePaths.Emitted` | gooberizer.py:26-37 | line `i` yields an argument when it holds neither marker and the flag is set when it is read |
| `IncludePaths.ScanPrefix` | gooberizer.py:22-39 | the arguments after `k` lines: those of the first `k - 1` lines, plus `-I` and the stripped line `k - 1` when that line is emitted |
| `IncludePaths.SystemIncludeArgs` | gooberizer.py:22-39 | the loop over the diagnostic lines returns the scan specification `ScanPrefix` over all lines |
| `IncludePaths.InSectionIff` | gooberizer.py:23-32 | the in-section flag is set before line `k` exactly when some earlier line held the start marker and no line since held only the end marker |
| `IncludePaths.ScanMembers` | gooberizer.py:26-37 | the arguments are at most one per line, and an argument is produced exactly when it is `-I` plus a stripped line that is no marker line and is read while the flag is set |
| `IncludePaths.EmittedBetweenMarkers` | gooberizer.py:26-37 | every non-marker line strictly after a start marker and before the next end marker produces its `-I` argument |
| `Cursors.KindClassesDisjoint` | gooberizer.py:291-315 | the declaration and reference kind lists are disjoint, and constructors and destructors are in neither, so the collector's `if/elif` chain picks at most one branch |
| `Cursors.IsDeclaration` | gooberizer.py:291-304 | the declaration kinds: variables, parameters, functions, classes, structs, enums and their constants, methods, fields, typedefs and type aliases |
| `Cursors.IsReference` | gooberizer.py:306-315 | the reference kinds: name and member references, type references, calls, overloaded names and constructor initialisers |
| `Cursors.CheckUserCode` | gooberizer.py:317-322 | a cursor is user code when its file is one of the input files |
| `Cursors.IsEntryPoint` | gooberizer.py:325-333 | a cursor is the entry point when it is spelled `main` and its semantic parent is the translation unit or a linkage specification |
| `Cursors.IsWordChar` | gooberizer.py:337 | the word characters excluded by `\W`: ASCII letters, digits and `_` |
| `Cursors.IsCppOperator` | gooberizer.py:336-337 | a name is an operator when it is `operator` followed by at least one non-word character |
| `Cursors.CanBeRenamed` | gooberizer.py:252-276 | a cursor can be renamed when it exists, lies in an input file, is not the entry point or an operator, has a non-empty spelling and is not a virtual method of kind `CXX_METHOD` (a destructor has its own kind) |
| `Cursors.NotRenamableCases` | gooberizer.py:252-276 | each rejection rule alone makes a cursor non-renamable: none, no file, not user code, entry point, operator, empty spelling, virtual method; a cursor passing all of them is renamable (both directions) |
| `Cursors.RenamableIsUserCode` | gooberizer.py:155-168 | a renamable target is user code with a non-empty spelling, so the reference branch that skips a non-user target never falls through |
| `Cursors.OperatorExamples` | gooberizer.py:336-337 | `operator+=` and `operator()` are operators; `operator`, `operators` and `operator_id` are not |
| `Cursors.FirstMatch` | gooberizer.py:285-287 | the result is the index of a token spelled like the name with no such token before it, or none when no token has that spelling |
| `Cursors.GetAccurateOffset` | gooberizer.py:279-289 | the search loop returns the offset of the first token spelled like the name, or the cursor's own offset when there is none |
| `Cursors.FirstMatchIsFirst` | gooberizer.py:285-287 | a matching token with no match before it is the first match |
| `Cursors.AccurateOffset` | gooberizer.py:279-289 | a name's offset: that of the first token spelled like it, or the cursor's own offset when no token is |
| `Collector.AddEdit` | gooberizer.py:231-249 | aliases and counter are unchanged; the edit `(first-token offset, alias of usr, name)` is appended exactly when the text at its range is the name, and nothing is appended otherwise |
| `Collector.AddEditGuard` | gooberizer.py:233-239 | for a non-empty name an edit is added exactly when the located range lies inside the text and holds the name; otherwise the state is unchanged |
| `Collector.Bind` | gooberizer.py:143-146 | a USR is bound to the alias of the current counter value, and the counter rises by one |
| `Collector.Foreign` | gooberizer.py:123-128 | a node whose location has a file other than the one being processed is pruned with its subtree; a node without a file is not |
| `Collector.Visit` | gooberizer.py:130-185 | one node's effect: a non-renamable node changes nothing; a declaration binds its USR if new and records its name; a reference to a renamable target binds the target if new and records the target's name; a constructor or destructor of an aliased class takes the class's alias and records the class name |
| `Collector.Walk` | gooberizer.py:122-189 | a node in another file is skipped with its subtree; otherwise the node is visited and then its children are walked |
| `Collector.WalkFrom` | gooberizer.py:188-189 | the children from index `i` on are walked one after another, each from the state the previous left |
| `Collector.TraversalRules` | gooberizer.py:125-136 | a subtree in another file contributes nothing; a node that cannot be renamed, or a reference whose target cannot be, emits nothing but still has its children walked |
| `Collector.NextAliasIsFresh` | gooberizer.py:143-146 | in a consistent state no USR already holds `goober_<counter>` |
| `Collector.BindKeepsConsistent` | gooberizer.py:145-146 | binding a USR to the next alias and incrementing the counter keeps every alias below the counter |
| `Collector.VisitDeclaration` | gooberizer.py:141-149 | a declaration's USR ends up mapped; a known USR keeps its alias and the counter; a new one gets `goober_<counter>`, shared with no other USR, and the counter rises by one; at most the declaration's edit is added |
| `Collector.VisitReference` | gooberizer.py:151-168 | a reference to a non-renamable target changes nothing; otherwise the target's alias is reused if present, or the target gets the next alias, shared with no other USR; at most the reference's edit is added |
| `Collector.VisitConstructor` | gooberizer.py:170-185 | a constructor or destructor of an aliased class is bound to the class's alias, the counter stays, and at most an edit of the class name is added; with no class alias nothing changes |
| `Collector.VisitKeepsConsistent` | gooberizer.py:141-185 | one node visit keeps every alias on file and on every edit below the counter |
| `Collector.VisitKeepsAliases` | gooberizer.py:141-185 | one node visit only adds keys, never lowers the counter, only appends edits, and keeps every alias unless the node is a constructor or destructor with that USR |
| `Collector.WalkKeepsAliases` | gooberizer.py:122-189 | across a whole walk the map only grows, the counter never goes down, edits are only appended, and an alias changes only if a constructor or destructor with that USR is met |
| `Collector.WalkKeepsConsistent` | gooberizer.py:122-189 | a whole walk keeps every alias on file and on every edit below the counter |
| `Collector.WalkRecordsMatches` | gooberizer.py:122-189 | every edit a walk records has its original spelling at its range in the text |
| `Collector.WalkSettled` | gooberizer.py:122-189 | walking a tree from a map that holds every key an earlier walk of it ended with hands out no new alias |
| `Collector.VisitNonEmpty` | gooberizer.py:141-185 | a visit records only non-empty edits unless the node is a constructor or destructor of an unnamed class |
| `Collector.VisitEditsUseAliases` | gooberizer.py:141-185 | every edit one visit records for a USR already on file carries that USR's alias, unless the node is a constructor or destructor with that USR |
| `Collector.WalkEditsUseAliases` | gooberizer.py:122-189 | every edit a walk records for a USR already on file when it starts carries the alias the USR had then, unless a constructor or destructor with that USR is met |
| `Collector.WalkFromEditsUseAliases` | gooberizer.py:188-189 | the same for the walk of the children from index `i` on |
| `Collector.VisitKeepsDistinct` | gooberizer.py:141-185 | one visit in a consistent state lets two different USRs share an alias only if they already could or one of them is the node's USR as a constructor or destructor |
| `Collector.WalkKeepsDistinct` | gooberizer.py:122-189 | across a walk, two different USRs share an alias only if they already could or one of them is the USR of a constructor or destructor met |
| `Collector.WalkFromKeepsDistinct` | gooberizer.py:188-189 | the same for the walk of the children from index `i` on |
| `Collector.WalkNonEmpty` | gooberizer.py:122-189 | in a tree whose constructors and destructors belong to named classes, every recorded edit covers at least one character |
| `Edits.StableSort` | gooberizer.py:193 | `list.sort(key=...)`: the result is sorted by the key, is a permutation of the input, and keeps the input order among equal keys |
| `Edits.RangeKey` | gooberizer.py:193 | the first sort key: `(start, end)` |
| `Edits.DescendingStartKey` | gooberizer.py:208 | the second sort: by start with `reverse=True`, which for a stable sort is ascending on the negated start |
| `Edits.Kept` | gooberizer.py:193-205 | the candidates that survive: the sweep with `last_end = -1` of the candidates sorted by `(start, end)` |
| `Edits.Resolve` | gooberizer.py:193-208 | the kept edits, then stably sorted by start with `reverse=True` |
| `Edits.Sweep` | gooberizer.py:195-205 | the kept edits start at or after the bound, do not overlap, form a subsequence of the input, and include the first edit when it starts at or after the bound |
| `Edits.RemoveOverlaps` | gooberizer.py:195-205 | the loop with `last_end = -1` returns the sweep of the sorted edits |
| `Edits.KeptIsNonOverlappingSubsequence` | gooberizer.py:193-207 | the kept edits are a non-overlapping subsequence of the sorted candidates, drawn from the candidates, and include the leftmost one |
| `Edits.DroppedEditsOverlapKept` | gooberizer.py:199-205 | every candidate that is not kept starts inside the range of a kept edit |
| `Edits.SweepCoversFrom` | gooberizer.py:199-205 | in a sorted run, each candidate is kept, starts inside a kept edit, or starts before the initial bound |
| `Edits.SweepKeepsFirstOfKey` | gooberizer.py:199-205 | of several candidates with the same non-empty range, at most the first survives the sweep |
| `Edits.FirstAppendedDuplicateWins` | gooberizer.py:193-205 | among candidates with the same non-empty range, the kept one is the candidate appended first |
| `Edits.SpliceInOrder` | gooberizer.py:211-216 | the splicing loop returns the text with the edits spliced one after another in list order |
| `Edits.SpliceAll` | gooberizer.py:211-216 | each edit in list order replaces the clamped slice `text[start:end]` of the text built so far by its alias |
| `Edits.Splice` | gooberizer.py:211-216 | one splice: `text[:start] + alias + text[end:]`, with Python's clamped slices |
| `Edits.SpliceReversedRenders` | gooberizer.py:208-216 | splicing ascending non-overlapping edits last-first gives the reference rendering: no splice moves an edit still pending |
| `Edits.DescendingSortReverses` | gooberizer.py:208 | with strictly ascending starts, the stable sort by start with `reverse=True` is plain reversal |
| `Edits.NonEmptyNonOverlapping` | gooberizer.py:199-208 | non-overlapping edits that each cover a character have strictly ascending starts |
| `Edits.RewriteRendersKept` | gooberizer.py:191-216 | for non-empty in-bounds candidates, the kept edits lie in ascending order inside the text, and the rewritten text is the reference rendering of the kept edits |
| `Edits.EmptyEditTieSplicesOutOfOrder` | gooberizer.py:199-216 | an empty edit and a one-character edit at the same start are both kept and tie in the descending sort; the empty one is spliced first, and the later splice overwrites the start of its alias and leaves its own original spelling in place |
| `Edits.ReversedKeptRenders` | gooberizer.py:193-216 | splicing the kept edits in reverse of their `(start, end)` order gives the reference rendering for any in-bounds candidates, empty ones included |
| `Gooberizing.Gooberizer.constructor` | gooberizer.py:46-54 | the object starts with the given files, an empty alias map, the counter at 0 and no outputs |
| `Gooberizing.Rewrite` | gooberizer.py:191-216 | the text `_make_replacements` produces: the resolved edits spliced in order |
| `Gooberizing.ProcessFileSpec` | gooberizer.py:90-119 | an unparsable file changes nothing; otherwise the tree is walked from the shared map and counter with an empty edit list, and the second pass appends the rewritten text as the file's output |
| `Gooberizing.PassSpec` | gooberizer.py:66-77 | a pass processes the files in input order, each from the state the previous left |
| `Gooberizing.RunSpec` | gooberizer.py:66-79 | a run is a map-building pass followed by a rewriting pass from the state the first left |
| `Gooberizing.Gooberizer.Run` | gooberizer.py:66-79 | the object ends as `RunSpec` says: a map-building pass over all files, then a rewriting pass |
| `Gooberizing.Gooberizer.ProcessFile` | gooberizer.py:90-119 | an unparsable file changes nothing; otherwise the tree is walked with an empty edit list, and in the second pass the resolved rewrite is written out |
| `Gooberizing.Gooberizer.BuildReplacements` | gooberizer.py:122-189 | the map, counter and edit list end as `Walk` from their old values says; the text, file and outputs are untouched |
| `Gooberizing.Gooberizer.VisitNode` | gooberizer.py:130-185 | one node's renaming rules change the map, counter and edit list exactly as `Visit` says |
| `Gooberizing.Gooberizer.BuildChildren` | gooberizer.py:188-189 | the children are walked in order, as `WalkFrom` says |
| `Gooberizing.Gooberizer.AddReplacement` | gooberizer.py:231-249 | the edit list ends as `AddEdit` says; nothing else changes |
| `Gooberizing.Gooberizer.MakeReplacements` | gooberizer.py:191-216 | the edit list becomes the kept edits in descending start order (`Resolve`), and the text becomes them spliced in that order |
| `Gooberizing.Gooberizer.WriteFile` | gooberizer.py:219-225 | the current text is recorded as the output of the file |
| `Gooberizing.PassGrows` | gooberizer.py:66-77 | a pass only adds keys and never lowers the counter |
| `Gooberizing.PassSettled` | gooberizer.py:66-77 | a pass started from a map that holds every key an earlier pass over the same files ended with hands out no new alias |
| `Gooberizing.SecondPassAddsNoAlias` | gooberizer.py:66-77 | the counter after the run equals the counter after the first pass: all aliases are numbered by the first pass |
| `Gooberizing.PassKeepsConsistent` | gooberizer.py:66-77 | a pass keeps every alias below the counter |
| `Gooberizing.RunKeepsConsistent` | gooberizer.py:66-77 | the whole run keeps every alias below the counter |
| `Gooberizing.PassKeepsAliases` | gooberizer.py:66-77 | across a pass an alias stays unless some parsed file has a constructor or destructor with that USR |
| `Gooberizing.SecondPassKeepsAliases` | gooberizer.py:66-77 | a symbol that no constructor or destructor shares a USR with ends the run with the alias the first pass gave it |
| `Gooberizing.PassSplit` | gooberizer.py:66-77 | file `i` of a pass is processed from the state the files before it left, and the rest of the pass continues from its result |
| `Gooberizing.SecondPassEditsUseAliases` | gooberizer.py:66-119 | every file renames a symbol alike: each edit file `i` records in the second pass, for a USR the first pass named and no constructor or destructor of any input rebinds, carries the first pass's alias |
| `Gooberizing.PassKeepsDistinct` | gooberizer.py:66-77 | across a pass, two different USRs share an alias only if they already could or one of them is the USR of a constructor or destructor of some input |
| `Gooberizing.RunAliasesDistinct` | gooberizer.py:46-79 | after a run from an empty map, different USRs have different aliases unless one of them is a constructor's or destructor's, which shares its class's |
| `Gooberizing.PassOutputs` | gooberizer.py:66-77 | the first pass writes nothing; the second writes one output per parsed file, in input order |
| `Gooberizing.FileRewriteRendersKept` | gooberizer.py:109-119 | for a file whose classes are named, the kept edits lie in ascending non-overlapping order inside the text, each covers exactly its spelling, and the rewrite is the reference rendering |
| `Gooberizing.SecondPassWritesRender` | gooberizer.py:117-119 | in the second pass such a file is written out as the reference rendering of its text |

## Left out

- Running the compiler, reading files, the analyzer (parsing, tokens,
  USRs, diagnostics), the command line and glob expansion, creating and
  clearing the output directory, and `os.path.abspath`: these are I/O or
  foreign code. The analyzer's output for a file is a parameter
  (`Analysis`, whose tree is `None` when parsing fails). Paths are given
  already absolute. The diagnostic stream is given as its lines, and
  `splitlines` is not modelled. A missing `g++` is not modelled; the source
  then returns no arguments.
- Logging, the verbose tree dump and `_print_replacement_table` (with its
  re-sort of `current_replacements` by original name) only print. If no
  file parsed in the first pass, the second pass's table print fails on a
  missing attribute; the model does not capture this crash.
- The line and column fields of an edit are only printed, so edits carry
  start, alias, original spelling and USR, and the end is derived as
  `start + len(original)`.
- `Cursors.IsCppOperator`: the `\w` class is ASCII letters, digits and
  `_`, not Python's Unicode word characters.
- `Text.Strip`: the white-space set is restricted to Latin-1.
- A failure to list a cursor's tokens is modelled as a cursor with no
  tokens, which falls back to the cursor's own offset exactly as the
  exception handler does.
- A semantic parent of `None` for a constructor or destructor is not
  modelled: every cursor has a parent.
- `Gooberizing.FileRewriteRendersKept`: assumes every constructor and
  destructor belongs to a class with a non-empty name. An edit of an
  unnamed class is zero-length, the stable descending sort can splice it
  before an edit that starts at the same place, and then the output no
  longer equals the reference rendering: the later splice overwrites the
  start of the empty edit's alias (see "## Findings").
  `MakeReplacements` models that case exactly as written; only the
  rendering theorem excludes it.
- Writing the output file is recorded as an `Output` of the original path.
  The file name under the output directory, the write itself and its error
  report are not modelled.
- Python's recursion limit is not modelled: `_build_replacements` recurses
  once per tree level, so a tree some thousand levels deep (a long
  `else if` chain, a long chain of binary operators) raises
  `RecursionError` and ends the run. `Collector.Walk` has no depth bound
  and does not capture this crash.

## Findings

| source | as written | input that shows it | evidently intended | confidence | as-written member | corrected member |
|---|---|---|---|---|---|---|
| gooberizer.py:199-216 | the overlap sweep keeps an empty edit and an edit starting where it ends, and the stable sort by start with `reverse=True` keeps them in ascending order, so the empty one is spliced first; the later splice then overwrites the start of the empty edit's alias and leaves its own original spelling in place | text `abcd`, edits `(1, "E", "b")` and `(1, "ZZ", "")` appended in that order: the output is `aEZbcd`, which keeps the original `b` and cuts the alias `ZZ` to `Z`; the reference rendering is `aZZEcd` | each kept range replaced by its alias, in text order, as splicing in reverse of the `(start, end)` order does | low, not executed: an empty edit only arises from a constructor or destructor of an unnamed class, which may never reach this code | `Edits.EmptyEditTieSplicesOutOfOrder` | `Edits.ReversedKeptRenders` |
