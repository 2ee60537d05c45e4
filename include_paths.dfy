/** The scan of `g++ -E -x c++ - -v` diagnostics that turns the compiler's
    system include directories into `-I` arguments for the analyzer. Running
    the compiler is outside the model: the scan takes the lines of its error
    stream. */
module IncludePaths {
  import opened Text

  const StartMarker := "#include <...> search starts here:"
  const EndMarker := "End of search list."

  predicate Opens(line: string) { Contains(line, StartMarker) }

  /** A line that ends the section: it holds the end marker and, since the
      start marker is tested first, not the start marker. */
  predicate Closes(line: string) { !Opens(line) && Contains(line, EndMarker) }

  /** The value of the in-section flag once the first `k` lines are read. */
  function InSection(lines: seq<string>, k: nat): bool
    requires k <= |lines|
  {
    if k == 0 then false
    else if Opens(lines[k - 1]) then true
    else if Closes(lines[k - 1]) then false
    else InSection(lines, k - 1)
  }

  /** Line `i` becomes an include argument: it is no marker line and the
      flag is set when it is read. */
  predicate Emitted(lines: seq<string>, i: nat)
    requires i < |lines|
  {
    !Opens(lines[i]) && !Contains(lines[i], EndMarker) && InSection(lines, i)
  }

  function IncludeArg(line: string): string { "-I" + Strip(line) }

  /** The arguments the scan has produced after reading the first `k` lines. */
  function ScanPrefix(lines: seq<string>, k: nat): seq<string>
    requires k <= |lines|
  {
    if k == 0 then []
    else ScanPrefix(lines, k - 1) + (if Emitted(lines, k - 1) then [IncludeArg(lines[k - 1])] else [])
  }

  /** The loop of `get_system_include_paths` over the error stream's lines. */
  method SystemIncludeArgs(lines: seq<string>) returns (paths: seq<string>)
    ensures paths == ScanPrefix(lines, |lines|)
  {
    paths := [];
    var isIncludeSection := false;
    var i := 0;
    while i < |lines|
      invariant 0 <= i <= |lines|
      invariant isIncludeSection == InSection(lines, i)
      invariant paths == ScanPrefix(lines, i)
    {
      var line := lines[i];
      if Contains(line, StartMarker) {
        isIncludeSection := true;
      } else if Contains(line, EndMarker) {
        isIncludeSection := false;
      } else if isIncludeSection {
        paths := paths + ["-I" + Strip(line)];
      }
      i := i + 1;
    }
  }

  /** Line `j` opened the section and no line before line `k` closed it. */
  predicate OpenSince(lines: seq<string>, j: int, k: nat)
    requires k <= |lines|
  {
    0 <= j < k && Opens(lines[j]) && forall m :: j < m < k ==> !Closes(lines[m])
  }

  /** The flag is set before line `k` exactly when some earlier line opened
      the section and no line since has closed it. */
  lemma {:induction false} InSectionIff(lines: seq<string>, k: nat)
    requires k <= |lines|
    ensures InSection(lines, k) <==> exists j :: OpenSince(lines, j, k)
  {
    if k > 0 {
      var prev := k - 1;
      InSectionIff(lines, prev);
      if Opens(lines[k - 1]) {
        assert OpenSince(lines, k - 1, k);
      } else if !Closes(lines[k - 1]) {
        if exists j :: OpenSince(lines, j, k) {
          var j :| OpenSince(lines, j, k);
          assert OpenSince(lines, j, prev);
        }
        if exists j :: OpenSince(lines, j, prev) {
          var j :| OpenSince(lines, j, prev);
          assert OpenSince(lines, j, k);
        }
      }
    }
  }

  /** The scan yields, in order, one argument per emitted line and nothing
      else: every output is `-I` plus a stripped line that lies strictly inside
      an include section and is no marker line. */
  lemma {:induction false} ScanMembers(lines: seq<string>, k: nat)
    requires k <= |lines|
    ensures |ScanPrefix(lines, k)| <= k
    ensures forall p :: p in ScanPrefix(lines, k) <==>
              exists i :: 0 <= i < k && Emitted(lines, i) && p == IncludeArg(lines[i])
  {
    if k > 0 {
      ScanMembers(lines, k - 1);
    }
  }

  /** Marker lines never produce an argument, and every line strictly between
      an opening line and the next closing line does. */
  lemma EmittedBetweenMarkers(lines: seq<string>, j: nat, i: nat)
    requires j < i < |lines|
    requires OpenSince(lines, j, i)
    requires !Opens(lines[i]) && !Contains(lines[i], EndMarker)
    ensures Emitted(lines, i)
    ensures IncludeArg(lines[i]) in ScanPrefix(lines, |lines|)
  {
    InSectionIff(lines, i);
    ScanMembers(lines, |lines|);
  }
}
