/** The part of the analyzer's syntax tree the renamer consumes, the
    renamability classifier, and the offset locator. The analyzer itself
    (parsing, token extraction, USR computation) is outside the model: a tree
    is given as a value. */
module Cursors {
  import opened Text

  /** Cursor kinds the renamer distinguishes; every other kind is `OtherKind`. */
  datatype Kind =
    | VarDecl | ParmDecl | FunctionDecl | ClassDecl | StructDecl | EnumDecl
    | EnumConstantDecl | CxxMethod | FieldDecl | TypedefDecl | TypeAliasDecl
    | DeclRefExpr | MemberRefExpr | MemberRef | TypeRef | CallExpr
    | OverloadedDeclRef | CxxCtorInitializer
    | Constructor | Destructor | TranslationUnit | LinkageSpec
    | OtherKind(name: string)

  /** One lexical token of a cursor's extent, with its exact file offset. */
  datatype Token = Token(spelling: string, offset: nat)

  /** What the renamer reads of a cursor's semantic parent. */
  datatype Parent = Parent(kind: Kind, usr: string, spelling: string)

  /** A cursor without its children. `file` is `None` for cursors with no
      source location (built-ins, the translation unit); paths are already
      absolute. A cursor whose tokens cannot be produced has none. */
  datatype Cursor = Cursor(
    kind: Kind,
    spelling: string,
    file: Option<string>,
    offset: nat,
    usr: string,
    tokens: seq<Token>,
    isVirtual: bool,
    parent: Parent)

  /** A node of the tree: its cursor, the cursor it refers to (`None` when the
      analyzer resolves none) and its children in source order. */
  datatype Node = Node(cursor: Cursor, referenced: Option<Cursor>, children: seq<Node>)

  // ------------------------------------------------------------ classifier

  predicate IsDeclaration(k: Kind)
  {
    k in {VarDecl, ParmDecl, FunctionDecl, ClassDecl, StructDecl, EnumDecl,
          EnumConstantDecl, CxxMethod, FieldDecl, TypedefDecl, TypeAliasDecl}
  }

  predicate IsReference(k: Kind)
  {
    k in {DeclRefExpr, MemberRefExpr, MemberRef, TypeRef, CallExpr,
          OverloadedDeclRef, CxxCtorInitializer}
  }

  /** The branches of the collector are exclusive: no kind is both a
      declaration and a reference, and constructors and destructors are
      neither. */
  lemma KindClassesDisjoint(k: Kind)
    ensures !(IsDeclaration(k) && IsReference(k))
    ensures (k == Constructor || k == Destructor) ==> !IsDeclaration(k) && !IsReference(k)
  {
  }

  /** The cursor lies in one of the input files. */
  predicate CheckUserCode(c: Cursor, files: seq<string>)
  {
    c.file.Some? && c.file.value in files
  }

  /** The program's `main`, declared at namespace scope or in `extern "C"`. */
  predicate IsEntryPoint(c: Cursor)
  {
    c.spelling == "main" && (c.parent.kind == TranslationUnit || c.parent.kind == LinkageSpec)
  }

  /** ASCII approximation of the regular-expression class `\w`. */
  predicate IsWordChar(ch: char)
  {
    ('a' <= ch <= 'z') || ('A' <= ch <= 'Z') || ('0' <= ch <= '9') || ch == '_'
  }

  /** `re.match(r'^operator\W', name)`: `operator` followed by a non-word character. */
  predicate IsCppOperator(name: string)
  {
    |name| > 8 && name[..8] == "operator" && !IsWordChar(name[8])
  }

  /** `_can_be_renamed`: the cursor exists, is user code, and is neither the
      entry point, an operator, unnamed, nor a virtual method. */
  predicate CanBeRenamed(oc: Option<Cursor>, files: seq<string>)
  {
    if oc.None? then false
    else
      var c := oc.value;
      if c.file.None? then false
      else if !CheckUserCode(c, files) then false
      else if IsEntryPoint(c) then false
      else if IsCppOperator(c.spelling) then false
      else if c.spelling == "" then false
      else if c.kind == CxxMethod && c.isVirtual then false
      else true
  }

  /** Each rejection rule on its own makes a cursor non-renamable, and a
      cursor passing all of them is renamable. */
  lemma NotRenamableCases(oc: Option<Cursor>, files: seq<string>)
    ensures oc.None? ==> !CanBeRenamed(oc, files)
    ensures oc.Some? && oc.value.file.None? ==> !CanBeRenamed(oc, files)
    ensures oc.Some? && oc.value.file.Some? && oc.value.file.value !in files ==> !CanBeRenamed(oc, files)
    ensures oc.Some? && IsEntryPoint(oc.value) ==> !CanBeRenamed(oc, files)
    ensures oc.Some? && IsCppOperator(oc.value.spelling) ==> !CanBeRenamed(oc, files)
    ensures oc.Some? && oc.value.spelling == "" ==> !CanBeRenamed(oc, files)
    ensures oc.Some? && oc.value.kind == CxxMethod && oc.value.isVirtual ==> !CanBeRenamed(oc, files)
    ensures CanBeRenamed(oc, files) <==>
              oc.Some? && CheckUserCode(oc.value, files) && !IsEntryPoint(oc.value)
              && !IsCppOperator(oc.value.spelling) && oc.value.spelling != ""
              && !(oc.value.kind == CxxMethod && oc.value.isVirtual)
  {
  }

  /** A renamable cursor always passes the user-code test, so the reference
      branch that assigns a fresh alias only when the target is user code
      never falls through. */
  lemma RenamableIsUserCode(oc: Option<Cursor>, files: seq<string>)
    requires CanBeRenamed(oc, files)
    ensures CheckUserCode(oc.value, files)
    ensures oc.value.spelling != ""
  {
  }

  /** Only the spellings `operator<non-word>...` are operators: `operator`,
      `operators` and `operator_id` are not, `operator+=` and `operator()` are. */
  lemma OperatorExamples()
    ensures IsCppOperator("operator+=") && IsCppOperator("operator()")
    ensures !IsCppOperator("operator") && !IsCppOperator("operators") && !IsCppOperator("operator_id")
  {
    assert "operator+="[..8] == "operator";
    assert "operator()"[..8] == "operator";
  }

  // ------------------------------------------------------------ offset locator

  /** The index of the first token spelled `name`, if any. */
  function FirstMatch(tokens: seq<Token>, name: string): (r: Option<nat>)
    ensures r.Some? ==> r.value < |tokens| && tokens[r.value].spelling == name
                        && forall j :: 0 <= j < r.value ==> tokens[j].spelling != name
    ensures r.None? ==> forall j :: 0 <= j < |tokens| ==> tokens[j].spelling != name
  {
    if tokens == [] then None
    else if tokens[0].spelling == name then Some(0)
    else
      match FirstMatch(tokens[1..], name)
      case None => None
      case Some(i) => Some(i + 1)
  }

  /** `_get_accurate_offset`: the offset of the first token of the cursor
      spelled `name`, or the cursor's own offset when no token matches. */
  function AccurateOffset(c: Cursor, name: string): nat
  {
    match FirstMatch(c.tokens, name)
    case Some(i) => c.tokens[i].offset
    case None => c.offset
  }

  /** The search loop of `_get_accurate_offset`. */
  method GetAccurateOffset(c: Cursor, expectedName: string) returns (offset: nat)
    ensures offset == AccurateOffset(c, expectedName)
    ensures (exists i :: 0 <= i < |c.tokens| && c.tokens[i].spelling == expectedName
                          && offset == c.tokens[i].offset
                          && forall j :: 0 <= j < i ==> c.tokens[j].spelling != expectedName)
            || ((forall j :: 0 <= j < |c.tokens| ==> c.tokens[j].spelling != expectedName)
                && offset == c.offset)
  {
    var i := 0;
    while i < |c.tokens|
      invariant 0 <= i <= |c.tokens|
      invariant forall j :: 0 <= j < i ==> c.tokens[j].spelling != expectedName
    {
      if c.tokens[i].spelling == expectedName {
        FirstMatchIsFirst(c.tokens, expectedName, i);
        return c.tokens[i].offset;
      }
      i := i + 1;
    }
    return c.offset;
  }

  /** A token spelled `name` with no such token before it is the first match. */
  lemma FirstMatchIsFirst(tokens: seq<Token>, name: string, i: nat)
    requires i < |tokens| && tokens[i].spelling == name
    requires forall j :: 0 <= j < i ==> tokens[j].spelling != name
    ensures FirstMatch(tokens, name) == Some(i)
  {
  }
}
