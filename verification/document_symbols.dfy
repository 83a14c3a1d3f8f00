/** `get_document_symbols`: the flat outline of one file, built by filtering
    the symbol table to the symbols defined in that file that have a span and
    mapping each to an outline entry. */
module DocumentSymbols {
  import opened Wrappers
  import opened Symbols

  /** The outline kinds the server uses. */
  datatype OutlineKind = Namespace | Class | Property | Variable

  /** An editor range; `span_to_lsp_range` is not part of this model and is
      passed in as a function. */
  datatype LspRange = LspRange(startLine: nat, startCharacter: nat, endLine: nat, endCharacter: nat)

  datatype DocumentSymbol = DocumentSymbol(
    name: string,
    detail: Option<string>,
    kind: OutlineKind,
    range: LspRange,
    selectionRange: LspRange,
    children: Option<seq<DocumentSymbol>>)

  /** Variant to outline kind. */
  function KindOf(v: SymbolVariant): OutlineKind
  {
    match v
    case Package => Namespace
    case Classifier => Class
    case Definition => Class
    case Feature => Property
    case Usage => Property
    case Alias => Variable
  }

  /** Each outline kind stands for exactly the variants listed. */
  lemma KindOfClassifies(v: SymbolVariant)
    ensures KindOf(v) == Namespace <==> v == Package
    ensures KindOf(v) == Class <==> (v == Classifier || v == Definition)
    ensures KindOf(v) == Property <==> (v == Feature || v == Usage)
    ensures KindOf(v) == Variable <==> v == Alias
  {
  }

  /** The string the file path is compared with: a path that is not valid
      UTF-8 (`None`) compares as the empty string. */
  function PathText(path: Option<string>): string
  {
    path.GetOr("")
  }

  /** Whether the outline of `path` shows `s`. */
  predicate Shown(s: Symbol, path: Option<string>)
  {
    s.sourceFile == Some(PathText(path)) && s.span.Some?
  }

  function ToDocumentSymbol(s: Symbol, toRange: Span -> LspRange): (d: DocumentSymbol)
    requires s.span.Some?
  {
    var range := toRange(s.span.value);
    DocumentSymbol(s.name, Some(s.qualifiedName), KindOf(s.variant), range, range, None)
  }

  /** The positions, in increasing order, of the entries the outline shows. */
  function ShownIndices(table: SymbolTable, path: Option<string>): (idx: seq<nat>)
    ensures forall k :: 0 <= k < |idx| ==> idx[k] < |table| && Shown(table[idx[k]].symbol, path)
    ensures forall k, l :: 0 <= k < l < |idx| ==> idx[k] < idx[l]
    ensures forall i :: 0 <= i < |table| && Shown(table[i].symbol, path) ==> i in idx
    decreases |table|
  {
    if table == [] then []
    else
      var n := |table| - 1;
      var front := ShownIndices(table[..n], path);
      assert forall k :: 0 <= k < |front| ==> table[..n][front[k]] == table[front[k]];
      if Shown(table[n].symbol, path) then front + [n] else front
  }

  lemma ShownIndicesSnoc(table: SymbolTable, path: Option<string>, i: nat)
    requires i < |table|
    ensures ShownIndices(table[..i + 1], path)
         == ShownIndices(table[..i], path) + (if Shown(table[i].symbol, path) then [i] else [])
  {
    assert table[..i + 1][..i] == table[..i];
  }

  /** `get_document_symbols`: one outline entry per shown symbol, in table
      order. */
  method GetDocumentSymbols(table: SymbolTable, path: Option<string>, toRange: Span -> LspRange)
    returns (symbols: seq<DocumentSymbol>)
    ensures var idx := ShownIndices(table, path);
      && |symbols| == |idx|
      && forall k :: 0 <= k < |idx| ==> symbols[k] == ToDocumentSymbol(table[idx[k]].symbol, toRange)
  {
    symbols := [];
    var i := 0;
    while i < |table|
      invariant i <= |table|
      invariant var idx := ShownIndices(table[..i], path);
        && |symbols| == |idx|
        && forall k :: 0 <= k < |idx| ==> symbols[k] == ToDocumentSymbol(table[idx[k]].symbol, toRange)
    {
      var symbol := table[i].symbol;
      ShownIndicesSnoc(table, path, i);
      if symbol.sourceFile != Some(PathText(path)) {
        i := i + 1;
        continue;
      }
      if symbol.span.Some? {
        symbols := symbols + [ToDocumentSymbol(symbol, toRange)];
      }
      i := i + 1;
    }
    assert table[..|table|] == table;
  }

  /** Every outline entry comes from a shown symbol, with the symbol's own
      name, its qualified name as detail, the kind of its variant, equal
      range and selection range, and no children. */
  lemma OutlineEntriesDescribeShownSymbols(table: SymbolTable, path: Option<string>,
                                           toRange: Span -> LspRange, symbols: seq<DocumentSymbol>, k: nat)
    requires var idx := ShownIndices(table, path);
      && |symbols| == |idx|
      && forall k :: 0 <= k < |idx| ==> symbols[k] == ToDocumentSymbol(table[idx[k]].symbol, toRange)
    requires k < |symbols|
    ensures exists i :: (
      && 0 <= i < |table|
      && table[i].symbol.sourceFile == Some(PathText(path))
      && table[i].symbol.span.Some?
      && symbols[k].name == table[i].symbol.name
      && symbols[k].detail == Some(table[i].symbol.qualifiedName)
      && symbols[k].kind == KindOf(table[i].symbol.variant)
      && symbols[k].range == toRange(table[i].symbol.span.value))
    ensures symbols[k].selectionRange == symbols[k].range && symbols[k].children.None?
  {
    var i := ShownIndices(table, path)[k];
    assert Shown(table[i].symbol, path);
  }

  /** Symbols of another file, and symbols without a span, are never shown;
      every other symbol is shown exactly once. */
  lemma ShownExactlyOnce(table: SymbolTable, path: Option<string>, i: nat)
    requires i < |table|
    ensures var idx := ShownIndices(table, path);
      && (i in idx <==> table[i].symbol.sourceFile == Some(PathText(path)) && table[i].symbol.span.Some?)
      && forall k, l :: 0 <= k < l < |idx| ==> idx[k] != idx[l]
  {
  }

  /** A path that is not valid UTF-8 shows exactly the symbols whose source
      file is recorded as the empty string. */
  lemma NonUtf8PathMatchesEmptyName(s: Symbol)
    ensures Shown(s, None) <==> s.sourceFile == Some("") && s.span.Some?
  {
  }
}
