/** The semantic snapshot the reference collector and the outline read: the
    symbol table as an ordered sequence of (key, symbol) entries in
    `all_symbols` order, and the relationship graph as two partial maps keyed
    by (relation kind, source qualified name). */
module Symbols {
  import opened Wrappers

  /** A source range; its line/column arithmetic lives outside the core. */
  datatype Span = Span(startLine: nat, startColumn: nat, endLine: nat, endColumn: nat)

  /** One place that refers to a symbol. */
  datatype SymbolReference = SymbolReference(file: string, span: Span)

  /** The symbol variants the outline distinguishes. */
  datatype SymbolVariant = Package | Classifier | Definition | Feature | Usage | Alias

  /** Attributes common to every variant; `references` is only ever appended
      to, by the reference collector. */
  datatype Symbol = Symbol(
    variant: SymbolVariant,
    name: string,
    qualifiedName: string,
    span: Option<Span>,
    sourceFile: Option<string>,
    references: seq<SymbolReference>)

  datatype Entry = Entry(key: string, symbol: Symbol)

  /** `all_symbols()`: the entries in iteration order. */
  type SymbolTable = seq<Entry>

  /** Relation kinds; `OtherKind` stands for the extensible remainder. */
  datatype RelationKind =
    | Typing
    | Specialization
    | Redefinition
    | Subsetting
    | ReferenceSubsetting
    | OtherKind(tag: string)

  /** One-to-one edges (at most one target per kind and source) and
      one-to-many edges (an ordered target list, duplicates kept). Targets are
      names as written and need not exist in the symbol table. */
  datatype RelationshipGraph = RelationshipGraph(
    oneToOne: map<(RelationKind, string), string>,
    oneToMany: map<(RelationKind, string), seq<string>>)

  function GetOneToOne(graph: RelationshipGraph, kind: RelationKind, source: string): Option<string>
  {
    if (kind, source) in graph.oneToOne then Some(graph.oneToOne[(kind, source)]) else None
  }

  function GetOneToMany(graph: RelationshipGraph, kind: RelationKind, source: string): Option<seq<string>>
  {
    if (kind, source) in graph.oneToMany then Some(graph.oneToMany[(kind, source)]) else None
  }

  /** The table's entries agree on keys and symbols except for `references`,
      and every reference list of `t` extends the one in `s`. */
  predicate OnlyReferencesGrow(s: SymbolTable, t: SymbolTable)
  {
    && |s| == |t|
    && forall i :: 0 <= i < |s| ==>
         && t[i].key == s[i].key
         && t[i].symbol.(references := s[i].symbol.references) == s[i].symbol
         && s[i].symbol.references <= t[i].symbol.references
  }

  /** An entry the name `target` designates: by key, or by unqualified name. */
  predicate Designates(e: Entry, target: string)
  {
    e.key == target || e.symbol.name == target
  }

  /** The resolution rule: the first entry, in table order, whose key or
      unqualified name equals `target`. */
  function FindByKeyOrName(table: SymbolTable, target: string): (r: Option<nat>)
    ensures r.Some? ==> r.value < |table| && Designates(table[r.value], target)
    ensures r.Some? ==> forall j :: 0 <= j < r.value ==> !Designates(table[j], target)
    ensures r.None? ==> forall j :: 0 <= j < |table| ==> !Designates(table[j], target)
    decreases |table|
  {
    if table == [] then None
    else if Designates(table[0], target) then Some(0)
    else match FindByKeyOrName(table[1..], target)
      case None => None
      case Some(i) => Some(i + 1)
  }

  /** `lookup_global_mut`: the first entry whose key is exactly `key`. */
  function LookupKey(table: SymbolTable, key: string): (r: Option<nat>)
    ensures r.Some? ==> r.value < |table| && table[r.value].key == key
    ensures r.Some? ==> forall j :: 0 <= j < r.value ==> table[j].key != key
    ensures r.None? ==> forall j :: 0 <= j < |table| ==> table[j].key != key
    decreases |table|
  {
    if table == [] then None
    else if table[0].key == key then Some(0)
    else match LookupKey(table[1..], key)
      case None => None
      case Some(i) => Some(i + 1)
  }

  /** Where the collector files references for `target`: resolve the name to
      a key, then look that key up again. */
  function ResolveTarget(table: SymbolTable, target: string): (r: Option<nat>)
    ensures r.Some? <==> FindByKeyOrName(table, target).Some?
    ensures r.Some? ==> r.value < |table| && r.value <= FindByKeyOrName(table, target).value
    ensures r.Some? ==> table[r.value].key == table[FindByKeyOrName(table, target).value].key
  {
    match FindByKeyOrName(table, target)
    case None => None
    case Some(i) => LookupKey(table, table[i].key)
  }

  /** With unique keys the second lookup lands on the entry the name resolved
      to. */
  lemma ResolveTargetUniqueKeys(table: SymbolTable, target: string)
    requires forall i, j :: 0 <= i < j < |table| ==> table[i].key != table[j].key
    ensures ResolveTarget(table, target) == FindByKeyOrName(table, target)
  {
  }

  /** Resolution reads only keys and names, so growing reference lists does
      not change where a name resolves. */
  lemma {:induction false} ResolveIgnoresReferences(s: SymbolTable, t: SymbolTable, target: string)
    requires OnlyReferencesGrow(s, t)
    ensures FindByKeyOrName(s, target) == FindByKeyOrName(t, target)
    ensures ResolveTarget(s, target) == ResolveTarget(t, target)
  {
    SameKeysSameFind(s, t, target);
    match FindByKeyOrName(s, target)
    case None =>
    case Some(i) =>
      SameKeysSameLookup(s, t, s[i].key);
  }

  lemma {:induction false} SameKeysSameFind(s: SymbolTable, t: SymbolTable, target: string)
    requires OnlyReferencesGrow(s, t)
    ensures FindByKeyOrName(s, target) == FindByKeyOrName(t, target)
    decreases |s|
  {
    if s != [] {
      assert t[0].symbol.name == s[0].symbol.name by {
        assert t[0].symbol.(references := s[0].symbol.references) == s[0].symbol;
      }
      assert OnlyReferencesGrow(s[1..], t[1..]) by {
        forall i | 0 <= i < |s[1..]|
          ensures t[1..][i].key == s[1..][i].key
          ensures t[1..][i].symbol.(references := s[1..][i].symbol.references) == s[1..][i].symbol
          ensures s[1..][i].symbol.references <= t[1..][i].symbol.references
        {
          assert s[1..][i] == s[i + 1] && t[1..][i] == t[i + 1];
        }
      }
      SameKeysSameFind(s[1..], t[1..], target);
    }
  }

  lemma {:induction false} SameKeysSameLookup(s: SymbolTable, t: SymbolTable, key: string)
    requires OnlyReferencesGrow(s, t)
    ensures LookupKey(s, key) == LookupKey(t, key)
    decreases |s|
  {
    if s != [] {
      assert OnlyReferencesGrow(s[1..], t[1..]) by {
        forall i | 0 <= i < |s[1..]|
          ensures t[1..][i].key == s[1..][i].key
          ensures t[1..][i].symbol.(references := s[1..][i].symbol.references) == s[1..][i].symbol
          ensures s[1..][i].symbol.references <= t[1..][i].symbol.references
        {
          assert s[1..][i] == s[i + 1] && t[1..][i] == t[i + 1];
        }
      }
      SameKeysSameLookup(s[1..], t[1..], key);
    }
  }
}
