/** The one-shot "find references" pass. For every symbol with both a span
    and a source file it gathers the symbol's relationship targets, groups one
    `{file, span}` reference per target occurrence by target name, then files
    each group under the symbol the name resolves to. The grouping is a hash
    map, so the order groups are filed in is left open and the result for each
    symbol is stated as a multiset. */
module ReferenceCollector {
  import opened Wrappers
  import opened Symbols

  /** The one-to-many kinds, in the order targets are gathered. */
  const ManyKinds: seq<RelationKind> := [Specialization, Redefinition, Subsetting, ReferenceSubsetting]

  /** The stored one-to-many targets of `kind`, empty when none are stored. */
  function Stored(graph: RelationshipGraph, kind: RelationKind, source: string): seq<string>
  {
    GetOneToMany(graph, kind, source).GetOr([])
  }

  function ManyTargets(graph: RelationshipGraph, source: string, kinds: seq<RelationKind>): seq<string>
    decreases |kinds|
  {
    if kinds == [] then [] else Stored(graph, kinds[0], source) + ManyTargets(graph, source, kinds[1..])
  }

  /** Every relationship target of `source`, in gathering order. */
  function GetAllTargets(graph: RelationshipGraph, source: string): seq<string>
  {
    var typing := match GetOneToOne(graph, Typing, source) case Some(t) => [t] case None => [];
    typing + ManyTargets(graph, source, ManyKinds)
  }

  /** How often `t` is stored under `source` across the kinds `kinds`. */
  function StoredCount(graph: RelationshipGraph, source: string, kinds: seq<RelationKind>, t: string): nat
    decreases |kinds|
  {
    if kinds == [] then 0
    else multiset(Stored(graph, kinds[0], source))[t] + StoredCount(graph, source, kinds[1..], t)
  }

  /** Gathering the targets of several kinds keeps every stored occurrence. */
  lemma {:induction false} ManyTargetsCount(graph: RelationshipGraph, source: string,
                                            kinds: seq<RelationKind>, t: string)
    ensures multiset(ManyTargets(graph, source, kinds))[t] == StoredCount(graph, source, kinds, t)
    decreases |kinds|
  {
    if kinds != [] {
      ManyTargetsCount(graph, source, kinds[1..], t);
    }
  }

  /** Each name occurs in `GetAllTargets` exactly as often as it is stored:
      once if it is the typing target, plus its multiplicity under each of the
      four one-to-many kinds, duplicates kept; so a name is a target iff one of
      the five relations links `source` to it. */
  lemma GetAllTargetsCounts(graph: RelationshipGraph, source: string, t: string)
    ensures multiset(GetAllTargets(graph, source))[t]
         == (if GetOneToOne(graph, Typing, source) == Some(t) then 1 else 0)
            + multiset(Stored(graph, Specialization, source))[t]
            + multiset(Stored(graph, Redefinition, source))[t]
            + multiset(Stored(graph, Subsetting, source))[t]
            + multiset(Stored(graph, ReferenceSubsetting, source))[t]
    ensures t in GetAllTargets(graph, source)
        <==> GetOneToOne(graph, Typing, source) == Some(t)
             || t in Stored(graph, Specialization, source) || t in Stored(graph, Redefinition, source)
             || t in Stored(graph, Subsetting, source) || t in Stored(graph, ReferenceSubsetting, source)
  {
    ManyTargetsCount(graph, source, ManyKinds, t);
    assert ManyKinds[1..][1..][1..][1..] == [];
    var typing := match GetOneToOne(graph, Typing, source) case Some(t) => [t] case None => [];
    assert multiset(typing)[t] == (if GetOneToOne(graph, Typing, source) == Some(t) then 1 else 0);
  }


  /** Only symbols with both a span and a source file refer to anything. */
  predicate Contributes(e: Entry)
  {
    e.symbol.span.Some? && e.symbol.sourceFile.Some?
  }

  function RefOf(e: Entry): SymbolReference
    requires Contributes(e)
  {
    SymbolReference(e.symbol.sourceFile.value, e.symbol.span.value)
  }

  function TargetsOf(graph: RelationshipGraph, e: Entry): seq<string>
  {
    GetAllTargets(graph, e.symbol.qualifiedName)
  }

  function Repeat<T>(x: T, n: nat): (r: seq<T>)
    ensures |r| == n && forall k :: 0 <= k < n ==> r[k] == x
    decreases n
  {
    if n == 0 then [] else Repeat(x, n - 1) + [x]
  }

  // ---------------------------------------------------------------------------
  // Grouping by target name
  // ---------------------------------------------------------------------------

  /** The references entry `e` records against the name `t`: one per
      occurrence of `t` among its targets, none when it does not contribute. */
  function Contribution(graph: RelationshipGraph, e: Entry, t: string): seq<SymbolReference>
  {
    if Contributes(e) then Repeat(RefOf(e), multiset(TargetsOf(graph, e))[t]) else []
  }

  /** The references `entries` record against the name `t`: in entry order,
      one per occurrence of `t` among a contributing entry's targets. */
  function RefsFor(entries: SymbolTable, graph: RelationshipGraph, t: string): seq<SymbolReference>
    decreases |entries|
  {
    if entries == [] then []
    else
      var e := entries[|entries| - 1];
      RefsFor(entries[..|entries| - 1], graph, t)
      + Contribution(graph, e, t)
  }

  function Get(refs: map<string, seq<SymbolReference>>, t: string): seq<SymbolReference>
  {
    if t in refs then refs[t] else []
  }

  lemma CountSnoc(targets: seq<string>, k: nat, t: string)
    requires k < |targets|
    ensures multiset(targets[..k + 1])[t] == multiset(targets[..k])[t] + (if t == targets[k] then 1 else 0)
  {
    assert targets[..k + 1] == targets[..k] + [targets[k]];
  }

  lemma PushStep(refs: map<string, seq<SymbolReference>>, prev: map<string, seq<SymbolReference>>,
                 reference: SymbolReference, targets: seq<string>, k: nat, t: string)
    requires k < |targets|
    requires Get(prev, t) == Get(refs, t) + Repeat(reference, multiset(targets[..k])[t])
    ensures Get(prev[targets[k] := Get(prev, targets[k]) + [reference]], t)
         == Get(refs, t) + Repeat(reference, multiset(targets[..k + 1])[t])
  {
    CountSnoc(targets, k, t);
    var n := multiset(targets[..k])[t];
    if t == targets[k] {
      assert Repeat(reference, n + 1) == Repeat(reference, n) + [reference];
    } else {
      assert Get(prev[targets[k] := Get(prev, targets[k]) + [reference]], t) == Get(prev, t);
    }
  }

  lemma PushOne(refs: map<string, seq<SymbolReference>>, prev: map<string, seq<SymbolReference>>,
                next: map<string, seq<SymbolReference>>, reference: SymbolReference, targets: seq<string>, k: nat)
    requires k < |targets| && next == prev[targets[k] := Get(prev, targets[k]) + [reference]]
    requires forall t :: t in prev <==> t in refs || t in targets[..k]
    requires forall t :: Get(prev, t) == Get(refs, t) + Repeat(reference, multiset(targets[..k])[t])
    ensures forall t :: t in next <==> t in refs || t in targets[..k + 1]
    ensures forall t :: Get(next, t) == Get(refs, t) + Repeat(reference, multiset(targets[..k + 1])[t])
  {
    assert targets[..k + 1] == targets[..k] + [targets[k]];
    forall t
      ensures Get(next, t) == Get(refs, t) + Repeat(reference, multiset(targets[..k + 1])[t])
    {
      PushStep(refs, prev, reference, targets, k, t);
    }
  }

  /** Pushes `reference` onto the group of every name in `targets`. */
  method PushReferences(refs: map<string, seq<SymbolReference>>, reference: SymbolReference,
                        targets: seq<string>)
    returns (refs': map<string, seq<SymbolReference>>)
    ensures forall t :: t in refs' <==> t in refs || t in targets
    ensures forall t :: Get(refs', t) == Get(refs, t) + Repeat(reference, multiset(targets)[t])
  {
    refs' := refs;
    var k := 0;
    while k < |targets|
      invariant 0 <= k <= |targets|
      invariant forall t :: t in refs' <==> t in refs || t in targets[..k]
      invariant forall t :: Get(refs', t) == Get(refs, t) + Repeat(reference, multiset(targets[..k])[t])
    {
      var x := targets[k];
      ghost var prev := refs';
      refs' := refs'[x := Get(refs', x) + [reference]];
      PushOne(refs, prev, refs', reference, targets, k);
      k := k + 1;
    }
    assert targets[..k] == targets;
  }

  lemma PushedNonEmpty(refs: map<string, seq<SymbolReference>>, refs': map<string, seq<SymbolReference>>,
                       reference: SymbolReference, targets: seq<string>, t: string)
    requires t in refs' && (t in refs ==> refs[t] != [])
    requires t in refs' <==> t in refs || t in targets
    requires Get(refs', t) == Get(refs, t) + Repeat(reference, multiset(targets)[t])
    ensures refs'[t] != []
  {
    if t !in refs {
      assert t in multiset(targets);
    }
  }

  lemma RefsForSnoc(table: SymbolTable, i: nat, graph: RelationshipGraph, t: string)
    requires i < |table|
    ensures RefsFor(table[..i + 1], graph, t) == RefsFor(table[..i], graph, t)
      + Contribution(graph, table[i], t)
  {
    assert table[..i + 1][..i] == table[..i];
  }

  /** The grouping after one more entry of the table has been walked. */
  ghost predicate GroupedUpTo(refs: map<string, seq<SymbolReference>>, table: SymbolTable,
                              graph: RelationshipGraph, i: nat)
    requires i <= |table|
  {
    && (forall t :: t in refs ==> refs[t] != [])
    && (forall t :: Get(refs, t) == RefsFor(table[..i], graph, t))
  }

  lemma GroupedStep(refs: map<string, seq<SymbolReference>>, refs': map<string, seq<SymbolReference>>,
                    table: SymbolTable, graph: RelationshipGraph, i: nat)
    requires i < |table| && GroupedUpTo(refs, table, graph, i)
    requires !Contributes(table[i]) ==> refs' == refs
    requires Contributes(table[i]) ==>
      && (forall t :: t in refs' <==> t in refs || t in TargetsOf(graph, table[i]))
      && (forall t :: Get(refs', t) == Get(refs, t)
                       + Repeat(RefOf(table[i]), multiset(TargetsOf(graph, table[i]))[t]))
    ensures GroupedUpTo(refs', table, graph, i + 1)
  {
    forall t
      ensures Get(refs', t) == RefsFor(table[..i + 1], graph, t)
    {
      RefsForSnoc(table, i, graph, t);
    }
    GroupsStayNonEmpty(refs, refs', table[i], graph);
  }

  /** Filing one more symbol leaves no group empty. */
  lemma GroupsStayNonEmpty(refs: map<string, seq<SymbolReference>>, refs': map<string, seq<SymbolReference>>,
                           e: Entry, graph: RelationshipGraph)
    requires forall t :: t in refs ==> refs[t] != []
    requires !Contributes(e) ==> refs' == refs
    requires Contributes(e) ==>
      && (forall t :: t in refs' <==> t in refs || t in TargetsOf(graph, e))
      && (forall t :: Get(refs', t) == Get(refs, t) + Repeat(RefOf(e), multiset(TargetsOf(graph, e))[t]))
    ensures forall t :: t in refs' ==> refs'[t] != []
  {
    if Contributes(e) {
      forall t | t in refs'
        ensures refs'[t] != []
      {
        PushedNonEmpty(refs, refs', RefOf(e), TargetsOf(graph, e), t);
      }
    }
  }

  /** `collect_references`: walks the table in order and pushes the symbol's
      reference onto the group of each of its targets. */
  method CollectReferences(table: SymbolTable, graph: RelationshipGraph)
    returns (refs: map<string, seq<SymbolReference>>)
    ensures forall t :: t in refs <==> RefsFor(table, graph, t) != []
    ensures forall t :: Get(refs, t) == RefsFor(table, graph, t)
  {
    refs := map[];
    var i := 0;
    while i < |table|
      invariant 0 <= i <= |table|
      invariant GroupedUpTo(refs, table, graph, i)
    {
      var e := table[i];
      var before := refs;
      if Contributes(e) {
        refs := PushReferences(refs, RefOf(e), TargetsOf(graph, e));
      }
      GroupedStep(before, refs, table, graph, i);
      i := i + 1;
    }
    assert table[..i] == table;
  }

  /** Every grouped reference is the `{file, span}` of a contributing entry
      that names the group's target. */
  lemma {:induction false} RefsForSources(entries: SymbolTable, graph: RelationshipGraph, t: string)
    ensures forall r :: r in RefsFor(entries, graph, t) ==>
      exists j :: 0 <= j < |entries| && Contributes(entries[j]) && r == RefOf(entries[j])
                  && t in TargetsOf(graph, entries[j])
  {
    forall r | r in RefsFor(entries, graph, t)
      ensures exists j :: 0 <= j < |entries| && Contributes(entries[j]) && r == RefOf(entries[j])
                          && t in TargetsOf(graph, entries[j])
    {
      var j := RefSource(entries, graph, t, r);
    }
  }

  lemma {:induction false} RefSource(entries: SymbolTable, graph: RelationshipGraph, t: string, r: SymbolReference)
    returns (j: nat)
    requires r in RefsFor(entries, graph, t)
    ensures j < |entries| && Contributes(entries[j]) && r == RefOf(entries[j]) && t in TargetsOf(graph, entries[j])
    decreases |entries|
  {
    assert entries != [];
    var last := |entries| - 1;
    var front := entries[..last];
    var e := entries[last];
    var tail := Contribution(graph, e, t);
    assert RefsFor(entries, graph, t) == RefsFor(front, graph, t) + tail;
    if r in RefsFor(front, graph, t) {
      j := RefSource(front, graph, t, r);
      assert entries[j] == front[j];
    } else {
      assert Contributes(e);
      RepeatMember(RefOf(e), multiset(TargetsOf(graph, e))[t], r);
      j := last;
    }
  }

  lemma ConcatAssoc<T>(x: seq<T>, y: seq<T>, z: seq<T>)
    ensures (x + y) + z == x + (y + z)
  {
  }

  lemma RepeatMember<T>(x: T, n: nat, y: T)
    requires y in Repeat(x, n)
    ensures y == x && n > 0
  {
  }

  /** A contributing entry's reference is grouped under each of its targets. */
  lemma {:induction false} TargetIsGrouped(entries: SymbolTable, graph: RelationshipGraph, j: nat, t: string)
    requires j < |entries| && Contributes(entries[j]) && t in TargetsOf(graph, entries[j])
    ensures RefOf(entries[j]) in RefsFor(entries, graph, t)
    decreases |entries|
  {
    if j < |entries| - 1 {
      var front := entries[..|entries| - 1];
      assert front[j] == entries[j];
      TargetIsGrouped(front, graph, j, t);
    } else {
      var e := entries[j];
      assert Repeat(RefOf(e), multiset(TargetsOf(graph, e))[t])[0] == RefOf(e);
    }
  }

  lemma {:induction false} RefsForAppend(a: SymbolTable, b: SymbolTable, graph: RelationshipGraph, t: string)
    ensures RefsFor(a + b, graph, t) == RefsFor(a, graph, t) + RefsFor(b, graph, t)
    decreases |b|
  {
    if b == [] {
      assert a + b == a;
    } else {
      var b' := b[..|b| - 1];
      var e := b[|b| - 1];
      var tail := Contribution(graph, e, t);
      assert RefsFor(a + b, graph, t) == RefsFor(a + b', graph, t) + tail by {
        assert (a + b)[..|a + b| - 1] == a + b';
        assert (a + b)[|a + b| - 1] == e;
      }
      assert RefsFor(b, graph, t) == RefsFor(b', graph, t) + tail;
      RefsForAppend(a, b', graph, t);
      ConcatAssoc(RefsFor(a, graph, t), RefsFor(b', graph, t), tail);
    }
  }

  /** A symbol without a span or without a source file contributes nothing:
      removing it from the table leaves every group unchanged. */
  lemma NonContributingIgnored(a: SymbolTable, e: Entry, b: SymbolTable, graph: RelationshipGraph, t: string)
    requires !Contributes(e)
    ensures RefsFor(a + [e] + b, graph, t) == RefsFor(a + b, graph, t)
  {
    RefsForAppend(a + [e], b, graph, t);
    RefsForAppend(a, b, graph, t);
    SkipOne(a, e, graph, t);
  }

  /** Appending a symbol that refers to nothing adds no references. */
  lemma SkipOne(a: SymbolTable, e: Entry, graph: RelationshipGraph, t: string)
    requires !Contributes(e)
    ensures RefsFor(a + [e], graph, t) == RefsFor(a, graph, t)
  {
    assert (a + [e])[..|a + [e]| - 1] == a;
    assert Contribution(graph, e, t) == [];
  }

  // ---------------------------------------------------------------------------
  // Filing groups under resolved symbols
  // ---------------------------------------------------------------------------

  /** How many of the names `ts` lie in `done` and are filed under entry `i`. */
  function CountFiled(ts: seq<string>, table: SymbolTable, i: nat, done: set<string>): nat
    decreases |ts|
  {
    if ts == [] then 0
    else (if ts[0] in done && ResolveTarget(table, ts[0]) == Some(i) then 1 else 0)
         + CountFiled(ts[1..], table, i, done)
  }

  /** How many of the names `ts` are filed under entry `i`. */
  function CountResolving(ts: seq<string>, table: SymbolTable, i: nat): nat
    decreases |ts|
  {
    if ts == [] then 0
    else (if ResolveTarget(table, ts[0]) == Some(i) then 1 else 0) + CountResolving(ts[1..], table, i)
  }

  /** The references `entries` send to entry `i` of `table` through the target
      names in `done`. */
  function FiledInto(entries: SymbolTable, table: SymbolTable, graph: RelationshipGraph,
                     i: nat, done: set<string>): seq<SymbolReference>
    decreases |entries|
  {
    if entries == [] then []
    else
      var e := entries[|entries| - 1];
      FiledInto(entries[..|entries| - 1], table, graph, i, done)
      + (if Contributes(e) then Repeat(RefOf(e), CountFiled(TargetsOf(graph, e), table, i, done)) else [])
  }

  /** The references entry `i` of `table` must receive: one for every
      occurrence of a target name, of every contributing entry, that resolves
      to entry `i`. */
  function ExpectedReferences(entries: SymbolTable, table: SymbolTable, graph: RelationshipGraph,
                              i: nat): seq<SymbolReference>
    decreases |entries|
  {
    if entries == [] then []
    else
      var e := entries[|entries| - 1];
      ExpectedReferences(entries[..|entries| - 1], table, graph, i)
      + (if Contributes(e) then Repeat(RefOf(e), CountResolving(TargetsOf(graph, e), table, i)) else [])
  }

  lemma {:induction false} CountFiledAdd(ts: seq<string>, table: SymbolTable, i: nat, done: set<string>, t: string)
    requires t !in done
    ensures CountFiled(ts, table, i, done + {t})
         == CountFiled(ts, table, i, done) + (if ResolveTarget(table, t) == Some(i) then multiset(ts)[t] else 0)
    decreases |ts|
  {
    if ts != [] {
      CountFiledAdd(ts[1..], table, i, done, t);
      assert ts == [ts[0]] + ts[1..];
      assert multiset(ts)[t] == multiset([ts[0]])[t] + multiset(ts[1..])[t];
    }
  }

  lemma {:induction false} CountFiledAll(ts: seq<string>, table: SymbolTable, i: nat, done: set<string>)
    requires forall k :: 0 <= k < |ts| ==> ts[k] in done
    ensures CountFiled(ts, table, i, done) == CountResolving(ts, table, i)
    decreases |ts|
  {
    if ts != [] {
      CountFiledAll(ts[1..], table, i, done);
    }
  }

  lemma {:induction false} RepeatAdd<T>(x: T, a: nat, b: nat)
    ensures Repeat(x, a + b) == Repeat(x, a) + Repeat(x, b)
    decreases b
  {
    if b > 0 {
      RepeatAdd(x, a, b - 1);
    }
  }

  lemma EntryFiledAdd(x: SymbolReference, ts: seq<string>, table: SymbolTable,
                      i: nat, done: set<string>, t: string)
    requires t !in done
    ensures Repeat(x, CountFiled(ts, table, i, done + {t}))
         == Repeat(x, CountFiled(ts, table, i, done))
            + (if ResolveTarget(table, t) == Some(i) then Repeat(x, multiset(ts)[t]) else [])
  {
    CountFiledAdd(ts, table, i, done, t);
    var n1 := CountFiled(ts, table, i, done);
    var n2 := if ResolveTarget(table, t) == Some(i) then multiset(ts)[t] else 0;
    assert CountFiled(ts, table, i, done + {t}) == n1 + n2;
    RepeatAdd(x, n1, n2);
  }

  lemma MultisetStep<T>(a: seq<T>, a': seq<T>, before: seq<T>, after: seq<T>, r: seq<T>, group: seq<T>, adds: bool)
    requires multiset(a') == multiset(a) + (if adds then multiset(r) else multiset{})
    requires after == before + (if adds then group else [])
    ensures multiset(a' + after) == multiset(a + before) + (if adds then multiset(r + group) else multiset{})
  {
  }

  /** Filing the group of one more name `t` adds that whole group to the
      entry `t` resolves to, and nothing to the others. */
  lemma {:induction false} FiledIntoAdd(entries: SymbolTable, table: SymbolTable, graph: RelationshipGraph,
                                        i: nat, done: set<string>, t: string)
    requires t !in done
    ensures multiset(FiledInto(entries, table, graph, i, done + {t}))
         == multiset(FiledInto(entries, table, graph, i, done))
            + (if ResolveTarget(table, t) == Some(i) then multiset(RefsFor(entries, graph, t)) else multiset{})
    decreases |entries|
  {
    if entries != [] {
      var front := entries[..|entries| - 1];
      var e := entries[|entries| - 1];
      var adds := ResolveTarget(table, t) == Some(i);
      var before := if Contributes(e) then Repeat(RefOf(e), CountFiled(TargetsOf(graph, e), table, i, done)) else [];
      var after := if Contributes(e) then Repeat(RefOf(e), CountFiled(TargetsOf(graph, e), table, i, done + {t})) else [];
      var group := Contribution(graph, e, t);
      FiledIntoAdd(front, table, graph, i, done, t);
      assert after == before + (if adds then group else []) by {
        if Contributes(e) {
          EntryFiledAdd(RefOf(e), TargetsOf(graph, e), table, i, done, t);
        }
      }
      MultisetStep(FiledInto(front, table, graph, i, done), FiledInto(front, table, graph, i, done + {t}),
                   before, after, RefsFor(front, graph, t), group, adds);
      assert FiledInto(entries, table, graph, i, done) == FiledInto(front, table, graph, i, done) + before;
      assert FiledInto(entries, table, graph, i, done + {t}) == FiledInto(front, table, graph, i, done + {t}) + after;
      assert RefsFor(entries, graph, t) == RefsFor(front, graph, t) + group;
    }
  }

  lemma {:induction false} FiledIntoAll(entries: SymbolTable, table: SymbolTable, graph: RelationshipGraph,
                                        i: nat, done: set<string>)
    requires forall j, t :: 0 <= j < |entries| && Contributes(entries[j]) && t in TargetsOf(graph, entries[j]) ==> t in done
    ensures FiledInto(entries, table, graph, i, done) == ExpectedReferences(entries, table, graph, i)
    decreases |entries|
  {
    if entries != [] {
      var front := entries[..|entries| - 1];
      var e := entries[|entries| - 1];
      forall j, t | 0 <= j < |front| && Contributes(front[j]) && t in TargetsOf(graph, front[j])
        ensures t in done
      {
        assert front[j] == entries[j];
      }
      FiledIntoAll(front, table, graph, i, done);
      if Contributes(e) {
        var ts := TargetsOf(graph, e);
        forall k | 0 <= k < |ts|
          ensures ts[k] in done
        {
          assert ts[k] in ts;
        }
        CountFiledAll(ts, table, i, done);
      }
    }
  }

  lemma FiledIntoNone(entries: SymbolTable, table: SymbolTable, graph: RelationshipGraph, i: nat)
    ensures FiledInto(entries, table, graph, i, {}) == []
    decreases |entries|
  {
    if entries != [] {
      var e := entries[|entries| - 1];
      if Contributes(e) {
        CountFiledNone(TargetsOf(graph, e), table, i);
      }
    }
  }

  lemma CountFiledNone(ts: seq<string>, table: SymbolTable, i: nat)
    ensures CountFiled(ts, table, i, {}) == 0
    decreases |ts|
  {
  }

  /** Appends `refs` to the reference list of entry `idx`. */
  function AddReferences(table: SymbolTable, idx: nat, refs: seq<SymbolReference>): (r: SymbolTable)
    requires idx < |table|
    ensures OnlyReferencesGrow(table, r)
    ensures r[idx].symbol.references == table[idx].symbol.references + refs
    ensures forall j :: 0 <= j < |table| && j != idx ==> r[j] == table[j]
  {
    var e := table[idx];
    table[idx := Entry(e.key, e.symbol.(references := e.symbol.references + refs))]
  }

  /** The references `result` added to entry `i` of `table`. */
  function Added(table: SymbolTable, result: SymbolTable, i: nat): seq<SymbolReference>
    requires OnlyReferencesGrow(table, result) && i < |table|
  {
    result[i].symbol.references[|table[i].symbol.references|..]
  }

  lemma OnlyReferencesGrowTrans(a: SymbolTable, b: SymbolTable, c: SymbolTable)
    requires OnlyReferencesGrow(a, b) && OnlyReferencesGrow(b, c)
    ensures OnlyReferencesGrow(a, c)
  {
    forall i | 0 <= i < |a|
      ensures c[i].symbol.(references := a[i].symbol.references) == a[i].symbol
    {
      assert b[i].symbol.(references := a[i].symbol.references) == a[i].symbol;
      assert c[i].symbol.(references := b[i].symbol.references) == b[i].symbol;
    }
  }

  /** Files one group: resolves `target` against the current table and
      appends `refs` to the symbol found; an unresolved name changes nothing. */
  function FileGroup(table: SymbolTable, target: string, refs: seq<SymbolReference>): (r: SymbolTable)
    ensures OnlyReferencesGrow(table, r)
    ensures forall i :: 0 <= i < |table| ==>
      r[i].symbol.references == table[i].symbol.references
        + (if ResolveTarget(table, target) == Some(i) then refs else [])
  {
    match FindByKeyOrName(table, target)
    case None => table
    case Some(found) =>
      match LookupKey(table, table[found].key)
      case None => table
      case Some(idx) => AddReferences(table, idx, refs)
  }

  /** What filing the groups of the names in `done` has produced so far. */
  ghost predicate FiledUpTo(table: SymbolTable, result: SymbolTable, graph: RelationshipGraph, done: set<string>)
  {
    && OnlyReferencesGrow(table, result)
    && forall i :: 0 <= i < |table| ==>
         multiset(Added(table, result, i)) == multiset(FiledInto(table, table, graph, i, done))
  }

  lemma FiledNothing(table: SymbolTable, graph: RelationshipGraph)
    ensures FiledUpTo(table, table, graph, {})
  {
    forall i | 0 <= i < |table|
      ensures multiset(Added(table, table, i)) == multiset(FiledInto(table, table, graph, i, {}))
    {
      FiledIntoNone(table, table, graph, i);
    }
  }

  lemma AddedAppend(table: SymbolTable, before: SymbolTable, after: SymbolTable, i: nat,
                    extra: seq<SymbolReference>)
    requires OnlyReferencesGrow(table, before) && OnlyReferencesGrow(table, after) && i < |table|
    requires after[i].symbol.references == before[i].symbol.references + extra
    ensures Added(table, after, i) == Added(table, before, i) + extra
  {
  }

  lemma FiledStepAt(table: SymbolTable, before: SymbolTable, after: SymbolTable, graph: RelationshipGraph,
                    done: set<string>, target: string, i: nat)
    requires OnlyReferencesGrow(table, before) && OnlyReferencesGrow(table, after) && i < |table|
    requires multiset(Added(table, before, i)) == multiset(FiledInto(table, table, graph, i, done))
    requires target !in done
    requires after[i].symbol.references == before[i].symbol.references
      + (if ResolveTarget(table, target) == Some(i) then RefsFor(table, graph, target) else [])
    ensures multiset(Added(table, after, i)) == multiset(FiledInto(table, table, graph, i, done + {target}))
  {
    var extra := if ResolveTarget(table, target) == Some(i) then RefsFor(table, graph, target) else [];
    AddedAppend(table, before, after, i, extra);
    FiledIntoAdd(table, table, graph, i, done, target);
  }

  lemma FiledStep(table: SymbolTable, before: SymbolTable, after: SymbolTable, graph: RelationshipGraph,
                  done: set<string>, target: string, refs: seq<SymbolReference>)
    requires FiledUpTo(table, before, graph, done) && target !in done
    requires refs == RefsFor(table, graph, target)
    requires after == FileGroup(before, target, refs)
    ensures FiledUpTo(table, after, graph, done + {target})
  {
    ResolveIgnoresReferences(table, before, target);
    OnlyReferencesGrowTrans(table, before, after);
    forall i | 0 <= i < |table|
      ensures multiset(Added(table, after, i)) == multiset(FiledInto(table, table, graph, i, done + {target}))
    {
      FiledStepAt(table, before, after, graph, done, target, i);
    }
  }

  lemma FiledAll(table: SymbolTable, result: SymbolTable, graph: RelationshipGraph,
                 groups: map<string, seq<SymbolReference>>)
    requires FiledUpTo(table, result, graph, groups.Keys)
    requires forall t :: t in groups <==> RefsFor(table, graph, t) != []
    ensures forall i :: 0 <= i < |table| ==>
      multiset(Added(table, result, i)) == multiset(ExpectedReferences(table, table, graph, i))
  {
    forall j, t | 0 <= j < |table| && Contributes(table[j]) && t in TargetsOf(graph, table[j])
      ensures t in groups.Keys
    {
      TargetIsGrouped(table, graph, j, t);
    }
    forall i | 0 <= i < |table|
      ensures FiledInto(table, table, graph, i, groups.Keys) == ExpectedReferences(table, table, graph, i)
    {
      FiledIntoAll(table, table, graph, i, groups.Keys);
    }
  }

  /** `collect`: groups references by target name, then, in the hash map's
      (unspecified) order, resolves each name against the current table and
      appends the group to the symbol found. Only reference lists change, and
      each symbol receives exactly the references its resolving names carry. */
  method Collect(table: SymbolTable, graph: RelationshipGraph) returns (result: SymbolTable)
    ensures OnlyReferencesGrow(table, result)
    ensures forall i :: 0 <= i < |table| ==>
      multiset(Added(table, result, i)) == multiset(ExpectedReferences(table, table, graph, i))
  {
    var groups := CollectReferences(table, graph);
    result := table;
    var pending := groups.Keys;
    FiledNothing(table, graph);
    assert groups.Keys - pending == {};
    while pending != {}
      invariant pending <= groups.Keys
      invariant FiledUpTo(table, result, graph, groups.Keys - pending)
      decreases pending
    {
      var target :| target in pending;
      var before := result;
      assert groups[target] == RefsFor(table, graph, target) by {
        assert Get(groups, target) == groups[target];
      }
      result := FileGroup(result, target, groups[target]);
      FiledStep(table, before, result, graph, groups.Keys - pending, target, groups[target]);
      assert groups.Keys - (pending - {target}) == (groups.Keys - pending) + {target};
      pending := pending - {target};
    }
    assert groups.Keys - pending == groups.Keys;
    FiledAll(table, result, graph, groups);
  }

  /** A name that resolves to no symbol sends nothing anywhere; when no name
      resolves, no symbol receives anything. */
  lemma {:induction false} UnresolvedSendsNothing(entries: SymbolTable, table: SymbolTable,
                                                  graph: RelationshipGraph, i: nat)
    requires forall t :: ResolveTarget(table, t) != Some(i)
    ensures ExpectedReferences(entries, table, graph, i) == []
    decreases |entries|
  {
    if entries != [] {
      UnresolvedSendsNothing(entries[..|entries| - 1], table, graph, i);
      var e := entries[|entries| - 1];
      if Contributes(e) {
        CountResolvingZero(TargetsOf(graph, e), table, i);
      }
    }
  }

  lemma CountResolvingZero(ts: seq<string>, table: SymbolTable, i: nat)
    requires forall t :: ResolveTarget(table, t) != Some(i)
    ensures CountResolving(ts, table, i) == 0
    decreases |ts|
  {
  }
}
