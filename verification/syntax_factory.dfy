/** `populate_syntax_file`: the one place that picks an adapter by dialect.
    SysML files go to the SysML adapter, whose `populate` is not part of this
    model and is passed in as a function; KerML files are skipped with
    success. */
module SyntaxFactory {
  import opened Wrappers
  import opened Symbols

  /** A parsed file of either dialect. */
  datatype SyntaxFile<S, K> = SysML(sysml: S) | KerML(kerml: K)

  /** The semantic state an adapter writes to. */
  datatype Semantic = Semantic(table: SymbolTable, graph: RelationshipGraph)

  /** What a SysML adapter's `populate` does to the state, and its result. */
  type SysmlPopulate<!S, Err> = (S, Semantic) -> (Semantic, Outcome<seq<Err>>)

  /** `populate_syntax_file`. */
  function PopulateSyntaxFile<S, K, Err>(file: SyntaxFile<S, K>, state: Semantic,
                                         sysmlPopulate: SysmlPopulate<S, Err>)
    : (r: (Semantic, Outcome<seq<Err>>))
    ensures file.KerML? ==> r == (state, Pass)
    ensures file.SysML? ==> r == sysmlPopulate(file.sysml, state)
  {
    match file
    case SysML(s) => sysmlPopulate(s, state)
    case KerML(_) => (state, Pass)
  }

  /** The SysML files of `files`, in order. */
  function SysmlOnly<S, K>(files: seq<SyntaxFile<S, K>>): (r: seq<S>)
    ensures |r| <= |files|
    ensures forall k :: 0 <= k < |r| ==> SysML(r[k]) in files
    ensures forall k :: 0 <= k < |files| && files[k].SysML? ==> files[k].sysml in r
  {
    if files == [] then []
    else
      var rest := SysmlOnly(files[1..]);
      assert forall k :: 1 <= k < |files| ==> files[k] == files[1..][k - 1];
      match files[0]
      case SysML(s) => [s] + rest
      case KerML(_) => rest
  }

  /** Populating files one after another, keeping every file's errors. */
  function PopulateEach<S, K, Err>(files: seq<SyntaxFile<S, K>>, state: Semantic,
                                   sysmlPopulate: SysmlPopulate<S, Err>)
    : (r: (Semantic, seq<Err>))
    decreases |files|
  {
    if files == [] then (state, [])
    else
      var (next, outcome) := PopulateSyntaxFile(files[0], state, sysmlPopulate);
      var (last, errors) := PopulateEach(files[1..], next, sysmlPopulate);
      (last, (if outcome.Fail? then outcome.error else []) + errors)
  }

  /** Populating the same steps over the SysML files alone. */
  function PopulateSysml<S, Err>(files: seq<S>, state: Semantic, sysmlPopulate: SysmlPopulate<S, Err>)
    : (r: (Semantic, seq<Err>))
    decreases |files|
  {
    if files == [] then (state, [])
    else
      var (next, outcome) := sysmlPopulate(files[0], state);
      var (last, errors) := PopulateSysml(files[1..], next, sysmlPopulate);
      (last, (if outcome.Fail? then outcome.error else []) + errors)
  }

  /** KerML files neither change the state nor report errors: populating a
      mixed list is the same as populating its SysML files alone. */
  lemma {:induction false} KermlFilesAreSkipped<S, K, Err>(files: seq<SyntaxFile<S, K>>, state: Semantic,
                                                           sysmlPopulate: SysmlPopulate<S, Err>)
    ensures PopulateEach(files, state, sysmlPopulate) == PopulateSysml(SysmlOnly(files), state, sysmlPopulate)
    decreases |files|
  {
    if files != [] {
      var next := PopulateSyntaxFile(files[0], state, sysmlPopulate).0;
      KermlFilesAreSkipped(files[1..], next, sysmlPopulate);
      match files[0]
      case SysML(s) =>
        assert SysmlOnly(files)[1..] == SysmlOnly(files[1..]);
      case KerML(_) =>
        assert next == state;
        assert SysmlOnly(files) == SysmlOnly(files[1..]);
        var rest := PopulateEach(files[1..], state, sysmlPopulate);
        assert PopulateEach(files, state, sysmlPopulate) == (rest.0, [] + rest.1);
        assert [] + rest.1 == rest.1;
    }
  }
}
