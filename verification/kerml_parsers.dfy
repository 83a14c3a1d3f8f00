/** The KerML AST builders: `parse_classifier` and `parse_feature`. The
    helpers `to_classifier_kind`, `find_name`, `to_span`, `extract_flags` and
    `extract_direction` are not part of this model and arrive as a record of
    functions; kinds and directions are type parameters. */
module KermlParsers {
  import opened Wrappers
  import opened PestTree
  import Symbols

  /** The grammar rules these builders name; every other rule is `OtherRule`. */
  datatype Rule = AbstractMarker | OtherRule(name: string)

  /** `ConversionError<Void>`: only `NoMatch` can be built. */
  datatype ConversionError = NoMatch

  /** A body member. Both builders leave bodies empty, so the member's
      contents are not part of this model. */
  datatype Member = Member(text: string)

  datatype Classifier<CK> = Classifier(
    kind: CK,
    isAbstract: bool,
    name: Option<string>,
    body: seq<Member>,
    span: Option<Symbols.Span>)

  datatype Feature<Dir> = Feature(
    name: Option<string>,
    direction: Dir,
    isReadonly: bool,
    isDerived: bool,
    body: seq<Member>,
    span: Option<Symbols.Span>)

  datatype Helpers<CK, Dir> = Helpers(
    toClassifierKind: Rule -> Option<CK>,
    findName: seq<Pair<Rule>> -> Option<string>,
    toSpan: PestSpan -> Symbols.Span,
    extractFlags: seq<Pair<Rule>> -> (bool, bool),
    extractDirection: seq<Pair<Rule>> -> Dir)

  predicate IsAbstractMarker(r: Rule)
  {
    r == AbstractMarker
  }

  /** `parse_classifier`: fails exactly when the rule has no classifier
      kind; abstract exactly when a direct child is an abstract marker. */
  function ParseClassifier<CK, Dir>(p: Pair<Rule>, h: Helpers<CK, Dir>): (r: Result<Classifier<CK>, ConversionError>)
    ensures r.Failure? <==> h.toClassifierKind(p.rule).None?
    ensures r.Success? ==>
      && r.value.kind == h.toClassifierKind(p.rule).value
      && (r.value.isAbstract <==> exists j :: 0 <= j < |p.inner| && p.inner[j].rule == AbstractMarker)
      && r.value.name == h.findName(p.inner)
      && r.value.body == []
      && r.value.span == Some(h.toSpan(p.span))
  {
    match h.toClassifierKind(p.rule)
    case None => Failure(NoMatch)
    case Some(kind) =>
      Success(Classifier(kind, AnyChild(p.inner, IsAbstractMarker), h.findName(p.inner), [], Some(h.toSpan(p.span))))
  }

  /** `parse_feature`: this module's `extract_flags` yields
      `(is_readonly, is_derived)`, in that order. */
  function ParseFeature<CK, Dir>(p: Pair<Rule>, h: Helpers<CK, Dir>): (r: Feature<Dir>)
    ensures (r.isReadonly, r.isDerived) == h.extractFlags(p.inner)
    ensures r.name == h.findName(p.inner) && r.direction == h.extractDirection(p.inner)
    ensures r.body == [] && r.span == Some(h.toSpan(p.span))
  {
    var (isReadonly, isDerived) := h.extractFlags(p.inner);
    Feature(h.findName(p.inner), h.extractDirection(p.inner), isReadonly, isDerived, [], Some(h.toSpan(p.span)))
  }

  /** A feature is read from the node's span and direct children alone: unlike
      a classifier, its own rule is never examined, so any node converts and two
      nodes that differ only in rule or text yield the same feature. */
  lemma ParseFeatureIgnoresRule<CK, Dir>(p: Pair<Rule>, q: Pair<Rule>, h: Helpers<CK, Dir>)
    requires p.inner == q.inner && p.span == q.span
    ensures ParseFeature(p, h) == ParseFeature(q, h)
  {
  }

  /** The abstract flag reads direct children only: a marker deeper down
      does not make the classifier abstract. */
  lemma NestedMarkerIsIgnored<CK, Dir>(h: Helpers<CK, Dir>, kindRule: Rule, span: PestSpan)
    requires h.toClassifierKind(kindRule).Some?
    ensures var marker := Pair(AbstractMarker, "abstract", span, []);
      var wrapper := Pair(OtherRule("classifier_prefix"), "abstract", span, [marker]);
      var c := ParseClassifier(Pair(kindRule, "abstract", span, [wrapper]), h);
      c.Success? && !c.value.isAbstract
  {
    var marker := Pair(AbstractMarker, "abstract", span, []);
    var wrapper := Pair(OtherRule("classifier_prefix"), "abstract", span, [marker]);
    assert [wrapper][0] == wrapper;
  }
}
