/** The SysML AST builders of the syntax crate: definition and usage
    parsing, and the recursive body walks. The grammar-specific helpers
    (`is_usage_rule`, `is_body_rule`, `to_def_kind`, `to_usage_kind`,
    `find_name`, `to_span`, `extract_relationships`, `extract_flags`) are not
    part of this model and arrive as a record of functions. Kinds and
    relationships are type parameters because only their provenance matters
    here. */
module SysmlParsers {
  import opened Wrappers
  import opened PestTree
  import Symbols

  /** The grammar rules these builders name; every other rule is `OtherRule`. */
  datatype Rule = Documentation | BlockComment | UsageBody | RequirementBody | OtherRule(name: string)

  /** `from_pest`'s `ConversionError<Void>`: `Malformed(Void)` cannot be
      built, so `NoMatch` is the only error. */
  datatype ConversionError = NoMatch

  datatype Comment = Comment(content: string, span: Option<Symbols.Span>)

  /** What a usage body holds as built here. */
  datatype UsageMember = CommentMember(comment: Comment)

  datatype Usage<UK, Rel> = Usage(
    kind: UK,
    name: Option<string>,
    relationships: Rel,
    body: seq<UsageMember>,
    span: Option<Symbols.Span>,
    isDerived: bool,
    isReadonly: bool)

  /** What a definition body holds as built here. */
  datatype DefinitionMember<UK, Rel> = UsageMember(usage: Usage<UK, Rel>)

  datatype Definition<DK, UK, Rel> = Definition(
    kind: DK,
    name: Option<string>,
    relationships: Rel,
    body: seq<DefinitionMember<UK, Rel>>,
    span: Option<Symbols.Span>,
    isAbstract: bool,
    isVariation: bool)

  /** The helper functions of the `utils` module. `to_def_kind` fails with
      `NoMatch`, modelled as `None`. */
  datatype Helpers<DK, UK, Rel> = Helpers(
    isUsageRule: Rule -> bool,
    isBodyRule: Rule -> bool,
    toDefKind: Rule -> Option<DK>,
    toUsageKind: Rule -> Option<UK>,
    findName: seq<Pair<Rule>> -> Option<string>,
    toSpan: PestSpan -> Symbols.Span,
    extractRelationships: Pair<Rule> -> Rel,
    extractFlags: seq<Pair<Rule>> -> (bool, bool))

  /** `parse_usage` unwraps `to_usage_kind`, so every rule the walk treats
      as a usage must have a usage kind; otherwise the source panics. */
  ghost predicate UsageRulesHaveKinds<DK, UK, Rel>(h: Helpers<DK, UK, Rel>)
  {
    forall r: Rule :: h.isUsageRule(r) ==> h.toUsageKind(r).Some?
  }

  predicate IsCommentRule(r: Rule)
  {
    r == Documentation || r == BlockComment
  }

  predicate IsUsageBodyRule(r: Rule)
  {
    r == UsageBody || r == RequirementBody
  }

  function ToComment<DK, UK, Rel>(p: Pair<Rule>, h: Helpers<DK, UK, Rel>): UsageMember
  {
    CommentMember(Comment(p.text, Some(h.toSpan(p.span))))
  }

  /** `parse_usage_body`: the topmost documentation and block-comment nodes,
      in pre-order, each as a comment carrying its text and span. */
  function ParseUsageBody<DK, UK, Rel>(p: Pair<Rule>, h: Helpers<DK, UK, Rel>): (r: seq<UsageMember>)
    ensures var ps := TopPaths(p, IsCommentRule);
      && |r| == |ps|
      && forall k :: 0 <= k < |ps| ==>
           && ValidPath(p, ps[k])
           && IsCommentRule(At(p, ps[k]).rule)
           && r[k].comment.content == At(p, ps[k]).text
           && r[k].comment.span == Some(h.toSpan(At(p, ps[k]).span))
  {
    var nodes := Collect(p, IsCommentRule, []);
    CollectIsTopmost(p, IsCommentRule, []);
    TopPathsSound(p, IsCommentRule);
    seq(|nodes|, k requires 0 <= k < |nodes| => ToComment(nodes[k], h))
  }

  /** `parse_usage`; the rule must have a usage kind. */
  function ParseUsage<DK, UK, Rel>(p: Pair<Rule>, h: Helpers<DK, UK, Rel>): (r: Usage<UK, Rel>)
    requires h.toUsageKind(p.rule).Some?
    ensures r.kind == h.toUsageKind(p.rule).value
    ensures r.span == Some(h.toSpan(p.span))
    ensures r.name == h.findName(p.inner) && r.relationships == h.extractRelationships(p)
    ensures (r.isDerived, r.isReadonly) == h.extractFlags(p.inner)
    ensures match FindChild(p.inner, IsUsageBodyRule)
      case Some(i) => r.body == ParseUsageBody(p.inner[i], h)
      case None => r.body == []
  {
    var body := match FindChild(p.inner, IsUsageBodyRule)
      case Some(i) => ParseUsageBody(p.inner[i], h)
      case None => [];
    var (isDerived, isReadonly) := h.extractFlags(p.inner);
    Usage(h.toUsageKind(p.rule).value, h.findName(p.inner), h.extractRelationships(p), body,
          Some(h.toSpan(p.span)), isDerived, isReadonly)
  }

  /** `parse_def_body`: every topmost usage node, in pre-order, parsed as a
      usage; the walk never looks beneath a usage node. */
  function ParseDefBody<DK, UK, Rel>(p: Pair<Rule>, h: Helpers<DK, UK, Rel>): (r: seq<DefinitionMember<UK, Rel>>)
    requires UsageRulesHaveKinds(h)
    ensures var ps := TopPaths(p, h.isUsageRule);
      && |r| == |ps|
      && forall k :: 0 <= k < |ps| ==>
           && ValidPath(p, ps[k])
           && h.isUsageRule(At(p, ps[k]).rule)
           && r[k] == UsageMember(ParseUsage(At(p, ps[k]), h))
  {
    var nodes := Collect(p, h.isUsageRule, []);
    CollectIsTopmost(p, h.isUsageRule, []);
    TopPathsSound(p, h.isUsageRule);
    seq(|nodes|, k requires 0 <= k < |nodes| => UsageMember(ParseUsage(nodes[k], h)))
  }

  /** `parse_definition`. */
  function ParseDefinition<DK, UK, Rel>(p: Pair<Rule>, h: Helpers<DK, UK, Rel>)
    : (r: Result<Definition<DK, UK, Rel>, ConversionError>)
    requires UsageRulesHaveKinds(h)
    ensures r.Failure? <==> h.toDefKind(p.rule).None?
    ensures r.Success? ==>
      && r.value.kind == h.toDefKind(p.rule).value
      && r.value.span == Some(h.toSpan(p.span))
      && !r.value.isAbstract && !r.value.isVariation
      && r.value.name == h.findName(p.inner)
      && r.value.relationships == h.extractRelationships(p)
      && match FindChild(p.inner, h.isBodyRule)
         case Some(i) => r.value.body == ParseDefBody(p.inner[i], h)
         case None => r.value.body == []
  {
    match h.toDefKind(p.rule)
    case None => Failure(NoMatch)
    case Some(kind) =>
      var body := match FindChild(p.inner, h.isBodyRule)
        case Some(i) => ParseDefBody(p.inner[i], h)
        case None => [];
      Success(Definition(kind, h.findName(p.inner), h.extractRelationships(p), body,
                         Some(h.toSpan(p.span)), false, false))
  }

  /** A definition body lists each topmost usage node exactly once, in
      pre-order, and nothing else. */
  lemma DefBodyIsTopmostUsages<DK, UK, Rel>(p: Pair<Rule>, h: Helpers<DK, UK, Rel>)
    requires UsageRulesHaveKinds(h)
    ensures var ps := TopPaths(p, h.isUsageRule);
      && Ordered(ps)
      && (forall q :: Topmost(p, h.isUsageRule, q) <==> q in ps)
      && |ParseDefBody(p, h)| == |ps|
  {
    var ps := TopPaths(p, h.isUsageRule);
    TopPathsOrdered(p, h.isUsageRule);
    TopPathsSound(p, h.isUsageRule);
    forall q | Topmost(p, h.isUsageRule, q)
      ensures q in ps
    {
      TopPathsComplete(p, h.isUsageRule, q);
    }
  }

  /** A node that is itself a usage yields exactly one member: itself. */
  lemma UsageNodeIsItsOwnBody<DK, UK, Rel>(p: Pair<Rule>, h: Helpers<DK, UK, Rel>)
    requires UsageRulesHaveKinds(h) && h.isUsageRule(p.rule)
    ensures ParseDefBody(p, h) == [UsageMember(ParseUsage(p, h))]
  {
    MatchingRootIsOnlyMatch(p, h.isUsageRule);
  }

  /** A usage body lists each topmost comment node exactly once, in
      pre-order, and nothing else: in particular no usages. */
  lemma UsageBodyIsTopmostComments<DK, UK, Rel>(p: Pair<Rule>, h: Helpers<DK, UK, Rel>)
    ensures var ps := TopPaths(p, IsCommentRule);
      && Ordered(ps)
      && (forall q :: Topmost(p, IsCommentRule, q) <==> q in ps)
      && |ParseUsageBody(p, h)| == |ps|
  {
    var ps := TopPaths(p, IsCommentRule);
    TopPathsOrdered(p, IsCommentRule);
    TopPathsSound(p, IsCommentRule);
    forall q | Topmost(p, IsCommentRule, q)
      ensures q in ps
    {
      TopPathsComplete(p, IsCommentRule, q);
    }
  }
}
