/** `FromPest` for the language crate's `Package` and `Definition` nodes.
    The pair iterator is a sequence; each conversion returns its result
    together with the pairs left in the iterator. */
module SysmlNodes {
  import opened Wrappers
  import opened PestTree

  /** The grammar rules these conversions name; every other rule is
      `OtherRule`. */
  datatype Rule =
    | PackageDeclaration
    | Identification
    | DefinitionDeclaration
    | PartDefinition
    | ActionDefinition
    | RequirementDefinition
    | PortDefinition
    | ItemDefinition
    | AttributeDefinition
    | OtherRule(name: string)

  datatype DefinitionKind = Part | Action | Requirement | Port | Item | Attribute

  /** `ConversionError<Void>`: only `NoMatch` can be built. */
  datatype ConversionError = NoMatch

  /** A package element or definition member. Both conversions leave these
      lists empty, so their contents are not part of this model. */
  datatype Member = Member(text: string)

  datatype Package = Package(name: Option<string>, elements: seq<Member>)

  datatype Definition = Definition(kind: DefinitionKind, name: Option<string>, body: seq<Member>)

  predicate IsIdentification(r: Rule)
  {
    r == Identification
  }

  predicate IsDefinitionDeclaration(r: Rule)
  {
    r == DefinitionDeclaration
  }

  /** The rule-to-kind match of `Definition::from_pest`. */
  function KindOfRule(r: Rule): Option<DefinitionKind>
  {
    match r
    case PartDefinition => Some(Part)
    case ActionDefinition => Some(Action)
    case RequirementDefinition => Some(Requirement)
    case PortDefinition => Some(Port)
    case ItemDefinition => Some(Item)
    case AttributeDefinition => Some(Attribute)
    case _ => None
  }

  /** The rule each kind is parsed from. */
  function RuleOfKind(k: DefinitionKind): (r: Rule)
  {
    match k
    case Part => PartDefinition
    case Action => ActionDefinition
    case Requirement => RequirementDefinition
    case Port => PortDefinition
    case Item => ItemDefinition
    case Attribute => AttributeDefinition
  }

  /** The mapping is a bijection between the six definition rules and the
      six kinds; every other rule has no kind. */
  lemma KindOfRuleIsBijective(r: Rule, k: DefinitionKind)
    ensures KindOfRule(RuleOfKind(k)) == Some(k)
    ensures KindOfRule(r) == Some(k) <==> r == RuleOfKind(k)
    ensures KindOfRule(r).None? <==> r !in {PartDefinition, ActionDefinition, RequirementDefinition,
                                            PortDefinition, ItemDefinition, AttributeDefinition}
  {
  }

  /** The text of the first `identification` among `children`. */
  function FirstIdentification(children: seq<Pair<Rule>>): (r: Option<string>)
    ensures r.None? <==> forall j :: 0 <= j < |children| ==> children[j].rule != Identification
    ensures r.Some? ==> exists j :: (
      && 0 <= j < |children|
      && children[j].rule == Identification
      && r.value == children[j].text
      && forall i :: 0 <= i < j ==> children[i].rule != Identification)
  {
    match FindChild(children, IsIdentification)
    case Some(j) => Some(children[j].text)
    case None => None
  }

  /** `Package::from_pest`: takes the next pair whatever its rule; only a
      `package_declaration` converts. */
  function PackageFromPest(pairs: seq<Pair<Rule>>): (r: (Result<Package, ConversionError>, seq<Pair<Rule>>))
    ensures pairs == [] ==> r == (Failure(NoMatch), [])
    ensures pairs != [] ==> r.1 == pairs[1..]
    ensures r.0.Success? <==> pairs != [] && pairs[0].rule == PackageDeclaration
    ensures r.0.Success? ==>
      r.0.value.name == FirstIdentification(pairs[0].inner) && r.0.value.elements == []
  {
    if pairs == [] then (Failure(NoMatch), [])
    else
      var pair := pairs[0];
      if pair.rule != PackageDeclaration then (Failure(NoMatch), pairs[1..])
      else (Success(Package(FirstIdentification(pair.inner), [])), pairs[1..])
  }

  /** The name of a definition: the first `identification` inside its first
      `definition_declaration` child. */
  function DefinitionName(pair: Pair<Rule>): (r: Option<string>)
    ensures r.Some? ==> exists d :: (
      && 0 <= d < |pair.inner|
      && pair.inner[d].rule == DefinitionDeclaration
      && (forall i :: 0 <= i < d ==> pair.inner[i].rule != DefinitionDeclaration)
      && r == FirstIdentification(pair.inner[d].inner))
    ensures forall d ::
              0 <= d < |pair.inner| && pair.inner[d].rule == DefinitionDeclaration
              && (forall i :: 0 <= i < d ==> pair.inner[i].rule != DefinitionDeclaration)
              ==> r == FirstIdentification(pair.inner[d].inner)
    ensures (forall i :: 0 <= i < |pair.inner| ==> pair.inner[i].rule != DefinitionDeclaration) ==> r.None?
  {
    match FindChild(pair.inner, IsDefinitionDeclaration)
    case Some(d) => FirstIdentification(pair.inner[d].inner)
    case None => None
  }

  /** `Definition::from_pest`: takes the next pair whatever its rule; only
      the six definition rules convert. */
  function DefinitionFromPest(pairs: seq<Pair<Rule>>): (r: (Result<Definition, ConversionError>, seq<Pair<Rule>>))
    ensures pairs == [] ==> r == (Failure(NoMatch), [])
    ensures pairs != [] ==> r.1 == pairs[1..]
    ensures r.0.Success? <==> pairs != [] && KindOfRule(pairs[0].rule).Some?
    ensures r.0.Success? ==>
      && r.0.value.kind == KindOfRule(pairs[0].rule).value
      && r.0.value.name == DefinitionName(pairs[0])
      && r.0.value.body == []
  {
    if pairs == [] then (Failure(NoMatch), [])
    else
      var pair := pairs[0];
      match KindOfRule(pair.rule)
      case None => (Failure(NoMatch), pairs[1..])
      case Some(kind) => (Success(Definition(kind, DefinitionName(pair), [])), pairs[1..])
  }

  /** `package MyPackage;` parses to a package named `MyPackage` with no
      elements. */
  lemma PackageExample(span: PestSpan)
    ensures var id := Pair(Identification, "MyPackage", span, []);
      var decl := Pair(PackageDeclaration, "package MyPackage;", span, [id]);
      PackageFromPest([decl]) == (Success(Package(Some("MyPackage"), [])), [])
  {
    var id := Pair(Identification, "MyPackage", span, []);
    assert FindChild([id], IsIdentification) == Some(0);
  }

  /** `part def Vehicle;` parses to a part definition named `Vehicle` with
      an empty body. */
  lemma PartDefinitionExample(span: PestSpan)
    ensures var id := Pair(Identification, "Vehicle", span, []);
      var decl := Pair(DefinitionDeclaration, "Vehicle", span, [id]);
      var def := Pair(PartDefinition, "part def Vehicle;", span, [decl]);
      DefinitionFromPest([def]) == (Success(Definition(Part, Some("Vehicle"), [])), [])
  {
    var id := Pair(Identification, "Vehicle", span, []);
    var decl := Pair(DefinitionDeclaration, "Vehicle", span, [id]);
    assert FindChild([id], IsIdentification) == Some(0);
    assert FindChild([decl], IsDefinitionDeclaration) == Some(0);
  }

  /** An identification outside the declaration does not name a definition. */
  lemma IdentificationOutsideDeclarationIgnored(span: PestSpan)
    ensures var id := Pair(Identification, "Vehicle", span, []);
      var def := Pair(PartDefinition, "part def Vehicle;", span, [id]);
      DefinitionFromPest([def]) == (Success(Definition(Part, None, [])), [])
  {
    var id := Pair(Identification, "Vehicle", span, []);
    assert FindChild([id], IsDefinitionDeclaration) == None;
  }
}
