/** `KermlAdapter::populate`: enter the file's root namespace when one is
    declared, visit every top-level element, leave the namespace again, then
    hand over the accumulated errors. The visitor steps themselves are not
    part of this model: each is a function from the current scope and the
    visited item to the errors that step records. */
module KermlPopulation {
  import opened Wrappers

  /** A KerML file: an optional root namespace and its top-level elements. */
  datatype KermlFile<E> = KermlFile(namespace: Option<string>, elements: seq<E>)

  /** What the adapter did, in order. */
  datatype Step<E> = EnterNamespace(name: string) | VisitElement(element: E) | ExitNamespace

  /** The adapter's state: the namespace scope stack (innermost last), the
      error list `visit_*` steps push to, and the trace of steps taken. */
  datatype Adapter<E, Err> = Adapter(scope: seq<string>, errors: seq<Err>, trace: seq<Step<E>>)

  /** The errors a visitor step records, given the scope it runs in. */
  type Visitor<!T, Err> = (seq<string>, T) -> seq<Err>

  /** `visit_namespace`: pushes the namespace onto the scope. */
  function EnterScope<E, Err>(a: Adapter<E, Err>, name: string, visitNamespace: Visitor<string, Err>): (r: Adapter<E, Err>)
    ensures |r.scope| == |a.scope| + 1 && a.scope <= r.scope && r.scope[|a.scope|] == name
    ensures a.errors <= r.errors
    ensures r.trace == a.trace + [EnterNamespace(name)]
  {
    Adapter(a.scope + [name], a.errors + visitNamespace(a.scope, name), a.trace + [EnterNamespace(name)])
  }

  /** `exit_namespace`: pops the innermost namespace (a no-op on an empty
      stack, as `Vec::pop` is). */
  function ExitScope<E, Err>(a: Adapter<E, Err>): (r: Adapter<E, Err>)
    ensures a.scope != [] ==> r.scope + [a.scope[|a.scope| - 1]] == a.scope
    ensures a.scope == [] ==> r.scope == []
    ensures r.errors == a.errors && r.trace == a.trace + [ExitNamespace]
  {
    Adapter(if a.scope == [] then [] else a.scope[..|a.scope| - 1], a.errors, a.trace + [ExitNamespace])
  }

  /** `visit_element`: records the element's errors; the scope is left as
      found. */
  function VisitOne<E, Err>(a: Adapter<E, Err>, e: E, visitElement: Visitor<E, Err>): (r: Adapter<E, Err>)
    ensures r.scope == a.scope && a.errors <= r.errors
    ensures r.trace == a.trace + [VisitElement(e)]
  {
    Adapter(a.scope, a.errors + visitElement(a.scope, e), a.trace + [VisitElement(e)])
  }

  /** The reference for the element walk: one visit step per element. */
  function Visits<E>(elements: seq<E>): (r: seq<Step<E>>)
    ensures |r| == |elements| && forall k :: 0 <= k < |elements| ==> r[k] == VisitElement(elements[k])
  {
    if elements == [] then [] else [VisitElement(elements[0])] + Visits(elements[1..])
  }

  /** The reference for the errors of the walk: every element's errors, in
      element order, all under the same scope. */
  function WalkErrors<E, Err>(scope: seq<string>, elements: seq<E>, visitElement: Visitor<E, Err>): seq<Err>
  {
    if elements == [] then [] else visitElement(scope, elements[0]) + WalkErrors(scope, elements[1..], visitElement)
  }

  /** The `for element in &file.elements` loop: an error never stops it. */
  function VisitAll<E, Err>(a: Adapter<E, Err>, elements: seq<E>, visitElement: Visitor<E, Err>): (r: Adapter<E, Err>)
    ensures r.scope == a.scope
    ensures r.errors == a.errors + WalkErrors(a.scope, elements, visitElement)
    ensures r.trace == a.trace + Visits(elements)
    decreases |elements|
  {
    if elements == [] then a
    else
      var next := VisitOne(a, elements[0], visitElement);
      var r := VisitAll(next, elements[1..], visitElement);
      assert r.errors == a.errors + (visitElement(a.scope, elements[0]) + WalkErrors(a.scope, elements[1..], visitElement));
      assert r.trace == a.trace + ([VisitElement(elements[0])] + Visits(elements[1..]));
      r
  }

  /** The steps `populate` takes on `file`, in order. */
  function PopulateTrace<E>(file: KermlFile<E>): seq<Step<E>>
  {
    match file.namespace
    case Some(name) => [EnterNamespace(name)] + Visits(file.elements) + [ExitNamespace]
    case None => Visits(file.elements)
  }

  /** Every error `populate` records on `file`, namespace first. */
  function PopulateErrors<E, Err>(scope: seq<string>, file: KermlFile<E>,
                                  visitNamespace: Visitor<string, Err>, visitElement: Visitor<E, Err>): seq<Err>
  {
    match file.namespace
    case Some(name) => visitNamespace(scope, name) + WalkErrors(scope + [name], file.elements, visitElement)
    case None => WalkErrors(scope, file.elements, visitElement)
  }

  /** `populate`: returns the adapter afterwards and `Ok(())` or
      `Err(errors)`. On `Err` the errors are moved out of the adapter. */
  function Populate<E, Err>(a: Adapter<E, Err>, file: KermlFile<E>,
                            visitNamespace: Visitor<string, Err>, visitElement: Visitor<E, Err>)
    : (r: (Adapter<E, Err>, Outcome<seq<Err>>))
    ensures r.0.scope == a.scope
    ensures r.0.trace == a.trace + PopulateTrace(file)
    ensures var all := a.errors + PopulateErrors(a.scope, file, visitNamespace, visitElement);
      && (r.1 == Pass <==> all == [])
      && (r.1 == Pass ==> r.0.errors == [])
      && (r.1.Fail? ==> r.1.error == all && r.0.errors == [])
  {
    var entered := match file.namespace
      case Some(name) => EnterScope(a, name, visitNamespace)
      case None => a;
    var walked := VisitAll(entered, file.elements, visitElement);
    var exited := if file.namespace.Some? then ExitScope(walked) else walked;
    if exited.errors == [] then (exited, Pass)
    else (exited.(errors := []), Fail(exited.errors))
  }

  /** The root namespace is entered first exactly when the file declares
      one, and the scope is left exactly when it was entered. */
  lemma NamespaceEnteredIffDeclared<E, Err>(a: Adapter<E, Err>, file: KermlFile<E>,
                                            visitNamespace: Visitor<string, Err>, visitElement: Visitor<E, Err>)
    ensures var t := Populate(a, file, visitNamespace, visitElement).0.trace[|a.trace|..];
      && (file.namespace.Some? <==> (t != [] && t[0].EnterNamespace?))
      && (file.namespace.Some? <==> (t != [] && t[|t| - 1] == ExitNamespace))
      && (file.namespace.Some? ==> t[0] == EnterNamespace(file.namespace.value))
  {
    var t := Populate(a, file, visitNamespace, visitElement).0.trace[|a.trace|..];
    assert t == PopulateTrace(file);
    if file.namespace.None? {
      var v := Visits(file.elements);
      assert t == v;
      if t != [] {
        assert v[0] == VisitElement(file.elements[0]);
        assert v[|v| - 1] == VisitElement(file.elements[|v| - 1]);
      }
    }
  }

  /** Every element is visited exactly once, in file order, however many
      errors earlier visits recorded. */
  lemma EachElementVisitedOnceInOrder<E, Err>(a: Adapter<E, Err>, file: KermlFile<E>,
                                              visitNamespace: Visitor<string, Err>, visitElement: Visitor<E, Err>)
    ensures var off := |a.trace| + (if file.namespace.Some? then 1 else 0);
      var tr := Populate(a, file, visitNamespace, visitElement).0.trace;
      && off + |file.elements| <= |tr|
      && (forall k :: 0 <= k < |file.elements| ==> tr[off + k] == VisitElement(file.elements[k]))
      && (forall j :: |a.trace| <= j < |tr| && tr[j].VisitElement? ==> off <= j < off + |file.elements|)
  {
    var tr := Populate(a, file, visitNamespace, visitElement).0.trace;
    match file.namespace
    case Some(name) =>
      VisitsPlaced(tr, a.trace + [EnterNamespace(name)], file.elements, [ExitNamespace], |a.trace|);
    case None =>
      VisitsPlaced(tr, a.trace, file.elements, [], |a.trace|);
  }

  /** Visit steps framed by non-visit steps sit exactly where the walk put them. */
  lemma VisitsPlaced<E>(tr: seq<Step<E>>, pre: seq<Step<E>>, elements: seq<E>, post: seq<Step<E>>, base: nat)
    requires tr == pre + Visits(elements) + post
    requires base <= |pre|
    requires forall j :: base <= j < |pre| ==> !pre[j].VisitElement?
    requires forall j :: 0 <= j < |post| ==> !post[j].VisitElement?
    ensures |pre| + |elements| <= |tr|
    ensures forall k :: 0 <= k < |elements| ==> tr[|pre| + k] == VisitElement(elements[k])
    ensures forall j :: base <= j < |tr| && tr[j].VisitElement? ==> |pre| <= j < |pre| + |elements|
  {
  }

  /** `populate` succeeds exactly when no earlier call left an error and no
      step of this call recorded one. */
  lemma OkIffNoStepErrors<E, Err>(a: Adapter<E, Err>, file: KermlFile<E>,
                                  visitNamespace: Visitor<string, Err>, visitElement: Visitor<E, Err>)
    ensures var inner := if file.namespace.Some? then a.scope + [file.namespace.value] else a.scope;
      Populate(a, file, visitNamespace, visitElement).1 == Pass
      <==> && a.errors == []
           && (file.namespace.Some? ==> visitNamespace(a.scope, file.namespace.value) == [])
           && forall k :: 0 <= k < |file.elements| ==> visitElement(inner, file.elements[k]) == []
  {
    var inner := if file.namespace.Some? then a.scope + [file.namespace.value] else a.scope;
    NoElementErrors(inner, file.elements, visitElement);
  }

  lemma {:induction false} NoElementErrors<E, Err>(scope: seq<string>, elements: seq<E>, visitElement: Visitor<E, Err>)
    ensures WalkErrors(scope, elements, visitElement) == []
      <==> forall k :: 0 <= k < |elements| ==> visitElement(scope, elements[k]) == []
    decreases |elements|
  {
    if elements != [] {
      NoElementErrors(scope, elements[1..], visitElement);
      assert forall k :: 1 <= k < |elements| ==> elements[1..][k - 1] == elements[k];
    }
  }
}
