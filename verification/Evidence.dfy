/** Retained reports as JSON trees and the artifact references they hold
    (tools/run_full_repair_qualification.py:21-36,61-111). */
module Evidence {
  import opened Prelude
  import opened Locators
  import opened Sorting

  /** A parsed JSON value; an object lists each of its keys once, in document order. */
  datatype Json =
    | Null
    | Bool(truth: bool)
    | Number(literal: string)
    | Text(text: string)
    | List(items: seq<Json>)
    | Object(fields: seq<Field>)

  datatype Field = Field(key: string, value: Json)

  datatype Reference = Reference(locator: string, digest: string)

  const BROWSER_MODULES := {
    "indexeddb-crash-child.js", "repair-probe.js", "src/canonical.js", "src/canonicalize.js",
    "src/errors.js", "src/spool.js", "src/offline/validators.js" }

  const SHARED_SCOPES := {"BROWSER_LOOPBACK_ACK", "INDEXEDDB_SPOOL_ONLY"}

  const GRAPH_OWNER_SCOPES := SHARED_SCOPES + {"DISPOSABLE_DESTRUCTION"}

  const CAMPAIGN_KEYS := {
    "result", "executed_vector_ids", "records", "mutation_results",
    "killed_child_count", "qualification_scope", "legacy_full_qualification" }

  function Get(fields: seq<Field>, key: string): Option<Json> {
    if fields == [] then None
    else if fields[0].key == key then Some(fields[0].value)
    else Get(fields[1..], key)
  }

  function TextAt(fields: seq<Field>, key: string): Option<string> {
    var value := Get(fields, key);
    if value.Some? && value.value.Text? then Some(value.value.text) else None
  }

  predicate ListAt(fields: seq<Field>, key: string) {
    var value := Get(fields, key);
    value.Some? && value.value.List?
  }

  function Keys(fields: seq<Field>): set<string> {
    if fields == [] then {} else {fields[0].key} + Keys(fields[1..])
  }

  function TextMap(fields: seq<Field>): Option<map<string, string>> {
    if fields == [] then Some(map[])
    else if !fields[0].value.Text? then None
    else
      match TextMap(fields[1..])
      case None => None
      case Some(rest) => Some(rest[fields[0].key := fields[0].value.text])
  }

  /** A dictionary of text values, compared the way Python compares dictionaries. */
  predicate EqualTextDict(value: Option<Json>, fields: seq<Field>) {
    value.Some? && value.value.Object? && TextMap(value.value.fields) == TextMap(fields)
  }

  /** `execution_binding == {"before": modules, "after": modules}`. */
  predicate Bound(binding: Option<Json>, modules: seq<Field>) {
    && binding.Some? && binding.value.Object?
    && Keys(binding.value.fields) == {"before", "after"}
    && EqualTextDict(Get(binding.value.fields, "before"), modules)
    && EqualTextDict(Get(binding.value.fields, "after"), modules)
  }

  function FieldKey(f: Field): string {
    f.key
  }

  function ModuleReferences(extension: string, modules: seq<Field>): (r: seq<Reference>)
    requires TextMap(modules).Some?
  {
    if modules == [] then []
    else
      [Reference(extension + "/" + modules[0].key, modules[0].value.text)]
      + ModuleReferences(extension, modules[1..])
  }

  lemma {:induction false} TextMapMeans(fields: seq<Field>)
    ensures TextMap(fields).Some? <==> forall f :: f in fields ==> f.value.Text?
  {
    if fields != [] {
      TextMapMeans(fields[1..]);
      assert fields == [fields[0]] + fields[1..];
    }
  }

  /** The campaign summary shares its scope with the case records it lists. */
  predicate IsCampaign(fields: seq<Field>) {
    && TextAt(fields, "qualification_scope").Some?
    && TextAt(fields, "qualification_scope").value in SHARED_SCOPES
    && Keys(fields) == CAMPAIGN_KEYS
    && ListAt(fields, "records") && ListAt(fields, "mutation_results")
  }

  predicate OwnsGraph(fields: seq<Field>) {
    && TextAt(fields, "qualification_scope").Some?
    && TextAt(fields, "qualification_scope").value in GRAPH_OWNER_SCOPES
    && !IsCampaign(fields)
  }

  /** A scope that is a list or an object cannot be looked up in a set: TypeError. */
  predicate ScopeHashable(fields: seq<Field>) {
    var scope := Get(fields, "qualification_scope");
    scope.Some? ==> !scope.value.List? && !scope.value.Object?
  }

  /** The loaded extension files of a record that owns a browser module graph; None when the
      record does not carry the exact graph. */
  function GraphReferences(fields: seq<Field>): Option<seq<Reference>> {
    var directory := TextAt(fields, "case_directory");
    var modules := Get(fields, "module_hashes");
    if directory.None? || modules.None? || !modules.value.Object? then None
    else
      var hashes := modules.value.fields;
      if Keys(hashes) != BROWSER_MODULES || TextMap(hashes).None?
        || !Bound(Get(fields, "typescript_execution_binding"), hashes)
      then None
      else
        match Canonical(directory.value)
        case None => None
        case Some(base) =>
          TextMapMeans(hashes);
          var ordered := SortBy(hashes, FieldKey);
          assert forall f :: f in ordered ==> f in multiset(hashes);
          TextMapMeans(ordered);
          Some(ModuleReferences(base + "/test-extension", ordered))
  }

  /** `path` with `sha256`, or else with `binary_sha256`. */
  function PathReferences(fields: seq<Field>): seq<Reference> {
    var path := TextAt(fields, "path");
    if path.None? then []
    else if TextAt(fields, "sha256").Some? then [Reference(path.value, TextAt(fields, "sha256").value)]
    else if TextAt(fields, "binary_sha256").Some? then [Reference(path.value, TextAt(fields, "binary_sha256").value)]
    else []
  }

  /** What a dictionary contributes before its items are walked; None is an error. */
  function Header(fields: seq<Field>): Option<seq<Reference>> {
    if !ScopeHashable(fields) then None
    else if !OwnsGraph(fields) then Some(PathReferences(fields))
    else
      match GraphReferences(fields)
      case None => None
      case Some(graph) => Some(graph + PathReferences(fields))
  }

  const PATH_SUFFIX := "_path"

  /** A key `x_path` is paired with `x_sha256` of the same dictionary. */
  function PairReference(fields: seq<Field>, f: Field): seq<Reference> {
    var stem := |f.key| - |PATH_SUFFIX|;
    if stem < 0 || f.key[stem..] != PATH_SUFFIX || !f.value.Text? then []
    else
      var paired := TextAt(fields, f.key[..stem] + "_sha256");
      if paired.None? then [] else [Reference(f.value.text, paired.value)]
  }

  // ----- the recursive walk -----

  /** A node's own references, those below it and those after it; an error below or after wins. */
  function Chain(
      own: seq<Reference>, below: Option<seq<Reference>>, after: Option<seq<Reference>>): Option<seq<Reference>> {
    if below.None? || after.None? then None else Some(own + below.value + after.value)
  }

  function Visit(item: Json): Option<seq<Reference>>
    decreases item
  {
    match item
    case Object(fields) =>
      (match Header(fields)
       case None => None
       case Some(header) =>
         match VisitFields(fields, fields)
         case None => None
         case Some(rest) => Some(header + rest))
    case List(items) => VisitItems(items)
    case _ => Some([])
  }

  function VisitFields(pending: seq<Field>, fields: seq<Field>): Option<seq<Reference>>
    decreases pending
  {
    if pending == [] then Some([])
    else Chain(PairReference(fields, pending[0]), Visit(pending[0].value), VisitFields(pending[1..], fields))
  }

  function VisitItems(pending: seq<Json>): Option<seq<Reference>>
    decreases pending
  {
    if pending == [] then Some([]) else Chain([], Visit(pending[0]), VisitItems(pending[1..]))
  }

  /** The list collected so far, continued by what is still pending, is the whole result. */
  predicate Continues(soFar: seq<Reference>, pending: Option<seq<Reference>>, whole: Option<seq<Reference>>) {
    && (pending.Some? <==> whole.Some?)
    && (whole.Some? ==> soFar + pending.value == whole.value)
  }

  lemma ChainContinues(
      soFar: seq<Reference>, own: seq<Reference>, below: Option<seq<Reference>>, after: Option<seq<Reference>>,
      whole: Option<seq<Reference>>)
    requires Continues(soFar, Chain(own, below, after), whole)
    ensures below.None? ==> whole.None?
    ensures below.Some? ==> Continues(soFar + own + below.value, after, whole)
  {
    if below.Some? && after.Some? {
      assert soFar + own + below.value + after.value == soFar + (own + below.value + after.value);
    }
  }

  lemma FieldsUnroll(fields: seq<Field>, i: nat)
    requires i < |fields|
    ensures VisitFields(fields[i..], fields) ==
            Chain(PairReference(fields, fields[i]), Visit(fields[i].value), VisitFields(fields[i + 1..], fields))
  {
    assert fields[i..][0] == fields[i] && fields[i..][1..] == fields[i + 1..];
  }

  lemma ItemsUnroll(items: seq<Json>, i: nat)
    requires i < |items|
    ensures VisitItems(items[i..]) == Chain([], Visit(items[i]), VisitItems(items[i + 1..]))
  {
    assert items[i..][0] == items[i] && items[i..][1..] == items[i + 1..];
  }

  function After(before: seq<Reference>, found: Option<seq<Reference>>): Option<seq<Reference>> {
    match found
    case None => None
    case Some(more) => Some(before + more)
  }

  /** `_artifact_references`: one list extended while the report is walked. */
  class ReferenceWalk {
    var references: seq<Reference>

    constructor ()
      ensures references == []
    {
      references := [];
    }

    method Walk(item: Json) returns (ok: bool)
      modifies this
      ensures ok <==> Visit(item).Some?
      ensures ok ==> references == old(references) + Visit(item).value
      decreases item, 1
    {
      hide Header, PairReference;
      match item {
        case Object(fields) =>
          var header := Header(fields);
          if header.None? {
            return false;
          }
          references := references + header.value;
          ok := WalkFields(fields);
        case List(items) =>
          ok := WalkItems(items);
        case _ =>
          ok := true;
      }
    }

    method WalkFields(fields: seq<Field>) returns (ok: bool)
      modifies this
      ensures ok <==> VisitFields(fields, fields).Some?
      ensures ok ==> references == old(references) + VisitFields(fields, fields).value
      decreases fields, 0
    {
      ghost var whole := After(references, VisitFields(fields, fields));
      var i := 0;
      while i < |fields|
        invariant 0 <= i <= |fields|
        invariant Continues(references, VisitFields(fields[i..], fields), whole)
      {
        FieldsUnroll(fields, i);
        ChainContinues(
          references, PairReference(fields, fields[i]), Visit(fields[i].value), VisitFields(fields[i + 1..], fields),
            whole);
        references := references + PairReference(fields, fields[i]);
        ok := Walk(fields[i].value);
        if !ok {
          return;
        }
        i := i + 1;
      }
      ok := true;
    }

    method WalkItems(items: seq<Json>) returns (ok: bool)
      modifies this
      ensures ok <==> VisitItems(items).Some?
      ensures ok ==> references == old(references) + VisitItems(items).value
      decreases items, 0
    {
      ghost var whole := After(references, VisitItems(items));
      var i := 0;
      while i < |items|
        invariant 0 <= i <= |items|
        invariant Continues(references, VisitItems(items[i..]), whole)
      {
        ItemsUnroll(items, i);
        ChainContinues(references, [], Visit(items[i]), VisitItems(items[i + 1..]), whole);
        assert references + [] == references;
        ok := Walk(items[i]);
        if !ok {
          return;
        }
        i := i + 1;
      }
      ok := true;
    }
  }

  // ----- every node is visited, and nothing else is collected -----

  function Child(item: Json, i: nat): Option<Json> {
    match item
    case Object(fields) => if i < |fields| then Some(fields[i].value) else None
    case List(items) => if i < |items| then Some(items[i]) else None
    case _ => None
  }

  /** The node reached by following child positions. */
  function At(item: Json, path: seq<nat>): Option<Json>
    decreases |path|
  {
    if path == [] then Some(item)
    else
      match Child(item, path[0])
      case None => None
      case Some(child) => At(child, path[1..])
  }

  /** The references a node holds itself; None when the node is malformed. */
  ghost predicate Holds(item: Json, r: Reference) {
    && item.Object? && Header(item.fields).Some?
    && (r in Header(item.fields).value || exists f :: f in item.fields && r in PairReference(item.fields, f))
  }

  predicate Malformed(item: Json) {
    item.Object? && Header(item.fields).None?
  }

  ghost predicate FaultAt(item: Json, path: seq<nat>) {
    At(item, path).Some? && Malformed(At(item, path).value)
  }

  ghost predicate HeldAt(item: Json, path: seq<nat>, r: Reference) {
    At(item, path).Some? && Holds(At(item, path).value, r)
  }

  ghost predicate Faulty(item: Json) {
    exists path :: FaultAt(item, path)
  }

  ghost predicate Held(item: Json, r: Reference) {
    exists path :: HeldAt(item, path, r)
  }

  lemma FaultyStep(item: Json)
    ensures Faulty(item) <==> Malformed(item) || exists i: nat :: Child(item, i).Some? && Faulty(Child(item, i).value)
  {
    if Malformed(item) {
      assert FaultAt(item, []);
    }
    if i: nat :| Child(item, i).Some? && Faulty(Child(item, i).value) {
      var path :| FaultAt(Child(item, i).value, path);
      assert ([i] + path)[1..] == path;
      assert FaultAt(item, [i] + path);
    }
    if Faulty(item) && !Malformed(item) {
      var path :| FaultAt(item, path);
      assert FaultAt(Child(item, path[0]).value, path[1..]);
    }
  }

  lemma HeldStep(item: Json, r: Reference)
    ensures Held(item, r) <==> Holds(item, r) || exists i: nat :: Child(item, i).Some? && Held(Child(item, i).value, r)
  {
    if Holds(item, r) {
      assert HeldAt(item, [], r);
    }
    if i: nat :| Child(item, i).Some? && Held(Child(item, i).value, r) {
      var path :| HeldAt(Child(item, i).value, path, r);
      assert ([i] + path)[1..] == path;
      assert HeldAt(item, [i] + path, r);
    }
    if Held(item, r) && !Holds(item, r) {
      var path :| HeldAt(item, path, r);
      assert HeldAt(Child(item, path[0]).value, path[1..], r);
    }
  }

  /** The walk fails exactly when some node of the report, at any depth, is malformed, and
      otherwise collects exactly the references held by the nodes of the report. */
  lemma {:induction false} VisitExact(item: Json)
    ensures Visit(item).None? <==> Faulty(item)
    ensures Visit(item).Some? ==> forall r :: r in Visit(item).value <==> Held(item, r)
    decreases item
  {
    FaultyStep(item);
    match item {
      case Object(fields) =>
        VisitFieldsExact(fields, fields);
        assert forall i: nat | i < |fields| :: Child(item, i) == Some(fields[i].value);
        if Visit(item).Some? {
          forall r
            ensures r in Visit(item).value <==> Held(item, r)
          {
            HeldStep(item, r);
          }
        }
      case List(items) =>
        VisitItemsExact(items);
        assert forall i: nat | i < |items| :: Child(item, i) == Some(items[i]);
        if Visit(item).Some? {
          forall r
            ensures r in Visit(item).value <==> Held(item, r)
          {
            HeldStep(item, r);
          }
        }
      case _ =>
        forall r
          ensures !Held(item, r)
        {
          HeldStep(item, r);
        }
    }
  }

  lemma {:induction false} VisitFieldsExact(pending: seq<Field>, fields: seq<Field>)
    ensures VisitFields(pending, fields).None? <==> exists i :: 0 <= i < |pending| && Faulty(pending[i].value)
    ensures VisitFields(pending, fields).Some? ==>
              forall r :: r in VisitFields(pending, fields).value <==>
                          exists i :: 0 <= i < |pending|
                            && (r in PairReference(fields, pending[i]) || Held(pending[i].value, r))
    decreases pending
  {
    if pending != [] {
      VisitExact(pending[0].value);
      VisitFieldsExact(pending[1..], fields);
      assert pending == [pending[0]] + pending[1..];
    }
  }

  lemma {:induction false} VisitItemsExact(pending: seq<Json>)
    ensures VisitItems(pending).None? <==> exists i :: 0 <= i < |pending| && Faulty(pending[i])
    ensures VisitItems(pending).Some? ==>
              forall r :: r in VisitItems(pending).value <==> exists i :: 0 <= i < |pending| && Held(pending[i], r)
    decreases pending
  {
    if pending != [] {
      VisitExact(pending[0]);
      VisitItemsExact(pending[1..]);
      assert pending == [pending[0]] + pending[1..];
    }
  }
}
