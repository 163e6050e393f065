/** The references of a report node by node and field by field, and the rows they declare. */
module EvidenceFacts {
  import opened Prelude
  import opened Locators
  import opened Sorting
  import opened Evidence
  import opened Declarations

  // ----- fields of an object -----

  /** Field i is the first one under the key. */
  predicate FirstAt(fields: seq<Field>, key: string, i: nat) {
    i < |fields| && fields[i].key == key && forall j :: 0 <= j < i ==> fields[j].key != key
  }

  ghost predicate Has(fields: seq<Field>, key: string, value: Json) {
    exists i: nat :: FirstAt(fields, key, i) && fields[i].value == value
  }

  /** The object holds a text under the key. */
  ghost predicate Says(fields: seq<Field>, key: string, text: string) {
    Has(fields, key, Text(text))
  }

  function KeySet(fields: seq<Field>): set<string> {
    set f | f in fields :: f.key
  }

  lemma {:induction false} GetExact(fields: seq<Field>, key: string)
    ensures forall v :: Get(fields, key) == Some(v) <==> Has(fields, key, v)
  {
    if fields != [] {
      GetExact(fields[1..], key);
      forall v
        ensures Get(fields, key) == Some(v) <==> Has(fields, key, v)
      {
        HasStep(fields, key, v);
      }
    }
  }

  lemma HasStep(fields: seq<Field>, key: string, v: Json)
    requires fields != []
    ensures Has(fields, key, v) <==>
            if fields[0].key == key then fields[0].value == v else Has(fields[1..], key, v)
  {
    if Has(fields, key, v) {
      var i: nat :| FirstAt(fields, key, i) && fields[i].value == v;
      if fields[0].key != key {
        assert FirstAt(fields[1..], key, i - 1);
      }
    }
    if fields[0].key == key && fields[0].value == v {
      assert FirstAt(fields, key, 0);
    }
    if fields[0].key != key && Has(fields[1..], key, v) {
      var i: nat :| FirstAt(fields[1..], key, i) && fields[1..][i].value == v;
      assert FirstAt(fields, key, i + 1);
    }
  }

  lemma SaysExact(fields: seq<Field>, key: string)
    ensures forall text :: TextAt(fields, key) == Some(text) <==> Says(fields, key, text)
    ensures TextAt(fields, key).Some? <==> exists text :: Says(fields, key, text)
  {
    GetExact(fields, key);
    forall text
      ensures TextAt(fields, key) == Some(text) <==> Says(fields, key, text)
    {
      assert Get(fields, key) == Some(Text(text)) <==> Has(fields, key, Text(text));
    }
    if TextAt(fields, key).Some? {
      assert Says(fields, key, TextAt(fields, key).value);
    }
  }

  lemma {:induction false} KeysExact(fields: seq<Field>)
    ensures Keys(fields) == KeySet(fields)
  {
    if fields != [] {
      KeysExact(fields[1..]);
      assert fields == [fields[0]] + fields[1..];
    }
  }

  /** All values are texts. */
  predicate AllTexts(fields: seq<Field>) {
    forall f :: f in fields ==> f.value.Text?
  }

  /** Two objects of texts that say the same under every key. */
  ghost predicate SameTexts(a: seq<Field>, b: seq<Field>) {
    AllTexts(a) && AllTexts(b) && forall key, text :: Says(a, key, text) <==> Says(b, key, text)
  }

  lemma {:induction false} TextMapExact(fields: seq<Field>)
    ensures TextMap(fields).Some? <==> AllTexts(fields)
    ensures TextMap(fields).Some? ==>
              forall key, text :: (key in TextMap(fields).value && TextMap(fields).value[key] == text)
                                  <==> Says(fields, key, text)
  {
    if fields != [] {
      TextMapExact(fields[1..]);
      assert fields == [fields[0]] + fields[1..];
      if AllTexts(fields) {
        forall key, text
          ensures (key in TextMap(fields).value && TextMap(fields).value[key] == text) <==> Says(fields, key, text)
        {
          HasStep(fields, key, Text(text));
          var rest := TextMap(fields[1..]).value;
          assert (key in rest && rest[key] == text) <==> Says(fields[1..], key, text);
          assert TextMap(fields).value == rest[fields[0].key := fields[0].value.text];
        }
      }
    }
  }

  lemma SameTextsExact(a: seq<Field>, b: seq<Field>)
    requires AllTexts(b)
    ensures TextMap(a) == TextMap(b) <==> SameTexts(a, b)
  {
    hide TextMap;
    TextMapExact(a);
    TextMapExact(b);
    if SameTexts(a, b) {
      var m, n := TextMap(a).value, TextMap(b).value;
      forall key
        ensures key in m <==> key in n
        ensures key in m && key in n ==> m[key] == n[key]
      {
        if key in m {
          assert Says(a, key, m[key]) && Says(b, key, m[key]);
        }
        if key in n {
          assert Says(b, key, n[key]) && Says(a, key, n[key]);
        }
      }
      assert m == n;
    }
    if TextMap(a) == TextMap(b) {
      forall key, text
        ensures Says(a, key, text) <==> Says(b, key, text)
      {
      }
    }
  }

  // ----- which nodes own a browser module graph -----

  /** The campaign summary: one of the two shared scopes, exactly seven keys and two lists. */
  ghost predicate IsSummary(fields: seq<Field>) {
    && (Says(fields, "qualification_scope", "BROWSER_LOOPBACK_ACK")
        || Says(fields, "qualification_scope", "INDEXEDDB_SPOOL_ONLY"))
    && KeySet(fields) == {"result", "executed_vector_ids", "records", "mutation_results", "killed_child_count",
                          "qualification_scope", "legacy_full_qualification"}
    && (exists items :: Has(fields, "records", List(items)))
    && (exists items :: Has(fields, "mutation_results", List(items)))
  }

  /** Every other record of the three scopes owns a graph. */
  ghost predicate IsOwner(fields: seq<Field>) {
    && (Says(fields, "qualification_scope", "BROWSER_LOOPBACK_ACK")
        || Says(fields, "qualification_scope", "INDEXEDDB_SPOOL_ONLY")
        || Says(fields, "qualification_scope", "DISPOSABLE_DESTRUCTION"))
    && !IsSummary(fields)
  }

  lemma ListExact(fields: seq<Field>, key: string)
    ensures ListAt(fields, key) <==> exists items :: Has(fields, key, List(items))
  {
    GetExact(fields, key);
    if ListAt(fields, key) {
      assert Has(fields, key, List(Get(fields, key).value.items));
    }
  }

  lemma ScopeIs(fields: seq<Field>, scope: string)
    ensures Says(fields, "qualification_scope", scope) <==> TextAt(fields, "qualification_scope") == Some(scope)
  {
    SaysExact(fields, "qualification_scope");
  }

  lemma SummaryExact(fields: seq<Field>)
    ensures IsCampaign(fields) <==> IsSummary(fields)
  {
    hide Get, Keys, Says, TextAt, KeySet, ListAt, Has;
    ScopeIs(fields, "BROWSER_LOOPBACK_ACK");
    ScopeIs(fields, "INDEXEDDB_SPOOL_ONLY");
    KeysExact(fields);
    ListExact(fields, "records");
    ListExact(fields, "mutation_results");
  }

  lemma OwnerExact(fields: seq<Field>)
    ensures OwnsGraph(fields) <==> IsOwner(fields)
  {
    hide Get, Says, TextAt, IsCampaign, IsSummary;
    ScopeIs(fields, "BROWSER_LOOPBACK_ACK");
    ScopeIs(fields, "INDEXEDDB_SPOOL_ONLY");
    ScopeIs(fields, "DISPOSABLE_DESTRUCTION");
    SummaryExact(fields);
  }

  // ----- the graph -----

  /** The record names its case directory and the hashes of exactly the seven loaded modules,
      and its execution binding repeats them before and after. */
  ghost predicate Carries(
      fields: seq<Field>, directory: string, modules: seq<Field>, binding: seq<Field>, before: seq<Field>,
      after: seq<Field>)
  {
    && Says(fields, "case_directory", directory)
    && Has(fields, "module_hashes", Object(modules))
    && KeySet(modules) == {"indexeddb-crash-child.js", "repair-probe.js", "src/canonical.js", "src/canonicalize.js",
                           "src/errors.js", "src/spool.js", "src/offline/validators.js"}
    && Has(fields, "typescript_execution_binding", Object(binding)) && KeySet(binding) == {"before", "after"}
    && Has(binding, "before", Object(before)) && SameTexts(before, modules)
    && Has(binding, "after", Object(after)) && SameTexts(after, modules)
  }

  /** The loaded extension files below `base`. */
  ghost predicate GraphBelow(fields: seq<Field>, base: string, modules: seq<Field>) {
    exists directory, binding, before, after ::
      Carries(fields, directory, modules, binding, before, after) && Canonical(directory) == Some(base)
  }

  lemma BoundExact(fields: seq<Field>, modules: seq<Field>)
    requires AllTexts(modules)
    ensures Bound(Get(fields, "typescript_execution_binding"), modules) <==>
            exists binding, before, after :: BindsBoth(fields, modules, binding, before, after)
  {
    hide Get, Has, TextMap, KeySet, Keys;
    GetExact(fields, "typescript_execution_binding");
    var whole := Get(fields, "typescript_execution_binding");
    if whole.Some? && whole.value.Object? {
      var b := whole.value.fields;
      KeysExact(b);
      GetExact(b, "before");
      GetExact(b, "after");
      EqualDictExact(Get(b, "before"), modules);
      EqualDictExact(Get(b, "after"), modules);
      if Bound(whole, modules) {
        assert BindsBoth(fields, modules, b, Get(b, "before").value.fields, Get(b, "after").value.fields);
      }
    }
    if binding, before, after :| BindsBoth(fields, modules, binding, before, after) {
      assert whole == Some(Object(binding));
    }
  }

  ghost predicate BindsBoth(
      fields: seq<Field>, modules: seq<Field>, binding: seq<Field>, before: seq<Field>, after: seq<Field>)
  {
    && Has(fields, "typescript_execution_binding", Object(binding)) && KeySet(binding) == {"before", "after"}
    && Has(binding, "before", Object(before)) && SameTexts(before, modules)
    && Has(binding, "after", Object(after)) && SameTexts(after, modules)
  }

  lemma EqualDictExact(value: Option<Json>, modules: seq<Field>)
    requires AllTexts(modules)
    ensures EqualTextDict(value, modules) <==>
            value.Some? && value.value.Object? && SameTexts(value.value.fields, modules)
  {
    if value.Some? && value.value.Object? {
      SameTextsExact(value.value.fields, modules);
    }
  }

  /** Reference r is to a module of the record's graph. */
  ghost predicate NamesModule(fields: seq<Field>, r: Reference) {
    exists base, modules, f: Field :: GraphBelow(fields, base, modules) && f in modules
                               && r.locator == base + "/test-extension/" + f.key && Text(r.digest) == f.value
  }

  lemma {:induction false} ModuleReferencesExact(extension: string, modules: seq<Field>, r: Reference)
    requires TextMap(modules).Some?
    ensures r in ModuleReferences(extension, modules) <==>
            exists f :: f in modules && r.locator == extension + "/" + f.key && Text(r.digest) == f.value
  {
    if modules != [] {
      ModuleReferencesExact(extension, modules[1..], r);
      assert modules == [modules[0]] + modules[1..];
    }
  }

  lemma GraphExact(fields: seq<Field>)
    ensures GraphReferences(fields).Some? <==> exists base, modules :: GraphBelow(fields, base, modules)
    ensures GraphReferences(fields).Some? ==>
              forall r :: r in GraphReferences(fields).value <==> NamesModule(fields, r)
  {
    hide Bound, TextMap, Canonical, IsCanonical, KeySet, Keys, Get, SortBy, ModuleReferences, Says, Has, SameTexts;
    SaysExact(fields, "case_directory");
    GetExact(fields, "module_hashes");
    var found := Get(fields, "module_hashes");
    if found.Some? && found.value.Object? {
      var modules := found.value.fields;
      KeysExact(modules);
      TextMapExact(modules);
      if AllTexts(modules) {
        BoundExact(fields, modules);
      }
      if GraphReferences(fields).Some? {
        GraphIsBelow(fields, modules);
      }
    }
    if base, modules :| GraphBelow(fields, base, modules) {
      BelowHasGraph(fields, base, modules);
    }
  }

  lemma GraphIsBelow(fields: seq<Field>, modules: seq<Field>)
    requires GraphReferences(fields).Some? && Get(fields, "module_hashes") == Some(Object(modules))
    ensures exists base, ms :: GraphBelow(fields, base, ms)
    ensures forall r :: r in GraphReferences(fields).value <==> NamesModule(fields, r)
  {
    hide Bound, TextMap, Canonical, IsCanonical, KeySet, Keys, Get, SortBy, ModuleReferences, Has, SameTexts, Says;
    SaysExact(fields, "case_directory");
    GetExact(fields, "module_hashes");
    KeysExact(modules);
    TextMapExact(modules);
    BoundExact(fields, modules);
    var directory := TextAt(fields, "case_directory").value;
    var base := Canonical(directory).value;
    var binding, before, after :| BindsBoth(fields, modules, binding, before, after);
    assert Carries(fields, directory, modules, binding, before, after);
    assert GraphBelow(fields, base, modules);
    OneGraph(fields, base, modules);
    SortByMembers(modules, FieldKey);
    var ordered := SortBy(modules, FieldKey);
    TextMapExact(ordered);
    forall r
      ensures r in GraphReferences(fields).value <==> NamesModule(fields, r)
    {
      ModuleReferencesExact(base + "/test-extension", ordered, r);
      assert forall f: Field :: base + "/test-extension" + "/" + f.key == base + "/test-extension/" + f.key;
    }
  }

  /** A record determines its graph. */
  lemma OneGraph(fields: seq<Field>, base: string, modules: seq<Field>)
    requires GraphBelow(fields, base, modules)
    ensures forall b, m :: GraphBelow(fields, b, m) ==> b == base && m == modules
  {
    hide Canonical, IsCanonical, KeySet, Get, SameTexts;
    SaysExact(fields, "case_directory");
    GetExact(fields, "module_hashes");
  }

  lemma BelowHasGraph(fields: seq<Field>, base: string, modules: seq<Field>)
    requires GraphBelow(fields, base, modules)
    ensures GraphReferences(fields).Some?
  {
    hide Bound, TextMap, Canonical, IsCanonical, KeySet, Keys, Get, SortBy, ModuleReferences;
    SaysExact(fields, "case_directory");
    GetExact(fields, "module_hashes");
    KeysExact(modules);
    TextMapExact(modules);
    BoundExact(fields, modules);
    var directory, binding, before, after :|
      Carries(fields, directory, modules, binding, before, after) && Canonical(directory) == Some(base);
    assert BindsBoth(fields, modules, binding, before, after);
  }

  // ----- every node -----

  /** `path` with `sha256`, or with `binary_sha256` when there is no `sha256`. */
  ghost predicate NamesPath(fields: seq<Field>, r: Reference) {
    && Says(fields, "path", r.locator)
    && (Says(fields, "sha256", r.digest)
        || (Says(fields, "binary_sha256", r.digest) && forall text :: !Says(fields, "sha256", text)))
  }

  /** A text under `x_path` with a text under `x_sha256`. */
  ghost predicate NamesPair(fields: seq<Field>, r: Reference) {
    exists stem :: Field(stem + "_path", Text(r.locator)) in fields && Says(fields, stem + "_sha256", r.digest)
  }

  /** The scope is a list or an object, or the record owns a graph it does not carry. */
  ghost predicate Broken(fields: seq<Field>) {
    || (exists items :: Has(fields, "qualification_scope", List(items)))
    || (exists inner :: Has(fields, "qualification_scope", Object(inner)))
    || (IsOwner(fields) && forall base, modules :: !GraphBelow(fields, base, modules))
  }

  lemma PathExact(fields: seq<Field>, r: Reference)
    ensures r in PathReferences(fields) <==> NamesPath(fields, r)
  {
    hide Says, TextAt;
    SaysExact(fields, "path");
    SaysExact(fields, "sha256");
    SaysExact(fields, "binary_sha256");
  }

  lemma PairExact(fields: seq<Field>, r: Reference)
    ensures (exists f :: f in fields && r in PairReference(fields, f)) <==> NamesPair(fields, r)
  {
    hide Says, TextAt;
    if f :| f in fields && r in PairReference(fields, f) {
      var stem := f.key[..|f.key| - |PATH_SUFFIX|];
      SaysExact(fields, stem + "_sha256");
      assert f.key == stem + "_path" && f == Field(stem + "_path", Text(r.locator));
    }
    if NamesPair(fields, r) {
      var stem :| Field(stem + "_path", Text(r.locator)) in fields && Says(fields, stem + "_sha256", r.digest);
      var f := Field(stem + "_path", Text(r.locator));
      SaysExact(fields, stem + "_sha256");
      assert f.key[|stem|..] == PATH_SUFFIX && f.key[..|stem|] == stem;
      assert r in PairReference(fields, f);
    }
  }

  lemma HashableExact(fields: seq<Field>)
    ensures !ScopeHashable(fields) <==>
            || (exists items :: Has(fields, "qualification_scope", List(items)))
            || (exists inner :: Has(fields, "qualification_scope", Object(inner)))
  {
    GetExact(fields, "qualification_scope");
    var scope := Get(fields, "qualification_scope");
    if scope.Some? && scope.value.List? {
      assert Has(fields, "qualification_scope", List(scope.value.items));
    }
    if scope.Some? && scope.value.Object? {
      assert Has(fields, "qualification_scope", Object(scope.value.fields));
    }
  }

  /** What one node contributes, in its fields: a node is malformed when its scope is a list or an
      object or it owns a graph it does not carry exactly; otherwise it holds its path, its pairs
      and, as an owner, the modules of its graph. */
  lemma NodeExact(item: Json, r: Reference)
    ensures Malformed(item) <==> item.Object? && Broken(item.fields)
    ensures Holds(item, r) <==>
            && item.Object? && !Broken(item.fields)
            && (NamesPath(item.fields, r) || NamesPair(item.fields, r)
                || (IsOwner(item.fields) && NamesModule(item.fields, r)))
  {
    hide ScopeHashable, OwnsGraph, IsOwner, GraphReferences, PathReferences, PairReference, Has, NamesModule;
    hide NamesPath, NamesPair, GraphBelow;
    if item.Object? {
      HashableExact(item.fields);
      OwnerExact(item.fields);
      GraphExact(item.fields);
      PathExact(item.fields, r);
      PairExact(item.fields, r);
    }
  }

  // ----- the rows -----

  /** Sixty-four lower-case hexadecimal digits. */
  predicate HexDigest(digest: string) {
    |digest| == 64 && forall i :: 0 <= i < 64 ==> '0' <= digest[i] <= '9' || 'a' <= digest[i] <= 'f'
  }

  lemma HexCharacter(c: char)
    ensures c in "0123456789abcdef" <==> '0' <= c <= '9' || 'a' <= c <= 'f'
  {
    var hex := "0123456789abcdef";
    assert hex[0] == '0' && hex[1] == '1' && hex[2] == '2' && hex[3] == '3' && hex[4] == '4' && hex[5] == '5';
    assert hex[6] == '6' && hex[7] == '7' && hex[8] == '8' && hex[9] == '9' && hex[10] == 'a' && hex[11] == 'b';
    assert hex[12] == 'c' && hex[13] == 'd' && hex[14] == 'e' && hex[15] == 'f';
    if '0' <= c <= '9' {
      assert c == '0' + (c - '0') && hex[(c - '0') as int] == c;
    } else if 'a' <= c <= 'f' {
      assert hex[(c - 'a') as int + 10] == c;
    }
  }

  lemma DigestExact(digest: string)
    ensures IsDigest(digest) <==> HexDigest(digest)
  {
    if IsDigest(digest) {
      forall i | 0 <= i < 64
        ensures '0' <= digest[i] <= '9' || 'a' <= digest[i] <= 'f'
      {
        assert digest[i] in digest;
        HexCharacter(digest[i]);
      }
    }
    if HexDigest(digest) {
      forall c | c in digest
        ensures c in "0123456789abcdef"
      {
        HexCharacter(c);
      }
    }
  }

  /** A row is declared exactly for a reference with a hexadecimal digest whose canonical locator
      lies in a retained boundary, under the longest such boundary. */
  lemma DeclaredExact(references: seq<Reference>, d: Declaration, roots: Roots, files: Files, sha: Hash)
    ensures Declared(references, d, roots, files, sha) <==>
            && HexDigest(d.digest)
            && (exists r :: r in references && Canonical(r.locator) == Some(d.locator) && r.digest == d.digest)
            && d.boundary in roots.retained && Below(d.locator, d.boundary)
            && forall b :: b in roots.retained && Below(d.locator, b) ==> |b| <= |d.boundary|
  {
    hide Canonical, IsCanonical, Within, IsDigest, HexDigest;
    DigestExact(d.digest);
    forall b: Locator
      ensures Within(d.locator, b) <==> Below(d.locator, b)
    {
      WithinIsPrefix(d.locator, b);
    }
    if (exists r :: r in references && Canonical(r.locator) == Some(d.locator) && r.digest == d.digest)
       && d.boundary in roots.retained && Within(d.locator, d.boundary)
       && forall b :: b in roots.retained && Within(d.locator, b) ==> |b| <= |d.boundary| {
      var chosen := Longest(d.locator, roots.retained).value;
      EqualLengthRoots(d.locator, chosen, d.boundary);
    }
  }

  /** The path is the boundary or continues it past a slash. */
  predicate Below(path: string, boundary: string) {
    path == boundary || boundary + "/" <= path
  }

  predicate UnderSome(path: string, boundaries: seq<Locator>) {
    exists b :: b in boundaries && Below(path, b)
  }

  /** Why one reference rejects a report: its digest is not hexadecimal, its locator has no
      canonical spelling, or it lies under no retained boundary and is not a live file of its
      digest under a live root. */
  predicate Unacceptable(r: Reference, roots: Roots, files: Files, sha: Hash) {
    || !HexDigest(r.digest) || Canonical(r.locator) == None
    || (var l := Canonical(r.locator).value;
        && !UnderSome(l, roots.retained)
        && !(UnderSome(l, roots.live) && l in files && sha(files[l]) == r.digest))
  }

  /** Two references give one retained file two digests. */
  ghost predicate Disagree(r: Reference, q: Reference, roots: Roots) {
    && Canonical(r.locator) != None && Canonical(r.locator) == Canonical(q.locator) && r.digest != q.digest
    && UnderSome(Canonical(r.locator).value, roots.retained)
  }

  lemma InsideExact(path: Locator, boundaries: seq<Locator>)
    ensures Inside(path, boundaries) <==> UnderSome(path, boundaries)
  {
    hide IsCanonical, Within;
    forall b: Locator
      ensures Within(path, b) <==> Below(path, b)
    {
      WithinIsPrefix(path, b);
    }
  }

  lemma RefusedExact(r: Reference, roots: Roots, files: Files, sha: Hash)
    ensures Refused(r, roots, files, sha) <==> Unacceptable(r, roots, files, sha)
  {
    hide IsCanonical, IsDigest, HexDigest, Inside, UnderSome;
    DigestExact(r.digest);
    if Canonical(r.locator).Some? {
      InsideExact(Canonical(r.locator).value, roots.retained);
      InsideExact(Canonical(r.locator).value, roots.live);
    }
  }

  /** A report is rejected exactly when one reference is unacceptable or two disagree. */
  lemma RejectionExact(references: seq<Reference>, roots: Roots, files: Files, sha: Hash)
    ensures Declare(references, roots, files, sha).None? <==>
            || (exists r :: r in references && Unacceptable(r, roots, files, sha))
            || (exists r, q :: r in references && q in references && Disagree(r, q, roots))
  {
    hide Canonical, IsCanonical, Unacceptable, Refused, UnderSome, Declare, Declared, Disagree, Classify;
    DeclareExact(references, roots, files, sha);
    forall r: Reference
      ensures Refused(r, roots, files, sha) <==> Unacceptable(r, roots, files, sha)
    {
      RefusedExact(r, roots, files, sha);
    }
    if Conflicting(references, roots, files, sha) {
      ConflictIsDisagreement(references, roots, files, sha);
    }
    if (exists r, q :: r in references && q in references && Disagree(r, q, roots))
       && !SomeRefused(references, roots, files, sha) {
      var r, q :| r in references && q in references && Disagree(r, q, roots);
      DisagreementIsConflict(references, r, q, roots, files, sha);
    }
  }

  lemma ConflictIsDisagreement(references: seq<Reference>, roots: Roots, files: Files, sha: Hash)
    requires Conflicting(references, roots, files, sha)
    ensures exists r, q :: r in references && q in references && Disagree(r, q, roots)
  {
    hide Canonical, IsCanonical, Within, IsDigest, HexDigest, Declared;
    var d, e :| Declared(references, d, roots, files, sha) && Declared(references, e, roots, files, sha)
                && d.locator == e.locator && d.digest != e.digest;
    DeclaredExact(references, d, roots, files, sha);
    DeclaredExact(references, e, roots, files, sha);
    var r :| r in references && Canonical(r.locator) == Some(d.locator) && r.digest == d.digest;
    var q :| q in references && Canonical(q.locator) == Some(e.locator) && q.digest == e.digest;
    assert Disagree(r, q, roots);
  }

  lemma DisagreementIsConflict(
      references: seq<Reference>, r: Reference, q: Reference, roots: Roots, files: Files, sha: Hash)
    requires r in references && q in references && Disagree(r, q, roots)
    requires !Refused(r, roots, files, sha) && !Refused(q, roots, files, sha)
    ensures Conflicting(references, roots, files, sha)
  {
    hide Canonical, IsCanonical, Within, IsDigest, UnderSome;
    var l: Locator := Canonical(r.locator).value;
    InsideExact(l, roots.retained);
    var boundary := Longest(l, roots.retained).value;
    assert Declared(references, Declaration(l, boundary, r.digest), roots, files, sha);
    assert Declared(references, Declaration(l, boundary, q.digest), roots, files, sha);
  }
}
