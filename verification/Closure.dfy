/** The closed inventory of retained evidence: its writer
    (tools/run_full_repair_qualification.py:114-140,185-263) and its reader
    (tools/retained_artifact_io.py:49-231) over directories of regular files. */
module Closure {
  import opened Prelude
  import opened Encoding
  import opened Locators
  import opened Evidence
  import opened Declarations
  import opened Sorting

  /** A file to retain: where it is read, and the locator and boundary it is recorded under. */
  datatype Source = Source(path: string, recorded: string, boundary: string)

  datatype Row = Row(locator: string, boundary: string, relative: string, size: int, digest: string)

  datatype Manifest = Manifest(boundaries: seq<string>, files: seq<Row>)

  // ----- choosing the sources -----

  predicate Retained(d: Declaration, files: Files, sha: Hash) {
    d.locator in files && sha(files[d.locator]) == d.digest
  }

  function SourceOf(d: Declaration): Source {
    Source(d.locator, d.locator, d.boundary)
  }

  function SourcesOf(declarations: seq<Declaration>): (r: seq<Source>)
    ensures |r| == |declarations|
    ensures forall i :: 0 <= i < |r| ==> r[i] == SourceOf(declarations[i])
  {
    seq(|declarations|, i requires 0 <= i < |declarations| => SourceOf(declarations[i]))
  }

  /** `collect_retained_sources` after the declarations are derived: every declared file is
      opened and its digest compared. */
  method CollectRetainedSources(declarations: seq<Declaration>, files: Files, sha: Hash)
    returns (selected: Option<seq<Source>>)
    ensures selected.Some? <==> forall d :: d in declarations ==> Retained(d, files, sha)
    ensures selected.Some? ==> selected.value == SourcesOf(declarations)
  {
    var chosen: seq<Source> := [];
    var i := 0;
    while i < |declarations|
      invariant 0 <= i <= |declarations|
      invariant forall k :: 0 <= k < i ==> Retained(declarations[k], files, sha)
      invariant chosen == SourcesOf(declarations[..i])
    {
      var d := declarations[i];
      if d.locator !in files || sha(files[d.locator]) != d.digest {
        assert d in declarations && !Retained(d, files, sha);
        return None;
      }
      chosen := chosen + [SourceOf(d)];
      i := i + 1;
    }
    assert declarations[..i] == declarations;
    selected := Some(chosen);
  }

  // ----- writing -----

  datatype Identity = Identity(boundary: Locator, data: Bytes, path: string)

  /** The loop state of `write_closed_inventory`: the dictionary of locators met so far, the
      manifest rows and the files written below the closure directory. */
  datatype Writing = Writing(seen: map<Locator, Identity>, rows: seq<Row>, stored: Files)

  function Relative(locator: Locator, sha: Hash): string {
    "files/" + sha(Encode(locator)) + ".bin"
  }

  function RowOf(locator: Locator, identity: Identity, sha: Hash): Row {
    Row(locator, identity.boundary, Relative(locator, sha), |identity.data|, sha(identity.data))
  }

  function IdentityOf(source: Source, files: Files): Option<Identity> {
    if Canonical(source.recorded).None? || Canonical(source.boundary).None? || source.path !in files then None
    else Some(Identity(Canonical(source.boundary).value, files[source.path], source.path))
  }

  function Copy(source: Source, w: Writing, files: Files, sha: Hash): Option<Writing> {
    match IdentityOf(source, files)
    case None => None
    case Some(identity) =>
      var locator: Locator := Canonical(source.recorded).value;
      if locator in w.seen then (if w.seen[locator] == identity then Some(w) else None)
      else
        Some(Writing(
          w.seen[locator := identity],
          w.rows + [RowOf(locator, identity, sha)],
          w.stored[Relative(locator, sha) := identity.data]))
  }

  function CopyAll(sources: seq<Source>, w: Writing, files: Files, sha: Hash): Option<Writing> {
    if sources == [] then Some(w)
    else
      match Copy(sources[0], w, files, sha)
      case None => None
      case Some(v) => CopyAll(sources[1..], v, files, sha)
  }

  function RowBoundaries(rows: seq<Row>): (r: seq<string>)
    ensures forall b :: b in r <==> exists row :: row in rows && row.boundary == b
    ensures DistinctKeys(r, Itself)
  {
    if rows == [] then []
    else
      var rest := RowBoundaries(rows[1..]);
      assert rows == [rows[0]] + rows[1..];
      if rows[0].boundary in rest then rest else [rows[0].boundary] + rest
  }

  function Itself(text: string): string {
    text
  }

  function RowLocator(row: Row): string {
    row.locator
  }

  function ManifestOf(rows: seq<Row>): Manifest {
    Manifest(SortBy(RowBoundaries(rows), Itself), SortBy(rows, RowLocator))
  }

  const NOTHING_WRITTEN := Writing(map[], [], map[])

  function WriteInventory(sources: seq<Source>, files: Files, sha: Hash): Option<(Manifest, Files)> {
    match CopyAll(sources, NOTHING_WRITTEN, files, sha)
    case None => None
    case Some(w) => Some((ManifestOf(w.rows), w.stored))
  }

  method WriteClosedInventory(sources: seq<Source>, files: Files, sha: Hash)
    returns (manifest: Option<Manifest>, stored: Files)
    ensures manifest.None? <==> WriteInventory(sources, files, sha).None?
    ensures manifest.Some? ==> WriteInventory(sources, files, sha) == Some((manifest.value, stored))
  {
    hide Canonical, IsCanonical, RowOf, Relative, ManifestOf;
    var seen: map<Locator, Identity>, rows: seq<Row> := map[], [];
    stored := map[];
    var i := 0;
    while i < |sources|
      invariant 0 <= i <= |sources|
      invariant CopyAll(sources[i..], Writing(seen, rows, stored), files, sha) ==
        CopyAll(sources, NOTHING_WRITTEN, files, sha)
    {
      assert sources[i..][0] == sources[i] && sources[i..][1..] == sources[i + 1..];
      var recorded, boundary := Canonical(sources[i].recorded), Canonical(sources[i].boundary);
      if recorded.None? || boundary.None? || sources[i].path !in files {
        return None, stored;
      }
      var data := files[sources[i].path];
      var identity := Identity(boundary.value, data, sources[i].path);
      if recorded.value in seen {
        if seen[recorded.value] != identity {
          return None, stored;
        }
      } else {
        seen := seen[recorded.value := identity];
        stored := stored[Relative(recorded.value, sha) := data];
        rows := rows + [RowOf(recorded.value, identity, sha)];
      }
      i := i + 1;
    }
    manifest := Some(ManifestOf(rows));
  }

  // ----- reading -----

  datatype Entry = Entry(boundary: Locator, relative: string, size: int, digest: string)

  datatype ArtifactIO = ArtifactIO(boundaries: seq<string>, entries: map<Locator, Entry>)

  /** `_canonical_relative`; "." survives it, but no file has that name. */
  predicate IsRelative(value: string) {
    && value != [] && '\\' !in value && value[0] != '/'
    && (value == "." || forall part :: part in Split(value, '/') ==> part !in {"", ".", ".."})
  }

  function CanonicalAll(values: seq<string>): (r: Option<seq<Locator>>)
    ensures r.Some? <==> forall v :: v in values ==> Canonical(v).Some?
    ensures r.Some? ==> |r.value| == |values| && forall i :: 0 <= i < |values| ==>
      Canonical(values[i]) == Some(r.value[i])
  {
    if values == [] then Some([])
    else
      assert values == [values[0]] + values[1..];
      match (Canonical(values[0]), CanonicalAll(values[1..]))
      case (Some(first), Some(rest)) => Some([first] + rest)
      case _ => None
  }

  /** What one manifest row must satisfy on its own. */
  predicate RowFits(row: Row, boundaries: seq<Locator>, stored: Files, sha: Hash) {
    && Canonical(row.locator).Some? && Canonical(row.boundary).Some? && IsRelative(row.relative)
    && var locator, boundary := Canonical(row.locator).value, Canonical(row.boundary).value;
       && boundary in boundaries && Within(locator, boundary) && locator != boundary
       && 0 <= row.size && IsDigest(row.digest)
       && row.relative in stored && |stored[row.relative]| == row.size && sha(stored[row.relative]) == row.digest
  }

  function EntryOf(row: Row): Entry
    requires Canonical(row.boundary).Some?
  {
    Entry(Canonical(row.boundary).value, row.relative, row.size, row.digest)
  }

  function Load(
      rows: seq<Row>, entries: map<Locator, Entry>, relatives: set<string>, boundaries: seq<Locator>, stored: Files,
      sha: Hash)
      : Option<(map<Locator, Entry>, set<string>)> {
    if rows == [] then Some((entries, relatives))
    else if !RowFits(rows[0], boundaries, stored, sha) then None
    else
      var locator: Locator := Canonical(rows[0].locator).value;
      if locator in entries || rows[0].relative in relatives then None
      else Load(rows[1..], entries[locator := EntryOf(rows[0])], relatives + {rows[0].relative}, boundaries, stored,
        sha)
  }

  predicate DistinctTexts(texts: seq<string>) {
    forall i, j :: 0 <= i < j < |texts| ==> texts[i] != texts[j]
  }

  function FromManifest(manifest: Manifest, stored: Files, sha: Hash): Option<ArtifactIO> {
    match CanonicalAll(manifest.boundaries)
    case None => None
    case Some(boundaries) =>
      if boundaries == [] || !DistinctTexts(boundaries) then None
      else
        match Load(manifest.files, map[], {}, boundaries, stored, sha)
        case None => None
        case Some(loaded) => if loaded.1 != stored.Keys then None else Some(ArtifactIO(boundaries, loaded.0))
  }

  method LoadManifest(manifest: Manifest, stored: Files, sha: Hash) returns (io: Option<ArtifactIO>)
    ensures io == FromManifest(manifest, stored, sha)
  {
    var boundaries := CanonicalAll(manifest.boundaries);
    if boundaries.None? || boundaries.value == [] || !DistinctTexts(boundaries.value) {
      return None;
    }
    var rows, entries: map<Locator, Entry>, relatives: set<string> := manifest.files, map[], {};
    var i := 0;
    while i < |rows|
      invariant 0 <= i <= |rows|
      invariant Load(rows[i..], entries, relatives, boundaries.value, stored, sha) ==
        Load(rows, map[], {}, boundaries.value, stored, sha)
    {
      assert rows[i..][0] == rows[i] && rows[i..][1..] == rows[i + 1..];
      if !RowFits(rows[i], boundaries.value, stored, sha) {
        return None;
      }
      var locator := Canonical(rows[i].locator).value;
      if locator in entries || rows[i].relative in relatives {
        return None;
      }
      entries := entries[locator := EntryOf(rows[i])];
      relatives := relatives + {rows[i].relative};
      i := i + 1;
    }
    if relatives != stored.Keys {
      return None;
    }
    io := Some(ArtifactIO(boundaries.value, entries));
  }

  /** `read_bytes`: the store may have changed since the manifest was loaded. */
  function ReadBytes(io: ArtifactIO, stored: Files, locator: string, boundary: string, sha: Hash): Option<Bytes> {
    if Canonical(locator).None? || Canonical(boundary).None? then None
    else
      var key: Locator := Canonical(locator).value;
      if key !in io.entries || io.entries[key].boundary != Canonical(boundary).value then None
      else
        var entry := io.entries[key];
        if entry.relative !in stored || |stored[entry.relative]| != entry.size
          || sha(stored[entry.relative]) != entry.digest
        then None
        else Some(stored[entry.relative])
  }

  // ----- checking the closure against the report -----

  function Digests(declarations: seq<Declaration>): map<string, string> {
    if declarations == [] then map[]
    else map[declarations[0].locator := declarations[0].digest] + Digests(declarations[1..])
  }

  function Recorded(rows: seq<Row>): Option<map<string, string>> {
    if rows == [] then Some(map[])
    else
      match (Canonical(rows[0].locator), Recorded(rows[1..]))
      case (Some(locator), Some(rest)) => Some(map[locator := rows[0].digest] + rest)
      case _ => None
  }

  /** `validate_inventory_closure`: the rows are the aggregate and the report's declarations
      under the recorded boundaries, no more and no less. */
  predicate ClosureFits(
      manifest: Manifest, report: Json, aggregateLocator: string, aggregateRaw: Bytes, live: seq<Locator>,
      files: Files, sha: Hash)
  {
    match (CanonicalAll(manifest.boundaries), Visit(report), Canonical(aggregateLocator), Recorded(manifest.files))
    case (Some(boundaries), Some(references), Some(aggregate), Some(actual)) =>
      (match Declare(references, Roots(boundaries, live), files, sha)
       case None => false
       case Some(declarations) =>
         |actual| == |manifest.files| && actual == map[aggregate := sha(aggregateRaw)] + Digests(declarations))
    case _ => false
  }
}
