/** The governed content root: exclusion, ordering, leaf hashing and length framing
    (tools/compute_governed_content_root.py:14-73). `sha` stands for SHA-256 with its 32-byte
    digests, `nfc` for the NFC test on a path. */
module GovernedRoot {
  import opened Prelude
  import opened Encoding
  import opened Locators
  import opened Sorting

  /** A regular file of the pack as the directory walk reports it. */
  datatype File = File(path: string, content: Bytes)

  /** An encoded path with the digest of its file. */
  datatype Leaf = Leaf(path: Bytes, digest: Bytes)

  type Digest = Bytes -> Bytes

  const EXCLUSIONS := {
    "GOVERNED_CONTENT_ROOT.json", "SELF_REVIEW_REPORT.md", "SELF_REVIEW_REPORT.json", "MANIFEST_SHA256.json" }

  const FILE_DOMAIN := Encode("HYBRID-DISCOVERY/v6.3.6/GOVERNED-FILE/v1") + [0]
  const ROOT_DOMAIN := Encode("HYBRID-DISCOVERY/v6.3.6/GOVERNED-ROOT/v1") + [0]

  const DIGEST_SIZE := 32
  const MAX_PATH := 0x1_0000_0000

  predicate Admissible(path: string, nfc: string -> bool) {
    nfc(path) && !("/" <= path) && ".." !in Split(path, '/')
  }

  function ByPath(f: File): string {
    f.path
  }

  /** The files that count, in walk order. */
  function Governed(listing: seq<File>): (r: seq<File>)
    ensures forall f :: f in r <==> f in listing && f.path !in EXCLUSIONS
  {
    if listing == [] then []
    else
      var rest := Governed(listing[1..]);
      assert listing == [listing[0]] + listing[1..];
      if listing[0].path in EXCLUSIONS then rest else [listing[0]] + rest
  }

  /** `_files`; None is its ValueError, which an excluded file can raise as well. */
  function Files(listing: seq<File>, nfc: string -> bool): Option<seq<File>> {
    if exists f :: f in listing && !Admissible(f.path, nfc) then None else Some(SortBy(Governed(listing), ByPath))
  }

  function LeafInput(f: File, sha: Digest): Bytes {
    FILE_DOMAIN + Encode(f.path) + [0] + sha(f.content)
  }

  function LeafOf(f: File, sha: Digest): Leaf {
    Leaf(Encode(f.path), sha(LeafInput(f, sha)))
  }

  function LeavesOf(files: seq<File>, sha: Digest): (r: seq<Leaf>)
    ensures |r| == |files|
    ensures forall i :: 0 <= i < |r| ==> r[i] == LeafOf(files[i], sha)
  {
    seq(|files|, i requires 0 <= i < |files| => LeafOf(files[i], sha))
  }

  /** `n.to_bytes(4, "big")`. */
  function BigEndian(n: nat): (r: Bytes)
    requires n < MAX_PATH
    ensures |r| == 4
  {
    [(n / 0x100_0000) as byte, (n / 0x1_0000 % 0x100) as byte, (n / 0x100 % 0x100) as byte, (n % 0x100) as byte]
  }

  function FromBigEndian(b: Bytes): nat
    requires |b| == 4
  {
    b[0] as int * 0x100_0000 + b[1] as int * 0x1_0000 + b[2] as int * 0x100 + b[3] as int
  }

  predicate Framable(leaves: seq<Leaf>) {
    forall i :: 0 <= i < |leaves| ==> |leaves[i].path| < MAX_PATH
  }

  function Frame(leaves: seq<Leaf>): Bytes
    requires Framable(leaves)
  {
    if leaves == [] then []
    else BigEndian(|leaves[0].path|) + leaves[0].path + leaves[0].digest + Frame(leaves[1..])
  }

  function RootInput(leaves: seq<Leaf>): Bytes
    requires Framable(leaves)
  {
    ROOT_DOMAIN + Frame(leaves)
  }

  /** The root of a walked pack; None is an error. */
  function Root(listing: seq<File>, nfc: string -> bool, sha: Digest): Option<Bytes> {
    match Files(listing, nfc)
    case None => None
    case Some(files) => if !Framable(LeavesOf(files, sha)) then None else Some(sha(RootInput(LeavesOf(files, sha))))
  }

  lemma {:induction false} GovernedConcat(a: seq<File>, b: seq<File>)
    ensures Governed(a + b) == Governed(a) + Governed(b)
  {
    if a == [] {
      assert a + b == b;
    } else {
      assert (a + b)[1..] == a[1..] + b;
      GovernedConcat(a[1..], b);
    }
  }

  method CollectFiles(listing: seq<File>, nfc: string -> bool) returns (files: Option<seq<File>>)
    ensures files == Files(listing, nfc)
  {
    hide Admissible;
    var found: seq<File> := [];
    var i := 0;
    while i < |listing|
      invariant 0 <= i <= |listing|
      invariant found == Governed(listing[..i])
      invariant forall k :: 0 <= k < i ==> Admissible(listing[k].path, nfc)
    {
      var f := listing[i];
      if !Admissible(f.path, nfc) {
        assert f in listing;
        return None;
      }
      GovernedConcat(listing[..i], [f]);
      assert listing[..i + 1] == listing[..i] + [f];
      if f.path !in EXCLUSIONS {
        found := found + [f];
      }
      i := i + 1;
    }
    assert listing[..i] == listing;
    files := Some(SortBy(found, ByPath));
  }

  method ComputeGovernedContentRoot(listing: seq<File>, nfc: string -> bool, sha: Digest) returns (root: Option<Bytes>)
    ensures root == Root(listing, nfc, sha)
  {
    hide Admissible, Encode, LeafOf;
    var files := CollectFiles(listing, nfc);
    if files.None? {
      return None;
    }
    var leaves: seq<Leaf> := [];
    var i := 0;
    while i < |files.value|
      invariant 0 <= i <= |files.value|
      invariant leaves == LeavesOf(files.value[..i], sha)
    {
      leaves := leaves + [LeafOf(files.value[i], sha)];
      i := i + 1;
    }
    assert files.value[..i] == files.value;
    if !Framable(leaves) {
      return None;
    }
    root := Some(sha(RootInput(leaves)));
  }

  // ----- the framing parses back -----

  function Parse(framed: Bytes): Option<seq<Leaf>>
    decreases |framed|
  {
    if framed == [] then Some([])
    else if |framed| < 4 then None
    else
      var n := FromBigEndian(framed[..4]);
      if |framed| < 4 + n + DIGEST_SIZE then None
      else
        match Parse(framed[4 + n + DIGEST_SIZE..])
        case None => None
        case Some(rest) => Some([Leaf(framed[4..4 + n], framed[4 + n..4 + n + DIGEST_SIZE])] + rest)
  }

  lemma BigEndianRoundTrip(n: nat)
    requires n < MAX_PATH
    ensures FromBigEndian(BigEndian(n)) == n
  {
    assert n / 0x100 == (n / 0x1_0000) * 0x100 + n / 0x100 % 0x100;
    assert n / 0x1_0000 == (n / 0x100_0000) * 0x100 + n / 0x1_0000 % 0x100;
  }

  lemma Pieces(size: Bytes, path: Bytes, digest: Bytes, rest: Bytes)
    requires |size| == 4 && |digest| == DIGEST_SIZE
    ensures var framed := size + path + digest + rest;
            var n := |path|;
            && framed[..4] == size && framed[4..4 + n] == path
            && framed[4 + n..4 + n + DIGEST_SIZE] == digest && framed[4 + n + DIGEST_SIZE..] == rest
  {
  }

  /** Parsing a framing gives back the leaves that were framed. */
  lemma {:induction false} FramingRoundTrip(leaves: seq<Leaf>)
    requires Framable(leaves)
    requires forall i :: 0 <= i < |leaves| ==> |leaves[i].digest| == DIGEST_SIZE
    ensures Parse(Frame(leaves)) == Some(leaves)
  {
    hide BigEndian, Parse;
    if leaves == [] {
      EmptyParses();
    } else {
      var first, rest := leaves[0], Frame(leaves[1..]);
      FramingRoundTrip(leaves[1..]);
      LeafParses(first, rest);
      assert leaves == [first] + leaves[1..];
    }
  }

  lemma EmptyParses()
    ensures Parse([]) == Some([])
  {
  }

  lemma LeafParses(first: Leaf, rest: Bytes)
    requires |first.path| < MAX_PATH && |first.digest| == DIGEST_SIZE && Parse(rest).Some?
    ensures Parse(BigEndian(|first.path|) + first.path + first.digest + rest) == Some([first] + Parse(rest).value)
  {
    hide BigEndian, FromBigEndian, Parse;
    BigEndianRoundTrip(|first.path|);
    Pieces(BigEndian(|first.path|), first.path, first.digest, rest);
    ParseStep(BigEndian(|first.path|) + first.path + first.digest + rest, first, rest);
  }

  lemma ParseStep(framed: Bytes, first: Leaf, rest: Bytes)
    requires |framed| == 4 + |first.path| + DIGEST_SIZE + |rest| && FromBigEndian(framed[..4]) == |first.path|
    requires framed[4..4 + |first.path|] == first.path
    requires framed[4 + |first.path|..4 + |first.path| + DIGEST_SIZE] == first.digest
    requires framed[4 + |first.path| + DIGEST_SIZE..] == rest
    requires Parse(rest).Some?
    ensures Parse(framed) == Some([first] + Parse(rest).value)
  {
    hide FromBigEndian;
  }

  // ----- the root identifies the pack -----

  /** No two inputs hashed by either computation collide. */
  ghost predicate NoCollision(files1: seq<File>, files2: seq<File>, sha: Digest)
    requires Framable(LeavesOf(files1, sha)) && Framable(LeavesOf(files2, sha))
  {
    && (sha(RootInput(LeavesOf(files1, sha))) == sha(RootInput(LeavesOf(files2, sha))) ==>
          RootInput(LeavesOf(files1, sha)) == RootInput(LeavesOf(files2, sha)))
    && (forall f, g :: f in files1 && g in files2 && sha(LeafInput(f, sha)) == sha(LeafInput(g, sha)) ==>
          LeafInput(f, sha) == LeafInput(g, sha))
    && (forall f, g :: f in files1 && g in files2 && sha(f.content) == sha(g.content) ==> f.content == g.content)
  }

  lemma EqualFramesEqualLeaves(leaves1: seq<Leaf>, leaves2: seq<Leaf>)
    requires Framable(leaves1) && Framable(leaves2)
    requires forall i :: 0 <= i < |leaves1| ==> |leaves1[i].digest| == DIGEST_SIZE
    requires forall i :: 0 <= i < |leaves2| ==> |leaves2[i].digest| == DIGEST_SIZE
    requires RootInput(leaves1) == RootInput(leaves2)
    ensures leaves1 == leaves2
  {
    assert RootInput(leaves1)[|ROOT_DOMAIN|..] == Frame(leaves1);
    assert RootInput(leaves2)[|ROOT_DOMAIN|..] == Frame(leaves2);
    FramingRoundTrip(leaves1);
    FramingRoundTrip(leaves2);
  }

  lemma EqualLeafEqualFile(f: File, g: File, sha: Digest)
    requires forall data :: |sha(data)| == DIGEST_SIZE
    requires LeafOf(f, sha) == LeafOf(g, sha)
    requires sha(LeafInput(f, sha)) == sha(LeafInput(g, sha)) ==> LeafInput(f, sha) == LeafInput(g, sha)
    requires sha(f.content) == sha(g.content) ==> f.content == g.content
    ensures f == g
  {
    EncodeInjective(f.path, g.path);
    var x, y := LeafInput(f, sha), LeafInput(g, sha);
    assert x[|x| - DIGEST_SIZE..] == sha(f.content);
    assert y[|y| - DIGEST_SIZE..] == sha(g.content);
  }

  /** Equal roots mean the same governed files with the same contents, unless the hash collides
      on something the two computations hashed. */
  lemma EqualRootsEqualFiles(listing1: seq<File>, listing2: seq<File>, nfc: string -> bool, sha: Digest)
    requires forall data :: |sha(data)| == DIGEST_SIZE
    requires Root(listing1, nfc, sha).Some? && Root(listing1, nfc, sha) == Root(listing2, nfc, sha)
    requires NoCollision(Files(listing1, nfc).value, Files(listing2, nfc).value, sha)
    ensures Files(listing1, nfc) == Files(listing2, nfc)
    ensures forall f: File :: f.path !in EXCLUSIONS ==> (f in listing1 <==> f in listing2)
  {
    hide Encode, Admissible, NoCollision, LeavesOf, RootInput, Framable;
    EqualRootsEqualLists(Files(listing1, nfc).value, Files(listing2, nfc).value, sha);
    FilesMembers(listing1, nfc);
    FilesMembers(listing2, nfc);
  }

  lemma FilesMembers(listing: seq<File>, nfc: string -> bool)
    requires Files(listing, nfc).Some?
    ensures forall f :: f in Files(listing, nfc).value <==> f in listing && f.path !in EXCLUSIONS
  {
    hide Admissible;
    assert forall f :: f in Files(listing, nfc).value <==> f in multiset(Governed(listing));
  }

  lemma EqualRootsEqualLists(files1: seq<File>, files2: seq<File>, sha: Digest)
    requires forall data :: |sha(data)| == DIGEST_SIZE
    requires Framable(LeavesOf(files1, sha)) && Framable(LeavesOf(files2, sha)) && NoCollision(files1, files2, sha)
    requires sha(RootInput(LeavesOf(files1, sha))) == sha(RootInput(LeavesOf(files2, sha)))
    ensures files1 == files2
  {
    hide Encode, LeafInput, RootInput;
    EqualFramesEqualLeaves(LeavesOf(files1, sha), LeavesOf(files2, sha));
    assert |files1| == |files2|;
    forall i | 0 <= i < |files1|
      ensures files1[i] == files2[i]
    {
      assert LeavesOf(files1, sha)[i] == LeavesOf(files2, sha)[i];
      assert files1[i] in files1 && files2[i] in files2;
      EqualLeafEqualFile(files1[i], files2[i], sha);
    }
  }

  lemma {:induction false} GovernedKeepsDistinct(listing: seq<File>)
    requires DistinctKeys(listing, ByPath)
    ensures DistinctKeys(Governed(listing), ByPath)
  {
    if listing != [] {
      var rest := listing[1..];
      assert forall i :: 0 <= i < |rest| ==> rest[i] == listing[i + 1];
      GovernedKeepsDistinct(rest);
      forall f | f in Governed(rest)
        ensures ByPath(f) != ByPath(listing[0])
      {
        var i :| 0 <= i < |rest| && rest[i] == f;
        assert listing[i + 1] == f;
      }
    }
  }

  ghost predicate HasPath(listing: seq<File>, path: string) {
    exists f :: f in listing && f.path == path
  }

  /** The root, or the rejection, does not depend on the order in which the pack is walked, nor
      on the contents of the excluded files. */
  lemma RootIgnoresWalkOrder(listing1: seq<File>, listing2: seq<File>, nfc: string -> bool, sha: Digest)
    requires DistinctKeys(listing1, ByPath) && DistinctKeys(listing2, ByPath)
    requires forall path :: HasPath(listing1, path) <==> HasPath(listing2, path)
    requires forall f: File :: f.path !in EXCLUSIONS ==> (f in listing1 <==> f in listing2)
    ensures Root(listing1, nfc, sha) == Root(listing2, nfc, sha)
  {
    hide Admissible, HasPath, LeavesOf, RootInput, Framable;
    SamePathsSameVerdict(listing1, listing2, nfc);
    SamePathsSameVerdict(listing2, listing1, nfc);
    GovernedKeepsDistinct(listing1);
    GovernedKeepsDistinct(listing2);
    SortByIgnoresOrder(Governed(listing1), Governed(listing2), ByPath);
  }

  lemma SamePathsSameVerdict(listing1: seq<File>, listing2: seq<File>, nfc: string -> bool)
    requires forall path :: HasPath(listing1, path) <==> HasPath(listing2, path)
    ensures Files(listing1, nfc).None? ==> Files(listing2, nfc).None?
  {
    hide Admissible;
    if f :| f in listing1 && !Admissible(f.path, nfc) {
      assert HasPath(listing1, f.path);
      var g :| g in listing2 && g.path == f.path;
    }
  }

  /** The files are hashed in the byte order of their encoded paths. */
  lemma FilesAreOrdered(listing: seq<File>, nfc: string -> bool)
    requires DistinctKeys(listing, ByPath) && Files(listing, nfc).Some?
    ensures var files := Files(listing, nfc).value;
            forall i, j :: 0 <= i < j < |files| ==> BytesLess(Encode(files[i].path), Encode(files[j].path))
  {
    hide Admissible;
    GovernedKeepsDistinct(listing);
    SortBySorts(Governed(listing), ByPath);
    var files := Files(listing, nfc).value;
    forall i, j | 0 <= i < j < |files|
      ensures BytesLess(Encode(files[i].path), Encode(files[j].path))
    {
      assert LexLess(ByPath(files[i]), ByPath(files[j]));
      EncodePreservesOrder(files[i].path, files[j].path);
    }
  }
}
