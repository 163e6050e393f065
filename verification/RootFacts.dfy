/** The governed content root in bytes: which files count, what is hashed and how it is framed. */
module RootFacts {
  import opened Prelude
  import opened Encoding
  import opened LocatorFacts
  import opened GovernedRoot

  // ----- bytes -----

  /** Four bytes, the most significant first. */
  predicate FourBytes(b: Bytes, n: nat) {
    |b| == 4 && n == 16777216 * b[0] as int + 65536 * b[1] as int + 256 * b[2] as int + b[3] as int
  }

  lemma LengthExact(n: nat, b: Bytes)
    requires n < MAX_PATH
    ensures b == BigEndian(n) <==> FourBytes(b, n)
  {
    BigEndianRoundTrip(n);
    var c := BigEndian(n);
    assert FourBytes(c, n);
    if FourBytes(b, n) {
      SameBytes(b[0] as int, b[1] as int, b[2] as int, b[3] as int, c[0] as int, c[1] as int, c[2] as int, c[3] as int);
      assert b == c;
    }
  }

  lemma SameBytes(a0: int, a1: int, a2: int, a3: int, b0: int, b1: int, b2: int, b3: int)
    requires 0 <= a0 < 256 && 0 <= a1 < 256 && 0 <= a2 < 256 && 0 <= a3 < 256
    requires 0 <= b0 < 256 && 0 <= b1 < 256 && 0 <= b2 < 256 && 0 <= b3 < 256
    requires 16777216 * a0 + 65536 * a1 + 256 * a2 + a3 == 16777216 * b0 + 65536 * b1 + 256 * b2 + b3
    ensures a0 == b0 && a1 == b1 && a2 == b2 && a3 == b3
  {
  }

  /** The UTF-8 form of one character: a lead byte that tells the length, then continuation bytes
      of six bits each, and together the code point. */
  predicate Utf8(c: char, b: Bytes) {
    var n := c as int;
    if n < 0x80 then |b| == 1 && b[0] as int == n
    else if n < 0x800 then
      |b| == 2 && 0xC0 <= b[0] < 0xE0 && 0x80 <= b[1] < 0xC0 && n == 64 * (b[0] as int - 0xC0) + (b[1] as int - 0x80)
    else if n < 0x1_0000 then
      |b| == 3 && 0xE0 <= b[0] < 0xF0 && 0x80 <= b[1] < 0xC0 && 0x80 <= b[2] < 0xC0
      && n == 4096 * (b[0] as int - 0xE0) + 64 * (b[1] as int - 0x80) + (b[2] as int - 0x80)
    else
      |b| == 4 && 0xF0 <= b[0] && 0x80 <= b[1] < 0xC0 && 0x80 <= b[2] < 0xC0 && 0x80 <= b[3] < 0xC0
      && n == 262144 * (b[0] as int - 0xF0) + 4096 * (b[1] as int - 0x80) + 64 * (b[2] as int - 0x80)
              + (b[3] as int - 0x80)
  }

  lemma CharacterBytes(c: char)
    ensures Utf8(c, EncodeChar(c))
  {
    var n := c as int;
    assert n == 64 * (n / 64) + n % 64;
    assert n / 64 == 64 * (n / 4096) + n / 64 % 64;
    assert n / 4096 == 64 * (n / 262144) + n / 4096 % 64;
  }

  /** A text is encoded character by character. */
  lemma {:induction false} EncodeConcat(a: string, b: string)
    ensures Encode(a + b) == Encode(a) + Encode(b)
  {
    if a == [] {
      assert a + b == b;
    } else {
      assert (a + b)[1..] == a[1..] + b;
      EncodeConcat(a[1..], b);
    }
  }

  lemma OneCharacter(c: char)
    ensures Utf8(c, Encode([c])) && Encode([c]) == EncodeChar(c)
  {
    CharacterBytes(c);
    assert [c][1..] == [];
  }

  // ----- which files count -----

  /** The path begins with a slash, is not normalized, or steps up somewhere. */
  ghost predicate Inadmissible(path: string, nfc: string -> bool) {
    !nfc(path) || (path != "" && path[0] == '/') || StandsAlone(path, "..", '/')
  }

  lemma AdmissibleExact(path: string, nfc: string -> bool)
    ensures Admissible(path, nfc) <==> !Inadmissible(path, nfc)
  {
    ComponentExact(path, "..", '/');
    assert "/" <= path <==> path != "" && path[0] == '/';
  }

  /** A pack is rejected exactly for an inadmissible file, excluded or not; otherwise all files
      but the four excluded ones are kept. */
  lemma FilesExact(listing: seq<File>, nfc: string -> bool)
    ensures Files(listing, nfc).None? <==> exists f :: f in listing && Inadmissible(f.path, nfc)
    ensures Files(listing, nfc).Some? ==>
              forall f :: f in Files(listing, nfc).value <==>
                          && f in listing && f.path != "GOVERNED_CONTENT_ROOT.json"
                          && f.path != "SELF_REVIEW_REPORT.md" && f.path != "SELF_REVIEW_REPORT.json"
                          && f.path != "MANIFEST_SHA256.json"
  {
    hide Admissible, Inadmissible;
    forall f: File
      ensures Admissible(f.path, nfc) <==> !Inadmissible(f.path, nfc)
    {
      AdmissibleExact(f.path, nfc);
    }
    if Files(listing, nfc).Some? {
      FilesMembers(listing, nfc);
    }
  }

  // ----- what is hashed -----

  /** What one file adds: the length of its encoded path, the path and the hash over its domain,
      path and content hash. */
  ghost predicate FileBlock(block: Bytes, f: File, sha: Digest) {
    exists size: Bytes :: FourBytes(size, |Encode(f.path)|)
      && block == size + Encode(f.path)
                  + sha(Encode("HYBRID-DISCOVERY/v6.3.6/GOVERNED-FILE/v1") + [0] + Encode(f.path) + [0]
                        + sha(f.content))
  }

  /** The blocks of the files one after the other. */
  function Joined(blocks: seq<Bytes>): Bytes {
    if blocks == [] then [] else Joined(blocks[..|blocks| - 1]) + blocks[|blocks| - 1]
  }

  ghost predicate BlocksOf(blocks: seq<Bytes>, files: seq<File>, sha: Digest) {
    |blocks| == |files| && forall i :: 0 <= i < |files| ==> FileBlock(blocks[i], files[i], sha)
  }

  function LeafBlock(leaf: Leaf): Bytes
    requires |leaf.path| < MAX_PATH
  {
    BigEndian(|leaf.path|) + leaf.path + leaf.digest
  }

  lemma {:induction false} FrameSnoc(leaves: seq<Leaf>, last: Leaf)
    requires Framable(leaves) && |last.path| < MAX_PATH
    ensures Framable(leaves + [last]) && Frame(leaves + [last]) == Frame(leaves) + LeafBlock(last)
  {
    hide BigEndian;
    var all := leaves + [last];
    if leaves == [] {
      assert all[1..] == [];
      assert Frame(all) == LeafBlock(last) + [];
    } else {
      assert all[0] == leaves[0] && all[1..] == leaves[1..] + [last];
      FrameSnoc(leaves[1..], last);
      assert Frame(all) == LeafBlock(leaves[0]) + (Frame(leaves[1..]) + LeafBlock(last));
    }
  }

  lemma {:induction false} FrameIsJoined(files: seq<File>, sha: Digest, blocks: seq<Bytes>)
    requires Framable(LeavesOf(files, sha)) && BlocksOf(blocks, files, sha)
    ensures Frame(LeavesOf(files, sha)) == Joined(blocks)
    decreases |files|
  {
    hide LeafOf, Encode, Frame, LeafBlock, FileBlock;
    if files == [] {
      NothingFramed(LeavesOf(files, sha), blocks);
    } else {
      var n := |files| - 1;
      var leaves, init := LeavesOf(files, sha), LeavesOf(files[..n], sha);
      assert leaves == init + [leaves[n]];
      FrameIsJoined(files[..n], sha, blocks[..n]);
      FrameSnoc(init, leaves[n]);
      LeafPath(files[n], sha);
      OneBlock(files[n], sha, blocks[n]);
    }
  }

  lemma NothingFramed(leaves: seq<Leaf>, blocks: seq<Bytes>)
    requires leaves == [] && blocks == []
    ensures Frame(leaves) == Joined(blocks)
  {
  }

  lemma OneBlock(f: File, sha: Digest, block: Bytes)
    requires |Encode(f.path)| < MAX_PATH
    ensures FileBlock(block, f, sha) <==> block == LeafBlock(LeafOf(f, sha))
  {
    hide BigEndian, FourBytes, Encode;
    LengthExact(|Encode(f.path)|, BigEndian(|Encode(f.path)|));
    if FileBlock(block, f, sha) {
      var size: Bytes :| FourBytes(size, |Encode(f.path)|)
        && block == size + Encode(f.path)
                    + sha(Encode("HYBRID-DISCOVERY/v6.3.6/GOVERNED-FILE/v1") + [0] + Encode(f.path) + [0]
                          + sha(f.content));
      LengthExact(|Encode(f.path)|, size);
    }
  }

  /** Blocks exist for exactly the files whose encoded paths fit four bytes of length. */
  ghost predicate RootOver(files: seq<File>, sha: Digest, root: Bytes, blocks: seq<Bytes>) {
    BlocksOf(blocks, files, sha)
    && root == sha(Encode("HYBRID-DISCOVERY/v6.3.6/GOVERNED-ROOT/v1") + [0] + Joined(blocks))
  }

  /** The root is the hash of its domain and the blocks of the kept files, in the order of their
      paths. */
  lemma RootExact(listing: seq<File>, nfc: string -> bool, sha: Digest, root: Bytes)
    ensures Root(listing, nfc, sha) == Some(root) <==>
            Files(listing, nfc).Some? && exists blocks :: RootOver(Files(listing, nfc).value, sha, root, blocks)
  {
    hide Files, Frame, LeafOf, BlocksOf, Joined, Encode;
    if Files(listing, nfc).Some? {
      var files := Files(listing, nfc).value;
      var leaves := LeavesOf(files, sha);
      if Framable(leaves) {
        var blocks := BlocksFor(files, sha);
        FrameIsJoined(files, sha, blocks);
        if blocks2 :| RootOver(files, sha, root, blocks2) {
          FrameIsJoined(files, sha, blocks2);
        }
        if Root(listing, nfc, sha) == Some(root) {
          assert RootOver(files, sha, root, blocks);
        }
      } else {
        NoBlocks(files, sha);
      }
    }
  }

  lemma BlocksFor(files: seq<File>, sha: Digest) returns (blocks: seq<Bytes>)
    requires Framable(LeavesOf(files, sha))
    ensures BlocksOf(blocks, files, sha)
  {
    hide BigEndian, FileBlock, Encode, LeafOf;
    var leaves := LeavesOf(files, sha);
    blocks := seq(|files|, i requires 0 <= i < |files| => LeafBlock(leaves[i]));
    forall i | 0 <= i < |files|
      ensures FileBlock(blocks[i], files[i], sha)
    {
      LeafPath(files[i], sha);
      OneBlock(files[i], sha, blocks[i]);
    }
  }

  lemma LeafPath(f: File, sha: Digest)
    ensures LeafOf(f, sha).path == Encode(f.path)
  {
  }

  lemma NoBlocks(files: seq<File>, sha: Digest)
    requires !Framable(LeavesOf(files, sha))
    ensures forall blocks :: !BlocksOf(blocks, files, sha)
  {
    hide Encode, LeafOf, FourBytes;
    var leaves := LeavesOf(files, sha);
    var i :| 0 <= i < |leaves| && |leaves[i].path| >= MAX_PATH;
    LeafPath(files[i], sha);
    forall blocks
      ensures !BlocksOf(blocks, files, sha)
    {
      if BlocksOf(blocks, files, sha) {
        assert FileBlock(blocks[i], files[i], sha);
        var size: Bytes :| FourBytes(size, |Encode(files[i].path)|);
        FourBytesAreSmall(size, |Encode(files[i].path)|);
      }
    }
  }

  lemma FourBytesAreSmall(b: Bytes, n: nat)
    requires FourBytes(b, n)
    ensures n < MAX_PATH
  {
  }
}
