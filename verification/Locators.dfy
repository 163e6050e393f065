/** Recorded evidence locators and their one POSIX spelling
    (tools/retained_artifact_io.py:20-58). */
module Locators {
  import opened Prelude

  /** `text.split(separator)`. */
  function Split(text: string, separator: char): (r: seq<string>)
    ensures r != []
  {
    if text == [] then [""]
    else
      var rest := Split(text[1..], separator);
      if text[0] == separator then [""] + rest else [[text[0]] + rest[0]] + rest[1..]
  }

  /** `separator.join(parts)`. */
  function Join(parts: seq<string>, separator: char): string
    requires parts != []
  {
    if |parts| == 1 then parts[0] else parts[0] + [separator] + Join(parts[1..], separator)
  }

  lemma {:induction false} JoinSplit(text: string, separator: char)
    ensures Join(Split(text, separator), separator) == text
  {
    if text != [] {
      var rest := Split(text[1..], separator);
      JoinSplit(text[1..], separator);
      if text[0] == separator {
        assert Split(text, separator)[1..] == rest;
      } else {
        assert Split(text, separator)[1..] == rest[1..];
      }
      assert text == [text[0]] + text[1..];
    }
  }

  lemma {:induction false} JoinConcat(a: seq<string>, b: seq<string>, separator: char)
    requires a != [] && b != []
    ensures Join(a + b, separator) == Join(a, separator) + [separator] + Join(b, separator)
  {
    assert (a + b)[1..] == a[1..] + b;
    if |a| > 1 {
      JoinConcat(a[1..], b, separator);
    }
  }

  lemma {:induction false} SplitConcat(a: string, b: string, separator: char)
    ensures Split(a + [separator] + b, separator) == Split(a, separator) + Split(b, separator)
  {
    var all := a + [separator] + b;
    if a == [] {
      assert all[1..] == b;
    } else {
      assert all[1..] == a[1..] + [separator] + b;
      SplitConcat(a[1..], b, separator);
    }
  }

  function FirstIndex(text: string, c: char): (r: nat)
    ensures r <= |text|
    ensures c !in text[..r]
    ensures r < |text| ==> text[r] == c
  {
    if text == [] || text[0] == c then 0
    else
      var rest := FirstIndex(text[1..], c);
      assert text[..1 + rest] == [text[0]] + text[1..][..rest];
      1 + rest
  }

  function Lower(c: char): char {
    if 'A' <= c <= 'Z' then c - 'A' + 'a' else c
  }

  function LowerAll(text: string): (r: string)
    ensures |r| == |text|
  {
    if text == [] then [] else [Lower(text[0])] + LowerAll(text[1..])
  }

  /** `re.I` on the literal host name also takes the long s for an s. */
  function Fold(c: char): char {
    if c == '\U{017F}' then 's' else Lower(c)
  }

  function FoldAll(text: string): (r: string)
    ensures |r| == |text|
  {
    if text == [] then [] else [Fold(text[0])] + FoldAll(text[1..])
  }

  function Slashes(text: string): (r: string)
    ensures |r| == |text|
    ensures '\\' !in r
  {
    if text == [] then [] else [if text[0] == '\\' then '/' else text[0]] + Slashes(text[1..])
  }

  const UNC_HOST := "\\\\wsl.localhost\\"

  /** The UNC form: host, a distribution name without a backslash, and a non-empty rest on one line. */
  predicate IsUnc(value: string) {
    && |value| >= |UNC_HOST|
    && FoldAll(value[..|UNC_HOST|]) == UNC_HOST
    && var rest := value[|UNC_HOST|..];
       var cut := FirstIndex(rest, '\\');
       0 < cut && cut + 1 < |rest| && '\n' !in rest[cut + 1..]
  }

  predicate IsDrive(value: string) {
    && |value| > 3
    && ('a' <= value[0] <= 'z' || 'A' <= value[0] <= 'Z')
    && value[1] == ':' && value[2] == '\\' && '\n' !in value[3..]
  }

  /** The POSIX spelling a value is read as; None for a UNC path of another distribution. */
  function Posix(value: string): Option<string> {
    if IsUnc(value) then
      var rest := value[|UNC_HOST|..];
      var cut := FirstIndex(rest, '\\');
      if LowerAll(rest[..cut]) != "ubuntu" then None else Some("/" + Slashes(rest[cut + 1..]))
    else if IsDrive(value) then Some("/mnt/" + [Lower(value[0])] + "/" + Slashes(value[3..]))
    else Some(value)
  }

  /** Absolute, no backslash, and every component a real name. The source's separate test for
      a doubled slash is the empty component; its test for NUL comes before the respelling. */
  predicate IsCanonical(path: string) {
    && path != [] && path[0] == '/' && '\\' !in path && '\U{0000}' !in path
    && forall part :: part in Split(path[1..], '/') ==> part !in {"", ".", ".."}
  }

  /** `_canonical_recorded`; None is its ValueError. */
  function Canonical(value: string): (r: Option<string>)
    ensures r.Some? ==> IsCanonical(r.value)
  {
    if value == [] || '\U{0000}' in value then None
    else
      match Posix(value)
      case None => None
      case Some(path) => if IsCanonical(path) then Some(path) else None
  }

  /** Canonical locators are the fixed points: canonicalising twice changes nothing, and every
      absolute path of real names is its own canonical spelling. */
  lemma CanonicalFixedPoints(value: string)
    ensures Canonical(value).Some? ==> Canonical(Canonical(value).value) == Canonical(value)
    ensures Canonical(value) == Some(value) <==> IsCanonical(value)
  {
    if Canonical(value).Some? {
      NotForeign(Canonical(value).value);
    }
    if IsCanonical(value) {
      NotForeign(value);
    }
  }

  lemma NotForeign(path: string)
    requires IsCanonical(path)
    ensures Posix(path) == Some(path)
  {
    if |path| >= |UNC_HOST| {
      assert path[..|UNC_HOST|][0] == '/';
      assert FoldAll(path[..|UNC_HOST|])[0] == '/';
    }
  }

  lemma {:induction false} SplitWord(word: string, separator: char)
    requires separator !in word
    ensures Split(word, separator) == [word]
  {
    if word != [] {
      SplitWord(word[1..], separator);
      assert [word[0]] + word[1..] == word;
    }
  }

  function ShortestRoot(): (r: string)
    ensures IsCanonical(r)
  {
    var name := "a";
    SplitWord(name, '/');
    assert ("/" + name)[1..] == name;
    "/" + name
  }

  type Locator = path: string | IsCanonical(path) witness ShortestRoot()

  // ----- containment -----

  function Parts(path: string): seq<string>
    requires IsCanonical(path)
  {
    Split(path[1..], '/')
  }

  /** `PurePosixPath(path).is_relative_to(root)`: by components, not by characters. */
  predicate Within(path: string, root: string)
    requires IsCanonical(path) && IsCanonical(root)
  {
    Parts(root) <= Parts(path)
  }

  lemma PartsPrefix(p: string, r: string)
    requires Split(r, '/') <= Split(p, '/')
    ensures p == r || r + "/" <= p
  {
    JoinSplit(p, '/');
    JoinSplit(r, '/');
    var rs, ps := Split(r, '/'), Split(p, '/');
    var more := ps[|rs|..];
    assert ps == rs + more;
    if more == [] {
      assert ps == rs;
    } else {
      JoinConcat(rs, more, '/');
      assert p == r + "/" + Join(more, '/');
    }
  }

  lemma PrefixParts(p: string, r: string)
    requires r + "/" <= p
    ensures Split(r, '/') <= Split(p, '/')
  {
    var more := p[|r| + 1..];
    assert p == r + ['/'] + more;
    SplitConcat(r, more, '/');
  }

  /** Containment by components is equality or extension past a slash. */
  lemma WithinIsPrefix(path: string, root: string)
    requires IsCanonical(path) && IsCanonical(root)
    ensures Within(path, root) <==> path == root || root + "/" <= path
  {
    var p, r := path[1..], root[1..];
    assert path == ['/'] + p && root == ['/'] + r;
    if Within(path, root) {
      PartsPrefix(p, r);
      if r + "/" <= p {
        assert p[..|r| + 1] == r + "/";
        assert path[..|r| + 2] == ['/'] + p[..|r| + 1];
      }
    }
    if root + "/" <= path {
      assert path[..|root| + 1] == root + "/";
      assert p[..|r| + 1] == path[..|root| + 1][1..] == r + "/";
      PrefixParts(p, r);
    }
  }

  /** Two roots of one path that have equal length are the same root, so the longest
      matching boundary is unique. */
  lemma EqualLengthRoots(path: string, root1: string, root2: string)
    requires IsCanonical(path) && IsCanonical(root1) && IsCanonical(root2)
    requires Within(path, root1) && Within(path, root2) && |root1| == |root2|
    ensures root1 == root2
  {
    WithinIsPrefix(path, root1);
    WithinIsPrefix(path, root2);
    assert root1 == path[..|root1|] && root2 == path[..|root2|];
  }
}
