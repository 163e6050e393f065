/** Locators in characters: which paths are canonical, and exactly which spellings a canonical
    path has. */
module LocatorFacts {
  import opened Prelude
  import opened Locators

  // ----- canonical paths -----

  /** A path component that names something. */
  predicate RealName(name: string) {
    && name != "" && name != "." && name != ".."
    && forall c :: c in name ==> c != '/' && c != '\\' && c != '\U{0000}'
  }

  predicate RealNames(names: seq<string>) {
    names != [] && forall i :: 0 <= i < |names| ==> RealName(names[i])
  }

  lemma {:induction false} PartsHaveNoSeparator(text: string, separator: char)
    ensures forall part :: part in Split(text, separator) ==> separator !in part
  {
    if text != [] {
      PartsHaveNoSeparator(text[1..], separator);
    }
  }

  lemma {:induction false} SplitJoin(names: seq<string>, separator: char)
    requires names != [] && forall name :: name in names ==> separator !in name
    ensures Split(Join(names, separator), separator) == names
  {
    assert names[0] in names;
    SplitWord(names[0], separator);
    if |names| > 1 {
      SplitJoin(names[1..], separator);
      SplitConcat(names[0], Join(names[1..], separator), separator);
      assert names == [names[0]] + names[1..];
    } else {
      assert names == [names[0]];
    }
  }

  lemma {:induction false} JoinedCharacters(names: seq<string>, separator: char, c: char)
    requires names != [] && c != separator
    ensures c in Join(names, separator) <==> exists name :: name in names && c in name
  {
    assert names == [names[0]] + names[1..];
    if |names| > 1 {
      JoinedCharacters(names[1..], separator, c);
    }
  }

  /** The canonical paths are the slash followed by real names joined by slashes. */
  lemma CanonicalPaths(path: string)
    ensures IsCanonical(path) <==> exists names :: RealNames(names) && path == "/" + Join(names, '/')
  {
    if IsCanonical(path) {
      var names := Split(path[1..], '/');
      JoinSplit(path[1..], '/');
      PartsHaveNoSeparator(path[1..], '/');
      JoinedCharacters(names, '/', '\\');
      JoinedCharacters(names, '/', '\U{0000}');
      assert path == "/" + Join(names, '/');
      assert forall i :: 0 <= i < |names| ==> names[i] in names;
      assert RealNames(names);
    }
    if names :| RealNames(names) && path == "/" + Join(names, '/') {
      SplitJoin(names, '/');
      JoinedCharacters(names, '/', '\\');
      JoinedCharacters(names, '/', '\U{0000}');
      assert path[1..] == Join(names, '/');
    }
  }

  /** The text is a, the name and b, where a and b are empty or meet the name at a separator. */
  ghost predicate Between(text: string, a: string, name: string, b: string, separator: char) {
    text == a + (name + b) && (a == "" || a[|a| - 1] == separator) && (b == "" || b[0] == separator)
  }

  ghost predicate StandsAlone(text: string, name: string, separator: char) {
    exists a, b :: Between(text, a, name, b, separator)
  }

  /** A name without the separator is a component exactly when it stands between separators or
      ends of the text. */
  lemma ComponentExact(text: string, name: string, separator: char)
    requires separator !in name
    ensures name in Split(text, separator) <==> StandsAlone(text, name, separator)
  {
    hide Split;
    if name in Split(text, separator) {
      var a, b := ComponentEnds(text, name, separator);
    }
    if StandsAlone(text, name, separator) {
      var a, b :| Between(text, a, name, b, separator);
      HeadComponent(name, b, separator);
      LaterComponent(a, name + b, name, separator);
    }
  }

  lemma HeadComponent(name: string, b: string, separator: char)
    requires separator !in name && (b == "" || b[0] == separator)
    ensures name in Split(name + b, separator)
  {
    hide Split;
    SplitWord(name, separator);
    if b == "" {
      assert name + b == name;
    } else {
      assert name + b == name + [separator] + b[1..];
      SplitConcat(name, b[1..], separator);
    }
  }

  lemma LaterComponent(a: string, tail: string, name: string, separator: char)
    requires a == "" || a[|a| - 1] == separator
    requires name in Split(tail, separator)
    ensures name in Split(a + tail, separator)
  {
    hide Split;
    if a == "" {
      assert a + tail == tail;
    } else {
      assert a + tail == a[..|a| - 1] + [separator] + tail;
      SplitConcat(a[..|a| - 1], tail, separator);
    }
  }

  lemma ComponentEnds(text: string, name: string, separator: char) returns (a: string, b: string)
    requires name in Split(text, separator)
    ensures Between(text, a, name, b, separator)
  {
    hide Split;
    var names := Split(text, separator);
    JoinSplit(text, separator);
    var i :| 0 <= i < |names| && names[i] == name;
    var front, back := names[..i], names[i + 1..];
    var rest := [name] + back;
    assert names == front + rest;
    b := EndOfJoin(name, back, separator);
    a := "";
    if front == [] {
      assert names == rest;
    } else {
      JoinConcat(front, rest, separator);
      a := Join(front, separator) + [separator];
    }
  }

  lemma EndOfJoin(name: string, back: seq<string>, separator: char) returns (b: string)
    ensures Join([name] + back, separator) == name + b && (b == "" || b[0] == separator)
  {
    if back == [] {
      b := "";
      assert [name] + back == [name];
    } else {
      b := [separator] + Join(back, separator);
      JoinConcat([name], back, separator);
      assert Join([name], separator) == name;
    }
  }

  // ----- spellings -----

  /** The same text with every backslash turned into a slash. */
  predicate Slashed(text: string, slashed: string) {
    |slashed| == |text| && forall i :: 0 <= i < |text| ==> slashed[i] == if text[i] == '\\' then '/' else text[i]
  }

  /** Character c is the lower-case letter or sign d up to case. */
  predicate UpToCase(c: char, d: char) {
    c == d || ('a' <= d <= 'z' && c == d - 'a' + 'A')
  }

  /** `name` spells `word` up to case; in the host name the long s also counts as an s. */
  predicate Spells(name: string, word: string, longS: bool) {
    |name| == |word|
    && forall i :: 0 <= i < |name| ==> UpToCase(name[i], word[i]) || (longS && word[i] == 's' && name[i] == '\U{017F}')
  }

  /** The UNC spelling: host, the Ubuntu distribution and the path behind it on one line. */
  ghost predicate UncSpelling(value: string, path: string) {
    exists host, distribution, rest, slashed ::
      UncParts(value, host, distribution, rest, slashed) && path == "/" + slashed
  }

  ghost predicate UncParts(value: string, host: string, distribution: string, rest: string, slashed: string) {
    && value == host + distribution + "\\" + rest
    && Spells(host, "\\\\wsl.localhost\\", true) && Spells(distribution, "ubuntu", false)
    && rest != "" && '\n' !in rest && Slashed(rest, slashed)
  }

  /** The drive spelling: one ASCII letter, colon, backslash and a path on one line. */
  ghost predicate DriveSpelling(value: string, path: string) {
    && |value| > 3 && value[1] == ':' && value[2] == '\\' && '\n' !in value[3..]
    && exists drive, slashed :: 'a' <= drive <= 'z' && UpToCase(value[0], drive) && Slashed(value[3..], slashed)
                                && path == "/mnt/" + [drive] + "/" + slashed
  }

  lemma {:induction false} SlashesExact(text: string, slashed: string)
    ensures Slashed(text, slashed) <==> slashed == Slashes(text)
    ensures Slashed(text, Slashes(text))
  {
    if text != [] {
      SlashesExact(text[1..], Slashes(text[1..]));
      var s := Slashes(text);
      assert s[1..] == Slashes(text[1..]);
      forall i | 0 <= i < |text|
        ensures s[i] == if text[i] == '\\' then '/' else text[i]
      {
        if i > 0 {
          assert s[i] == s[1..][i - 1] && text[i] == text[1..][i - 1];
        }
      }
    }
    if Slashed(text, slashed) {
      assert slashed == Slashes(text);
    }
  }

  lemma {:induction false} FoldAt(text: string, i: nat)
    requires i < |text|
    ensures FoldAll(text)[i] == Fold(text[i])
  {
    if i > 0 {
      FoldAt(text[1..], i - 1);
      assert FoldAll(text)[i] == FoldAll(text[1..])[i - 1];
    }
  }

  lemma {:induction false} LowerAt(text: string, i: nat)
    requires i < |text|
    ensures LowerAll(text)[i] == Lower(text[i])
  {
    if i > 0 {
      LowerAt(text[1..], i - 1);
      assert LowerAll(text)[i] == LowerAll(text[1..])[i - 1];
    }
  }

  predicate IsLower(word: string) {
    forall i :: 0 <= i < |word| ==> !('A' <= word[i] <= 'Z') && word[i] != '\U{017F}'
  }

  lemma FoldExact(name: string, word: string)
    requires IsLower(word)
    ensures FoldAll(name) == word <==> Spells(name, word, true)
  {
    forall i | 0 <= i < |name|
      ensures FoldAll(name)[i] == Fold(name[i])
    {
      FoldAt(name, i);
    }
  }

  lemma LowerExact(name: string, word: string)
    requires IsLower(word)
    ensures LowerAll(name) == word <==> Spells(name, word, false)
  {
    forall i | 0 <= i < |name|
      ensures LowerAll(name)[i] == Lower(name[i])
    {
      LowerAt(name, i);
    }
  }

  lemma FirstIndexExact(front: string, c: char, back: string)
    requires c !in front
    ensures FirstIndex(front + [c] + back, c) == |front|
  {
    var text := front + [c] + back;
    var i := FirstIndex(text, c);
    assert text[|front|] == c;
    assert forall k :: 0 <= k < i ==> text[k] in text[..i];
  }

  const UBUNTU := "ubuntu"

  lemma LiteralsAreLower()
    ensures IsLower(UNC_HOST) && IsLower(UBUNTU)
  {
  }

  lemma UbuntuHasNoBackslash(name: string)
    requires Spells(name, UBUNTU, false)
    ensures '\\' !in name && name != ""
  {
    forall i | 0 <= i < |name|
      ensures name[i] != '\\'
    {
      assert UpToCase(name[i], UBUNTU[i]);
    }
  }

  lemma UncExact(value: string, path: string)
    ensures IsUnc(value) && Posix(value) == Some(path) <==> UncSpelling(value, path)
  {
    hide FoldAll, LowerAll, Slashes, Spells, Slashed;
    if IsUnc(value) && Posix(value) == Some(path) {
      UncIsSpelled(value, path);
    }
    if UncSpelling(value, path) {
      var host, distribution, rest, slashed :|
        UncParts(value, host, distribution, rest, slashed) && path == "/" + slashed;
      UncPartsAreRead(value, host, distribution, rest, slashed);
    }
  }

  lemma UncIsSpelled(value: string, path: string)
    requires IsUnc(value) && Posix(value) == Some(path)
    ensures UncSpelling(value, path)
  {
    hide FoldAll, LowerAll, Slashes, Spells, Slashed, IsLower;
    LiteralsAreLower();
    var host, tail := value[..|UNC_HOST|], value[|UNC_HOST|..];
    var cut := FirstIndex(tail, '\\');
    var distribution, rest := tail[..cut], tail[cut + 1..];
    FoldExact(host, UNC_HOST);
    LowerExact(distribution, UBUNTU);
    SlashesExact(rest, Slashes(rest));
    assert tail == distribution + "\\" + rest;
    assert value == host + distribution + "\\" + rest;
    assert UncParts(value, host, distribution, rest, Slashes(rest));
  }

  lemma UncPartsAreRead(value: string, host: string, distribution: string, rest: string, slashed: string)
    requires UncParts(value, host, distribution, rest, slashed)
    ensures IsUnc(value) && Posix(value) == Some("/" + slashed)
  {
    LiteralsAreLower();
    var tail := distribution + ['\\'] + rest;
    assert value == host + tail && value[..|UNC_HOST|] == host && value[|UNC_HOST|..] == tail;
    FoldExact(host, UNC_HOST);
    LowerExact(distribution, UBUNTU);
    UbuntuHasNoBackslash(distribution);
    FirstIndexExact(distribution, '\\', rest);
    SlashesExact(rest, slashed);
    assert tail[..|distribution|] == distribution && tail[|distribution| + 1..] == rest;
  }

  lemma DriveLetter(c: char)
    requires 'a' <= c <= 'z' || 'A' <= c <= 'Z'
    ensures 'a' <= Lower(c) <= 'z'
    ensures forall d :: 'a' <= d <= 'z' ==> (UpToCase(c, d) <==> d == Lower(c))
  {
  }

  lemma DriveExact(value: string, path: string)
    ensures !IsUnc(value) && IsDrive(value) && Posix(value) == Some(path) <==> DriveSpelling(value, path)
  {
    if |value| > 3 && value[1] == ':' {
      assert !IsUnc(value) by {
        if |value| >= |UNC_HOST| {
          FoldAt(value[..|UNC_HOST|], 1);
          assert UNC_HOST[1] == '\\';
        }
      }
      SlashesExact(value[3..], Slashes(value[3..]));
      if 'a' <= value[0] <= 'z' || 'A' <= value[0] <= 'Z' {
        DriveLetter(value[0]);
      }
      if DriveSpelling(value, path) {
        var drive, slashed :| 'a' <= drive <= 'z' && UpToCase(value[0], drive) && Slashed(value[3..], slashed)
                              && path == "/mnt/" + [drive] + "/" + slashed;
        SlashesExact(value[3..], slashed);
      }
    }
  }

  /** A value is read as a canonical path exactly when it is that path, or its UNC spelling
      under the Ubuntu distribution, or its drive spelling. */
  lemma SpellingsExact(value: string, path: string)
    ensures Canonical(value) == Some(path) <==>
            IsCanonical(path) && (value == path || UncSpelling(value, path) || DriveSpelling(value, path))
  {
    UncExact(value, path);
    DriveExact(value, path);
    if IsCanonical(path) && value == path {
      NotForeign(path);
    }
    if IsCanonical(path) && (UncSpelling(value, path) || DriveSpelling(value, path)) {
      NoHiddenNul(value, path);
    }
  }

  lemma NoHiddenNul(value: string, path: string)
    requires '\U{0000}' !in path && (UncSpelling(value, path) || DriveSpelling(value, path))
    ensures '\U{0000}' !in value && value != []
  {
    if UncSpelling(value, path) {
      var host, distribution, rest, slashed :|
        UncParts(value, host, distribution, rest, slashed) && path == "/" + slashed;
      forall i | 0 <= i < |value|
        ensures value[i] != '\U{0000}'
      {
        UncCharacter(value, host, distribution, rest, slashed, i);
      }
    } else {
      var drive, slashed :| 'a' <= drive <= 'z' && UpToCase(value[0], drive) && Slashed(value[3..], slashed)
                            && path == "/mnt/" + [drive] + "/" + slashed;
      forall i | 0 <= i < |value|
        ensures value[i] != '\U{0000}'
      {
        if i >= 3 {
          assert slashed[i - 3] == path[7 + (i - 3)];
          assert path[7 + (i - 3)] in path;
        }
      }
    }
  }

  lemma UncCharacter(value: string, host: string, distribution: string, rest: string, slashed: string, i: nat)
    requires UncParts(value, host, distribution, rest, slashed) && '\U{0000}' !in slashed && i < |value|
    ensures value[i] != '\U{0000}'
  {
    LiteralsAreLower();
    if i < |host| {
      assert value[i] == host[i];
      HasNoNul(host, UNC_HOST, true, i);
    } else if i < |host| + |distribution| {
      assert value[i] == distribution[i - |host|];
      HasNoNul(distribution, UBUNTU, false, i - |host|);
    } else if i > |host| + |distribution| {
      var k := i - |host| - |distribution| - 1;
      assert value[i] == rest[k];
      assert slashed[k] in slashed;
    }
  }

  lemma HasNoNul(name: string, word: string, longS: bool, i: nat)
    requires Spells(name, word, longS) && word in {UNC_HOST, UBUNTU} && i < |name|
    ensures name[i] != '\U{0000}'
  {
    assert UpToCase(name[i], word[i]) || name[i] == '\U{017F}';
    assert word[i] != '\U{0000}';
  }
}
