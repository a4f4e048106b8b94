/** src/fs/path.rs: normal forms, components and parents of absolute paths. */
module FsPath {
  import opened Prelude
  import opened Strings

  const MAX_PATH_LENGTH := 4096

  const MAX_FILENAME_LENGTH := 255

  datatype PathError = InvalidPath | PathTooLong(bytes: nat) | FilenameTooLong(bytes: nat)

  function Split(s: string): (parts: seq<string>)
    ensures |parts| >= 1
  {
    if s == "" then [""]
    else
      var rest := Split(s[1..]);
      if s[0] == '/' then [""] + rest else [[s[0]] + rest[0]] + rest[1..]
  }

  function NonEmpty(parts: seq<string>): seq<string> {
    if parts == [] then [] else (if parts[0] == "" then [] else [parts[0]]) + NonEmpty(parts[1..])
  }

  /** The non-empty pieces of a path between slashes. */
  function Parts(s: string): seq<string> {
    NonEmpty(Split(s))
  }

  function FirstTooLong(parts: seq<string>): Option<string> {
    if parts == [] then None
    else if ByteLen(parts[0]) > MAX_FILENAME_LENGTH then Some(parts[0])
    else FirstTooLong(parts[1..])
  }

  function NormalizePath(path: string): Result<string, PathError> {
    if path == "" then Err(InvalidPath)
    else if '\0' in path then Err(InvalidPath)
    else if ByteLen(path) > MAX_PATH_LENGTH then Err(PathTooLong(ByteLen(path)))
    else if path[0] != '/' then Err(InvalidPath)
    else if path == "/" then Ok("/")
    else
      match FirstTooLong(Parts(path))
      case Some(part) => Err(FilenameTooLong(ByteLen(part)))
      case None => Ok("/" + Join(Parts(path), "/"))
  }

  function SplitPath(path: string): Result<(string, string), PathError> {
    match NormalizePath(path)
    case Err(e) => Err(e)
    case Ok(normalized) =>
      if normalized == "/" then Err(InvalidPath)
      else
        var parts := Parts(normalized);
        if parts == [] then Err(InvalidPath)
        else if |parts| == 1 then Ok(("/", parts[0]))
        else Ok(("/" + Join(parts[..|parts| - 1], "/"), parts[|parts| - 1]))
  }

  function PathComponents(path: string): Result<seq<string>, PathError> {
    match NormalizePath(path)
    case Err(e) => Err(e)
    case Ok(normalized) => if normalized == "/" then Ok([]) else Ok(Parts(normalized))
  }

  // ---------- splitting and joining ----------

  predicate IsPart(part: string) {
    part != "" && '/' !in part
  }

  ghost predicate AreParts(parts: seq<string>) {
    forall i | 0 <= i < |parts| :: IsPart(parts[i])
  }

  function Sum(parts: seq<string>): nat {
    if parts == [] then 0 else ByteLen(parts[0]) + Sum(parts[1..])
  }

  lemma {:induction false} SplitFacts(s: string)
    ensures forall i | 0 <= i < |Split(s)| :: '/' !in Split(s)[i]
    ensures Sum(Split(s)) + |Split(s)| - 1 == ByteLen(s)
    ensures forall i | 0 <= i < |Split(s)| :: Split(s)[i] == "" || forall c | c in Split(s)[i] :: c in s
  {
    if s != "" {
      SplitFacts(s[1..]);
      var rest := Split(s[1..]);
      if s[0] == '/' {
        assert ([""] + rest)[1..] == rest;
      } else {
        assert ([[s[0]] + rest[0]] + rest[1..])[1..] == rest[1..];
        assert ([s[0]] + rest[0])[1..] == rest[0];
      }
    }
  }

  lemma {:induction false} NonEmptyFacts(parts: seq<string>)
    requires forall i | 0 <= i < |parts| :: '/' !in parts[i]
    ensures AreParts(NonEmpty(parts)) && Sum(NonEmpty(parts)) == Sum(parts) && |NonEmpty(parts)| <= |parts|
    ensures forall p | p in NonEmpty(parts) :: p in parts
  {
    if parts != [] {
      NonEmptyFacts(parts[1..]);
      var kept := if parts[0] == "" then [] else [parts[0]];
      if kept == [] {
        assert NonEmpty(parts) == NonEmpty(parts[1..]);
      } else {
        assert NonEmpty(parts)[1..] == NonEmpty(parts[1..]);
      }
    }
  }

  lemma {:induction false} SplitWord(word: string, rest: string)
    requires '/' !in word
    ensures Split(word + "/" + rest) == [word] + Split(rest)
  {
    var s := word + "/" + rest;
    if word == "" {
      assert s[1..] == rest;
    } else {
      assert s[1..] == word[1..] + "/" + rest;
      SplitWord(word[1..], rest);
      assert s[0] == word[0] && word[0] in word;
      assert [word[0]] + word[1..] == word;
      assert ([word[1..]] + Split(rest))[1..] == Split(rest);
    }
  }

  lemma {:induction false} SplitLast(front: string, word: string)
    requires '/' !in word
    ensures Split(front + "/" + word) == Split(front) + [word]
  {
    var s := front + "/" + word;
    if front == "" {
      assert s[1..] == word;
      SplitPlain(word);
    } else {
      assert s[1..] == front[1..] + "/" + word;
      SplitLast(front[1..], word);
      var rest := Split(front[1..]);
      if s[0] == '/' {
        assert [""] + (rest + [word]) == [""] + rest + [word];
      } else {
        assert (rest + [word])[1..] == rest[1..] + [word];
      }
    }
  }

  lemma {:induction false} NonEmptyAppend(a: seq<string>, b: seq<string>)
    ensures NonEmpty(a + b) == NonEmpty(a) + NonEmpty(b)
  {
    if a == [] {
      assert a + b == b;
    } else {
      assert (a + b)[1..] == a[1..] + b;
      NonEmptyAppend(a[1..], b);
    }
  }

  /** One more slash and word add the word to the pieces, if there is one. */
  lemma PartsLast(front: string, word: string)
    requires '/' !in word
    ensures Parts(front + "/" + word) == Parts(front) + if word == "" then [] else [word]
  {
    SplitLast(front, word);
    NonEmptyAppend(Split(front), [word]);
    assert NonEmpty([word]) == if word == "" then [] else [word] by { assert [word][1..] == []; }
  }

  lemma {:induction false} SplitPlain(word: string)
    requires '/' !in word
    ensures Split(word) == [word]
  {
    if word != "" {
      SplitPlain(word[1..]);
      assert word[0] in word && [word[0]] + word[1..] == word;
    }
  }

  lemma {:induction false} NonEmptyOfParts(parts: seq<string>)
    requires AreParts(parts)
    ensures NonEmpty(parts) == parts
  {
    if parts != [] { NonEmptyOfParts(parts[1..]); }
  }

  lemma {:induction false} SplitJoin(parts: seq<string>)
    requires AreParts(parts) && parts != []
    ensures Split(Join(parts, "/")) == parts
  {
    if |parts| == 1 {
      SplitPlain(parts[0]);
    } else {
      var rest := parts[1..];
      SplitJoin(rest);
      SplitWord(parts[0], Join(rest, "/"));
      assert parts == [parts[0]] + rest;
    }
  }

  /** The pieces of a slash and joined parts are those parts. */
  lemma PartsOfJoined(parts: seq<string>)
    requires AreParts(parts)
    ensures Parts("/" + Join(parts, "/")) == parts
  {
    var joined := Join(parts, "/");
    assert ("/" + joined)[1..] == joined;
    if parts == [] {
      assert Split(joined) == [""];
      assert NonEmpty([""]) == [] && ["", ""][1..] == [""];
    } else {
      SplitJoin(parts);
      NonEmptyOfParts(parts);
      assert ([""] + parts)[1..] == parts;
    }
  }

  lemma PartsAreParts(s: string)
    ensures AreParts(Parts(s))
    ensures s != "" && s[0] == '/' ==> Sum(Parts(s)) + |Parts(s)| <= ByteLen(s)
  {
    SplitFacts(s);
    NonEmptyFacts(Split(s));
    if s != "" && s[0] == '/' {
      var rest := Split(s[1..]);
      assert Split(s)[1..] == rest;
      SplitFacts(s[1..]);
      NonEmptyFacts(rest);
    }
  }

  lemma {:induction false} JoinedBytes(parts: seq<string>)
    ensures ByteLen(Join(parts, "/")) == if parts == [] then 0 else Sum(parts) + |parts| - 1
  {
    if |parts| == 1 {
      assert Sum(parts[1..]) == 0;
    } else if parts != [] {
      JoinedBytes(parts[1..]);
      ByteLenAppend(parts[0] + "/", Join(parts[1..], "/"));
      ByteLenAppend(parts[0], "/");
      assert ByteLen("/") == 1 by { assert "/"[1..] == ""; }
    }
  }

  lemma {:induction false} FirstTooLongNone(parts: seq<string>)
    ensures FirstTooLong(parts).None? <==> forall i | 0 <= i < |parts| :: ByteLen(parts[i]) <= MAX_FILENAME_LENGTH
  {
    if parts != [] {
      FirstTooLongNone(parts[1..]);
      assert forall i | 0 < i < |parts| :: parts[i] == parts[1..][i - 1];
    }
  }

  lemma {:induction false} JoinedChars(parts: seq<string>, c: char)
    requires c != '/' && c in Join(parts, "/")
    ensures exists p :: p in parts && c in p
  {
    if |parts| == 1 {
      assert parts[0] in parts;
    } else if parts != [] {
      if c in parts[0] {
        assert parts[0] in parts;
      } else {
        assert c in Join(parts[1..], "/");
        JoinedChars(parts[1..], c);
        var p :| p in parts[1..] && c in p;
        assert p in parts;
      }
    }
  }

  lemma PartCharsFromPath(s: string, p: string, c: char)
    requires p in Parts(s) && c in p
    ensures c in s
  {
    SplitFacts(s);
    NonEmptyFacts(Split(s));
    assert p in Split(s);
    var i :| 0 <= i < |Split(s)| && Split(s)[i] == p;
  }

  // ---------- the laws ----------

  /** The normal path made of these components. */
  function Rendered(parts: seq<string>): string {
    "/" + Join(parts, "/")
  }

  ghost predicate Accepted(path: string) {
    && path != "" && '\0' !in path && path[0] == '/' && ByteLen(path) <= 4096
    && forall i | 0 <= i < |Parts(path)| :: ByteLen(Parts(path)[i]) <= 255
  }

  /** A path is accepted exactly under the stated limits, and its normal form is its rendered components. */
  lemma NormalizeExactly(path: string)
    ensures NormalizePath(path).Ok? <==> Accepted(path)
    ensures Accepted(path) ==> NormalizePath(path) == Ok(Rendered(Parts(path)))
  {
    FirstTooLongNone(Parts(path));
    if path == "/" {
      PartsOfJoined([]);
      assert Rendered([]) == "/";
    }
  }

  /**
   Why a path is refused: it is empty, holds a NUL, or is short enough and not absolute; it is too
   long; or, absolute and short enough, it has a component that is too long, the first of which is
   reported. Each length is reported in bytes.
   */
  lemma NormalizeErrors(path: string)
    ensures var r, clean := NormalizePath(path), path != "" && '\0' !in path;
            && (r == Err(InvalidPath) <==> !clean || (ByteLen(path) <= MAX_PATH_LENGTH && path[0] != '/'))
            && (r == Err(PathTooLong(ByteLen(path))) <==> clean && ByteLen(path) > MAX_PATH_LENGTH)
            && (forall i | 0 <= i < |Parts(path)| && clean && ByteLen(path) <= MAX_PATH_LENGTH && path[0] == '/' ::
                  FirstLong(Parts(path), i) ==> r == Err(FilenameTooLong(ByteLen(Parts(path)[i]))))
            && (r.Err? && r.error.FilenameTooLong? ==> exists i | 0 <= i < |Parts(path)| :: FirstLong(Parts(path), i))
  {
    if path == "/" { PartsOfJoined([]); assert Rendered([]) == "/"; }
    forall i: nat | i < |Parts(path)| && FirstLong(Parts(path), i)
      ensures FirstTooLong(Parts(path)) == Some(Parts(path)[i])
    {
      FirstLongFound(Parts(path), i);
    }
    if FirstTooLong(Parts(path)).Some? { var i := FirstLongAt(Parts(path)); }
  }

  /** The component at `i` is the first that is too long. */
  predicate FirstLong(parts: seq<string>, i: int)
    requires 0 <= i < |parts|
  {
    ByteLen(parts[i]) > MAX_FILENAME_LENGTH && forall j | 0 <= j < i :: ByteLen(parts[j]) <= MAX_FILENAME_LENGTH
  }

  lemma {:induction false} FirstLongFound(parts: seq<string>, i: nat)
    requires i < |parts| && FirstLong(parts, i)
    ensures FirstTooLong(parts) == Some(parts[i])
  {
    if i > 0 {
      assert forall j | 0 <= j < i - 1 :: parts[1..][j] == parts[j + 1];
      FirstLongFound(parts[1..], i - 1);
    }
  }

  lemma {:induction false} FirstLongAt(parts: seq<string>) returns (i: nat)
    requires FirstTooLong(parts).Some?
    ensures i < |parts| && FirstLong(parts, i)
  {
    if ByteLen(parts[0]) > MAX_FILENAME_LENGTH {
      i := 0;
    } else {
      var k := FirstLongAt(parts[1..]);
      i := k + 1;
      forall j | 0 <= j < i ensures ByteLen(parts[j]) <= MAX_FILENAME_LENGTH {
        if j > 0 { assert parts[j] == parts[1..][j - 1]; }
      }
    }
  }

  /** Normalising never lengthens a path, keeps its components, and does nothing the second time. */
  lemma NormalizeLaws(path: string)
    requires NormalizePath(path).Ok?
    ensures var n := NormalizePath(path).value;
            && ByteLen(n) <= ByteLen(path)
            && Parts(n) == Parts(path)
            && NormalizePath(n) == Ok(n)
            && PathComponents(path) == PathComponents(n) == Ok(Parts(path))
  {
    NormalizeExactly(path);
    var n := Rendered(Parts(path));
    PartsAreParts(path);
    PartsOfJoined(Parts(path));
    JoinedBytes(Parts(path));
    assert n[1..] == Join(Parts(path), "/");
    if '\0' in n {
      JoinedChars(Parts(path), '\0');
      var p :| p in Parts(path) && '\0' in p;
      PartCharsFromPath(path, p, '\0');
    }
    NormalizeExactly(n);
    if n == "/" { PartsOfJoined([]); assert Rendered([]) == "/"; }
  }

  lemma PrefixAccepted(path: string, n: nat)
    requires Accepted(path) && n <= |Parts(path)|
    ensures Accepted(Rendered(Parts(path)[..n])) && Parts(Rendered(Parts(path)[..n])) == Parts(path)[..n]
  {
    var parts := Parts(path);
    PartsAreParts(path);
    var front := parts[..n];
    PartsOfJoined(front);
    JoinedBytes(front);
    SumPrefix(parts, n);
    var r := Rendered(front);
    assert r[1..] == Join(front, "/");
    if '\0' in r {
      JoinedChars(front, '\0');
      var p :| p in front && '\0' in p;
      PartCharsFromPath(path, p, '\0');
    }
  }

  lemma {:induction false} SumPrefix(parts: seq<string>, n: nat)
    requires n <= |parts| && AreParts(parts)
    ensures Sum(parts[..n]) + n <= Sum(parts) + |parts|
  {
    if n > 0 {
      SumPrefix(parts[1..], n - 1);
      assert parts[..n][1..] == parts[1..][..n - 1];
    }
  }

  lemma RenderedRoot(parts: seq<string>)
    requires AreParts(parts)
    ensures Rendered(parts) == "/" <==> parts == []
  {
    PartsOfJoined(parts);
    PartsOfJoined([]);
  }

  /** What splitting an accepted path gives, in terms of its components. */
  lemma SplitExactly(path: string)
    requires Accepted(path)
    ensures var parts := Parts(path);
            SplitPath(path) == if parts == [] then Err(InvalidPath)
                               else Ok((Rendered(parts[..|parts| - 1]), parts[|parts| - 1]))
  {
    var parts := Parts(path);
    NormalizeExactly(path);
    PartsAreParts(path);
    PartsOfJoined(parts);
    RenderedRoot(parts);
    if |parts| == 1 { assert parts[..0] == [] && Rendered([]) == "/"; }
  }

  /**
   Splitting. It fails on an accepted path exactly when that has no components; otherwise the
   components of the parent followed by the name are the components of the path.
   */
  lemma SplitLaws(path: string)
    requires NormalizePath(path).Ok?
    ensures SplitPath(path).Ok? <==> Parts(path) != []
    ensures SplitPath(path).Ok? ==>
              var (parent, name) := SplitPath(path).value;
              && PathComponents(parent).Ok?
              && PathComponents(parent).value + [name] == PathComponents(path).value
              && IsPart(name) && ByteLen(name) <= MAX_FILENAME_LENGTH
  {
    NormalizeExactly(path);
    NormalizeLaws(path);
    SplitExactly(path);
    var parts := Parts(path);
    if parts != [] {
      ParentComponents(path);
      PartsAreParts(path);
      assert parts == parts[..|parts| - 1] + [parts[|parts| - 1]];
    }
  }

  lemma ParentComponents(path: string)
    requires Accepted(path) && Parts(path) != []
    ensures var front := Parts(path)[..|Parts(path)| - 1]; PathComponents(Rendered(front)) == Ok(front)
  {
    var front := Parts(path)[..|Parts(path)| - 1];
    PrefixAccepted(path, |front|);
    NormalizeExactly(Rendered(front));
    NormalizeLaws(Rendered(front));
  }
}
