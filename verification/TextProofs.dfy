/** What the text tables keep: the exact round trip, isolation between files, and the counts. */
module TextProofs {
  import opened Prelude
  import opened Rows
  import opened Strings
  import opened Detection
  import opened TextTables

  // ---------- the round trip ----------

  /** What a reader gets for a written text: CR LF pairs become LF, and a lone LF becomes nothing. */
  function Reread(text: string): string {
    if CrlfToLf(text) == "\n" then "" else CrlfToLf(text)
  }

  /** Whatever ending a text is detected to have, it is rebuilt with LF: the stored names are upper-case. */
  lemma SeparatorIsLf(ending: LineEnding)
    ensures Separator(StoredName(ending)) == "\n"
  {
    assert "crlf"[0] == 'c' && "cr"[0] == 'c';
    assert StoredName(ending)[0] != 'c';
  }

  lemma RebuildIsReread(text: string, ending: LineEnding)
    ensures Rebuild(Lines(text), Separator(StoredName(ending)), EndsWith(text, '\n')) == Reread(text)
  {
    SeparatorIsLf(ending);
    LinesJoin(text);
    CrlfToLfEnd(text);
    var joined := Join(Lines(text), "\n");
    if joined != "" && EndsWith(text, '\n') {
      assert |joined + "\n"| > 1;
    }
  }

  /** The round trip is exact precisely for the texts without a CR LF pair other than a lone LF. */
  lemma RereadExactly(text: string)
    ensures Reread(text) == text <==> !HasCrlf(text) && text != "\n"
  {
    CrlfToLfFixes(text);
  }

  // ---------- what the stored name is for ----------

  /** The name a reader would have to find for its separator to be the ending of the text. */
  function NameCompared(e: LineEnding): string {
    match e
    case CrLf => "crlf"
    case Cr => "cr"
    case _ => "lf"
  }

  function FinalPair(s: string): string {
    if EndsWith(s, '\n') then "\r\n" else ""
  }

  lemma FinalPairCons(head: string, rest: string)
    ensures FinalPair(head + "\r\n" + rest) == if rest == "" then "\r\n" else FinalPair(rest)
  {
    var s := head + "\r\n" + rest;
    assert rest != "" ==> s[|s| - 1] == rest[|rest| - 1];
  }

  lemma JoinPairs(x: string, more: seq<string>)
    ensures Join([x] + more, "\r\n") == if more == [] then x else x + "\r\n" + Join(more, "\r\n")
  {
    assert ([x] + more)[1..] == more;
  }

  lemma RestOnlyPairs(s: string, i: nat)
    requires OnlyPairs(s) && i < |s| && s[i] == '\n'
    ensures OnlyPairs(s[i + 1..])
  {
    var rest := s[i + 1..];
    assert forall k | 0 <= k < |rest| :: rest[k] == s[i + 1 + k];
    forall k | 0 <= k < |rest| && rest[k] == '\n' ensures k > 0 && rest[k - 1] == '\r' {
      assert s[i + 1 + k - 1] == '\r';
    }
    forall k | 0 <= k < |rest| && rest[k] == '\r' ensures k + 1 < |rest| && rest[k + 1] == '\n' {
      assert s[i + 1 + k + 1] == '\n';
    }
  }

  /** Lines that all ended in CR LF, joined by CR LF, are the text. */
  lemma {:induction false} PairsJoin(s: string)
    requires OnlyPairs(s)
    ensures Join(Lines(s), "\r\n") + FinalPair(s) == s
  {
    if s != "" {
      match IndexOf(s, '\n')
      case None =>
        assert Lines(s) == [s];
      case Some(i) =>
        var head, rest := s[..i - 1], s[i + 1..];
        assert s[..i] == head + "\r" && s == head + "\r\n" + rest;
        assert StripCr(s[..i]) == head;
        RestOnlyPairs(s, i);
        PairsJoin(rest);
        JoinPairs(head, Lines(rest));
        LinesNone(rest);
        FinalPairCons(head, rest);
        AppendAssociates(head + "\r\n", Join(Lines(rest), "\r\n"), FinalPair(rest));
    }
  }

  lemma PairsRebuilt(text: string)
    requires OnlyPairs(text) && '\r' in text
    ensures Rebuild(Lines(text), "\r\n", EndsWith(text, '\n')) == text <==> text != "\r\n"
  {
    PairsJoin(text);
    var joined := Join(Lines(text), "\r\n");
    if joined == "" { assert text == FinalPair(text); }
    if text == "\r\n" {
      assert text[..1] == "\r" && text[2..] == "";
      assert IndexOf(text, '\n') == Some(1);
      assert Lines(text) == [""];
    }
  }

  /**
   The reader is right but for the case of the name: if it found the name it compares with, it would
   rebuild every text that has one kind of ending exactly, other than a lone line end.
   */
  lemma NameComparedIsExact(text: string, e: LineEnding)
    requires IsStyle(e, text) && e != Mixed
    ensures Rebuild(Lines(text), Separator(NameCompared(e)), EndsWith(text, '\n')) == text
        <==> text != "\n" && text != "\r\n"
  {
    if e == CrLf {
      PairsRebuilt(text);
    } else if e == Cr {
      assert IndexOf(text, '\n') == None && Lines(text) == [text];
    } else {
      assert "lf"[0] != "crlf"[0] && "lf"[0] != "cr"[0];
      SeparatorIsLf(Lf);
      RebuildIsReread(text, Lf);
      RereadExactly(text);
    }
  }

  ghost predicate AreLines(lines: seq<string>) {
    forall i | 0 <= i < |lines| :: IsLine(lines[i])
  }

  lemma OnlyPairsCons(line: string, rest: string)
    requires IsLine(line) && OnlyPairs(rest)
    ensures OnlyPairs(line + "\r\n" + rest)
  {
    var s, n := line + "\r\n" + rest, |line|;
    assert forall k | 0 <= k < n :: s[k] == line[k] && s[k] in line;
    assert s[n] == '\r' && s[n + 1] == '\n' && forall k | n + 2 <= k < |s| :: s[k] == rest[k - n - 2];
    forall k | 0 <= k < |s| && s[k] == '\n' ensures k > 0 && s[k - 1] == '\r' {
      if k >= n + 2 { assert rest[k - n - 2 - 1] == '\r'; }
    }
    forall k | 0 <= k < |s| && s[k] == '\r' ensures k + 1 < |s| && s[k + 1] == '\n' {
      if k >= n + 2 { assert rest[k - n - 2 + 1] == '\n'; }
    }
  }

  lemma {:induction false} JoinStyle(lines: seq<string>, separator: string)
    requires AreLines(lines)
    ensures '\r' in Join(lines, separator) <==> |lines| >= 2 && '\r' in separator
    ensures '\n' in Join(lines, separator) <==> |lines| >= 2 && '\n' in separator
    ensures separator == "\r\n" ==> OnlyPairs(Join(lines, separator))
  {
    if |lines| >= 2 {
      var rest := Join(lines[1..], separator);
      JoinStyle(lines[1..], separator);
      assert Join(lines, separator) == lines[0] + separator + rest;
      assert IsLine(lines[0]);
      if separator == "\r\n" { OnlyPairsCons(lines[0], rest); }
    }
  }

  /** Two or more lines read under a name the reader knows have the ending of that name between them. */
  lemma SeparatorShows(lines: seq<string>, e: LineEnding)
    requires AreLines(lines) && |lines| >= 2 && e in [Lf, CrLf, Cr]
    ensures IsStyle(e, Join(lines, Separator(NameCompared(e))))
  {
    assert "lf"[0] != "crlf"[0] && "lf"[0] != "cr"[0] && |"cr"| != |"crlf"|;
    assert '\r' in "\r" && '\n' in "\n" && "\r\n"[0] == '\r' && "\r\n"[1] == '\n';
    JoinStyle(lines, Separator(NameCompared(e)));
  }

  /** The tables just before the mappings of a written text are inserted. */
  function Described(c: Tables, key: Key, text: string, ending: LineEnding): Tables {
    c.(metadata := c.metadata[key := Meta(|Lines(text)|, StoredName(ending), EndsWith(text, '\n'))],
       blocks := Intern(c.blocks, Lines(text)).0)
  }

  function NewRows(c: Tables, key: Key, text: string): seq<LineRow> {
    Numbered(key, Intern(c.blocks, Lines(text)).1)
  }

  lemma WriteTextIs(t: Tables, key: Key, text: string, ending: LineEnding, isNew: bool)
    requires Valid(t)
    ensures var c := Cleared(t, key, isNew);
            WriteText(t, key, text, ending, isNew) ==
            if key in c.metadata then (t, Err(UniqueViolation))
            else (InsertRows(Described(c, key, text, ending), NewRows(c, key, text)), Ok(|Lines(text)|))
    ensures key in Cleared(t, key, isNew).metadata <==> isNew && key in t.metadata
  {
    ClearedKeeps(t, key, isNew);
  }

  lemma NewRowsValid(c: Tables, key: Key, text: string, ending: LineEnding)
    requires Valid(c)
    ensures var d, rows := Described(c, key, text, ending), NewRows(c, key, text);
            && Valid(d) && Extends(c.blocks, d.blocks)
            && (forall r | r in rows :: r.key == key && r.block < |d.blocks|)
            && Contents(d.blocks, rows) == Lines(text)
  {
    InternKeeps(c.blocks, Lines(text));
    var (blocks, ids) := Intern(c.blocks, Lines(text));
    ContentsOfNumbered(blocks, key, ids, Lines(text));
  }

  lemma WrittenReads(c: Tables, key: Key, text: string, ending: LineEnding)
    requires Valid(c) && key !in c.metadata
    ensures var t' := InsertRows(Described(c, key, text, ending), NewRows(c, key, text));
            Valid(t') && Extends(c.blocks, t'.blocks) && ReadText(t', key) == Some(Reread(text))
  {
    var d, rows := Described(c, key, text, ending), NewRows(c, key, text);
    NewRowsValid(c, key, text, ending);
    InsertRowsKeeps(d, rows);
    SelectAdded(c.lineMap, rows, OfFile(key), ByLine());
    ContentsStable(d.blocks, InsertRows(d, rows).blocks, rows);
    RebuildIsReread(text, ending);
  }

  /** The number of LFs, and one more for text after the last. */
  function LineTotal(text: string): nat {
    Newlines(text, |text|) + if text != "" && text[|text| - 1] != '\n' then 1 else 0
  }

  predicate DescribesText(meta: Meta, text: string, ending: LineEnding) {
    && meta.totalLines == LineTotal(text) && meta.lineEnding == StoredName(ending)
    && (meta.trailing <==> text != "" && text[|text| - 1] == '\n')
  }

  /**
   Writing a text. It fails exactly when the file counts as new and has a row already, and then
   changes nothing. Otherwise it answers and stores the number of lines, with the name of the line
   ending and whether the text ends in LF; reading it back gives the reread text, and every other
   file in every layer reads as before. Blocks keep their places and contents.
   */
  lemma WriteTextExact(t: Tables, key: Key, text: string, ending: LineEnding, isNew: bool)
    requires Valid(t)
    ensures var (t', r) := WriteText(t, key, text, ending, isNew);
            && (r.Ok? <==> !isNew || key !in t.metadata)
            && (r.Err? ==> t' == t)
            && Valid(t') && Extends(t.blocks, t'.blocks)
            && (r.Ok? ==> ReadText(t', key) == Some(Reread(text)))
            && (r.Ok? ==> && r == Ok(LineTotal(text)) && key in t'.metadata
                          && DescribesText(t'.metadata[key], text, ending))
            && (forall k | k != key :: ReadText(t', k) == ReadText(t, k))
  {
    WriteTextIs(t, key, text, ending, isNew);
    ClearedKeeps(t, key, isNew);
    LinesCount(text);
    var c := Cleared(t, key, isNew);
    if key !in c.metadata {
      InsertRowsKeeps(Described(c, key, text, ending), NewRows(c, key, text));
      WrittenReads(c, key, text, ending);
      forall k | k != key ensures ReadText(WriteText(t, key, text, ending, isNew).0, k) == ReadText(t, k) {
        WriteTextOther(t, key, text, ending, isNew, k);
      }
    }
  }

  lemma WriteTextOther(t: Tables, key: Key, text: string, ending: LineEnding, isNew: bool, k: Key)
    requires Valid(t) && k != key
    ensures ReadText(WriteText(t, key, text, ending, isNew).0, k) == ReadText(t, k)
  {
    WriteTextIs(t, key, text, ending, isNew);
    ClearedKeeps(t, key, isNew);
    var c := Cleared(t, key, isNew);
    var d, rows := Described(c, key, text, ending), NewRows(c, key, text);
    NewRowsValid(c, key, text, ending);
    InsertRowsKeeps(d, rows);
    if key !in c.metadata {
      OtherFileUnchanged(t, c, InsertRows(d, rows), key, rows, k);
    }
  }

  lemma OtherFileUnchanged(t: Tables, c: Tables, t': Tables, key: Key, rows: seq<LineRow>, k: Key)
    requires Valid(t) && k != key
    requires Extends(t.blocks, c.blocks) && Extends(c.blocks, t'.blocks)
    requires k in c.metadata <==> k in t.metadata
    requires k in t.metadata ==> c.metadata[k] == t.metadata[k]
    requires k in t'.metadata <==> k in c.metadata
    requires k in c.metadata ==> t'.metadata[k] == c.metadata[k]
    requires LineMappings(c, k) == LineMappings(t, k)
    requires t'.lineMap == c.lineMap + rows && forall r | r in rows :: r.key == key
    ensures ReadText(t', k) == ReadText(t, k)
  {
    SelectIgnores(c.lineMap, rows, OfFile(k), ByLine());
    SelectMembers(t.lineMap, OfFile(k), ByLine());
    ContentsStable(t.blocks, t'.blocks, LineMappings(t, k));
  }

  /** A text reads the same in whatever order its mappings are stored, if no line number repeats. */
  lemma MappingsInAnyOrder(t: Tables, reordered: seq<LineRow>, key: Key)
    requires multiset(t.lineMap) == multiset(reordered) && RanksDiffer(t.lineMap, OfFile(key), ByLine())
    ensures ReadText(t.(lineMap := reordered), key) == ReadText(t, key)
  {
    SelectAnyOrder(t.lineMap, reordered, OfFile(key), ByLine());
  }

  // ---------- reference counts ----------

  /** How many mappings point at block `b`. */
  function RefCount(rows: seq<LineRow>, b: BlockId): nat {
    if rows == [] then 0 else RefCount(rows[..|rows| - 1], b) + if rows[|rows| - 1].block == b then 1 else 0
  }

  ghost predicate CountsExact(t: Tables) {
    forall b | 0 <= b < |t.blocks| :: t.blocks[b].refs == RefCount(t.lineMap, b)
  }

  ghost predicate CountsAtMost(t: Tables) {
    forall b | 0 <= b < |t.blocks| :: t.blocks[b].refs <= RefCount(t.lineMap, b)
  }

  lemma {:induction false} RefCountAppend(a: seq<LineRow>, c: seq<LineRow>, b: BlockId)
    ensures RefCount(a + c, b) == RefCount(a, b) + RefCount(c, b)
  {
    if c == [] {
      assert a + c == a;
    } else {
      assert (a + c)[..|a + c| - 1] == a + c[..|c| - 1];
      RefCountAppend(a, c[..|c| - 1], b);
    }
  }

  lemma {:induction false} RefCountPlace(rows: seq<LineRow>, row: LineRow, b: BlockId)
    ensures RefCount(Place(rows, row, ByLine()), b) == RefCount(rows, b) + if row.block == b then 1 else 0
  {
    if rows != [] {
      RefCountPlace(rows[..|rows| - 1], row, b);
      RefCountAppend(rows, [row], b);
      RefCountAppend(Place(rows[..|rows| - 1], row, ByLine()), [rows[|rows| - 1]], b);
    }
    RefCountOne(row, b);
    if rows != [] { RefCountOne(rows[|rows| - 1], b); }
  }

  lemma RefCountOne(row: LineRow, b: BlockId)
    ensures RefCount([row], b) == if row.block == b then 1 else 0
  {
    assert [row][..0] == [];
  }

  /** The rows of a file and the rows of the others split every count. */
  lemma {:induction false} RefCountSplit(rows: seq<LineRow>, key: Key, b: BlockId)
    ensures RefCount(Where(rows, OfFile(key)), b) + RefCount(Where(rows, NotOfFile(key)), b) == RefCount(rows, b)
  {
    if rows != [] {
      var front, last := rows[..|rows| - 1], rows[|rows| - 1];
      RefCountSplit(front, key, b);
      RefCountOne(last, b);
      if last.key == key {
        RefCountAppend(Where(front, OfFile(key)), [last], b);
        assert Where(front, NotOfFile(key)) + [] == Where(front, NotOfFile(key));
      } else {
        RefCountAppend(Where(front, NotOfFile(key)), [last], b);
        assert Where(front, OfFile(key)) + [] == Where(front, OfFile(key));
      }
    }
  }

  lemma {:induction false} RefCountSelect(rows: seq<LineRow>, key: Key, b: BlockId)
    ensures RefCount(Select(rows, OfFile(key), ByLine()), b) == RefCount(Where(rows, OfFile(key)), b)
  {
    if rows != [] {
      var front, last := rows[..|rows| - 1], rows[|rows| - 1];
      RefCountSelect(front, key, b);
      RefCountOne(last, b);
      if last.key == key {
        RefCountAppend(Where(front, OfFile(key)), [last], b);
        RefCountPlace(Select(front, OfFile(key), ByLine()), last, b);
      } else {
        assert Where(front, OfFile(key)) + [] == Where(front, OfFile(key));
      }
    }
  }

  lemma {:induction false} DecrementAllCounts(blocks: seq<Block>, rows: seq<LineRow>, b: BlockId)
    requires b < |blocks|
    ensures |DecrementAll(blocks, rows)| == |blocks|
    ensures DecrementAll(blocks, rows)[b].refs
         == if blocks[b].refs < RefCount(rows, b) then 0 else blocks[b].refs - RefCount(rows, b)
  {
    if rows != [] { DecrementAllCounts(blocks, rows[..|rows| - 1], b); }
  }

  lemma {:induction false} InsertRowsCounts(t: Tables, rows: seq<LineRow>, b: BlockId)
    requires b < |t.blocks|
    ensures |InsertRows(t, rows).blocks| == |t.blocks|
    ensures InsertRows(t, rows).blocks[b].refs == t.blocks[b].refs + RefCount(rows, b)
  {
    if rows != [] { InsertRowsCounts(t, rows[..|rows| - 1], b); }
  }

  lemma {:induction false} InternCounts(blocks: seq<Block>, lines: seq<string>, b: BlockId)
    requires ValidBlocks(blocks)
    ensures var all := Intern(blocks, lines).0;
            && |blocks| <= |all|
            && (b < |all| ==> all[b].refs == if b < |blocks| then blocks[b].refs else 0)
  {
    if lines != [] {
      InternCounts(blocks, lines[..|lines| - 1], b);
      InternKeeps(blocks, lines[..|lines| - 1]);
      ShortHashNeverMatches(Intern(blocks, lines[..|lines| - 1]).0, lines[|lines| - 1]);
    }
  }

  lemma {:induction false} NoRefs(rows: seq<LineRow>, b: BlockId)
    requires forall r | r in rows :: r.block < b
    ensures RefCount(rows, b) == 0
  {
    if rows != [] {
      assert rows[|rows| - 1] in rows;
      NoRefs(rows[..|rows| - 1], b);
    }
  }

  lemma {:induction false} NoRefsAbove(rows: seq<LineRow>, n: nat, b: BlockId)
    requires n <= b && forall r | r in rows :: r.block < n
    ensures RefCount(rows, b) == 0
  {
    NoRefs(rows, b);
  }

  lemma ClearedCount(t: Tables, key: Key, isNew: bool, b: BlockId)
    requires b < |t.blocks|
    ensures var c := Cleared(t, key, isNew);
            && |c.blocks| == |t.blocks|
            && (t.blocks[b].refs == RefCount(t.lineMap, b) ==> c.blocks[b].refs == RefCount(c.lineMap, b))
            && (t.blocks[b].refs <= RefCount(t.lineMap, b) ==> c.blocks[b].refs <= RefCount(c.lineMap, b))
  {
    DecrementAllCounts(t.blocks, Where(t.lineMap, OfFile(key)), b);
    RefCountSplit(t.lineMap, key, b);
  }

  lemma WriteTextCount(t: Tables, key: Key, text: string, ending: LineEnding, isNew: bool, b: BlockId)
    requires Valid(t) && b < |WriteText(t, key, text, ending, isNew).0.blocks|
    ensures var t' := WriteText(t, key, text, ending, isNew).0;
            && |t.blocks| <= |t'.blocks|
            && (b >= |t.blocks| || t.blocks[b].refs == RefCount(t.lineMap, b) ==>
                  t'.blocks[b].refs == RefCount(t'.lineMap, b))
            && (b < |t.blocks| && t.blocks[b].refs <= RefCount(t.lineMap, b) ==>
                  t'.blocks[b].refs <= RefCount(t'.lineMap, b))
  {
    var c := Cleared(t, key, isNew);
    ClearedKeeps(t, key, isNew);
    if b < |t.blocks| { ClearedCount(t, key, isNew, b); }
    if key !in c.metadata {
      var lines := Lines(text);
      var (blocks, ids) := Intern(c.blocks, lines);
      InternCounts(c.blocks, lines, b);
      var d := c.(metadata := c.metadata[key := Meta(|lines|, StoredName(ending), EndsWith(text, '\n'))],
                  blocks := blocks);
      InsertRowsKeeps(d, Numbered(key, ids));
      InsertRowsCounts(d, Numbered(key, ids), b);
      RefCountAppend(c.lineMap, Numbered(key, ids), b);
      DecrementAllKeeps(t.blocks, Where(t.lineMap, OfFile(key)));
      if b >= |t.blocks| { NoRefsAbove(c.lineMap, |c.blocks|, b); }
    }
  }

  /** A text write keeps every count equal to the number of mappings that point at the block. */
  lemma WriteTextKeepsCounts(t: Tables, key: Key, text: string, ending: LineEnding, isNew: bool)
    requires Valid(t)
    ensures CountsExact(t) ==> CountsExact(WriteText(t, key, text, ending, isNew).0)
    ensures CountsAtMost(t) ==> CountsAtMost(WriteText(t, key, text, ending, isNew).0)
  {
    var t' := WriteText(t, key, text, ending, isNew).0;
    forall b | 0 <= b < |t'.blocks|
      ensures CountsExact(t) ==> t'.blocks[b].refs == RefCount(t'.lineMap, b)
      ensures CountsAtMost(t) ==> t'.blocks[b].refs <= RefCount(t'.lineMap, b)
    {
      WriteTextCount(t, key, text, ending, isNew, b);
    }
  }

  /**
   Releasing a text's blocks leaves its mappings and its description in place. Each count falls by
   the number of the file's mappings to the block, though not below zero. So no count comes to
   exceed the number of mappings; and it keeps exact counts exact only for a file that has no mappings.
   */
  lemma ReleaseCountsExactly(t: Tables, key: Key)
    requires Valid(t)
    ensures ReleaseText(t, key).lineMap == t.lineMap && ReleaseText(t, key).metadata == t.metadata
    ensures |ReleaseText(t, key).blocks| == |t.blocks|
    ensures forall b: nat | b < |t.blocks| ::
              var fall := RefCount(Where(t.lineMap, OfFile(key)), b);
              ReleaseText(t, key).blocks[b]
              == t.blocks[b].(refs := if t.blocks[b].refs < fall then 0 else t.blocks[b].refs - fall)
    ensures CountsAtMost(t) ==> CountsAtMost(ReleaseText(t, key))
    ensures CountsExact(t) ==> (CountsExact(ReleaseText(t, key)) <==> LineMappings(t, key) == [])
  {
    var rows, t' := LineMappings(t, key), ReleaseText(t, key);
    DecrementAllKeeps(t.blocks, rows);
    forall b | 0 <= b < |t.blocks|
      ensures t'.blocks[b].refs
           == if t.blocks[b].refs < RefCount(rows, b) then 0 else t.blocks[b].refs - RefCount(rows, b)
      ensures RefCount(rows, b) == RefCount(Where(t.lineMap, OfFile(key)), b) <= RefCount(t.lineMap, b)
    {
      DecrementAllCounts(t.blocks, rows, b);
      RefCountSplit(t.lineMap, key, b);
      RefCountSelect(t.lineMap, key, b);
    }
    if CountsExact(t) && rows != [] {
      SelectMembers(t.lineMap, OfFile(key), ByLine());
      var b := rows[|rows| - 1].block;
      assert rows[|rows| - 1] in rows;
      assert RefCount(rows, b) > 0;
      assert t'.blocks[b].refs < RefCount(t'.lineMap, b);
    }
  }

  // ---------- runs ----------

  datatype Op =
    | Write(key: Key, text: string, ending: LineEnding, isNew: bool)
    | Release(key: Key)
    | Inc(id: BlockId)
    | Dec(id: BlockId)

  function Apply(t: Tables, op: Op): Tables {
    match op
    case Write(key, text, ending, isNew) => WriteText(t, key, text, ending, isNew).0
    case Release(key) => ReleaseText(t, key)
    case Inc(id) => t.(blocks := Increment(t.blocks, id))
    case Dec(id) => t.(blocks := Decrement(t.blocks, id))
  }

  lemma SameRowsSameText(t: Tables, t': Tables, key: Key)
    requires Valid(t) && Extends(t.blocks, t'.blocks) && t'.lineMap == t.lineMap && t'.metadata == t.metadata
    ensures ReadText(t', key) == ReadText(t, key)
  {
    SelectMembers(t.lineMap, OfFile(key), ByLine());
    ContentsStable(t.blocks, t'.blocks, LineMappings(t, key));
  }

  lemma ApplyKeeps(t: Tables, op: Op)
    requires Valid(t)
    ensures Valid(Apply(t, op)) && Extends(t.blocks, Apply(t, op).blocks)
    ensures forall k | !(op.Write? && op.key == k) :: ReadText(Apply(t, op), k) == ReadText(t, k)
  {
    match op
    case Write(key, text, ending, isNew) => WriteTextExact(t, key, text, ending, isNew);
    case Release(key) =>
      DecrementAllKeeps(t.blocks, LineMappings(t, key));
      forall k { SameRowsSameText(t, Apply(t, op), k); }
    case Inc(id) => forall k { SameRowsSameText(t, Apply(t, op), k); }
    case Dec(id) => forall k { SameRowsSameText(t, Apply(t, op), k); }
  }

  ghost function Run(t: Tables, ops: seq<Op>): (t': Tables)
    requires Valid(t)
    ensures Valid(t')
    decreases ops
  {
    if ops == [] then t
    else
      ApplyKeeps(t, ops[0]);
      Run(Apply(t, ops[0]), ops[1..])
  }

  /**
   Over any run of text writes and count changes: blocks are never altered or removed, no two
   hold equal content, every mapping points at a block, and a file that no step writes reads the
   same at the end as at the start.
   */
  lemma {:induction false} FilesAreIsolated(t: Tables, ops: seq<Op>, key: Key)
    requires Valid(t)
    ensures Extends(t.blocks, Run(t, ops).blocks) && Valid(Run(t, ops))
    ensures (forall i | 0 <= i < |ops| :: !(ops[i].Write? && ops[i].key == key)) ==>
              ReadText(Run(t, ops), key) == ReadText(t, key)
    decreases ops
  {
    if ops != [] {
      ApplyKeeps(t, ops[0]);
      FilesAreIsolated(Apply(t, ops[0]), ops[1..], key);
      assert forall i | 0 <= i < |ops[1..]| :: ops[1..][i] == ops[i + 1];
    }
  }

  /** Starting from empty tables, text writes alone keep every count exact; with releases no count exceeds it. */
  lemma {:induction false} CountsOverRuns(t: Tables, ops: seq<Op>)
    requires Valid(t) && CountsAtMost(t) && forall i | 0 <= i < |ops| :: ops[i].Write? || ops[i].Release?
    ensures CountsAtMost(Run(t, ops))
    ensures CountsExact(t) && (forall i | 0 <= i < |ops| :: ops[i].Write?) ==> CountsExact(Run(t, ops))
    decreases ops
  {
    if ops != [] {
      ApplyKeeps(t, ops[0]);
      match ops[0] {
        case Write(key, text, ending, isNew) => WriteTextKeepsCounts(t, key, text, ending, isNew);
        case Release(key) => ReleaseCountsExactly(t, key);
      }
      assert forall i | 0 <= i < |ops[1..]| :: ops[1..][i] == ops[i + 1];
      CountsOverRuns(Apply(t, ops[0]), ops[1..]);
    }
  }
}
