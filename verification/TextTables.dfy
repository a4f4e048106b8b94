/**
 The text tables of src/storage/text.rs: content-addressed blocks, per-file metadata and line
 mappings, with the constraints and the reference-count trigger of
 migrations/20260118000004_create_text_storage.sql. BLAKE3 is taken to be injective, so a hash
 is the content it was computed from, with the number of digits it is written in.
 */
module TextTables {
  import opened Prelude
  import opened Rows
  import opened Strings
  import opened Detection

  /** A hash as a string of hexadecimal digits: how many there are, and the content it stands for. */
  datatype Hash = Hash(digits: nat, content: string)

  /** The hash blocks are stored under: 64 digits. */
  function Blake3(content: string): Hash { Hash(64, content) }

  /** The hash a writer looks lines up by: 16 digits. */
  function SipHash(content: string): Hash { Hash(16, content) }

  type BlockId = nat

  datatype Block = Block(hash: Hash, content: string, refs: nat)

  datatype Key = Key(inode: int, layer: nat)

  datatype Meta = Meta(totalLines: nat, lineEnding: string, trailing: bool)

  datatype LineRow = LineRow(key: Key, line: nat, block: BlockId)

  datatype Tables = Tables(blocks: seq<Block>, metadata: map<Key, Meta>, lineMap: seq<LineRow>)

  datatype TextError = UniqueViolation

  const EMPTY := Tables([], map[], [])

  function OfFile(key: Key): LineRow -> bool { (r: LineRow) => r.key == key }

  function NotOfFile(key: Key): LineRow -> bool { (r: LineRow) => r.key != key }

  function ByLine(): LineRow -> nat { (r: LineRow) => r.line }

  // ---------- statements ----------

  function GetBlockByHash(blocks: seq<Block>, h: Hash): (r: Option<BlockId>)
    ensures r.Some? ==> r.value < |blocks| && blocks[r.value].hash == h
    ensures r.None? ==> forall i | 0 <= i < |blocks| :: blocks[i].hash != h
  {
    if blocks == [] then None
    else
      var last := |blocks| - 1;
      if blocks[last].hash == h then Some(last)
      else
        assert forall i | 0 <= i < last :: blocks[..last][i] == blocks[i];
        GetBlockByHash(blocks[..last], h)
  }

  function CreateBlock(blocks: seq<Block>, content: string): (seq<Block>, BlockId) {
    match GetBlockByHash(blocks, Blake3(content))
    case Some(id) => (blocks, id)
    case None => (blocks + [Block(Blake3(content), content, 0)], |blocks|)
  }

  function Increment(blocks: seq<Block>, id: BlockId): seq<Block> {
    if id < |blocks| then blocks[id := blocks[id].(refs := blocks[id].refs + 1)] else blocks
  }

  /** The count never goes below zero. */
  function Decrement(blocks: seq<Block>, id: BlockId): seq<Block> {
    if id < |blocks| then blocks[id := blocks[id].(refs := if blocks[id].refs == 0 then 0 else blocks[id].refs - 1)]
    else blocks
  }

  function DecrementAll(blocks: seq<Block>, rows: seq<LineRow>): seq<Block> {
    if rows == [] then blocks
    else Decrement(DecrementAll(blocks, rows[..|rows| - 1]), rows[|rows| - 1].block)
  }

  /** Each inserted mapping increments its block's count. */
  function InsertRows(t: Tables, rows: seq<LineRow>): Tables {
    if rows == [] then t
    else
      var front, row := InsertRows(t, rows[..|rows| - 1]), rows[|rows| - 1];
      front.(lineMap := front.lineMap + [row], blocks := Increment(front.blocks, row.block))
  }

  /** Each deleted mapping decrements its block's count. */
  function DeleteRows(t: Tables, key: Key): Tables {
    t.(lineMap := Where(t.lineMap, NotOfFile(key)), blocks := DecrementAll(t.blocks, Where(t.lineMap, OfFile(key))))
  }

  function LineMappings(t: Tables, key: Key): seq<LineRow> {
    Select(t.lineMap, OfFile(key), ByLine())
  }

  /** The contents of the mapped blocks; a mapping to no block contributes nothing. */
  function Contents(blocks: seq<Block>, rows: seq<LineRow>): seq<string> {
    if rows == [] then []
    else
      var last := |rows| - 1;
      Contents(blocks, rows[..last]) + if rows[last].block < |blocks| then [blocks[rows[last].block].content] else []
  }

  /** The separator a reader chooses for a stored name: it compares with lower-case names. */
  function Separator(stored: string): string {
    if stored == "crlf" then "\r\n" else if stored == "cr" then "\r" else "\n"
  }

  function Rebuild(lines: seq<string>, separator: string, trailing: bool): string {
    var result := Join(lines, separator);
    if trailing && result != "" then result + separator else result
  }

  function ReadText(t: Tables, key: Key): Option<string> {
    if key !in t.metadata then None
    else
      var meta := t.metadata[key];
      Some(Rebuild(Contents(t.blocks, LineMappings(t, key)), Separator(meta.lineEnding), meta.trailing))
  }

  // ---------- writing a text ----------

  /** The block of one line: found by its short hash and counted, or found or made by its content. */
  function InternLine(blocks: seq<Block>, line: string): (seq<Block>, BlockId) {
    match GetBlockByHash(blocks, SipHash(line))
    case Some(id) => (Increment(blocks, id), id)
    case None => CreateBlock(blocks, line)
  }

  /** One block per line, in order. */
  function Intern(blocks: seq<Block>, lines: seq<string>): (seq<Block>, seq<BlockId>) {
    if lines == [] then (blocks, [])
    else
      var (front, ids) := Intern(blocks, lines[..|lines| - 1]);
      var (all, id) := InternLine(front, lines[|lines| - 1]);
      (all, ids + [id])
  }

  function Numbered(key: Key, ids: seq<BlockId>): (rows: seq<LineRow>)
    ensures |rows| == |ids|
    ensures forall i | 0 <= i < |ids| :: rows[i] == LineRow(key, i, ids[i])
  {
    if ids == [] then [] else Numbered(key, ids[..|ids| - 1]) + [LineRow(key, |ids| - 1, ids[|ids| - 1])]
  }

  lemma InternSnoc(blocks: seq<Block>, lines: seq<string>, n: nat)
    requires n < |lines|
    ensures var (front, ids) := Intern(blocks, lines[..n]);
            var (all, id) := InternLine(front, lines[n]);
            Intern(blocks, lines[..n + 1]) == (all, ids + [id])
  {
    assert lines[..n + 1][..n] == lines[..n];
  }

  lemma NumberedSnoc(key: Key, ids: seq<BlockId>, id: BlockId)
    ensures Numbered(key, ids + [id]) == Numbered(key, ids) + [LineRow(key, |ids|, id)]
  {
    assert (ids + [id])[..|ids|] == ids;
  }

  /** The old rows of the file gone, unless it counts as new. */
  function Cleared(t: Tables, key: Key, isNew: bool): Tables {
    if isNew then t
    else
      var t' := DeleteRows(t, key);
      t'.(metadata := t'.metadata - {key})
  }

  /** The rows of a text that has none yet: its description, its blocks, its mappings. */
  function InsertText(t: Tables, key: Key, text: string, ending: LineEnding): (Tables, Result<nat, TextError>) {
    if key in t.metadata then (t, Err(UniqueViolation))
    else
      var lines := Lines(text);
      var described := t.(metadata := t.metadata[key := Meta(|lines|, StoredName(ending), EndsWith(text, '\n'))]);
      var (blocks, ids) := Intern(described.blocks, lines);
      (InsertRows(described.(blocks := blocks), Numbered(key, ids)), Ok(|lines|))
  }

  function WriteText(t: Tables, key: Key, text: string, ending: LineEnding, isNew: bool)
    : (Tables, Result<nat, TextError>)
  {
    InsertText(Cleared(t, key, isNew), key, text, ending)
  }

  /** delete_text_file: the counts go down, the rows stay. */
  function ReleaseText(t: Tables, key: Key): Tables {
    t.(blocks := DecrementAll(t.blocks, LineMappings(t, key)))
  }

  // ---------- validity ----------

  ghost predicate ValidBlocks(blocks: seq<Block>) {
    && (forall i | 0 <= i < |blocks| :: blocks[i].hash == Blake3(blocks[i].content))
    && (forall i, j | 0 <= i < j < |blocks| :: blocks[i].content != blocks[j].content)
  }

  ghost predicate Valid(t: Tables) {
    && ValidBlocks(t.blocks)
    && (forall r | r in t.lineMap :: r.block < |t.blocks| && r.key in t.metadata)
  }

  /** `after` has every block of `before` in its place with its content; counts may differ. */
  ghost predicate Extends(before: seq<Block>, after: seq<Block>) {
    |before| <= |after|
    && forall i | 0 <= i < |before| :: after[i].hash == before[i].hash && after[i].content == before[i].content
  }

  /** A hash of another length matches no stored one; the hash a writer looks a line up by first has another length. */
  lemma ShortHashNeverMatches(blocks: seq<Block>, line: string)
    requires ValidBlocks(blocks)
    ensures forall h: Hash | h.digits != 64 :: GetBlockByHash(blocks, h) == None
    ensures SipHash(line).digits == 16 && GetBlockByHash(blocks, SipHash(line)) == None
  {
  }

  lemma {:induction false} DecrementAllKeeps(blocks: seq<Block>, rows: seq<LineRow>)
    ensures Extends(blocks, DecrementAll(blocks, rows)) && |DecrementAll(blocks, rows)| == |blocks|
    ensures ValidBlocks(blocks) ==> ValidBlocks(DecrementAll(blocks, rows))
  {
    if rows != [] { DecrementAllKeeps(blocks, rows[..|rows| - 1]); }
  }

  lemma {:induction false} InsertRowsKeeps(t: Tables, rows: seq<LineRow>)
    ensures var t' := InsertRows(t, rows);
            && t'.metadata == t.metadata && t'.lineMap == t.lineMap + rows
            && Extends(t.blocks, t'.blocks) && |t'.blocks| == |t.blocks|
            && (ValidBlocks(t.blocks) ==> ValidBlocks(t'.blocks))
  {
    if rows == [] {
      assert t.lineMap + rows == t.lineMap;
    } else {
      InsertRowsKeeps(t, rows[..|rows| - 1]);
      assert rows == rows[..|rows| - 1] + [rows[|rows| - 1]];
    }
  }

  lemma InternLineKeeps(blocks: seq<Block>, line: string)
    requires ValidBlocks(blocks)
    ensures var (all, id) := InternLine(blocks, line);
            && ValidBlocks(all) && Extends(blocks, all)
            && id < |all| && all[id].content == line
  {
    ShortHashNeverMatches(blocks, line);
  }

  lemma {:induction false} InternKeeps(blocks: seq<Block>, lines: seq<string>)
    requires ValidBlocks(blocks)
    ensures var (all, ids) := Intern(blocks, lines);
            && ValidBlocks(all) && Extends(blocks, all)
            && |ids| == |lines|
            && (forall i | 0 <= i < |ids| :: ids[i] < |all| && all[ids[i]].content == lines[i])
  {
    if lines != [] {
      InternKeeps(blocks, lines[..|lines| - 1]);
      InternLineKeeps(Intern(blocks, lines[..|lines| - 1]).0, lines[|lines| - 1]);
    }
  }

  lemma {:induction false} ContentsOfNumbered(blocks: seq<Block>, key: Key, ids: seq<BlockId>, lines: seq<string>)
    requires |ids| == |lines| && forall i | 0 <= i < |ids| :: ids[i] < |blocks| && blocks[ids[i]].content == lines[i]
    ensures Contents(blocks, Numbered(key, ids)) == lines
  {
    if ids != [] {
      var last := |ids| - 1;
      ContentsOfNumbered(blocks, key, ids[..last], lines[..last]);
      assert Numbered(key, ids)[..last] == Numbered(key, ids[..last]);
      assert lines == lines[..last] + [lines[last]];
    }
  }

  lemma {:induction false} ContentsStable(before: seq<Block>, after: seq<Block>, rows: seq<LineRow>)
    requires Extends(before, after) && forall r | r in rows :: r.block < |before|
    ensures Contents(after, rows) == Contents(before, rows)
  {
    if rows != [] {
      assert rows[|rows| - 1] in rows;
      ContentsStable(before, after, rows[..|rows| - 1]);
    }
  }

  lemma ClearedKeeps(t: Tables, key: Key, isNew: bool)
    requires Valid(t)
    ensures var t' := Cleared(t, key, isNew);
            && Valid(t') && Extends(t.blocks, t'.blocks)
            && (key !in t'.metadata <==> !isNew || key !in t.metadata)
            && (forall k | k != key :: k in t'.metadata <==> k in t.metadata)
            && (forall k | k != key && k in t.metadata :: t'.metadata[k] == t.metadata[k])
            && (forall k | k != key :: LineMappings(t', k) == LineMappings(t, k))
  {
    if !isNew {
      DecrementAllKeeps(t.blocks, Where(t.lineMap, OfFile(key)));
      WhereMembers(t.lineMap, NotOfFile(key));
      forall k | k != key ensures LineMappings(Cleared(t, key, isNew), k) == LineMappings(t, k) {
        SelectAfterWhere(t.lineMap, NotOfFile(key), OfFile(k), ByLine());
      }
    }
  }
}
