/**
 src/layer/cow.rs, with the block rows of src/storage/block.rs and the read path of
 src/fs/operations.rs: how the contents of a file are written and read back.
 */
module Cow {
  import opened Prelude
  import opened Rows
  import opened Strings
  import opened Detection
  import opened TextTables
  import opened TextProofs

  type Bytes = seq<bv8>

  datatype DataBlock = DataBlock(inode: int, index: nat, data: Bytes)

  datatype Content = AsText(text: string) | AsBytes(bytes: Bytes)

  const BLOCK_SIZE := 4096

  function OfInode(inode: int): DataBlock -> bool { (b: DataBlock) => b.inode == inode }

  function NotOfInode(inode: int): DataBlock -> bool { (b: DataBlock) => b.inode != inode }

  function ByIndex(): DataBlock -> nat { (b: DataBlock) => b.index }

  // ---------- binary files ----------

  function Chunks(data: Bytes): seq<Bytes> {
    if data == [] then []
    else if |data| <= BLOCK_SIZE then [data]
    else [data[..BLOCK_SIZE]] + Chunks(data[BLOCK_SIZE..])
  }

  function Concat(blocks: seq<DataBlock>): Bytes {
    if blocks == [] then [] else Concat(blocks[..|blocks| - 1]) + blocks[|blocks| - 1].data
  }

  function BlockRows(inode: int, chunks: seq<Bytes>): (rows: seq<DataBlock>)
    ensures |rows| == |chunks|
    ensures forall i | 0 <= i < |rows| :: rows[i] == DataBlock(inode, i, chunks[i])
  {
    if chunks == [] then []
    else BlockRows(inode, chunks[..|chunks| - 1]) + [DataBlock(inode, |chunks| - 1, chunks[|chunks| - 1])]
  }

  function WriteBinary(rows: seq<DataBlock>, inode: int, data: Bytes): seq<DataBlock> {
    Where(rows, NotOfInode(inode)) + BlockRows(inode, Chunks(data))
  }

  function ReadBinary(rows: seq<DataBlock>, inode: int): Bytes {
    Concat(Select(rows, OfInode(inode), ByIndex()))
  }

  /** All chunks but the last are full, the last is not empty, and their number is the size over 4096 rounded up. */
  lemma {:induction false} ChunkSizes(data: Bytes)
    ensures |Chunks(data)| == (|data| + 4095) / 4096
    ensures forall i | 0 <= i < |Chunks(data)| - 1 :: |Chunks(data)[i]| == 4096
    ensures data != [] ==> 0 < |Chunks(data)[|Chunks(data)| - 1]| <= 4096
  {
    if |data| > BLOCK_SIZE { ChunkSizes(data[BLOCK_SIZE..]); }
  }

  function Flatten(chunks: seq<Bytes>): Bytes {
    if chunks == [] then [] else Flatten(chunks[..|chunks| - 1]) + chunks[|chunks| - 1]
  }

  lemma {:induction false} FlattenCons(first: Bytes, more: seq<Bytes>)
    ensures Flatten([first] + more) == first + Flatten(more)
  {
    var all := [first] + more;
    if more == [] {
      assert all[..0] == [] && all == [first];
    } else {
      assert all[..|more|] == [first] + more[..|more| - 1];
      FlattenCons(first, more[..|more| - 1]);
    }
  }

  lemma {:induction false} FlattenChunks(data: Bytes)
    ensures Flatten(Chunks(data)) == data
  {
    if data == [] {
    } else if |data| <= BLOCK_SIZE {
      FlattenCons(data, []);
      assert [data] + [] == [data];
    } else {
      FlattenChunks(data[BLOCK_SIZE..]);
      FlattenCons(data[..BLOCK_SIZE], Chunks(data[BLOCK_SIZE..]));
    }
  }

  lemma {:induction false} ConcatRows(inode: int, chunks: seq<Bytes>)
    ensures Concat(BlockRows(inode, chunks)) == Flatten(chunks)
  {
    if chunks != [] {
      var last := |chunks| - 1;
      ConcatRows(inode, chunks[..last]);
      assert BlockRows(inode, chunks)[..last] == BlockRows(inode, chunks[..last]);
    }
  }

  /** Chunks numbered from zero and put together in that order are the data. */
  lemma ConcatChunks(inode: int, data: Bytes)
    ensures Concat(BlockRows(inode, Chunks(data))) == data
  {
    ConcatRows(inode, Chunks(data));
    FlattenChunks(data);
  }

  /** Written blocks read back as the data, and the blocks of other inodes read as before. */
  lemma BinaryRoundTrip(rows: seq<DataBlock>, inode: int, data: Bytes)
    ensures ReadBinary(WriteBinary(rows, inode, data), inode) == data
    ensures forall other | other != inode ::
              ReadBinary(WriteBinary(rows, inode, data), other) == ReadBinary(rows, other)
  {
    var kept, added := Where(rows, NotOfInode(inode)), BlockRows(inode, Chunks(data));
    WhereMembers(rows, NotOfInode(inode));
    SelectAdded(kept, added, OfInode(inode), ByIndex());
    ConcatChunks(inode, data);
    forall other | other != inode ensures ReadBinary(kept + added, other) == ReadBinary(rows, other) {
      SelectIgnores(kept, added, OfInode(other), ByIndex());
      SelectAfterWhere(rows, NotOfInode(inode), OfInode(other), ByIndex());
    }
  }

  /** The blocks of a file read the same in whatever order the rows are stored, if no index repeats. */
  lemma BlocksInAnyOrder(rows: seq<DataBlock>, reordered: seq<DataBlock>, inode: int)
    requires multiset(rows) == multiset(reordered) && RanksDiffer(rows, OfInode(inode), ByIndex())
    ensures ReadBinary(reordered, inode) == ReadBinary(rows, inode)
  {
    SelectAnyOrder(rows, reordered, OfInode(inode), ByIndex());
  }

  // ---------- files ----------

  /** A reader takes the text rows of the inode in its layer if there are any, and the blocks otherwise. */
  function ReadFile(t: Tables, rows: seq<DataBlock>, key: Key): Content {
    match ReadText(t, key)
    case Some(text) => AsText(text)
    case None => AsBytes(ReadBinary(rows, key.inode))
  }

  predicate Empty(c: Content) {
    match c
    case AsText(text) => text == ""
    case AsBytes(bytes) => bytes == []
  }

  /** A text save through the file system: a file that reads as empty counts as new. */
  function SaveText(t: Tables, rows: seq<DataBlock>, key: Key, text: string, ending: LineEnding)
    : (Tables, Result<nat, TextError>)
  {
    WriteText(t, key, text, ending, Empty(ReadFile(t, rows, key)))
  }

  /** A binary write is what a reader then sees exactly when the file has no text rows in the layer. */
  lemma BinaryReadExactly(t: Tables, rows: seq<DataBlock>, key: Key, data: Bytes)
    ensures ReadFile(t, WriteBinary(rows, key.inode, data), key) == AsBytes(data) <==> key !in t.metadata
  {
    BinaryRoundTrip(rows, key.inode, data);
  }

  /** The texts that read back as nothing. */
  lemma RereadEmpty(text: string)
    ensures Reread(text) == "" <==> text in ["", "\n", "\r\n"]
  {
    if text != "" && text != "\r\n" && CrlfToLf(text) == "\n" {
      CrlfNonEmpty(text[1..]);
    }
    if text == "\r\n" { assert text[2..] == ""; }
    if text == "\n" { assert text[1..] == ""; }
  }

  /**
   A text save goes through exactly when the file has no text rows yet or does not read as empty.
   So after saving `first`, another save goes through unless `first` is empty or one line end.
   */
  lemma SecondSaveExactly(t: Tables, rows: seq<DataBlock>, key: Key, first: string, e1: LineEnding,
                          second: string, e2: LineEnding)
    requires Valid(t)
    ensures SaveText(t, rows, key, first, e1).1.Ok? <==> ReadText(t, key) != Some("")
    ensures SaveText(t, rows, key, first, e1).1.Ok? ==>
              var t1 := SaveText(t, rows, key, first, e1).0;
              && ReadFile(t1, rows, key) == AsText(Reread(first))
              && (SaveText(t1, rows, key, second, e2).1.Ok? <==> first !in ["", "\n", "\r\n"])
  {
    WriteTextExact(t, key, first, e1, Empty(ReadFile(t, rows, key)));
    RereadEmpty(first);
    var t1 := SaveText(t, rows, key, first, e1).0;
    WriteTextExact(t1, key, second, e2, Empty(ReadFile(t1, rows, key)));
  }

  // ---------- the code ----------

  class Storage {
    var blocks: seq<Block>
    var metadata: map<Key, Meta>
    var lineMap: seq<LineRow>
    var dataBlocks: seq<DataBlock>

    ghost function State(): Tables
      reads this
    {
      Tables(blocks, metadata, lineMap)
    }

    constructor ()
      ensures State() == EMPTY && dataBlocks == []
    {
      blocks, metadata, lineMap, dataBlocks := [], map[], [], [];
    }

    /** The mappings are inserted one by one; the trigger counts each. */
    method CreateLineMappings(rows: seq<LineRow>) returns (inserted: nat)
      modifies this`lineMap, this`blocks
      ensures State() == InsertRows(old(State()), rows) && inserted == |rows|
    {
      inserted := 0;
      for i := 0 to |rows|
        invariant State() == InsertRows(old(State()), rows[..i]) && inserted == i
      {
        assert rows[..i + 1][..i] == rows[..i];
        lineMap := lineMap + [rows[i]];
        blocks := Increment(blocks, rows[i].block);
        inserted := inserted + 1;
      }
      assert rows[..|rows|] == rows;
    }
  }

  class CowHandler {
    const storage: Storage
    const layer: nat

    constructor (storage: Storage, layer: nat)
      ensures this.storage == storage && this.layer == layer
    {
      this.storage, this.layer := storage, layer;
    }

    method WriteTextFile(inode: int, text: string, ending: LineEnding, isNew: bool) returns (r: Result<nat, TextError>)
      modifies storage
      ensures (storage.State(), r) == WriteText(old(storage.State()), Key(inode, layer), text, ending, isNew)
      ensures storage.dataBlocks == old(storage.dataBlocks)
    {
      var key := Key(inode, layer);
      if !isNew {
        RemoveOldRows(key);
      }
      r := InsertNewRows(key, text, ending);
    }

    method InsertNewRows(key: Key, text: string, ending: LineEnding) returns (r: Result<nat, TextError>)
      modifies storage`lineMap, storage`blocks, storage`metadata
      ensures (storage.State(), r) == InsertText(old(storage.State()), key, text, ending)
    {
      var lines := Lines(text);
      if key in storage.metadata {
        return Err(UniqueViolation);
      }
      storage.metadata := storage.metadata[key := Meta(|lines|, StoredName(ending), EndsWith(text, '\n'))];
      var mappings := InternLines(key, lines);
      var inserted := storage.CreateLineMappings(mappings);
      r := Ok(|lines|);
    }

    /** The old mappings are deleted, each counted down by the trigger, and then the metadata row. */
    method RemoveOldRows(key: Key)
      modifies storage`lineMap, storage`blocks, storage`metadata
      ensures storage.State() == Cleared(old(storage.State()), key, false)
    {
      var gone := Where(storage.lineMap, OfFile(key));
      storage.lineMap := Where(storage.lineMap, NotOfFile(key));
      storage.blocks := DecrementAll(storage.blocks, gone);
      storage.metadata := storage.metadata - {key};
    }

    /** The write loop: every line gets its block, and a mapping from its number to that block. */
    method InternLines(key: Key, lines: seq<string>) returns (mappings: seq<LineRow>)
      modifies storage`blocks
      ensures var (blocks, ids) := Intern(old(storage.blocks), lines);
              storage.blocks == blocks && mappings == Numbered(key, ids)
    {
      mappings := [];
      ghost var ids: seq<BlockId> := [];
      for n := 0 to |lines|
        invariant (storage.blocks, ids) == Intern(old(storage.blocks), lines[..n])
        invariant mappings == Numbered(key, ids) && |ids| == n
      {
        InternSnoc(old(storage.blocks), lines, n);
        var blockId := FindOrCreateBlock(lines[n]);
        NumberedSnoc(key, ids, blockId);
        mappings := mappings + [LineRow(key, n, blockId)];
        ids := ids + [blockId];
      }
      assert lines[..|lines|] == lines;
    }

    /** One line of the write loop: the short hash first, then the content-addressed insertion. */
    method FindOrCreateBlock(line: string) returns (blockId: BlockId)
      modifies storage`blocks
      ensures (storage.blocks, blockId) == InternLine(old(storage.blocks), line)
    {
      match GetBlockByHash(storage.blocks, SipHash(line)) {
        case Some(existing) =>
          storage.blocks := Increment(storage.blocks, existing);
          blockId := existing;
        case None =>
          var created := CreateBlock(storage.blocks, line);
          storage.blocks := created.0;
          blockId := created.1;
      }
    }

    /** The contents of the mapped blocks in line order, joined by the separator the stored name selects. */
    method ReadTextFile(inode: int, layer: nat) returns (r: Option<string>)
      ensures r == ReadText(storage.State(), Key(inode, layer))
    {
      var key := Key(inode, layer);
      if key !in storage.metadata {
        return None;
      }
      var meta := storage.metadata[key];
      var mappings := Select(storage.lineMap, OfFile(key), ByLine());
      var lines: seq<string> := [];
      for i := 0 to |mappings|
        invariant lines == Contents(storage.blocks, mappings[..i])
      {
        assert mappings[..i + 1][..i] == mappings[..i];
        if mappings[i].block < |storage.blocks| {
          lines := lines + [storage.blocks[mappings[i].block].content];
        }
      }
      assert mappings[..|mappings|] == mappings;
      var separator := if meta.lineEnding == "crlf" then "\r\n" else if meta.lineEnding == "cr" then "\r" else "\n";
      var result := Join(lines, separator);
      if meta.trailing && result != "" {
        result := result + separator;
      }
      r := Some(result);
    }

    method DeleteTextFile(inode: int, layer: nat)
      modifies storage`blocks
      ensures storage.State() == ReleaseText(old(storage.State()), Key(inode, layer))
    {
      var mappings := Select(storage.lineMap, OfFile(Key(inode, layer)), ByLine());
      for i := 0 to |mappings|
        invariant storage.blocks == DecrementAll(old(storage.blocks), mappings[..i])
      {
        assert mappings[..i + 1][..i] == mappings[..i];
        storage.blocks := Decrement(storage.blocks, mappings[i].block);
      }
      assert mappings[..|mappings|] == mappings;
    }

    /** The old blocks are deleted, then one row is created for each chunk, numbered from zero. */
    method WriteBinaryFile(inode: int, data: Bytes)
      modifies storage`dataBlocks
      ensures storage.dataBlocks == WriteBinary(old(storage.dataBlocks), inode, data)
      ensures ReadBinary(storage.dataBlocks, inode) == data
    {
      BinaryRoundTrip(storage.dataBlocks, inode, data);
      storage.dataBlocks := Where(storage.dataBlocks, NotOfInode(inode));
      ghost var kept := storage.dataBlocks;
      var chunks := Chunks(data);
      for index := 0 to |chunks|
        invariant storage.dataBlocks == kept + BlockRows(inode, chunks[..index])
      {
        assert chunks[..index + 1][..index] == chunks[..index];
        storage.dataBlocks := storage.dataBlocks + [DataBlock(inode, index, chunks[index])];
      }
      assert chunks[..|chunks|] == chunks;
    }

    /** The text rows if there are any; otherwise the blocks in index order, one after the other. */
    method ReadFileInternal(inode: int) returns (content: Content)
      ensures content == ReadFile(storage.State(), storage.dataBlocks, Key(inode, layer))
    {
      var text := ReadTextFile(inode, layer);
      if text.Some? {
        return AsText(text.value);
      }
      var blocks := Select(storage.dataBlocks, OfInode(inode), ByIndex());
      var data: Bytes := [];
      for i := 0 to |blocks|
        invariant data == Concat(blocks[..i])
      {
        assert blocks[..i + 1][..i] == blocks[..i];
        data := data + blocks[i].data;
      }
      assert blocks[..|blocks|] == blocks;
      content := AsBytes(data);
    }
  }
}
