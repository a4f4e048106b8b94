/**
 The inode map and the directory pages of src/fuse/adapter.rs. The answers of the backend are
 inputs; a reply buffer is given by the number of entries it still accepts.
 */
module FuseAdapter {
  import opened Prelude

  type Ino = nat

  const ROOT: Ino := 1

  datatype Maps = Maps(toPath: map<Ino, string>, toInode: map<string, Ino>, next: Ino)

  datatype Item = Item(inode: Ino, offset: nat, name: string)

  function ChildPath(parent: string, name: string): string {
    if parent == "/" then "/" + name else parent + "/" + name
  }

  // ---------- the map ----------

  function Bind(m: Maps, path: string): (Maps, Ino) {
    if path in m.toInode then (m, m.toInode[path])
    else (Maps(m.toPath[m.next := path], m.toInode[path := m.next], m.next + 1), m.next)
  }

  function Unbind(m: Maps, path: string): Maps {
    if path !in m.toInode then m
    else
      var inode := m.toInode[path];
      if inode !in m.toPath then m
      else m.(toPath := m.toPath - {inode}, toInode := m.toInode - {m.toPath[inode]})
  }

  function BindAll(m: Maps, dir: string, names: seq<string>): (r: (Maps, seq<Ino>))
    ensures |r.1| == |names|
  {
    if names == [] then (m, [])
    else
      var last := |names| - 1;
      var (front, inodes) := BindAll(m, dir, names[..last]);
      var (m', inode) := Bind(front, ChildPath(dir, names[last]));
      (m', inodes + [inode])
  }

  /** The two maps are inverses of each other, every number in use is below the next one and has a path. */
  ghost predicate Bijective(m: Maps) {
    && (forall i | i in m.toPath :: m.toPath[i] in m.toInode && m.toInode[m.toPath[i]] == i)
    && (forall p | p in m.toInode :: m.toInode[p] in m.toPath && m.toPath[m.toInode[p]] == p)
    && (forall i | i in m.toPath :: 1 <= i < m.next && m.toPath[i] != "")
    && m.next >= 2
  }

  ghost predicate RootBound(m: Maps) {
    ROOT in m.toPath && m.toPath[ROOT] == "/"
  }

  /** `after` has every binding of `before`. */
  ghost predicate Keeps(before: Maps, after: Maps) {
    && before.next <= after.next
    && (forall i | i in before.toPath :: i in after.toPath && after.toPath[i] == before.toPath[i])
    && (forall i | i in after.toPath && i !in before.toPath :: before.next <= i)
  }

  lemma BindKeeps(m: Maps, path: string)
    requires Bijective(m) && path != ""
    ensures var (m', inode) := Bind(m, path);
            && Bijective(m') && Keeps(m, m')
            && inode in m'.toPath && m'.toPath[inode] == path && m'.toInode[path] == inode
            && m'.next == if path in m.toInode then m.next else m.next + 1
  {
    if path !in m.toInode {
      assert m.next !in m.toPath;
    }
  }

  lemma UnbindKeeps(m: Maps, path: string)
    requires Bijective(m)
    ensures Bijective(Unbind(m, path)) && path !in Unbind(m, path).toInode
    ensures Unbind(m, path).next == m.next
    ensures forall i :: i in Unbind(m, path).toPath <==> i in m.toPath && m.toPath[i] != path
    ensures forall i | i in Unbind(m, path).toPath :: Unbind(m, path).toPath[i] == m.toPath[i]
  {
  }

  // ---------- runs ----------

  /** What a request does to the map: `ok` is the backend's answer. */
  datatype Op =
    | Look(parent: Ino, name: string, ok: bool)      // lookup, mkdir and create
    | Drop(parent: Ino, name: string, ok: bool)      // rmdir and unlink
    | Read(dir: Ino, names: seq<string>, ok: bool)   // readdir

  function Apply(m: Maps, op: Op): Maps {
    match op
    case Look(parent, name, ok) =>
      if parent in m.toPath && ok then Bind(m, ChildPath(m.toPath[parent], name)).0 else m
    case Drop(parent, name, ok) =>
      if parent in m.toPath && ok then Unbind(m, ChildPath(m.toPath[parent], name)) else m
    case Read(dir, names, ok) =>
      if dir in m.toPath && ok then BindAll(m, m.toPath[dir], names).0 else m
  }

  lemma {:induction false} BindAllKeeps(m: Maps, dir: string, names: seq<string>)
    requires Bijective(m)
    ensures var (m', inodes) := BindAll(m, dir, names);
            && Bijective(m') && Keeps(m, m')
            && (forall k | 0 <= k < |names| ::
                  ChildPath(dir, names[k]) in m'.toInode && m'.toInode[ChildPath(dir, names[k])] == inodes[k])
  {
    if names != [] {
      var last := |names| - 1;
      BindAllKeeps(m, dir, names[..last]);
      var (front, inodes) := BindAll(m, dir, names[..last]);
      BindKeeps(front, ChildPath(dir, names[last]));
      var m' := BindAll(m, dir, names).0;
      KeepsTwice(m, front, m');
      forall k | 0 <= k < last
        ensures ChildPath(dir, names[k]) in m'.toInode && m'.toInode[ChildPath(dir, names[k])] == inodes[k]
      {
        assert names[..last][k] == names[k];
        KeepsNumber(front, m', ChildPath(dir, names[k]));
      }
    }
  }

  lemma KeepsTwice(a: Maps, b: Maps, c: Maps)
    requires Keeps(a, b) && Keeps(b, c)
    ensures Keeps(a, c)
  {
  }

  lemma KeepsNumber(before: Maps, after: Maps, path: string)
    requires Bijective(before) && Bijective(after) && Keeps(before, after) && path in before.toInode
    ensures path in after.toInode && after.toInode[path] == before.toInode[path]
  {
    assert after.toPath[before.toInode[path]] == path;
  }

  ghost predicate RealName(op: Op) {
    op.Drop? ==> op.name != ""
  }

  /** A step keeps the map bijective; the root's binding is lost exactly by dropping the empty name under the root. */
  lemma StepKeeps(m: Maps, op: Op)
    requires Bijective(m) && RootBound(m)
    ensures Bijective(Apply(m, op)) && m.next <= Apply(m, op).next
    ensures RootBound(Apply(m, op)) <==> !(op.Drop? && op.ok && op.parent == ROOT && op.name == "")
    ensures forall i | i in Apply(m, op).toPath ::
              if i in m.toPath then Apply(m, op).toPath[i] == m.toPath[i] else m.next <= i
  {
    match op
    case Look(parent, name, ok) =>
      if parent in m.toPath { BindKeeps(m, ChildPath(m.toPath[parent], name)); }
    case Drop(parent, name, ok) =>
      if parent in m.toPath {
        UnbindKeeps(m, ChildPath(m.toPath[parent], name));
        RootPath(m, parent, name);
      }
    case Read(dir, names, ok) =>
      if dir in m.toPath { BindAllKeeps(m, m.toPath[dir], names); }
  }

  /**
   What a request leaves bound. A lookup or creation binds the child's path and no other, a removal
   unbinds it and no other, and a reading binds the path of every entry; a request that names an
   unknown number or that the backend refuses changes nothing.
   */
  lemma StepBinds(m: Maps, op: Op, path: string)
    requires Bijective(m)
    ensures var m' := Apply(m, op);
            match op
            case Look(parent, name, ok) =>
              if parent in m.toPath && ok
              then path in m'.toInode <==> path in m.toInode || path == ChildPath(m.toPath[parent], name)
              else m' == m
            case Drop(parent, name, ok) =>
              if parent in m.toPath && ok
              then path in m'.toInode <==> path in m.toInode && path != ChildPath(m.toPath[parent], name)
              else m' == m
            case Read(dir, names, ok) =>
              if dir in m.toPath && ok
              then path in m'.toInode <==>
                     path in m.toInode || exists k | 0 <= k < |names| :: path == ChildPath(m.toPath[dir], names[k])
              else m' == m
  {
    match op
    case Look(parent, name, ok) =>
    case Drop(parent, name, ok) =>
    case Read(dir, names, ok) => if dir in m.toPath { BindAllBinds(m, m.toPath[dir], names, path); }
  }

  lemma {:induction false} BindAllBinds(m: Maps, dir: string, names: seq<string>, path: string)
    ensures path in BindAll(m, dir, names).0.toInode
        <==> path in m.toInode || exists k | 0 <= k < |names| :: path == ChildPath(dir, names[k])
  {
    if names != [] {
      var last := |names| - 1;
      BindAllBinds(m, dir, names[..last], path);
      assert forall k | 0 <= k < last :: names[..last][k] == names[k];
    }
  }

  lemma RootPath(m: Maps, parent: Ino, name: string)
    requires Bijective(m) && RootBound(m) && parent in m.toPath
    ensures ChildPath(m.toPath[parent], name) == "/" <==> parent == ROOT && name == ""
  {
    assert m.toPath[parent] == "/" ==> m.toInode["/"] == parent;
  }

  ghost predicate RealNames(ops: seq<Op>) {
    forall k | 0 <= k < |ops| :: RealName(ops[k])
  }

  ghost function Run(m: Maps, ops: seq<Op>): (m': Maps)
    requires Bijective(m) && RootBound(m) && RealNames(ops)
    ensures Bijective(m') && RootBound(m')
    decreases ops
  {
    if ops == [] then m
    else
      StepKeeps(m, ops[0]);
      assert RealName(ops[0]);
      Run(Apply(m, ops[0]), ops[1..])
  }

  /**
   Over any run with real names the map stays bijective with 1 bound to the root. A number bound
   at the start is bound to the same path at the end or to none; a number free at the start but
   below the next one was used before, and is not bound at the end.
   */
  lemma {:induction false} NumbersAreNotReused(m: Maps, ops: seq<Op>, i: Ino)
    requires Bijective(m) && RootBound(m) && i < m.next && RealNames(ops)
    ensures var m' := Run(m, ops);
            && Bijective(m') && RootBound(m')
            && (i in m'.toPath ==> i in m.toPath && m'.toPath[i] == m.toPath[i])
    decreases ops
  {
    if ops != [] {
      StepKeeps(m, ops[0]);
      assert RealName(ops[0]);
      NumbersAreNotReused(Apply(m, ops[0]), ops[1..], i);
    }
  }

  // ---------- directory pages ----------

  /** The whole listing of a directory: itself twice, then each entry with its own number. */
  function Listing(dir: Ino, names: seq<string>, inodes: seq<Ino>): (items: seq<Item>)
    requires |names| == |inodes|
    ensures |items| == |names| + 2
    ensures items[0] == Item(dir, 1, ".") && items[1] == Item(dir, 2, "..")
    ensures forall k | 0 <= k < |names| :: items[k + 2] == Item(inodes[k], k + 3, names[k])
  {
    if names == [] then [Item(dir, 1, "."), Item(dir, 2, "..")]
    else
      var last := |names| - 1;
      Listing(dir, names[..last], inodes[..last]) + [Item(inodes[last], |names| + 2, names[last])]
  }

  /** The entries from `offset` on that still fit in a reply with `room` for that many. */
  function Page(items: seq<Item>, offset: nat, room: nat): seq<Item> {
    items[AtMost(offset, |items|)..AtMost(offset + room, |items|)]
  }

  function AtMost(n: nat, bound: nat): nat {
    if n < bound then n else bound
  }

  lemma ChildPathsDiffer(dir: string, a: string, b: string)
    ensures ChildPath(dir, a) == ChildPath(dir, b) <==> a == b
  {
    var prefix := if dir == "/" then "/" else dir + "/";
    assert ChildPath(dir, a)[|prefix|..] == a && ChildPath(dir, b)[|prefix|..] == b;
  }

  /** Binding names that are bound already changes nothing and gives the same numbers. */
  lemma {:induction false} BindAgain(m: Maps, dir: string, names: seq<string>)
    requires forall k | 0 <= k < |names| :: ChildPath(dir, names[k]) in m.toInode
    ensures BindAll(m, dir, names).0 == m
    ensures forall k | 0 <= k < |names| :: BindAll(m, dir, names).1[k] == m.toInode[ChildPath(dir, names[k])]
  {
    if names != [] { BindAgain(m, dir, names[..|names| - 1]); }
  }

  lemma BindTwice(m: Maps, dir: string, names: seq<string>)
    requires Bijective(m) && dir != ""
    ensures var (m', inodes) := BindAll(m, dir, names); BindAll(m', dir, names) == (m', inodes)
  {
    BindAllKeeps(m, dir, names);
    var (m', inodes) := BindAll(m, dir, names);
    BindAgain(m', dir, names);
    var again := BindAll(m', dir, names).1;
    assert forall k | 0 <= k < |names| :: again[k] == inodes[k];
    assert again == inodes;
  }

  /** One readdir request: its reply, empty for a number that is not bound, and the map after it. */
  function OnePage(m: Maps, dir: Ino, names: seq<string>, offset: nat, room: nat): (seq<Item>, Maps) {
    if dir !in m.toPath then ([], m)
    else
      var (m', inodes) := BindAll(m, m.toPath[dir], names);
      (Page(Listing(dir, names, inodes), offset, room), m')
  }

  type Server = (Maps, nat, nat) -> (seq<Item>, Maps)

  /** The requests of one reader of one directory. */
  function ServerOf(dir: Ino, names: seq<string>): Server {
    (m: Maps, offset: nat, room: nat) => OnePage(m, dir, names, offset, room)
  }

  /** A reader that asks again from where the last page ended, with buffers of the given sizes. */
  function ReadPages(serve: Server, m: Maps, offset: nat, rooms: seq<nat>): (seq<Item>, Maps)
    decreases rooms
  {
    if rooms == [] then ([], m)
    else
      var (page, m') := serve(m, offset, rooms[0]);
      var (rest, last) := ReadPages(serve, m', offset + |page|, rooms[1..]);
      (page + rest, last)
  }

  function Total(rooms: seq<nat>): nat {
    if rooms == [] then 0 else rooms[0] + Total(rooms[1..])
  }

  lemma PageSplits(items: seq<Item>, offset: nat, a: nat, b: nat)
    requires offset <= |items|
    ensures offset + |Page(items, offset, a)| <= |items|
    ensures Page(items, offset, a) + Page(items, offset + |Page(items, offset, a)|, b) == Page(items, offset, a + b)
  {
  }

  /** Every request against map `m` is answered from the listing `all`, and leaves the map `m'`. */
  ghost predicate Answers(serve: Server, m: Maps, all: seq<Item>, m': Maps) {
    forall offset: nat, room: nat :: serve(m, offset, room) == (Page(all, offset, room), m')
  }

  /** Pages of one listing, each from where the last one ended. */
  function PagesIn(all: seq<Item>, offset: nat, rooms: seq<nat>): seq<Item>
    decreases rooms
  {
    if rooms == [] then []
    else
      var page := Page(all, offset, rooms[0]);
      page + PagesIn(all, offset + |page|, rooms[1..])
  }

  lemma {:induction false} PagesJoin(all: seq<Item>, offset: nat, rooms: seq<nat>)
    requires offset <= |all|
    ensures PagesIn(all, offset, rooms) == Page(all, offset, Total(rooms))
    decreases rooms
  {
    if rooms != [] {
      var page, more := Page(all, offset, rooms[0]), rooms[1..];
      PageSplits(all, offset, rooms[0], Total(more));
      PagesJoin(all, offset + |page|, more);
      assert PagesIn(all, offset, rooms) == page + PagesIn(all, offset + |page|, more);
    }
  }

  lemma {:induction false} PagesFrom(serve: Server, m: Maps, offset: nat, rooms: seq<nat>, all: seq<Item>, m': Maps)
    requires Answers(serve, m, all, m') && Answers(serve, m', all, m') && rooms != []
    ensures ReadPages(serve, m, offset, rooms) == (PagesIn(all, offset, rooms), m')
    decreases rooms
  {
    var page, more := Page(all, offset, rooms[0]), rooms[1..];
    assert serve(m, offset, rooms[0]) == (page, m');
    if more == [] {
      assert ReadPages(serve, m', offset + |page|, more) == (PagesIn(all, offset + |page|, more), m');
    } else {
      PagesFrom(serve, m', offset + |page|, more, all, m');
    }
  }

  lemma {:induction false} EnoughRoom(rooms: seq<nat>)
    requires forall k | 0 <= k < |rooms| :: rooms[k] >= 1
    ensures Total(rooms) >= |rooms|
  {
    if rooms != [] { EnoughRoom(rooms[1..]); }
  }

  ghost predicate EachTakesOne(rooms: seq<nat>) {
    rooms != [] && forall k | 0 <= k < |rooms| :: rooms[k] >= 1
  }

  /** The pages together are a beginning of `all`, and all of it if there are as many pages as entries. */
  ghost predicate PagesOf(serve: Server, m: Maps, rooms: seq<nat>, all: seq<Item>, m': Maps) {
    var (pages, last) := ReadPages(serve, m, 0, rooms);
    last == m' && pages <= all && (|rooms| >= |all| ==> pages == all)
  }

  lemma AllPages(serve: Server, m: Maps, rooms: seq<nat>, all: seq<Item>, m': Maps)
    requires Answers(serve, m, all, m') && Answers(serve, m', all, m') && EachTakesOne(rooms)
    ensures PagesOf(serve, m, rooms, all, m')
  {
    PagesFrom(serve, m, 0, rooms, all, m');
    PagesJoin(all, 0, rooms);
    EnoughRoom(rooms);
    assert all[0..] == all;
  }

  /** The first page binds the names; it and every later one are answered from the same listing. */
  lemma DirectoryAnswers(m: Maps, dir: Ino, names: seq<string>)
    requires Bijective(m) && dir in m.toPath
    ensures var (m', inodes) := BindAll(m, m.toPath[dir], names);
            && Answers(ServerOf(dir, names), m, Listing(dir, names, inodes), m')
            && Answers(ServerOf(dir, names), m', Listing(dir, names, inodes), m')
  {
    BindAllKeeps(m, m.toPath[dir], names);
    BindTwice(m, m.toPath[dir], names);
  }

  /**
   Reading page by page an unchanged directory, with any buffers that each take at least one
   entry, gives after enough pages the whole listing, every entry once and in order, with the
   numbers the first page bound; fewer pages give a prefix of it.
   */
  lemma PagingIsComplete(m: Maps, dir: Ino, names: seq<string>, rooms: seq<nat>)
    requires Bijective(m) && dir in m.toPath && EachTakesOne(rooms)
    ensures var (m', inodes) := BindAll(m, m.toPath[dir], names);
            PagesOf(ServerOf(dir, names), m, rooms, Listing(dir, names, inodes), m')
  {
    var (m', inodes) := BindAll(m, m.toPath[dir], names);
    var all := Listing(dir, names, inodes);
    DirectoryAnswers(m, dir, names);
    AllPages(ServerOf(dir, names), m, rooms, all, m');
  }

  // ---------- pages with other requests in between ----------

  /** A page of the directory with `room` for so many entries, then other requests before the next page. */
  datatype Visit = Visit(room: nat, between: seq<Op>)

  function ApplyAll(m: Maps, ops: seq<Op>): Maps
    decreases ops
  {
    if ops == [] then m else ApplyAll(Apply(m, ops[0]), ops[1..])
  }

  /** The request does not remove the directory at `path` or one of its entries. */
  predicate Spares(m: Maps, op: Op, path: string, names: seq<string>) {
    op.Drop? && op.ok && op.parent in m.toPath ==>
      var gone := ChildPath(m.toPath[op.parent], op.name);
      gone != path && forall k | 0 <= k < |names| :: gone != ChildPath(path, names[k])
  }

  predicate AllSpare(m: Maps, ops: seq<Op>, path: string, names: seq<string>)
    decreases ops
  {
    ops == [] || (Spares(m, ops[0], path, names) && AllSpare(Apply(m, ops[0]), ops[1..], path, names))
  }

  /** The directory and its entries are bound, the entries to these numbers. */
  ghost predicate Settled(m: Maps, dir: Ino, path: string, names: seq<string>, inodes: seq<Ino>) {
    && Bijective(m) && dir in m.toPath && m.toPath[dir] == path && |inodes| == |names|
    && forall k | 0 <= k < |names| :: EntryBound(m, path, names[k], inodes[k])
  }

  predicate EntryBound(m: Maps, path: string, name: string, inode: Ino) {
    ChildPath(path, name) in m.toInode && m.toInode[ChildPath(path, name)] == inode
  }

  lemma KeptAreSettled(m: Maps, m': Maps, dir: Ino, path: string, names: seq<string>, inodes: seq<Ino>)
    requires Settled(m, dir, path, names, inodes) && Bijective(m') && Keeps(m, m')
    ensures Settled(m', dir, path, names, inodes)
  {
    forall k | 0 <= k < |names| ensures EntryBound(m', path, names[k], inodes[k]) {
      assert EntryBound(m, path, names[k], inodes[k]);
      KeepsNumber(m, m', ChildPath(path, names[k]));
    }
  }

  lemma DroppedAreSettled(m: Maps, gone: string, dir: Ino, path: string, names: seq<string>, inodes: seq<Ino>)
    requires Settled(m, dir, path, names, inodes)
    requires gone != path && forall k | 0 <= k < |names| :: gone != ChildPath(path, names[k])
    ensures Settled(Unbind(m, gone), dir, path, names, inodes)
  {
    var m' := Unbind(m, gone);
    UnbindKeeps(m, gone);
    forall k | 0 <= k < |names| ensures EntryBound(m', path, names[k], inodes[k]) {
      assert EntryBound(m, path, names[k], inodes[k]);
      assert inodes[k] in m'.toPath && m'.toPath[inodes[k]] == ChildPath(path, names[k]);
    }
  }

  lemma SettledKept(m: Maps, op: Op, dir: Ino, path: string, names: seq<string>, inodes: seq<Ino>)
    requires Settled(m, dir, path, names, inodes) && Spares(m, op, path, names)
    ensures Settled(Apply(m, op), dir, path, names, inodes)
  {
    match op
    case Look(parent, name, ok) =>
      if parent in m.toPath && ok {
        BindKeeps(m, ChildPath(m.toPath[parent], name));
        KeptAreSettled(m, Apply(m, op), dir, path, names, inodes);
      }
    case Drop(parent, name, ok) =>
      if parent in m.toPath && ok {
        DroppedAreSettled(m, ChildPath(m.toPath[parent], name), dir, path, names, inodes);
      }
    case Read(d, others, ok) =>
      if d in m.toPath && ok {
        BindAllKeeps(m, m.toPath[d], others);
        KeptAreSettled(m, Apply(m, op), dir, path, names, inodes);
      }
  }

  lemma {:induction false} AllSettledKept(m: Maps, ops: seq<Op>, dir: Ino, path: string, names: seq<string>,
                                          inodes: seq<Ino>)
    requires Settled(m, dir, path, names, inodes) && AllSpare(m, ops, path, names)
    ensures Settled(ApplyAll(m, ops), dir, path, names, inodes)
    decreases ops
  {
    if ops != [] {
      SettledKept(m, ops[0], dir, path, names, inodes);
      AllSettledKept(Apply(m, ops[0]), ops[1..], dir, path, names, inodes);
    }
  }

  /** A page of a settled directory binds nothing new and shows the settled numbers. */
  lemma SettledPage(m: Maps, dir: Ino, path: string, names: seq<string>, inodes: seq<Ino>, offset: nat, room: nat)
    requires Settled(m, dir, path, names, inodes)
    ensures OnePage(m, dir, names, offset, room) == (Page(Listing(dir, names, inodes), offset, room), m)
  {
    forall k | 0 <= k < |names| ensures ChildPath(path, names[k]) in m.toInode {
      assert EntryBound(m, path, names[k], inodes[k]);
    }
    BindAgain(m, path, names);
    var again := BindAll(m, path, names).1;
    forall k | 0 <= k < |names| ensures again[k] == inodes[k] {
      assert EntryBound(m, path, names[k], inodes[k]);
    }
    assert again == inodes;
  }

  /** The first page settles the directory. */
  lemma FirstPageSettles(m: Maps, dir: Ino, names: seq<string>)
    requires Bijective(m) && dir in m.toPath
    ensures var (m', inodes) := BindAll(m, m.toPath[dir], names);
            Settled(m', dir, m.toPath[dir], names, inodes)
  {
    BindAllKeeps(m, m.toPath[dir], names);
    var (m', inodes) := BindAll(m, m.toPath[dir], names);
    forall k | 0 <= k < |names| ensures EntryBound(m', m.toPath[dir], names[k], inodes[k]) {
      assert ChildPath(m.toPath[dir], names[k]) in m'.toInode;
    }
  }

  function Rooms(visits: seq<Visit>): (rooms: seq<nat>)
    ensures |rooms| == |visits| && forall i | 0 <= i < |visits| :: rooms[i] == visits[i].room
  {
    if visits == [] then [] else [visits[0].room] + Rooms(visits[1..])
  }

  /** A reader whose pages are separated by other requests. */
  function ReadAmong(serve: Server, m: Maps, offset: nat, visits: seq<Visit>): seq<Item>
    decreases visits
  {
    if visits == [] then []
    else
      var (page, m') := serve(m, offset, visits[0].room);
      page + ReadAmong(serve, ApplyAll(m', visits[0].between), offset + |page|, visits[1..])
  }

  /** None of the requests between the pages removes the directory or one of its entries. */
  predicate VisitsSpare(m: Maps, visits: seq<Visit>, path: string, names: seq<string>)
    decreases visits
  {
    visits == []
    || (&& AllSpare(m, visits[0].between, path, names)
        && VisitsSpare(ApplyAll(m, visits[0].between), visits[1..], path, names))
  }

  /** On every map in which the directory is settled, a request is answered from `all` and changes nothing. */
  ghost predicate AnswersSettled(serve: Server, dir: Ino, path: string, names: seq<string>, inodes: seq<Ino>,
                                 all: seq<Item>)
  {
    forall m: Maps, offset: nat, room: nat | Settled(m, dir, path, names, inodes) ::
      serve(m, offset, room) == (Page(all, offset, room), m)
  }

  lemma DirectoryAnswersSettled(dir: Ino, path: string, names: seq<string>, inodes: seq<Ino>)
    requires |inodes| == |names|
    ensures AnswersSettled(ServerOf(dir, names), dir, path, names, inodes, Listing(dir, names, inodes))
  {
    forall m: Maps, offset: nat, room: nat | Settled(m, dir, path, names, inodes)
      ensures OnePage(m, dir, names, offset, room) == (Page(Listing(dir, names, inodes), offset, room), m)
    {
      SettledPage(m, dir, path, names, inodes, offset, room);
    }
  }

  lemma {:induction false} AmongFrom(serve: Server, m: Maps, dir: Ino, path: string, names: seq<string>,
                                     inodes: seq<Ino>, all: seq<Item>, offset: nat, visits: seq<Visit>)
    requires AnswersSettled(serve, dir, path, names, inodes, all)
    requires Settled(m, dir, path, names, inodes) && VisitsSpare(m, visits, path, names)
    ensures ReadAmong(serve, m, offset, visits) == PagesIn(all, offset, Rooms(visits))
    decreases visits
  {
    if visits != [] {
      var page, m' := Page(all, offset, visits[0].room), ApplyAll(m, visits[0].between);
      AllSettledKept(m, visits[0].between, dir, path, names, inodes);
      AmongFrom(serve, m', dir, path, names, inodes, all, offset + |page|, visits[1..]);
      AmongPages(serve, m, all, offset, visits, page);
    }
  }

  lemma AmongPages(serve: Server, m: Maps, all: seq<Item>, offset: nat, visits: seq<Visit>, page: seq<Item>)
    requires visits != [] && page == Page(all, offset, visits[0].room)
    requires serve(m, offset, visits[0].room) == (page, m)
    requires ReadAmong(serve, ApplyAll(m, visits[0].between), offset + |page|, visits[1..])
          == PagesIn(all, offset + |page|, Rooms(visits[1..]))
    ensures ReadAmong(serve, m, offset, visits) == PagesIn(all, offset, Rooms(visits))
  {
    AmongStep(serve, m, offset, visits, page);
    PagesStep(all, offset, Rooms(visits), Rooms(visits[1..]));
  }

  lemma PagesStep(all: seq<Item>, offset: nat, rooms: seq<nat>, more: seq<nat>)
    requires rooms != [] && more == rooms[1..]
    ensures PagesIn(all, offset, rooms)
         == Page(all, offset, rooms[0]) + PagesIn(all, offset + |Page(all, offset, rooms[0])|, more)
  {
  }

  lemma AmongStep(serve: Server, m: Maps, offset: nat, visits: seq<Visit>, page: seq<Item>)
    requires visits != [] && serve(m, offset, visits[0].room) == (page, m)
    ensures ReadAmong(serve, m, offset, visits)
         == page + ReadAmong(serve, ApplyAll(m, visits[0].between), offset + |page|, visits[1..])
  {
  }

  /** What was read is a beginning of `all`, and all of it after as many pages as entries. */
  ghost predicate ReadsAll(read: seq<Item>, pages: nat, all: seq<Item>) {
    read <= all && (pages >= |all| ==> read == all)
  }

  /**
   Paging stays complete, with the same number for each entry on every page, when any lookups,
   creations, readings of other directories and removals elsewhere come between the pages.
   */
  lemma PagingAmongOthers(m: Maps, dir: Ino, names: seq<string>, visits: seq<Visit>)
    requires Bijective(m) && dir in m.toPath && EachTakesOne(Rooms(visits))
    requires VisitsSpare(BindAll(m, m.toPath[dir], names).0, visits, m.toPath[dir], names)
    ensures var (m', inodes) := BindAll(m, m.toPath[dir], names);
            && OnePage(m, dir, names, 0, visits[0].room) == OnePage(m', dir, names, 0, visits[0].room)
            && ReadsAll(ReadAmong(ServerOf(dir, names), m', 0, visits), |visits|, Listing(dir, names, inodes))
  {
    var (m', inodes) := BindAll(m, m.toPath[dir], names);
    var all, rooms := Listing(dir, names, inodes), Rooms(visits);
    FirstPageSettles(m, dir, names);
    SettledPage(m', dir, m.toPath[dir], names, inodes, 0, visits[0].room);
    DirectoryAnswersSettled(dir, m.toPath[dir], names, inodes);
    AmongFrom(ServerOf(dir, names), m', dir, m.toPath[dir], names, inodes, all, 0, visits);
    AllPagesRead(all, rooms);
  }

  lemma AllPagesRead(all: seq<Item>, rooms: seq<nat>)
    requires EachTakesOne(rooms)
    ensures ReadsAll(PagesIn(all, 0, rooms), |rooms|, all)
  {
    PagesJoin(all, 0, rooms);
    EnoughRoom(rooms);
    assert all[0..] == all;
  }

  // ---------- the code ----------

  lemma BindAllSnoc(m: Maps, dir: string, names: seq<string>, n: nat)
    requires n < |names|
    ensures var (front, inodes) := BindAll(m, dir, names[..n]);
            var (m', inode) := Bind(front, ChildPath(dir, names[n]));
            BindAll(m, dir, names[..n + 1]) == (m', inodes + [inode])
  {
    assert names[..n + 1][..n] == names[..n];
  }

  lemma ListingSnoc(dir: Ino, names: seq<string>, n: nat, inodes: seq<Ino>, inode: Ino)
    requires n < |names| && |inodes| == n
    ensures Listing(dir, names[..n + 1], inodes + [inode])
         == Listing(dir, names[..n], inodes) + [Item(inode, n + 3, names[n])]
  {
    assert names[..n + 1][..n] == names[..n];
    assert (inodes + [inode])[..n] == inodes;
  }

  class InodeMap {
    var inodeToPath: map<Ino, string>
    var pathToInode: map<string, Ino>
    var nextInode: Ino

    ghost function State(): Maps
      reads this
    {
      Maps(inodeToPath, pathToInode, nextInode)
    }

    constructor ()
      ensures Bijective(State()) && RootBound(State())
      ensures State() == Maps(map[1 := "/"], map["/" := 1], 2)
    {
      inodeToPath, pathToInode, nextInode := map[], map[], 2;
      new;
      Insert(1, "/");
    }

    method Insert(inode: Ino, path: string)
      modifies this`inodeToPath, this`pathToInode
      ensures inodeToPath == old(inodeToPath)[inode := path] && pathToInode == old(pathToInode)[path := inode]
    {
      inodeToPath := inodeToPath[inode := path];
      pathToInode := pathToInode[path := inode];
    }

    method GetOrCreate(path: string) returns (inode: Ino)
      modifies this
      ensures (State(), inode) == Bind(old(State()), path)
    {
      if path in pathToInode {
        return pathToInode[path];
      }
      inode := nextInode;
      nextInode := nextInode + 1;
      Insert(inode, path);
    }

    method Remove(inode: Ino)
      modifies this`inodeToPath, this`pathToInode
      ensures inode !in old(inodeToPath) ==> State() == old(State())
      ensures inode in old(inodeToPath) ==>
                inodeToPath == old(inodeToPath) - {inode} && pathToInode == old(pathToInode) - {old(inodeToPath)[inode]}
    {
      if inode in inodeToPath {
        var path := inodeToPath[inode];
        inodeToPath := inodeToPath - {inode};
        pathToInode := pathToInode - {path};
      }
    }
  }

  class Adapter {
    const inodes: InodeMap

    constructor ()
      ensures Bijective(inodes.State()) && RootBound(inodes.State())
      ensures fresh(inodes)
    {
      inodes := new InodeMap();
    }

    /** The map update of lookup, mkdir and create. */
    method BindChild(parent: Ino, name: string, backendOk: bool) returns (r: Option<Ino>)
      modifies inodes
      ensures inodes.State() == Apply(old(inodes.State()), Look(parent, name, backendOk))
      ensures r.Some? <==> parent in old(inodes.inodeToPath) && backendOk
      ensures r.Some? ==> r.value == Bind(old(inodes.State()), ChildPath(old(inodes.inodeToPath)[parent], name)).1
    {
      if parent !in inodes.inodeToPath || !backendOk {
        return None;
      }
      var inode := inodes.GetOrCreate(ChildPath(inodes.inodeToPath[parent], name));
      r := Some(inode);
    }

    /** The map update of rmdir and unlink: the number is looked up first, then removed. */
    method DropChild(parent: Ino, name: string, backendOk: bool) returns (ok: bool)
      modifies inodes
      ensures inodes.State() == Apply(old(inodes.State()), Drop(parent, name, backendOk))
      ensures ok <==> parent in old(inodes.inodeToPath) && backendOk
    {
      if parent !in inodes.inodeToPath || !backendOk {
        return false;
      }
      var path := ChildPath(inodes.inodeToPath[parent], name);
      if path in inodes.pathToInode {
        inodes.Remove(inodes.pathToInode[path]);
      }
      ok := true;
    }

    /** One page: every entry is bound, then entries from the offset on are added until the buffer is full. */
    method Readdir(dir: Ino, names: seq<string>, backendOk: bool, offset: nat, room: nat)
      returns (reply: Option<seq<Item>>)
      modifies inodes
      ensures inodes.State() == Apply(old(inodes.State()), Read(dir, names, backendOk))
      ensures reply.Some? <==> dir in old(inodes.inodeToPath) && backendOk
      ensures reply.Some? ==> (reply.value, inodes.State()) == OnePage(old(inodes.State()), dir, names, offset, room)
    {
      if dir !in inodes.inodeToPath || !backendOk {
        return None;
      }
      var path := inodes.inodeToPath[dir];
      var all: seq<Item> := [Item(dir, 1, "."), Item(dir, 2, "..")];
      ghost var numbers: seq<Ino> := [];
      for n := 0 to |names|
        invariant |numbers| == n && (inodes.State(), numbers) == BindAll(old(inodes.State()), path, names[..n])
        invariant all == Listing(dir, names[..n], numbers)
      {
        BindAllSnoc(old(inodes.State()), path, names, n);
        var inode := inodes.GetOrCreate(ChildPath(path, names[n]));
        ListingSnoc(dir, names, n, numbers, inode);
        numbers := numbers + [inode];
        all := all + [Item(inode, n + 3, names[n])];
      }
      assert names[..|names|] == names;
      var page := FillReply(all, offset, room);
      reply := Some(page);
    }

    /** Entries are added from the offset on until there are no more or the buffer is full. */
    method FillReply(all: seq<Item>, offset: nat, room: nat) returns (reply: seq<Item>)
      ensures reply == Page(all, offset, room)
    {
      reply := [];
      if offset < |all| {
        for i := offset to |all|
          invariant |reply| == i - offset <= room && reply == all[offset..i]
        {
          if |reply| == room {
            break;
          }
          reply := reply + [all[i]];
        }
      }
    }
  }
}
