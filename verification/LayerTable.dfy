/**
 The rows behind src/storage/layer.rs for one tenant: layers in creation order, layer entries
 in the order of their last change, the current-layer row and the inodes an entry may name.
 Each SQL statement is a function on these values, with the constraints that
 migrations/20260118000003_create_layers.sql puts on it: a failed constraint is an `Err`.
 */
module LayerTable {
  import opened Prelude

  type LayerId = nat

  type InodeId = int

  datatype Layer = Layer(id: LayerId, parent: Option<LayerId>, name: string, readonly: bool,
                         mount: Option<string>, working: bool)

  datatype ChangeType = Add | Modify | Delete

  datatype Entry = Entry(layer: LayerId, inode: InodeId, path: string, change: ChangeType)

  datatype Tables = Tables(layers: seq<Layer>, entries: seq<Entry>, current: Option<LayerId>,
                           inodes: set<InodeId>, nextId: LayerId)

  datatype SqlError = UniqueViolation | ForeignKeyViolation | ValueTooLong

  const MAX_NAME_LENGTH := 255

  // ---------- constraints ----------

  ghost predicate DistinctIds(rows: seq<Layer>) {
    forall i, j | 0 <= i < j < |rows| :: rows[i].id != rows[j].id
  }

  ghost predicate DistinctNames(rows: seq<Layer>) {
    forall i, j | 0 <= i < j < |rows| :: rows[i].name != rows[j].name
  }

  ghost predicate IdsBelow(rows: seq<Layer>, bound: LayerId) {
    forall i | 0 <= i < |rows| :: rows[i].id < bound
  }

  predicate HasId(rows: seq<Layer>, id: LayerId) {
    exists i | 0 <= i < |rows| :: rows[i].id == id
  }

  predicate NameUsed(rows: seq<Layer>, name: string) {
    exists i | 0 <= i < |rows| :: rows[i].name == name
  }

  /** The name column takes at most 255 characters. */
  predicate NameFits(name: string) {
    |name| <= MAX_NAME_LENGTH
  }

  ghost predicate NamesFit(rows: seq<Layer>) {
    forall i | 0 <= i < |rows| :: NameFits(rows[i].name)
  }

  /** A layer of this name can be inserted among these rows. */
  predicate NameFree(rows: seq<Layer>, name: string) {
    NameFits(name) && !NameUsed(rows, name)
  }

  function NameRefusal(name: string): SqlError {
    if NameFits(name) then UniqueViolation else ValueTooLong
  }

  /** Row `i` has no parent, or its parent is a row created before it. */
  ghost predicate ParentEarlier(rows: seq<Layer>, i: nat)
    requires i < |rows|
  {
    rows[i].parent.Some? ==> exists j: nat | j < i :: rows[j].id == rows[i].parent.value
  }

  /** No parent reference dangles and none closes a cycle. */
  ghost predicate ParentsEarlier(rows: seq<Layer>) {
    forall i: nat | i < |rows| :: ParentEarlier(rows, i)
  }

  ghost predicate Forest(rows: seq<Layer>) {
    DistinctIds(rows) && ParentsEarlier(rows)
  }

  ghost predicate OneEntryPerPath(entries: seq<Entry>) {
    forall i, j | 0 <= i < j < |entries| ::
      entries[i].layer != entries[j].layer || entries[i].path != entries[j].path
  }

  ghost predicate Constraints(t: Tables) {
    && Forest(t.layers)
    && DistinctNames(t.layers)
    && NamesFit(t.layers)
    && IdsBelow(t.layers, t.nextId)
    && (t.current.Some? ==> HasId(t.layers, t.current.value))
    && OneEntryPerPath(t.entries)
    && (forall i | 0 <= i < |t.entries| ::
          HasId(t.layers, t.entries[i].layer) && t.entries[i].inode in t.inodes)
  }

  const EMPTY := Tables([], [], None, {}, 0)

  // ---------- queries ----------

  function Find(rows: seq<Layer>, id: LayerId): (r: Option<nat>)
    ensures r.Some? ==> r.value < |rows| && rows[r.value].id == id
    ensures r.None? <==> !HasId(rows, id)
  {
    if rows == [] then None
    else
      var last := |rows| - 1;
      if rows[last].id == id then Some(last) else
        assert forall i | 0 <= i < last :: rows[..last][i] == rows[i];
        Find(rows[..last], id)
  }

  function Rank(rows: seq<Layer>, id: LayerId): nat {
    match Find(rows, id) case None => 0 case Some(i) => i + 1
  }

  lemma ParentRank(rows: seq<Layer>, i: nat)
    requires Forest(rows) && i < |rows| && rows[i].parent.Some?
    ensures HasId(rows, rows[i].parent.value)
    ensures Rank(rows, rows[i].parent.value) < Rank(rows, rows[i].id)
  {
    assert ParentEarlier(rows, i);
    var j: nat :| j < i && rows[j].id == rows[i].parent.value;
  }

  /** The recursive walk from a layer to its root, the layer itself first. */
  function Chain(rows: seq<Layer>, id: LayerId): (chain: seq<Layer>)
    requires Forest(rows)
    decreases Rank(rows, id)
  {
    match Find(rows, id)
    case None => []
    case Some(i) =>
      if rows[i].parent.None? then [rows[i]]
      else
        ParentRank(rows, i);
        [rows[i]] + Chain(rows, rows[i].parent.value)
  }

  predicate InChain(chain: seq<Layer>, id: LayerId) {
    exists i | 0 <= i < |chain| :: chain[i].id == id
  }

  function EntriesOf(entries: seq<Entry>, layer: LayerId): seq<Entry> {
    if entries == [] then []
    else
      var last := |entries| - 1;
      EntriesOf(entries[..last], layer) + if entries[last].layer == layer then [entries[last]] else []
  }

  // ---------- statements ----------

  function Insert(t: Tables, parent: Option<LayerId>, name: string, mount: Option<string>,
                  working: bool): (r: Result<Tables, SqlError>)
  {
    if !NameFits(name) then Err(ValueTooLong)
    else if NameUsed(t.layers, name) then Err(UniqueViolation)
    else if working && mount.Some?
         && exists i | 0 <= i < |t.layers| :: t.layers[i].mount == mount && t.layers[i].working
    then Err(UniqueViolation)
    else if parent.Some? && !HasId(t.layers, parent.value) then Err(ForeignKeyViolation)
    else Ok(t.(layers := t.layers + [Layer(t.nextId, parent, name, false, mount, working)],
               nextId := t.nextId + 1))
  }

  predicate IsParent(rows: seq<Layer>, id: LayerId) {
    exists i | 0 <= i < |rows| :: rows[i].parent == Some(id)
  }

  function WithoutLayer(entries: seq<Entry>, layer: LayerId): seq<Entry> {
    if entries == [] then []
    else
      var last := |entries| - 1;
      WithoutLayer(entries[..last], layer) + if entries[last].layer == layer then [] else [entries[last]]
  }

  /** DELETE of one layer: refused while a child or the current-layer row refers to it; its entries go with it. */
  function Remove(t: Tables, id: LayerId): (r: Result<Tables, SqlError>) {
    match Find(t.layers, id)
    case None => Ok(t)
    case Some(i) =>
      if IsParent(t.layers, id) || t.current == Some(id) then Err(ForeignKeyViolation)
      else Ok(t.(layers := t.layers[..i] + t.layers[i + 1..], entries := WithoutLayer(t.entries, id)))
  }

  function SetReadonly(t: Tables, id: LayerId): Tables {
    match Find(t.layers, id)
    case None => t
    case Some(i) => t.(layers := t.layers[i := t.layers[i].(readonly := true)])
  }

  function FindEntry(entries: seq<Entry>, layer: LayerId, path: string): (r: Option<nat>)
    ensures r.Some? ==> r.value < |entries| && entries[r.value].layer == layer && entries[r.value].path == path
    ensures r.None? ==> forall i | 0 <= i < |entries| :: entries[i].layer != layer || entries[i].path != path
  {
    if entries == [] then None
    else
      var last := |entries| - 1;
      if entries[last].layer == layer && entries[last].path == path then Some(last)
      else
        assert forall i | 0 <= i < last :: entries[..last][i] == entries[i];
        FindEntry(entries[..last], layer, path)
  }

  /**
   INSERT of an entry, or the update of the row that already has this layer and path.
   The update keeps the inode the row was created with, and moves the row to the end of the
   listing order because it renews `created_at`.
   */
  function Upsert(t: Tables, layer: LayerId, inode: InodeId, path: string, change: ChangeType)
    : (r: Result<Tables, SqlError>)
  {
    match FindEntry(t.entries, layer, path)
    case Some(i) =>
      Ok(t.(entries := t.entries[..i] + t.entries[i + 1..] + [t.entries[i].(change := change)]))
    case None =>
      if !HasId(t.layers, layer) || inode !in t.inodes then Err(ForeignKeyViolation)
      else Ok(t.(entries := t.entries + [Entry(layer, inode, path, change)]))
  }

  function WithoutInode(entries: seq<Entry>, inode: InodeId): seq<Entry> {
    if entries == [] then []
    else
      var last := |entries| - 1;
      WithoutInode(entries[..last], inode) + if entries[last].inode == inode then [] else [entries[last]]
  }

  /** DELETE of an inode: every entry that names it goes with it, in every layer. */
  function RemoveInode(t: Tables, inode: InodeId): Tables {
    t.(inodes := t.inodes - {inode}, entries := WithoutInode(t.entries, inode))
  }

  // ---------- the parent walk ----------

  lemma {:induction false} ChainLinks(rows: seq<Layer>, id: LayerId)
    requires Forest(rows) && HasId(rows, id)
    ensures var c := Chain(rows, id);
            && c != [] && c[0].id == id && c[|c| - 1].parent == None
            && (forall i | 0 <= i < |c| :: c[i] in rows)
            && (forall i | 0 <= i < |c| - 1 :: c[i].parent == Some(c[i + 1].id))
    decreases Rank(rows, id)
  {
    var i := Find(rows, id).value;
    if rows[i].parent.None? {
      assert Chain(rows, id) == [rows[i]];
    } else {
      ParentRank(rows, i);
      ChainLinks(rows, rows[i].parent.value);
      assert Chain(rows, id) == [rows[i]] + Chain(rows, rows[i].parent.value);
    }
  }

  ghost predicate RanksFall(rows: seq<Layer>, c: seq<Layer>) {
    forall i, j | 0 <= i < j < |c| :: Rank(rows, c[i].id) > Rank(rows, c[j].id)
  }

  lemma RanksFallCons(rows: seq<Layer>, l: Layer, c: seq<Layer>)
    requires RanksFall(rows, c) && (c != [] ==> Rank(rows, l.id) > Rank(rows, c[0].id))
    ensures RanksFall(rows, [l] + c)
  {
    var longer := [l] + c;
    forall i, j | 0 <= i < j < |longer| ensures Rank(rows, longer[i].id) > Rank(rows, longer[j].id) {
      assert longer[j] == c[j - 1];
      if i > 0 { assert longer[i] == c[i - 1]; }
    }
  }

  lemma {:induction false} ChainRanks(rows: seq<Layer>, id: LayerId)
    requires Forest(rows) && HasId(rows, id)
    ensures RanksFall(rows, Chain(rows, id))
    decreases Rank(rows, id)
  {
    var i := Find(rows, id).value;
    if rows[i].parent.None? {
      assert Chain(rows, id) == [rows[i]];
    } else {
      var up := rows[i].parent.value;
      ParentRank(rows, i);
      ChainRanks(rows, up);
      ChainLinks(rows, up);
      RanksFallCons(rows, rows[i], Chain(rows, up));
    }
  }

  /** The walk starts at the layer, follows parents, visits no row twice and ends at a root. */
  lemma ChainShape(rows: seq<Layer>, id: LayerId)
    requires Forest(rows) && HasId(rows, id)
    ensures var c := Chain(rows, id);
            && c != [] && c[0].id == id && c[|c| - 1].parent == None
            && (forall i | 0 <= i < |c| :: c[i] in rows)
            && (forall i | 0 <= i < |c| - 1 :: c[i].parent == Some(c[i + 1].id))
            && DistinctIds(c)
  {
    ChainLinks(rows, id);
    ChainRanks(rows, id);
  }

  /** The row of `x` names `y` as its parent. */
  ghost predicate ParentOf(rows: seq<Layer>, x: LayerId, y: LayerId) {
    exists i: nat | i < |rows| :: rows[i].id == x && rows[i].parent == Some(y)
  }

  /** `p` is a run of parent references. */
  ghost predicate ParentRun(rows: seq<Layer>, p: seq<LayerId>) {
    forall k: nat | k < |p| - 1 :: ParentOf(rows, p[k], p[k + 1])
  }

  /** `x` is a proper descendant of `a`: at least one parent step leads from `x` to `a`. */
  ghost predicate Descends(rows: seq<Layer>, x: LayerId, a: LayerId) {
    exists p :: |p| >= 2 && p[0] == x && p[|p| - 1] == a && ParentRun(rows, p)
  }

  lemma ChainStarts(rows: seq<Layer>, id: LayerId)
    requires Forest(rows) && HasId(rows, id)
    ensures Chain(rows, id) != [] && Chain(rows, id)[0].id == id
  {
  }

  lemma ChainStep(rows: seq<Layer>, x: LayerId, y: LayerId)
    requires Forest(rows) && ParentOf(rows, x, y)
    ensures HasId(rows, x) && HasId(rows, y) && Rank(rows, y) < Rank(rows, x)
    ensures Chain(rows, x) == [rows[Find(rows, x).value]] + Chain(rows, y)
  {
    var i: nat :| i < |rows| && rows[i].id == x && rows[i].parent == Some(y);
    assert HasId(rows, x);
    assert Find(rows, x) == Some(i);
    ParentRank(rows, i);
  }

  lemma {:induction false} ChainMeetsRun(rows: seq<Layer>, p: seq<LayerId>)
    requires Forest(rows) && |p| >= 2 && ParentRun(rows, p)
    ensures HasId(rows, p[0])
    ensures InChain(Chain(rows, p[0]), p[|p| - 1])
    ensures Rank(rows, p[|p| - 1]) < Rank(rows, p[0])
    decreases |p|
  {
    ChainStep(rows, p[0], p[1]);
    var rest := Chain(rows, p[1]);
    if |p| == 2 {
      ChainStarts(rows, p[1]);
      assert Chain(rows, p[0])[1] == rest[0];
    } else {
      var q := p[1..];
      forall k: nat | k < |q| - 1 ensures ParentOf(rows, q[k], q[k + 1]) {
        assert ParentOf(rows, p[k + 1], p[k + 1 + 1]);
      }
      ChainMeetsRun(rows, q);
      var j :| 0 <= j < |rest| && rest[j].id == p[|p| - 1];
      assert Chain(rows, p[0])[j + 1] == rest[j];
    }
  }

  lemma {:induction false} ChainGivesRun(rows: seq<Layer>, id: LayerId, k: nat)
    requires Forest(rows) && HasId(rows, id) && 0 < k < |Chain(rows, id)|
    ensures Descends(rows, id, Chain(rows, id)[k].id)
  {
    ChainShape(rows, id);
    var c := Chain(rows, id);
    var p := seq(k + 1, i requires 0 <= i <= k => c[i].id);
    forall j: nat | j < |p| - 1 ensures ParentOf(rows, p[j], p[j + 1]) {
      assert c[j] in rows;
      var i: nat :| i < |rows| && rows[i] == c[j];
    }
    assert |p| >= 2 && p[0] == id && p[|p| - 1] == c[k].id && ParentRun(rows, p);
  }

  /** The walk from `x` meets `a` exactly when `x` is `a` or a proper descendant of it. */
  lemma {:induction false} ChainIsAncestry(rows: seq<Layer>, x: LayerId, a: LayerId)
    requires Forest(rows) && HasId(rows, x)
    ensures InChain(Chain(rows, x), a) <==> x == a || Descends(rows, x, a)
    ensures Descends(rows, x, a) ==> x != a
  {
    ChainShape(rows, x);
    if InChain(Chain(rows, x), a) && x != a {
      var k :| 0 <= k < |Chain(rows, x)| && Chain(rows, x)[k].id == a;
      ChainGivesRun(rows, x, k);
    }
    if Descends(rows, x, a) {
      var p :| |p| >= 2 && p[0] == x && p[|p| - 1] == a && ParentRun(rows, p);
      ChainMeetsRun(rows, p);
    }
  }

  // ---------- constraints are kept ----------

  /** Some layer of the mount is its working layer. */
  ghost predicate MountWorks(rows: seq<Layer>, mount: string) {
    exists i | 0 <= i < |rows| :: rows[i].mount == Some(mount) && rows[i].working
  }

  /**
   When a layer can be inserted: its name has at most 255 characters and no layer has it, its mount
   has no other working layer if it is to be one, and its parent exists. The row is added at the
   end under the next identifier, writable, and nothing else changes.
   */
  lemma InsertExactly(t: Tables, parent: Option<LayerId>, name: string, mount: Option<string>, working: bool)
    ensures var r := Insert(t, parent, name, mount, working);
            var used := exists i | 0 <= i < |t.layers| :: t.layers[i].name == name;
            var second := working && mount.Some? && MountWorks(t.layers, mount.value);
            && (r == Err(ValueTooLong) <==> |name| > 255)
            && (r == Err(UniqueViolation) <==> |name| <= 255 && (used || second))
            && (r == Err(ForeignKeyViolation) <==>
                  |name| <= 255 && !used && !second && parent.Some? && !HasId(t.layers, parent.value))
            && (r.Ok? ==> && r.value.layers == t.layers + [Layer(t.nextId, parent, name, false, mount, working)]
                          && r.value == t.(layers := r.value.layers, nextId := t.nextId + 1))
  {
  }

  /**
   When a layer can be deleted: it is not there, or no layer has it as its parent and it is not
   current. Then its row and its entries are gone and nothing else.
   */
  lemma RemoveExactly(t: Tables, id: LayerId)
    requires DistinctIds(t.layers)
    ensures var r := Remove(t, id);
            && (r.Ok? <==> !HasId(t.layers, id)
                           || (t.current != Some(id)
                               && forall k | 0 <= k < |t.layers| :: t.layers[k].parent != Some(id)))
            && (r.Err? ==> r == Err(ForeignKeyViolation))
            && (r.Ok? ==> && !HasId(r.value.layers, id)
                          && r.value == t.(layers := r.value.layers, entries := r.value.entries))
  {
    if HasId(t.layers, id) { DropRowLeaves(t.layers, Find(t.layers, id).value); }
  }

  lemma DropRowLeaves(rows: seq<Layer>, i: nat)
    requires i < |rows| && DistinctIds(rows)
    ensures !HasId(rows[..i] + rows[i + 1..], rows[i].id)
  {
    var rows' := rows[..i] + rows[i + 1..];
    forall k | 0 <= k < |rows'| ensures rows'[k].id != rows[i].id {
      assert rows'[k] == rows[if k < i then k else k + 1];
    }
  }

  lemma InsertKeeps(t: Tables, parent: Option<LayerId>, name: string, mount: Option<string>, working: bool)
    requires Constraints(t) && Insert(t, parent, name, mount, working).Ok?
    ensures Constraints(Insert(t, parent, name, mount, working).value)
  {
    var t' := Insert(t, parent, name, mount, working).value;
    forall i: nat | i < |t'.layers| ensures ParentEarlier(t'.layers, i) {
      if i < |t.layers| {
        assert ParentEarlier(t.layers, i);
        if t.layers[i].parent.Some? {
          var j: nat :| j < i && t.layers[j].id == t.layers[i].parent.value;
          assert t'.layers[j].id == t'.layers[i].parent.value;
        }
      } else if parent.Some? {
        var j :| 0 <= j < |t.layers| && t.layers[j].id == parent.value;
        assert t'.layers[j].id == t'.layers[i].parent.value;
      }
    }
    forall id | HasId(t.layers, id) ensures HasId(t'.layers, id) {
      var i :| 0 <= i < |t.layers| && t.layers[i].id == id;
      assert t'.layers[i].id == id;
    }
  }

  lemma {:induction false} WithoutLayerUnique(entries: seq<Entry>, layer: LayerId)
    requires OneEntryPerPath(entries)
    ensures OneEntryPerPath(WithoutLayer(entries, layer))
    ensures forall e | e in WithoutLayer(entries, layer) :: e in entries && e.layer != layer
  {
    if entries != [] {
      WithoutLayerUnique(entries[..|entries| - 1], layer);
    }
  }

  lemma DropRowIds(rows: seq<Layer>, i: nat)
    requires i < |rows| && DistinctIds(rows)
    ensures DistinctIds(rows[..i] + rows[i + 1..])
    ensures forall id | id != rows[i].id && HasId(rows, id) :: HasId(rows[..i] + rows[i + 1..], id)
  {
    var rows' := rows[..i] + rows[i + 1..];
    forall id | id != rows[i].id && HasId(rows, id) ensures HasId(rows', id) {
      var j :| 0 <= j < |rows| && rows[j].id == id;
      assert rows'[if j < i then j else j - 1].id == id;
    }
  }

  lemma DropRowParents(rows: seq<Layer>, i: nat)
    requires i < |rows| && ParentsEarlier(rows) && !IsParent(rows, rows[i].id)
    ensures ParentsEarlier(rows[..i] + rows[i + 1..])
  {
    var rows' := rows[..i] + rows[i + 1..];
    forall k: nat | k < |rows'| ensures ParentEarlier(rows', k) {
      var k0 := if k < i then k else k + 1;
      assert rows'[k] == rows[k0];
      assert ParentEarlier(rows, k0);
      if rows[k0].parent.Some? {
        var j: nat :| j < k0 && rows[j].id == rows[k0].parent.value;
        assert j != i;
        var j' := if j < i then j else j - 1;
        assert rows'[j'] == rows[j] && j' < k;
      }
    }
  }

  lemma DropRowNames(rows: seq<Layer>, i: nat, bound: LayerId)
    requires i < |rows| && DistinctNames(rows) && NamesFit(rows) && IdsBelow(rows, bound)
    ensures DistinctNames(rows[..i] + rows[i + 1..]) && NamesFit(rows[..i] + rows[i + 1..])
    ensures IdsBelow(rows[..i] + rows[i + 1..], bound)
  {
    var rows' := rows[..i] + rows[i + 1..];
    assert forall k | 0 <= k < |rows'| :: rows'[k] == rows[if k < i then k else k + 1];
  }

  lemma RemoveKeeps(t: Tables, id: LayerId)
    requires Constraints(t) && Remove(t, id).Ok?
    ensures Constraints(Remove(t, id).value)
  {
    if HasId(t.layers, id) {
      var i := Find(t.layers, id).value;
      var t' := Remove(t, id).value;
      DropRowIds(t.layers, i);
      DropRowParents(t.layers, i);
      DropRowNames(t.layers, i, t.nextId);
      WithoutLayerUnique(t.entries, id);
      forall k | 0 <= k < |t'.entries|
        ensures HasId(t'.layers, t'.entries[k].layer) && t'.entries[k].inode in t'.inodes
      {
        assert t'.entries[k] in t'.entries;
      }
    }
  }

  lemma SetReadonlyKeeps(t: Tables, id: LayerId)
    requires Constraints(t)
    ensures Constraints(SetReadonly(t, id))
  {
    var t' := SetReadonly(t, id);
    assert forall i | 0 <= i < |t.layers| ::
        t'.layers[i].id == t.layers[i].id && t'.layers[i].parent == t.layers[i].parent;
    forall i: nat | i < |t'.layers| ensures ParentEarlier(t'.layers, i) {
      assert ParentEarlier(t.layers, i);
      if t.layers[i].parent.Some? {
        var j: nat :| j < i && t.layers[j].id == t.layers[i].parent.value;
        assert t'.layers[j].id == t'.layers[i].parent.value;
      }
    }
    forall x | HasId(t.layers, x) ensures HasId(t'.layers, x) {
      var j :| 0 <= j < |t.layers| && t.layers[j].id == x;
      assert t'.layers[j].id == x;
    }
  }

  lemma MoveEntryUnique(entries: seq<Entry>, i: nat, change: ChangeType)
    requires i < |entries| && OneEntryPerPath(entries)
    ensures OneEntryPerPath(entries[..i] + entries[i + 1..] + [entries[i].(change := change)])
  {
    var moved := entries[..i] + entries[i + 1..] + [entries[i].(change := change)];
    assert forall k | 0 <= k < |moved| - 1 :: moved[k] == entries[if k < i then k else k + 1];
  }

  lemma AddEntryUnique(entries: seq<Entry>, e: Entry)
    requires OneEntryPerPath(entries)
    requires forall i | 0 <= i < |entries| :: entries[i].layer != e.layer || entries[i].path != e.path
    ensures OneEntryPerPath(entries + [e])
  {
  }

  lemma UpsertKeeps(t: Tables, layer: LayerId, inode: InodeId, path: string, change: ChangeType)
    requires Constraints(t) && Upsert(t, layer, inode, path, change).Ok?
    ensures Constraints(Upsert(t, layer, inode, path, change).value)
  {
    var t' := Upsert(t, layer, inode, path, change).value;
    match FindEntry(t.entries, layer, path)
    case None =>
      AddEntryUnique(t.entries, Entry(layer, inode, path, change));
    case Some(i) =>
      MoveEntryUnique(t.entries, i, change);
      forall k | 0 <= k < |t'.entries|
        ensures HasId(t'.layers, t'.entries[k].layer) && t'.entries[k].inode in t'.inodes
      {
        var k' := if k == |t'.entries| - 1 then i else if k < i then k else k + 1;
        assert t'.entries[k].layer == t.entries[k'].layer && t'.entries[k].inode == t.entries[k'].inode;
      }
  }

  lemma {:induction false} WithoutInodeUnique(entries: seq<Entry>, inode: InodeId)
    requires OneEntryPerPath(entries)
    ensures OneEntryPerPath(WithoutInode(entries, inode))
    ensures forall e :: e in WithoutInode(entries, inode) <==> e in entries && e.inode != inode
  {
    if entries != [] {
      WithoutInodeUnique(entries[..|entries| - 1], inode);
      assert entries == entries[..|entries| - 1] + [entries[|entries| - 1]];
    }
  }

  lemma RemoveInodeKeeps(t: Tables, inode: InodeId)
    requires Constraints(t)
    ensures Constraints(RemoveInode(t, inode))
    ensures RemoveInode(t, inode).inodes == t.inodes - {inode} && RemoveInode(t, inode).layers == t.layers
    ensures forall e :: e in RemoveInode(t, inode).entries <==> e in t.entries && e.inode != inode
  {
    WithoutInodeUnique(t.entries, inode);
    assert forall k | 0 <= k < |RemoveInode(t, inode).entries| :: RemoveInode(t, inode).entries[k] in t.entries;
  }

  // ---------- one layer's entries under the statements ----------

  lemma {:induction false} EntriesOfAppend(a: seq<Entry>, b: seq<Entry>, layer: LayerId)
    ensures EntriesOf(a + b, layer) == EntriesOf(a, layer) + EntriesOf(b, layer)
  {
    if b == [] {
      assert a + b == a;
    } else {
      assert (a + b)[..|a + b| - 1] == a + b[..|b| - 1];
      EntriesOfAppend(a, b[..|b| - 1], layer);
    }
  }

  lemma {:induction false} EntriesOfWithout(entries: seq<Entry>, gone: LayerId, layer: LayerId)
    requires gone != layer
    ensures EntriesOf(WithoutLayer(entries, gone), layer) == EntriesOf(entries, layer)
  {
    if entries != [] {
      var last := |entries| - 1;
      EntriesOfWithout(entries[..last], gone, layer);
      var kept := if entries[last].layer == gone then [] else [entries[last]];
      EntriesOfAppend(WithoutLayer(entries[..last], gone), kept, layer);
      assert EntriesOf([], layer) == [];
      assert entries[last].layer != gone ==> [entries[last]][..0] == [];
    }
  }

  lemma EntriesOfMove(a: seq<Entry>, e: Entry, b: seq<Entry>, e': Entry, layer: LayerId)
    requires e.layer != layer && e'.layer != layer
    ensures EntriesOf(a + b + [e'], layer) == EntriesOf(a + [e] + b, layer)
  {
    EntriesOfAppend(a + [e], b, layer);
    EntriesOfAppend(a, [e], layer);
    EntriesOfAppend(a + b, [e'], layer);
    EntriesOfAppend(a, b, layer);
    assert EntriesOf([e], layer) == [] == EntriesOf([e'], layer);
  }

  lemma {:induction false} NoEntriesOf(entries: seq<Entry>, layer: LayerId)
    requires forall i | 0 <= i < |entries| :: entries[i].layer != layer
    ensures EntriesOf(entries, layer) == []
  {
    if entries != [] {
      NoEntriesOf(entries[..|entries| - 1], layer);
    }
  }

  /** The next layer to be created has no entries waiting for it. */
  lemma NewLayerIsEmpty(t: Tables)
    requires Constraints(t)
    ensures EntriesOf(t.entries, t.nextId) == []
  {
    forall i | 0 <= i < |t.entries| ensures t.entries[i].layer != t.nextId {
      var k :| 0 <= k < |t.layers| && t.layers[k].id == t.entries[i].layer;
    }
    NoEntriesOf(t.entries, t.nextId);
  }

  /** Recording a change in one layer leaves the entries of every other layer as they were. */
  lemma UpsertElsewhere(t: Tables, target: LayerId, inode: InodeId, path: string, change: ChangeType, layer: LayerId)
    requires layer != target && Upsert(t, target, inode, path, change).Ok?
    ensures EntriesOf(Upsert(t, target, inode, path, change).value.entries, layer) == EntriesOf(t.entries, layer)
  {
    match FindEntry(t.entries, target, path)
    case None =>
      EntriesOfAppend(t.entries, [Entry(target, inode, path, change)], layer);
    case Some(i) =>
      var e := t.entries[i];
      assert t.entries == t.entries[..i] + [e] + t.entries[i + 1..];
      EntriesOfMove(t.entries[..i], e, t.entries[i + 1..], e.(change := change), layer);
  }
}
