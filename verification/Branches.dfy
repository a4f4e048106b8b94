/**
 Checkpoints and deletions of src/layer/manager.rs in any tables the database can hold: histories
 that branch, as CSI snapshots make them, with the layers of mounts beside them.
 */
module Branches {
  import opened Prelude
  import opened LayerTable
  import opened Rows
  import opened History

  // ---------- tables without some layers ----------

  function LayerKept(gone: set<LayerId>): Layer -> bool {
    (l: Layer) => l.id !in gone
  }

  function EntryKept(gone: set<LayerId>): Entry -> bool {
    (e: Entry) => e.layer !in gone
  }

  /** The tables without these layers and their entries. */
  function Pruned(t: Tables, gone: set<LayerId>): Tables {
    t.(layers := Where(t.layers, LayerKept(gone)), entries := Where(t.entries, EntryKept(gone)))
  }

  function IdSet(rows: seq<Layer>): set<LayerId> {
    set l | l in rows :: l.id
  }

  lemma PruneNothing(t: Tables)
    ensures Pruned(t, {}) == t
  {
    WhereAll(t.layers, LayerKept({}));
    WhereAll(t.entries, EntryKept({}));
  }

  lemma PruneTwice(t: Tables, first: set<LayerId>, second: set<LayerId>)
    ensures Pruned(Pruned(t, first), second) == Pruned(t, first + second)
  {
    WhereTwice(t.layers, LayerKept(first), LayerKept(second), LayerKept(first + second));
    WhereTwice(t.entries, EntryKept(first), EntryKept(second), EntryKept(first + second));
  }

  lemma {:induction false} WithoutLayerIs(entries: seq<Entry>, id: LayerId)
    ensures WithoutLayer(entries, id) == Where(entries, EntryKept({id}))
  {
    if entries != [] { WithoutLayerIs(entries[..|entries| - 1], id); }
  }

  lemma RowDropped(rows: seq<Layer>, i: nat)
    requires DistinctIds(rows) && i < |rows|
    ensures rows[..i] + rows[i + 1..] == Where(rows, LayerKept({rows[i].id}))
  {
    WhereAllBut(rows, LayerKept({rows[i].id}), i, |rows|);
    assert rows[..|rows|] == rows && rows[i + 1..|rows|] == rows[i + 1..];
  }

  /** A layer goes when nothing refers to it. */
  lemma RemoveLeaf(t: Tables, id: LayerId)
    requires Constraints(t) && HasId(t.layers, id) && !IsParent(t.layers, id) && t.current != Some(id)
    ensures Remove(t, id) == Ok(Pruned(t, {id}))
  {
    RowDropped(t.layers, Find(t.layers, id).value);
    WithoutLayerIs(t.entries, id);
  }

  lemma PrunedHas(t: Tables, gone: set<LayerId>, id: LayerId)
    ensures HasId(Pruned(t, gone).layers, id) <==> HasId(t.layers, id) && id !in gone
  {
    WhereMembers(t.layers, LayerKept(gone));
    var rows := Pruned(t, gone).layers;
    if HasId(rows, id) {
      var i :| 0 <= i < |rows| && rows[i].id == id;
      assert rows[i] in rows;
      assert rows[i] in t.layers;
    }
    if HasId(t.layers, id) && id !in gone {
      var i :| 0 <= i < |t.layers| && t.layers[i].id == id;
      assert t.layers[i] in rows;
    }
  }

  lemma PrunedParents(t: Tables, gone: set<LayerId>, id: LayerId)
    ensures IsParent(Pruned(t, gone).layers, id)
        <==> exists l | l in t.layers :: l.id !in gone && l.parent == Some(id)
  {
    WhereMembers(t.layers, LayerKept(gone));
    var rows := Pruned(t, gone).layers;
    if IsParent(rows, id) {
      var i :| 0 <= i < |rows| && rows[i].parent == Some(id);
      assert rows[i] in rows;
    }
    if l :| l in t.layers && l.id !in gone && l.parent == Some(id) {
      assert l in rows;
    }
  }

  /** The entries of a layer that stays are untouched. */
  lemma {:induction false} EntriesOfPruned(entries: seq<Entry>, gone: set<LayerId>, id: LayerId)
    requires id !in gone
    ensures EntriesOf(Where(entries, EntryKept(gone)), id) == EntriesOf(entries, id)
  {
    if entries != [] {
      var front, last := entries[..|entries| - 1], entries[|entries| - 1];
      EntriesOfPruned(front, gone, id);
      var kept := Where(front, EntryKept(gone));
      if last.layer in gone {
        assert kept + [] == kept && EntriesOf(front, id) + [] == EntriesOf(front, id);
      } else {
        assert (kept + [last])[..|kept|] == kept;
      }
    }
  }

  // ---------- the order of removal ----------

  /** These layers in the order a checkpoint removes them: the oldest first. */
  function Doomed(rows: seq<Layer>, of: LayerId): seq<Layer>
    requires Forest(rows)
  {
    Where(rows, FutureTest(rows, of))
  }

  lemma DoomedIs(rows: seq<Layer>, of: LayerId)
    requires Forest(rows)
    ensures Future(rows, of) == Reversed(Doomed(rows, of)) && Reversed(Future(rows, of)) == Doomed(rows, of)
    ensures forall l :: l in Future(rows, of) <==> l in Doomed(rows, of)
  {
    WhereReversed(rows, FutureTest(rows, of));
    ReversedTwice(Doomed(rows, of));
    forall l ensures l in Future(rows, of) <==> l in Doomed(rows, of) {
      WhereMembers(rows, FutureTest(rows, of));
      WhereMembers(Reversed(rows), FutureTest(rows, of));
      ReversedMembers(rows, l);
    }
  }

  lemma ReversedMembers<T>(s: seq<T>, x: T)
    ensures x in Reversed(s) <==> x in s
  {
    if x in s {
      var i :| 0 <= i < |s| && s[i] == x;
      assert Reversed(s)[|s| - 1 - i] == x;
    }
  }

  /** Rows of the table, older rows first. */
  ghost predicate InOrder(rows: seq<Layer>, todo: seq<Layer>) {
    && (forall i | 0 <= i < |todo| :: todo[i] in rows)
    && (forall i, j | 0 <= i < j < |todo| :: Rank(rows, todo[i].id) < Rank(rows, todo[j].id))
  }

  ghost predicate RanksUpTo(rows: seq<Layer>, todo: seq<Layer>, n: nat) {
    forall i | 0 <= i < |todo| :: Rank(rows, todo[i].id) <= n
  }

  lemma InOrderSnoc(rows: seq<Layer>, todo: seq<Layer>, n: nat)
    requires DistinctIds(rows) && n < |rows| && InOrder(rows, todo) && RanksUpTo(rows, todo, n)
    ensures InOrder(rows, todo + [rows[n]]) && RanksUpTo(rows, todo + [rows[n]], n + 1)
  {
    var more := todo + [rows[n]];
    IndexIs(rows, n);
    forall i | 0 <= i < |more| ensures more[i] in rows && Rank(rows, more[i].id) <= n + 1 {
      if i < |todo| { assert more[i] == todo[i]; }
    }
    forall i, j | 0 <= i < j < |more| ensures Rank(rows, more[i].id) < Rank(rows, more[j].id) {
      assert more[i] == todo[i];
      if j < |todo| { assert more[j] == todo[j]; }
    }
  }

  lemma RanksUpToMore(rows: seq<Layer>, todo: seq<Layer>, n: nat)
    requires RanksUpTo(rows, todo, n)
    ensures RanksUpTo(rows, todo + [], n + 1) && (InOrder(rows, todo) ==> InOrder(rows, todo + []))
  {
    assert todo + [] == todo;
  }

  lemma {:induction false} WhereInOrder(rows: seq<Layer>, keep: Layer -> bool, n: nat)
    requires DistinctIds(rows) && n <= |rows|
    ensures InOrder(rows, Where(rows[..n], keep)) && RanksUpTo(rows, Where(rows[..n], keep), n)
  {
    if n > 0 {
      var front := Where(rows[..n - 1], keep);
      WhereInOrder(rows, keep, n - 1);
      WhereStep(rows, keep, n - 1);
      if keep(rows[n - 1]) {
        InOrderSnoc(rows, front, n - 1);
      } else {
        RanksUpToMore(rows, front, n - 1);
      }
    }
  }

  lemma DoomedInOrder(rows: seq<Layer>, of: LayerId)
    requires Forest(rows)
    ensures InOrder(rows, Doomed(rows, of))
  {
    WhereInOrder(rows, FutureTest(rows, of), |rows|);
    assert rows[..|rows|] == rows;
  }

  /** None of these layers is the parent of one listed before it. */
  ghost predicate ParentsFirst(todo: seq<Layer>) {
    forall i, j | 0 <= i < j < |todo| :: todo[i].parent != Some(todo[j].id) && todo[i].id != todo[j].id
  }

  lemma OrderPutsParentsFirst(rows: seq<Layer>, todo: seq<Layer>)
    requires Forest(rows) && InOrder(rows, todo)
    ensures ParentsFirst(todo)
  {
    forall i, j | 0 <= i < j < |todo| ensures todo[i].parent != Some(todo[j].id) {
      var k: nat :| k < |rows| && rows[k] == todo[i];
      if rows[k].parent.Some? { ParentRank(rows, k); }
    }
  }

  // ---------- removal, oldest first ----------

  /** The layers before the first one that has a child. */
  function Leaves(rows: seq<Layer>, todo: seq<Layer>): seq<Layer> {
    if todo == [] || IsParent(rows, todo[0].id) then [] else [todo[0]] + Leaves(rows, todo[1..])
  }

  lemma {:induction false} LeavesShape(rows: seq<Layer>, todo: seq<Layer>)
    ensures var n := |Leaves(rows, todo)|;
            && n <= |todo| && Leaves(rows, todo) == todo[..n]
            && (forall i | 0 <= i < n :: !IsParent(rows, todo[i].id))
            && (n < |todo| ==> IsParent(rows, todo[n].id))
  {
    if todo != [] && !IsParent(rows, todo[0].id) {
      LeavesShape(rows, todo[1..]);
      var n := |Leaves(rows, todo[1..])|;
      assert todo[..n + 1] == [todo[0]] + todo[1..][..n];
      forall i | 0 <= i < n + 1 ensures !IsParent(rows, todo[i].id) {
        if i > 0 { assert todo[i] == todo[1..][i - 1]; }
      }
    }
  }

  lemma {:induction false} SameLeaves(rows: seq<Layer>, rows': seq<Layer>, todo: seq<Layer>)
    requires forall i | 0 <= i < |todo| :: IsParent(rows', todo[i].id) <==> IsParent(rows, todo[i].id)
    ensures Leaves(rows', todo) == Leaves(rows, todo)
  {
    if todo != [] {
      assert forall i | 0 <= i < |todo[1..]| :: todo[1..][i] == todo[i + 1];
      SameLeaves(rows, rows', todo[1..]);
    }
  }

  ghost predicate Removable(t: Tables, todo: seq<Layer>) {
    && Constraints(t) && ParentsFirst(todo)
    && (forall i | 0 <= i < |todo| :: todo[i] in t.layers && t.current != Some(todo[i].id))
  }

  /** What removal from the front leaves: the leaves at the front go, the first layer with a child stops it. */
  ghost predicate LeavesGo(t: Tables, todo: seq<Layer>, r: (Tables, Option<SqlError>)) {
    var front := Leaves(t.layers, todo);
    && r.0 == Pruned(t, IdSet(front))
    && r.1 == if front == todo then None else Some(ForeignKeyViolation)
  }

  /** Removing the first of the layers leaves the others as they were, with the children they had. */
  lemma FirstGone(t: Tables, todo: seq<Layer>)
    requires Removable(t, todo) && todo != [] && !IsParent(t.layers, todo[0].id)
    ensures Remove(t, todo[0].id) == Ok(Pruned(t, {todo[0].id}))
    ensures Removable(Pruned(t, {todo[0].id}), todo[1..])
    ensures Leaves(Pruned(t, {todo[0].id}).layers, todo[1..]) == Leaves(t.layers, todo[1..])
  {
    var id, rest := todo[0].id, todo[1..];
    var t1 := Pruned(t, {id});
    var k :| 0 <= k < |t.layers| && t.layers[k] == todo[0];
    RemoveLeaf(t, id);
    RemoveKeeps(t, id);
    WhereMembers(t.layers, LayerKept({id}));
    forall i | 0 <= i < |rest|
      ensures rest[i] in t1.layers && t1.current != Some(rest[i].id)
      ensures IsParent(t1.layers, rest[i].id) <==> IsParent(t.layers, rest[i].id)
    {
      assert rest[i] == todo[i + 1];
      SameParent(t, k, rest[i].id);
    }
    SameLeaves(t.layers, t1.layers, rest);
  }

  lemma SameParent(t: Tables, k: nat, id: LayerId)
    requires Constraints(t) && k < |t.layers| && t.layers[k].parent != Some(id)
    ensures IsParent(Pruned(t, {t.layers[k].id}).layers, id) <==> IsParent(t.layers, id)
  {
    PrunedParents(t, {t.layers[k].id}, id);
    if IsParent(t.layers, id) {
      var i :| 0 <= i < |t.layers| && t.layers[i].parent == Some(id);
      assert t.layers[i] in t.layers && t.layers[i].id != t.layers[k].id;
    }
  }

  lemma IdSetCons(l: Layer, rest: seq<Layer>)
    ensures IdSet([l] + rest) == {l.id} + IdSet(rest)
  {
    var all := [l] + rest;
    forall x ensures x in all <==> x == l || x in rest {
      if x in rest {
        var i :| 0 <= i < |rest| && rest[i] == x;
        assert all[i + 1] == x;
      }
      if x == l { assert all[0] == x; }
    }
  }

  /** The removal loop, exactly, for layers that are listed parents first. */
  lemma {:induction false} RemovalExact(t: Tables, todo: seq<Layer>)
    requires Removable(t, todo)
    ensures LeavesGo(t, todo, RemoveAll(t, todo))
    decreases todo
  {
    if todo == [] || IsParent(t.layers, todo[0].id) {
      PruneNothing(t);
      assert IdSet([]) == {};
      if todo != [] {
        var k :| 0 <= k < |t.layers| && t.layers[k] == todo[0];
        assert HasId(t.layers, todo[0].id);
      }
    } else {
      var t1, rest := Pruned(t, {todo[0].id}), todo[1..];
      FirstGone(t, todo);
      RemovalExact(t1, rest);
      var front := Leaves(t.layers, rest);
      IdSetCons(todo[0], front);
      PruneTwice(t, {todo[0].id}, IdSet(front));
      assert todo == [todo[0]] + rest;
    }
  }

  // ---------- removal of a future ----------

  ghost predicate AllLeaves(rows: seq<Layer>, some: seq<Layer>) {
    forall l | l in some :: !IsParent(rows, l.id)
  }

  lemma AllLeavesExactly(rows: seq<Layer>, todo: seq<Layer>)
    ensures AllLeaves(rows, todo) <==> Leaves(rows, todo) == todo
  {
    LeavesShape(rows, todo);
    var n := |Leaves(rows, todo)|;
    if n < |todo| { assert todo[n] in todo; }
  }

  /** `l` is in the future and older than every layer there that has a child. */
  ghost predicate OlderThanParents(rows: seq<Layer>, future: seq<Layer>, l: Layer) {
    l in future && forall m | m in future && IsParent(rows, m.id) :: Rank(rows, l.id) < Rank(rows, m.id)
  }

  lemma OlderAt(rows: seq<Layer>, todo: seq<Layer>, i: nat)
    requires InOrder(rows, todo) && i < |todo|
    ensures OlderThanParents(rows, todo, todo[i]) <==> i < |Leaves(rows, todo)|
  {
    LeavesShape(rows, todo);
    var n := |Leaves(rows, todo)|;
    if i < n {
      forall m | m in todo && IsParent(rows, m.id) ensures Rank(rows, todo[i].id) < Rank(rows, m.id) {
        var j :| 0 <= j < |todo| && todo[j] == m;
      }
    } else {
      assert todo[n] in todo;
    }
  }

  lemma LeafAt(rows: seq<Layer>, todo: seq<Layer>, i: nat)
    requires InOrder(rows, todo) && i < |todo|
    ensures todo[i] in Leaves(rows, todo) <==> i < |Leaves(rows, todo)|
  {
    LeavesShape(rows, todo);
    var front := Leaves(rows, todo);
    if i < |front| {
      assert front[i] == todo[i];
    } else {
      forall j | 0 <= j < |front| ensures front[j] != todo[i] {
        assert Rank(rows, todo[j].id) < Rank(rows, todo[i].id);
      }
    }
  }

  lemma LeavesAre(rows: seq<Layer>, todo: seq<Layer>, l: Layer)
    requires InOrder(rows, todo)
    ensures l in Leaves(rows, todo) <==> OlderThanParents(rows, todo, l)
  {
    LeavesShape(rows, todo);
    if l in todo {
      var i :| 0 <= i < |todo| && todo[i] == l;
      OlderAt(rows, todo, i);
      LeafAt(rows, todo, i);
    }
  }

  /** What the confirmed removal of the layers after `of` takes. */
  function Taken(rows: seq<Layer>, of: LayerId): set<LayerId>
    requires Forest(rows)
  {
    IdSet(Leaves(rows, Doomed(rows, of)))
  }

  lemma DoomedRemovable(t: Tables, c: LayerId)
    requires Constraints(t) && t.current == Some(c)
    ensures Removable(t, Doomed(t.layers, c))
  {
    var todo := Doomed(t.layers, c);
    DoomedInOrder(t.layers, c);
    OrderPutsParentsFirst(t.layers, todo);
    WhereMembers(t.layers, FutureTest(t.layers, c));
    forall i | 0 <= i < |todo| ensures todo[i] in t.layers && t.current != Some(todo[i].id) {
      assert todo[i] in todo;
      assert FutureTest(t.layers, c)(todo[i]);
    }
  }

  lemma SameMembers(rows: seq<Layer>, a: seq<Layer>, b: seq<Layer>)
    requires forall l :: l in a <==> l in b
    ensures IdSet(a) == IdSet(b) && (AllLeaves(rows, a) <==> AllLeaves(rows, b))
  {
  }

  /**
   A future can be removed exactly when none of its layers has a child: when it does not go beyond
   direct children.
   */
  lemma FutureRemoval(t: Tables, c: LayerId)
    requires Constraints(t) && t.current == Some(c)
    ensures var (t', refused), future := RemoveAll(t, Reversed(Future(t.layers, c))), Future(t.layers, c);
            && t' == Pruned(t, Taken(t.layers, c))
            && refused == (if AllLeaves(t.layers, future) then None else Some(ForeignKeyViolation))
            && (AllLeaves(t.layers, future) ==> Taken(t.layers, c) == IdSet(future))
  {
    var todo, future := Doomed(t.layers, c), Future(t.layers, c);
    DoomedIs(t.layers, c);
    DoomedRemovable(t, c);
    RemovalExact(t, todo);
    AllLeavesExactly(t.layers, todo);
    SameMembers(t.layers, todo, future);
  }

  // ---------- checkpoints ----------

  /** What a checkpoint that goes through leaves. */
  function Stacked(t: Tables, c: LayerId, name: string): Tables {
    var frozen := SetReadonly(t, c);
    frozen.(layers := frozen.layers + [Layer(t.nextId, Some(c), name, false, None, false)],
            current := Some(t.nextId), nextId := t.nextId + 1)
  }

  lemma StackIs(t: Tables, c: LayerId, name: string)
    requires Forest(t.layers) && HasId(t.layers, c)
    ensures Stack(t, c, name) == if NameFree(t.layers, name) then (Stacked(t, c, name), Ok(t.nextId))
                                 else (SetReadonly(t, c), Err(Storage(NameRefusal(name))))
  {
    var k := Find(t.layers, c).value;
    StackGrows(t, c, name, k);
  }

  /** A checkpoint, whole: every answer and what each of them leaves. */
  ghost predicate CheckpointAnswers(t: Tables, name: string, confirm: bool, c: LayerId, future: seq<Layer>,
                                    r: (Tables, Outcome))
    requires Forest(t.layers)
  {
    var rest := Pruned(t, IdSet(future));
    r == if future != [] && !confirm then (t, Err(NeedsConfirmation(c, future)))
         else if !AllLeaves(t.layers, future)
         then (Pruned(t, Taken(t.layers, c)), Err(Storage(ForeignKeyViolation)))
         else if !NameFree(rest.layers, name) then (SetReadonly(rest, c), Err(Storage(NameRefusal(name))))
         else (Stacked(rest, c, name), Ok(t.nextId))
  }

  lemma CheckpointIs(t: Tables, name: string, confirm: bool)
    requires Constraints(t) && t.current.Some?
    ensures var c := t.current.value;
            CheckpointAnswers(t, name, confirm, c, Future(t.layers, c), Checkpoint(t, name, confirm))
  {
    var c := t.current.value;
    var future := Future(t.layers, c);
    var (removed, refused) := RemoveAll(t, Reversed(future));
    FutureRemoval(t, c);
    CheckpointWith(t, name, confirm, c, future, removed, refused);
    RemoveAllKeeps(t, Reversed(future));
    if AllLeaves(t.layers, future) { StackIs(removed, c, name); }
  }

  /**
   When a checkpoint goes through, in any tables: no layer lies after the current one, or all that
   do are leaves and it was confirmed; and the name fits and is free among the layers that stay. It
   leaves exactly those layers with their entries, the current one frozen, and the new one on it.
   */
  lemma CheckpointSucceedsExactly(t: Tables, name: string, confirm: bool)
    requires Constraints(t) && t.current.Some?
    ensures var (t', r), c := Checkpoint(t, name, confirm), t.current.value;
            var future := Future(t.layers, c);
            var rest := Pruned(t, IdSet(future));
            && (r.Ok? <==> && (future == [] || (confirm && AllLeaves(t.layers, future)))
                           && NameFree(rest.layers, name))
            && (r.Ok? ==> r == Ok(t.nextId) && t' == Stacked(rest, c, name))
  {
    CheckpointIs(t, name, confirm);
  }

  // ---------- what a checkpoint takes ----------

  lemma FrozenHas(t: Tables, c: LayerId, id: LayerId)
    ensures HasId(SetReadonly(t, c).layers, id) <==> HasId(t.layers, id)
  {
    var rows, frozen := t.layers, SetReadonly(t, c).layers;
    assert forall i | 0 <= i < |rows| :: frozen[i].id == rows[i].id;
    if HasId(rows, id) {
      var i :| 0 <= i < |rows| && rows[i].id == id;
      assert frozen[i].id == id;
    }
  }

  lemma StackedHas(t: Tables, c: LayerId, name: string, id: LayerId)
    ensures HasId(Stacked(t, c, name).layers, id) <==> HasId(t.layers, id) || id == t.nextId
  {
    FrozenHas(t, c, id);
    var frozen, more := SetReadonly(t, c).layers, Stacked(t, c, name).layers;
    if HasId(frozen, id) {
      var i :| 0 <= i < |frozen| && frozen[i].id == id;
      assert more[i].id == id;
    }
    assert more[|frozen|].id == t.nextId;
  }

  lemma TakenIs(t: Tables, c: LayerId, l: Layer)
    requires Constraints(t) && l in t.layers
    ensures l.id in Taken(t.layers, c) <==> OlderThanParents(t.layers, Future(t.layers, c), l)
  {
    var todo, future := Doomed(t.layers, c), Future(t.layers, c);
    DoomedIs(t.layers, c);
    DoomedInOrder(t.layers, c);
    LeavesAre(t.layers, todo, l);
    assert OlderThanParents(t.layers, future, l) <==> OlderThanParents(t.layers, todo, l);
    if l.id in Taken(t.layers, c) { OneRow(t, c, l); }
  }

  lemma OneRow(t: Tables, c: LayerId, l: Layer)
    requires Constraints(t) && l in t.layers && l.id in Taken(t.layers, c)
    ensures l in Leaves(t.layers, Doomed(t.layers, c))
  {
    var todo := Doomed(t.layers, c);
    var m :| m in Leaves(t.layers, todo) && m.id == l.id;
    LeavesShape(t.layers, todo);
    WhereMembers(t.layers, FutureTest(t.layers, c));
    assert m in todo;
    var i :| 0 <= i < |t.layers| && t.layers[i] == m;
    var j :| 0 <= j < |t.layers| && t.layers[j] == l;
  }

  /**
   What a checkpoint removes, whether it goes through or not: the layers of the future that are
   older than every layer there with a child. With confirmation missing it removes nothing.
   */
  lemma CheckpointTakes(t: Tables, name: string, confirm: bool, l: Layer)
    requires Constraints(t) && t.current.Some? && l in t.layers
    ensures var c := t.current.value;
            var future := Future(t.layers, c);
            !HasId(Checkpoint(t, name, confirm).0.layers, l.id)
            <==> confirm && OlderThanParents(t.layers, future, l)
  {
    var c := t.current.value;
    var future := Future(t.layers, c);
    var k :| 0 <= k < |t.layers| && t.layers[k] == l;
    assert HasId(t.layers, l.id) && l.id != t.nextId;
    CheckpointIs(t, name, confirm);
    FutureRemoval(t, c);
    TakenIs(t, c, l);
    PrunedHas(t, Taken(t.layers, c), l.id);
    FrozenHas(Pruned(t, Taken(t.layers, c)), c, l.id);
    StackedHas(Pruned(t, Taken(t.layers, c)), c, name, l.id);
  }

  predicate OldestHasChild(rows: seq<Layer>, todo: seq<Layer>) {
    todo != [] && IsParent(rows, todo[0].id)
  }

  /** The removal changes nothing exactly when there is no future or its oldest layer has a child. */
  lemma TakenNothing(t: Tables, c: LayerId)
    requires Constraints(t) && t.current == Some(c)
    ensures var todo, left := Doomed(t.layers, c), Pruned(t, Taken(t.layers, c));
            if todo == [] || OldestHasChild(t.layers, todo) then left == t
            else HasId(t.layers, todo[0].id) && !HasId(left.layers, todo[0].id)
  {
    var todo := Doomed(t.layers, c);
    if todo == [] || OldestHasChild(t.layers, todo) {
      PruneNothing(t);
      assert IdSet([]) == {};
    } else {
      DoomedRemovable(t, c);
      assert todo[0] in Leaves(t.layers, todo);
      PrunedHas(t, Taken(t.layers, c), todo[0].id);
      var k :| 0 <= k < |t.layers| && t.layers[k] == todo[0];
    }
  }

  /**
   A failed checkpoint, exactly. Without confirmation nothing changes. When some future layer has
   a child, the layers before the oldest such one are gone with their entries. With a bad name the
   whole future is gone and the current layer frozen.
   */
  lemma FailedCheckpointLeaves(t: Tables, name: string, confirm: bool)
    requires Constraints(t) && t.current.Some? && Checkpoint(t, name, confirm).1.Err?
    ensures var (t', r), c := Checkpoint(t, name, confirm), t.current.value;
            var future := Future(t.layers, c);
            && (t', r) == (if future != [] && !confirm then (t, Err(NeedsConfirmation(c, future)))
                           else if !AllLeaves(t.layers, future)
                           then (Pruned(t, Taken(t.layers, c)), Err(Storage(ForeignKeyViolation)))
                           else (SetReadonly(Pruned(t, IdSet(future)), c), Err(Storage(NameRefusal(name)))))
            && (t' == t <==> || (future != [] && !confirm)
                             || OldestHasChild(t.layers, Doomed(t.layers, c))
                             || (future == [] && t.layers[Find(t.layers, c).value].readonly))
  {
    var c := t.current.value;
    CheckpointIs(t, name, confirm);
    FutureRemoval(t, c);
    DoomedIs(t.layers, c);
    TakenNothing(t, c);
    FrozenIs(t, Find(t.layers, c).value);
    if Doomed(t.layers, c) != [] {
      FrozenHas(Pruned(t, Taken(t.layers, c)), c, Doomed(t.layers, c)[0].id);
    }
  }

  // ---------- linear histories ----------

  lemma LinearParents(t: Tables, j: nat)
    requires Linear(t) && j < |t.layers|
    ensures IsParent(t.layers, t.layers[j].id) <==> j + 1 < |t.layers|
  {
    if IsParent(t.layers, t.layers[j].id) {
      var i :| 0 <= i < |t.layers| && t.layers[i].parent == Some(t.layers[j].id);
      assert LinkedRow(t.layers, i);
    }
    if j + 1 < |t.layers| { assert LinkedRow(t.layers, j + 1); }
  }

  /** In a history the manager alone made, the future is removable exactly when it is at most one layer. */
  lemma LinearFutureLeaves(t: Tables, k: nat)
    requires Linear(t) && k < |t.layers|
    ensures AllLeaves(t.layers, Future(t.layers, t.layers[k].id)) <==> |t.layers| <= k + 2
  {
    var after := t.layers[k + 1..];
    LinearFuture(t.layers, k);
    forall l ensures l in Reversed(after) <==> l in after {
      ReversedMembers(after, l);
    }
    forall i | 0 <= i < |after| ensures IsParent(t.layers, after[i].id) <==> i + 1 < |after| {
      LinearParents(t, k + 1 + i);
    }
    if |after| >= 2 { assert after[0] in after; }
  }

  // ---------- removal, newest first ----------

  /** Every child of the layer at `i` is listed before it. */
  ghost predicate ChildrenListed(rows: seq<Layer>, todo: seq<Layer>, i: nat)
    requires i < |todo|
  {
    forall k: nat | k < |rows| && rows[k].parent == Some(todo[i].id) :: exists j: nat | j < i :: todo[j] == rows[k]
  }

  ghost predicate ChildrenFirst(t: Tables, todo: seq<Layer>) {
    && Constraints(t)
    && (forall i: nat | i < |todo| ::
          todo[i] in t.layers && t.current != Some(todo[i].id) && ChildrenListed(t.layers, todo, i))
    && (forall i, j | 0 <= i < j < |todo| :: todo[i].id != todo[j].id)
  }

  lemma ChildrenStayListed(t: Tables, todo: seq<Layer>, i: nat)
    requires ChildrenFirst(t, todo) && i + 1 < |todo|
    ensures ChildrenListed(Pruned(t, {todo[0].id}).layers, todo[1..], i)
  {
    var rows, rest := Pruned(t, {todo[0].id}).layers, todo[1..];
    WhereMembers(t.layers, LayerKept({todo[0].id}));
    assert ChildrenListed(t.layers, todo, i + 1);
    forall k: nat | k < |rows| && rows[k].parent == Some(rest[i].id)
      ensures exists j: nat | j < i :: rest[j] == rows[k]
    {
      assert rows[k] in rows;
      var k': nat :| k' < |t.layers| && t.layers[k'] == rows[k];
      var j: nat :| j < i + 1 && todo[j] == t.layers[k'];
      assert rest[j - 1] == rows[k];
    }
  }

  lemma FirstLeafGone(t: Tables, todo: seq<Layer>)
    requires ChildrenFirst(t, todo) && todo != []
    ensures Remove(t, todo[0].id) == Ok(Pruned(t, {todo[0].id}))
    ensures ChildrenFirst(Pruned(t, {todo[0].id}), todo[1..])
  {
    var id, rest := todo[0].id, todo[1..];
    var t1 := Pruned(t, {id});
    assert ChildrenListed(t.layers, todo, 0);
    var k :| 0 <= k < |t.layers| && t.layers[k] == todo[0];
    RemoveLeaf(t, id);
    RemoveKeeps(t, id);
    WhereMembers(t.layers, LayerKept({id}));
    forall i: nat | i < |rest|
      ensures rest[i] in t1.layers && t1.current != Some(rest[i].id) && ChildrenListed(t1.layers, rest, i)
    {
      assert rest[i] == todo[i + 1];
      ChildrenStayListed(t, todo, i);
    }
  }

  lemma {:induction false} ChildrenFirstRemoval(t: Tables, todo: seq<Layer>)
    requires ChildrenFirst(t, todo)
    ensures RemoveAll(t, todo) == (Pruned(t, IdSet(todo)), None)
    decreases todo
  {
    if todo == [] {
      PruneNothing(t);
      assert IdSet([]) == {};
    } else {
      FirstLeafGone(t, todo);
      ChildrenFirstRemoval(Pruned(t, {todo[0].id}), todo[1..]);
      IdSetCons(todo[0], todo[1..]);
      PruneTwice(t, {todo[0].id}, IdSet(todo[1..]));
      assert todo == [todo[0]] + todo[1..];
    }
  }

  lemma ChildOfFuture(rows: seq<Layer>, c: LayerId, k: nat, l: Layer)
    requires Forest(rows) && k < |rows| && l in Future(rows, c) && rows[k].parent == Some(l.id)
    ensures rows[k] in Future(rows, c)
  {
    FutureIsDescendants(rows, c, l);
    FutureIsDescendants(rows, c, rows[k]);
    var p :| |p| >= 2 && p[0] == l.id && p[|p| - 1] == c && ParentRun(rows, p);
    var q := [rows[k].id] + p;
    forall n: nat | n < |q| - 1 ensures ParentOf(rows, q[n], q[n + 1]) {
      if n > 0 { assert ParentOf(rows, p[n - 1], p[n - 1 + 1]); }
    }
    assert rows[k] in rows && ParentRun(rows, q) && q[|q| - 1] == c;
  }

  lemma ReversedFalls(rows: seq<Layer>, todo: seq<Layer>)
    requires InOrder(rows, todo)
    ensures RanksFall(rows, Reversed(todo))
  {
  }

  lemma FutureRanksFall(rows: seq<Layer>, c: LayerId)
    requires Forest(rows)
    ensures RanksFall(rows, Future(rows, c))
  {
    DoomedIs(rows, c);
    DoomedInOrder(rows, c);
    ReversedFalls(rows, Doomed(rows, c));
  }

  /** A child in the future is listed before its parent. */
  lemma ChildBefore(rows: seq<Layer>, c: LayerId, k: nat, i: nat) returns (j: nat)
    requires Forest(rows) && i < |Future(rows, c)|
    requires k < |rows| && rows[k].parent == Some(Future(rows, c)[i].id)
    ensures j < i && Future(rows, c)[j] == rows[k]
  {
    var future := Future(rows, c);
    ChildOfFuture(rows, c, k, future[i]);
    j :| 0 <= j < |future| && future[j] == rows[k];
    ParentRank(rows, k);
    FutureRanksFall(rows, c);
  }

  lemma FutureListsChildren(rows: seq<Layer>, c: LayerId, i: nat)
    requires Forest(rows) && i < |Future(rows, c)|
    ensures ChildrenListed(rows, Future(rows, c), i)
  {
    forall k: nat | k < |rows| && rows[k].parent == Some(Future(rows, c)[i].id)
      ensures exists j: nat | j < i :: Future(rows, c)[j] == rows[k]
    {
      var j := ChildBefore(rows, c, k, i);
    }
  }

  lemma FutureMember(rows: seq<Layer>, c: LayerId, i: nat)
    requires Forest(rows) && i < |Future(rows, c)|
    ensures Future(rows, c)[i] in rows && Future(rows, c)[i].id != c
  {
    var l := Future(rows, c)[i];
    assert l in Future(rows, c);
    WhereMembers(Reversed(rows), FutureTest(rows, c));
    ReversedMembers(rows, l);
  }

  lemma FutureHasChildrenFirst(t: Tables, c: LayerId)
    requires Constraints(t) && t.current == Some(c)
    ensures ChildrenFirst(t, Future(t.layers, c))
  {
    var future := Future(t.layers, c);
    FutureRanksFall(t.layers, c);
    forall i: nat | i < |future|
      ensures future[i] in t.layers && t.current != Some(future[i].id) && ChildrenListed(t.layers, future, i)
    {
      FutureMember(t.layers, c, i);
      FutureListsChildren(t.layers, c, i);
    }
  }

  /** Newest first, the order of the listing itself, any future could be removed, and exactly it would go. */
  lemma NewestFirstAlwaysSucceeds(t: Tables, c: LayerId)
    requires Constraints(t) && t.current == Some(c)
    ensures RemoveAll(t, Future(t.layers, c)) == (Pruned(t, IdSet(Future(t.layers, c))), None)
  {
    FutureHasChildrenFirst(t, c);
    ChildrenFirstRemoval(t, Future(t.layers, c));
  }

  // ---------- deletion of a layer ----------

  lemma ChildIsFuture(rows: seq<Layer>, k: nat, id: LayerId)
    requires Forest(rows) && k < |rows| && rows[k].parent == Some(id)
    ensures rows[k] in Future(rows, id)
  {
    FutureIsDescendants(rows, id, rows[k]);
    var p := [rows[k].id, id];
    assert ParentOf(rows, p[0], p[1]);
    assert ParentRun(rows, p) && rows[k] in rows;
  }

  /** A layer has a future exactly when it has a child. */
  lemma NoFutureIsLeaf(rows: seq<Layer>, id: LayerId)
    requires Forest(rows)
    ensures Future(rows, id) == [] <==> !IsParent(rows, id)
  {
    if IsParent(rows, id) {
      var k: nat :| k < |rows| && rows[k].parent == Some(id);
      ChildIsFuture(rows, k, id);
    }
    if Future(rows, id) != [] {
      var l := Future(rows, id)[0];
      FutureIsDescendants(rows, id, l);
      var p :| |p| >= 2 && p[0] == l.id && p[|p| - 1] == id && ParentRun(rows, p);
      assert ParentOf(rows, p[|p| - 2], p[|p| - 2 + 1]);
    }
  }

  /** The answer of a deletion: only a leaf that is not both the current layer and a root can go. */
  function DropAnswer(t: Tables, id: LayerId): Outcome {
    match Find(t.layers, id)
    case None => Err(LayerNotFound(id))
    case Some(i) =>
      if IsParent(t.layers, id) then Err(HasChildLayers(id))
      else if t.current == Some(id) && t.layers[i].parent.None? then Err(InvalidLayerChain)
      else Ok(id)
  }

  /**
   The deletion of a layer, exactly, in any tables. It is never refused by the database: the layer
   goes with its entries, its parent becomes current if it was, and nothing else changes.
   */
  lemma DropSucceedsExactly(t: Tables, id: LayerId)
    requires Constraints(t)
    ensures var r := DropAnswer(t, id); Drop(t, id) == (if r.Ok? then Pruned(StepBack(t, id), {id}) else t, r)
  {
    NoFutureIsLeaf(t.layers, id);
    if DropAnswer(t, id).Ok? {
      var i, moved := Find(t.layers, id).value, StepBack(t, id);
      if t.layers[i].parent.Some? { ParentRank(t.layers, i); }
      assert Constraints(moved);
      RemoveLeaf(moved, id);
    }
  }

  lemma PrunedByRows(t: Tables, i: nat)
    requires DistinctIds(t.layers) && i < |t.layers|
    ensures var t' := Pruned(t, {t.layers[i].id});
            && t'.layers == t.layers[..i] + t.layers[i + 1..]
            && forall e :: e in t'.entries <==> e in t.entries && e.layer != t.layers[i].id
  {
    RowDropped(t.layers, i);
    WhereMembers(t.entries, EntryKept({t.layers[i].id}));
  }

  /**
   A deletion by its rows. It goes through exactly for a layer that no layer has as its parent and
   that is not both current and a root. Then that row is gone, and the entries of that layer, and
   no other row or entry; the current layer is the parent if it was this one.
   */
  lemma DropByRows(t: Tables, id: LayerId, i: nat)
    requires Constraints(t) && i < |t.layers| && t.layers[i].id == id
    ensures var (t', r) := Drop(t, id);
            && (r.Ok? <==> && (forall k | 0 <= k < |t.layers| :: t.layers[k].parent != Some(id))
                           && (t.current == Some(id) ==> t.layers[i].parent.Some?))
            && (r.Ok? ==> && r == Ok(id) && t'.layers == t.layers[..i] + t.layers[i + 1..]
                          && (forall e :: e in t'.entries <==> e in t.entries && e.layer != id)
                          && t'.current == if t.current == Some(id) then t.layers[i].parent else t.current)
            && (r.Err? ==> t' == t)
            && (r == Err(HasChildLayers(id)) <==> exists k | 0 <= k < |t.layers| :: t.layers[k].parent == Some(id))
            && t'.inodes == t.inodes && t'.nextId == t.nextId
  {
    IndexIs(t.layers, i);
    DropSucceedsExactly(t, id);
    PrunedByRows(StepBack(t, id), i);
  }

  /** A layer that is not there cannot be deleted. */
  lemma DropMissing(t: Tables, id: LayerId)
    requires Forest(t.layers) && forall k | 0 <= k < |t.layers| :: t.layers[k].id != id
    ensures Drop(t, id) == (t, Err(LayerNotFound(id)))
  {
  }
}
