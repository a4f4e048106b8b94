/**
 What each step of src/layer/manager.rs does to one tenant's tables, as functions on values,
 and what every run of such steps keeps.
 */
module History {
  import opened Prelude
  import opened LayerTable
  import opened Rows

  datatype ManagerError =
    | LayerNotFound(layer: LayerId)
    | NoCurrentLayer
    | ReadonlyLayer(layer: LayerId)
    | HasChildLayers(layer: LayerId)
    | NeedsConfirmation(at: LayerId, future: seq<Layer>)
    | InvalidLayerChain
    | Storage(cause: SqlError)

  type Outcome = Result<LayerId, ManagerError>

  // ---------- the steps ----------

  predicate IsFuture(rows: seq<Layer>, l: Layer, of: LayerId)
    requires Forest(rows)
  {
    l.id != of && l.parent.Some? && InChain(Chain(rows, l.id), of)
  }

  function FutureTest(rows: seq<Layer>, of: LayerId): Layer -> bool
    requires Forest(rows)
  {
    l => IsFuture(rows, l, of)
  }

  function FutureAmong(rows: seq<Layer>, todo: seq<Layer>, of: LayerId): seq<Layer>
    requires Forest(rows)
  {
    Where(todo, FutureTest(rows, of))
  }

  /** The layers after `of`, in the listing's order: newest first. The later sort has a constant key. */
  function Future(rows: seq<Layer>, of: LayerId): seq<Layer>
    requires Forest(rows)
  {
    FutureAmong(rows, Reversed(rows), of)
  }

  /** Removal of `todo` from the front, stopping at the first refusal. */
  function RemoveAll(t: Tables, todo: seq<Layer>): (Tables, Option<SqlError>)
    decreases todo
  {
    if todo == [] then (t, None)
    else
      match Remove(t, todo[0].id)
      case Err(e) => (t, Some(e))
      case Ok(t') => RemoveAll(t', todo[1..])
  }

  function Initialize(t: Tables): (Tables, Outcome) {
    if t.current.Some? && HasId(t.layers, t.current.value) then (t, Ok(t.current.value))
    else
      match Insert(t, None, "base", None, false)
      case Err(e) => (t, Err(Storage(e)))
      case Ok(t') => (t'.(current := Some(t.nextId)), Ok(t.nextId))
  }

  function Record(t: Tables, inode: InodeId, path: string, change: ChangeType): (Tables, Outcome) {
    if t.current.None? then (t, Err(NoCurrentLayer))
    else
      var c := t.current.value;
      match Find(t.layers, c)
      case None => (t, Err(LayerNotFound(c)))
      case Some(i) =>
        if t.layers[i].readonly then (t, Err(ReadonlyLayer(c)))
        else
          match Upsert(t, c, inode, path, change)
          case Err(e) => (t, Err(Storage(e)))
          case Ok(t') => (t', Ok(c))
  }

  /** What is left of a checkpoint once the future is gone: freeze the current layer, then stack a new one. */
  function Stack(t: Tables, c: LayerId, name: string): (Tables, Outcome) {
    var frozen := SetReadonly(t, c);
    match Insert(frozen, Some(c), name, None, false)
    case Err(e) => (frozen, Err(Storage(e)))
    case Ok(t') => (t'.(current := Some(frozen.nextId)), Ok(frozen.nextId))
  }

  function Checkpoint(t: Tables, name: string, confirm: bool): (Tables, Outcome)
    requires Forest(t.layers)
  {
    if t.current.None? then (t, Err(NoCurrentLayer))
    else
      var c := t.current.value;
      if !HasId(t.layers, c) then (t, Err(LayerNotFound(c)))
      else
        var future := Future(t.layers, c);
        if future != [] && !confirm then (t, Err(NeedsConfirmation(c, future)))
        else
          var (t', refused) := RemoveAll(t, Reversed(future));
          if refused.Some? then (t', Err(Storage(refused.value))) else Stack(t', c, name)
  }

  function Switch(t: Tables, target: LayerId): (Tables, Outcome) {
    if HasId(t.layers, target) then (t.(current := Some(target)), Ok(target)) else (t, Err(LayerNotFound(target)))
  }

  function Drop(t: Tables, id: LayerId): (Tables, Outcome)
    requires Forest(t.layers)
  {
    match Find(t.layers, id)
    case None => (t, Err(LayerNotFound(id)))
    case Some(i) =>
      if Future(t.layers, id) != [] then (t, Err(HasChildLayers(id)))
      else if t.current == Some(id) && t.layers[i].parent.None? then (t, Err(InvalidLayerChain))
      else
        var moved := if t.current == Some(id) then t.(current := t.layers[i].parent) else t;
        match Remove(moved, id)
        case Err(e) => (moved, Err(Storage(e)))
        case Ok(t') => (t', Ok(id))
  }

  /** The future of a layer is exactly its proper descendants, in any parent table without cycles. */
  lemma FutureIsDescendants(rows: seq<Layer>, of: LayerId, l: Layer)
    requires Forest(rows)
    ensures l in Future(rows, of) <==> l in rows && Descends(rows, l.id, of)
  {
    WhereMembers(Reversed(rows), FutureTest(rows, of));
    if l in rows {
      var i :| 0 <= i < |rows| && rows[i] == l;
      assert Reversed(rows)[|rows| - 1 - i] == l;
      assert HasId(rows, l.id) && Find(rows, l.id) == Some(i);
      ChainIsAncestry(rows, l.id, of);
      if Descends(rows, l.id, of) { ChainMeetsRunHasParent(rows, i, of); }
    }
  }

  lemma ChainMeetsRunHasParent(rows: seq<Layer>, i: nat, a: LayerId)
    requires Forest(rows) && i < |rows| && Descends(rows, rows[i].id, a)
    ensures rows[i].parent.Some?
  {
    var p :| |p| >= 2 && p[0] == rows[i].id && p[|p| - 1] == a && ParentRun(rows, p);
    assert ParentOf(rows, p[0], p[1]);
  }

  // ---------- runs ----------

  datatype Op =
    | DoInitialize
    | DoRecord(inode: InodeId, path: string, change: ChangeType)
    | DoCheckpoint(name: string, confirm: bool)
    | DoSwitch(target: LayerId)
    | DoDrop(id: LayerId)
    | NewInode(inode: InodeId)   // outside the manager: an inode row appears

  /**
   The tables LayerManager alone can produce: the rows in creation order are one parent chain,
   every layer but the newest is read-only, and the current layer is one of them.
   */
  ghost predicate Linear(t: Tables) {
    && Constraints(t)
    && (forall i: nat | i < |t.layers| :: LinkedRow(t.layers, i))
    && (t.current.None? <==> t.layers == [])
  }

  ghost predicate LinkedRow(rows: seq<Layer>, i: nat)
    requires i < |rows|
  {
    && rows[i].parent == (if i == 0 then None else Some(rows[i - 1].id))
    && (i + 1 < |rows| ==> rows[i].readonly)
    && rows[i].mount == None
  }

  function Apply(t: Tables, op: Op): (Tables, Outcome)
    requires Forest(t.layers)
  {
    match op
    case DoInitialize => Initialize(t)
    case DoRecord(inode, path, change) => Record(t, inode, path, change)
    case DoCheckpoint(name, confirm) => Checkpoint(t, name, confirm)
    case DoSwitch(target) => Switch(t, target)
    case DoDrop(id) => Drop(t, id)
    case NewInode(inode) => (t.(inodes := t.inodes + {inode}), Ok(0))
  }

  lemma IndexIs(rows: seq<Layer>, i: nat)
    requires DistinctIds(rows) && i < |rows|
    ensures Find(rows, rows[i].id) == Some(i)
  {
    assert HasId(rows, rows[i].id);
  }

  lemma {:induction false} LinearChain(rows: seq<Layer>, k: nat)
    requires Forest(rows) && k < |rows| && (forall i: nat | i < |rows| :: LinkedRow(rows, i))
    ensures Chain(rows, rows[k].id) == Reversed(rows[..k + 1])
  {
    IndexIs(rows, k);
    assert LinkedRow(rows, k);
    assert rows[..k + 1] == rows[..k] + [rows[k]];
    ReversedSnoc(rows[..k], rows[k]);
    if k > 0 {
      LinearChain(rows, k - 1);
    }
  }

  lemma LinearIsFuture(rows: seq<Layer>, k: nat, m: nat)
    requires Forest(rows) && k < |rows| && m < |rows| && (forall i: nat | i < |rows| :: LinkedRow(rows, i))
    ensures IsFuture(rows, rows[m], rows[k].id) <==> k < m
  {
    LinearChain(rows, m);
    assert LinkedRow(rows, m);
    var chain := Chain(rows, rows[m].id);
    assert forall j | 0 <= j < |chain| :: chain[j] == rows[m - j];
    if k < m {
      assert chain[m - k].id == rows[k].id;
    }
  }

  /** In a linear history the layers after row `k` are the rows after it, newest first. */
  lemma LinearFuture(rows: seq<Layer>, k: nat)
    requires Forest(rows) && k < |rows| && (forall i: nat | i < |rows| :: LinkedRow(rows, i))
    ensures Future(rows, rows[k].id) == Reversed(rows[k + 1..])
  {
    var all, cut := Reversed(rows), |rows| - 1 - k;
    forall i | 0 <= i < |all| ensures FutureTest(rows, rows[k].id)(all[i]) <==> i < cut {
      LinearIsFuture(rows, k, |rows| - 1 - i);
    }
    WherePrefix(all, FutureTest(rows, rows[k].id), cut, |all|);
    assert all[..|all|] == all;
    assert all[..cut] == Reversed(rows[k + 1..]);
  }

  // ---------- checkpoints, exactly ----------

  function CutNewest(t: Tables): Tables
    requires t.layers != []
  {
    var n := |t.layers| - 1;
    t.(layers := t.layers[..n], entries := WithoutLayer(t.entries, t.layers[n].id))
  }

  /** Removing the newest layer of a linear history, when it is not the current one. */
  lemma RemoveNewest(t: Tables)
    requires Linear(t) && t.layers != [] && t.current != Some(t.layers[|t.layers| - 1].id)
    ensures Remove(t, t.layers[|t.layers| - 1].id) == Ok(CutNewest(t))
  {
    var n := |t.layers| - 1;
    IndexIs(t.layers, n);
    assert t.layers[..n] + t.layers[n + 1..] == t.layers[..n];
    forall i | 0 <= i < |t.layers| ensures t.layers[i].parent != Some(t.layers[n].id) {
      assert LinkedRow(t.layers, i);
    }
  }

  /** A layer that is not the newest cannot be removed: its child still refers to it. */
  lemma RemoveOlder(t: Tables, i: nat)
    requires Linear(t) && i + 1 < |t.layers|
    ensures Remove(t, t.layers[i].id) == Err(ForeignKeyViolation)
  {
    IndexIs(t.layers, i);
    assert LinkedRow(t.layers, i + 1);
    assert t.layers[i + 1].parent == Some(t.layers[i].id);
  }

  /**
   What a checkpoint gives, by the number of layers after the current one, row `k`. The code
   removes the future oldest first, so with two or more future layers the first removal is
   already refused and nothing changes.
   */
  ghost predicate CheckpointGives(t: Tables, name: string, confirm: bool, k: nat, r: (Tables, Outcome))
    requires k < |t.layers|
  {
    var n, c := |t.layers|, t.layers[k].id;
    && (k + 1 == n ==> r == Stack(t, c, name))
    && (k + 1 < n && !confirm ==> r == (t, Err(NeedsConfirmation(c, Reversed(t.layers[k + 1..])))))
    && (k + 2 == n && confirm ==> r == Stack(CutNewest(t), c, name))
    && (k + 2 < n && confirm ==> r == (t, Err(Storage(ForeignKeyViolation))))
  }

  /** The deletion loop over the rows after row `k`, oldest first. */
  lemma RemoveAfter(t: Tables, k: nat)
    requires Linear(t) && k < |t.layers| && t.current == Some(t.layers[k].id)
    ensures var n, r := |t.layers|, RemoveAll(t, t.layers[k + 1..]);
            && (k + 1 == n ==> r == (t, None))
            && (k + 2 == n ==> r == (CutNewest(t), None))
            && (k + 2 < n ==> r == (t, Some(ForeignKeyViolation)))
  {
    var after := t.layers[k + 1..];
    if k + 2 == |t.layers| {
      assert after == [t.layers[k + 1]] && after[1..] == [];
      RemoveNewest(t);
      assert RemoveAll(CutNewest(t), after[1..]) == (CutNewest(t), None);
    } else if k + 2 < |t.layers| {
      assert after[0] == t.layers[k + 1];
      RemoveOlder(t, k + 1);
    }
  }

  lemma CheckpointWith(t: Tables, name: string, confirm: bool, c: LayerId, future: seq<Layer>,
                       removed: Tables, refused: Option<SqlError>)
    requires Forest(t.layers) && t.current == Some(c) && HasId(t.layers, c) && Future(t.layers, c) == future
    requires RemoveAll(t, Reversed(future)) == (removed, refused)
    ensures Checkpoint(t, name, confirm) == if future != [] && !confirm then (t, Err(NeedsConfirmation(c, future)))
                                            else if refused.Some? then (removed, Err(Storage(refused.value)))
                                            else Stack(removed, c, name)
  {
  }

  lemma CheckpointCases(t: Tables, name: string, confirm: bool, k: nat)
    requires Linear(t) && k < |t.layers| && t.current == Some(t.layers[k].id)
    ensures CheckpointGives(t, name, confirm, k, Checkpoint(t, name, confirm))
  {
    var after := t.layers[k + 1..];
    var future := Reversed(after);
    var (removed, refused) := RemoveAll(t, after);
    LinearFuture(t.layers, k);
    ReversedTwice(after);
    RemoveAfter(t, k);
    CheckpointWith(t, name, confirm, t.layers[k].id, future, removed, refused);
    assert |future| == |t.layers| - (k + 1);
  }

  lemma StackGrows(t: Tables, c: LayerId, name: string, k: nat)
    requires Forest(t.layers) && k < |t.layers| && c == t.layers[k].id
    ensures var frozen := t.layers[k := t.layers[k].(readonly := true)];
            Stack(t, c, name) == if !NameFree(t.layers, name)
                                 then (t.(layers := frozen), Err(Storage(NameRefusal(name))))
                                 else (t.(layers := frozen + [Layer(t.nextId, Some(c), name, false, None, false)],
                                          current := Some(t.nextId), nextId := t.nextId + 1), Ok(t.nextId))
  {
    IndexIs(t.layers, k);
    var frozen := SetReadonly(t, c).layers;
    assert frozen == t.layers[k := t.layers[k].(readonly := true)];
    assert frozen[k].id == c;
    if NameUsed(t.layers, name) {
      var i :| 0 <= i < |t.layers| && t.layers[i].name == name;
      assert frozen[i].name == name;
    }
    if i :| 0 <= i < |frozen| && frozen[i].name == name {
      assert t.layers[i].name == name;
    }
  }

  /**
   When a checkpoint goes through: at most one layer lies after the current one (and then only
   with confirmation), and the name fits and is free among the layers that stay. It then leaves
   exactly the layers up to the current one, frozen, plus the new one on top.
   */
  lemma CheckpointExact(t: Tables, name: string, confirm: bool, k: nat)
    requires Linear(t) && k < |t.layers| && t.current == Some(t.layers[k].id)
    ensures var (t', r) := Checkpoint(t, name, confirm);
            && (r.Ok? <==> (k + 1 == |t.layers| || (confirm && k + 2 == |t.layers|))
                           && NameFree(t.layers[..k + 1], name))
            && (r.Ok? ==> && t'.layers == t.layers[..k] + [t.layers[k].(readonly := true),
                                          Layer(t.nextId, Some(t.layers[k].id), name, false, None, false)]
                          && t'.current == Some(t.nextId))
  {
    CheckpointCases(t, name, confirm, k);
    CheckpointGivesExactly(t, name, confirm, k, Checkpoint(t, name, confirm));
  }

  lemma CheckpointGivesExactly(t: Tables, name: string, confirm: bool, k: nat, r: (Tables, Outcome))
    requires Linear(t) && k < |t.layers| && t.current == Some(t.layers[k].id)
    requires CheckpointGives(t, name, confirm, k, r)
    ensures r.1.Ok? <==> (k + 1 == |t.layers| || (confirm && k + 2 == |t.layers|))
                         && NameFree(t.layers[..k + 1], name)
    ensures r.1.Ok? ==> && r.0.layers == t.layers[..k] + [t.layers[k].(readonly := true),
                                         Layer(t.nextId, Some(t.layers[k].id), name, false, None, false)]
                        && r.0.current == Some(t.nextId)
  {
    if k + 1 == |t.layers| {
      assert t.layers[..k + 1] == t.layers;
      StackExact(t, t.layers[k].id, name, k);
    } else if k + 2 == |t.layers| && confirm {
      CutNewestKeeps(t);
      StackExact(CutNewest(t), t.layers[k].id, name, k);
    }
  }

  lemma StackExact(t: Tables, c: LayerId, name: string, k: nat)
    requires Forest(t.layers) && k + 1 == |t.layers| && c == t.layers[k].id
    ensures var (t', r) := Stack(t, c, name);
            && (r.Ok? <==> NameFree(t.layers, name))
            && (r.Ok? ==> && t'.layers == t.layers[..k] + [t.layers[k].(readonly := true),
                                          Layer(t.nextId, Some(c), name, false, None, false)]
                          && t'.current == Some(t.nextId))
  {
    StackGrows(t, c, name, k);
  }

  lemma FrozenIs(t: Tables, k: nat)
    requires DistinctIds(t.layers) && k < |t.layers|
    ensures SetReadonly(t, t.layers[k].id) == t.(layers := t.layers[k := t.layers[k].(readonly := true)])
    ensures SetReadonly(t, t.layers[k].id) == t <==> t.layers[k].readonly
  {
    IndexIs(t.layers, k);
    var frozen := t.layers[k := t.layers[k].(readonly := true)];
    assert t.layers[k].readonly ==> frozen == t.layers;
    assert frozen[k].readonly;
  }

  /** What a failed checkpoint leaves behind. */
  ghost predicate FailureLeaves(t: Tables, confirm: bool, k: nat, t': Tables)
    requires k < |t.layers|
  {
    t' == if k + 1 == |t.layers| then SetReadonly(t, t.layers[k].id)
          else if k + 2 == |t.layers| && confirm then CutNewest(t)
          else t
  }

  /**
   A failed checkpoint. On the newest layer it leaves that layer frozen; with one layer ahead and
   confirmation it has removed that layer; in every other case it changes nothing. So it changes
   nothing exactly when the newest layer was current and frozen already, when two or more layers
   lie ahead, or when confirmation is missing.
   */
  lemma FailedCheckpointExact(t: Tables, name: string, confirm: bool, k: nat)
    requires Linear(t) && k < |t.layers| && t.current == Some(t.layers[k].id)
    requires Checkpoint(t, name, confirm).1.Err?
    ensures var n, t' := |t.layers|, Checkpoint(t, name, confirm).0;
            && FailureLeaves(t, confirm, k, t')
            && (t' == t <==> (k + 1 == n && t.layers[k].readonly) || k + 2 < n || (k + 1 < n && !confirm))
  {
    CheckpointCases(t, name, confirm, k);
    FailureIs(t, name, confirm, k, Checkpoint(t, name, confirm));
  }

  lemma FailureIs(t: Tables, name: string, confirm: bool, k: nat, r: (Tables, Outcome))
    requires Linear(t) && k < |t.layers| && t.current == Some(t.layers[k].id)
    requires CheckpointGives(t, name, confirm, k, r) && r.1.Err?
    ensures FailureLeaves(t, confirm, k, r.0)
    ensures var n := |t.layers|;
            r.0 == t <==> (k + 1 == n && t.layers[k].readonly) || k + 2 < n || (k + 1 < n && !confirm)
  {
    var c := t.layers[k].id;
    FrozenIs(t, k);
    if k + 1 == |t.layers| {
      StackGrows(t, c, name, k);
    } else if k + 2 == |t.layers| && confirm {
      var cut := CutNewest(t);
      CutNewestKeeps(t);
      assert LinkedRow(t.layers, k);
      assert cut.layers[k] == t.layers[k];
      FrozenIs(cut, k);
      StackGrows(cut, c, name, k);
      assert |cut.layers| < |t.layers|;
    }
  }

  /**
   The worst case: with one layer ahead, confirmation and a name that is too long or used among
   the layers that stay, the checkpoint fails, but the layer ahead and its entries are gone.
   */
  lemma LosesLayerOnBadName(t: Tables, name: string, k: nat)
    requires Linear(t) && k + 2 == |t.layers| && t.current == Some(t.layers[k].id)
    requires !NameFree(t.layers[..k + 1], name)
    ensures var (t', r), lost := Checkpoint(t, name, true), t.layers[k + 1].id;
            && r == Err(Storage(NameRefusal(name)))
            && t'.layers == t.layers[..k + 1] && !HasId(t'.layers, lost)
            && t'.entries == WithoutLayer(t.entries, lost) && t'.current == t.current
  {
    CheckpointCases(t, name, true, k);
    CutNewestKeeps(t);
    StackGrows(CutNewest(t), t.layers[k].id, name, k);
    CheckpointExact(t, name, true, k);
    FailedCheckpointExact(t, name, true, k);
  }

  lemma CutNewestKeeps(t: Tables)
    requires Linear(t) && |t.layers| >= 2 && t.current != Some(t.layers[|t.layers| - 1].id)
    ensures Linear(CutNewest(t))
  {
    RemoveNewest(t);
    RemoveKeeps(t, t.layers[|t.layers| - 1].id);
    forall i: nat | i < |t.layers| - 1 ensures LinkedRow(CutNewest(t).layers, i) {
      assert LinkedRow(t.layers, i);
    }
  }

  /** Whatever layers are removed, in whatever order, no reference dangles at the end or at a refusal. */
  lemma {:induction false} RemoveAllKeeps(t: Tables, todo: seq<Layer>)
    requires Constraints(t)
    ensures Constraints(RemoveAll(t, todo).0)
    decreases todo
  {
    if todo != [] && Remove(t, todo[0].id).Ok? {
      RemoveKeeps(t, todo[0].id);
      RemoveAllKeeps(Remove(t, todo[0].id).value, todo[1..]);
    }
  }

  lemma {:induction false} RemoveNewestFirst(t: Tables, k: nat)
    requires Linear(t) && k < |t.layers| && t.current == Some(t.layers[k].id)
    ensures var (t', refused) := RemoveAll(t, Reversed(t.layers[k + 1..]));
            refused.None? && t'.layers == t.layers[..k + 1] && t'.current == t.current
    decreases |t.layers|
  {
    var n := |t.layers| - 1;
    var after := Reversed(t.layers[k + 1..]);
    if k == n {
      assert after == [] && t.layers[..k + 1] == t.layers;
    } else {
      var cut := CutNewest(t);
      RemoveNewest(t);
      CutNewestKeeps(t);
      assert cut.layers[..k + 1] == t.layers[..k + 1];
      assert after[0] == t.layers[n] && after[1..] == Reversed(cut.layers[k + 1..]);
      assert RemoveAll(t, after) == RemoveAll(cut, after[1..]);
      RemoveNewestFirst(cut, k);
    }
  }

  /** Newest first, the order of the listing itself, any number of future layers could be removed. */
  lemma NewestFirstSucceeds(t: Tables, k: nat)
    requires Linear(t) && k < |t.layers| && t.current == Some(t.layers[k].id)
    ensures var (t', refused) := RemoveAll(t, Future(t.layers, t.layers[k].id));
            refused.None? && t'.layers == t.layers[..k + 1] && t'.current == t.current
  {
    LinearFuture(t.layers, k);
    RemoveNewestFirst(t, k);
  }

  // ---------- deletion, exactly ----------

  /**
   What the deletion of row `k` gives: only the newest layer of a history of two or more goes,
   and deleting the current layer makes its parent current.
   */
  ghost predicate DropGives(t: Tables, k: nat, r: (Tables, Outcome))
    requires k < |t.layers|
  {
    var n, id := |t.layers|, t.layers[k].id;
    && (k + 1 < n ==> r == (t, Err(HasChildLayers(id))))
    && (k + 1 == n == 1 ==> r == (t, Err(InvalidLayerChain)))
    && (k + 1 == n >= 2 ==> r == (CutNewest(StepBack(t, id)), Ok(id)))
  }

  lemma DropExact(t: Tables, k: nat)
    requires Linear(t) && k < |t.layers|
    ensures DropGives(t, k, Drop(t, t.layers[k].id))
  {
    IndexIs(t.layers, k);
    assert LinkedRow(t.layers, k);
    NoFutureExactly(t.layers, k);
    if k + 1 == |t.layers| >= 2 {
      DropNewest(t);
    }
  }

  lemma DropNewest(t: Tables)
    requires Linear(t) && |t.layers| >= 2 && Future(t.layers, t.layers[|t.layers| - 1].id) == []
    ensures var id := t.layers[|t.layers| - 1].id; Drop(t, id) == (CutNewest(StepBack(t, id)), Ok(id))
  {
    var n := |t.layers| - 1;
    assert LinkedRow(t.layers, n);
    StepBackKeeps(t);
    StepBackRows(t, t.layers[n].id);
    RemoveNewest(StepBack(t, t.layers[n].id));
    DropWith(t, n);
  }

  lemma StepBackRows(t: Tables, id: LayerId)
    ensures StepBack(t, id) == t.(current := StepBack(t, id).current)
  {
  }

  lemma DropWith(t: Tables, k: nat)
    requires DistinctIds(t.layers) && k < |t.layers| && Forest(t.layers) && Future(t.layers, t.layers[k].id) == []
    requires t.layers[k].parent.Some?
    ensures var id := t.layers[k].id;
            Remove(StepBack(t, id), id).Ok? ==> Drop(t, id) == (Remove(StepBack(t, id), id).value, Ok(id))
  {
    IndexIs(t.layers, k);
  }

  lemma NoFutureExactly(rows: seq<Layer>, k: nat)
    requires Forest(rows) && k < |rows| && (forall i: nat | i < |rows| :: LinkedRow(rows, i))
    ensures Future(rows, rows[k].id) == [] <==> k + 1 == |rows|
  {
    LinearFuture(rows, k);
    assert |Reversed(rows[k + 1..])| == |rows| - (k + 1);
  }

  /** The current-layer row after it is moved off `id` to that layer's parent. */
  function StepBack(t: Tables, id: LayerId): Tables {
    match Find(t.layers, id)
    case None => t
    case Some(i) => if t.current == Some(id) then t.(current := t.layers[i].parent) else t
  }

  lemma StepBackKeeps(t: Tables)
    requires Linear(t) && |t.layers| >= 2
    ensures var id := t.layers[|t.layers| - 1].id; Linear(StepBack(t, id)) && StepBack(t, id).current != Some(id)
  {
    var n := |t.layers| - 1;
    IndexIs(t.layers, n);
    assert LinkedRow(t.layers, n);
    assert HasId(t.layers, t.layers[n - 1].id);
  }

  // ---------- recording ----------

  /** Some entry of the layer has the path. */
  predicate HasEntry(entries: seq<Entry>, layer: LayerId, path: string) {
    exists i | 0 <= i < |entries| :: entries[i].layer == layer && entries[i].path == path
  }

  /** The row of the layer is read-only. */
  ghost predicate Frozen(rows: seq<Layer>, id: LayerId) {
    exists i | 0 <= i < |rows| :: rows[i].id == id && rows[i].readonly
  }

  /**
   When a change is recorded: there is a current layer, it is not read-only, and the inode exists
   or the layer has an entry for the path already. The answer is the current layer. A refusal
   changes nothing, and is that of a read-only layer exactly when the current layer is one.
   */
  lemma RecordExactly(t: Tables, inode: InodeId, path: string, change: ChangeType)
    requires Constraints(t)
    ensures var (t', r) := Record(t, inode, path, change);
            && (r.Ok? <==> && t.current.Some? && !Frozen(t.layers, t.current.value)
                           && (inode in t.inodes || HasEntry(t.entries, t.current.value, path)))
            && (r.Ok? ==> r == Ok(t.current.value))
            && (r.Err? ==> t' == t)
            && (t.current.None? <==> r == Err(NoCurrentLayer))
            && (t.current.Some? ==>
                  && (r == Err(ReadonlyLayer(t.current.value)) <==> Frozen(t.layers, t.current.value))
                  && (r == Err(Storage(ForeignKeyViolation)) <==> r.Err? && !Frozen(t.layers, t.current.value)))
            && t'.layers == t.layers && t'.current == t.current && t'.inodes == t.inodes && t'.nextId == t.nextId
  {
    if t.current.Some? {
      var c := t.current.value;
      var k := Find(t.layers, c).value;
      assert Frozen(t.layers, c) <==> t.layers[k].readonly;
      assert FindEntry(t.entries, c, path).Some? <==> HasEntry(t.entries, c, path);
    }
  }

  /**
   What a recorded change leaves: one entry of the current layer for the path, with the change and
   the inode that was there first; every other entry as it was, and no other entry.
   */
  lemma RecordLeaves(t: Tables, inode: InodeId, path: string, change: ChangeType, e: Entry)
    requires Constraints(t) && Record(t, inode, path, change).1.Ok?
    ensures var t', c := Record(t, inode, path, change).0, t.current.value;
            if e.layer == c && e.path == path then
              (e in t'.entries <==> e.change == change && Before(t.entries, c, path, inode, e.inode))
            else (e in t'.entries <==> e in t.entries)
  {
    var c := t.current.value;
    var es, es' := t.entries, Record(t, inode, path, change).0.entries;
    match FindEntry(es, c, path)
    case None =>
    case Some(i) =>
      MovedEntry(es, i, change, e);
  }

  /** The inode a change of this path is recorded under: that of the entry already there, if any. */
  ghost predicate Before(entries: seq<Entry>, layer: LayerId, path: string, given: InodeId, kept: InodeId) {
    if HasEntry(entries, layer, path)
    then exists i | 0 <= i < |entries| ::
           entries[i].layer == layer && entries[i].path == path && entries[i].inode == kept
    else kept == given
  }

  lemma MovedEntry(es: seq<Entry>, i: nat, change: ChangeType, e: Entry)
    requires OneEntryPerPath(es) && i < |es|
    ensures e in es[..i] + es[i + 1..] + [es[i].(change := change)]
        <==> e == es[i].(change := change) || (e in es && e != es[i])
  {
    var others := es[..i] + es[i + 1..];
    assert es == es[..i] + [es[i]] + es[i + 1..];
    forall k | 0 <= k < |others| ensures others[k] != es[i] {
      assert others[k] == es[if k < i then k else k + 1];
    }
  }

  /** A switch answers the layer it was given, or that it is missing, and moves nothing but the current layer. */
  lemma SwitchAnswers(t: Tables, target: LayerId)
    ensures var (t', r) := Switch(t, target);
            && (r == Ok(target) <==> HasId(t.layers, target))
            && (r == Err(LayerNotFound(target)) <==> !HasId(t.layers, target))
            && t' == t.(current := if HasId(t.layers, target) then Some(target) else t.current)
  {
  }

  // ---------- initialising ----------

  /** Initialising finds the layer an earlier initialisation made, and changes nothing the second time. */
  lemma InitializeTwice(t: Tables)
    requires Linear(t)
    ensures var (t', r) := Initialize(t);
            && r.Ok? && t'.current == Some(r.value) && Initialize(t') == (t', r)
            && (t.layers == [] ==> t'.layers == [Layer(t.nextId, None, "base", false, None, false)])
  {
    InitializeKeeps(t);
    var t' := Initialize(t).0;
    if t.layers == [] { assert t'.layers[0].id == t'.current.value; }
  }

  // ---------- linear histories stay linear ----------

  lemma StackKeeps(t: Tables, name: string)
    requires Linear(t) && t.layers != [] && t.current == Some(t.layers[|t.layers| - 1].id)
    ensures var t' := Stack(t, t.current.value, name).0; Linear(t') && t'.layers != [] && t.nextId <= t'.nextId
  {
    var n := |t.layers|;
    var c := t.current.value;
    var (t', r) := Stack(t, c, name);
    StackGrows(t, c, name, n - 1);
    var frozen := SetReadonly(t, c);
    IndexIs(t.layers, n - 1);
    SetReadonlyKeeps(t, c);
    if r.Ok? {
      InsertKeeps(frozen, Some(c), name, None, false);
      assert t'.layers[n].id == t'.current.value;
    }
    forall i: nat | i < |t'.layers| ensures LinkedRow(t'.layers, i) {
      if i < n { assert LinkedRow(t.layers, i); }
    }
  }

  lemma CheckpointGivesLinear(t: Tables, name: string, confirm: bool, k: nat, r: (Tables, Outcome))
    requires Linear(t) && k < |t.layers| && t.current == Some(t.layers[k].id)
    requires CheckpointGives(t, name, confirm, k, r)
    ensures Linear(r.0) && r.0.layers != [] && t.nextId <= r.0.nextId
  {
    if k + 1 == |t.layers| {
      StackKeeps(t, name);
    } else if k + 2 == |t.layers| && confirm {
      CutNewestKeeps(t);
      StackKeeps(CutNewest(t), name);
    }
  }

  lemma CheckpointKeeps(t: Tables, name: string, confirm: bool)
    requires Linear(t)
    ensures var t' := Checkpoint(t, name, confirm).0;
            Linear(t') && t.nextId <= t'.nextId && (t.layers != [] ==> t'.layers != [])
  {
    if t.current.Some? {
      var k := Find(t.layers, t.current.value).value;
      CheckpointCases(t, name, confirm, k);
      CheckpointGivesLinear(t, name, confirm, k, Checkpoint(t, name, confirm));
    }
  }

  lemma InitializeKeeps(t: Tables)
    requires Linear(t)
    ensures Linear(Initialize(t).0) && Initialize(t).1.Ok? && Initialize(t).0.layers != []
  {
    if t.current.None? {
      InsertKeeps(t, None, "base", None, false);
      var t' := Initialize(t).0;
      assert t'.layers[0].id == t'.current.value;
      assert LinkedRow(t'.layers, 0);
    }
  }

  lemma RecordKeeps(t: Tables, inode: InodeId, path: string, change: ChangeType)
    requires Linear(t)
    ensures Linear(Record(t, inode, path, change).0)
  {
    if t.current.Some? && Upsert(t, t.current.value, inode, path, change).Ok? {
      UpsertKeeps(t, t.current.value, inode, path, change);
    }
  }

  lemma DropGivesLinear(t: Tables, k: nat, r: (Tables, Outcome))
    requires Linear(t) && k < |t.layers| && DropGives(t, k, r)
    ensures Linear(r.0) && r.0.layers != [] && t.nextId == r.0.nextId
  {
    if k + 1 == |t.layers| >= 2 {
      StepBackKeeps(t);
      CutNewestKeeps(StepBack(t, t.layers[k].id));
    }
  }

  lemma DropKeeps(t: Tables, id: LayerId)
    requires Linear(t)
    ensures var t' := Drop(t, id).0; Linear(t') && t.nextId == t'.nextId && (t.layers != [] ==> t'.layers != [])
  {
    if HasId(t.layers, id) {
      var k := Find(t.layers, id).value;
      DropExact(t, k);
      DropGivesLinear(t, k, Drop(t, id));
    }
  }

  lemma StepKeeps(t: Tables, op: Op)
    requires Linear(t)
    ensures Linear(Apply(t, op).0)
    ensures t.layers != [] ==> Apply(t, op).0.layers != []
    ensures t.nextId <= Apply(t, op).0.nextId
  {
    match op
    case DoInitialize => InitializeKeeps(t);
    case DoRecord(inode, path, change) => RecordKeeps(t, inode, path, change);
    case DoCheckpoint(name, confirm) => CheckpointKeeps(t, name, confirm);
    case DoSwitch(target) =>
    case DoDrop(id) => DropKeeps(t, id);
    case NewInode(inode) =>
  }

  /** The tables after a run of steps. */
  ghost function Run(t: Tables, ops: seq<Op>): (t': Tables)
    requires Linear(t)
    ensures Linear(t') && (t.layers != [] ==> t'.layers != [])
    decreases ops
  {
    if ops == [] then t
    else
      StepKeeps(t, ops[0]);
      Run(Apply(t, ops[0]).0, ops[1..])
  }

  /**
   From an empty tenant, whatever the steps: the history is one parent chain from a single base,
   it has a current layer as soon as it has any, and once initialised it is never empty again.
   */
  lemma HistoryIsLinear(ops: seq<Op>)
    ensures Linear(EMPTY)
    ensures var t := Run(EMPTY, ops);
            && (t.layers != [] ==> t.layers[0].parent == None)
            && (forall i | 0 < i < |t.layers| :: t.layers[i].parent == Some(t.layers[i - 1].id))
            && (forall i | 0 <= i < |t.layers| - 1 :: t.layers[i].readonly)
            && DistinctIds(t.layers)
            && (DoInitialize in ops ==> t.layers != [])
            && (t.layers != [] ==> t.current.Some? && HasId(t.layers, t.current.value))
  {
    var t := Run(EMPTY, ops);
    if DoInitialize in ops {
      OnceInitialised(EMPTY, ops);
    }
    forall i | 0 < i < |t.layers| ensures t.layers[i].parent == Some(t.layers[i - 1].id) {
      assert LinkedRow(t.layers, i);
    }
    forall i | 0 <= i < |t.layers| - 1 ensures t.layers[i].readonly {
      assert LinkedRow(t.layers, i);
    }
    if t.layers != [] { assert LinkedRow(t.layers, 0); }
  }

  // ---------- histories with layers ahead are real ----------

  const BASE := Layer(0, None, "base", true, None, false)

  lemma RunTwo(t: Tables, a: Op, b: Op)
    requires Linear(t)
    ensures Linear(Apply(t, a).0)
    ensures Run(t, [a, b]) == Apply(Apply(t, a).0, b).0
  {
    StepKeeps(t, a);
    StepKeeps(Apply(t, a).0, b);
    assert [a, b][1..] == [b] && [b][1..] == [];
    assert Run(Apply(t, a).0, [b]) == Run(Apply(Apply(t, a).0, b).0, []);
  }

  lemma {:induction false} RunAppend(t: Tables, a: seq<Op>, b: seq<Op>)
    requires Linear(t)
    ensures Run(t, a + b) == Run(Run(t, a), b)
    decreases a
  {
    if a == [] {
      assert a + b == b;
    } else {
      StepKeeps(t, a[0]);
      assert (a + b)[0] == a[0] && (a + b)[1..] == a[1..] + b;
      RunAppend(Apply(t, a[0]).0, a[1..], b);
    }
  }

  function Initial(): Tables {
    EMPTY.(layers := [BASE.(readonly := false)], current := Some(0), nextId := 1)
  }

  function Checkpointed(name: string): Tables {
    EMPTY.(layers := [BASE, Layer(1, Some(0), name, false, None, false)], current := Some(1), nextId := 2)
  }

  lemma InitialIs()
    ensures Linear(EMPTY) && Initialize(EMPTY).0 == Initial() && Linear(Initial())
  {
    InitializeKeeps(EMPTY);
  }

  /** On the newest layer, with a free name, a checkpoint needs no confirmation and always goes through. */
  lemma CheckpointOnTop(t: Tables, name: string, confirm: bool)
    requires Linear(t) && t.layers != [] && t.current == Some(t.layers[|t.layers| - 1].id)
    requires NameFree(t.layers, name)
    ensures var n := |t.layers| - 1;
            Checkpoint(t, name, confirm) ==
            (t.(layers := t.layers[n := t.layers[n].(readonly := true)]
                          + [Layer(t.nextId, Some(t.layers[n].id), name, false, None, false)],
                current := Some(t.nextId), nextId := t.nextId + 1), Ok(t.nextId))
  {
    var n := |t.layers| - 1;
    CheckpointCases(t, name, confirm, n);
    StackGrows(t, t.layers[n].id, name, n);
  }

  lemma FirstCheckpoint(name: string)
    requires Linear(Initial()) && name != "base" && NameFits(name)
    ensures Checkpoint(Initial(), name, false).0 == Checkpointed(name)
  {
    var rows := Initial().layers;
    CheckpointOnTop(Initial(), name, false);
    assert rows[0 := BASE] + [Layer(1, Some(0), name, false, None, false)] == Checkpointed(name).layers;
  }

  lemma OneCheckpoint(name: string)
    requires name != "base" && NameFits(name)
    ensures Linear(EMPTY) && Linear(Checkpointed(name))
    ensures Run(EMPTY, [DoInitialize, DoCheckpoint(name, false)]) == Checkpointed(name)
  {
    InitialIs();
    FirstCheckpoint(name);
    RunTwo(EMPTY, DoInitialize, DoCheckpoint(name, false));
    assert Apply(EMPTY, DoInitialize).0 == Initial();
    assert Apply(Initial(), DoCheckpoint(name, false)).0 == Checkpointed(name);
  }

  lemma RunOne(t: Tables, op: Op)
    requires Linear(t)
    ensures Run(t, [op]) == Apply(t, op).0
  {
    StepKeeps(t, op);
    assert [op][1..] == [];
    assert Run(Apply(t, op).0, []) == Apply(t, op).0;
  }

  lemma OneAhead(name: string)
    requires name != "base" && NameFits(name)
    ensures Linear(EMPTY) && Linear(Checkpointed(name).(current := Some(0)))
    ensures Run(EMPTY, [DoInitialize, DoCheckpoint(name, false)] + [DoSwitch(0)])
         == Checkpointed(name).(current := Some(0))
  {
    OneCheckpoint(name);
    RunAppend(EMPTY, [DoInitialize, DoCheckpoint(name, false)], [DoSwitch(0)]);
    var t1 := Checkpointed(name);
    assert t1.layers[0].id == 0;
    RunOne(t1, DoSwitch(0));
    StepKeeps(t1, DoSwitch(0));
  }

  /**
   One layer ahead: a base, one checkpoint and a switch back. A confirmed checkpoint named "base"
   then loses that layer.
   */
  lemma OneAheadIsReal(name: string)
    requires name != "base" && NameFits(name)
    ensures Linear(EMPTY)
    ensures var t := Run(EMPTY, [DoInitialize, DoCheckpoint(name, false)] + [DoSwitch(0)]);
            && |t.layers| == 2 && t.current == Some(t.layers[0].id)
            && Checkpoint(t, "base", true).1 == Err(Storage(UniqueViolation))
            && Checkpoint(t, "base", true).0.layers == [BASE]
  {
    OneAhead(name);
    var t := Checkpointed(name).(current := Some(0));
    assert t.layers[..1] == [BASE] && [BASE][0].name == "base";
    LosesLayerOnBadName(t, "base", 0);
  }

  lemma SecondCheckpoint(a: string, b: string)
    requires Linear(Checkpointed(a)) && b != "base" && a != b && NameFits(b)
    ensures var t := Checkpoint(Checkpointed(a), b, false).0; |t.layers| == 3 && t.layers[0].id == 0
  {
    CheckpointOnTop(Checkpointed(a), b, false);
  }

  /**
   `n` layers, the oldest of them current, and no confirmed checkpoint with this name goes through
   or changes anything.
   */
  ghost predicate StuckAtBase(t: Tables, n: nat, name: string) {
    && Linear(t) && 0 < n == |t.layers| && t.current == Some(t.layers[0].id)
    && Checkpoint(t, name, true) == (t, Err(Storage(ForeignKeyViolation)))
  }

  lemma BackToBase(t: Tables, name: string)
    requires Linear(t) && |t.layers| >= 3
    ensures StuckAtBase(Switch(t, t.layers[0].id).0, |t.layers|, name)
  {
    var base := t.layers[0].id;
    assert HasId(t.layers, base);
    StepKeeps(t, DoSwitch(base));
    CheckpointCases(Switch(t, base).0, name, true, 0);
  }

  lemma FourSteps(a: string, b: string)
    requires a != "base" && NameFits(a)
    ensures Linear(EMPTY) && Linear(Checkpointed(a))
    ensures Run(EMPTY, [DoInitialize, DoCheckpoint(a, false)] + [DoCheckpoint(b, false), DoSwitch(0)])
         == Switch(Checkpoint(Checkpointed(a), b, false).0, 0).0
  {
    OneCheckpoint(a);
    RunAppend(EMPTY, [DoInitialize, DoCheckpoint(a, false)], [DoCheckpoint(b, false), DoSwitch(0)]);
    RunTwo(Checkpointed(a), DoCheckpoint(b, false), DoSwitch(0));
  }

  /** Two layers ahead is a history one can reach: two checkpoints and a switch back to the base. */
  lemma TwoAheadIsReal(a: string, b: string, name: string)
    requires a != "base" && b != "base" && a != b && NameFits(a) && NameFits(b)
    ensures Linear(EMPTY)
    ensures var t := Run(EMPTY, [DoInitialize, DoCheckpoint(a, false)] + [DoCheckpoint(b, false), DoSwitch(0)]);
            StuckAtBase(t, 3, name)
  {
    FourSteps(a, b);
    OneCheckpoint(a);
    SecondCheckpoint(a, b);
    StepKeeps(Checkpointed(a), DoCheckpoint(b, false));
    BackToBase(Checkpoint(Checkpointed(a), b, false).0, name);
  }

  lemma {:induction false} OnceInitialised(t: Tables, ops: seq<Op>)
    requires Linear(t) && DoInitialize in ops
    ensures Run(t, ops).layers != []
    decreases ops
  {
    StepKeeps(t, ops[0]);
    if ops[0] == DoInitialize {
      InitializeKeeps(t);
    } else {
      OnceInitialised(Apply(t, ops[0]).0, ops[1..]);
    }
  }

  // ---------- read-only layers never change ----------

  /** Layer `k` of `t` and everything below it are the same rows with the same entries in `t'`. */
  ghost predicate SameUpTo(t: Tables, t': Tables, k: nat) {
    && k < |t.layers| && k < |t'.layers|
    && t'.layers[..k + 1] == t.layers[..k + 1]
    && (forall i: nat | i <= k :: EntriesOf(t'.entries, t.layers[i].id) == EntriesOf(t.entries, t.layers[i].id))
  }

  lemma CutNewestSame(t: Tables, k: nat)
    requires DistinctIds(t.layers) && k + 1 < |t.layers|
    ensures SameUpTo(t, CutNewest(t), k)
  {
    var n := |t.layers| - 1;
    forall i: nat | i <= k
      ensures EntriesOf(CutNewest(t).entries, t.layers[i].id) == EntriesOf(t.entries, t.layers[i].id)
    {
      EntriesOfWithout(t.entries, t.layers[n].id, t.layers[i].id);
    }
  }

  lemma StackSame(t: Tables, c: LayerId, name: string, k: nat)
    requires Linear(t) && k < |t.layers| && c == t.layers[|t.layers| - 1].id && t.layers[k].readonly
    ensures SameUpTo(t, Stack(t, c, name).0, k)
  {
    var n := |t.layers| - 1;
    StackGrows(t, c, name, n);
    assert k == n ==> t.layers[n := t.layers[n].(readonly := true)] == t.layers;
  }

  lemma RecordSame(t: Tables, inode: InodeId, path: string, change: ChangeType, k: nat)
    requires Linear(t) && k < |t.layers| && t.layers[k].readonly
    ensures SameUpTo(t, Record(t, inode, path, change).0, k)
  {
    if Record(t, inode, path, change).1.Ok? {
      var c := t.current.value;
      forall i: nat | i <= k
        ensures EntriesOf(Record(t, inode, path, change).0.entries, t.layers[i].id)
             == EntriesOf(t.entries, t.layers[i].id)
      {
        IndexIs(t.layers, i);
        assert LinkedRow(t.layers, i);
        UpsertElsewhere(t, c, inode, path, change, t.layers[i].id);
      }
    }
  }

  lemma CheckpointGivesSame(t: Tables, name: string, confirm: bool, m: nat, r: (Tables, Outcome), k: nat)
    requires Linear(t) && m < |t.layers| && t.current == Some(t.layers[m].id)
    requires CheckpointGives(t, name, confirm, m, r)
    requires k < |t.layers| && t.layers[k].readonly && HasId(r.0.layers, t.layers[k].id)
    ensures SameUpTo(t, r.0, k)
  {
    if m + 1 == |t.layers| {
      assert r.0 == Stack(t, t.current.value, name).0;
      StackSame(t, t.current.value, name, k);
    } else if m + 2 == |t.layers| && confirm {
      assert r.0 == Stack(CutNewest(t), t.current.value, name).0;
      CutStackSame(t, name, k);
    } else {
      assert r.0 == t;
      SameUpToSelf(t, k);
    }
  }

  lemma SameUpToSelf(t: Tables, k: nat)
    requires k < |t.layers|
    ensures SameUpTo(t, t, k)
  {
  }

  lemma CutStackSame(t: Tables, name: string, k: nat)
    requires Linear(t) && k < |t.layers| && |t.layers| >= 2 && t.layers[k].readonly
    requires t.current == Some(t.layers[|t.layers| - 2].id)
    requires HasId(Stack(CutNewest(t), t.current.value, name).0.layers, t.layers[k].id)
    ensures SameUpTo(t, Stack(CutNewest(t), t.current.value, name).0, k)
  {
    var cut := CutNewest(t);
    CutNewestKeeps(t);
    StackIds(cut, t.current.value, name, t.layers[k].id);
    CutNewestRows(t, k);
    CutNewestSame(t, k);
    StackSame(cut, t.current.value, name, k);
    SameUpToTrans(t, cut, Stack(cut, t.current.value, name).0, k);
  }

  lemma CutNewestRows(t: Tables, k: nat)
    requires DistinctIds(t.layers) && k < |t.layers| && HasId(CutNewest(t).layers, t.layers[k].id)
    ensures k + 1 < |t.layers|
  {
    var i :| 0 <= i < |CutNewest(t).layers| && CutNewest(t).layers[i].id == t.layers[k].id;
    assert t.layers[i].id == t.layers[k].id;
  }

  lemma SameUpToTrans(t: Tables, u: Tables, v: Tables, k: nat)
    requires SameUpTo(t, u, k) && SameUpTo(u, v, k)
    ensures SameUpTo(t, v, k)
  {
    assert forall i: nat | i <= k :: u.layers[i] == u.layers[..k + 1][i] == t.layers[i];
  }

  lemma CheckpointSame(t: Tables, name: string, confirm: bool, k: nat)
    requires Linear(t) && k < |t.layers| && t.layers[k].readonly
    requires HasId(Checkpoint(t, name, confirm).0.layers, t.layers[k].id)
    ensures SameUpTo(t, Checkpoint(t, name, confirm).0, k)
  {
    var m := Find(t.layers, t.current.value).value;
    CheckpointCases(t, name, confirm, m);
    CheckpointGivesSame(t, name, confirm, m, Checkpoint(t, name, confirm), k);
  }

  lemma StackIds(t: Tables, c: LayerId, name: string, id: LayerId)
    requires Linear(t) && HasId(t.layers, c)
    requires HasId(Stack(t, c, name).0.layers, id)
    ensures HasId(t.layers, id) || id == t.nextId
  {
    var k := Find(t.layers, c).value;
    StackGrows(t, c, name, k);
    var i :| 0 <= i < |Stack(t, c, name).0.layers| && Stack(t, c, name).0.layers[i].id == id;
    if i < |t.layers| { assert t.layers[i].id == id; }
  }

  lemma DropGivesSame(t: Tables, m: nat, r: (Tables, Outcome), k: nat)
    requires Linear(t) && m < |t.layers| && DropGives(t, m, r)
    requires k < |t.layers| && t.layers[k].readonly && HasId(r.0.layers, t.layers[k].id)
    ensures SameUpTo(t, r.0, k)
  {
    if m + 1 == |t.layers| >= 2 {
      CutNewestRows(StepBack(t, t.layers[m].id), k);
      CutNewestSame(StepBack(t, t.layers[m].id), k);
    }
  }

  lemma DropSame(t: Tables, id: LayerId, k: nat)
    requires Linear(t) && k < |t.layers| && t.layers[k].readonly
    requires HasId(Drop(t, id).0.layers, t.layers[k].id)
    ensures SameUpTo(t, Drop(t, id).0, k)
  {
    if HasId(t.layers, id) {
      var m := Find(t.layers, id).value;
      DropExact(t, m);
      DropGivesSame(t, m, Drop(t, id), k);
    }
  }

  /** One step leaves a read-only layer that survives it, and all its ancestors, exactly as they were. */
  lemma StepSame(t: Tables, op: Op, k: nat)
    requires Linear(t) && k < |t.layers| && t.layers[k].readonly
    requires HasId(Apply(t, op).0.layers, t.layers[k].id)
    ensures SameUpTo(t, Apply(t, op).0, k)
  {
    match op
    case DoInitialize =>
    case DoRecord(inode, path, change) => RecordSame(t, inode, path, change, k);
    case DoCheckpoint(name, confirm) => CheckpointSame(t, name, confirm, k);
    case DoSwitch(target) =>
    case DoDrop(id) => DropSame(t, id, k);
    case NewInode(inode) =>
  }

  /** Identifiers are not reused: a layer gone after one step is gone for the rest of the run. */
  lemma {:induction false} GoneStaysGone(t: Tables, ops: seq<Op>, id: LayerId)
    requires Linear(t) && id < t.nextId && !HasId(t.layers, id)
    ensures !HasId(Run(t, ops).layers, id)
    decreases ops
  {
    if ops != [] {
      StepKeeps(t, ops[0]);
      if HasId(Apply(t, ops[0]).0.layers, id) { StepAddsOnlyNew(t, ops[0], id); }
      GoneStaysGone(Apply(t, ops[0]).0, ops[1..], id);
    }
  }

  lemma CutNewestIds(t: Tables, id: LayerId)
    requires t.layers != [] && HasId(CutNewest(t).layers, id)
    ensures HasId(t.layers, id)
  {
    var i :| 0 <= i < |CutNewest(t).layers| && CutNewest(t).layers[i].id == id;
    assert t.layers[i].id == id;
  }

  lemma CheckpointAddsOnlyNew(t: Tables, name: string, confirm: bool, m: nat, r: (Tables, Outcome), id: LayerId)
    requires Linear(t) && m < |t.layers| && t.current == Some(t.layers[m].id)
    requires CheckpointGives(t, name, confirm, m, r) && id < t.nextId && HasId(r.0.layers, id)
    ensures HasId(t.layers, id)
  {
    if m + 1 == |t.layers| {
      StackIds(t, t.current.value, name, id);
    } else if m + 2 == |t.layers| && confirm {
      CutNewestKeeps(t);
      StackIds(CutNewest(t), t.current.value, name, id);
      CutNewestIds(t, id);
    }
  }

  lemma DropAddsNothing(t: Tables, m: nat, r: (Tables, Outcome), id: LayerId)
    requires Linear(t) && m < |t.layers| && DropGives(t, m, r) && HasId(r.0.layers, id)
    ensures HasId(t.layers, id)
  {
    if m + 1 == |t.layers| >= 2 {
      CutNewestIds(StepBack(t, t.layers[m].id), id);
    }
  }

  lemma InitializeAddsOnlyNew(t: Tables, id: LayerId)
    requires Linear(t) && id < t.nextId && HasId(Initialize(t).0.layers, id)
    ensures HasId(t.layers, id)
  {
    var i :| 0 <= i < |Initialize(t).0.layers| && Initialize(t).0.layers[i].id == id;
  }

  lemma StepAddsOnlyNew(t: Tables, op: Op, id: LayerId)
    requires Linear(t) && id < t.nextId && HasId(Apply(t, op).0.layers, id)
    ensures HasId(t.layers, id)
  {
    match op
    case DoInitialize => InitializeAddsOnlyNew(t, id);
    case DoCheckpoint(name, confirm) =>
      if t.current.Some? {
        var m := Find(t.layers, t.current.value).value;
        CheckpointCases(t, name, confirm, m);
        CheckpointAddsOnlyNew(t, name, confirm, m, Checkpoint(t, name, confirm), id);
      }
    case DoDrop(d) =>
      if HasId(t.layers, d) {
        var m := Find(t.layers, d).value;
        DropExact(t, m);
        DropAddsNothing(t, m, Drop(t, d), id);
      }
    case _ =>
  }

  /**
   Over any run of manager steps: a layer that is read-only at the start and still there at the
   end has, with all its ancestors, exactly the same rows and entries.
   */
  lemma {:induction false} ReadonlyLayersAreStable(t: Tables, ops: seq<Op>, k: nat)
    requires Linear(t) && k < |t.layers| && t.layers[k].readonly
    requires HasId(Run(t, ops).layers, t.layers[k].id)
    ensures SameUpTo(t, Run(t, ops), k)
    decreases ops
  {
    if ops != [] {
      var t' := Apply(t, ops[0]).0;
      StepKeeps(t, ops[0]);
      if !HasId(t'.layers, t.layers[k].id) {
        GoneStaysGone(t', ops[1..], t.layers[k].id);
      } else {
        StepSame(t, ops[0], k);
        assert t'.layers[k] == t'.layers[..k + 1][k] == t.layers[k];
        ReadonlyLayersAreStable(t', ops[1..], k);
        assert forall i: nat | i <= k :: t'.layers[i] == t'.layers[..k + 1][i] == t.layers[i];
      }
    }
  }
}
