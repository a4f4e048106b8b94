/**
 Old views in tables that hold everything at once: manager histories, mount chains and CSI
 snapshots (src/csi/snapshot.rs). The layers are a forest, any of them can be made current, and a
 read-only layer need not have read-only ancestors. The view from a layer survives every run
 exactly when the layer and all its ancestors are read-only.
 */
module TimeTravel {
  import opened Prelude
  import opened LayerTable
  import H = History
  import M = MountLayers
  import B = Branches
  import opened UnionView

  datatype Step =
    | Manage(op: H.Op)
    | OnMount(mountOp: M.Op)
    | CsiSnapshot(name: string)
    | CsiDelete(id: LayerId)
    | CsiRestore(id: LayerId)

  function OrSame(t: Tables, r: Result<Tables, SqlError>): Tables {
    if r.Ok? then r.value else t
  }

  function Apply(t: Tables, s: Step): Tables
    requires Forest(t.layers)
  {
    match s
    case Manage(op) => H.Apply(t, op).0
    case OnMount(op) => M.Apply(t, op).0
    case CsiSnapshot(name) => if t.current.None? then t else OrSame(t, Insert(t, t.current, name, None, false))
    case CsiDelete(id) => OrSame(t, Remove(t, id))
    case CsiRestore(id) => if HasId(t.layers, id) then t.(current := Some(id)) else t
  }

  /** The CSI steps: a snapshot needs a current layer, a deletion is that of the row, and a restore needs the layer. */
  lemma CsiAnswers(t: Tables, name: string, id: LayerId)
    requires Constraints(t)
    ensures t.current.Some? ==> Apply(t, CsiSnapshot(name)) == OrSame(t, Insert(t, t.current, name, None, false))
    ensures t.current.None? ==> Apply(t, CsiSnapshot(name)) == t
    ensures HasId(Apply(t, CsiDelete(id)).layers, id) <==>
              HasId(t.layers, id) && (t.current == Some(id) || IsParent(t.layers, id))
    ensures Apply(t, CsiRestore(id)).current == if HasId(t.layers, id) then Some(id) else t.current
  {
    RemoveExactly(t, id);
  }

  // ---------- what statements do to a row ----------

  function RowOf(rows: seq<Layer>, id: LayerId): Layer
    requires HasId(rows, id)
  {
    rows[Find(rows, id).value]
  }

  lemma RowIs(rows: seq<Layer>, k: nat)
    requires DistinctIds(rows) && k < |rows|
    ensures HasId(rows, rows[k].id) && RowOf(rows, rows[k].id) == rows[k]
  {
    H.IndexIs(rows, k);
  }

  /** The mount is none of these. */
  predicate Untouched(mount: Option<string>, touched: set<string>) {
    mount.Some? ==> mount.value !in touched
  }

  predicate SameButFlag(l: Layer, l': Layer) {
    l' == l.(readonly := l'.readonly)
  }

  /**
   Layer `id` was there before with the same parent and mount, and the same name unless its mount
   is one of these; if it was read-only it still is, with the same entries.
   */
  ghost predicate RowEvolves(t: Tables, t': Tables, id: LayerId, touched: set<string>) {
    && HasId(t.layers, id) && HasId(t'.layers, id)
    && KeptFrom(t, t', RowOf(t.layers, id), RowOf(t'.layers, id), touched)
  }

  predicate KeptFrom(t: Tables, t': Tables, l: Layer, l': Layer, touched: set<string>) {
    && l.id == l'.id && l.parent == l'.parent && l.mount == l'.mount
    && (Untouched(l.mount, touched) ==> SameButFlag(l, l'))
    && (l.readonly ==> l'.readonly && EntriesOf(t'.entries, l.id) == EntriesOf(t.entries, l.id))
  }

  /**
   What any run makes of the tables when it works on these mounts: identifiers are not reused,
   surviving rows evolve as above, and new rows belong to no other mount.
   */
  ghost predicate Evolves(t: Tables, t': Tables, touched: set<string>) {
    && Constraints(t) && Constraints(t') && t.nextId <= t'.nextId
    && (forall id: LayerId {:trigger RowEvolves(t, t', id, touched)} | id < t.nextId && HasId(t'.layers, id) ::
          RowEvolves(t, t', id, touched))
    && (forall id: LayerId {:trigger NewRow(t', id, touched)} | t.nextId <= id && HasId(t'.layers, id) ::
          NewRow(t', id, touched))
  }

  predicate NewRow(t: Tables, id: LayerId, touched: set<string>)
    requires HasId(t.layers, id)
  {
    var mount := RowOf(t.layers, id).mount; mount.Some? ==> mount.value in touched
  }

  /** No layer appears under an old identifier, and those that stay keep their parents. */
  ghost predicate ParentsKept(t: Tables, t': Tables) {
    && Constraints(t) && Constraints(t')
    && forall id: LayerId | id < t.nextId && HasId(t'.layers, id) ::
         HasId(t.layers, id) && RowOf(t'.layers, id).parent == RowOf(t.layers, id).parent
  }

  lemma EvolvesSelf(t: Tables, touched: set<string>)
    requires Constraints(t)
    ensures Evolves(t, t, touched)
  {
  }

  lemma EvolvesTwice(a: Tables, b: Tables, c: Tables, touched: set<string>)
    requires Evolves(a, b, touched) && Evolves(b, c, touched)
    ensures Evolves(a, c, touched)
  {
    forall id: LayerId | id < a.nextId && HasId(c.layers, id) ensures RowEvolves(a, c, id, touched) {
      assert RowEvolves(b, c, id, touched);
      assert RowEvolves(a, b, id, touched);
    }
    forall id: LayerId | a.nextId <= id && HasId(c.layers, id) ensures NewRow(c, id, touched) {
      if id < b.nextId {
        assert RowEvolves(b, c, id, touched);
        assert NewRow(b, id, touched);
      } else {
        assert NewRow(c, id, touched);
      }
    }
  }

  lemma EvolvesMore(t: Tables, t': Tables, touched: set<string>, more: set<string>)
    requires Evolves(t, t', touched) && touched <= more
    ensures Evolves(t, t', more)
  {
    forall id: LayerId | id < t.nextId && HasId(t'.layers, id) ensures RowEvolves(t, t', id, more) {
      assert RowEvolves(t, t', id, touched);
    }
    forall id: LayerId | t.nextId <= id && HasId(t'.layers, id) ensures NewRow(t', id, more) {
      assert NewRow(t', id, touched);
    }
  }

  /** Rows kept from the table before, and new ones. */
  lemma SameRowsEvolve(t: Tables, t': Tables, touched: set<string>)
    requires Constraints(t) && Constraints(t') && t.nextId <= t'.nextId
    requires forall k | 0 <= k < |t'.layers| :: KeptRow(t, t', t'.layers[k], touched)
    ensures Evolves(t, t', touched)
  {
    forall id: LayerId | HasId(t'.layers, id)
      ensures id < t.nextId ==> RowEvolves(t, t', id, touched)
      ensures t.nextId <= id ==> NewRow(t', id, touched)
    {
      var k :| 0 <= k < |t'.layers| && t'.layers[k].id == id;
      RowIs(t'.layers, k);
      assert KeptRow(t, t', t'.layers[k], touched);
      if j: nat :| j < |t.layers| && KeptFrom(t, t', t.layers[j], t'.layers[k], touched) {
        RowIs(t.layers, j);
      }
    }
  }

  ghost predicate KeptRow(t: Tables, t': Tables, l': Layer, touched: set<string>) {
    || (exists j: nat | j < |t.layers| :: KeptFrom(t, t', t.layers[j], l', touched))
    || (t.nextId <= l'.id && (l'.mount.Some? ==> l'.mount.value in touched))
  }

  // ---------- every statement ----------

  /** The mount a row belongs to, if any. */
  function MountOf(mount: Option<string>): set<string> {
    if mount.Some? then {mount.value} else {}
  }

  lemma InsertEvolves(t: Tables, parent: Option<LayerId>, name: string, mount: Option<string>, working: bool)
    requires Constraints(t) && Insert(t, parent, name, mount, working).Ok?
    ensures Evolves(t, Insert(t, parent, name, mount, working).value, MountOf(mount))
  {
    var t' := Insert(t, parent, name, mount, working).value;
    InsertKeeps(t, parent, name, mount, working);
    forall k | 0 <= k < |t'.layers| ensures KeptRow(t, t', t'.layers[k], MountOf(mount)) {
      if k < |t.layers| { assert KeptFrom(t, t', t.layers[k], t'.layers[k], MountOf(mount)); }
    }
    SameRowsEvolve(t, t', MountOf(mount));
  }

  lemma RemoveEvolves(t: Tables, id: LayerId)
    requires Constraints(t) && Remove(t, id).Ok?
    ensures Evolves(t, Remove(t, id).value, {})
  {
    var t' := Remove(t, id).value;
    RemoveKeeps(t, id);
    if HasId(t.layers, id) {
      var i := Find(t.layers, id).value;
      forall k | 0 <= k < |t'.layers| ensures KeptRow(t, t', t'.layers[k], {}) {
        var k' := if k < i then k else k + 1;
        assert t'.layers[k] == t.layers[k'];
        EntriesOfWithout(t.entries, id, t.layers[k'].id);
        assert KeptFrom(t, t', t.layers[k'], t'.layers[k], {});
      }
      SameRowsEvolve(t, t', {});
    } else {
      EvolvesSelf(t, {});
    }
  }

  lemma FreezeEvolves(t: Tables, id: LayerId)
    requires Constraints(t)
    ensures Evolves(t, SetReadonly(t, id), {})
  {
    var t' := SetReadonly(t, id);
    SetReadonlyKeeps(t, id);
    forall k | 0 <= k < |t'.layers| ensures KeptRow(t, t', t'.layers[k], {}) {
      assert KeptFrom(t, t', t.layers[k], t'.layers[k], {});
    }
    SameRowsEvolve(t, t', {});
  }

  lemma RenameEvolves(t: Tables, i: nat, name: string, m: string)
    requires Constraints(t) && i < |t.layers| && NameFits(name) && !M.NamedElsewhere(t.layers, i, name)
    requires t.layers[i].mount == Some(m)
    ensures Evolves(t, M.Renamed(t, i, name), {m})
  {
    var t' := M.Renamed(t, i, name);
    M.RenamedKeeps(t, i, name);
    forall k | 0 <= k < |t'.layers| ensures KeptRow(t, t', t'.layers[k], {m}) {
      assert KeptFrom(t, t', t.layers[k], t'.layers[k], {m});
    }
    SameRowsEvolve(t, t', {m});
  }

  lemma UpsertEvolves(t: Tables, c: LayerId, inode: InodeId, path: string, change: ChangeType)
    requires Constraints(t) && HasId(t.layers, c) && !RowOf(t.layers, c).readonly
    requires Upsert(t, c, inode, path, change).Ok?
    ensures Evolves(t, Upsert(t, c, inode, path, change).value, {})
  {
    var t' := Upsert(t, c, inode, path, change).value;
    UpsertKeeps(t, c, inode, path, change);
    forall k | 0 <= k < |t'.layers| ensures KeptRow(t, t', t'.layers[k], {}) {
      RowIs(t.layers, k);
      if t.layers[k].id != c { UpsertElsewhere(t, c, inode, path, change, t.layers[k].id); }
      assert KeptFrom(t, t', t.layers[k], t'.layers[k], {});
    }
    SameRowsEvolve(t, t', {});
  }

  lemma OthersEvolve(t: Tables, current: Option<LayerId>, inodes: set<InodeId>)
    requires Constraints(t) && (current.Some? ==> HasId(t.layers, current.value)) && t.inodes <= inodes
    ensures Evolves(t, t.(current := current, inodes := inodes), {})
  {
    var t' := t.(current := current, inodes := inodes);
    forall k | 0 <= k < |t'.layers| ensures KeptRow(t, t', t'.layers[k], {}) {
      assert KeptFrom(t, t', t.layers[k], t'.layers[k], {});
    }
    SameRowsEvolve(t, t', {});
  }

  // ---------- every step ----------

  /** An insertion after which the new layer is current. */
  lemma InsertCurrentEvolves(t: Tables, parent: Option<LayerId>, name: string)
    requires Constraints(t) && Insert(t, parent, name, None, false).Ok?
    ensures Evolves(t, Insert(t, parent, name, None, false).value.(current := Some(t.nextId)), {})
  {
    var t1 := Insert(t, parent, name, None, false).value;
    InsertEvolves(t, parent, name, None, false);
    assert t1.layers[|t1.layers| - 1].id == t.nextId;
    assert HasId(t1.layers, t.nextId);
    OthersEvolve(t1, Some(t.nextId), t1.inodes);
    assert t1.(current := Some(t.nextId)) == t1.(current := Some(t.nextId), inodes := t1.inodes);
    EvolvesTwice(t, t1, t1.(current := Some(t.nextId)), {});
  }

  lemma StackEvolves(t: Tables, c: LayerId, name: string)
    requires Constraints(t)
    ensures Evolves(t, H.Stack(t, c, name).0, {})
  {
    var frozen := SetReadonly(t, c);
    FreezeEvolves(t, c);
    if Insert(frozen, Some(c), name, None, false).Ok? {
      InsertCurrentEvolves(frozen, Some(c), name);
      EvolvesTwice(t, frozen, H.Stack(t, c, name).0, {});
    }
  }

  lemma {:induction false} RemoveAllEvolves(t: Tables, todo: seq<Layer>)
    requires Constraints(t)
    ensures Evolves(t, H.RemoveAll(t, todo).0, {})
    decreases todo
  {
    if todo == [] || Remove(t, todo[0].id).Err? {
      EvolvesSelf(t, {});
    } else {
      var t1 := Remove(t, todo[0].id).value;
      RemoveEvolves(t, todo[0].id);
      RemoveAllEvolves(t1, todo[1..]);
      EvolvesTwice(t, t1, H.RemoveAll(t1, todo[1..]).0, {});
    }
  }

  lemma CheckpointEvolves(t: Tables, name: string, confirm: bool)
    requires Constraints(t)
    ensures Evolves(t, H.Checkpoint(t, name, confirm).0, {})
  {
    EvolvesSelf(t, {});
    if t.current.Some? && HasId(t.layers, t.current.value) {
      var c := t.current.value;
      var future := H.Future(t.layers, c);
      var (removed, refused) := H.RemoveAll(t, Reversed(future));
      RemoveAllEvolves(t, Reversed(future));
      StackEvolves(removed, c, name);
      EvolvesTwice(t, removed, H.Stack(removed, c, name).0, {});
      H.CheckpointWith(t, name, confirm, c, future, removed, refused);
    }
  }

  lemma DropEvolves(t: Tables, id: LayerId)
    requires Constraints(t)
    ensures Evolves(t, H.Drop(t, id).0, {})
  {
    EvolvesSelf(t, {});
    if HasId(t.layers, id) {
      var parent := RowOf(t.layers, id).parent;
      ChainIs(t.layers, id);
      var moved := if t.current == Some(id) && parent.Some? then t.(current := parent) else t;
      OthersEvolve(t, moved.current, t.inodes);
      assert moved == t.(current := moved.current, inodes := t.inodes);
      var removed := OrSame(moved, Remove(moved, id));
      RemoveOrSameEvolves(moved, id);
      EvolvesTwice(t, moved, removed, {});
      DropIsOneOf(t, id, moved, removed);
    }
  }

  lemma RemoveOrSameEvolves(t: Tables, id: LayerId)
    requires Constraints(t)
    ensures Evolves(t, OrSame(t, Remove(t, id)), {})
  {
    EvolvesSelf(t, {});
    if Remove(t, id).Ok? { RemoveEvolves(t, id); }
  }

  lemma DropIsOneOf(t: Tables, id: LayerId, moved: Tables, removed: Tables)
    requires Forest(t.layers) && HasId(t.layers, id)
    requires var parent := RowOf(t.layers, id).parent;
             moved == if t.current == Some(id) && parent.Some? then t.(current := parent) else t
    requires removed == OrSame(moved, Remove(moved, id))
    ensures H.Drop(t, id).0 == t || H.Drop(t, id).0 == removed
  {
  }

  lemma RecordEvolves(t: Tables, inode: InodeId, path: string, change: ChangeType)
    requires Constraints(t)
    ensures Evolves(t, H.Record(t, inode, path, change).0, {})
  {
    EvolvesSelf(t, {});
    if H.Record(t, inode, path, change).1.Ok? {
      UpsertEvolves(t, t.current.value, inode, path, change);
    }
  }

  lemma InitializeEvolves(t: Tables)
    requires Constraints(t)
    ensures Evolves(t, H.Initialize(t).0, {})
  {
    EvolvesSelf(t, {});
    if !(t.current.Some? && HasId(t.layers, t.current.value)) && Insert(t, None, "base", None, false).Ok? {
      InsertCurrentEvolves(t, None, "base");
    }
  }

  lemma ManagerEvolves(t: Tables, op: H.Op)
    requires Constraints(t)
    ensures Evolves(t, H.Apply(t, op).0, {})
  {
    match op
    case DoInitialize => InitializeEvolves(t);
    case DoRecord(inode, path, change) => RecordEvolves(t, inode, path, change);
    case DoCheckpoint(name, confirm) => CheckpointEvolves(t, name, confirm);
    case DoSwitch(target) => SwitchEvolves(t, target);
    case DoDrop(id) => DropEvolves(t, id);
    case NewInode(inode) =>
      OthersEvolve(t, t.current, t.inodes + {inode});
      assert t.(inodes := t.inodes + {inode}) == t.(current := t.current, inodes := t.inodes + {inode});
  }

  lemma SwitchEvolves(t: Tables, target: LayerId)
    requires Constraints(t)
    ensures Evolves(t, if HasId(t.layers, target) then t.(current := Some(target)) else t, {})
  {
    EvolvesSelf(t, {});
    if HasId(t.layers, target) {
      OthersEvolve(t, Some(target), t.inodes);
      assert t.(current := Some(target)) == t.(current := Some(target), inodes := t.inodes);
    }
  }

  lemma InitEvolves(t: Tables, m: string)
    requires Constraints(t)
    ensures Evolves(t, M.InitLayers(t, m).0, {m})
  {
    EvolvesSelf(t, {m});
    var first := Insert(t, None, M.BaseName(m), Some(m), false);
    if first.Ok? {
      InsertEvolves(t, None, M.BaseName(m), Some(m), false);
      var second := Insert(first.value, Some(t.nextId), M.WorkingName(m), Some(m), true);
      if second.Ok? {
        InsertEvolves(first.value, Some(t.nextId), M.WorkingName(m), Some(m), true);
        EvolvesTwice(t, first.value, second.value, {m});
      }
    }
  }

  lemma SnapEvolves(t: Tables, m: string, name: string)
    requires Constraints(t)
    ensures Evolves(t, M.Snapshot(t, m, name).0, {m})
  {
    EvolvesSelf(t, {m});
    var found := M.FindWorking(t.layers, m);
    if found.Some? && NameFits(name) && !M.NamedElsewhere(t.layers, found.value, name) {
      var i := found.value;
      var t1 := M.Renamed(t, i, name);
      RenameEvolves(t, i, name, m);
      var second := Insert(t1, Some(t.layers[i].id), M.WorkingName(m), Some(m), true);
      if second.Ok? {
        InsertEvolves(t1, Some(t.layers[i].id), M.WorkingName(m), Some(m), true);
        EvolvesTwice(t, t1, second.value, {m});
      }
    }
  }

  /** The mounts a step works on. */
  function Touched(s: Step): set<string> {
    if s.OnMount? then {s.mountOp.m} else {}
  }

  lemma StepEvolves(t: Tables, s: Step)
    requires Constraints(t)
    ensures Evolves(t, Apply(t, s), Touched(s))
  {
    EvolvesSelf(t, Touched(s));
    match s
    case Manage(op) => ManagerEvolves(t, op);
    case OnMount(op) =>
      match op {
        case Init(m) => InitEvolves(t, m);
        case Snap(m, name) => SnapEvolves(t, m, name);
      }
    case CsiSnapshot(name) =>
      if t.current.Some? && Insert(t, t.current, name, None, false).Ok? {
        InsertEvolves(t, t.current, name, None, false);
      }
    case CsiDelete(id) => if Remove(t, id).Ok? { RemoveEvolves(t, id); }
    case CsiRestore(id) => SwitchEvolves(t, id);
  }

  ghost function Run(t: Tables, steps: seq<Step>): (t': Tables)
    requires Constraints(t)
    ensures Constraints(t')
    decreases steps
  {
    if steps == [] then t
    else
      StepEvolves(t, steps[0]);
      Run(Apply(t, steps[0]), steps[1..])
  }

  lemma {:induction false} RunAppend(t: Tables, a: seq<Step>, b: seq<Step>)
    requires Constraints(t)
    ensures Run(t, a + b) == Run(Run(t, a), b)
    decreases a
  {
    if a == [] {
      assert a + b == b;
    } else {
      StepEvolves(t, a[0]);
      assert (a + b)[0] == a[0] && (a + b)[1..] == a[1..] + b;
      RunAppend(Apply(t, a[0]), a[1..], b);
    }
  }

  lemma RunOne(t: Tables, s: Step)
    requires Constraints(t)
    ensures Constraints(Apply(t, s)) && Run(t, [s]) == Apply(t, s)
  {
    StepEvolves(t, s);
    assert [s][1..] == [];
    assert Run(Apply(t, s), []) == Apply(t, s);
  }

  function TouchedBy(steps: seq<Step>): set<string> {
    if steps == [] then {} else Touched(steps[0]) + TouchedBy(steps[1..])
  }

  lemma {:induction false} RunEvolves(t: Tables, steps: seq<Step>)
    requires Constraints(t)
    ensures Evolves(t, Run(t, steps), TouchedBy(steps))
    decreases steps
  {
    var touched := TouchedBy(steps);
    if steps == [] {
      EvolvesSelf(t, touched);
    } else {
      var t1 := Apply(t, steps[0]);
      StepEvolves(t, steps[0]);
      RunEvolves(t1, steps[1..]);
      EvolvesMore(t, t1, Touched(steps[0]), touched);
      EvolvesMore(t1, Run(t1, steps[1..]), TouchedBy(steps[1..]), touched);
      EvolvesTwice(t, t1, Run(t1, steps[1..]), touched);
    }
  }

  // ---------- going back and forth ----------

  predicate IsSwitch(s: Step) {
    s.CsiRestore? || (s.Manage? && s.op.DoSwitch?)
  }

  lemma SwitchMovesOnly(t: Tables, s: Step)
    requires Constraints(t) && t.current.Some? && IsSwitch(s)
    ensures var t' := Apply(t, s); t'.current.Some? && t' == t.(current := t'.current)
  {
  }

  lemma {:induction false} SwitchesMoveOnly(t: Tables, steps: seq<Step>)
    requires Constraints(t) && t.current.Some? && forall i | 0 <= i < |steps| :: IsSwitch(steps[i])
    ensures var t' := Run(t, steps); t'.current.Some? && t' == t.(current := t'.current)
    decreases steps
  {
    if steps != [] {
      var t1 := Apply(t, steps[0]);
      StepEvolves(t, steps[0]);
      SwitchMovesOnly(t, steps[0]);
      SwitchesMoveOnly(t1, steps[1..]);
    }
  }

  /** After any switches and restores, whether their layers exist or not, going back gives the same tables. */
  lemma SwitchingLeavesNoTrace(t: Tables, steps: seq<Step>, back: Step)
    requires Constraints(t) && t.current.Some? && forall i | 0 <= i < |steps| :: IsSwitch(steps[i])
    requires back == CsiRestore(t.current.value) || back == Manage(H.DoSwitch(t.current.value))
    ensures Run(t, steps + [back]) == t
  {
    SwitchesMoveOnly(t, steps);
    RunAppend(t, steps, [back]);
    RunOne(Run(t, steps), back);
  }

  // ---------- frozen chains are stable ----------

  ghost predicate AllReadonly(chain: seq<Layer>) {
    forall i | 0 <= i < |chain| :: chain[i].readonly
  }

  ghost predicate ViewKept(t: Tables, t': Tables, id: LayerId)
    requires Constraints(t) && Constraints(t')
  {
    var ids := Ids(Chain(t.layers, id));
    Ids(Chain(t'.layers, id)) == ids && SameView(ids, t.entries, t'.entries)
  }

  lemma ChainIs(rows: seq<Layer>, id: LayerId)
    requires Forest(rows) && HasId(rows, id)
    ensures var l := RowOf(rows, id);
            && (l.parent.None? ==> Chain(rows, id) == [l])
            && (l.parent.Some? ==> && HasId(rows, l.parent.value) && Rank(rows, l.parent.value) < Rank(rows, id)
                                   && Chain(rows, id) == [l] + Chain(rows, l.parent.value))
  {
    var i := Find(rows, id).value;
    if rows[i].parent.Some? { ParentRank(rows, i); }
  }

  /** A layer that survives keeps its chain. */
  lemma {:induction false} ChainIdsKept(t: Tables, t': Tables, id: LayerId)
    requires ParentsKept(t, t') && id < t.nextId && HasId(t'.layers, id) && HasId(t.layers, id)
    ensures Ids(Chain(t'.layers, id)) == Ids(Chain(t.layers, id))
    decreases Rank(t'.layers, id)
  {
    var l, l' := RowOf(t.layers, id), RowOf(t'.layers, id);
    ChainIs(t.layers, id);
    ChainIs(t'.layers, id);
    if l.parent.None? {
      IdsOne(l);
      IdsOne(l');
    } else {
      var up := l.parent.value;
      KnownId(t, up);
      ChainIdsKept(t, t', up);
      IdsCons(l, Chain(t.layers, up));
      IdsCons(l', Chain(t'.layers, up));
    }
  }

  lemma EvolvesParents(t: Tables, t': Tables, touched: set<string>)
    requires Evolves(t, t', touched)
    ensures ParentsKept(t, t')
  {
    forall id: LayerId | id < t.nextId && HasId(t'.layers, id)
      ensures HasId(t.layers, id) && RowOf(t'.layers, id).parent == RowOf(t.layers, id).parent
    {
      assert RowEvolves(t, t', id, touched);
    }
  }

  lemma ChainRow(rows: seq<Layer>, id: LayerId, i: nat)
    requires Forest(rows) && HasId(rows, id) && i < |Chain(rows, id)|
    ensures var l := Chain(rows, id)[i]; HasId(rows, l.id) && RowOf(rows, l.id) == l
  {
    ChainShape(rows, id);
    var j: nat :| j < |rows| && rows[j] == Chain(rows, id)[i];
    RowIs(rows, j);
  }

  lemma FrozenChainKept(t: Tables, t': Tables, id: LayerId, touched: set<string>)
    requires Evolves(t, t', touched) && id < t.nextId && HasId(t'.layers, id) && HasId(t.layers, id)
    requires AllReadonly(Chain(t.layers, id))
    ensures Ids(Chain(t'.layers, id)) == Ids(Chain(t.layers, id))
    ensures SameEntries(Ids(Chain(t.layers, id)), t.entries, t'.entries)
  {
    var chain, chain' := Chain(t.layers, id), Chain(t'.layers, id);
    EvolvesParents(t, t', touched);
    ChainIdsKept(t, t', id);
    forall i | 0 <= i < |chain| ensures EntriesOf(t'.entries, Ids(chain)[i]) == EntriesOf(t.entries, Ids(chain)[i]) {
      ChainRow(t.layers, id, i);
      ChainRow(t'.layers, id, i);
      KnownId(t, chain[i].id);
      assert Ids(chain)[i] == Ids(chain')[i];
      assert RowEvolves(t, t', chain[i].id, touched);
    }
  }

  lemma IdsOne(l: Layer)
    ensures Ids([l]) == [l.id]
  {
    assert [l][1..] == [];
  }

  lemma KnownId(t: Tables, id: LayerId)
    requires Constraints(t) && HasId(t.layers, id)
    ensures id < t.nextId
  {
  }

  /** Over any run of any steps, the view from a layer with a read-only chain is kept as long as the layer is there. */
  lemma FrozenViewKept(t: Tables, steps: seq<Step>, id: LayerId)
    requires Constraints(t) && HasId(t.layers, id) && AllReadonly(Chain(t.layers, id))
    requires HasId(Run(t, steps).layers, id)
    ensures ViewKept(t, Run(t, steps), id)
  {
    RunEvolves(t, steps);
    KnownId(t, id);
    FrozenChainKept(t, Run(t, steps), id, TouchedBy(steps));
    SameEntriesSameView(Ids(Chain(t.layers, id)), t.entries, Run(t, steps).entries);
  }

  // ---------- a checkpoint shows the same files ----------

  lemma StaysBelow(t: Tables, name: string, id: LayerId)
    requires Constraints(t) && t.current.Some? && id < t.nextId
    ensures var c := t.current.value;
            var gone := B.IdSet(H.Future(t.layers, c));
            HasId(B.Stacked(B.Pruned(t, gone), c, name).layers, id) <==> HasId(t.layers, id) && id !in gone
  {
    var gone := B.IdSet(H.Future(t.layers, t.current.value));
    B.PrunedHas(t, gone, id);
    B.StackedHas(B.Pruned(t, gone), t.current.value, name, id);
  }

  lemma CheckpointChain(t: Tables, t': Tables, name: string)
    requires Constraints(t) && t.current.Some? && Evolves(t, t', {})
    requires var c := t.current.value; t' == B.Stacked(B.Pruned(t, B.IdSet(H.Future(t.layers, c))), c, name)
    ensures HasId(t'.layers, t.current.value)
    ensures Ids(Chain(t'.layers, t'.current.value)) == [t.nextId] + Ids(Chain(t.layers, t.current.value))
  {
    var c, future := t.current.value, H.Future(t.layers, t.current.value);
    forall i | 0 <= i < |future| ensures future[i].id != c {
      B.FutureMember(t.layers, c, i);
    }
    KnownId(t, c);
    StaysBelow(t, name, c);
    assert t'.layers[|t'.layers| - 1].parent == Some(c) && t'.layers[|t'.layers| - 1].id == t.nextId;
    assert ParentOf(t'.layers, t.nextId, c);
    ChainStep(t'.layers, t.nextId, c);
    EvolvesParents(t, t', {});
    ChainIdsKept(t, t', c);
    IdsCons(RowOf(t'.layers, t.nextId), Chain(t'.layers, c));
  }

  lemma CheckpointEntries(t: Tables, t': Tables, name: string)
    requires Constraints(t) && t.current.Some? && Evolves(t, t', {})
    requires var c := t.current.value; t' == B.Stacked(B.Pruned(t, B.IdSet(H.Future(t.layers, c))), c, name)
    ensures SameEntries(Ids(Chain(t.layers, t.current.value)), t.entries, t'.entries)
    ensures EntriesOf(t'.entries, t.nextId) == []
  {
    var c := t.current.value;
    var chain, gone := Chain(t.layers, c), B.IdSet(H.Future(t.layers, c));
    CheckpointChain(t, t', name);
    KnownId(t, c);
    EvolvesParents(t, t', {});
    ChainIdsKept(t, t', c);
    forall i | 0 <= i < |chain| ensures EntriesOf(t'.entries, Ids(chain)[i]) == EntriesOf(t.entries, Ids(chain)[i]) {
      ChainRow(t.layers, c, i);
      ChainRow(t'.layers, c, i);
      KnownId(t, chain[i].id);
      assert Ids(chain)[i] == Ids(Chain(t'.layers, c))[i];
      StaysBelow(t, name, chain[i].id);
      B.EntriesOfPruned(t.entries, gone, chain[i].id);
    }
    NewLayerIsEmpty(t);
    NoFutureId(t, c);
    B.EntriesOfPruned(t.entries, gone, t.nextId);
  }

  lemma NoFutureId(t: Tables, c: LayerId)
    requires Constraints(t)
    ensures t.nextId !in B.IdSet(H.Future(t.layers, c))
  {
    var future := H.Future(t.layers, c);
    forall i | 0 <= i < |future| ensures future[i].id != t.nextId {
      B.FutureMember(t.layers, c, i);
      assert HasId(t.layers, future[i].id);
    }
  }

  /**
   A checkpoint that goes through, in any tables, puts one empty layer on top of the chain it was
   taken from: the view from the new current layer answers everything as the view from the old one.
   */
  lemma CheckpointShowsTheSame(t: Tables, name: string, confirm: bool, p: string)
    requires Constraints(t) && H.Checkpoint(t, name, confirm).1.Ok?
    ensures var t' := H.Checkpoint(t, name, confirm).0;
            && Constraints(t') && t'.current == Some(t.nextId)
            && var before, after := Ids(Chain(t.layers, t.current.value)), Ids(Chain(t'.layers, t.nextId));
               && after == [t.nextId] + before
               && Lookup(after, t'.entries, p) == Lookup(before, t.entries, p)
               && List(after, t'.entries, p) == List(before, t.entries, p)
               && Versions(after, t'.entries, p) == Versions(before, t.entries, p)
  {
    var t' := H.Checkpoint(t, name, confirm).0;
    CheckpointEvolves(t, name, confirm);
    B.CheckpointSucceedsExactly(t, name, confirm);
    CheckpointChain(t, t', name);
    CheckpointEntries(t, t', name);
    TopAnswers(Ids(Chain(t.layers, t.current.value)), t.nextId, t.entries, t'.entries, p);
  }

  // ---------- writable chains are not ----------

  /** A path longer than every recorded one. */
  function FreePath(entries: seq<Entry>): (path: string)
    ensures forall i | 0 <= i < |entries| :: |entries[i].path| < |path|
  {
    if entries == [] then "/"
    else
      var last := |entries| - 1;
      var longer := FreePath(entries[..last]);
      assert forall i | 0 <= i < last :: entries[..last][i] == entries[i];
      if |entries[last].path| < |longer| then longer else entries[last].path + "/"
  }

  lemma {:induction false} NothingAt(entries: seq<Entry>, layer: LayerId, path: string)
    requires forall i | 0 <= i < |entries| :: entries[i].path != path
    ensures FirstAt(EntriesOf(entries, layer), path) == None
  {
    EntriesOfFacts(entries, layer);
    var es := EntriesOf(entries, layer);
    forall i | 0 <= i < |es| ensures es[i].path != path {
      assert es[i] in entries;
    }
    NoneBefore(es, path);
  }

  lemma AddedSays(entries: seq<Entry>, e: Entry, layer: LayerId)
    requires forall i | 0 <= i < |entries| :: entries[i].path != e.path
    ensures FirstAt(EntriesOf(entries + [e], layer), e.path) == if layer == e.layer then Some(e) else None
  {
    NothingAt(entries, layer, e.path);
    EntriesOfAppend(entries, [e], layer);
    assert [e][..0] == [] && EntriesOf([], layer) == [];
    if layer == e.layer {
      assert EntriesOf([e], layer) == [e];
      FirstAtSnoc(EntriesOf(entries, layer), e, e.path);
    } else {
      assert EntriesOf([e], layer) == [];
      assert EntriesOf(entries, layer) + [] == EntriesOf(entries, layer);
    }
  }

  lemma {:induction false} NewEntryShows(chain: seq<LayerId>, entries: seq<Entry>, e: Entry)
    requires e.layer in chain && e.change != Delete && forall i | 0 <= i < |entries| :: entries[i].path != e.path
    ensures Lookup(chain, entries + [e], e.path) == Exists(e.layer, e.inode)
  {
    AddedSays(entries, e, chain[0]);
    if chain[0] != e.layer { NewEntryShows(chain[1..], entries, e); }
  }

  lemma {:induction false} OldEntriesShowNothing(chain: seq<LayerId>, entries: seq<Entry>, path: string)
    requires forall i | 0 <= i < |entries| :: entries[i].path != path
    ensures Lookup(chain, entries, path) == NotFound
  {
    if chain != [] {
      NothingAt(entries, chain[0], path);
      OldEntriesShowNothing(chain[1..], entries, path);
    }
  }

  /** Make the layer current, let an inode appear, and record a path nobody used. */
  function Write(layer: LayerId, path: string): seq<Step> {
    [Manage(H.NewInode(0)), Manage(H.DoSwitch(layer)), Manage(H.DoRecord(0, path, Add))]
  }

  lemma RunThree(t: Tables, a: Step, b: Step, c: Step)
    requires Constraints(t)
    ensures Constraints(Apply(t, a)) && Constraints(Apply(Apply(t, a), b))
    ensures Run(t, [a, b, c]) == Apply(Apply(Apply(t, a), b), c)
  {
    StepEvolves(t, a);
    StepEvolves(Apply(t, a), b);
    StepEvolves(Apply(Apply(t, a), b), c);
    var t2 := Apply(Apply(t, a), b);
    assert [a, b, c][1..] == [b, c] && [b, c][1..] == [c] && [c][1..] == [];
    assert Run(t2, [c]) == Run(Apply(t2, c), []) == Apply(t2, c);
    assert Run(Apply(t, a), [b, c]) == Run(t2, [c]);
  }

  lemma WriteAdds(t: Tables, layer: LayerId, path: string)
    requires Constraints(t) && HasId(t.layers, layer) && !RowOf(t.layers, layer).readonly
    requires forall i | 0 <= i < |t.entries| :: t.entries[i].path != path
    ensures var t' := Run(t, Write(layer, path));
            t'.layers == t.layers && t'.entries == t.entries + [Entry(layer, 0, path, Add)]
  {
    RunThree(t, Manage(H.NewInode(0)), Manage(H.DoSwitch(layer)), Manage(H.DoRecord(0, path, Add)));
    var t2 := t.(inodes := t.inodes + {0}, current := Some(layer));
    assert FindEntry(t2.entries, layer, path) == None;
    assert Upsert(t2, layer, 0, path, Add) == Ok(t2.(entries := t2.entries + [Entry(layer, 0, path, Add)]));
  }

  /** From a layer with a writable layer in its chain, some run changes the view. */
  lemma WritableViewChanges(t: Tables, id: LayerId) returns (steps: seq<Step>)
    requires Constraints(t) && HasId(t.layers, id) && !AllReadonly(Chain(t.layers, id))
    ensures HasId(Run(t, steps).layers, id) && !ViewKept(t, Run(t, steps), id)
  {
    var chain := Chain(t.layers, id);
    var k :| 0 <= k < |chain| && !chain[k].readonly;
    ChainShape(t.layers, id);
    var j: nat :| j < |t.layers| && t.layers[j] == chain[k];
    RowIs(t.layers, j);
    var layer, path, ids := chain[k].id, FreePath(t.entries), Ids(chain);
    assert ids[k] == layer;
    steps := Write(layer, path);
    WriteAdds(t, layer, path);
    NewEntryShows(ids, t.entries, Entry(layer, 0, path, Add));
    OldEntriesShowNothing(ids, t.entries, path);
  }

  /**
   Time travel, exactly: in any tables with whatever histories, mounts and snapshots, the view
   from a layer is the same in every later state that has the layer if and only if the layer and
   all its ancestors are read-only.
   */
  lemma ViewIsStableExactly(t: Tables, id: LayerId)
    requires Constraints(t) && HasId(t.layers, id)
    ensures AllReadonly(Chain(t.layers, id))
        <==> forall steps | HasId(Run(t, steps).layers, id) :: ViewKept(t, Run(t, steps), id)
  {
    if AllReadonly(Chain(t.layers, id)) {
      forall steps | HasId(Run(t, steps).layers, id) ensures ViewKept(t, Run(t, steps), id) {
        FrozenViewKept(t, steps, id);
      }
    } else {
      var steps := WritableViewChanges(t, id);
    }
  }
}
