/** Runs from an empty tenant that reach the states in which the code does not do what one would expect. */
module Reached {
  import opened Prelude
  import opened LayerTable
  import opened Rows
  import H = History
  import B = Branches
  import M = MountLayers
  import opened UnionView
  import opened TimeTravel
  import U = Unlinks

  function Plain(id: LayerId, parent: Option<LayerId>, name: string): Layer {
    Layer(id, parent, name, false, None, false)
  }

  /** The step leads from one valid table to another. */
  ghost predicate Leads(t: Tables, s: Step, t': Tables) {
    Constraints(t) && Constraints(t') && Apply(t, s) == t'
  }

  lemma ThreeSteps(t: Tables, a: Step, t1: Tables, b: Step, t2: Tables, c: Step, t3: Tables)
    requires Leads(t, a, t1) && Leads(t1, b, t2) && Leads(t2, c, t3)
    ensures Run(t, [a, b, c]) == t3
  {
    RunThree(t, a, b, c);
  }

  lemma OneMoreStep(t: Tables, steps: seq<Step>, s: Step, last: Tables)
    requires Constraints(t) && Leads(Run(t, steps), s, last)
    ensures Run(t, steps + [s]) == last
  {
    RunAppend(t, steps, [s]);
    RunOne(Run(t, steps), s);
  }

  lemma SwitchLeads(t: Tables, k: nat)
    requires Constraints(t) && k < |t.layers|
    ensures Leads(t, Manage(H.DoSwitch(t.layers[k].id)), t.(current := Some(t.layers[k].id)))
    ensures Leads(t, CsiRestore(t.layers[k].id), t.(current := Some(t.layers[k].id)))
  {
    StepEvolves(t, CsiRestore(t.layers[k].id));
    assert HasId(t.layers, t.layers[k].id);
  }

  /** On a layer without children, with a free name, a checkpoint stacks a layer. */
  lemma CheckpointLeads(t: Tables, k: nat, name: string)
    requires Constraints(t) && k < |t.layers| && t.current == Some(t.layers[k].id) && NameFree(t.layers, name)
    requires !IsParent(t.layers, t.layers[k].id)
    ensures Leads(t, Manage(H.DoCheckpoint(name, false)),
                  t.(layers := t.layers[k := t.layers[k].(readonly := true)] + [Plain(t.nextId, t.current, name)],
                     current := Some(t.nextId), nextId := t.nextId + 1))
  {
    var c := t.layers[k].id;
    StepEvolves(t, Manage(H.DoCheckpoint(name, false)));
    assert HasId(t.layers, c);
    B.NoFutureIsLeaf(t.layers, c);
    assert Reversed(H.Future(t.layers, c)) == [];
    H.CheckpointWith(t, name, false, c, [], t, None);
    H.StackGrows(t, c, name, k);
  }

  function Based(): Tables {
    EMPTY.(layers := [Plain(0, None, "base")], current := Some(0), nextId := 1)
  }

  lemma BasedIs()
    ensures Leads(EMPTY, Manage(H.DoInitialize), Based())
  {
    StepEvolves(EMPTY, Manage(H.DoInitialize));
  }

  lemma FreeBesideBase(name: string)
    requires NameFits(name) && name != "base"
    ensures NameFree(Based().layers, name)
  {
  }

  // ---------- two layers ahead that can go ----------

  function TwoSnapshots(a: string, b: string): seq<Step> {
    [Manage(H.DoInitialize), CsiSnapshot(a), CsiSnapshot(b)]
  }

  function Snapshotted(a: string, b: string): Tables {
    EMPTY.(layers := [Plain(0, None, "base"), Plain(1, Some(0), a), Plain(2, Some(0), b)],
           current := Some(0), nextId := 3)
  }

  /** A CSI snapshot with a free name adds a child of the current layer. */
  lemma SnapshotAdds(t: Tables, name: string)
    requires Constraints(t) && t.current.Some? && NameFree(t.layers, name)
    ensures Leads(t, CsiSnapshot(name),
                  t.(layers := t.layers + [Plain(t.nextId, t.current, name)], nextId := t.nextId + 1))
  {
    StepEvolves(t, CsiSnapshot(name));
  }

  lemma SecondNameFree(a: string, b: string)
    requires NameFree(Based().layers, b) && a != b
    ensures NameFree(Based().layers + [Plain(1, Some(0), a)], b)
  {
    assert Based().layers[0].name != b;
  }

  lemma SnapshottedIs(a: string, b: string)
    requires NameFree(Based().layers, a) && NameFree(Based().layers, b) && a != b
    ensures Constraints(EMPTY) && Constraints(Snapshotted(a, b))
    ensures Run(EMPTY, TwoSnapshots(a, b)) == Snapshotted(a, b)
  {
    var one := Based().(layers := Based().layers + [Plain(1, Some(0), a)], nextId := 2);
    BasedIs();
    SnapshotAdds(Based(), a);
    SecondNameFree(a, b);
    SnapshotAdds(one, b);
    assert one.layers + [Plain(2, Some(0), b)] == Snapshotted(a, b).layers;
    ThreeSteps(EMPTY, Manage(H.DoInitialize), Based(), CsiSnapshot(a), one, CsiSnapshot(b), Snapshotted(a, b));
  }

  lemma SnapshotsAhead(a: string, b: string)
    requires Constraints(Snapshotted(a, b))
    ensures var rows := Snapshotted(a, b).layers;
            var future := H.Future(rows, 0);
            && (forall l :: l in future <==> l == rows[1] || l == rows[2])
            && B.AllLeaves(rows, future)
  {
    var rows := Snapshotted(a, b).layers;
    B.ChildIsFuture(rows, 1, 0);
    B.ChildIsFuture(rows, 2, 0);
    forall l | l in H.Future(rows, 0) ensures l == rows[1] || l == rows[2] {
      var i :| 0 <= i < |H.Future(rows, 0)| && H.Future(rows, 0)[i] == l;
      B.FutureMember(rows, 0, i);
    }
  }

  /** Two layers lie ahead of the base, both taken by CSI snapshots, and a confirmed checkpoint still goes through. */
  lemma TwoAheadCanGo(a: string, b: string, name: string)
    requires NameFits(a) && NameFits(b) && a != "base" && b != "base" && a != b
    requires NameFits(name) && name != "base"
    ensures Constraints(EMPTY)
    ensures var t := Run(EMPTY, TwoSnapshots(a, b));
            && t.current == Some(0) && (forall id | id in {1, 2} :: HasId(t.layers, id))
            && B.IdSet(H.Future(t.layers, 0)) == {1, 2}
            && H.Checkpoint(t, name, true).1.Ok?
  {
    var t := Snapshotted(a, b);
    FreeBesideBase(a);
    FreeBesideBase(b);
    SnapshottedIs(a, b);
    SnapshotsAhead(a, b);
    assert t.layers[1].id == 1 && t.layers[2].id == 2;
    var gone := B.IdSet(H.Future(t.layers, 0));
    assert t.layers[1] in H.Future(t.layers, 0) && t.layers[2] in H.Future(t.layers, 0);
    assert gone == {1, 2};
    B.CheckpointSucceedsExactly(t, name, true);
    OnlyBaseLeft(a, b, name);
  }

  lemma OnlyBaseLeft(a: string, b: string, name: string)
    requires name != "base"
    ensures !NameUsed(B.Pruned(Snapshotted(a, b), {1, 2}).layers, name)
  {
    var t := Snapshotted(a, b);
    var rest := B.Pruned(t, {1, 2}).layers;
    WhereMembers(t.layers, B.LayerKept({1, 2}));
    forall i | 0 <= i < |rest| ensures rest[i].name != name {
      assert rest[i] in rest;
    }
  }

  // ---------- a refused checkpoint that loses a layer ----------

  /** Two snapshots of the base, a checkpoint on the second one, and back to the base. */
  function Branch(name: string): seq<Step> {
    [CsiRestore(2), Manage(H.DoCheckpoint(name, false)), Manage(H.DoSwitch(0))]
  }

  function Branched(a: string, b: string, name: string): Tables {
    EMPTY.(layers := [Plain(0, None, "base"), Plain(1, Some(0), a), Plain(2, Some(0), b).(readonly := true),
                      Plain(3, Some(2), name)],
           current := Some(0), nextId := 4)
  }

  lemma BranchedIs(a: string, b: string, name: string)
    requires Constraints(Snapshotted(a, b)) && NameFree(Snapshotted(a, b).layers, name)
    ensures Constraints(Branched(a, b, name)) && Run(Snapshotted(a, b), Branch(name)) == Branched(a, b, name)
  {
    var t, t' := Snapshotted(a, b), Branched(a, b, name);
    assert t.layers[2].id == 2 && t'.layers[0].id == 0;
    assert !IsParent(t.layers, 2);
    SwitchLeads(t, 2);
    CheckpointLeads(t.(current := Some(2)), 2, name);
    assert t.layers[2 := t.layers[2].(readonly := true)] + [Plain(3, Some(2), name)] == t'.layers;
    SwitchLeads(t'.(current := Some(3)), 0);
    ThreeSteps(t, CsiRestore(2), t.(current := Some(2)), Manage(H.DoCheckpoint(name, false)),
               t'.(current := Some(3)), Manage(H.DoSwitch(0)), t');
  }

  /** In these tables the first snapshot is older than every future layer with a child. */
  lemma BranchedFuture(a: string, b: string, name: string)
    requires Constraints(Branched(a, b, name))
    ensures var rows := Branched(a, b, name).layers;
            var future := H.Future(rows, 0);
            B.OlderThanParents(rows, future, rows[1]) && !B.AllLeaves(rows, future)
  {
    var rows := Branched(a, b, name).layers;
    var future := H.Future(rows, 0);
    B.ChildIsFuture(rows, 1, 0);
    B.ChildIsFuture(rows, 2, 0);
    assert rows[3].parent == Some(2);
    forall m | m in future && IsParent(rows, m.id) ensures Rank(rows, rows[1].id) < Rank(rows, m.id) {
      var i :| 0 <= i < |future| && future[i] == m;
      B.FutureMember(rows, 0, i);
      H.IndexIs(rows, 1);
      H.IndexIs(rows, 2);
    }
  }

  /**
   A confirmed checkpoint that is refused has lost a layer: the removal took the first snapshot
   before the second one, which has a child, stopped it.
   */
  lemma RefusedLosesLayer(a: string, b: string, name: string, again: string)
    requires NameFits(a) && NameFits(b) && a != "base" && b != "base" && a != b
    requires NameFree(Snapshotted(a, b).layers, name)
    ensures Constraints(EMPTY)
    ensures var t := Run(EMPTY, TwoSnapshots(a, b) + Branch(name));
            var (t', r) := H.Checkpoint(t, again, true);
            r == Err(H.Storage(ForeignKeyViolation)) && HasId(t.layers, 1) && !HasId(t'.layers, 1)
  {
    var t := Branched(a, b, name);
    FreeBesideBase(a);
    FreeBesideBase(b);
    SnapshottedIs(a, b);
    RunAppend(EMPTY, TwoSnapshots(a, b), Branch(name));
    BranchedIs(a, b, name);
    BranchedFuture(a, b, name);
    assert t.layers[1].id == 1;
    B.CheckpointTakes(t, again, true, t.layers[1]);
    B.CheckpointIs(t, again, true);
  }

  // ---------- a read-only layer over a writable one ----------

  function Frozen(m: string, name: string): seq<Step> {
    [OnMount(M.Init(m)), Manage(H.DoSwitch(1)), Manage(H.DoCheckpoint(name, false))]
  }

  function Mounted(m: string): Tables {
    EMPTY.(layers := [Layer(0, None, M.BaseName(m), false, Some(m), false),
                      Layer(1, Some(0), M.WorkingName(m), false, Some(m), true)], nextId := 2)
  }

  lemma MountedIs(m: string)
    requires NameFits(M.WorkingName(m))
    ensures Leads(EMPTY, OnMount(M.Init(m)), Mounted(m))
  {
    StepEvolves(EMPTY, OnMount(M.Init(m)));
    assert M.BaseName(m)[0] == 'b' && M.WorkingName(m)[0] == 'w';
    var base := Layer(0, None, M.BaseName(m), false, Some(m), false);
    var work := Layer(1, Some(0), M.WorkingName(m), false, Some(m), true);
    var first := EMPTY.(layers := [base], nextId := 1);
    assert |M.BaseName(m)| == 5 + |m| && |M.WorkingName(m)| == 8 + |m|;
    assert [] + [base] == [base] && [base] + [work] == Mounted(m).layers;
    assert Insert(EMPTY, None, M.BaseName(m), Some(m), false) == Ok(first);
    assert first.layers[0].id == 0;
    assert !NameUsed(first.layers, M.WorkingName(m));
    assert Insert(first, Some(0), M.WorkingName(m), Some(m), true) == Ok(Mounted(m));
  }

  function MountFrozen(m: string, name: string): Tables {
    EMPTY.(layers := [Mounted(m).layers[0], Mounted(m).layers[1].(readonly := true), Plain(2, Some(1), name)],
           current := Some(2), nextId := 3)
  }

  lemma MountFrozenIs(m: string, name: string)
    requires NameFits(M.WorkingName(m)) && NameFree(Mounted(m).layers, name)
    ensures Constraints(EMPTY) && Constraints(MountFrozen(m, name))
    ensures Run(EMPTY, Frozen(m, name)) == MountFrozen(m, name)
  {
    var t := Mounted(m);
    MountedIs(m);
    assert t.layers[1].id == 1;
    assert !IsParent(t.layers, 1);
    SwitchLeads(t, 1);
    CheckpointLeads(t.(current := Some(1)), 1, name);
    assert t.layers[1 := t.layers[1].(readonly := true)] + [Plain(2, Some(1), name)] == MountFrozen(m, name).layers;
    ThreeSteps(EMPTY, OnMount(M.Init(m)), t, Manage(H.DoSwitch(1)), t.(current := Some(1)),
               Manage(H.DoCheckpoint(name, false)), MountFrozen(m, name));
  }

  /** A mount, its working layer made current and a checkpoint: a read-only layer whose view can still change. */
  lemma ReadonlyOverWritableIsReal(m: string, name: string)
    requires NameFits(M.WorkingName(m)) && NameFree(Mounted(m).layers, name)
    ensures Constraints(EMPTY)
    ensures var t := Run(EMPTY, Frozen(m, name));
            HasId(t.layers, 1) && RowOf(t.layers, 1).readonly && !AllReadonly(Chain(t.layers, 1))
  {
    var rows := MountFrozen(m, name).layers;
    MountFrozenIs(m, name);
    RowIs(rows, 0);
    RowIs(rows, 1);
    ChainIs(rows, 1);
    ChainIs(rows, 0);
    assert Chain(rows, 1)[1] == rows[0];
  }

  // ---------- a deleted file leaves an old view ----------

  function Recording(inode: InodeId, path: string): seq<Step> {
    [Manage(H.DoInitialize), Manage(H.NewInode(inode)), Manage(H.DoRecord(inode, path, Add))]
  }

  function Recorded(inode: InodeId, path: string): Tables {
    Based().(inodes := {inode}, entries := [Entry(0, inode, path, Add)])
  }

  lemma RecordingIs(inode: InodeId, path: string)
    ensures Constraints(EMPTY) && Constraints(Recorded(inode, path))
    ensures Run(EMPTY, Recording(inode, path)) == Recorded(inode, path)
  {
    var t := Based().(inodes := {inode});
    BasedIs();
    StepEvolves(Based(), Manage(H.NewInode(inode)));
    assert {} + {inode} == {inode};
    BaseRecords(t, inode, path);
    ThreeSteps(EMPTY, Manage(H.DoInitialize), Based(), Manage(H.NewInode(inode)), t,
               Manage(H.DoRecord(inode, path, Add)), Recorded(inode, path));
  }

  lemma BaseRecords(t: Tables, inode: InodeId, path: string)
    requires Constraints(t) && t.layers == Based().layers && t.current == Some(0)
    requires t.entries == [] && inode in t.inodes
    ensures Leads(t, Manage(H.DoRecord(inode, path, Add)), t.(entries := [Entry(0, inode, path, Add)]))
  {
    assert t.layers[0].id == 0;
    StepEvolves(t, Manage(H.DoRecord(inode, path, Add)));
    assert [] + [Entry(0, inode, path, Add)] == [Entry(0, inode, path, Add)];
  }

  function FrozenBase(name: string): seq<Layer> {
    [Plain(0, None, "base").(readonly := true), Plain(1, Some(0), name)]
  }

  function RecordedFrozen(inode: InodeId, path: string, name: string): Tables {
    Recorded(inode, path).(layers := FrozenBase(name), current := Some(1), nextId := 2)
  }

  lemma FrozenBaseIs(rows: seq<Layer>, name: string)
    requires rows == Based().layers
    ensures rows[0].id == 0 && !IsParent(rows, 0)
    ensures rows[0 := rows[0].(readonly := true)] + [Plain(1, Some(0), name)] == FrozenBase(name)
  {
  }

  lemma BaseFreezes(t: Tables, name: string)
    requires Constraints(t) && t.layers == Based().layers && t.current == Some(0) && t.nextId == 1
    requires NameFree(t.layers, name)
    ensures Leads(t, Manage(H.DoCheckpoint(name, false)),
                  t.(layers := FrozenBase(name), current := Some(1), nextId := 2))
  {
    FrozenBaseIs(t.layers, name);
    CheckpointLeads(t, 0, name);
  }

  lemma FrozenBaseChain(rows: seq<Layer>, name: string)
    requires Forest(rows) && rows == FrozenBase(name)
    ensures HasId(rows, 0) && AllReadonly(Chain(rows, 0)) && Ids(Chain(rows, 0)) == [0]
  {
    RowIs(rows, 0);
    ChainIs(rows, 0);
    IdsOne(rows[0]);
  }

  lemma RecordedFrozenIs(inode: InodeId, path: string, name: string)
    requires NameFits(name) && name != "base"
    ensures Constraints(EMPTY) && Constraints(RecordedFrozen(inode, path, name))
    ensures Run(EMPTY, Recording(inode, path) + [Manage(H.DoCheckpoint(name, false))])
         == RecordedFrozen(inode, path, name)
  {
    RecordingIs(inode, path);
    FreeBesideBase(name);
    BaseFreezes(Recorded(inode, path), name);
    OneMoreStep(EMPTY, Recording(inode, path), Manage(H.DoCheckpoint(name, false)), RecordedFrozen(inode, path, name));
  }

  lemma LookupBeforeAndAfter(inode: InodeId, path: string)
    ensures var e := Entry(0, inode, path, Add);
            Lookup([0], [e], path) == Exists(0, inode) && Lookup([0], WithoutInode([e], inode), path) == NotFound
  {
    var e := Entry(0, inode, path, Add);
    NewEntryShows([0], [], e);
    assert [] + [e] == [e];
    assert [e][..0] == [];
    OldEntriesShowNothing([0], [], path);
  }

  /** A file is recorded in the base layer, a checkpoint freezes it, and the file is deleted: the old view loses it. */
  lemma InodeDeletionIsReal(inode: InodeId, path: string, name: string)
    requires NameFits(name) && name != "base"
    ensures Constraints(EMPTY)
    ensures var t := Run(EMPTY, Recording(inode, path) + [Manage(H.DoCheckpoint(name, false))]);
            && HasId(t.layers, 0) && AllReadonly(Chain(t.layers, 0)) && Ids(Chain(t.layers, 0)) == [0]
            && Lookup([0], t.entries, path) == Exists(0, inode)
            && Lookup([0], U.Run(t, [U.Unlink(inode)]).entries, path) == NotFound
  {
    var t := RecordedFrozen(inode, path, name);
    RecordedFrozenIs(inode, path, name);
    FrozenBaseChain(t.layers, name);
    U.UnlinkingOne(t, inode);
    LookupBeforeAndAfter(inode, path);
  }
}
