/**
 The chain of one mount while everything else goes on: checkpoints, deletions and CSI snapshots in
 the same table (src/layer/manager.rs, src/csi/snapshot.rs), and other mounts' snapshots.
 */
module MountHistory {
  import opened Prelude
  import opened LayerTable
  import opened Rows
  import B = Branches
  import H = History
  import M = MountLayers
  import opened TimeTravel

  /** The mount's layers in `rows'` are layers of its old chain, and still belong to it. */
  ghost predicate FromChain(chain: seq<Layer>, rows': seq<Layer>, m: string) {
    && (forall k: nat | k < |rows'| && rows'[k].mount == Some(m) ::
          exists j: nat | j < |chain| :: SameButFlag(chain[j], rows'[k]))
    && (forall k: nat, j: nat | k < |rows'| && j < |chain| && rows'[k].id == chain[j].id :: rows'[k].mount == Some(m))
  }

  function OfMount(m: string): Layer -> bool {
    (l: Layer) => l.mount == Some(m)
  }

  lemma {:induction false} MountRowsIs(rows: seq<Layer>, m: string)
    ensures M.MountRows(rows, m) == Where(rows, OfMount(m))
  {
    if rows != [] { MountRowsIs(rows[..|rows| - 1], m); }
  }

  lemma MountRowsInOrder(rows: seq<Layer>, m: string)
    requires DistinctIds(rows)
    ensures B.InOrder(rows, M.MountRows(rows, m))
  {
    MountRowsIs(rows, m);
    B.WhereInOrder(rows, OfMount(m), |rows|);
    assert rows[..|rows|] == rows;
  }

  /** Each layer on the one before it. */
  ghost predicate Linked(rows: seq<Layer>) {
    forall i | 1 <= i < |rows| :: rows[i].parent == Some(rows[i - 1].id)
  }

  /** Some row of the old chain is at index `i` among those that are left. */
  lemma ComesFrom(chain: seq<Layer>, rows': seq<Layer>, m: string, i: nat) returns (j: nat)
    requires FromChain(chain, rows', m) && i < |M.MountRows(rows', m)|
    ensures j < |chain| && SameButFlag(chain[j], M.MountRows(rows', m)[i])
  {
    var l := M.MountRows(rows', m)[i];
    M.MountRowsMembers(rows', m);
    assert l in M.MountRows(rows', m);
    var k: nat :| k < |rows'| && rows'[k] == l;
    j :| j < |chain| && SameButFlag(chain[j], rows'[k]);
  }

  /** The parent of a layer that is left is left as well, and before it. */
  lemma ParentIsLeft(chain: seq<Layer>, rows': seq<Layer>, m: string, i: nat, j: nat) returns (q: nat)
    requires Forest(rows') && FromChain(chain, rows', m) && Linked(chain)
    requires i < |M.MountRows(rows', m)| && 0 < j < |chain| && SameButFlag(chain[j], M.MountRows(rows', m)[i])
    ensures q < i && M.MountRows(rows', m)[q].id == chain[j - 1].id
  {
    var after := M.MountRows(rows', m);
    M.MountRowsMembers(rows', m);
    MountRowsInOrder(rows', m);
    assert after[i] in after;
    var k: nat :| k < |rows'| && rows'[k] == after[i];
    assert chain[j].parent == Some(chain[j - 1].id);
    ParentRank(rows', k);
    var p := Find(rows', chain[j - 1].id).value;
    assert rows'[p] in after;
    q :| 0 <= q < |after| && after[q] == rows'[p];
    BeforeByRank(rows', after, q, i);
  }

  lemma BeforeByRank(rows: seq<Layer>, chain: seq<Layer>, q: nat, i: nat)
    requires B.InOrder(rows, chain) && q < |chain| && i < |chain|
    requires Rank(rows, chain[q].id) < Rank(rows, chain[i].id)
    ensures q < i
  {
  }

  lemma ChainIdsDiffer(rows: seq<Layer>, chain: seq<Layer>, i: nat, j: nat)
    requires B.InOrder(rows, chain) && i < |chain| && j < |chain| && chain[i].id == chain[j].id
    ensures i == j
  {
  }

  lemma {:induction false} LeftAt(rows: seq<Layer>, rows': seq<Layer>, m: string, i: nat)
    requires DistinctIds(rows) && Forest(rows') && Linked(M.MountRows(rows, m))
    requires FromChain(M.MountRows(rows, m), rows', m) && i < |M.MountRows(rows', m)|
    ensures i < |M.MountRows(rows, m)| && SameButFlag(M.MountRows(rows, m)[i], M.MountRows(rows', m)[i])
  {
    var chain, after := M.MountRows(rows, m), M.MountRows(rows', m);
    var j := ComesFrom(chain, rows', m, i);
    MountRowsInOrder(rows, m);
    MountRowsInOrder(rows', m);
    if j < i {
      LeftAt(rows, rows', m, j);
      ChainIdsDiffer(rows', after, i, j);
    } else if i < j {
      var q := ParentIsLeft(chain, rows', m, i, j);
      LeftAt(rows, rows', m, q);
    }
  }

  /** The first layers of a chain, some of them frozen since. */
  ghost predicate BeginningOf(before: seq<Layer>, after: seq<Layer>) {
    |after| <= |before| && forall i | 0 <= i < |after| :: SameButFlag(before[i], after[i])
  }

  lemma BeginningIsChain(before: seq<Layer>, after: seq<Layer>, m: string)
    requires M.MountChain(before, m) && BeginningOf(before, after)
    ensures M.MountChain(after, m) <==> |after| == |before|
  {
    if M.MountChain(after, m) { assert after[|after| - 1].working; }
  }

  lemma LeftIsBeginning(rows: seq<Layer>, rows': seq<Layer>, m: string)
    requires DistinctIds(rows) && Forest(rows') && Linked(M.MountRows(rows, m))
    requires FromChain(M.MountRows(rows, m), rows', m)
    ensures BeginningOf(M.MountRows(rows, m), M.MountRows(rows', m))
  {
    var before, after := M.MountRows(rows, m), M.MountRows(rows', m);
    forall i | 0 <= i < |after| ensures i < |before| && SameButFlag(before[i], after[i]) {
      LeftAt(rows, rows', m, i);
    }
    if after != [] { LeftAt(rows, rows', m, |after| - 1); }
  }

  lemma UntouchedRows(t: Tables, t': Tables, touched: set<string>, m: string)
    requires Evolves(t, t', touched) && m !in touched
    ensures FromChain(M.MountRows(t.layers, m), t'.layers, m)
  {
    var chain := M.MountRows(t.layers, m);
    M.MountRowsMembers(t.layers, m);
    forall k: nat | k < |t'.layers| && t'.layers[k].mount == Some(m)
      ensures exists j: nat | j < |chain| :: SameButFlag(chain[j], t'.layers[k])
    {
      var id := t'.layers[k].id;
      RowIs(t'.layers, k);
      assert t.nextId <= id ==> NewRow(t', id, touched);
      assert RowEvolves(t, t', id, touched);
      assert RowOf(t.layers, id) in chain;
    }
    forall k: nat, j: nat | k < |t'.layers| && j < |chain| && t'.layers[k].id == chain[j].id
      ensures t'.layers[k].mount == Some(m)
    {
      assert chain[j] in chain;
      var i: nat :| i < |t.layers| && t.layers[i] == chain[j];
      RowIs(t.layers, i);
      RowIs(t'.layers, k);
      KnownId(t, chain[j].id);
      assert RowEvolves(t, t', chain[j].id, touched);
    }
  }

  /** The identifier of the mount's working layer. */
  function WorkingId(rows: seq<Layer>, m: string): Option<LayerId> {
    match M.FindWorking(rows, m) case None => None case Some(i) => Some(rows[i].id)
  }

  /** The working layer that the mount has in `rows` is one of `rows'`. */
  predicate HasWorkingOf(rows: seq<Layer>, m: string, rows': seq<Layer>) {
    WorkingId(rows, m).Some? && HasId(rows', WorkingId(rows, m).value)
  }

  lemma WorkingIdIs(rows: seq<Layer>, m: string)
    requires M.MountChain(M.MountRows(rows, m), m)
    ensures WorkingId(rows, m) == Some(M.MountRows(rows, m)[|M.MountRows(rows, m)| - 1].id)
  {
    M.WorkingIsLast(rows, m);
  }

  /** What is left is the whole chain exactly when its working layer is. */
  lemma WholeWithWorking(t: Tables, t': Tables, touched: set<string>, m: string)
    requires Evolves(t, t', touched) && m !in touched && M.MountChain(M.MountRows(t.layers, m), m)
    ensures var before, after := M.MountRows(t.layers, m), M.MountRows(t'.layers, m);
            && BeginningOf(before, after)
            && (M.MountChain(after, m) <==> HasWorkingOf(t.layers, m, t'.layers))
  {
    var before, after := M.MountRows(t.layers, m), M.MountRows(t'.layers, m);
    var top := before[|before| - 1].id;
    WorkingIdIs(t.layers, m);
    UntouchedRows(t, t', touched, m);
    LeftIsBeginning(t.layers, t'.layers, m);
    BeginningIsChain(before, after, m);
    M.MountRowsMembers(t'.layers, m);
    MountRowsInOrder(t.layers, m);
    if |after| == |before| {
      assert after[|after| - 1] in after;
      var k: nat :| k < |t'.layers| && t'.layers[k] == after[|after| - 1];
    }
    if HasId(t'.layers, top) {
      var k := Find(t'.layers, top).value;
      assert t'.layers[k] in after;
      var i :| 0 <= i < |after| && after[i] == t'.layers[k];
      ChainIdsDiffer(t.layers, before, i, |before| - 1);
    }
  }

  /**
   Over any run in which the mount itself is neither initialised nor snapshotted, whatever the
   manager, CSI and other mounts do: what is left of its chain is a beginning of it, and it is the
   whole chain if and only if the working layer is still there.
   */
  lemma OthersLeaveBeginning(t: Tables, steps: seq<Step>, m: string)
    requires Constraints(t) && M.MountChain(M.MountRows(t.layers, m), m) && m !in TouchedBy(steps)
    ensures var t' := Run(t, steps);
            var before, after := M.MountRows(t.layers, m), M.MountRows(t'.layers, m);
            && BeginningOf(before, after)
            && (M.MountChain(after, m) <==> HasWorkingOf(t.layers, m, t'.layers))
  {
    RunEvolves(t, steps);
    WholeWithWorking(t, Run(t, steps), TouchedBy(steps), m);
  }

  lemma OwnStepKeepsWorking(t: Tables, op: M.Op, m: string)
    requires Constraints(t) && M.MountChain(M.MountRows(t.layers, m), m) && op.m == m
    requires op != M.Snap(m, M.WorkingName(m))
    ensures HasWorkingOf(t.layers, m, M.Apply(t, op).0.layers)
  {
    var before, rows := M.MountRows(t.layers, m), M.Apply(t, op).0.layers;
    M.MountRowsMembers(t.layers, m);
    M.MountRowsMembers(rows, m);
    assert before[|before| - 1] in before;
    WorkingIdIs(t.layers, m);
    match op
    case Init(_) => M.InitAgain(t, m);
    case Snap(_, name) =>
      M.SnapshotExact(t, m, name);
      if M.Snapshot(t, m, name).1.Ok? {
        var after := M.MountRows(rows, m);
        assert after[|before| - 1].id == before[|before| - 1].id;
        assert after[|before| - 1] in after;
      }
  }

  predicate KeepsWorking(t: Tables, s: Step, m: string)
    requires Forest(t.layers)
  {
    s != OnMount(M.Snap(m, M.WorkingName(m))) && HasWorkingOf(t.layers, m, Apply(t, s).layers)
  }

  /**
   One step of any kind takes the chain of a mount apart if and only if it snapshots the mount under
   its working name or deletes its working layer.
   */
  lemma StepKeepsChainExactly(t: Tables, s: Step, m: string)
    requires Constraints(t) && M.MountChain(M.MountRows(t.layers, m), m)
    ensures M.MountChain(M.MountRows(Apply(t, s).layers, m), m)
        <==> KeepsWorking(t, s, m)
  {
    if m in Touched(s) {
      if s.mountOp == M.Snap(m, M.WorkingName(m)) {
        M.ApplyBreaks(t, m);
      } else {
        M.ApplyGrows(t, s.mountOp, m);
        OwnStepKeepsWorking(t, s.mountOp, m);
      }
    } else {
      StepEvolves(t, s);
      WholeWithWorking(t, Apply(t, s), Touched(s), m);
    }
  }

  lemma RunStep(t: Tables, steps: seq<Step>, n: nat)
    requires Constraints(t) && n < |steps|
    ensures Run(t, steps[..n + 1]) == Apply(Run(t, steps[..n]), steps[n])
  {
    assert steps[..n + 1] == steps[..n] + [steps[n]];
    RunAppend(t, steps[..n], [steps[n]]);
    RunOne(Run(t, steps[..n]), steps[n]);
  }

  lemma RunNothing(t: Tables, steps: seq<Step>)
    requires Constraints(t)
    ensures Run(t, steps[..0]) == t
  {
  }

  ghost predicate ChainAfter(t: Tables, steps: seq<Step>, m: string, n: nat)
    requires Constraints(t) && n <= |steps|
  {
    M.MountChain(M.MountRows(Run(t, steps[..n]).layers, m), m)
  }

  ghost predicate KeepsAt(t: Tables, steps: seq<Step>, m: string, n: nat)
    requires Constraints(t) && n < |steps|
  {
    KeepsWorking(Run(t, steps[..n]), steps[n], m)
  }

  lemma NextKeepsChain(t: Tables, steps: seq<Step>, m: string, n: nat)
    requires Constraints(t) && n < |steps| && ChainAfter(t, steps, m, n)
    ensures ChainAfter(t, steps, m, n + 1) <==> KeepsAt(t, steps, m, n)
  {
    RunStep(t, steps, n);
    StepKeepsChainExactly(Run(t, steps[..n]), steps[n], m);
  }

  lemma {:induction false} ChainUpTo(t: Tables, steps: seq<Step>, m: string, n: nat)
    requires Constraints(t) && M.MountChain(M.MountRows(t.layers, m), m) && n <= |steps|
    requires forall k: nat | k < n :: KeepsAt(t, steps, m, k)
    ensures ChainAfter(t, steps, m, n)
  {
    if n == 0 {
      RunNothing(t, steps);
    } else {
      ChainUpTo(t, steps, m, n - 1);
      NextKeepsChain(t, steps, m, n - 1);
    }
  }

  /**
   Over runs of all steps: a mount that has its chain has it at every point of the run if and only
   if no step snapshots it under its working name or deletes the working layer it has by then.
   */
  lemma ChainThroughoutExactly(t: Tables, steps: seq<Step>, m: string)
    requires Constraints(t) && M.MountChain(M.MountRows(t.layers, m), m)
    ensures (forall n: nat | n <= |steps| :: ChainAfter(t, steps, m, n))
        <==> (forall n: nat | n < |steps| :: KeepsAt(t, steps, m, n))
  {
    if forall n: nat | n <= |steps| :: ChainAfter(t, steps, m, n) {
      forall n: nat | n < |steps| ensures KeepsAt(t, steps, m, n) {
        assert ChainAfter(t, steps, m, n + 1);
        NextKeepsChain(t, steps, m, n);
      }
    }
    if forall n: nat | n < |steps| :: KeepsAt(t, steps, m, n) {
      forall n: nat | n <= |steps| ensures ChainAfter(t, steps, m, n) {
        ChainUpTo(t, steps, m, n);
      }
    }
  }

  // ---------- every mount, always ----------

  /**
   What is left of a mount's chain at any time: its base layer at the bottom, each later layer on
   the one before it, and no layer working but a last one under the working name.
   */
  ghost predicate Shaped(rows: seq<Layer>, m: string) {
    && Linked(rows)
    && (rows != [] ==> rows[0].parent == None && rows[0].name == M.BaseName(m) && !rows[0].working)
    && (forall i | 0 <= i < |rows| && rows[i].working :: i == |rows| - 1 && rows[i].name == M.WorkingName(m))
  }

  lemma BeginningIsShaped(before: seq<Layer>, after: seq<Layer>, m: string)
    requires Shaped(before, m) && BeginningOf(before, after)
    ensures Shaped(after, m)
  {
    forall i | 1 <= i < |after| ensures after[i].parent == Some(after[i - 1].id) {
      assert SameButFlag(before[i - 1], after[i - 1]);
    }
  }

  /** With a working layer it is the whole chain. */
  lemma ShapedWithWorking(rows: seq<Layer>, m: string)
    requires Shaped(M.MountRows(rows, m), m) && M.FindWorking(rows, m).Some?
    ensures M.MountChain(M.MountRows(rows, m), m)
  {
    var mine := M.MountRows(rows, m);
    M.MountRowsMembers(rows, m);
    assert rows[M.FindWorking(rows, m).value] in mine;
    var i :| 0 <= i < |mine| && mine[i] == rows[M.FindWorking(rows, m).value];
    assert mine[i].working && !mine[0].working;
  }

  lemma BaseNameUsed(rows: seq<Layer>, m: string)
    requires Shaped(M.MountRows(rows, m), m) && M.MountRows(rows, m) != []
    ensures NameUsed(rows, M.BaseName(m))
  {
    M.MountRowsMembers(rows, m);
    assert M.MountRows(rows, m)[0] in M.MountRows(rows, m);
  }

  lemma NewRowsAreShaped(base: Layer, work: Layer, m: string)
    requires base.parent == None && base.name == M.BaseName(m) && !base.working
    requires work.parent == Some(base.id) && work.name == M.WorkingName(m)
    ensures Shaped([base], m) && Shaped([base, work], m)
  {
  }

  lemma InitShapes(t: Tables, m: string)
    requires Constraints(t) && Shaped(M.MountRows(t.layers, m), m)
    ensures Shaped(M.MountRows(M.InitLayers(t, m).0.layers, m), m)
  {
    M.InitExact(t, m);
    if M.MountRows(t.layers, m) != [] {
      BaseNameUsed(t.layers, m);
    } else {
      InitFirst(t, m);
    }
  }

  /** The first initialisation of a mount leaves its base layer, or both layers. */
  lemma InitFirst(t: Tables, m: string)
    requires Constraints(t) && M.MountRows(t.layers, m) == []
    ensures Shaped(M.MountRows(M.InitLayers(t, m).0.layers, m), m)
  {
    var base := Layer(t.nextId, None, M.BaseName(m), false, Some(m), false);
    var work := Layer(t.nextId + 1, Some(t.nextId), M.WorkingName(m), false, Some(m), true);
    M.InitExact(t, m);
    M.MountRowsAppend(t.layers, [base], m);
    M.OneRow(base, m);
    NewRowsAreShaped(base, work, m);
    assert [] + [base] == [base] && [] + [base, work] == [base, work];
  }

  lemma BreakShapes(t: Tables, m: string)
    requires Constraints(t) && M.MountChain(M.MountRows(t.layers, m), m)
    ensures Shaped(M.MountRows(M.Snapshot(t, m, M.WorkingName(m)).0.layers, m), m)
  {
    M.WorkingIsLast(t.layers, m);
    M.OnlyWorking(t.layers, m);
    var i, mine := M.FindWorking(t.layers, m).value, M.MountRows(t.layers, m);
    var renamed := t.layers[i].(working := false, name := M.WorkingName(m));
    assert mine[|mine| - 1] == t.layers[i];
    M.SnapshotWorkingName(t, m, i);
    M.MountRowsAround(t.layers, i, renamed, m);
    BrokenIsShaped(mine, renamed, m);
  }

  lemma BrokenIsShaped(rows: seq<Layer>, last: Layer, m: string)
    requires M.MountChain(rows, m) && last == rows[|rows| - 1].(working := false, name := last.name)
    ensures Shaped(rows[..|rows| - 1] + [last], m)
  {
  }

  lemma SnapShapes(t: Tables, m: string, name: string)
    requires Constraints(t) && Shaped(M.MountRows(t.layers, m), m)
    ensures Shaped(M.MountRows(M.Snapshot(t, m, name).0.layers, m), m)
  {
    if M.FindWorking(t.layers, m).Some? {
      ShapedWithWorking(t.layers, m);
      M.SnapshotExact(t, m, name);
      if name == M.WorkingName(m) { BreakShapes(t, m); }
    }
  }

  lemma StepShapes(t: Tables, s: Step, m: string)
    requires Constraints(t) && Shaped(M.MountRows(t.layers, m), m)
    ensures Shaped(M.MountRows(Apply(t, s).layers, m), m)
  {
    if m in Touched(s) {
      match s.mountOp
      case Init(_) => InitShapes(t, m);
      case Snap(_, name) => SnapShapes(t, m, name);
    } else {
      StepEvolves(t, s);
      UntouchedRows(t, Apply(t, s), Touched(s), m);
      LeftIsBeginning(t.layers, Apply(t, s).layers, m);
      BeginningIsShaped(M.MountRows(t.layers, m), M.MountRows(Apply(t, s).layers, m), m);
    }
  }

  lemma {:induction false} RunShapes(t: Tables, steps: seq<Step>, m: string)
    requires Constraints(t) && Shaped(M.MountRows(t.layers, m), m)
    ensures Shaped(M.MountRows(Run(t, steps).layers, m), m)
    decreases steps
  {
    if steps != [] {
      StepShapes(t, steps[0], m);
      StepEvolves(t, steps[0]);
      RunShapes(Apply(t, steps[0]), steps[1..], m);
    }
  }

  /**
   From an empty tenant, over any run of all steps: a mount that has a working layer has its whole
   chain, and any other mount what is left of one. So every batch meets mounts of these two kinds.
   */
  lemma MountsAreWhole(steps: seq<Step>, mounts: seq<M.MountRow>)
    ensures Constraints(EMPTY)
    ensures forall m :: Shaped(M.MountRows(Run(EMPTY, steps).layers, m), m)
    ensures M.Whole(Run(EMPTY, steps), mounts)
  {
    var t := Run(EMPTY, steps);
    forall m ensures Shaped(M.MountRows(t.layers, m), m) {
      RunShapes(EMPTY, steps, m);
    }
    forall row | row in mounts && M.FindWorking(t.layers, row.id).Some?
      ensures M.MountChain(M.MountRows(t.layers, row.id), row.id)
    {
      ShapedWithWorking(t.layers, row.id);
    }
  }
}
