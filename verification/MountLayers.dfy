/**
 The per-mount layer chains of src/storage/layer.rs: every mount has a base layer, its snapshots
 and one working layer on top, all in the tenant's one layer table.
 */
module MountLayers {
  import opened Prelude
  import opened LayerTable
  import opened LayerStore

  datatype MountRow = MountRow(name: string, id: string, currentLayer: Option<LayerId>)

  datatype SnapshotError = NoWorkingLayer | Database(cause: SqlError)

  datatype Reason = NoChanges | MountNotFound | RowUnreadable | Failed(cause: SnapshotError)

  datatype SnapshotResult = Taken(mount: string, layer: LayerId) | Skipped(mount: string, reason: Reason)

  function BaseName(m: string): string { "base-" + m }

  function WorkingName(m: string): string { "working-" + m }

  // ---------- the operations ----------

  function FindWorking(rows: seq<Layer>, m: string): (r: Option<nat>)
    ensures r.Some? ==> r.value < |rows| && rows[r.value].mount == Some(m) && rows[r.value].working
    ensures r.None? ==> forall i | 0 <= i < |rows| :: rows[i].mount != Some(m) || !rows[i].working
  {
    if rows == [] then None
    else
      var last := |rows| - 1;
      if rows[last].mount == Some(m) && rows[last].working then Some(last)
      else
        assert forall i | 0 <= i < last :: rows[..last][i] == rows[i];
        FindWorking(rows[..last], m)
  }

  predicate NamedElsewhere(rows: seq<Layer>, i: nat, name: string) {
    exists j | 0 <= j < |rows| :: j != i && rows[j].name == name
  }

  function InitLayers(t: Tables, m: string): (Tables, Result<(LayerId, LayerId), SqlError>) {
    match Insert(t, None, BaseName(m), Some(m), false)
    case Err(e) => (t, Err(e))
    case Ok(t1) =>
      match Insert(t1, Some(t.nextId), WorkingName(m), Some(m), true)
      case Err(e) => (t1, Err(e))
      case Ok(t2) => (t2, Ok((t.nextId, t1.nextId)))
  }

  /** UPDATE of row `i`: it stops being the working layer and takes the snapshot's name. */
  function Renamed(t: Tables, i: nat, name: string): Tables
    requires i < |t.layers|
  {
    t.(layers := t.layers[i := t.layers[i].(working := false, name := name)])
  }

  function Snapshot(t: Tables, m: string, name: string): (Tables, Result<LayerId, SnapshotError>) {
    match FindWorking(t.layers, m)
    case None => (t, Err(NoWorkingLayer))
    case Some(i) =>
      if !NameFits(name) then (t, Err(Database(ValueTooLong)))
      else if NamedElsewhere(t.layers, i, name) then (t, Err(Database(UniqueViolation)))
      else
        var t1 := Renamed(t, i, name);
        match Insert(t1, Some(t.layers[i].id), WorkingName(m), Some(m), true)
        case Err(e) => (t1, Err(Database(e)))
        case Ok(t2) => (t2, Ok(t1.nextId))
  }

  function FindMount(mounts: seq<MountRow>, name: string): Option<MountRow> {
    if mounts == [] then None
    else if mounts[0].name == name then Some(mounts[0])
    else FindMount(mounts[1..], name)
  }

  lemma {:induction false} FindMountAppend(mounts: seq<MountRow>, row: MountRow)
    ensures FindMount(mounts + [row], row.name)
         == if FindMount(mounts, row.name).Some? then FindMount(mounts, row.name) else Some(row)
  {
    if mounts != [] {
      assert (mounts + [row])[1..] == mounts[1..] + [row];
      FindMountAppend(mounts[1..], row);
    }
  }

  /** The statistics trigger keeps `file_count` equal to the number of the layer's entries. */
  function FileCount(t: Tables, layer: LayerId): nat {
    |EntriesOf(t.entries, layer)|
  }

  predicate Unchanged(t: Tables, m: string) {
    match FindWorking(t.layers, m)
    case None => false
    case Some(i) => FileCount(t, t.layers[i].id) == 0
  }

  function BatchOne(t: Tables, mounts: seq<MountRow>, mountName: string, name: string, skipUnchanged: bool)
    : (Tables, SnapshotResult)
  {
    match FindMount(mounts, mountName)
    case None => (t, Skipped(mountName, MountNotFound))
    case Some(row) =>
      if row.currentLayer.None? then (t, Skipped(mountName, RowUnreadable))
      else if skipUnchanged && Unchanged(t, row.id) then (t, Skipped(mountName, NoChanges))
      else
        match Snapshot(t, row.id, name)
        case (t', Ok(layer)) => (t', Taken(mountName, layer))
        case (t', Err(e)) => (t', Skipped(mountName, Failed(e)))
  }

  function Batch(t: Tables, mounts: seq<MountRow>, names: seq<string>, name: string, skipUnchanged: bool)
    : (r: (Tables, seq<SnapshotResult>))
    ensures |r.1| == |names|
    decreases names
  {
    if names == [] then (t, [])
    else
      var last := |names| - 1;
      var (t1, results) := Batch(t, mounts, names[..last], name, skipUnchanged);
      var (t2, result) := BatchOne(t1, mounts, names[last], name, skipUnchanged);
      (t2, results + [result])
  }

  // ---------- constraints are kept ----------

  lemma RenamedKeeps(t: Tables, i: nat, name: string)
    requires Constraints(t) && i < |t.layers| && NameFits(name) && !NamedElsewhere(t.layers, i, name)
    ensures Constraints(Renamed(t, i, name))
  {
    var t' := Renamed(t, i, name);
    forall k: nat | k < |t'.layers| ensures ParentEarlier(t'.layers, k) {
      assert ParentEarlier(t.layers, k);
      if t.layers[k].parent.Some? {
        var j: nat :| j < k && t.layers[j].id == t.layers[k].parent.value;
        assert t'.layers[j].id == t'.layers[k].parent.value;
      }
    }
    forall id | HasId(t.layers, id) ensures HasId(t'.layers, id) {
      var j :| 0 <= j < |t.layers| && t.layers[j].id == id;
      assert t'.layers[j].id == id;
    }
  }

  lemma SnapshotKeeps(t: Tables, m: string, name: string)
    requires Constraints(t)
    ensures Constraints(Snapshot(t, m, name).0)
  {
    var found := FindWorking(t.layers, m);
    if found.Some? && NameFits(name) && !NamedElsewhere(t.layers, found.value, name) {
      RenamedKeeps(t, found.value, name);
      var t1 := Renamed(t, found.value, name);
      if Insert(t1, Some(t.layers[found.value].id), WorkingName(m), Some(m), true).Ok? {
        InsertKeeps(t1, Some(t.layers[found.value].id), WorkingName(m), Some(m), true);
      }
    }
  }

  // ---------- one mount's rows ----------

  function MountRows(rows: seq<Layer>, m: string): seq<Layer> {
    if rows == [] then []
    else
      var last := |rows| - 1;
      MountRows(rows[..last], m) + if rows[last].mount == Some(m) then [rows[last]] else []
  }

  lemma {:induction false} MountRowsAppend(a: seq<Layer>, b: seq<Layer>, m: string)
    ensures MountRows(a + b, m) == MountRows(a, m) + MountRows(b, m)
  {
    if b == [] {
      assert a + b == a;
    } else {
      assert (a + b)[..|a + b| - 1] == a + b[..|b| - 1];
      MountRowsAppend(a, b[..|b| - 1], m);
    }
  }

  lemma {:induction false} MountRowsMembers(rows: seq<Layer>, m: string)
    ensures forall l :: l in MountRows(rows, m) <==> l in rows && l.mount == Some(m)
  {
    if rows != [] {
      MountRowsMembers(rows[..|rows| - 1], m);
      assert rows == rows[..|rows| - 1] + [rows[|rows| - 1]];
    }
  }

  lemma MountRowsAround(rows: seq<Layer>, i: nat, l: Layer, m: string)
    requires i < |rows| && l.mount == rows[i].mount
    ensures rows[i := l] == rows[..i] + [l] + rows[i + 1..]
    ensures var own := rows[i].mount == Some(m);
            && MountRows(rows, m)
            == MountRows(rows[..i], m) + (if own then [rows[i]] else []) + MountRows(rows[i + 1..], m)
            && MountRows(rows[i := l], m)
            == MountRows(rows[..i], m) + (if own then [l] else []) + MountRows(rows[i + 1..], m)
  {
    var a, b := rows[..i], rows[i + 1..];
    assert rows == a + [rows[i]] + b;
    assert rows[i := l] == a + [l] + b;
    MountRowsAppend(a + [rows[i]], b, m);
    MountRowsAppend(a, [rows[i]], m);
    MountRowsAppend(a + [l], b, m);
    MountRowsAppend(a, [l], m);
    OneRow(rows[i], m);
    OneRow(l, m);
  }

  /** Base at the bottom, each later row on the one before it, exactly the last one working. */
  ghost predicate MountChain(rows: seq<Layer>, m: string) {
    && |rows| >= 2
    && rows[0].parent == None && rows[0].name == BaseName(m)
    && (forall i | 1 <= i < |rows| :: rows[i].parent == Some(rows[i - 1].id))
    && (forall i | 0 <= i < |rows| :: rows[i].working <==> i == |rows| - 1)
    && rows[|rows| - 1].name == WorkingName(m)
  }

  /** The rows of mount `m` after a snapshot of it called `name` went through. */
  function Extended(rows: seq<Layer>, m: string, name: string, id: LayerId): seq<Layer>
    requires rows != []
  {
    var last := |rows| - 1;
    rows[..last] + [rows[last].(working := false, name := name),
                    Layer(id, Some(rows[last].id), WorkingName(m), false, Some(m), true)]
  }

  lemma {:induction false} MountRowsSplit(rows: seq<Layer>, i: nat, m: string)
    requires i < |rows| && rows[i].mount == Some(m)
    ensures MountRows(rows, m) == MountRows(rows[..i], m) + [rows[i]] + MountRows(rows[i + 1..], m)
  {
    MountRowsAround(rows, i, rows[i], m);
  }

  lemma HasWorking(rows: seq<Layer>, m: string)
    requires MountChain(MountRows(rows, m), m)
    ensures FindWorking(rows, m).Some?
  {
    var mine := MountRows(rows, m);
    MountRowsMembers(rows, m);
    assert mine[|mine| - 1] in mine;
  }

  lemma WorkingIsLast(rows: seq<Layer>, m: string)
    requires MountChain(MountRows(rows, m), m)
    ensures var found := FindWorking(rows, m);
            && found.Some?
            && MountRows(rows[found.value + 1..], m) == []
            && MountRows(rows, m) == MountRows(rows[..found.value], m) + [rows[found.value]]
  {
    HasWorking(rows, m);
    var i := FindWorking(rows, m).value;
    MountRowsSplit(rows, i, m);
    var mine, before := MountRows(rows, m), |MountRows(rows[..i], m)|;
    assert mine[before] == rows[i];
    assert before == |mine| - 1;
  }

  /** No other row of the mount is working. */
  lemma OnlyWorking(rows: seq<Layer>, m: string)
    requires MountChain(MountRows(rows, m), m)
    ensures forall j | 0 <= j < |rows| && Some(j) != FindWorking(rows, m) ::
              rows[j].mount != Some(m) || !rows[j].working
  {
    WorkingIsLast(rows, m);
    var i, mine := FindWorking(rows, m).value, MountRows(rows, m);
    MountRowsMembers(rows[i + 1..], m);
    forall j | i < j < |rows| ensures rows[j].mount != Some(m) {
      assert rows[i + 1..][j - i - 1] == rows[j];
    }
    forall j | 0 <= j < i && rows[j].mount == Some(m) ensures !rows[j].working {
      MountRowsSplit(rows, j, m);
      assert mine[|MountRows(rows[..j], m)|] == rows[j];
      MountRowsMembers(rows[j + 1..], m);
      assert rows[j + 1..][i - j - 1] == rows[i];
      assert rows[i] in MountRows(rows[j + 1..], m);
    }
  }

  lemma FreshWorkingInserts(t: Tables, i: nat, m: string, name: string)
    requires Constraints(t) && FindWorking(t.layers, m) == Some(i) && t.layers[i].name == WorkingName(m)
    requires forall j | 0 <= j < |t.layers| && j != i :: t.layers[j].mount != Some(m) || !t.layers[j].working
    requires name != WorkingName(m)
    ensures var t1 := Renamed(t, i, name);
            Insert(t1, Some(t.layers[i].id), WorkingName(m), Some(m), true) ==
            Ok(t1.(layers := t1.layers + [Layer(t.nextId, Some(t.layers[i].id), WorkingName(m), false, Some(m), true)],
                   nextId := t.nextId + 1))
  {
    var t1 := Renamed(t, i, name);
    assert t1.layers[i].id == t.layers[i].id;
    forall j | 0 <= j < |t1.layers|
      ensures t1.layers[j].name != WorkingName(m) && !(t1.layers[j].mount == Some(m) && t1.layers[j].working)
    {
      if j < i { assert t.layers[j].name != t.layers[i].name; }
      if i < j { assert t.layers[i].name != t.layers[j].name; }
    }
  }

  /**
   A snapshot of a mount that has its chain. It goes through exactly when the name fits, is used by
   no other layer of the tenant and is not the working name; then the chain grows by one layer.
   With the working name it fails half way and leaves the mount without a working layer; with
   any other used name it changes nothing.
   */
  lemma SnapshotExact(t: Tables, m: string, name: string)
    requires Constraints(t) && MountChain(MountRows(t.layers, m), m)
    ensures var mine, (t', r), i := MountRows(t.layers, m), Snapshot(t, m, name), FindWorking(t.layers, m);
            && i.Some?
            && (r.Ok? <==> NameFits(name) && !NamedElsewhere(t.layers, i.value, name) && name != WorkingName(m))
            && (r.Ok? ==> r.value == t.nextId && MountRows(t'.layers, m) == Extended(mine, m, name, t.nextId)
                          && MountChain(MountRows(t'.layers, m), m))
            && (FindWorking(t'.layers, m).Some? <==> name != WorkingName(m))
            && (r.Err? && name != WorkingName(m) ==> t' == t)
  {
    WorkingIsLast(t.layers, m);
    OnlyWorking(t.layers, m);
    var i := FindWorking(t.layers, m).value;
    var mine := MountRows(t.layers, m);
    assert mine[|mine| - 1] == t.layers[i];
    if name == WorkingName(m) {
      SnapshotWorkingName(t, m, i);
    } else if NameFits(name) && !NamedElsewhere(t.layers, i, name) {
      FreshWorkingInserts(t, i, m, name);
      SnapshotRows(t, m, name);
      HasWorking(Snapshot(t, m, name).0.layers, m);
    }
  }

  lemma SnapshotWorkingName(t: Tables, m: string, i: nat)
    requires DistinctNames(t.layers) && NamesFit(t.layers)
    requires FindWorking(t.layers, m) == Some(i) && t.layers[i].name == WorkingName(m)
    requires forall j | 0 <= j < |t.layers| && j != i :: t.layers[j].mount != Some(m) || !t.layers[j].working
    ensures Snapshot(t, m, WorkingName(m)) == (Renamed(t, i, WorkingName(m)), Err(Database(UniqueViolation)))
    ensures FindWorking(Renamed(t, i, WorkingName(m)).layers, m) == None
  {
    var t1 := Renamed(t, i, WorkingName(m));
    assert t1.layers[i].name == WorkingName(m);
    forall j | 0 <= j < |t.layers| && j != i ensures t.layers[j].name != WorkingName(m) {
      assert if i < j then t.layers[i].name != t.layers[j].name else t.layers[j].name != t.layers[i].name;
    }
  }

  lemma OneRow(l: Layer, m: string)
    ensures MountRows([l], m) == if l.mount == Some(m) then [l] else []
  {
    assert [l][..0] == [];
  }

  lemma ExtendedIsChain(rows: seq<Layer>, m: string, name: string, id: LayerId)
    requires MountChain(rows, m)
    ensures MountChain(Extended(rows, m, name, id), m)
  {
    var longer, last := Extended(rows, m, name, id), |rows| - 1;
    assert forall i | 0 <= i < last :: longer[i] == rows[i];
    assert longer[last].parent == rows[last].parent && longer[last].id == rows[last].id;
  }

  lemma SnapshotRows(t: Tables, m: string, name: string)
    requires MountChain(MountRows(t.layers, m), m) && Snapshot(t, m, name).1.Ok?
    ensures MountRows(Snapshot(t, m, name).0.layers, m) == Extended(MountRows(t.layers, m), m, name, t.nextId)
    ensures MountChain(MountRows(Snapshot(t, m, name).0.layers, m), m)
  {
    WorkingIsLast(t.layers, m);
    var i := FindWorking(t.layers, m).value;
    var snap := t.layers[i].(working := false, name := name);
    var added := Layer(t.nextId, Some(t.layers[i].id), WorkingName(m), false, Some(m), true);
    assert Snapshot(t, m, name).0.layers == t.layers[i := snap] + [added];
    MountRowsAround(t.layers, i, snap, m);
    MountRowsAppend(t.layers[i := snap], [added], m);
    OneRow(added, m);
    ExtendedIsChain(MountRows(t.layers, m), m, name, t.nextId);
  }

  /** A snapshot of one mount leaves the rows of every other mount as they were. */
  lemma SnapshotElsewhere(t: Tables, m: string, name: string, other: string)
    requires other != m
    ensures MountRows(Snapshot(t, m, name).0.layers, other) == MountRows(t.layers, other)
  {
    var found := FindWorking(t.layers, m);
    if found.Some? && NameFits(name) && !NamedElsewhere(t.layers, found.value, name) {
      var i := found.value;
      var snap := t.layers[i].(working := false, name := name);
      MountRowsAround(t.layers, i, snap, other);
      var added := Layer(t.nextId, Some(t.layers[i].id), WorkingName(m), false, Some(m), true);
      MountRowsAppend(t.layers[i := snap], [added], other);
      OneRow(added, other);
    }
  }

  // ---------- creating a mount's layers ----------

  lemma PairRows(rows: seq<Layer>, base: Layer, work: Layer, other: string)
    requires base.mount == work.mount
    ensures MountRows(rows + [base, work], other)
         == MountRows(rows, other) + if base.mount == Some(other) then [base, work] else []
  {
    assert rows + [base, work] == rows + [base] + [work];
    MountRowsAppend(rows + [base], [work], other);
    MountRowsAppend(rows, [base], other);
    OneRow(base, other);
    OneRow(work, other);
  }

  /**
   The two layers of a mount are created exactly when both names fit and are free and the mount has
   no working layer; then they follow its other rows. A refused base name leaves everything as it was,
   but a failure of the second insertion leaves the base layer behind.
   */
  lemma InitExact(t: Tables, m: string)
    requires Constraints(t)
    ensures var base, work, (t', r) := Layer(t.nextId, None, BaseName(m), false, Some(m), false),
                                       Layer(t.nextId + 1, Some(t.nextId), WorkingName(m), false, Some(m), true),
                                       InitLayers(t, m);
            && (r.Ok? <==> NameFree(t.layers, BaseName(m)) && NameFree(t.layers, WorkingName(m))
                           && FindWorking(t.layers, m) == None)
            && (r.Ok? ==> r == Ok((t.nextId, t.nextId + 1))
                          && t' == t.(layers := t.layers + [base, work], nextId := t.nextId + 2)
                          && MountRows(t'.layers, m) == MountRows(t.layers, m) + [base, work])
            && (!NameFree(t.layers, BaseName(m)) ==> t' == t)
            && (r.Err? && NameFree(t.layers, BaseName(m)) ==>
                  t' == t.(layers := t.layers + [base], nextId := t.nextId + 1))
  {
    var base := Layer(t.nextId, None, BaseName(m), false, Some(m), false);
    var work := Layer(t.nextId + 1, Some(t.nextId), WorkingName(m), false, Some(m), true);
    PairRows(t.layers, base, work, m);
    if NameFree(t.layers, BaseName(m)) {
      SecondInsert(t, m, base);
      assert t.layers + [base] + [work] == t.layers + [base, work];
    }
  }

  lemma SecondInsert(t: Tables, m: string, base: Layer)
    requires base == Layer(t.nextId, None, BaseName(m), false, Some(m), false)
    ensures var t1 := t.(layers := t.layers + [base], nextId := t.nextId + 1);
            Insert(t1, Some(t.nextId), WorkingName(m), Some(m), true).Ok?
            <==> NameFree(t.layers, WorkingName(m)) && FindWorking(t.layers, m) == None
  {
    var rows := t.layers + [base];
    assert rows[|t.layers|].id == t.nextId;
    assert BaseName(m)[0] != WorkingName(m)[0];
    if FindWorking(t.layers, m).Some? { assert rows[FindWorking(t.layers, m).value].working; }
    if i :| 0 <= i < |t.layers| && t.layers[i].name == WorkingName(m) { assert rows[i].name == WorkingName(m); }
    assert forall i | 0 <= i < |t.layers| :: rows[i] == t.layers[i];
  }

  lemma InitElsewhere(t: Tables, m: string, other: string)
    requires Constraints(t) && other != m
    ensures MountRows(InitLayers(t, m).0.layers, other) == MountRows(t.layers, other)
  {
    var base := Layer(t.nextId, None, BaseName(m), false, Some(m), false);
    var work := Layer(t.nextId + 1, Some(t.nextId), WorkingName(m), false, Some(m), true);
    InitExact(t, m);
    PairRows(t.layers, base, work, other);
    MountRowsAppend(t.layers, [base], other);
    OneRow(base, other);
  }

  lemma InitKeeps(t: Tables, m: string)
    requires Constraints(t)
    ensures Constraints(InitLayers(t, m).0)
  {
    if Insert(t, None, BaseName(m), Some(m), false).Ok? {
      InsertKeeps(t, None, BaseName(m), Some(m), false);
      var t1 := Insert(t, None, BaseName(m), Some(m), false).value;
      if Insert(t1, Some(t.nextId), WorkingName(m), Some(m), true).Ok? {
        InsertKeeps(t1, Some(t.nextId), WorkingName(m), Some(m), true);
      }
    }
  }

  // ---------- runs over many mounts ----------

  datatype Op = Init(m: string) | Snap(m: string, name: string)

  function Apply(t: Tables, op: Op): (Tables, bool) {
    match op
    case Init(m) => var (t', r) := InitLayers(t, m); (t', r.Ok?)
    case Snap(m, name) => var (t', r) := Snapshot(t, m, name); (t', r.Ok?)
  }

  lemma ApplyKeeps(t: Tables, op: Op)
    requires Constraints(t)
    ensures Constraints(Apply(t, op).0)
  {
    match op
    case Init(m) => InitKeeps(t, m);
    case Snap(m, name) => SnapshotKeeps(t, m, name);
  }

  ghost function Run(t: Tables, ops: seq<Op>): (t': Tables)
    requires Constraints(t)
    ensures Constraints(t')
    decreases ops
  {
    if ops == [] then t
    else
      ApplyKeeps(t, ops[0]);
      Run(Apply(t, ops[0]).0, ops[1..])
  }

  /** How many snapshots of `m` go through in a run. */
  ghost function Snapshots(t: Tables, ops: seq<Op>, m: string): nat
    requires Constraints(t)
    decreases ops
  {
    if ops == [] then 0
    else
      ApplyKeeps(t, ops[0]);
      (if ops[0].Snap? && ops[0].m == m && Apply(t, ops[0]).1 then 1 else 0)
      + Snapshots(Apply(t, ops[0]).0, ops[1..], m)
  }

  lemma ApplyElsewhere(t: Tables, op: Op, m: string)
    requires Constraints(t) && op.m != m
    ensures MountRows(Apply(t, op).0.layers, m) == MountRows(t.layers, m)
  {
    match op
    case Init(m') => InitElsewhere(t, m', m);
    case Snap(m', name) => SnapshotElsewhere(t, m', name, m);
  }

  /** A mount that has its base layer is not initialised again. */
  lemma InitAgain(t: Tables, m: string)
    requires MountRows(t.layers, m) != [] && MountRows(t.layers, m)[0].name == BaseName(m)
    ensures InitLayers(t, m).0 == t && InitLayers(t, m).1.Err?
  {
    var mine := MountRows(t.layers, m);
    MountRowsMembers(t.layers, m);
    assert mine[0] in mine;
  }

  /** Any step but the snapshot under the working name keeps the chain and everything below its top. */
  lemma ApplyGrows(t: Tables, op: Op, m: string)
    requires Constraints(t) && MountChain(MountRows(t.layers, m), m) && op != Snap(m, WorkingName(m))
    ensures var before, after := MountRows(t.layers, m), MountRows(Apply(t, op).0.layers, m);
            && MountChain(after, m)
            && Grew(before, after, if op.Snap? && op.m == m && Apply(t, op).1 then 1 else 0)
  {
    if op.m != m {
      ApplyElsewhere(t, op, m);
    } else {
      match op
      case Init(_) => InitAgain(t, m);
      case Snap(_, name) => SnapshotExact(t, m, name);
    }
  }

  /** The rows of a mount whose working layer is lost: its base is there, and none of them is working. */
  ghost predicate Stuck(rows: seq<Layer>, m: string) {
    rows != [] && rows[0].name == BaseName(m) && forall i | 0 <= i < |rows| :: !rows[i].working
  }

  lemma ApplyBreaks(t: Tables, m: string)
    requires Constraints(t) && MountChain(MountRows(t.layers, m), m)
    ensures Stuck(MountRows(Apply(t, Snap(m, WorkingName(m))).0.layers, m), m)
  {
    WorkingIsLast(t.layers, m);
    OnlyWorking(t.layers, m);
    var i, mine := FindWorking(t.layers, m).value, MountRows(t.layers, m);
    var renamed := t.layers[i].(working := false, name := WorkingName(m));
    assert mine[|mine| - 1] == t.layers[i];
    SnapshotWorkingName(t, m, i);
    MountRowsAround(t.layers, i, renamed, m);
    assert MountRows(t.layers[i := renamed], m) == mine[..|mine| - 1] + [renamed];
    BrokenIsStuck(mine, renamed, m);
  }

  lemma BrokenIsStuck(rows: seq<Layer>, last: Layer, m: string)
    requires MountChain(rows, m) && !last.working
    ensures Stuck(rows[..|rows| - 1] + [last], m)
  {
  }

  lemma {:induction false} StuckForever(t: Tables, ops: seq<Op>, m: string)
    requires Constraints(t) && Stuck(MountRows(t.layers, m), m)
    ensures MountRows(Run(t, ops).layers, m) == MountRows(t.layers, m)
    decreases ops
  {
    if ops != [] {
      ApplyKeeps(t, ops[0]);
      if ops[0].m != m {
        ApplyElsewhere(t, ops[0], m);
      } else if ops[0].Init? {
        InitAgain(t, m);
      } else {
        StuckHasNoWorking(t.layers, m);
      }
      StuckForever(Apply(t, ops[0]).0, ops[1..], m);
    }
  }

  lemma StuckHasNoWorking(rows: seq<Layer>, m: string)
    requires Stuck(MountRows(rows, m), m)
    ensures FindWorking(rows, m) == None
  {
    var mine := MountRows(rows, m);
    MountRowsMembers(rows, m);
    forall i | 0 <= i < |rows| && rows[i].mount == Some(m) ensures !rows[i].working {
      assert rows[i] in mine;
    }
  }

  /** `n` layers more, and none changed below the working one that was on top. */
  ghost predicate Grew(before: seq<Layer>, after: seq<Layer>, n: nat) {
    0 < |before| && |after| == |before| + n && after[..|before| - 1] == before[..|before| - 1]
  }

  lemma GrewTwice(a: seq<Layer>, b: seq<Layer>, c: seq<Layer>, n: nat, k: nat)
    requires Grew(a, b, n) && Grew(b, c, k)
    ensures Grew(a, c, n + k)
  {
    assert c[..|b| - 1][..|a| - 1] == c[..|a| - 1];
    assert b[..|b| - 1][..|a| - 1] == b[..|a| - 1];
  }

  lemma {:induction false} ChainKept(t: Tables, ops: seq<Op>, m: string)
    requires Constraints(t) && MountChain(MountRows(t.layers, m), m) && Snap(m, WorkingName(m)) !in ops
    ensures MountChain(MountRows(Run(t, ops).layers, m), m)
    ensures Grew(MountRows(t.layers, m), MountRows(Run(t, ops).layers, m), Snapshots(t, ops, m))
    decreases ops
  {
    if ops != [] {
      var t1 := Apply(t, ops[0]).0;
      ApplyKeeps(t, ops[0]);
      ApplyGrows(t, ops[0], m);
      ChainKept(t1, ops[1..], m);
      GrewTwice(MountRows(t.layers, m), MountRows(t1.layers, m), MountRows(Run(t1, ops[1..]).layers, m),
                if ops[0].Snap? && ops[0].m == m && Apply(t, ops[0]).1 then 1 else 0, Snapshots(t1, ops[1..], m));
    }
  }

  lemma {:induction false} ChainLost(t: Tables, ops: seq<Op>, m: string)
    requires Constraints(t) && MountChain(MountRows(t.layers, m), m) && Snap(m, WorkingName(m)) in ops
    ensures Stuck(MountRows(Run(t, ops).layers, m), m)
    decreases ops
  {
    var t1 := Apply(t, ops[0]).0;
    ApplyKeeps(t, ops[0]);
    if ops[0] == Snap(m, WorkingName(m)) {
      ApplyBreaks(t, m);
      StuckForever(t1, ops[1..], m);
    } else {
      ApplyGrows(t, ops[0], m);
      ChainLost(t1, ops[1..], m);
    }
  }

  /**
   Over any interleaving of initialisations and snapshots of many mounts, with any names: a mount
   that has its chain keeps it exactly when it is never snapshotted under its own working name.
   The chain then grows by one layer for each snapshot of the mount that goes through, and no
   layer below its working one ever changes. Otherwise the working layer is lost for good.
   */
  lemma ChainsGrow(t: Tables, ops: seq<Op>, m: string)
    requires Constraints(t) && MountChain(MountRows(t.layers, m), m)
    ensures var before, after := MountRows(t.layers, m), MountRows(Run(t, ops).layers, m);
            && (MountChain(after, m) <==> Snap(m, WorkingName(m)) !in ops)
            && (MountChain(after, m) ==> Grew(before, after, Snapshots(t, ops, m)))
            && (!MountChain(after, m) ==> Stuck(after, m))
  {
    if Snap(m, WorkingName(m)) in ops {
      ChainLost(t, ops, m);
    } else {
      ChainKept(t, ops, m);
    }
  }

  /** After its one initialisation a mount has two layers more than it has snapshots. */
  lemma FreshMountChain(t: Tables, m: string, ops: seq<Op>)
    requires Constraints(t) && MountRows(t.layers, m) == []
    requires InitLayers(t, m).1.Ok? && Snap(m, WorkingName(m)) !in ops
    ensures Constraints(InitLayers(t, m).0)
    ensures var t1 := InitLayers(t, m).0;
            && |MountRows(Run(t1, ops).layers, m)| == 2 + Snapshots(t1, ops, m)
            && MountChain(MountRows(Run(t1, ops).layers, m), m)
  {
    InitExact(t, m);
    InitKeeps(t, m);
    ChainsGrow(InitLayers(t, m).0, ops, m);
  }

  // ---------- batches ----------

  /** Some snapshot already carries the name. */
  predicate NameTaken(rows: seq<Layer>, name: string) {
    exists i | 0 <= i < |rows| :: rows[i].name == name && !rows[i].working
  }

  lemma TakenNameBlocks(t: Tables, m: string, name: string)
    requires NameTaken(t.layers, name)
    ensures Snapshot(t, m, name).1.Err? && Snapshot(t, m, name).0 == t
  {
    var j :| 0 <= j < |t.layers| && t.layers[j].name == name && !t.layers[j].working;
    var found := FindWorking(t.layers, m);
    if found.Some? {
      assert j != found.value;
    }
  }

  lemma SuccessTakesName(t: Tables, m: string, name: string)
    requires Snapshot(t, m, name).1.Ok?
    ensures NameTaken(Snapshot(t, m, name).0.layers, name)
  {
    var i := FindWorking(t.layers, m).value;
    assert Snapshot(t, m, name).0.layers[i].name == name;
  }

  lemma BatchOneTakes(t: Tables, mounts: seq<MountRow>, mountName: string, name: string, skip: bool)
    ensures var (t', result) := BatchOne(t, mounts, mountName, name, skip);
            && result.mount == mountName
            && (NameTaken(t.layers, name) ==> !result.Taken? && NameTaken(t'.layers, name))
            && (result.Taken? ==> NameTaken(t'.layers, name))
  {
    var row := FindMount(mounts, mountName);
    if row.Some? {
      if NameTaken(t.layers, name) { TakenNameBlocks(t, row.value.id, name); }
      if Snapshot(t, row.value.id, name).1.Ok? { SuccessTakesName(t, row.value.id, name); }
    }
  }

  lemma {:induction false} BatchTakesOnce(t: Tables, mounts: seq<MountRow>, names: seq<string>, name: string,
                                          skip: bool)
    ensures var (t', results) := Batch(t, mounts, names, name, skip);
            && (forall i | 0 <= i < |names| :: results[i].mount == names[i])
            && (forall i, j | 0 <= i < j < |names| :: !(results[i].Taken? && results[j].Taken?))
            && ((exists i | 0 <= i < |names| :: results[i].Taken?) ==> NameTaken(t'.layers, name))
    decreases names
  {
    if names != [] {
      var last := |names| - 1;
      BatchTakesOnce(t, mounts, names[..last], name, skip);
      BatchOneTakes(Batch(t, mounts, names[..last], name, skip).0, mounts, names[last], name, skip);
    }
  }

  /**
   A batch answers every name in order, and snapshots at most one mount in all: every later
   attempt finds the snapshot name taken, because layer names are unique in a tenant.
   */
  lemma BatchSnapshotsAtMostOneMount(t: Tables, mounts: seq<MountRow>, names: seq<string>, name: string, skip: bool)
    ensures var results := Batch(t, mounts, names, name, skip).1;
            && |results| == |names|
            && (forall i | 0 <= i < |names| :: results[i].mount == names[i])
            && (forall i, j | 0 <= i < j < |names| :: !(results[i].Taken? && results[j].Taken?))
  {
    BatchTakesOnce(t, mounts, names, name, skip);
  }

  // ---------- which mount a batch snapshots ----------

  /** Everything a mount needs to be snapshotted under this name, in these tables. */
  predicate Eligible(t: Tables, mounts: seq<MountRow>, mountName: string, name: string, skip: bool) {
    match FindMount(mounts, mountName)
    case None => false
    case Some(row) =>
      && row.currentLayer.Some?
      && !(skip && Unchanged(t, row.id))
      && (match FindWorking(t.layers, row.id) case None => false case Some(i) => !NamedElsewhere(t.layers, i, name))
      && NameFits(name) && name != WorkingName(row.id)
  }

  /** Every mount of the batch that has a working layer has its whole chain. */
  ghost predicate Whole(t: Tables, mounts: seq<MountRow>) {
    && Constraints(t)
    && forall row | row in mounts ::
         FindWorking(t.layers, row.id) == None || MountChain(MountRows(t.layers, row.id), row.id)
  }

  /** The name is the working name of a mount, and a layer of that mount carries it. */
  ghost predicate Blocked(rows: seq<Layer>, name: string) {
    exists i: nat | i < |rows| :: BlockedBy(rows, i, name)
  }

  predicate BlockedBy(rows: seq<Layer>, i: nat, name: string)
    requires i < |rows|
  {
    rows[i].mount.Some? && name == WorkingName(rows[i].mount.value) && rows[i].name == name
  }

  lemma {:induction false} FoundIsStored(mounts: seq<MountRow>, name: string)
    ensures FindMount(mounts, name).Some? ==> FindMount(mounts, name).value in mounts
  {
    if mounts != [] { FoundIsStored(mounts[1..], name); }
  }

  lemma WorkingNamesDiffer(a: string, b: string)
    ensures WorkingName(a) == WorkingName(b) <==> a == b
  {
    assert WorkingName(a)[8..] == a && WorkingName(b)[8..] == b;
  }

  lemma SnapshotBlocked(t: Tables, m: string, name: string)
    requires Blocked(t.layers, name)
    ensures Snapshot(t, m, name).1.Err? && Blocked(Snapshot(t, m, name).0.layers, name)
    ensures var i := FindWorking(t.layers, m);
            i.Some? ==> NamedElsewhere(t.layers, i.value, name) || name == WorkingName(m)
  {
    var b: nat :| b < |t.layers| && BlockedBy(t.layers, b, name);
    var found := FindWorking(t.layers, m);
    if found.Some? {
      var i := found.value;
      WorkingNamesDiffer(m, t.layers[b].mount.value);
      if name != WorkingName(m) {
        assert b != i;
      } else if !NamedElsewhere(t.layers, i, name) {
        assert b == i;
        var t1 := Renamed(t, i, name);
        assert t1.layers[i].name == WorkingName(m);
        assert BlockedBy(t1.layers, i, name);
      }
    }
  }

  /** What one mount of a batch does to tables with whole chains. */
  lemma BatchOneExactly(t: Tables, mounts: seq<MountRow>, mountName: string, name: string, skip: bool)
    requires Whole(t, mounts)
    ensures var (t', result) := BatchOne(t, mounts, mountName, name, skip);
            && (result.Taken? <==> Eligible(t, mounts, mountName, name, skip))
            && (result.Taken? || t' == t || (Blocked(t.layers, name) && Blocked(t'.layers, name)))
  {
    FoundIsStored(mounts, mountName);
    var found := FindMount(mounts, mountName);
    if found.Some? {
      var m := found.value.id;
      if FindWorking(t.layers, m).Some? {
        SnapshotExact(t, m, name);
        if name == WorkingName(m) {
          WorkingIsBlocked(t, m);
          SnapshotBlocked(t, m, name);
        }
      }
    }
  }

  /** A mount is found under a name exactly when some row has the name; it is the first one. */
  lemma {:induction false} FindMountExactly(mounts: seq<MountRow>, name: string, i: nat)
    requires i < |mounts| && mounts[i].name == name && forall j | 0 <= j < i :: mounts[j].name != name
    ensures FindMount(mounts, name) == Some(mounts[i])
  {
    if i > 0 {
      assert forall j | 0 <= j < i - 1 :: mounts[1..][j] == mounts[j + 1];
      FindMountExactly(mounts[1..], name, i - 1);
    }
  }

  lemma {:induction false} NoMountFound(mounts: seq<MountRow>, name: string)
    requires forall j | 0 <= j < |mounts| :: mounts[j].name != name
    ensures FindMount(mounts, name) == None
  {
    if mounts != [] {
      assert forall j | 0 <= j < |mounts| - 1 :: mounts[1..][j] == mounts[j + 1];
      NoMountFound(mounts[1..], name);
    }
  }

  /** The working layer of the mount has no entry. */
  ghost predicate NothingRecorded(t: Tables, m: string) {
    exists i | 0 <= i < |t.layers| :: WorkingRow(t, i, m) && forall e | e in t.entries :: e.layer != t.layers[i].id
  }

  predicate WorkingRow(t: Tables, i: int, m: string)
    requires 0 <= i < |t.layers|
  {
    t.layers[i].mount == Some(m) && t.layers[i].working
  }

  lemma {:induction false} EntriesOfNone(entries: seq<Entry>, layer: LayerId)
    ensures EntriesOf(entries, layer) == [] <==> forall e | e in entries :: e.layer != layer
  {
    if entries != [] {
      EntriesOfNone(entries[..|entries| - 1], layer);
      assert entries == entries[..|entries| - 1] + [entries[|entries| - 1]];
    }
  }

  lemma UnchangedExactly(t: Tables, m: string)
    requires FindWorking(t.layers, m) == None || MountChain(MountRows(t.layers, m), m)
    ensures Unchanged(t, m) <==> NothingRecorded(t, m)
  {
    if FindWorking(t.layers, m).Some? {
      var i := FindWorking(t.layers, m).value;
      EntriesOfNone(t.entries, t.layers[i].id);
      OnlyWorking(t.layers, m);
      assert WorkingRow(t, i, m);
    }
  }

  /**
   One mount of a batch, by the answer. With its chain in place it is skipped as unchanged exactly
   when that is asked for and nothing is recorded in its working layer; a snapshot answers the new
   working layer; a failure answers the cause, a name that is too long or taken, or no working layer.
   */
  lemma BatchOneAnswers(t: Tables, mounts: seq<MountRow>, row: MountRow, mountName: string, name: string, skip: bool)
    requires Constraints(t) && FindMount(mounts, mountName) == Some(row) && row.currentLayer.Some?
    requires FindWorking(t.layers, row.id) == None || MountChain(MountRows(t.layers, row.id), row.id)
    ensures var idle := skip && NothingRecorded(t, row.id);
            var (t', result) := BatchOne(t, mounts, mountName, name, skip);
            && (result == Skipped(mountName, NoChanges) <==> idle)
            && (result.Taken? ==> result == Taken(mountName, t.nextId) && HasId(t'.layers, t.nextId)
                                  && t'.layers[|t'.layers| - 1].id == t.nextId
                                  && WorkingRow(t', |t'.layers| - 1, row.id))
            && (!idle && FindWorking(t.layers, row.id).None? ==>
                  result == Skipped(mountName, Failed(NoWorkingLayer)))
            && (!idle && FindWorking(t.layers, row.id).Some? && !result.Taken? ==>
                  result == Skipped(mountName, Failed(Database(NameRefusal(name)))))
  {
    UnchangedExactly(t, row.id);
    if FindWorking(t.layers, row.id).Some? {
      SnapshotExact(t, row.id, name);
      SnapshotAnswers(t, row.id, name);
    }
  }

  lemma SnapshotAnswers(t: Tables, m: string, name: string)
    requires Constraints(t) && MountChain(MountRows(t.layers, m), m)
    ensures var (t', r) := Snapshot(t, m, name);
            && (r.Ok? ==> && |t'.layers| == |t.layers| + 1 && t'.layers[|t.layers|].id == t.nextId
                          && WorkingRow(t', |t.layers|, m))
            && (r.Err? ==> r == Err(Database(NameRefusal(name))))
  {
    WorkingIsLast(t.layers, m);
    OnlyWorking(t.layers, m);
    var i, mine := FindWorking(t.layers, m).value, MountRows(t.layers, m);
    assert mine[|mine| - 1] == t.layers[i];
    if name == WorkingName(m) {
      SnapshotWorkingName(t, m, i);
    } else if NameFits(name) && !NamedElsewhere(t.layers, i, name) {
      FreshWorkingInserts(t, i, m, name);
    }
  }

  lemma WorkingIsBlocked(t: Tables, m: string)
    requires MountChain(MountRows(t.layers, m), m)
    ensures Blocked(t.layers, WorkingName(m))
  {
    WorkingIsLast(t.layers, m);
    var i, mine := FindWorking(t.layers, m).value, MountRows(t.layers, m);
    assert mine[|mine| - 1] == t.layers[i];
    assert BlockedBy(t.layers, i, WorkingName(m));
  }

  lemma BlockedNotEligible(t: Tables, mounts: seq<MountRow>, mountName: string, name: string, skip: bool)
    requires Blocked(t.layers, name)
    ensures !Eligible(t, mounts, mountName, name, skip)
    ensures !BatchOne(t, mounts, mountName, name, skip).1.Taken?
    ensures Blocked(BatchOne(t, mounts, mountName, name, skip).0.layers, name)
  {
    var found := FindMount(mounts, mountName);
    if found.Some? { SnapshotBlocked(t, found.value.id, name); }
  }

  ghost predicate NoneEligible(t: Tables, mounts: seq<MountRow>, names: seq<string>, name: string, skip: bool) {
    forall i | 0 <= i < |names| :: !Eligible(t, mounts, names[i], name, skip)
  }

  /** A batch in the middle: tables as at the start, or with the name taken, or with the name blocked from the start. */
  ghost predicate MidBatch(t: Tables, t1: Tables, mounts: seq<MountRow>, names: seq<string>, name: string, skip: bool) {
    if NoneEligible(t, mounts, names, name, skip) then t1 == t || (Blocked(t.layers, name) && Blocked(t1.layers, name))
    else NameTaken(t1.layers, name)
  }

  lemma MidBatchStep(t: Tables, t1: Tables, mounts: seq<MountRow>, names: seq<string>, next: string, name: string,
                     skip: bool)
    requires Whole(t, mounts) && MidBatch(t, t1, mounts, names, name, skip)
    ensures var (t2, result) := BatchOne(t1, mounts, next, name, skip);
            && MidBatch(t, t2, mounts, names + [next], name, skip)
            && (result.Taken? <==> NoneEligible(t, mounts, names, name, skip) && Eligible(t, mounts, next, name, skip))
  {
    var more := names + [next];
    assert forall i | 0 <= i < |names| :: more[i] == names[i];
    assert more[|names|] == next;
    assert NoneEligible(t, mounts, more, name, skip)
      <==> NoneEligible(t, mounts, names, name, skip) && !Eligible(t, mounts, next, name, skip);
    BatchOneTakes(t1, mounts, next, name, skip);
    if NoneEligible(t, mounts, names, name, skip) {
      if t1 == t {
        BatchOneExactly(t, mounts, next, name, skip);
      } else {
        BlockedNotEligible(t, mounts, next, name, skip);
        BlockedNotEligible(t1, mounts, next, name, skip);
      }
    }
  }

  lemma {:induction false} BatchIs(t: Tables, mounts: seq<MountRow>, names: seq<string>, name: string, skip: bool,
                                   i: nat)
    requires Whole(t, mounts)
    ensures MidBatch(t, Batch(t, mounts, names, name, skip).0, mounts, names, name, skip)
    ensures i < |names| ==>
              (Batch(t, mounts, names, name, skip).1[i].Taken?
               <==> Eligible(t, mounts, names[i], name, skip) && NoneEligible(t, mounts, names[..i], name, skip))
    decreases names
  {
    if names != [] {
      var last := |names| - 1;
      var front := names[..last];
      BatchIs(t, mounts, front, name, skip, i);
      assert names == front + [names[last]];
      MidBatchStep(t, Batch(t, mounts, front, name, skip).0, mounts, front, names[last], name, skip);
      if i < last { assert front[i] == names[i] && front[..i] == names[..i]; }
    }
  }

  /**
   Which mount a batch snapshots: a result is a snapshot if and only if its mount is eligible in
   the tables the batch starts from, and no earlier mount of the list is. So a batch snapshots the
   first eligible mount and no other.
   */
  lemma BatchTakesFirstEligible(t: Tables, mounts: seq<MountRow>, names: seq<string>, name: string, skip: bool, i: nat)
    requires Whole(t, mounts) && i < |names|
    ensures Batch(t, mounts, names, name, skip).1[i].Taken?
        <==> && Eligible(t, mounts, names[i], name, skip)
             && forall j | 0 <= j < i :: !Eligible(t, mounts, names[j], name, skip)
  {
    BatchIs(t, mounts, names, name, skip, i);
    assert forall j | 0 <= j < i :: names[..i][j] == names[j];
  }

  /**
   Rows without a current layer, which is how every mount row is stored, are all reported as
   unreadable: the batch takes no snapshot and changes nothing, whatever the layers are.
   */
  lemma {:induction false} StoredRowsTakeNothing(t: Tables, mounts: seq<MountRow>, names: seq<string>, name: string,
                                                 skip: bool)
    requires forall row | row in mounts :: row.currentLayer.None?
    ensures var (t', results) := Batch(t, mounts, names, name, skip);
            && t' == t
            && forall i | 0 <= i < |names| ::
                 results[i] == Skipped(names[i], if FindMount(mounts, names[i]).None? then MountNotFound
                                                 else RowUnreadable)
    decreases names
  {
    if names != [] {
      var last := |names| - 1;
      FoundIsStored(mounts, names[last]);
      StoredRowsTakeNothing(t, mounts, names[..last], name, skip);
    }
  }

  lemma SnapshotThenUnchanged(t: Tables, m: string, name: string)
    requires Constraints(t) && Snapshot(t, m, name).1.Ok?
    ensures Unchanged(Snapshot(t, m, name).0, m)
  {
    var t' := Snapshot(t, m, name).0;
    var last := |t'.layers| - 1;
    assert t'.layers[last].id == t.nextId && t'.layers[last].working && t'.layers[last].mount == Some(m);
    assert FindWorking(t'.layers, m) == Some(last);
    assert t'.entries == t.entries;
    NewLayerIsEmpty(t);
  }

  /** A mount just snapshotted counts as unchanged: asked for again with `skip_unchanged`, it is skipped. */
  lemma SnapshottedIsSkippedAgain(t: Tables, mounts: seq<MountRow>, mountName: string, name: string, skip: bool,
                                  again: string)
    requires Constraints(t) && BatchOne(t, mounts, mountName, name, skip).1.Taken?
    ensures var t' := BatchOne(t, mounts, mountName, name, skip).0;
            BatchOne(t', mounts, mountName, again, true) == (t', Skipped(mountName, NoChanges))
  {
    SnapshotThenUnchanged(t, FindMount(mounts, mountName).value.id, name);
  }

  // ---------- the code ----------

  class MountLayerOperations {
    const ops: LayerOperations
    var mounts: seq<MountRow>

    constructor (ops: LayerOperations)
      ensures this.ops == ops && mounts == []
    {
      this.ops := ops;
      mounts := [];
    }

    /** Outside this file: a mount row is stored. A batch finds it by its name, if no earlier row has that name. */
    method MountStored(row: MountRow)
      modifies this`mounts
      ensures mounts == old(mounts) + [row]
      ensures FindMount(mounts, row.name)
           == if FindMount(old(mounts), row.name).Some? then FindMount(old(mounts), row.name)
              else Some(row)
    {
      FindMountAppend(mounts, row);
      mounts := mounts + [row];
    }

    method CreateInitialLayers(m: string) returns (r: Result<(LayerId, LayerId), SqlError>)
      requires Constraints(ops.State())
      modifies ops
      ensures Constraints(ops.State()) && (ops.State(), r) == InitLayers(old(ops.State()), m)
    {
      var base := ops.Create(None, BaseName(m), Some(m), false);
      if base.Err? {
        return Err(base.error);
      }
      var working := ops.Create(Some(base.value), WorkingName(m), Some(m), true);
      r := if working.Err? then Err(working.error) else Ok((base.value, working.value));
    }

    method CreateSnapshot(m: string, name: string) returns (r: Result<LayerId, SnapshotError>)
      requires Constraints(ops.State())
      modifies ops
      ensures Constraints(ops.State()) && (ops.State(), r) == Snapshot(old(ops.State()), m, name)
    {
      var found := FindWorking(ops.layers, m);
      if found.None? {
        return Err(NoWorkingLayer);
      }
      var i := found.value;
      var working := ops.layers[i];
      if !NameFits(name) {
        return Err(Database(ValueTooLong));
      }
      if NamedElsewhere(ops.layers, i, name) {
        return Err(Database(UniqueViolation));
      }
      RenamedKeeps(ops.State(), i, name);
      ops.layers := ops.layers[i := working.(working := false, name := name)];
      var created := ops.Create(Some(working.id), WorkingName(m), Some(m), true);
      r := if created.Err? then Err(Database(created.error)) else Ok(created.value);
    }

    method BatchSnapshot(names: seq<string>, name: string, skipUnchanged: bool) returns (results: seq<SnapshotResult>)
      requires Constraints(ops.State())
      modifies ops
      ensures Constraints(ops.State())
      ensures (ops.State(), results) == Batch(old(ops.State()), mounts, names, name, skipUnchanged)
    {
      results := [];
      for n := 0 to |names|
        invariant Constraints(ops.State())
        invariant (ops.State(), results) == Batch(old(ops.State()), mounts, names[..n], name, skipUnchanged)
      {
        assert names[..n + 1][..n] == names[..n];
        var mountName := names[n];
        match FindMount(mounts, mountName) {
          case None => results := results + [Skipped(mountName, MountNotFound)];
          case Some(row) =>
            if row.currentLayer.None? {
              results := results + [Skipped(mountName, RowUnreadable)];
              continue;
            }
            if skipUnchanged {
              var working := FindWorking(ops.layers, row.id);
              if working.Some? && |EntriesOf(ops.entries, ops.layers[working.value].id)| == 0 {
                results := results + [Skipped(mountName, NoChanges)];
                continue;
              }
            }
            var snapshot := CreateSnapshot(row.id, name);
            match snapshot {
              case Ok(layer) => results := results + [Taken(mountName, layer)];
              case Err(e) => results := results + [Skipped(mountName, Failed(e))];
            }
        }
      }
      assert names[..|names|] == names;
    }
  }
}
