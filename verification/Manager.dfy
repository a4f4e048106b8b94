/** src/layer/manager.rs: the manager's operations step by step, proved against History. */
module Manager {
  import opened Prelude
  import opened LayerTable
  import opened LayerStore
  import opened History

  class LayerManager {
    const ops: LayerOperations

    constructor (ops: LayerOperations)
      ensures this.ops == ops
    {
      this.ops := ops;
    }

    method InitializeBaseLayer() returns (r: Outcome)
      requires Constraints(ops.State())
      modifies ops
      ensures Constraints(ops.State()) && (ops.State(), r) == Initialize(old(ops.State()))
    {
      if ops.current.Some? && HasId(ops.layers, ops.current.value) {
        return Ok(ops.current.value);
      }
      var created := ops.Create(None, "base", None, false);
      match created {
        case Err(e) => r := Err(Storage(e));
        case Ok(id) =>
          assert ops.layers[|ops.layers| - 1].id == id;
          ops.SetCurrentLayer(id);
          r := Ok(id);
      }
    }

    /** Every layer other than `of` whose parent walk meets `of`, in listing order. */
    method GetFutureLayers(of: LayerId) returns (future: seq<Layer>)
      requires Constraints(ops.State())
      ensures future == Future(ops.layers, of)
      ensures forall l :: l in future <==> l in ops.layers && Descends(ops.layers, l.id, of)
    {
      var all := Reversed(ops.layers);
      future := [];
      for n := 0 to |all|
        invariant future == FutureAmong(ops.layers, all[..n], of)
      {
        assert all[..n + 1][..n] == all[..n];
        var layer := all[n];
        if layer.id == of {
          continue;
        }
        if layer.parent.Some? {
          var chain := Chain(ops.layers, layer.id);
          if InChain(chain, of) {
            future := future + [layer];
          }
        }
      }
      assert all[..|all|] == all;
      forall l ensures l in future <==> l in ops.layers && Descends(ops.layers, l.id, of) {
        FutureIsDescendants(ops.layers, of, l);
      }
    }

    /** The checkpoint's deletion loop: it stops at the first refusal and keeps what was already removed. */
    method DeleteInOrder(doomed: seq<Layer>) returns (refused: Option<SqlError>)
      requires Constraints(ops.State())
      modifies ops
      ensures Constraints(ops.State()) && (ops.State(), refused) == RemoveAll(old(ops.State()), doomed)
      ensures ops.current == old(ops.current)
    {
      for i := 0 to |doomed|
        invariant Constraints(ops.State()) && ops.current == old(ops.current)
        invariant RemoveAll(ops.State(), doomed[i..]) == RemoveAll(old(ops.State()), doomed)
      {
        assert doomed[i..][0] == doomed[i] && doomed[i..][1..] == doomed[i + 1..];
        var deleted := ops.Delete(doomed[i].id);
        if deleted.Err? {
          return Some(deleted.error);
        }
      }
      refused := None;
    }

    /** A new checkpoint. A refused removal in the middle of the loop leaves the earlier removals done. */
    method CreateCheckpointWithConfirm(name: string, confirm: bool) returns (r: Outcome)
      requires Constraints(ops.State())
      modifies ops
      ensures Constraints(ops.State()) && (ops.State(), r) == Checkpoint(old(ops.State()), name, confirm)
    {
      if ops.current.None? {
        return Err(NoCurrentLayer);
      }
      var c := ops.current.value;
      if !HasId(ops.layers, c) {
        return Err(LayerNotFound(c));
      }
      var future := GetFutureLayers(c);
      if future != [] && !confirm {
        return Err(NeedsConfirmation(c, future));
      }
      var refused := DeleteInOrder(Reversed(future));
      if refused.Some? {
        return Err(Storage(refused.value));
      }
      r := StackLayer(c, name);
    }

    /** The rest of the checkpoint. A name already in use leaves the current layer read-only. */
    method StackLayer(c: LayerId, name: string) returns (r: Outcome)
      requires Constraints(ops.State()) && HasId(ops.layers, c)
      modifies ops
      ensures Constraints(ops.State()) && (ops.State(), r) == Stack(old(ops.State()), c, name)
    {
      ops.SetLayerReadonly(c);
      var created := ops.Create(Some(c), name, None, false);
      match created {
        case Err(e) => r := Err(Storage(e));
        case Ok(id) =>
          assert ops.layers[|ops.layers| - 1].id == id;
          ops.SetCurrentLayer(id);
          r := Ok(id);
      }
    }

    method SwitchToLayer(target: LayerId) returns (r: Outcome)
      requires Constraints(ops.State())
      modifies ops
      ensures Constraints(ops.State()) && (ops.State(), r) == Switch(old(ops.State()), target)
    {
      if !HasId(ops.layers, target) {
        return Err(LayerNotFound(target));
      }
      ops.SetCurrentLayer(target);
      r := Ok(target);
    }

    method DeleteLayer(id: LayerId) returns (r: Outcome)
      requires Constraints(ops.State())
      modifies ops
      ensures Constraints(ops.State()) && (ops.State(), r) == Drop(old(ops.State()), id)
    {
      var found := Find(ops.layers, id);
      if found.None? {
        return Err(LayerNotFound(id));
      }
      var layer := ops.layers[found.value];
      var future := GetFutureLayers(id);
      if future != [] {
        return Err(HasChildLayers(id));
      }
      if ops.current == Some(id) {
        match layer.parent {
          case None => return Err(InvalidLayerChain);
          case Some(parent) =>
            ParentRank(ops.layers, found.value);
            ops.SetCurrentLayer(parent);
        }
      }
      var deleted := ops.Delete(id);
      r := if deleted.Err? then Err(Storage(deleted.error)) else Ok(id);
    }

    method RecordChange(inode: InodeId, path: string, change: ChangeType) returns (r: Outcome)
      requires Constraints(ops.State())
      modifies ops
      ensures Constraints(ops.State()) && (ops.State(), r) == Record(old(ops.State()), inode, path, change)
    {
      if ops.current.None? {
        return Err(NoCurrentLayer);
      }
      var c := ops.current.value;
      match Find(ops.layers, c) {
        case None => r := Err(LayerNotFound(c));
        case Some(i) =>
          if ops.layers[i].readonly {
            return Err(ReadonlyLayer(c));
          }
          var added := ops.AddEntry(c, inode, path, change);
          r := if added.Err? then Err(Storage(added.error)) else Ok(c);
      }
    }
  }
}
