/** The table operations of src/storage/layer.rs that LayerManager uses, as an object that changes its rows. */
module LayerStore {
  import opened Prelude
  import opened LayerTable

  class LayerOperations {
    var layers: seq<Layer>
    var entries: seq<Entry>
    var current: Option<LayerId>
    var inodes: set<InodeId>
    var nextId: LayerId

    ghost function State(): Tables
      reads this
    {
      Tables(layers, entries, current, inodes, nextId)
    }

    constructor ()
      ensures State() == EMPTY && Constraints(State())
    {
      layers, entries, current, inodes, nextId := [], [], None, {}, 0;
    }

    method Create(parent: Option<LayerId>, name: string, mount: Option<string>, working: bool)
      returns (r: Result<LayerId, SqlError>)
      requires Constraints(State())
      modifies this
      ensures Constraints(State())
      ensures match Insert(old(State()), parent, name, mount, working)
              case Err(e) => r == Err(e) && State() == old(State())
              case Ok(t) => r == Ok(old(nextId)) && State() == t
    {
      ghost var before := State();
      if !NameFits(name) {
        return Err(ValueTooLong);
      }
      if NameUsed(layers, name) {
        return Err(UniqueViolation);
      }
      if working && mount.Some? && exists i | 0 <= i < |layers| :: layers[i].mount == mount && layers[i].working {
        return Err(UniqueViolation);
      }
      if parent.Some? && !HasId(layers, parent.value) {
        return Err(ForeignKeyViolation);
      }
      InsertKeeps(before, parent, name, mount, working);
      r := Ok(nextId);
      layers := layers + [Layer(nextId, parent, name, false, mount, working)];
      nextId := nextId + 1;
    }

    method Delete(id: LayerId) returns (r: Result<bool, SqlError>)
      requires Constraints(State())
      modifies this
      ensures Constraints(State())
      ensures match Remove(old(State()), id)
              case Err(e) => r == Err(e) && State() == old(State())
              case Ok(t) => r == Ok(HasId(old(layers), id)) && State() == t
    {
      ghost var before := State();
      match Find(layers, id) {
        case None => r := Ok(false);
        case Some(i) =>
          if IsParent(layers, id) || current == Some(id) {
            return Err(ForeignKeyViolation);
          }
          RemoveKeeps(before, id);
          layers := layers[..i] + layers[i + 1..];
          entries := WithoutLayer(entries, id);
          r := Ok(true);
      }
    }

    method AddEntry(layer: LayerId, inode: InodeId, path: string, change: ChangeType)
      returns (r: Result<Entry, SqlError>)
      requires Constraints(State())
      modifies this
      ensures Constraints(State())
      ensures match Upsert(old(State()), layer, inode, path, change)
              case Err(e) => r == Err(e) && State() == old(State())
              case Ok(t) => State() == t && r.Ok? && r.value == t.entries[|t.entries| - 1]
    {
      ghost var before := State();
      match FindEntry(entries, layer, path) {
        case Some(i) =>
          UpsertKeeps(before, layer, inode, path, change);
          var updated := entries[i].(change := change);
          entries := entries[..i] + entries[i + 1..] + [updated];
          r := Ok(updated);
        case None =>
          if !HasId(layers, layer) || inode !in inodes {
            return Err(ForeignKeyViolation);
          }
          UpsertKeeps(before, layer, inode, path, change);
          var added := Entry(layer, inode, path, change);
          entries := entries + [added];
          r := Ok(added);
      }
    }

    /** Outside this file: an inode row appears, and entries may name it from then on. */
    method InodeCreated(inode: InodeId)
      requires Constraints(State())
      modifies this`inodes
      ensures Constraints(State()) && State() == old(State()).(inodes := old(inodes) + {inode})
      ensures forall layer, path, change | HasId(layers, layer) :: Upsert(State(), layer, inode, path, change).Ok?
    {
      inodes := inodes + {inode};
    }

    /** Outside this file: an inode row is deleted, and its entries go with it. */
    method InodeDeleted(inode: InodeId)
      requires Constraints(State())
      modifies this`inodes, this`entries
      ensures Constraints(State()) && State() == RemoveInode(old(State()), inode)
    {
      RemoveInodeKeeps(State(), inode);
      inodes := inodes - {inode};
      entries := WithoutInode(entries, inode);
    }

    method SetCurrentLayer(id: LayerId)
      requires Constraints(State()) && HasId(layers, id)
      modifies this
      ensures Constraints(State()) && State() == old(State()).(current := Some(id))
    {
      current := Some(id);
    }

    method SetLayerReadonly(id: LayerId)
      requires Constraints(State())
      modifies this
      ensures Constraints(State()) && State() == SetReadonly(old(State()), id)
    {
      SetReadonlyKeeps(State(), id);
      match Find(layers, id) {
        case None =>
        case Some(i) => layers := layers[i := layers[i].(readonly := true)];
      }
    }
  }
}
