/**
 Old views when files are deleted as well: runs of all steps in which inode rows also go, each with
 its entries in every layer (`ON DELETE CASCADE` of migrations/20260118000003_create_layers.sql).
 */
module Unlinks {
  import opened Prelude
  import opened LayerTable
  import opened Rows
  import opened UnionView
  import T = TimeTravel

  datatype Event = Take(step: T.Step) | Unlink(inode: InodeId)

  function Happen(t: Tables, e: Event): Tables
    requires Forest(t.layers)
  {
    match e
    case Take(step) => T.Apply(t, step)
    case Unlink(inode) => RemoveInode(t, inode)
  }

  /** The inodes deleted at some point of a run. */
  function Unlinked(events: seq<Event>): set<InodeId> {
    if events == [] then {}
    else (if events[0].Unlink? then {events[0].inode} else {}) + Unlinked(events[1..])
  }

  // ---------- what is left of a read-only layer ----------

  function Alive(gone: set<InodeId>): Entry -> bool {
    (e: Entry) => e.inode !in gone
  }

  function VersionAlive(gone: set<InodeId>): FileVersion -> bool {
    (v: FileVersion) => v.inode !in gone
  }

  /**
   Layer `id` was there with the same parent; if it was read-only, it still is and has lost the
   entries of `gone` only.
   */
  ghost predicate RowShrinks(t: Tables, t': Tables, id: LayerId, gone: set<InodeId>) {
    && HasId(t.layers, id) && HasId(t'.layers, id)
    && T.RowOf(t'.layers, id).parent == T.RowOf(t.layers, id).parent
    && (T.RowOf(t.layers, id).readonly ==>
          && T.RowOf(t'.layers, id).readonly
          && EntriesOf(t'.entries, id) == Where(EntriesOf(t.entries, id), Alive(gone)))
  }

  ghost predicate Shrinks(t: Tables, t': Tables, gone: set<InodeId>) {
    && Constraints(t) && Constraints(t') && t.nextId <= t'.nextId
    && forall id: LayerId {:trigger RowShrinks(t, t', id, gone)} | id < t.nextId && HasId(t'.layers, id) ::
         RowShrinks(t, t', id, gone)
  }

  lemma EvolvesShrinks(t: Tables, t': Tables, touched: set<string>)
    requires T.Evolves(t, t', touched)
    ensures Shrinks(t, t', {})
  {
    forall id: LayerId | id < t.nextId && HasId(t'.layers, id) ensures RowShrinks(t, t', id, {}) {
      assert T.RowEvolves(t, t', id, touched);
      WhereAll(EntriesOf(t.entries, id), Alive({}));
    }
  }

  lemma {:induction false} WithoutInodeIs(es: seq<Entry>, inode: InodeId)
    ensures WithoutInode(es, inode) == Where(es, Alive({inode}))
  {
    if es != [] { WithoutInodeIs(es[..|es| - 1], inode); }
  }

  lemma UnlinkShrinks(t: Tables, inode: InodeId)
    requires Constraints(t)
    ensures Shrinks(t, RemoveInode(t, inode), {inode})
  {
    var t' := RemoveInode(t, inode);
    RemoveInodeKeeps(t, inode);
    forall id: LayerId | id < t.nextId && HasId(t'.layers, id) ensures RowShrinks(t, t', id, {inode}) {
      WithoutInodeInLayer(t.entries, inode, id);
      WithoutInodeIs(EntriesOf(t.entries, id), inode);
    }
  }

  lemma ShrinksTwice(a: Tables, b: Tables, c: Tables, first: set<InodeId>, second: set<InodeId>)
    requires Shrinks(a, b, first) && Shrinks(b, c, second)
    ensures Shrinks(a, c, first + second)
  {
    forall id: LayerId | id < a.nextId && HasId(c.layers, id) ensures RowShrinks(a, c, id, first + second) {
      assert RowShrinks(b, c, id, second);
      assert RowShrinks(a, b, id, first);
      WhereTwice(EntriesOf(a.entries, id), Alive(first), Alive(second), Alive(first + second));
    }
  }

  lemma EventShrinks(t: Tables, e: Event)
    requires Constraints(t)
    ensures Shrinks(t, Happen(t, e), if e.Unlink? then {e.inode} else {})
  {
    match e
    case Take(step) =>
      T.StepEvolves(t, step);
      EvolvesShrinks(t, T.Apply(t, step), T.Touched(step));
    case Unlink(inode) => UnlinkShrinks(t, inode);
  }

  ghost function Run(t: Tables, events: seq<Event>): (t': Tables)
    requires Constraints(t)
    ensures Constraints(t')
    decreases events
  {
    if events == [] then t
    else
      EventShrinks(t, events[0]);
      Run(Happen(t, events[0]), events[1..])
  }

  lemma {:induction false} RunShrinks(t: Tables, events: seq<Event>)
    requires Constraints(t)
    ensures Shrinks(t, Run(t, events), Unlinked(events))
    decreases events
  {
    if events == [] {
      T.EvolvesSelf(t, {});
      EvolvesShrinks(t, t, {});
    } else {
      var t1 := Happen(t, events[0]);
      EventShrinks(t, events[0]);
      RunShrinks(t1, events[1..]);
      ShrinksTwice(t, t1, Run(t1, events[1..]),
                   if events[0].Unlink? then {events[0].inode} else {}, Unlinked(events[1..]));
    }
  }

  // ---------- what is left of a frozen view ----------

  lemma ShrinksParents(t: Tables, t': Tables, gone: set<InodeId>)
    requires Shrinks(t, t', gone)
    ensures T.ParentsKept(t, t')
  {
    forall id: LayerId | id < t.nextId && HasId(t'.layers, id)
      ensures HasId(t.layers, id) && T.RowOf(t'.layers, id).parent == T.RowOf(t.layers, id).parent
    {
      assert RowShrinks(t, t', id, gone);
    }
  }

  /** The entries of a chain without those of some inodes. */
  ghost predicate OnlyAlive(chain: seq<LayerId>, es: seq<Entry>, es': seq<Entry>, gone: set<InodeId>) {
    forall i | 0 <= i < |chain| :: EntriesOf(es', chain[i]) == Where(EntriesOf(es, chain[i]), Alive(gone))
  }

  lemma FrozenChainShrinks(t: Tables, t': Tables, id: LayerId, gone: set<InodeId>)
    requires Shrinks(t, t', gone) && HasId(t'.layers, id) && HasId(t.layers, id)
    requires T.AllReadonly(Chain(t.layers, id))
    ensures Ids(Chain(t'.layers, id)) == Ids(Chain(t.layers, id))
    ensures OnlyAlive(Ids(Chain(t.layers, id)), t.entries, t'.entries, gone)
  {
    var chain, chain' := Chain(t.layers, id), Chain(t'.layers, id);
    T.KnownId(t, id);
    ShrinksParents(t, t', gone);
    T.ChainIdsKept(t, t', id);
    forall i | 0 <= i < |chain|
      ensures EntriesOf(t'.entries, Ids(chain)[i]) == Where(EntriesOf(t.entries, Ids(chain)[i]), Alive(gone))
    {
      T.ChainRow(t.layers, id, i);
      T.ChainRow(t'.layers, id, i);
      T.KnownId(t, chain[i].id);
      assert Ids(chain)[i] == Ids(chain')[i];
      assert RowShrinks(t, t', chain[i].id, gone);
    }
  }

  lemma {:induction false} VersionsInAlive(layer: LayerId, es: seq<Entry>, gone: set<InodeId>, path: string)
    ensures VersionsIn(layer, Where(es, Alive(gone)), path) == Where(VersionsIn(layer, es, path), VersionAlive(gone))
  {
    if es != [] {
      var front, e := es[..|es| - 1], es[|es| - 1];
      VersionsInAlive(layer, front, gone, path);
      var alive, before := Where(front, Alive(gone)), VersionsIn(layer, front, path);
      WhereSnoc(before, FileVersion(layer, e.change, e.inode), VersionAlive(gone));
      assert alive + [] == alive && before + [] == before;
      assert Where(before, VersionAlive(gone)) + [] == Where(before, VersionAlive(gone));
      VersionsInSnoc(layer, alive, e, path);
    }
  }

  lemma {:induction false} HistoryAlive(chain: seq<LayerId>, es: seq<Entry>, es': seq<Entry>, gone: set<InodeId>,
                                        path: string)
    requires OnlyAlive(chain, es, es', gone)
    ensures Versions(chain, es', path) == Where(Versions(chain, es, path), VersionAlive(gone))
  {
    if chain != [] {
      var rest := chain[1..];
      forall i | 0 <= i < |rest| ensures EntriesOf(es', rest[i]) == Where(EntriesOf(es, rest[i]), Alive(gone)) {
        assert rest[i] == chain[i + 1];
      }
      HistoryAlive(rest, es, es', gone, path);
      VersionsInAlive(chain[0], EntriesOf(es, chain[0]), gone, path);
      WhereAppend(VersionsIn(chain[0], EntriesOf(es, chain[0]), path), Versions(rest, es, path), VersionAlive(gone));
    }
  }

  /**
   What any run leaves of a frozen view: the same chain, and of every file's history exactly the
   versions of inodes that were not deleted, in order.
   */
  lemma FrozenHistoryExactly(t: Tables, events: seq<Event>, id: LayerId, path: string)
    requires Constraints(t) && HasId(t.layers, id) && T.AllReadonly(Chain(t.layers, id))
    requires HasId(Run(t, events).layers, id)
    ensures var t', ids := Run(t, events), Ids(Chain(t.layers, id));
            && Ids(Chain(t'.layers, id)) == ids
            && Versions(ids, t'.entries, path) == Where(Versions(ids, t.entries, path), VersionAlive(Unlinked(events)))
  {
    var t', gone := Run(t, events), Unlinked(events);
    RunShrinks(t, events);
    FrozenChainShrinks(t, t', id, gone);
    HistoryAlive(Ids(Chain(t.layers, id)), t.entries, t'.entries, gone, path);
  }

  // ---------- when a frozen view is kept ----------

  /** Some layer of the chain has an entry of one of these inodes. */
  ghost predicate Names(chain: seq<LayerId>, entries: seq<Entry>, inodes: set<InodeId>) {
    exists e | e in entries :: e.layer in chain && e.inode in inodes
  }

  lemma {:induction false} VersionsInHas(es: seq<Entry>, e: Entry)
    requires e in es
    ensures FileVersion(e.layer, e.change, e.inode) in VersionsIn(e.layer, es, e.path)
  {
    var last := |es| - 1;
    if es[last] != e {
      var i :| 0 <= i < |es| && es[i] == e;
      assert es[..last][i] == e;
      VersionsInHas(es[..last], e);
    }
  }

  lemma {:induction false} HistoryHas(chain: seq<LayerId>, entries: seq<Entry>, e: Entry)
    requires e in entries && e.layer in chain
    ensures FileVersion(e.layer, e.change, e.inode) in Versions(chain, entries, e.path)
  {
    if chain[0] == e.layer {
      EntriesOfMembers(entries, e.layer);
      VersionsInHas(EntriesOf(entries, e.layer), e);
    } else {
      HistoryHas(chain[1..], entries, e);
    }
  }

  lemma AliveWhenNotNamed(chain: seq<LayerId>, es: seq<Entry>, es': seq<Entry>, gone: set<InodeId>)
    requires OnlyAlive(chain, es, es', gone) && !Names(chain, es, gone)
    ensures SameView(chain, es, es')
  {
    forall i | 0 <= i < |chain| ensures EntriesOf(es', chain[i]) == EntriesOf(es, chain[i]) {
      var own := EntriesOf(es, chain[i]);
      EntriesOfMembers(es, chain[i]);
      forall k | 0 <= k < |own| ensures Alive(gone)(own[k]) {
        assert own[k] in own;
      }
      WhereAll(own, Alive(gone));
    }
    SameEntriesSameView(chain, es, es');
  }

  lemma ShowsWhenNamed(chain: seq<LayerId>, es: seq<Entry>, es': seq<Entry>, gone: set<InodeId>)
    requires OnlyAlive(chain, es, es', gone) && Names(chain, es, gone)
    ensures !SameView(chain, es, es')
  {
    var e :| e in es && e.layer in chain && e.inode in gone;
    HistoryHas(chain, es, e);
    HistoryAlive(chain, es, es', gone, e.path);
    WhereMembers(Versions(chain, es, e.path), VersionAlive(gone));
  }

  /**
   A run in which files are deleted keeps the view from a layer with a read-only chain if and only
   if none of the deleted inodes is named by an entry of the chain.
   */
  lemma FrozenViewKeptExactly(t: Tables, events: seq<Event>, id: LayerId)
    requires Constraints(t) && HasId(t.layers, id) && T.AllReadonly(Chain(t.layers, id))
    requires HasId(Run(t, events).layers, id)
    ensures T.ViewKept(t, Run(t, events), id)
        <==> !Names(Ids(Chain(t.layers, id)), t.entries, Unlinked(events))
  {
    var t', gone, ids := Run(t, events), Unlinked(events), Ids(Chain(t.layers, id));
    RunShrinks(t, events);
    FrozenChainShrinks(t, t', id, gone);
    if Names(ids, t.entries, gone) {
      ShowsWhenNamed(ids, t.entries, t'.entries, gone);
    } else {
      AliveWhenNotNamed(ids, t.entries, t'.entries, gone);
    }
  }

  // ---------- which views every run keeps ----------

  function Taking(steps: seq<T.Step>): seq<Event> {
    if steps == [] then [] else [Take(steps[0])] + Taking(steps[1..])
  }

  lemma {:induction false} TakingRuns(t: Tables, steps: seq<T.Step>)
    requires Constraints(t)
    ensures Run(t, Taking(steps)) == T.Run(t, steps)
    decreases steps
  {
    if steps != [] {
      T.StepEvolves(t, steps[0]);
      assert Taking(steps)[1..] == Taking(steps[1..]);
      TakingRuns(T.Apply(t, steps[0]), steps[1..]);
    }
  }

  lemma UnlinkingOne(t: Tables, inode: InodeId)
    requires Constraints(t)
    ensures Run(t, [Unlink(inode)]) == RemoveInode(t, inode) && Unlinked([Unlink(inode)]) == {inode}
  {
    EventShrinks(t, Unlink(inode));
    assert [Unlink(inode)][1..] == [];
    assert Run(Happen(t, Unlink(inode)), []) == RemoveInode(t, inode);
  }

  /** Some run with deletions changes the view from a layer whose chain is writable or records anything. */
  lemma SomeRunChanges(t: Tables, id: LayerId) returns (events: seq<Event>)
    requires Constraints(t) && HasId(t.layers, id)
    requires !T.AllReadonly(Chain(t.layers, id)) || exists e | e in t.entries :: e.layer in Ids(Chain(t.layers, id))
    ensures HasId(Run(t, events).layers, id) && !T.ViewKept(t, Run(t, events), id)
  {
    if T.AllReadonly(Chain(t.layers, id)) {
      var e :| e in t.entries && e.layer in Ids(Chain(t.layers, id));
      events := [Unlink(e.inode)];
      UnlinkingOne(t, e.inode);
      FrozenViewKeptExactly(t, events, id);
    } else {
      var steps := T.WritableViewChanges(t, id);
      TakingRuns(t, steps);
      events := Taking(steps);
    }
  }

  /**
   Once files can be deleted, only views that show nothing last: the view from a layer is the same
   after every run that leaves the layer if and only if its chain is read-only and records nothing.
   */
  lemma OnlyEmptyViewsLast(t: Tables, id: LayerId)
    requires Constraints(t) && HasId(t.layers, id)
    ensures (forall events | HasId(Run(t, events).layers, id) :: T.ViewKept(t, Run(t, events), id))
        <==> && T.AllReadonly(Chain(t.layers, id))
             && forall e | e in t.entries :: e.layer !in Ids(Chain(t.layers, id))
  {
    var ids := Ids(Chain(t.layers, id));
    if T.AllReadonly(Chain(t.layers, id)) && forall e | e in t.entries :: e.layer !in ids {
      forall events | HasId(Run(t, events).layers, id) ensures T.ViewKept(t, Run(t, events), id) {
        FrozenViewKeptExactly(t, events, id);
      }
    } else {
      var events := SomeRunChanges(t, id);
    }
  }
}
