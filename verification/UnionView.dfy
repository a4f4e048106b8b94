/**
 src/layer/union_view.rs: one view of the files of a chain of layers. Looking a path up walks the
 chain newest first and stops at the first entry; listing a directory folds the chain oldest
 first into a map. Both are proved to be decided by the same entry.
 */
module UnionView {
  import opened Prelude
  import FsPath
  import Strings
  import opened LayerTable
  import opened LayerStore
  import opened History

  datatype FileState =
    | Exists(layer: LayerId, inode: InodeId)
    | Deleted(inLayer: LayerId)
    | NotFound

  datatype DirectoryEntry = DirectoryEntry(inode: InodeId, layer: LayerId)

  datatype FileVersion = FileVersion(layer: LayerId, change: ChangeType, inode: InodeId)

  // ---------- paths ----------

  function TrimSlashes(s: string): (r: string)
    ensures r <= s && (r == "" || r[|r| - 1] != '/')
  {
    if s != "" && s[|s| - 1] == '/' then TrimSlashes(s[..|s| - 1]) else s
  }

  function LastSlash(s: string): (r: Option<nat>)
    ensures r.Some? ==> r.value < |s| && s[r.value] == '/' && forall i | r.value < i < |s| :: s[i] != '/'
    ensures r.None? ==> '/' !in s
  {
    if s == "" then None
    else if s[|s| - 1] == '/' then Some(|s| - 1)
    else LastSlash(s[..|s| - 1])
  }

  function ParentPath(path: string): Option<string> {
    var p := TrimSlashes(path);
    if p == "" then None
    else
      match LastSlash(p)
      case Some(0) => Some("/")
      case Some(pos) => Some(p[..pos])
      case None => Some("")
  }

  function Filename(path: string): string {
    var p := TrimSlashes(path);
    match LastSlash(p)
    case Some(pos) => p[pos + 1..]
    case None => p
  }

  predicate InDirectory(path: string, dir: string) {
    match ParentPath(path)
    case None => false
    case Some(parent) => parent == dir || (dir == "/" && parent == "")
  }

  function Join(dir: string, name: string): string {
    if dir == "/" then "/" + name else dir + "/" + name
  }

  predicate IsName(name: string) {
    name != "" && '/' !in name
  }

  /** Joining the parent and the name of `path` gives `path` back. */
  predicate Rejoins(path: string) {
    ParentPath(path).Some? && Join(ParentPath(path).value, Filename(path)) == path
  }

  lemma LastSlashAt(s: string, i: nat)
    requires i < |s| && s[i] == '/' && forall j | i < j < |s| :: s[j] != '/'
    ensures LastSlash(s) == Some(i)
  {
    assert s[i] in s;
  }

  /** A joined path is in its directory and has its name back, for every non-empty directory and real name. */
  lemma JoinSlot(dir: string, name: string)
    requires dir != "" && IsName(name)
    ensures ParentPath(Join(dir, name)) == Some(dir) && Filename(Join(dir, name)) == name
  {
    var p := Join(dir, name);
    var at := |p| - |name| - 1;
    assert p[|p| - 1] == name[|name| - 1] && name[|name| - 1] in name;
    assert p[at + 1..] == name;
    forall j | at < j < |p| ensures p[j] != '/' {
      assert p[j] == name[j - at - 1] && name[j - at - 1] in name;
    }
    LastSlashAt(p, at);
    assert dir != "/" ==> p[..at] == dir;
  }

  lemma FilenameClean(path: string)
    requires TrimSlashes(path) != ""
    ensures IsName(Filename(path))
  {
    var p := TrimSlashes(path);
    assert p[|p| - 1] != '/';
    assert forall i | 0 <= i < |Filename(path)| :: Filename(path)[i] != '/';
  }

  lemma RejoinsTrimmed(path: string)
    requires Rejoins(path)
    ensures path != "" && path[|path| - 1] != '/'
  {
    FilenameClean(path);
    var name := Filename(path);
    var joined := Join(ParentPath(path).value, name);
    assert joined[|joined| - 1] == name[|name| - 1] && name[|name| - 1] in name;
  }

  lemma SlotAt(path: string, pos: nat)
    requires path != "" && TrimSlashes(path) == path && LastSlash(path) == Some(pos)
    ensures ParentPath(path) == Some(if pos == 0 then "/" else path[..pos])
    ensures Filename(path) == path[pos + 1..]
  {
  }

  lemma TrimNothing(path: string)
    requires path != "" && path[|path| - 1] != '/'
    ensures TrimSlashes(path) == path
  {
  }

  lemma JoinAt(path: string, pos: nat)
    requires pos < |path| && path[pos] == '/'
    ensures Join(if pos == 0 then "/" else path[..pos], path[pos + 1..]) == path <==> !(pos == 1 && path[0] == '/')
  {
    assert path[..pos] + "/" + path[pos + 1..] == path;
    if pos == 1 && path[0] == '/' {
      assert path[..pos] == "/";
      assert |Join("/", path[pos + 1..])| < |path|;
    } else if pos > 0 {
      assert path[..pos][0] == path[0] && |path[..pos]| == pos;
    }
  }

  lemma RejoinsAt(path: string, pos: nat)
    requires path != "" && path[|path| - 1] != '/' && LastSlash(path) == Some(pos)
    ensures Rejoins(path) <==> !(pos == 1 && path[0] == '/')
  {
    TrimNothing(path);
    SlotAt(path, pos);
    JoinAt(path, pos);
  }

  /** The paths that rejoin have a slash, none at the end, and do not consist of "//" and a name. */
  lemma RejoinsExactly(path: string)
    ensures Rejoins(path) <==>
            && path != "" && path[|path| - 1] != '/'
            && LastSlash(path).Some?
            && !(LastSlash(path) == Some(1) && path[0] == '/')
  {
    if path != "" && path[|path| - 1] != '/' {
      match LastSlash(path)
      case None => assert Join("", path) == "/" + path;
      case Some(pos) => RejoinsAt(path, pos);
    } else if Rejoins(path) {
      RejoinsTrimmed(path);
    }
  }

  lemma {:induction false} JoinedEnds(parts: seq<string>)
    requires FsPath.AreParts(parts) && parts != []
    ensures var joined := Strings.Join(parts, "/"); joined != "" && joined[0] != '/' && joined[|joined| - 1] != '/'
  {
    assert FsPath.IsPart(parts[0]);
    assert parts[0][0] in parts[0] && parts[0][|parts[0]| - 1] in parts[0];
    if |parts| > 1 {
      assert forall i | 0 <= i < |parts[1..]| :: FsPath.IsPart(parts[1..][i]);
      JoinedEnds(parts[1..]);
    }
  }

  /** Every path in normal form but the root rejoins. */
  lemma NormalizedRejoins(path: string)
    requires FsPath.NormalizePath(path).Ok?
    ensures Rejoins(FsPath.NormalizePath(path).value) <==> FsPath.NormalizePath(path).value != "/"
  {
    var n, parts := FsPath.NormalizePath(path).value, FsPath.Parts(path);
    FsPath.NormalizeExactly(path);
    FsPath.PartsAreParts(path);
    FsPath.RenderedRoot(parts);
    RejoinsExactly(n);
    if parts != [] {
      JoinedEnds(parts);
      assert n[1..] == Strings.Join(parts, "/");
      assert n[0] in n && n[|n| - 1] == n[1..][|n| - 2];
      assert n[1] == n[1..][0];
    }
  }

  // ---------- the view of a chain of layers, newest first ----------

  function FirstAt(es: seq<Entry>, path: string): Option<Entry> {
    if es == [] then None else if es[0].path == path then Some(es[0]) else FirstAt(es[1..], path)
  }

  function StateOf(layer: LayerId, e: Entry): FileState {
    if e.change == Delete then Deleted(layer) else Exists(layer, e.inode)
  }

  /** The newest layer with an entry at `path` decides. */
  function Lookup(chain: seq<LayerId>, entries: seq<Entry>, path: string): FileState {
    if chain == [] then NotFound
    else
      match FirstAt(EntriesOf(entries, chain[0]), path)
      case Some(e) => StateOf(chain[0], e)
      case None => Lookup(chain[1..], entries, path)
  }

  function ListEntry(m: map<string, DirectoryEntry>, layer: LayerId, e: Entry, dir: string)
    : map<string, DirectoryEntry>
  {
    if !InDirectory(e.path, dir) then m
    else if e.change == Delete then m - {Filename(e.path)}
    else m[Filename(e.path) := DirectoryEntry(e.inode, layer)]
  }

  function ListLayer(m: map<string, DirectoryEntry>, layer: LayerId, es: seq<Entry>, dir: string)
    : map<string, DirectoryEntry>
  {
    if es == [] then m
    else
      var last := |es| - 1;
      ListEntry(ListLayer(m, layer, es[..last], dir), layer, es[last], dir)
  }

  /** The fold of the chain, oldest layer first, of all entries in directory `dir`. */
  function List(chain: seq<LayerId>, entries: seq<Entry>, dir: string): map<string, DirectoryEntry> {
    if chain == [] then map[]
    else ListLayer(List(chain[1..], entries, dir), chain[0], EntriesOf(entries, chain[0]), dir)
  }

  function VersionsIn(layer: LayerId, es: seq<Entry>, path: string): seq<FileVersion> {
    if es == [] then []
    else
      var last := |es| - 1;
      VersionsIn(layer, es[..last], path)
      + if es[last].path == path then [FileVersion(layer, es[last].change, es[last].inode)] else []
  }

  function Versions(chain: seq<LayerId>, entries: seq<Entry>, path: string): seq<FileVersion> {
    if chain == [] then []
    else VersionsIn(chain[0], EntriesOf(entries, chain[0]), path) + Versions(chain[1..], entries, path)
  }

  // ---------- which entry decides ----------

  predicate AtSlot(e: Entry, dir: string, name: string) {
    InDirectory(e.path, dir) && Filename(e.path) == name
  }

  function SlotTest(dir: string, name: string): Entry -> bool {
    e => AtSlot(e, dir, name)
  }

  function LastWhere(es: seq<Entry>, test: Entry -> bool): Option<Entry> {
    if es == [] then None
    else
      var last := |es| - 1;
      if test(es[last]) then Some(es[last]) else LastWhere(es[..last], test)
  }

  function NewestAt(es: seq<Entry>, dir: string, name: string): Option<Entry> {
    LastWhere(es, SlotTest(dir, name))
  }

  /** What the newest entry of the newest layer that has one in this place of the directory says. */
  function Decide(chain: seq<LayerId>, entries: seq<Entry>, dir: string, name: string): Option<DirectoryEntry> {
    if chain == [] then None
    else
      match NewestAt(EntriesOf(entries, chain[0]), dir, name)
      case Some(e) => if e.change == Delete then None else Some(DirectoryEntry(e.inode, chain[0]))
      case None => Decide(chain[1..], entries, dir, name)
  }

  function At(m: map<string, DirectoryEntry>, name: string): Option<DirectoryEntry> {
    if name in m then Some(m[name]) else None
  }

  lemma {:induction false} ListLayerDecides(m: map<string, DirectoryEntry>, layer: LayerId, es: seq<Entry>,
                                            dir: string, name: string)
    ensures At(ListLayer(m, layer, es, dir), name)
         == match NewestAt(es, dir, name)
            case Some(e) => if e.change == Delete then None else Some(DirectoryEntry(e.inode, layer))
            case None => At(m, name)
  {
    if es != [] {
      ListLayerDecides(m, layer, es[..|es| - 1], dir, name);
    }
  }

  /** For any entries at all: a listing holds a name exactly as the newest entry for it says. */
  lemma {:induction false} ListDecides(chain: seq<LayerId>, entries: seq<Entry>, dir: string, name: string)
    ensures At(List(chain, entries, dir), name) == Decide(chain, entries, dir, name)
  {
    if chain != [] {
      ListDecides(chain[1..], entries, dir, name);
      ListLayerDecides(List(chain[1..], entries, dir), chain[0], EntriesOf(entries, chain[0]), dir, name);
    }
  }

  lemma {:induction false} FirstAtVersions(layer: LayerId, es: seq<Entry>, path: string)
    ensures match FirstAt(es, path)
            case None => VersionsIn(layer, es, path) == []
            case Some(e) => VersionsIn(layer, es, path) != []
                            && VersionsIn(layer, es, path)[0] == FileVersion(layer, e.change, e.inode)
  {
    if es != [] {
      var last := |es| - 1;
      FirstAtVersions(layer, es[..last], path);
      FirstAtSnoc(es[..last], es[last], path);
      assert es == es[..last] + [es[last]];
    }
  }

  lemma {:induction false} FirstAtSnoc(es: seq<Entry>, e: Entry, path: string)
    ensures FirstAt(es + [e], path) == if FirstAt(es, path).Some? then FirstAt(es, path)
                                       else if e.path == path then Some(e) else None
  {
    if es != [] {
      assert (es + [e])[1..] == es[1..] + [e];
      FirstAtSnoc(es[1..], e, path);
    }
  }

  /** A lookup is decided by the first element of the file's history. */
  lemma {:induction false} LookupIsFirstVersion(chain: seq<LayerId>, entries: seq<Entry>, path: string)
    ensures Lookup(chain, entries, path)
         == var h := Versions(chain, entries, path);
            if h == [] then NotFound
            else if h[0].change == Delete then Deleted(h[0].layer) else Exists(h[0].layer, h[0].inode)
  {
    if chain != [] {
      FirstAtVersions(chain[0], EntriesOf(entries, chain[0]), path);
      LookupIsFirstVersion(chain[1..], entries, path);
    }
  }

  // ---------- the two algorithms agree ----------

  /** The two searches can agree on this path: it rejoins, or it has no parent and is never listed. */
  predicate Agreeable(path: string) {
    Rejoins(path) || ParentPath(path).None?
  }

  ghost predicate AllAgreeable(entries: seq<Entry>) {
    forall i | 0 <= i < |entries| :: Agreeable(entries[i].path)
  }

  lemma SlotIsPath(e: Entry, dir: string, name: string)
    requires Agreeable(e.path) && dir != "" && IsName(name)
    ensures AtSlot(e, dir, name) <==> e.path == Join(dir, name)
  {
    JoinSlot(dir, name);
    if Rejoins(e.path) { RejoinsParent(e.path); }
  }

  lemma RejoinsParent(path: string)
    requires Rejoins(path)
    ensures ParentPath(path).value != ""
  {
    var name := Filename(path);
    FilenameClean(path);
    assert Join("", name) == Join("/", name);
    JoinSlot("/", name);
  }

  ghost predicate OnePerPath(es: seq<Entry>) {
    forall i, j | 0 <= i < j < |es| :: es[i].path != es[j].path
  }

  lemma {:induction false} EntriesOfFacts(entries: seq<Entry>, layer: LayerId)
    ensures forall i | 0 <= i < |EntriesOf(entries, layer)| ::
              EntriesOf(entries, layer)[i] in entries && EntriesOf(entries, layer)[i].layer == layer
    ensures OneEntryPerPath(entries) ==> OnePerPath(EntriesOf(entries, layer))
  {
    if entries != [] {
      EntriesOfFacts(entries[..|entries| - 1], layer);
    }
  }

  lemma {:induction false} LastIsFirst(es: seq<Entry>, test: Entry -> bool, path: string)
    requires OnePerPath(es) && (forall i | 0 <= i < |es| :: test(es[i]) <==> es[i].path == path)
    ensures LastWhere(es, test) == FirstAt(es, path)
  {
    if es != [] {
      var last := |es| - 1;
      LastIsFirst(es[..last], test, path);
      assert es == es[..last] + [es[last]];
      FirstAtSnoc(es[..last], es[last], path);
      if es[last].path == path { NoneBefore(es[..last], path); }
    }
  }

  lemma NewestIsFirst(es: seq<Entry>, dir: string, name: string)
    requires OnePerPath(es) && AllAgreeable(es) && dir != "" && IsName(name)
    ensures NewestAt(es, dir, name) == FirstAt(es, Join(dir, name))
  {
    forall i | 0 <= i < |es| ensures SlotTest(dir, name)(es[i]) <==> es[i].path == Join(dir, name) {
      SlotIsPath(es[i], dir, name);
    }
    LastIsFirst(es, SlotTest(dir, name), Join(dir, name));
  }

  lemma {:induction false} NoneBefore(es: seq<Entry>, path: string)
    requires forall i | 0 <= i < |es| :: es[i].path != path
    ensures FirstAt(es, path) == None
  {
    if es != [] {
      NoneBefore(es[1..], path);
    }
  }

  /**
   When every recorded path rejoins or has no parent: a listing of any directory holds a name with an inode and a
   layer exactly when looking up the joined path says the file exists with that inode and layer.
   */
  lemma {:induction false} ListAgreesWithLookup(chain: seq<LayerId>, entries: seq<Entry>, dir: string, name: string)
    requires OneEntryPerPath(entries) && AllAgreeable(entries) && dir != "" && IsName(name)
    ensures At(List(chain, entries, dir), name)
         == match Lookup(chain, entries, Join(dir, name))
            case Exists(layer, inode) => Some(DirectoryEntry(inode, layer))
            case _ => None
  {
    ListDecides(chain, entries, dir, name);
    if chain != [] {
      EntriesOfFacts(entries, chain[0]);
      NewestIsFirst(EntriesOf(entries, chain[0]), dir, name);
      ListAgreesWithLookup(chain[1..], entries, dir, name);
      ListDecides(chain[1..], entries, dir, name);
    }
  }

  /** A listing never holds anything but real names. */
  lemma {:induction false} ListHoldsNames(chain: seq<LayerId>, entries: seq<Entry>, dir: string)
    ensures forall name | name in List(chain, entries, dir) :: IsName(name)
  {
    if chain != [] {
      ListHoldsNames(chain[1..], entries, dir);
      ListLayerHoldsNames(List(chain[1..], entries, dir), chain[0], EntriesOf(entries, chain[0]), dir);
    }
  }

  lemma {:induction false} ListLayerHoldsNames(m: map<string, DirectoryEntry>, layer: LayerId, es: seq<Entry>,
                                               dir: string)
    requires forall name | name in m :: IsName(name)
    ensures forall name | name in ListLayer(m, layer, es, dir) :: IsName(name)
  {
    if es != [] {
      ListLayerHoldsNames(m, layer, es[..|es| - 1], dir);
      if InDirectory(es[|es| - 1].path, dir) { FilenameClean(es[|es| - 1].path); }
    }
  }

  /** Listing and lookup say the same about a name in a directory. */
  ghost predicate Agree(chain: seq<LayerId>, entries: seq<Entry>, dir: string, name: string) {
    At(List(chain, entries, dir), name)
    == match Lookup(chain, entries, Join(dir, name))
       case Exists(layer, inode) => Some(DirectoryEntry(inode, layer))
       case _ => None
  }

  ghost predicate AgreeEverywhere(chain: seq<LayerId>, entries: seq<Entry>) {
    forall dir, name | dir != "" && IsName(name) :: Agree(chain, entries, dir, name)
  }

  /**
   Why the recorded paths must be agreeable: a single change that is not a deletion is listed as
   it is looked up, in every directory, exactly when its path rejoins or has no parent.
   */
  lemma AgreeExactly(e: Entry)
    requires e.change != Delete
    ensures AgreeEverywhere([e.layer], [e]) <==> Agreeable(e.path)
  {
    if Agreeable(e.path) {
      AgreeableTables([e.layer], [e]);
    } else {
      var parent, name := ParentPath(e.path).value, Filename(e.path);
      var dir := if parent == "" then "/" else parent;
      FilenameClean(e.path);
      assert Join("", name) == Join("/", name);
      ListedOnly(e, dir, name);
      assert !Agree([e.layer], [e], dir, name);
    }
  }

  ghost predicate PathsIn(entries: seq<Entry>, paths: set<string>) {
    forall i | 0 <= i < |entries| :: entries[i].path in paths
  }

  /** On every chain over all entries with paths of the set, listing and lookup agree. */
  ghost predicate AllTablesAgree(paths: set<string>) {
    forall chain, entries | OneEntryPerPath(entries) && PathsIn(entries, paths) :: AgreeEverywhere(chain, entries)
  }

  /**
   Which paths may be recorded: listing and lookup agree on every chain over all entries with
   paths of a given set if and only if every path of the set is agreeable.
   */
  lemma AgreeableSetExactly(paths: set<string>)
    ensures AllTablesAgree(paths) <==> forall p | p in paths :: Agreeable(p)
  {
    if forall p | p in paths :: Agreeable(p) {
      AgreeableSetAgrees(paths);
    } else {
      var p :| p in paths && !Agreeable(p);
      BadPathDisagrees(paths, p);
    }
  }

  lemma AgreeableSetAgrees(paths: set<string>)
    requires forall p | p in paths :: Agreeable(p)
    ensures AllTablesAgree(paths)
  {
    forall chain, entries | OneEntryPerPath(entries) && PathsIn(entries, paths)
      ensures AgreeEverywhere(chain, entries)
    {
      AgreeableTables(chain, entries);
    }
  }

  lemma BadPathDisagrees(paths: set<string>, p: string)
    requires p in paths && !Agreeable(p)
    ensures !AllTablesAgree(paths)
  {
    OneBadPath(Entry(0, 0, p, Add), paths);
  }

  lemma AgreeableTables(chain: seq<LayerId>, entries: seq<Entry>)
    requires OneEntryPerPath(entries) && AllAgreeable(entries)
    ensures AgreeEverywhere(chain, entries)
  {
    forall dir, name | dir != "" && IsName(name) ensures Agree(chain, entries, dir, name) {
      ListAgreesWithLookup(chain, entries, dir, name);
    }
  }

  lemma OneBadPath(e: Entry, paths: set<string>)
    requires e.path in paths && e.change != Delete && !Agreeable(e.path)
    ensures OneEntryPerPath([e]) && PathsIn([e], paths) && !AgreeEverywhere([e.layer], [e])
  {
    AgreeExactly(e);
  }

  /** An entry in a place of a directory, under a path that is not the joined one, is listed and not found. */
  lemma ListedOnly(e: Entry, dir: string, name: string)
    requires AtSlot(e, dir, name) && e.change != Delete && e.path != Join(dir, name)
    ensures At(List([e.layer], [e], dir), name) == Some(DirectoryEntry(e.inode, e.layer))
    ensures Lookup([e.layer], [e], Join(dir, name)) == NotFound
  {
    ListDecides([e.layer], [e], dir, name);
    DecideOne(e, dir, name);
    LookupOne(e, Join(dir, name));
  }

  /** So a path recorded with a trailing slash is listed, but cannot be looked up under the name listed. */
  lemma TrailingSlashDisagrees(dir: string, name: string, inode: InodeId, layer: LayerId)
    requires dir != "" && IsName(name)
    ensures var entries := [Entry(layer, inode, Join(dir, name) + "/", Add)];
            && At(List([layer], entries, dir), name) == Some(DirectoryEntry(inode, layer))
            && Lookup([layer], entries, Join(dir, name)) == NotFound
  {
    TrailingSlashSlot(dir, name);
    ListedOnly(Entry(layer, inode, Join(dir, name) + "/", Add), dir, name);
  }

  /** And so are a path without a slash, and "//" before a name: both are listed under "/". */
  lemma RootlessDisagrees(name: string, inode: InodeId, layer: LayerId, path: string)
    requires IsName(name) && path in [name, "//" + name]
    ensures At(List([layer], [Entry(layer, inode, path, Add)], "/"), name) == Some(DirectoryEntry(inode, layer))
    ensures Lookup([layer], [Entry(layer, inode, path, Add)], "/" + name) == NotFound
  {
    RootlessSlot(name, path);
    ListedOnly(Entry(layer, inode, path, Add), "/", name);
  }

  lemma RootlessSlot(name: string, path: string)
    requires IsName(name) && path in [name, "//" + name]
    ensures InDirectory(path, "/") && Filename(path) == name && path != Join("/", name)
  {
    assert name[|name| - 1] in name;
    assert path[|path| - 1] == name[|name| - 1];
    TrimNothing(path);
    if path == name {
      assert LastSlash(path).None?;
    } else {
      assert path[2..] == name && path[1] == '/';
      forall j | 1 < j < |path| ensures path[j] != '/' {
        assert path[j] == name[j - 2] && name[j - 2] in name;
      }
      LastSlashAt(path, 1);
      SlotAt(path, 1);
      assert path[..1] == "/";
    }
  }

  lemma TrailingSlashSlot(dir: string, name: string)
    requires dir != "" && IsName(name)
    ensures InDirectory(Join(dir, name) + "/", dir) && Filename(Join(dir, name) + "/") == name
  {
    var p := Join(dir, name);
    assert p[|p| - 1] == name[|name| - 1] && name[|name| - 1] in name;
    assert (p + "/")[..|p|] == p;
    assert TrimSlashes(p + "/") == p == TrimSlashes(p);
    JoinSlot(dir, name);
  }

  lemma DecideOne(e: Entry, dir: string, name: string)
    requires AtSlot(e, dir, name) && e.change != Delete
    ensures Decide([e.layer], [e], dir, name) == Some(DirectoryEntry(e.inode, e.layer))
  {
    OnlyEntry(e);
    assert LastWhere([e], SlotTest(dir, name)) == Some(e);
  }

  lemma LookupOne(e: Entry, path: string)
    requires e.path != path
    ensures Lookup([e.layer], [e], path) == NotFound
  {
    var chain := [e.layer];
    OnlyEntry(e);
    NoneBefore([e], path);
    assert chain[0] == e.layer && chain[1..] == [];
    assert Lookup(chain[1..], [e], path) == NotFound;
  }

  lemma OnlyEntry(e: Entry)
    ensures EntriesOf([e], e.layer) == [e]
  {
    assert [e][..0] == [];
    assert EntriesOf([], e.layer) == [];
  }

  // ---------- time travel ----------

  function Ids(chain: seq<Layer>): (ids: seq<LayerId>)
    ensures |ids| == |chain| && forall i | 0 <= i < |ids| :: ids[i] == chain[i].id
  {
    if chain == [] then [] else [chain[0].id] + Ids(chain[1..])
  }

  ghost predicate SameEntries(chain: seq<LayerId>, es: seq<Entry>, es': seq<Entry>) {
    forall i | 0 <= i < |chain| :: EntriesOf(es', chain[i]) == EntriesOf(es, chain[i])
  }

  ghost predicate SameView(chain: seq<LayerId>, es: seq<Entry>, es': seq<Entry>) {
    && (forall path :: Lookup(chain, es', path) == Lookup(chain, es, path))
    && (forall dir :: List(chain, es', dir) == List(chain, es, dir))
    && (forall path :: Versions(chain, es', path) == Versions(chain, es, path))
  }

  lemma {:induction false} SameEntriesSameAnswer(chain: seq<LayerId>, es: seq<Entry>, es': seq<Entry>, p: string)
    requires SameEntries(chain, es, es')
    ensures Lookup(chain, es', p) == Lookup(chain, es, p)
    ensures List(chain, es', p) == List(chain, es, p)
    ensures Versions(chain, es', p) == Versions(chain, es, p)
  {
    if chain != [] {
      forall i | 0 <= i < |chain[1..]| ensures EntriesOf(es', chain[1..][i]) == EntriesOf(es, chain[1..][i]) {
        assert chain[1..][i] == chain[i + 1];
      }
      SameEntriesSameAnswer(chain[1..], es, es', p);
    }
  }

  lemma SameEntriesSameView(chain: seq<LayerId>, es: seq<Entry>, es': seq<Entry>)
    requires SameEntries(chain, es, es')
    ensures SameView(chain, es, es')
  {
    forall p: string
      ensures Lookup(chain, es', p) == Lookup(chain, es, p)
      ensures List(chain, es', p) == List(chain, es, p)
      ensures Versions(chain, es', p) == Versions(chain, es, p)
    {
      SameEntriesSameAnswer(chain, es, es', p);
    }
  }

  lemma IdsAt(rows: seq<Layer>, n: nat)
    requires n <= |rows|
    ensures var ids := Ids(Reversed(rows[..n])); |ids| == n && forall i | 0 <= i < n :: ids[i] == rows[n - 1 - i].id
  {
  }

  lemma SameEntriesByRow(rows: seq<Layer>, n: nat, es: seq<Entry>, es': seq<Entry>)
    requires n <= |rows| && forall i: nat | i < n :: EntriesOf(es', rows[i].id) == EntriesOf(es, rows[i].id)
    ensures SameEntries(Ids(Reversed(rows[..n])), es, es')
  {
    IdsAt(rows, n);
    var ids := Ids(Reversed(rows[..n]));
    forall i | 0 <= i < |ids| ensures EntriesOf(es', ids[i]) == EntriesOf(es, ids[i]) {
      assert ids[i] == rows[n - 1 - i].id;
    }
  }

  lemma SameRowsSameChain(t: Tables, t': Tables, k: nat)
    requires Linear(t) && Linear(t') && SameUpTo(t, t', k)
    ensures var id := t.layers[k].id;
            && Chain(t'.layers, id) == Chain(t.layers, id)
            && SameEntries(Ids(Chain(t.layers, id)), t.entries, t'.entries)
  {
    assert t'.layers[k] == t'.layers[..k + 1][k] == t.layers[k];
    LinearChain(t.layers, k);
    LinearChain(t'.layers, k);
    SameEntriesByRow(t.layers, k + 1, t.entries, t'.entries);
  }

  /**
   Over any run of manager steps, the whole view from a read-only layer that is still there at
   the end is what it was at the start: the same chain, and the same answer to every lookup,
   every listing and every history query.
   */
  lemma TimeTravelIsStable(t: Tables, ops: seq<Op>, k: nat)
    requires Linear(t) && k < |t.layers| && t.layers[k].readonly
    requires HasId(Run(t, ops).layers, t.layers[k].id)
    ensures var t', id := Run(t, ops), t.layers[k].id;
            && Chain(t'.layers, id) == Chain(t.layers, id)
            && SameView(Ids(Chain(t.layers, id)), t.entries, t'.entries)
  {
    var t' := Run(t, ops);
    ReadonlyLayersAreStable(t, ops, k);
    SameRowsSameChain(t, t', k);
    SameEntriesSameView(Ids(Chain(t.layers, t.layers[k].id)), t.entries, t'.entries);
  }

  // ---------- a history, by its entries ----------

  lemma {:induction false} VersionsInMembers(layer: LayerId, es: seq<Entry>, path: string)
    ensures forall v :: v in VersionsIn(layer, es, path)
              <==> && v.layer == layer
                   && exists e | e in es :: e.path == path && e.change == v.change && e.inode == v.inode
  {
    if es != [] {
      VersionsInMembers(layer, es[..|es| - 1], path);
      assert es == es[..|es| - 1] + [es[|es| - 1]];
      assert es[|es| - 1] in es;
    }
  }

  /** A history holds exactly the versions recorded for the path in the layers of the chain. */
  lemma {:induction false} HistoryMembers(chain: seq<LayerId>, entries: seq<Entry>, path: string, v: FileVersion)
    ensures v in Versions(chain, entries, path)
        <==> v.layer in chain && Entry(v.layer, v.inode, path, v.change) in entries
  {
    if chain != [] {
      var es := EntriesOf(entries, chain[0]);
      VersionsInMembers(chain[0], es, path);
      EntriesOfMembers(entries, chain[0]);
      HistoryMembers(chain[1..], entries, path, v);
      assert chain == [chain[0]] + chain[1..];
      if v.layer == chain[0] && Entry(v.layer, v.inode, path, v.change) in entries {
        assert Entry(v.layer, v.inode, path, v.change) in es;
      }
      if v in VersionsIn(chain[0], es, path) {
        var e :| e in es && e.path == path && e.change == v.change && e.inode == v.inode;
        assert e == Entry(v.layer, v.inode, path, v.change);
      }
    }
  }

  lemma {:induction false} AtMostOneVersion(layer: LayerId, es: seq<Entry>, path: string)
    requires OnePerPath(es)
    ensures |VersionsIn(layer, es, path)| <= 1
    ensures (forall i | 0 <= i < |es| :: es[i].path != path) ==> VersionsIn(layer, es, path) == []
  {
    if es != [] { AtMostOneVersion(layer, es[..|es| - 1], path); }
  }

  /** One layer is nearer to the top of the chain than the other. */
  ghost predicate Above(chain: seq<LayerId>, upper: LayerId, lower: LayerId) {
    exists a, b | 0 <= a < b < |chain| :: chain[a] == upper && chain[b] == lower
  }

  lemma AboveInRest(chain: seq<LayerId>, upper: LayerId, lower: LayerId)
    requires chain != []
    ensures Above(chain[1..], upper, lower) ==> Above(chain, upper, lower)
    ensures upper == chain[0] && lower in chain[1..] ==> Above(chain, upper, lower)
  {
    if Above(chain[1..], upper, lower) {
      var a, b :| 0 <= a < b < |chain[1..]| && chain[1..][a] == upper && chain[1..][b] == lower;
      assert chain[a + 1] == upper && chain[b + 1] == lower;
    }
    if lower in chain[1..] {
      var b :| 0 <= b < |chain[1..]| && chain[1..][b] == lower;
      assert chain[b + 1] == lower;
    }
  }

  ghost predicate TopDown(chain: seq<LayerId>, h: seq<FileVersion>) {
    forall i, j | 0 <= i < j < |h| :: Above(chain, h[i].layer, h[j].layer)
  }

  lemma TopDownCons(chain: seq<LayerId>, own: seq<FileVersion>, rest: seq<FileVersion>)
    requires chain != [] && |own| <= 1 && (own != [] ==> own[0].layer == chain[0])
    requires TopDown(chain[1..], rest) && forall i | 0 <= i < |rest| :: rest[i].layer in chain[1..]
    ensures TopDown(chain, own + rest)
  {
    var h := own + rest;
    forall i, j | 0 <= i < j < |h| ensures Above(chain, h[i].layer, h[j].layer) {
      AboveInRest(chain, h[i].layer, h[j].layer);
      assert h[j] == rest[j - |own|];
      if i >= |own| { assert h[i] == rest[i - |own|]; }
    }
  }

  /** A history goes from the top of the chain down, with one version for each layer that has one. */
  lemma {:induction false} HistoryOrder(chain: seq<LayerId>, entries: seq<Entry>, path: string)
    requires OneEntryPerPath(entries)
    ensures TopDown(chain, Versions(chain, entries, path))
  {
    if chain != [] {
      var own, rest := VersionsIn(chain[0], EntriesOf(entries, chain[0]), path), Versions(chain[1..], entries, path);
      EntriesOfFacts(entries, chain[0]);
      AtMostOneVersion(chain[0], EntriesOf(entries, chain[0]), path);
      VersionsInMembers(chain[0], EntriesOf(entries, chain[0]), path);
      assert own != [] ==> own[0] in own;
      HistoryOrder(chain[1..], entries, path);
      forall i | 0 <= i < |rest| ensures rest[i].layer in chain[1..] {
        HistoryMembers(chain[1..], entries, path, rest[i]);
        assert rest[i] in rest;
      }
      TopDownCons(chain, own, rest);
    }
  }

  // ---------- what a recorded change shows ----------

  lemma {:induction false} FirstAtMember(es: seq<Entry>, path: string)
    ensures match FirstAt(es, path)
            case Some(e) => e in es && e.path == path
            case None => forall e | e in es :: e.path != path
  {
    if es != [] {
      FirstAtMember(es[1..], path);
      assert es == [es[0]] + es[1..];
    }
  }

  lemma {:induction false} EntriesOfMembers(entries: seq<Entry>, layer: LayerId)
    ensures forall e :: e in EntriesOf(entries, layer) <==> e in entries && e.layer == layer
  {
    if entries != [] {
      EntriesOfMembers(entries[..|entries| - 1], layer);
      assert entries == entries[..|entries| - 1] + [entries[|entries| - 1]];
    }
  }

  lemma OnlyOne(entries: seq<Entry>, a: Entry, b: Entry)
    requires OneEntryPerPath(entries) && a in entries && b in entries && a.layer == b.layer && a.path == b.path
    ensures a == b
  {
    var i :| 0 <= i < |entries| && entries[i] == a;
    var j :| 0 <= j < |entries| && entries[j] == b;
    assert i == j;
  }

  /** With one entry per layer and path, what a layer says about a path is the entry it holds for it. */
  lemma LayerSays(entries: seq<Entry>, layer: LayerId, path: string, e: Entry)
    requires OneEntryPerPath(entries)
    ensures FirstAt(EntriesOf(entries, layer), path) == Some(e) <==> e in entries && e.layer == layer && e.path == path
  {
    FirstAtMember(EntriesOf(entries, layer), path);
    EntriesOfMembers(entries, layer);
    var first := FirstAt(EntriesOf(entries, layer), path);
    if e in entries && e.layer == layer && e.path == path {
      assert e in EntriesOf(entries, layer);
      OnlyOne(entries, e, first.value);
    }
  }

  /** The entry a recorded change leaves behind: it keeps the inode of an entry that was there. */
  function Recorded(t: Tables, layer: LayerId, inode: InodeId, path: string, change: ChangeType): Entry {
    match FindEntry(t.entries, layer, path)
    case None => Entry(layer, inode, path, change)
    case Some(i) => t.entries[i].(change := change)
  }

  lemma MovedMembers(entries: seq<Entry>, i: nat, moved: Entry, e: Entry)
    requires i < |entries| && OneEntryPerPath(entries)
    ensures e in entries[..i] + entries[i + 1..] + [moved] <==> e == moved || (e in entries && e != entries[i])
  {
    var others := entries[..i] + entries[i + 1..];
    assert entries == entries[..i] + [entries[i]] + entries[i + 1..];
    forall k | 0 <= k < |others| ensures others[k] != entries[i] {
      assert others[k] == entries[if k < i then k else k + 1];
    }
  }

  lemma UpsertMembers(t: Tables, layer: LayerId, inode: InodeId, path: string, change: ChangeType, e: Entry)
    requires OneEntryPerPath(t.entries) && Upsert(t, layer, inode, path, change).Ok?
    ensures e in Upsert(t, layer, inode, path, change).value.entries
        <==> e == Recorded(t, layer, inode, path, change) || (e in t.entries && !(e.layer == layer && e.path == path))
  {
    match FindEntry(t.entries, layer, path)
    case None =>
    case Some(i) =>
      MovedMembers(t.entries, i, t.entries[i].(change := change), e);
      if e in t.entries && e.layer == layer && e.path == path { OnlyOne(t.entries, e, t.entries[i]); }
  }

  lemma UpsertSays(t: Tables, layer: LayerId, inode: InodeId, path: string, change: ChangeType, l: LayerId, p: string)
    requires Constraints(t) && Upsert(t, layer, inode, path, change).Ok?
    ensures var es' := Upsert(t, layer, inode, path, change).value.entries;
            FirstAt(EntriesOf(es', l), p)
            == if l == layer && p == path then Some(Recorded(t, layer, inode, path, change))
               else FirstAt(EntriesOf(t.entries, l), p)
  {
    var es' := Upsert(t, layer, inode, path, change).value.entries;
    UpsertKeeps(t, layer, inode, path, change);
    var new' := Recorded(t, layer, inode, path, change);
    UpsertMembers(t, layer, inode, path, change, new');
    if l == layer && p == path {
      LayerSays(es', l, p, new');
    } else {
      var before, after := FirstAt(EntriesOf(t.entries, l), p), FirstAt(EntriesOf(es', l), p);
      if before.Some? {
        LayerSays(t.entries, l, p, before.value);
        LayerSays(es', l, p, before.value);
        UpsertMembers(t, layer, inode, path, change, before.value);
      } else if after.Some? {
        LayerSays(t.entries, l, p, after.value);
        LayerSays(es', l, p, after.value);
        UpsertMembers(t, layer, inode, path, change, after.value);
      }
    }
  }

  lemma {:induction false} LookupSame(chain: seq<LayerId>, es: seq<Entry>, es': seq<Entry>, p: string)
    requires forall i | 0 <= i < |chain| :: FirstAt(EntriesOf(es', chain[i]), p) == FirstAt(EntriesOf(es, chain[i]), p)
    ensures Lookup(chain, es', p) == Lookup(chain, es, p)
  {
    if chain != [] {
      LookupSame(chain[1..], es, es', p);
    }
  }

  /**
   A recorded change is what a lookup from the current layer shows from then on, with the inode of
   the layer's first entry for that path; every other path looks as before.
   */
  lemma RecordIsSeen(t: Tables, inode: InodeId, path: string, change: ChangeType, p: string)
    requires Constraints(t) && Record(t, inode, path, change).1.Ok?
    ensures var t', c := Record(t, inode, path, change).0, t.current.value;
            && t'.layers == t.layers
            && Lookup(Ids(Chain(t.layers, c)), t'.entries, p)
            == if p == path then StateOf(c, Recorded(t, c, inode, path, change))
               else Lookup(Ids(Chain(t.layers, c)), t.entries, p)
  {
    var c := t.current.value;
    var ids, es' := Ids(Chain(t.layers, c)), Record(t, inode, path, change).0.entries;
    ChainStarts(t.layers, c);
    if p == path {
      UpsertSays(t, c, inode, path, change, c, path);
    } else {
      forall i | 0 <= i < |ids| ensures FirstAt(EntriesOf(es', ids[i]), p) == FirstAt(EntriesOf(t.entries, ids[i]), p) {
        UpsertSays(t, c, inode, path, change, ids[i], p);
      }
      LookupSame(ids, t.entries, es', p);
    }
  }

  // ---------- an empty layer on top ----------

  /** An empty layer on top changes no answer. */
  lemma EmptyOnTop(chain: seq<LayerId>, top: LayerId, entries: seq<Entry>, p: string)
    requires EntriesOf(entries, top) == []
    ensures Lookup([top] + chain, entries, p) == Lookup(chain, entries, p)
    ensures List([top] + chain, entries, p) == List(chain, entries, p)
    ensures Versions([top] + chain, entries, p) == Versions(chain, entries, p)
  {
    assert ([top] + chain)[1..] == chain;
  }

  lemma IdsCons(l: Layer, more: seq<Layer>)
    ensures Ids([l] + more) == [l.id] + Ids(more)
  {
    assert ([l] + more)[1..] == more;
  }

  lemma TopAnswers(chain: seq<LayerId>, top: LayerId, es: seq<Entry>, es': seq<Entry>, p: string)
    requires SameEntries(chain, es, es') && EntriesOf(es', top) == []
    ensures Lookup([top] + chain, es', p) == Lookup(chain, es, p)
    ensures List([top] + chain, es', p) == List(chain, es, p)
    ensures Versions([top] + chain, es', p) == Versions(chain, es, p)
  {
    SameEntriesSameAnswer(chain, es, es', p);
    EmptyOnTop(chain, top, es', p);
  }

  // ---------- what deleting an inode does to old views ----------

  lemma {:induction false} WithoutInodeAppend(a: seq<Entry>, b: seq<Entry>, inode: InodeId)
    ensures WithoutInode(a + b, inode) == WithoutInode(a, inode) + WithoutInode(b, inode)
  {
    if b == [] {
      assert a + b == a;
    } else {
      assert (a + b)[..|a + b| - 1] == a + b[..|b| - 1];
      WithoutInodeAppend(a, b[..|b| - 1], inode);
    }
  }

  lemma {:induction false} WithoutInodeInLayer(entries: seq<Entry>, inode: InodeId, layer: LayerId)
    ensures EntriesOf(WithoutInode(entries, inode), layer) == WithoutInode(EntriesOf(entries, layer), inode)
  {
    if entries != [] {
      var last := |entries| - 1;
      WithoutInodeInLayer(entries[..last], inode, layer);
      var e := [entries[last]];
      assert e[..0] == [];
      EntriesOfAppend(WithoutInode(entries[..last], inode), if e[0].inode == inode then [] else e, layer);
      WithoutInodeAppend(EntriesOf(entries[..last], layer), if e[0].layer == layer then e else [], inode);
      assert EntriesOf(e, layer) == if e[0].layer == layer then e else [];
      assert WithoutInode(e, inode) == if e[0].inode == inode then [] else e;
    }
  }

  lemma {:induction false} FirstAtWithoutInode(es: seq<Entry>, inode: InodeId, path: string)
    requires OnePerPath(es)
    ensures FirstAt(WithoutInode(es, inode), path)
         == match FirstAt(es, path)
            case Some(e) => if e.inode == inode then None else Some(e)
            case None => None
  {
    if es != [] {
      var front, e := es[..|es| - 1], es[|es| - 1];
      FirstAtWithoutInode(front, inode, path);
      assert es == front + [e];
      FirstAtSnoc(front, e, path);
      if e.path == path { NoneBefore(front, path); }
      if e.inode != inode {
        assert WithoutInode(es, inode) == WithoutInode(front, inode) + [e];
        FirstAtSnoc(WithoutInode(front, inode), e, path);
      } else {
        assert WithoutInode(es, inode) == WithoutInode(front, inode);
      }
    }
  }

  lemma {:induction false} LookupNamesChainLayer(chain: seq<LayerId>, entries: seq<Entry>, path: string)
    ensures match Lookup(chain, entries, path)
            case Exists(layer, _) => layer in chain
            case Deleted(layer) => layer in chain
            case NotFound => true
  {
    if chain != [] {
      LookupNamesChainLayer(chain[1..], entries, path);
    }
  }

  /**
   Deleting an inode removes its entries from every layer, read-only or not. A lookup through a
   chain of layers survives this exactly when the entry that decided it names another inode.
   */
  lemma {:induction false} InodeDeletionExactly(chain: seq<LayerId>, entries: seq<Entry>, inode: InodeId, path: string)
    requires OneEntryPerPath(entries)
    requires forall i, j | 0 <= i < j < |chain| :: chain[i] != chain[j]
    ensures Lookup(chain, WithoutInode(entries, inode), path) == Lookup(chain, entries, path)
        <==> var h := Versions(chain, entries, path); h == [] || h[0].inode != inode
  {
    if chain != [] {
      var es := EntriesOf(entries, chain[0]);
      EntriesOfFacts(entries, chain[0]);
      WithoutInodeInLayer(entries, inode, chain[0]);
      FirstAtWithoutInode(es, inode, path);
      FirstAtVersions(chain[0], es, path);
      InodeDeletionExactly(chain[1..], entries, inode, path);
      LookupNamesChainLayer(chain[1..], WithoutInode(entries, inode), path);
    }
  }

  function Others(versions: seq<FileVersion>, inode: InodeId): seq<FileVersion> {
    if versions == [] then []
    else (if versions[0].inode == inode then [] else [versions[0]]) + Others(versions[1..], inode)
  }

  lemma {:induction false} OthersAppend(a: seq<FileVersion>, b: seq<FileVersion>, inode: InodeId)
    ensures Others(a + b, inode) == Others(a, inode) + Others(b, inode)
  {
    if a == [] {
      assert a + b == b;
    } else {
      assert (a + b)[1..] == a[1..] + b;
      OthersAppend(a[1..], b, inode);
    }
  }

  lemma OthersOne(v: FileVersion, inode: InodeId)
    ensures Others([v], inode) == if v.inode == inode then [] else [v]
  {
    assert [v][1..] == [];
  }

  lemma {:induction false} VersionsInWithout(layer: LayerId, es: seq<Entry>, inode: InodeId, path: string)
    ensures VersionsIn(layer, WithoutInode(es, inode), path) == Others(VersionsIn(layer, es, path), inode)
  {
    if es != [] {
      var front, e := es[..|es| - 1], es[|es| - 1];
      VersionsInWithout(layer, front, inode, path);
      var v, before := FileVersion(layer, e.change, e.inode), VersionsIn(layer, front, path);
      OthersOne(v, inode);
      OthersAppend(before, [v], inode);
      assert before + [] == before && Others(before, inode) + [] == Others(before, inode);
      assert WithoutInode(es, inode) == WithoutInode(front, inode) + if e.inode == inode then [] else [e];
      if e.inode == inode {
        assert WithoutInode(es, inode) == WithoutInode(front, inode);
      } else {
        VersionsInSnoc(layer, WithoutInode(front, inode), e, path);
      }
    }
  }

  lemma VersionsInSnoc(layer: LayerId, es: seq<Entry>, e: Entry, path: string)
    ensures VersionsIn(layer, es + [e], path)
         == VersionsIn(layer, es, path) + if e.path == path then [FileVersion(layer, e.change, e.inode)] else []
  {
    assert (es + [e])[..|es|] == es;
  }

  /** Deleting an inode takes exactly its versions out of every file's history, and keeps the rest in order. */
  lemma {:induction false} HistoryWithoutInode(chain: seq<LayerId>, entries: seq<Entry>, inode: InodeId, path: string)
    ensures Versions(chain, WithoutInode(entries, inode), path) == Others(Versions(chain, entries, path), inode)
  {
    if chain != [] {
      var es := EntriesOf(entries, chain[0]);
      WithoutInodeInLayer(entries, inode, chain[0]);
      VersionsInWithout(chain[0], es, inode, path);
      HistoryWithoutInode(chain[1..], entries, inode, path);
      OthersAppend(VersionsIn(chain[0], es, path), Versions(chain[1..], entries, path), inode);
    }
  }

  /** A history that shows no file: empty, or a deletion first. */
  predicate ShowsNothing(versions: seq<FileVersion>) {
    versions == [] || versions[0].change == Delete
  }

  lemma WithoutInodeAgreeable(entries: seq<Entry>, inode: InodeId)
    requires OneEntryPerPath(entries) && AllAgreeable(entries)
    ensures OneEntryPerPath(WithoutInode(entries, inode)) && AllAgreeable(WithoutInode(entries, inode))
  {
    WithoutInodeUnique(entries, inode);
    var rest := WithoutInode(entries, inode);
    forall i | 0 <= i < |rest| ensures Agreeable(rest[i].path) {
      assert rest[i] in rest;
    }
  }

  /** What a listing shows for a name, in terms of the history of the joined path. */
  lemma ListIsFirstVersion(chain: seq<LayerId>, entries: seq<Entry>, dir: string, name: string)
    requires OneEntryPerPath(entries) && AllAgreeable(entries) && dir != "" && IsName(name)
    ensures var h := Versions(chain, entries, Join(dir, name));
            At(List(chain, entries, dir), name)
            == if ShowsNothing(h) then None else Some(DirectoryEntry(h[0].inode, h[0].layer))
  {
    ListAgreesWithLookup(chain, entries, dir, name);
    LookupIsFirstVersion(chain, entries, Join(dir, name));
  }

  lemma {:induction false} OthersFirst(versions: seq<FileVersion>, inode: InodeId)
    ensures versions != [] && versions[0].inode != inode ==>
              Others(versions, inode) != [] && Others(versions, inode)[0] == versions[0]
    ensures Others(versions, inode) != [] ==> Others(versions, inode)[0].inode != inode
  {
    if versions != [] { OthersFirst(versions[1..], inode); }
  }

  /**
   What deleting an inode does to a name in an old listing: it stays as it was exactly when the
   first version names another inode, or when it showed nothing and the versions of the other
   inodes show nothing either. So deleting the inode of a tombstone can bring an older file back.
   */
  lemma InodeDeletionInListing(chain: seq<LayerId>, entries: seq<Entry>, inode: InodeId, dir: string, name: string)
    requires OneEntryPerPath(entries) && AllAgreeable(entries) && dir != "" && IsName(name)
    ensures var h := Versions(chain, entries, Join(dir, name));
            At(List(chain, WithoutInode(entries, inode), dir), name) == At(List(chain, entries, dir), name)
            <==> || h == [] || h[0].inode != inode
                 || (h[0].change == Delete && ShowsNothing(Others(h, inode)))
  {
    var path := Join(dir, name);
    WithoutInodeAgreeable(entries, inode);
    ListIsFirstVersion(chain, entries, dir, name);
    ListIsFirstVersion(chain, WithoutInode(entries, inode), dir, name);
    HistoryWithoutInode(chain, entries, inode, path);
    OthersFirst(Versions(chain, entries, path), inode);
  }

  // ---------- the code ----------

  lemma ListStep(ids: seq<LayerId>, i: nat, entries: seq<Entry>, dir: string)
    requires i < |ids|
    ensures List(ids[i..], entries, dir)
         == ListLayer(List(ids[i + 1..], entries, dir), ids[i], EntriesOf(entries, ids[i]), dir)
  {
    assert ids[i..][1..] == ids[i + 1..];
  }

  lemma ListLayerSnoc(m: map<string, DirectoryEntry>, layer: LayerId, es: seq<Entry>, j: nat, dir: string)
    requires j < |es|
    ensures ListLayer(m, layer, es[..j + 1], dir) == ListEntry(ListLayer(m, layer, es[..j], dir), layer, es[j], dir)
  {
    assert es[..j + 1][..j] == es[..j];
  }

  lemma VersionsStep(ids: seq<LayerId>, i: nat, entries: seq<Entry>, path: string)
    requires i < |ids|
    ensures Versions(ids[i..], entries, path)
         == VersionsIn(ids[i], EntriesOf(entries, ids[i]), path) + Versions(ids[i + 1..], entries, path)
  {
    assert ids[i..][1..] == ids[i + 1..];
  }

  class View {
    const ops: LayerOperations
    const chain: seq<Layer>

    /**
     The view of an existing layer starts at it, follows parents to a root and repeats nothing; any
     other view is empty.
     */
    constructor FromLayer(ops: LayerOperations, layer: LayerId)
      requires Constraints(ops.State())
      ensures this.ops == ops && chain == Chain(ops.layers, layer)
      ensures HasId(ops.layers, layer) ==>
                && chain != [] && chain[0].id == layer && chain[|chain| - 1].parent == None && DistinctIds(chain)
                && (forall i | 0 <= i < |chain| - 1 :: chain[i].parent == Some(chain[i + 1].id))
                && (forall a :: InChain(chain, a) <==> a == layer || Descends(ops.layers, layer, a))
      ensures !HasId(ops.layers, layer) ==> chain == []
    {
      this.ops := ops;
      chain := Chain(ops.layers, layer);
      new;
      if HasId(ops.layers, layer) {
        ChainShape(ops.layers, layer);
        forall a ensures InChain(chain, a) <==> a == layer || Descends(ops.layers, layer, a) {
          ChainIsAncestry(ops.layers, layer, a);
        }
      }
    }

    /** The first entry at `path`, newest layer first. */
    method LookupFile(path: string) returns (state: FileState)
      ensures state == Lookup(Ids(chain), ops.entries, path)
    {
      ghost var ids := Ids(chain);
      for i := 0 to |chain|
        invariant Lookup(ids, ops.entries, path) == Lookup(ids[i..], ops.entries, path)
      {
        var layer := chain[i];
        var es := EntriesOf(ops.entries, layer.id);
        for j := 0 to |es|
          invariant FirstAt(es, path) == FirstAt(es[j..], path)
        {
          if es[j].path == path {
            return StateOf(layer.id, es[j]);
          }
        }
        assert ids[i..][1..] == ids[i + 1..];
      }
      state := NotFound;
    }

    /** Oldest layer first, a later entry for the same name replacing or removing the earlier one. */
    method ListDirectory(dir: string) returns (result: map<string, DirectoryEntry>)
      ensures result == List(Ids(chain), ops.entries, dir)
    {
      ghost var ids := Ids(chain);
      result := map[];
      for i := |chain| downto 0
        invariant result == List(ids[i..], ops.entries, dir)
      {
        var layer := chain[i];
        var es := EntriesOf(ops.entries, layer.id);
        ghost var older := result;
        for j := 0 to |es|
          invariant result == ListLayer(older, layer.id, es[..j], dir)
        {
          ListLayerSnoc(older, layer.id, es, j, dir);
          if InDirectory(es[j].path, dir) {
            var name := Filename(es[j].path);
            if es[j].change == Delete {
              result := result - {name};
            } else {
              result := result[name := DirectoryEntry(es[j].inode, layer.id)];
            }
          }
        }
        assert es[..|es|] == es;
        ListStep(ids, i, ops.entries, dir);
      }
    }

    method GetFileHistory(path: string) returns (history: seq<FileVersion>)
      ensures history == Versions(Ids(chain), ops.entries, path)
    {
      ghost var ids := Ids(chain);
      history := [];
      for i := 0 to |chain|
        invariant Versions(ids, ops.entries, path) == history + Versions(ids[i..], ops.entries, path)
      {
        var layer := chain[i];
        var es := EntriesOf(ops.entries, layer.id);
        ghost var newer, own, older :=
          history, VersionsIn(layer.id, es, path), Versions(ids[i + 1..], ops.entries, path);
        VersionsStep(ids, i, ops.entries, path);
        assert newer + (own + older) == newer + own + older;
        for j := 0 to |es|
          invariant history == newer + VersionsIn(layer.id, es[..j], path)
        {
          assert es[..j + 1][..j] == es[..j];
          if es[j].path == path {
            history := history + [FileVersion(layer.id, es[j].change, es[j].inode)];
          }
        }
        assert es[..|es|] == es;
      }
    }
  }
}
