/**
 src/composition/resolver.rs and src/storage/mount_entry.rs for one tenant: conflict checking,
 the stored mount set, and the resolution of a path to a mount. Paths compare as Rust's `Path`
 does, by components; the length of a match is the length of the path as written.
 */
module Mounts {
  import opened Prelude
  import opened Strings
  import opened FsPath

  type Comps = seq<string>

  function DropDots(parts: seq<string>): seq<string> {
    if parts == [] then []
    else (if parts[0] == "." then [] else [parts[0]]) + DropDots(parts[1..])
  }

  /** The components of a path as written: a root marker, or a leading ".", then every other part that is not ".". */
  function Components(raw: string): Comps {
    var parts := Parts(raw);
    if raw != "" && raw[0] == '/' then ["/"] + DropDots(parts)
    else if parts != [] && parts[0] == "." then ["."] + DropDots(parts)
    else DropDots(parts)
  }

  lemma {:induction false} DropDotsAppend(a: seq<string>, b: seq<string>)
    ensures DropDots(a + b) == DropDots(a) + DropDots(b)
  {
    if a == [] {
      assert a + b == b;
    } else {
      assert (a + b)[1..] == a[1..] + b;
      DropDotsAppend(a[1..], b);
    }
  }

  lemma DropDotsOne(word: string)
    ensures DropDots([word]) == if word == "." then [] else [word]
  {
    assert [word][1..] == [];
  }

  lemma StartsWithPart(raw: string)
    requires raw != "" && raw[0] != '/'
    ensures Parts(raw) != []
  {
    var split := Split(raw);
    assert split[0] != "" && NonEmpty(split) == [split[0]] + NonEmpty(split[1..]);
  }

  /** A word without a slash is its own one component, "." too, and nothing has none. */
  lemma ComponentsOfWord(word: string)
    requires '/' !in word
    ensures Components(word) == if word == "" then [] else [word]
  {
    SplitPlain(word);
    assert NonEmpty([word]) == if word == "" then [] else [word] by { assert [word][1..] == []; }
    if word != "" {
      assert word[0] in word;
      DropDotsOne(word);
    }
    assert DropDots([]) == [];
  }

  /**
   A path up to its last slash, and the word behind it: the word is one more component unless it is
   empty or ".", and what is before a first slash that nothing precedes is the root.
   */
  lemma ComponentsByLastSlash(front: string, word: string)
    requires '/' !in word
    ensures Components(front + "/" + word)
         == (if front == "" then ["/"] else Components(front)) + (if word == "" || word == "." then [] else [word])
  {
    var raw := front + "/" + word;
    PartsLast(front, word);
    var last := if word == "" then [] else [word];
    DropDotsAppend(Parts(front), last);
    DropDotsOne(word);
    assert DropDots([]) == [];
    if front == "" {
      assert Parts("") == [] by { assert NonEmpty([""]) == NonEmpty([""][1..]); }
    } else {
      assert raw[0] == front[0];
      if front[0] != '/' { StartsWithPart(front); }
    }
  }

  function StripPrefix(path: Comps, prefix: Comps): Option<Comps> {
    if prefix <= path then Some(path[|prefix|..]) else None
  }

  /** `base.join(relative)` for a relative path. */
  function JoinComps(base: Comps, relative: Comps): Comps {
    base + relative
  }

  datatype Source =
    | Host(path: Comps)
    | Layer(sourceMount: nat, layer: Option<nat>, subpath: Option<Comps>)
    | Published(name: string, subpath: Option<Comps>)
    | WorkingLayer

  datatype CreateMount = CreateMount(name: string, path: string, source: Source, isFile: bool)

  datatype Mount = Mount(id: nat, entry: CreateMount) {
    function Path(): Comps { Components(entry.path) }
  }

  datatype ResolvedSource =
    | HostPath(full: Comps)
    | LayerPath(layer: Option<nat>, path: Comps)
    | WorkingPath(path: Comps)

  datatype Resolved = Resolved(mount: Mount, relative: Comps, source: ResolvedSource)

  datatype MountError = MountPathConflict | NoMountFound | ValueTooLong | UniqueViolation | ForeignKeyViolation

  const MAX_NAME_LENGTH := 255

  /** The mount name, and the published name of a source, take at most 255 characters. */
  predicate FitsColumns(entry: CreateMount) {
    && |entry.name| <= MAX_NAME_LENGTH
    && (entry.source.Published? ==> |entry.source.name| <= MAX_NAME_LENGTH)
  }

  ghost predicate AllFitColumns(entries: seq<CreateMount>) {
    forall i | 0 <= i < |entries| :: FitsColumns(entries[i])
  }

  // ---------- conflicts ----------

  /** Two mounts conflict when their paths are equal, or both are directories and one path is inside the other. */
  predicate Conflict(p: Comps, pIsFile: bool, q: Comps, qIsFile: bool) {
    p == q || (!pIsFile && !qIsFile && (p <= q || q <= p))
  }

  predicate Clash(a: CreateMount, b: CreateMount) {
    Conflict(Components(a.path), a.isFile, Components(b.path), b.isFile)
  }

  /** Two entries can be stored together: no conflict, and different names. */
  predicate Fit(a: CreateMount, b: CreateMount) {
    !Clash(a, b) && a.name != b.name
  }

  ghost predicate Pairwise<T(!new)>(s: seq<T>, fit: (T, T) -> bool) {
    forall i, j {:trigger fit(s[i], s[j])} | 0 <= i < j < |s| :: fit(s[i], s[j])
  }

  function EntriesFit(): (CreateMount, CreateMount) -> bool { (a, b) => Fit(a, b) }

  function MountsFit(): (Mount, Mount) -> bool { (a: Mount, b: Mount) => Fit(a.entry, b.entry) }

  ghost predicate Compatible(entries: seq<CreateMount>) {
    Pairwise(entries, EntriesFit())
  }

  ghost predicate ConflictFree(mounts: seq<Mount>) {
    Pairwise(mounts, MountsFit())
  }

  /** The path lies inside both directories. */
  predicate InBoth(p: Comps, q: Comps, path: Comps) {
    p <= path && q <= path
  }

  /** Two mount paths conflict exactly when they are equal, or both are directories that cover a common path. */
  lemma ConflictExactly(p: Comps, pIsFile: bool, q: Comps, qIsFile: bool)
    ensures Conflict(p, pIsFile, q, qIsFile)
        <==> p == q || (!pIsFile && !qIsFile && exists path :: InBoth(p, q, path))
  {
    if path :| InBoth(p, q, path) { PrefixesCompare(p, q, path); }
    if p <= q || q <= p { assert InBoth(p, q, if p <= q then q else p); }
  }

  /** Entries with different names and different paths, of which no path is covered by two directories. */
  ghost predicate Apart(entries: seq<CreateMount>) {
    && (forall i, j | 0 <= i < j < |entries| :: entries[i].name != entries[j].name)
    && (forall i, j | 0 <= i < j < |entries| :: Components(entries[i].path) != Components(entries[j].path))
    && (forall path, i, j | 0 <= i < j < |entries| ::
          !(CoversAsDirectory(entries[i], path) && CoversAsDirectory(entries[j], path)))
  }

  predicate CoversAsDirectory(entry: CreateMount, path: Comps) {
    !entry.isFile && Components(entry.path) <= path
  }

  lemma FitExactly(a: CreateMount, b: CreateMount)
    ensures Fit(a, b) <==>
              && a.name != b.name && Components(a.path) != Components(b.path)
              && forall path :: !(CoversAsDirectory(a, path) && CoversAsDirectory(b, path))
  {
    ConflictExactly(Components(a.path), a.isFile, Components(b.path), b.isFile);
    if path :| InBoth(Components(a.path), Components(b.path), path) {
      assert !a.isFile && !b.isFile ==> CoversAsDirectory(a, path) && CoversAsDirectory(b, path);
    }
    if path :| CoversAsDirectory(a, path) && CoversAsDirectory(b, path) {
      assert InBoth(Components(a.path), Components(b.path), path);
    }
  }

  /**
   A list of mounts is compatible exactly when no two have one name, no two have one path, files
   or directories, and no path lies in two directory mounts.
   */
  lemma CompatibleExactly(entries: seq<CreateMount>)
    ensures Compatible(entries) <==> Apart(entries)
  {
    forall i, j | 0 <= i < j < |entries|
      ensures EntriesFit()(entries[i], entries[j]) <==>
                && entries[i].name != entries[j].name
                && Components(entries[i].path) != Components(entries[j].path)
                && forall path :: !(CoversAsDirectory(entries[i], path) && CoversAsDirectory(entries[j], path))
    {
      FitExactly(entries[i], entries[j]);
    }
  }

  function Entries(mounts: seq<Mount>): (entries: seq<CreateMount>)
    ensures |entries| == |mounts| && forall i | 0 <= i < |mounts| :: entries[i] == mounts[i].entry
  {
    if mounts == [] then [] else Entries(mounts[..|mounts| - 1]) + [mounts[|mounts| - 1].entry]
  }

  /** So does a stored set, at any time: names, paths and covered paths belong to one mount each. */
  lemma ConflictFreeExactly(mounts: seq<Mount>)
    ensures ConflictFree(mounts) <==> Apart(Entries(mounts))
  {
    CompatibleExactly(Entries(mounts));
    var entries := Entries(mounts);
    forall i, j | 0 <= i < j < |mounts|
      ensures EntriesFit()(entries[i], entries[j]) <==> MountsFit()(mounts[i], mounts[j])
    {
    }
    if ConflictFree(mounts) {
      forall i, j | 0 <= i < j < |entries| ensures EntriesFit()(entries[i], entries[j]) {
        assert MountsFit()(mounts[i], mounts[j]);
      }
    }
    if Compatible(entries) {
      forall i, j | 0 <= i < j < |mounts| ensures MountsFit()(mounts[i], mounts[j]) {
        assert EntriesFit()(entries[i], entries[j]);
      }
    }
  }

  // ---------- order does not matter ----------

  lemma CountAround<T>(s: seq<T>, i: nat)
    requires i < |s|
    ensures multiset(s) == multiset(s[..i] + s[i + 1..]) + multiset{s[i]}
  {
    assert s == s[..i] + [s[i]] + s[i + 1..];
  }

  lemma PairwiseCounts<T(!new)>(s: seq<T>, fit: (T, T) -> bool, i: nat)
    requires Pairwise(s, fit) && i < |s| && forall a: T :: !fit(a, a)
    ensures multiset(s)[s[i]] == 1
  {
    CountAround(s, i);
    var others := s[..i] + s[i + 1..];
    forall j | 0 <= j < |others| ensures others[j] != s[i] {
      assert if j < i then fit(s[j], s[i]) else fit(s[i], s[j + 1]);
    }
    assert s[i] !in others;
  }

  /** A pairwise property in terms of what is in the list, not where. */
  ghost predicate FitsByContents<T(!new)>(m: multiset<T>, fit: (T, T) -> bool) {
    && (forall a | a in m :: m[a] == 1)
    && (forall a, b | a in m && b in m && a != b :: fit(a, b))
  }

  ghost predicate IrreflexiveSymmetric<T(!new)>(fit: (T, T) -> bool) {
    (forall a: T :: !fit(a, a)) && (forall a: T, b: T :: fit(a, b) == fit(b, a))
  }

  lemma TwiceCounts<T>(s: seq<T>, i: nat, j: nat)
    requires i < j < |s| && s[i] == s[j]
    ensures multiset(s)[s[i]] >= 2
  {
    CountAround(s, i);
    var others := s[..i] + s[i + 1..];
    assert others[j - 1] == s[i];
    assert s[i] in others;
    assert s[i] in multiset(others);
  }

  lemma PairwiseByContents<T(!new)>(s: seq<T>, fit: (T, T) -> bool)
    requires IrreflexiveSymmetric(fit)
    ensures Pairwise(s, fit) <==> FitsByContents(multiset(s), fit)
  {
    var m := multiset(s);
    if Pairwise(s, fit) {
      forall a | a in m ensures m[a] == 1 {
        var i :| 0 <= i < |s| && s[i] == a;
        PairwiseCounts(s, fit, i);
      }
      forall a, b | a in m && b in m && a != b ensures fit(a, b) {
        PairwiseAt(s, fit, a, b);
      }
    }
    if FitsByContents(m, fit) {
      forall i, j | 0 <= i < j < |s| ensures fit(s[i], s[j]) {
        assert s[i] in m && s[j] in m;
        if s[i] == s[j] { TwiceCounts(s, i, j); }
      }
    }
  }

  lemma FitIsSymmetric()
    ensures IrreflexiveSymmetric(EntriesFit())
  {
  }

  /** Whether a list of mounts is compatible does not depend on its order. */
  lemma CompatibleAnyOrder(entries: seq<CreateMount>, reordered: seq<CreateMount>)
    requires multiset(entries) == multiset(reordered)
    ensures Compatible(entries) <==> Compatible(reordered)
  {
    FitIsSymmetric();
    PairwiseByContents(entries, EntriesFit());
    PairwiseByContents(reordered, EntriesFit());
  }

  // ---------- finding the mount of a path ----------

  function FirstFile(mounts: seq<Mount>, path: Comps): Option<Mount> {
    if mounts == [] then None
    else if mounts[0].entry.isFile && mounts[0].Path() == path then Some(mounts[0])
    else FirstFile(mounts[1..], path)
  }

  predicate Covers(mount: Mount, path: Comps) {
    !mount.entry.isFile && mount.Path() <= path
  }

  /** The first of the longest covering directory mounts so far; an empty path never counts as longer. */
  function LongestDir(mounts: seq<Mount>, path: Comps): Option<Mount> {
    if mounts == [] then None
    else
      var last := mounts[|mounts| - 1];
      var best := LongestDir(mounts[..|mounts| - 1], path);
      var bestLen := if best.Some? then ByteLen(best.value.entry.path) else 0;
      if Covers(last, path) && ByteLen(last.entry.path) > bestLen then Some(last) else best
  }

  function FindMount(mounts: seq<Mount>, path: Comps): Result<Mount, MountError> {
    match FirstFile(mounts, path)
    case Some(m) => Ok(m)
    case None =>
      match LongestDir(mounts, path)
      case Some(m) => Ok(m)
      case None => Err(NoMountFound)
  }

  /** What a resolution must answer: the file mount of the very path, or else the directory mount that covers it. */
  predicate Answers(mounts: seq<Mount>, path: Comps, m: Mount) {
    m in mounts &&
    if m.entry.isFile then m.Path() == path
    else && m.Path() <= path && m.entry.path != ""
         && forall other | other in mounts && other.entry.isFile :: other.Path() != path
  }

  lemma {:induction false} FirstFileFacts(mounts: seq<Mount>, path: Comps)
    ensures match FirstFile(mounts, path)
            case Some(m) => m in mounts && m.entry.isFile && m.Path() == path
            case None => forall m | m in mounts :: !(m.entry.isFile && m.Path() == path)
  {
    if mounts != [] {
      FirstFileFacts(mounts[1..], path);
      assert mounts == [mounts[0]] + mounts[1..];
    }
  }

  lemma {:induction false} LongestDirFacts(mounts: seq<Mount>, path: Comps)
    ensures match LongestDir(mounts, path)
            case Some(b) => b in mounts && Covers(b, path) && b.entry.path != ""
                            && forall m | m in mounts && Covers(m, path) ::
                                 ByteLen(m.entry.path) <= ByteLen(b.entry.path)
            case None => forall m | m in mounts && Covers(m, path) :: m.entry.path == ""
  {
    if mounts != [] {
      LongestDirFacts(mounts[..|mounts| - 1], path);
      assert mounts == mounts[..|mounts| - 1] + [mounts[|mounts| - 1]];
      assert ByteLen("") == 0;
    }
  }

  lemma PairwiseAt<T(!new)>(s: seq<T>, fit: (T, T) -> bool, a: T, b: T)
    requires Pairwise(s, fit) && a in s && b in s && a != b
    ensures fit(a, b) || fit(b, a)
  {
    var i :| 0 <= i < |s| && s[i] == a;
    var j :| 0 <= j < |s| && s[j] == b;
    if i < j {
      assert fit(s[i], s[j]);
    } else {
      assert fit(s[j], s[i]);
    }
  }

  lemma DifferentDoNotClash(mounts: seq<Mount>, a: Mount, b: Mount)
    requires ConflictFree(mounts) && a in mounts && b in mounts && a != b
    ensures !Clash(a.entry, b.entry)
  {
    PairwiseAt(mounts, MountsFit(), a, b);
  }

  /**
   In a set of mounts without conflicts a path resolves to a mount exactly when that mount is
   the file mounted there, or covers the path as a directory and no file is mounted there.
   */
  lemma FindMountExactly(mounts: seq<Mount>, path: Comps, m: Mount)
    requires ConflictFree(mounts)
    ensures FindMount(mounts, path) == Ok(m) <==> Answers(mounts, path, m)
    ensures FindMount(mounts, path).Err? ==> FindMount(mounts, path) == Err(NoMountFound)
  {
    FirstFileFacts(mounts, path);
    LongestDirFacts(mounts, path);
    if Answers(mounts, path, m) {
      match FirstFile(mounts, path)
      case Some(f) =>
        if f != m { DifferentDoNotClash(mounts, f, m); }
      case None =>
        assert ByteLen(m.entry.path) > 0 && m.entry.path != "";
        var d := LongestDir(mounts, path).value;
        PrefixesCompare(d.Path(), m.Path(), path);
        if d != m { DifferentDoNotClash(mounts, d, m); }
    }
  }

  lemma PrefixesCompare(p: Comps, q: Comps, of: Comps)
    requires p <= of && q <= of
    ensures p <= q || q <= p
  {
    if |p| <= |q| {
      assert p == of[..|p|] && q == of[..|q|] && of[..|q|][..|p|] == of[..|p|];
    } else {
      assert of[..|p|][..|q|] == of[..|q|];
    }
  }

  /** Resolution does not depend on the order of the mounts. */
  lemma FindMountAnyOrder(mounts: seq<Mount>, reordered: seq<Mount>, path: Comps)
    requires ConflictFree(mounts) && ConflictFree(reordered)
    requires forall m :: m in mounts <==> m in reordered
    ensures FindMount(mounts, path) == FindMount(reordered, path)
  {
    FirstFileFacts(mounts, path);
    FirstFileFacts(reordered, path);
    if FindMount(mounts, path).Ok? {
      FindMountExactly(mounts, path, FindMount(mounts, path).value);
      FindMountExactly(reordered, path, FindMount(mounts, path).value);
    }
    if FindMount(reordered, path).Ok? {
      FindMountExactly(mounts, path, FindMount(reordered, path).value);
      FindMountExactly(reordered, path, FindMount(reordered, path).value);
    }
  }

  // ---------- resolving ----------

  function ResolveSource(m: Mount, relative: Comps): ResolvedSource {
    match m.entry.source
    case Host(path) => HostPath(if m.entry.isFile then path else JoinComps(path, relative))
    case Layer(_, layer, subpath) =>
      LayerPath(layer, if subpath.Some? then JoinComps(subpath.value, relative) else relative)
    case Published(_, subpath) =>
      LayerPath(None, if subpath.Some? then JoinComps(subpath.value, relative) else relative)
    case WorkingLayer => WorkingPath(relative)
  }

  function ResolvePath(mounts: seq<Mount>, path: Comps): Result<Resolved, MountError> {
    match FindMount(mounts, path)
    case Err(e) => Err(e)
    case Ok(m) =>
      if m.entry.isFile then Ok(Resolved(m, [], ResolveSource(m, [])))
      else
        match StripPrefix(path, m.Path())
        case None => Err(NoMountFound)
        case Some(relative) => Ok(Resolved(m, relative, ResolveSource(m, relative)))
  }

  /** The path in the source that the mount's own path stands for. */
  function BaseOf(source: Source): Comps {
    match source
    case Host(path) => path
    case Layer(_, _, subpath) => if subpath.Some? then subpath.value else []
    case Published(_, subpath) => if subpath.Some? then subpath.value else []
    case WorkingLayer => []
  }

  function PathIn(source: ResolvedSource): Comps {
    match source
    case HostPath(full) => full
    case LayerPath(_, path) => path
    case WorkingPath(path) => path
  }

  /**
   Resolving never fails once a mount is found, and it loses nothing: the mount's path followed
   by the relative path is the path asked for, and whatever the source is, the path has the same
   place below the source's own path as it has below the mount.
   */
  lemma ResolveRecombines(mounts: seq<Mount>, path: Comps)
    ensures ResolvePath(mounts, path).Ok? <==> FindMount(mounts, path).Ok?
    ensures ResolvePath(mounts, path).Err? ==> ResolvePath(mounts, path) == Err(NoMountFound)
    ensures ResolvePath(mounts, path).Ok? ==>
              var r := ResolvePath(mounts, path).value;
              && r.mount in mounts
              && JoinComps(r.mount.Path(), r.relative) == path
              && StripPrefix(PathIn(r.source), BaseOf(r.mount.entry.source)) == Some(r.relative)
              && (r.source.HostPath? <==> r.mount.entry.source.Host?)
              && (r.source.WorkingPath? <==> r.mount.entry.source.WorkingLayer?)
              && (r.mount.entry.source.Layer? ==> r.source.layer == r.mount.entry.source.layer)
  {
    FirstFileFacts(mounts, path);
    LongestDirFacts(mounts, path);
    if ResolvePath(mounts, path).Ok? {
      var r := ResolvePath(mounts, path).value;
      SourceBelowBase(r.mount, r.relative);
    }
  }

  lemma SourceBelowBase(m: Mount, relative: Comps)
    requires m.entry.isFile ==> relative == []
    ensures StripPrefix(PathIn(ResolveSource(m, relative)), BaseOf(m.entry.source)) == Some(relative)
  {
    var base := BaseOf(m.entry.source);
    assert base + [] == base && [] + relative == relative;
    assert PathIn(ResolveSource(m, relative)) == base + relative;
    assert (base + relative)[|base|..] == relative;
  }

  // ---------- the stored set ----------

  function Stored(entries: seq<CreateMount>, firstId: nat): (mounts: seq<Mount>)
    ensures |mounts| == |entries|
    ensures forall i | 0 <= i < |entries| :: mounts[i] == Mount(firstId + i, entries[i])
  {
    if entries == [] then []
    else Stored(entries[..|entries| - 1], firstId) + [Mount(firstId + |entries| - 1, entries[|entries| - 1])]
  }

  predicate HasMount(rows: seq<Mount>, id: nat) {
    exists i | 0 <= i < |rows| :: rows[i].id == id
  }

  /** The mount a layer source names is one of these, or one of another tenant. */
  predicate SourceExists(entry: CreateMount, rows: seq<Mount>, elsewhere: set<nat>) {
    entry.source.Layer? ==> HasMount(rows, entry.source.sourceMount) || entry.source.sourceMount in elsewhere
  }

  /** Some row other than `id` itself has it as the mount of its layer source. */
  predicate NamedByOther(rows: seq<Mount>, id: nat) {
    exists i | 0 <= i < |rows| ::
      rows[i].id != id && rows[i].entry.source.Layer? && rows[i].entry.source.sourceMount == id
  }

  predicate DistinctEntryNames(entries: seq<CreateMount>) {
    forall i, j | 0 <= i < j < |entries| :: entries[i].name != entries[j].name
  }

  /** The layer source of entry `i` names a mount of another tenant, or one of the entries inserted before it. */
  predicate SourceInserted(entry: CreateMount, i: nat, firstId: nat, elsewhere: set<nat>) {
    entry.source.Layer? ==>
      entry.source.sourceMount in elsewhere || firstId <= entry.source.sourceMount < firstId + i
  }

  predicate SourcesInserted(entries: seq<CreateMount>, firstId: nat, elsewhere: set<nat>) {
    forall i | 0 <= i < |entries| :: SourceInserted(entries[i], i, firstId, elsewhere)
  }

  lemma StoredSources(front: seq<CreateMount>, firstId: nat, entry: CreateMount, elsewhere: set<nat>)
    ensures SourceExists(entry, Stored(front, firstId), elsewhere)
        <==> SourceInserted(entry, |front|, firstId, elsewhere)
  {
    var rows := Stored(front, firstId);
    if && SourceInserted(entry, |front|, firstId, elsewhere)
       && entry.source.Layer? && entry.source.sourceMount !in elsewhere
    {
      assert rows[entry.source.sourceMount - firstId].id == entry.source.sourceMount;
    }
  }

  /**
   Replacing the set with an entry whose layer source is one of the tenant's own mounts always
   fails: all of them are deleted first, and the new ones get new identifiers.
   */
  lemma OwnSourceNeverSet(rows: seq<Mount>, nextId: nat, entries: seq<CreateMount>, i: nat, elsewhere: set<nat>)
    requires (forall k | 0 <= k < |rows| :: rows[k].id < nextId && rows[k].id !in elsewhere)
    requires i < |entries| && entries[i].source.Layer? && HasMount(rows, entries[i].source.sourceMount)
    ensures !SourcesInserted(entries, nextId, elsewhere)
  {
    assert !SourceInserted(entries[i], i, nextId, elsewhere);
  }

  /** When the whole set of a tenant can be replaced by `entries`. */
  ghost predicate Settable(rows: seq<Mount>, nextId: nat, entries: seq<CreateMount>, elsewhere: set<nat>,
                           named: set<nat>)
  {
    && Compatible(entries) && AllFitColumns(entries)
    && (forall i | 0 <= i < |rows| :: rows[i].id !in named)
    && SourcesInserted(entries, nextId, elsewhere)
  }

  /**
   When the set can be replaced, entry by entry: names and paths are apart, names have at most 255
   characters, nobody elsewhere names an old mount, and a layer source is one of another tenant's
   mounts or one of the new ones before it.
   */
  lemma SettableExactly(rows: seq<Mount>, nextId: nat, entries: seq<CreateMount>, elsewhere: set<nat>,
                        named: set<nat>)
    ensures Settable(rows, nextId, entries, elsewhere, named) <==>
              && Apart(entries)
              && (forall i | 0 <= i < |entries| ::
                    |entries[i].name| <= 255
                    && (entries[i].source.Published? ==> |entries[i].source.name| <= 255)
                    && (entries[i].source.Layer? ==>
                          || entries[i].source.sourceMount in elsewhere
                          || nextId <= entries[i].source.sourceMount < nextId + i))
              && (forall i | 0 <= i < |rows| :: rows[i].id !in named)
  {
    CompatibleExactly(entries);
    if SourcesInserted(entries, nextId, elsewhere) {
      forall i | 0 <= i < |entries| && entries[i].source.Layer?
        ensures entries[i].source.sourceMount in elsewhere || nextId <= entries[i].source.sourceMount < nextId + i
      {
        assert SourceInserted(entries[i], i, nextId, elsewhere);
      }
    }
    if AllFitColumns(entries) {
      forall i | 0 <= i < |entries| ensures |entries[i].name| <= 255 {
        assert FitsColumns(entries[i]);
      }
    }
  }

  /** Every layer source names a mount of another tenant, or an identifier handed out before. */
  ghost predicate SourcesKnown(entries: seq<CreateMount>, nextId: nat, elsewhere: set<nat>) {
    forall i | 0 <= i < |entries| && entries[i].source.Layer? ::
      entries[i].source.sourceMount in elsewhere || entries[i].source.sourceMount < nextId
  }

  /** A layer source that needs none of the new rows. */
  predicate SourceElsewhere(entry: CreateMount, elsewhere: set<nat>) {
    entry.source.Layer? ==> entry.source.sourceMount in elsewhere
  }

  lemma KnownSources(entries: seq<CreateMount>, nextId: nat, elsewhere: set<nat>)
    requires SourcesKnown(entries, nextId, elsewhere)
    ensures SourcesInserted(entries, nextId, elsewhere)
        <==> forall e | e in multiset(entries) :: SourceElsewhere(e, elsewhere)
  {
    forall i | 0 <= i < |entries|
      ensures SourceInserted(entries[i], i, nextId, elsewhere) <==> SourceElsewhere(entries[i], elsewhere)
      ensures entries[i] in multiset(entries)
    {
    }
  }

  lemma FitColumnsByContents(entries: seq<CreateMount>)
    ensures AllFitColumns(entries) <==> forall e | e in multiset(entries) :: FitsColumns(e)
  {
    forall i | 0 <= i < |entries| ensures entries[i] in multiset(entries) {
    }
  }

  lemma KnownAnyOrder(entries: seq<CreateMount>, reordered: seq<CreateMount>, nextId: nat, elsewhere: set<nat>)
    requires multiset(entries) == multiset(reordered) && SourcesKnown(entries, nextId, elsewhere)
    ensures SourcesKnown(reordered, nextId, elsewhere)
  {
    forall i | 0 <= i < |reordered| && reordered[i].source.Layer?
      ensures reordered[i].source.sourceMount in elsewhere || reordered[i].source.sourceMount < nextId
    {
      assert reordered[i] in multiset(entries);
      var j :| 0 <= j < |entries| && entries[j] == reordered[i];
    }
  }

  /**
   A caller can name only mounts that exist or once did, as new identifiers are fresh. Then
   replacing the set goes through for one order of the entries exactly when it does for any other.
   */
  lemma SettableAnyOrder(rows: seq<Mount>, nextId: nat, entries: seq<CreateMount>, reordered: seq<CreateMount>,
                         elsewhere: set<nat>, named: set<nat>)
    requires multiset(entries) == multiset(reordered) && SourcesKnown(entries, nextId, elsewhere)
    ensures Settable(rows, nextId, entries, elsewhere, named) <==> Settable(rows, nextId, reordered, elsewhere, named)
  {
    CompatibleAnyOrder(entries, reordered);
    FitColumnsByContents(entries);
    FitColumnsByContents(reordered);
    KnownAnyOrder(entries, reordered, nextId, elsewhere);
    KnownSources(entries, nextId, elsewhere);
    KnownSources(reordered, nextId, elsewhere);
  }

  /** With an identifier known in advance the order would count: a source must be inserted before it is named. */
  lemma GuessedSourceNeedsOrder(a: CreateMount, b: CreateMount)
    requires Compatible([a, b]) && FitsColumns(a) && FitsColumns(b)
    requires !a.source.Layer? && b.source.Layer? && b.source.sourceMount == 0
    ensures Settable([], 0, [a, b], {}, {}) && !Settable([], 0, [b, a], {}, {})
  {
    assert !SourceInserted([b, a][0], 0, 0, {});
  }

  /** The conflict check of the resolver: the first entry that conflicts refuses the new path. */
  method ValidateNoConflict(existing: seq<Mount>, newPath: Comps, isFile: bool) returns (ok: bool)
    ensures ok <==> forall i | 0 <= i < |existing| ::
                      !Conflict(existing[i].Path(), existing[i].entry.isFile, newPath, isFile)
  {
    for n := 0 to |existing|
      invariant forall i | 0 <= i < n :: !Conflict(existing[i].Path(), existing[i].entry.isFile, newPath, isFile)
    {
      var entry := existing[n];
      if entry.Path() == newPath {
        return false;
      }
      if !isFile && !entry.entry.isFile {
        if entry.Path() <= newPath {
          return false;
        }
        if newPath <= entry.Path() {
          return false;
        }
      }
    }
    ok := true;
  }

  /** The mount of a path: an exact file mount first, then the longest covering directory mount. */
  method FindMountByScan(mounts: seq<Mount>, path: Comps) returns (r: Result<Mount, MountError>)
    ensures r == FindMount(mounts, path)
  {
    for i := 0 to |mounts|
      invariant FirstFile(mounts, path) == FirstFile(mounts[i..], path)
    {
      if mounts[i].entry.isFile && mounts[i].Path() == path {
        return Ok(mounts[i]);
      }
      assert mounts[i..][1..] == mounts[i + 1..];
    }
    var best: Option<Mount> := None;
    var bestLen := 0;
    for i := 0 to |mounts|
      invariant best == LongestDir(mounts[..i], path)
      invariant bestLen == if best.Some? then ByteLen(best.value.entry.path) else 0
    {
      assert mounts[..i + 1][..i] == mounts[..i];
      if Covers(mounts[i], path) {
        var matchLen := ByteLen(mounts[i].entry.path);
        if matchLen > bestLen {
          best, bestLen := Some(mounts[i]), matchLen;
        }
      }
    }
    assert mounts[..|mounts|] == mounts;
    r := if best.Some? then Ok(best.value) else Err(NoMountFound);
  }

  /** The first `n` entries can be inserted one after the other. */
  ghost predicate Insertable(entries: seq<CreateMount>, n: nat, firstId: nat, elsewhere: set<nat>)
    requires n <= |entries|
  {
    && (forall i, j | 0 <= i < j < n :: entries[i].name != entries[j].name)
    && (forall i | 0 <= i < n :: FitsColumns(entries[i]) && SourceInserted(entries[i], i, firstId, elsewhere))
  }

  lemma InsertableAll(entries: seq<CreateMount>, n: nat, firstId: nat, elsewhere: set<nat>)
    requires n <= |entries|
    ensures Insertable(entries, |entries|, firstId, elsewhere)
        <==> DistinctEntryNames(entries) && AllFitColumns(entries) && SourcesInserted(entries, firstId, elsewhere)
    ensures Insertable(entries, |entries|, firstId, elsewhere) ==> Insertable(entries, n, firstId, elsewhere)
  {
  }

  /** One more entry can be inserted exactly when it fits, its name is new and its source is there. */
  lemma InsertableNext(entries: seq<CreateMount>, n: nat, firstId: nat, elsewhere: set<nat>)
    requires n < |entries| && Insertable(entries, n, firstId, elsewhere)
    ensures var done := Stored(entries[..n], firstId);
            Insertable(entries, n + 1, firstId, elsewhere) <==>
              && FitsColumns(entries[n])
              && !(exists i | 0 <= i < |done| :: done[i].entry.name == entries[n].name)
              && SourceExists(entries[n], done, elsewhere)
  {
    var done := Stored(entries[..n], firstId);
    assert forall i | 0 <= i < n :: done[i].entry == entries[i];
    StoredSources(entries[..n], firstId, entries[n], elsewhere);
  }

  class MountRepository {
    var rows: seq<Mount>
    var nextId: nat

    ghost predicate Valid()
      reads this
    {
      ConflictFree(rows) && forall i | 0 <= i < |rows| :: rows[i].id < nextId
    }

    constructor ()
      ensures Valid() && rows == []
    {
      rows, nextId := [], 0;
    }

    method CheckPathConflict(path: Comps, isFile: bool, excluded: Option<nat>) returns (conflict: bool)
      ensures conflict <==> exists i | 0 <= i < |rows| ::
                Some(rows[i].id) != excluded && Conflict(rows[i].Path(), rows[i].entry.isFile, path, isFile)
    {
      var filtered := Excluding(rows, excluded);
      ExcludingFacts(rows, excluded);
      var ok := ValidateNoConflict(filtered, path, isFile);
      conflict := !ok;
      if conflict {
        var i :| 0 <= i < |filtered| && Conflict(filtered[i].Path(), filtered[i].entry.isFile, path, isFile);
        assert filtered[i] in filtered;
        var j :| 0 <= j < |rows| && rows[j] == filtered[i];
      } else {
        forall i | 0 <= i < |rows| && Some(rows[i].id) != excluded
          ensures !Conflict(rows[i].Path(), rows[i].entry.isFile, path, isFile)
        {
          assert rows[i] in filtered;
        }
      }
    }

    /**
     A mount is added exactly when it conflicts with none, its names fit, its name is new and the
     mount its layer source names exists. `elsewhere` are the mounts of other tenants, which it may
     name too.
     */
    method CreateMountEntry(input: CreateMount, elsewhere: set<nat>) returns (r: Result<Mount, MountError>)
      requires Valid()
      modifies this
      ensures Valid()
      ensures r.Ok? <==>
                && (forall i | 0 <= i < |old(rows)| ::
                      !Clash(old(rows)[i].entry, input) && old(rows)[i].entry.name != input.name)
                && FitsColumns(input) && SourceExists(input, old(rows), elsewhere)
      ensures r.Ok? ==> r.value == Mount(old(nextId), input) && rows == old(rows) + [r.value]
      ensures r.Err? ==> rows == old(rows) && nextId == old(nextId)
      ensures r == Err(MountPathConflict) <==> exists i | 0 <= i < |old(rows)| :: Clash(old(rows)[i].entry, input)
      ensures r == Err(ValueTooLong) ==>
                |input.name| > 255 || (input.source.Published? && |input.source.name| > 255)
      ensures r == Err(UniqueViolation) ==> exists i | 0 <= i < |old(rows)| :: old(rows)[i].entry.name == input.name
      ensures r == Err(ForeignKeyViolation) ==>
                && input.source.Layer? && input.source.sourceMount !in elsewhere
                && forall i | 0 <= i < |old(rows)| :: old(rows)[i].id != input.source.sourceMount
      ensures r.Err? ==> r.error in [MountPathConflict, ValueTooLong, UniqueViolation, ForeignKeyViolation]
      ensures r.Ok? ==>
                && |input.name| <= 255 && (input.source.Published? ==> |input.source.name| <= 255)
                && (input.source.Layer? ==>
                      || input.source.sourceMount in elsewhere
                      || exists i | 0 <= i < |old(rows)| :: old(rows)[i].id == input.source.sourceMount)
    {
      var conflict := CheckPathConflict(Components(input.path), input.isFile, None);
      if conflict {
        return Err(MountPathConflict);
      }
      if !FitsColumns(input) {
        return Err(ValueTooLong);
      }
      if exists i | 0 <= i < |rows| :: rows[i].entry.name == input.name {
        return Err(UniqueViolation);
      }
      if !SourceExists(input, rows, elsewhere) {
        return Err(ForeignKeyViolation);
      }
      var mount := Mount(nextId, input);
      AddedKeeps(rows, mount);
      rows := rows + [mount];
      nextId := nextId + 1;
      r := Ok(mount);
    }

    /** A mount is removed unless another one names it as its source; `named` are the mounts other tenants name. */
    method DeleteMountEntry(id: nat, named: set<nat>) returns (r: Result<bool, MountError>)
      requires Valid()
      modifies this`rows
      ensures Valid()
      ensures r.Err? <==>
                && (exists i | 0 <= i < |old(rows)| :: old(rows)[i].id == id)
                && (id in named || exists i | 0 <= i < |old(rows)| ::
                                     && old(rows)[i].id != id && old(rows)[i].entry.source.Layer?
                                     && old(rows)[i].entry.source.sourceMount == id)
      ensures r.Err? ==> r == Err(ForeignKeyViolation)
      ensures r.Err? ==> rows == old(rows)
      ensures r.Ok? ==> rows == Excluding(old(rows), Some(id)) && r.value == HasMount(old(rows), id)
    {
      if HasMount(rows, id) && (id in named || NamedByOther(rows, id)) {
        return Err(ForeignKeyViolation);
      }
      r := Ok(HasMount(rows, id));
      ExcludingKeeps(rows, Some(id));
      ExcludingFacts(rows, Some(id));
      rows := Excluding(rows, Some(id));
      assert forall i | 0 <= i < |rows| :: rows[i] in rows;
    }

    /**
     The whole set is replaced, exactly when the new entries are compatible with each other and
     their names fit, no other tenant names one of the old mounts, and every layer source names a
     mount of another tenant or one inserted before it; otherwise nothing changes.
     */
    method SetMountEntries(entries: seq<CreateMount>, elsewhere: set<nat>, named: set<nat>)
      returns (r: Result<seq<Mount>, MountError>)
      requires Valid()
      modifies this
      ensures Valid()
      ensures r.Ok? <==> Settable(old(rows), old(nextId), entries, elsewhere, named)
      ensures r.Ok? ==> r.value == rows == Stored(entries, old(nextId))
      ensures r.Err? ==> rows == old(rows) && nextId == old(nextId)
      ensures r == Err(MountPathConflict) <==> exists i, j | 0 <= i < j < |entries| :: Clash(entries[i], entries[j])
      ensures r.Err? ==> r.error in [MountPathConflict, ValueTooLong, UniqueViolation, ForeignKeyViolation]
    {
      var ok := CheckEntries(entries);
      if !ok {
        var i, j :| 0 <= i < j < |entries| && Clash(entries[i], entries[j]);
        assert !EntriesFit()(entries[i], entries[j]);
        return Err(MountPathConflict);
      }
      // the transaction: delete all, insert all; a refused statement rolls it back
      if exists i | 0 <= i < |rows| :: rows[i].id in named {
        return Err(ForeignKeyViolation);
      }
      var inserted := InsertAll(entries, elsewhere);
      if inserted.Err? {
        if !DistinctEntryNames(entries) {
          var i, j :| 0 <= i < j < |entries| && entries[i].name == entries[j].name;
          assert !EntriesFit()(entries[i], entries[j]);
        }
        return Err(inserted.error);
      }
      forall i, j | 0 <= i < j < |entries| ensures MountsFit()(inserted.value[i], inserted.value[j]) {
        assert !Clash(entries[i], entries[j]);
      }
      rows := inserted.value;
      nextId := nextId + |entries|;
      r := Ok(inserted.value);
    }

    /** The insertions, in order, into a table that has been emptied; the first refused one ends them. */
    method InsertAll(entries: seq<CreateMount>, elsewhere: set<nat>) returns (r: Result<seq<Mount>, MountError>)
      ensures r.Ok? <==>
                DistinctEntryNames(entries) && AllFitColumns(entries) && SourcesInserted(entries, nextId, elsewhere)
      ensures r.Ok? ==> r.value == Stored(entries, nextId)
      ensures r.Err? ==> r.error in [ValueTooLong, UniqueViolation, ForeignKeyViolation]
    {
      var done: seq<Mount> := [];
      for n := 0 to |entries|
        invariant done == Stored(entries[..n], nextId) && Insertable(entries, n, nextId, elsewhere)
      {
        assert entries[..n + 1][..n] == entries[..n];
        InsertableNext(entries, n, nextId, elsewhere);
        InsertableAll(entries, n + 1, nextId, elsewhere);
        if !FitsColumns(entries[n]) {
          return Err(ValueTooLong);
        }
        if exists i | 0 <= i < |done| :: done[i].entry.name == entries[n].name {
          return Err(UniqueViolation);
        }
        if !SourceExists(entries[n], done, elsewhere) {
          return Err(ForeignKeyViolation);
        }
        done := done + [Mount(nextId + n, entries[n])];
      }
      InsertableAll(entries, 0, nextId, elsewhere);
      assert entries[..|entries|] == entries;
      r := Ok(done);
    }

    /** The validation loop: each entry is checked against the ones before it. */
    method CheckEntries(entries: seq<CreateMount>) returns (ok: bool)
      ensures ok <==> forall i, j {:trigger Clash(entries[i], entries[j])} | 0 <= i < j < |entries| ::
                        !Clash(entries[i], entries[j])
    {
      var temp: seq<Mount> := [];
      for n := 0 to |entries|
        invariant |temp| == n && forall i | 0 <= i < n :: temp[i].entry == entries[i]
        invariant forall i, j {:trigger Clash(entries[i], entries[j])} | 0 <= i < j < n ::
                    !Clash(entries[i], entries[j])
      {
        var free := ValidateNoConflict(temp, Components(entries[n].path), entries[n].isFile);
        if !free {
          var i :| && 0 <= i < n
                   && Conflict(temp[i].Path(), temp[i].entry.isFile, Components(entries[n].path), entries[n].isFile);
          assert Clash(entries[i], entries[n]);
          return false;
        }
        forall i | 0 <= i < n ensures !Clash(entries[i], entries[n]) {
          assert temp[i].entry == entries[i];
        }
        temp := temp + [Mount(n, entries[n])];
      }
      ok := true;
    }
  }

  function Excluding(rows: seq<Mount>, excluded: Option<nat>): seq<Mount> {
    if rows == [] then []
    else
      var last := |rows| - 1;
      Excluding(rows[..last], excluded) + if Some(rows[last].id) != excluded then [rows[last]] else []
  }

  lemma AddedKeeps(rows: seq<Mount>, mount: Mount)
    requires ConflictFree(rows) && forall i | 0 <= i < |rows| :: Fit(rows[i].entry, mount.entry)
    ensures ConflictFree(rows + [mount])
  {
    var more := rows + [mount];
    forall i, j | 0 <= i < j < |more| ensures MountsFit()(more[i], more[j]) {
      if j < |rows| { assert MountsFit()(rows[i], rows[j]); }
    }
  }

  lemma {:induction false} ExcludingFacts(rows: seq<Mount>, excluded: Option<nat>)
    ensures forall m :: m in Excluding(rows, excluded) <==> m in rows && Some(m.id) != excluded
  {
    if rows != [] {
      ExcludingFacts(rows[..|rows| - 1], excluded);
      assert rows == rows[..|rows| - 1] + [rows[|rows| - 1]];
    }
  }

  lemma {:induction false} ExcludingKeeps(rows: seq<Mount>, excluded: Option<nat>)
    requires ConflictFree(rows)
    ensures ConflictFree(Excluding(rows, excluded))
  {
    if rows != [] {
      var front, last := rows[..|rows| - 1], rows[|rows| - 1];
      forall i, j | 0 <= i < j < |front| ensures MountsFit()(front[i], front[j]) {
        assert MountsFit()(rows[i], rows[j]);
      }
      ExcludingKeeps(front, excluded);
      ExcludingFacts(front, excluded);
      forall m | m in Excluding(front, excluded) ensures MountsFit()(m, last) {
        var i :| 0 <= i < |front| && front[i] == m;
        assert MountsFit()(rows[i], rows[|rows| - 1]);
      }
    }
  }
}
