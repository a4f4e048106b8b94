/**
 src/fs/operations.rs over the rows of src/storage/inode.rs: a flat table of inodes, each with a
 parent and a name, is proved to behave as a map from component sequences to nodes.
 */
module InodeTree {
  import opened Prelude
  import opened FsPath

  type InodeId = nat

  datatype Kind = File | Dir | Symlink

  datatype Inode = Inode(parent: Option<InodeId>, name: string, kind: Kind)

  type Rows = map<InodeId, Inode>

  datatype Node = Node(id: InodeId, kind: Kind)

  type Tree = map<seq<string>, Node>

  datatype FsError =
    | BadPath(cause: PathError)
    | PathNotFound
    | NotDirectory
    | IsDirectory
    | AlreadyExists
    | DirectoryNotEmpty

  // ---------- the abstract tree ----------

  /** A new node at component sequence `c`. */
  function Make(tree: Tree, id: InodeId, c: seq<string>, kind: Kind): (Tree, Result<InodeId, FsError>) {
    if c == [] then (tree, Err(BadPath(InvalidPath)))
    else
      var parent := c[..|c| - 1];
      if parent !in tree then (tree, Err(PathNotFound))
      else if tree[parent].kind != Dir then (tree, Err(NotDirectory))
      else if c in tree then (tree, Err(AlreadyExists))
      else (tree[c := Node(id, kind)], Ok(id))
  }

  predicate IsChild(c: seq<string>, of: seq<string>) {
    |c| == |of| + 1 && c[..|of|] == of
  }

  predicate HasChildren(tree: Tree, of: seq<string>) {
    exists c | c in tree :: IsChild(c, of)
  }

  function RemoveDir(tree: Tree, c: seq<string>): (Tree, Result<(), FsError>) {
    if c !in tree then (tree, Err(PathNotFound))
    else if tree[c].kind != Dir then (tree, Err(NotDirectory))
    else if HasChildren(tree, c) then (tree, Err(DirectoryNotEmpty))
    else (tree - {c}, Ok(()))
  }

  function DeleteLeaf(tree: Tree, c: seq<string>): (Tree, Result<(), FsError>) {
    if c !in tree then (tree, Err(PathNotFound))
    else if tree[c].kind == Dir then (tree, Err(IsDirectory))
    else (tree - {c}, Ok(()))
  }

  // ---------- the table ----------

  ghost predicate Linked(rows: Rows, root: InodeId, id: InodeId)
    requires id in rows
  {
    if id == root then rows[id].parent == None && rows[id].kind == Dir
    else
      && rows[id].parent.Some? && rows[id].parent.value < id
      && rows[id].parent.value in rows && rows[rows[id].parent.value].kind == Dir
  }

  predicate SameSlot(rows: Rows, a: InodeId, b: InodeId)
    requires a in rows && b in rows
  {
    rows[a].parent.Some? && rows[a].parent == rows[b].parent && rows[a].name == rows[b].name
  }

  /** No two rows have the same parent and name. */
  ghost predicate UniqueNames(rows: Rows) {
    forall a, b {:trigger SameSlot(rows, a, b)} | a in rows && b in rows && a != b :: !SameSlot(rows, a, b)
  }

  /** Identifiers below `next`; every row hangs below an older directory, the root alone has no parent. */
  ghost predicate Valid(rows: Rows, root: InodeId, next: InodeId) {
    && root < next
    && (forall id | id in rows :: id < next)
    && (forall id {:trigger Linked(rows, root, id)} | id in rows :: Linked(rows, root, id))
    && UniqueNames(rows)
  }

  predicate ChildOf(rows: Rows, i: InodeId, parent: InodeId, name: string) {
    i in rows && rows[i].parent == Some(parent) && rows[i].name == name
  }

  lemma OneChild(rows: Rows, parent: InodeId, name: string)
    requires UniqueNames(rows)
    ensures forall a, b | ChildOf(rows, a, parent, name) && ChildOf(rows, b, parent, name) :: a == b
  {
    forall a, b | ChildOf(rows, a, parent, name) && ChildOf(rows, b, parent, name) ensures a == b {
      assert SameSlot(rows, a, b);
    }
  }

  /** SELECT by parent and name. */
  function Child(rows: Rows, parent: InodeId, name: string): (r: Option<InodeId>)
    requires UniqueNames(rows)
    ensures r.Some? ==> ChildOf(rows, r.value, parent, name)
    ensures r.None? ==> forall i :: !ChildOf(rows, i, parent, name)
  {
    if exists i | i in rows :: ChildOf(rows, i, parent, name) then
      OneChild(rows, parent, name);
      var i :| i in rows && ChildOf(rows, i, parent, name);
      Some(i)
    else None
  }

  /** The names from the root down to a row. */
  ghost function PathOf(rows: Rows, root: InodeId, next: InodeId, id: InodeId): seq<string>
    requires Valid(rows, root, next) && id in rows
    decreases id
  {
    if id == root then []
    else
      assert Linked(rows, root, id);
      PathOf(rows, root, next, rows[id].parent.value) + [rows[id].name]
  }

  lemma {:induction false} PathsDiffer(rows: Rows, root: InodeId, next: InodeId, a: InodeId, b: InodeId)
    requires Valid(rows, root, next) && a in rows && b in rows
    requires PathOf(rows, root, next, a) == PathOf(rows, root, next, b)
    ensures a == b
    decreases a
  {
    if a != root && b != root {
      assert Linked(rows, root, a) && Linked(rows, root, b);
      var pa, pb := PathOf(rows, root, next, a), PathOf(rows, root, next, b);
      assert pa[..|pa| - 1] == PathOf(rows, root, next, rows[a].parent.value);
      assert pb[..|pb| - 1] == PathOf(rows, root, next, rows[b].parent.value);
      PathsDiffer(rows, root, next, rows[a].parent.value, rows[b].parent.value);
      assert pa[|pa| - 1] == rows[a].name && pb[|pb| - 1] == rows[b].name;
      assert SameSlot(rows, a, b);
    }
  }

  lemma AllPathsDiffer(rows: Rows, root: InodeId, next: InodeId)
    requires Valid(rows, root, next)
    ensures forall a, b | a in rows && b in rows && PathOf(rows, root, next, a) == PathOf(rows, root, next, b) :: a == b
  {
    forall a, b | a in rows && b in rows && PathOf(rows, root, next, a) == PathOf(rows, root, next, b) ensures a == b {
      PathsDiffer(rows, root, next, a, b);
    }
  }

  ghost predicate Placed(tree: Tree, rows: Rows, root: InodeId, next: InodeId, id: InodeId)
    requires Valid(rows, root, next) && id in rows
  {
    PathOf(rows, root, next, id) in tree && tree[PathOf(rows, root, next, id)] == Node(id, rows[id].kind)
  }

  ghost predicate Backed(tree: Tree, rows: Rows, root: InodeId, next: InodeId, c: seq<string>)
    requires Valid(rows, root, next) && c in tree
  {
    tree[c].id in rows && PathOf(rows, root, next, tree[c].id) == c
  }

  /** `tree` holds exactly the rows of the table, each at its path. */
  ghost predicate IsTree(tree: Tree, rows: Rows, root: InodeId, next: InodeId)
    requires Valid(rows, root, next)
  {
    && (forall id {:trigger Placed(tree, rows, root, next, id)} | id in rows :: Placed(tree, rows, root, next, id))
    && (forall c {:trigger Backed(tree, rows, root, next, c)} | c in tree :: Backed(tree, rows, root, next, c))
  }

  lemma TreeExists(rows: Rows, root: InodeId, next: InodeId)
    requires Valid(rows, root, next)
    ensures exists tree :: IsTree(tree, rows, root, next)
  {
    AllPathsDiffer(rows, root, next);
    var tree: Tree := map id | id in rows :: PathOf(rows, root, next, id) := Node(id, rows[id].kind);
    assert IsTree(tree, rows, root, next);
  }

  /** The tree a table stands for. */
  ghost function TreeOf(rows: Rows, root: InodeId, next: InodeId): (tree: Tree)
    requires Valid(rows, root, next)
    ensures IsTree(tree, rows, root, next)
  {
    TreeExists(rows, root, next);
    var tree :| IsTree(tree, rows, root, next);
    tree
  }

  /** There is only one such tree. */
  lemma TreeIs(rows: Rows, root: InodeId, next: InodeId, tree: Tree)
    requires Valid(rows, root, next) && IsTree(tree, rows, root, next)
    ensures TreeOf(rows, root, next) == tree
  {
    var t := TreeOf(rows, root, next);
    forall c ensures c in t <==> c in tree {
      if c in t { assert Backed(t, rows, root, next, c) && Placed(tree, rows, root, next, t[c].id); }
      if c in tree { assert Backed(tree, rows, root, next, c) && Placed(t, rows, root, next, tree[c].id); }
    }
    forall c | c in t ensures t[c] == tree[c] {
      assert Backed(t, rows, root, next, c);
      assert Placed(tree, rows, root, next, t[c].id) && Placed(t, rows, root, next, t[c].id);
    }
  }

  lemma NodeAt(rows: Rows, root: InodeId, next: InodeId, id: InodeId)
    requires Valid(rows, root, next) && id in rows
    ensures PathOf(rows, root, next, id) in TreeOf(rows, root, next)
    ensures TreeOf(rows, root, next)[PathOf(rows, root, next, id)] == Node(id, rows[id].kind)
  {
    assert Placed(TreeOf(rows, root, next), rows, root, next, id);
  }

  lemma RowAt(rows: Rows, root: InodeId, next: InodeId, c: seq<string>)
    requires Valid(rows, root, next) && c in TreeOf(rows, root, next)
    ensures var node := TreeOf(rows, root, next)[c];
            node.id in rows && PathOf(rows, root, next, node.id) == c && node.kind == rows[node.id].kind
  {
    var tree := TreeOf(rows, root, next);
    assert Backed(tree, rows, root, next, c);
    assert Placed(tree, rows, root, next, tree[c].id);
  }

  // ---------- what every table is ----------

  ghost predicate Hangs(tree: Tree, c: seq<string>) {
    c != [] ==> c[..|c| - 1] in tree && tree[c[..|c| - 1]].kind == Dir
  }

  /** Whatever is in the tree hangs below a directory of the tree. */
  ghost predicate Closed(tree: Tree) {
    forall c {:trigger Hangs(tree, c)} | c in tree :: Hangs(tree, c)
  }

  lemma TreeIsClosed(rows: Rows, root: InodeId, next: InodeId)
    requires Valid(rows, root, next)
    ensures Closed(TreeOf(rows, root, next))
    ensures [] in TreeOf(rows, root, next) <==> root in rows
    ensures root in rows ==> TreeOf(rows, root, next)[[]] == Node(root, Dir)
  {
    var tree := TreeOf(rows, root, next);
    forall c | c in tree ensures Hangs(tree, c) {
      RowAt(rows, root, next, c);
      var id := tree[c].id;
      assert Linked(rows, root, id);
      if c != [] {
        assert c[..|c| - 1] == PathOf(rows, root, next, rows[id].parent.value);
        NodeAt(rows, root, next, rows[id].parent.value);
      }
    }
    if root in rows {
      assert Linked(rows, root, root);
      NodeAt(rows, root, next, root);
    }
    if [] in tree { RowAt(rows, root, next, []); }
  }

  // ---------- changes of the table ----------

  lemma {:induction false} PathKept(rows: Rows, rows': Rows, root: InodeId, next: InodeId, next': InodeId, id: InodeId)
    requires Valid(rows, root, next) && Valid(rows', root, next') && id in rows && id in rows'
    requires forall i | i in rows && i in rows' :: rows'[i] == rows[i]
    ensures PathOf(rows', root, next', id) == PathOf(rows, root, next, id)
    decreases id
  {
    if id != root {
      assert Linked(rows, root, id) && Linked(rows', root, id);
      PathKept(rows, rows', root, next, next', rows[id].parent.value);
    }
  }

  lemma InsertedValid(rows: Rows, root: InodeId, next: InodeId, parent: InodeId, name: string, kind: Kind)
    requires Valid(rows, root, next) && parent in rows && rows[parent].kind == Dir
    requires Child(rows, parent, name) == None
    ensures Valid(rows[next := Inode(Some(parent), name, kind)], root, next + 1)
  {
    var rows' := rows[next := Inode(Some(parent), name, kind)];
    forall id | id in rows' ensures Linked(rows', root, id) {
      if id != next { assert Linked(rows, root, id); }
    }
    forall a, b | a in rows' && b in rows' && a != b ensures !SameSlot(rows', a, b) {
      if a != next && b != next {
        assert !SameSlot(rows, a, b);
      } else {
        assert !ChildOf(rows, if a == next then b else a, parent, name);
      }
    }
  }

  /** A new row under a directory adds exactly its own path to the tree. */
  lemma InsertedTree(rows: Rows, root: InodeId, next: InodeId, parent: InodeId, name: string, kind: Kind)
    requires Valid(rows, root, next) && parent in rows && rows[parent].kind == Dir
    requires Child(rows, parent, name) == None
    ensures Valid(rows[next := Inode(Some(parent), name, kind)], root, next + 1)
    ensures TreeOf(rows[next := Inode(Some(parent), name, kind)], root, next + 1)
         == TreeOf(rows, root, next)[PathOf(rows, root, next, parent) + [name] := Node(next, kind)]
  {
    InsertedValid(rows, root, next, parent, name, kind);
    var rows' := rows[next := Inode(Some(parent), name, kind)];
    var c := PathOf(rows, root, next, parent) + [name];
    ChildAgrees(rows, root, next, parent, name);
    forall id | id in rows ensures PathOf(rows', root, next + 1, id) == PathOf(rows, root, next, id) {
      PathKept(rows, rows', root, next, next + 1, id);
    }
    assert PathOf(rows', root, next + 1, next) == c;
    var tree := TreeOf(rows, root, next);
    var tree' := tree[c := Node(next, kind)];
    forall id | id in rows' ensures Placed(tree', rows', root, next + 1, id) {
      if id != next { NodeAt(rows, root, next, id); }
    }
    forall k | k in tree' ensures Backed(tree', rows', root, next + 1, k) {
      if k != c { RowAt(rows, root, next, k); }
    }
    TreeIs(rows', root, next + 1, tree');
  }

  /** Whether a row can be inserted under a directory is a matter of the tree alone. */
  lemma InsertExactly(rows: Rows, root: InodeId, next: InodeId, parent: InodeId, name: string, kind: Kind,
                      at: seq<string>)
    requires Valid(rows, root, next) && parent in rows && at == PathOf(rows, root, next, parent) + [name]
    ensures Child(rows, parent, name).Some? <==> at in TreeOf(rows, root, next)
    ensures rows[parent].kind == Dir && Child(rows, parent, name).None? ==>
              && Valid(rows[next := Inode(Some(parent), name, kind)], root, next + 1)
              && TreeOf(rows[next := Inode(Some(parent), name, kind)], root, next + 1)
              == TreeOf(rows, root, next)[at := Node(next, kind)]
  {
    ChildAgrees(rows, root, next, parent, name);
    if rows[parent].kind == Dir && Child(rows, parent, name).None? {
      InsertedTree(rows, root, next, parent, name, kind);
    }
  }

  lemma RemovedValid(rows: Rows, root: InodeId, next: InodeId, id: InodeId)
    requires Valid(rows, root, next) && id in rows
    requires forall i | i in rows :: rows[i].parent != Some(id)
    ensures Valid(rows - {id}, root, next)
  {
    var rows' := rows - {id};
    forall i | i in rows' ensures Linked(rows', root, i) {
      assert Linked(rows, root, i);
    }
    forall a, b | a in rows' && b in rows' && a != b ensures !SameSlot(rows', a, b) {
      assert !SameSlot(rows, a, b);
    }
  }

  /** Removing a row without children takes exactly its own path out of the tree. */
  lemma RemovedTree(rows: Rows, root: InodeId, next: InodeId, id: InodeId)
    requires Valid(rows, root, next) && id in rows
    requires forall i | i in rows :: rows[i].parent != Some(id)
    ensures Valid(rows - {id}, root, next)
    ensures TreeOf(rows - {id}, root, next) == TreeOf(rows, root, next) - {PathOf(rows, root, next, id)}
  {
    RemovedValid(rows, root, next, id);
    forall i | i in rows - {id} ensures PathOf(rows - {id}, root, next, i) == PathOf(rows, root, next, i) {
      PathKept(rows, rows - {id}, root, next, next, i);
    }
    var rows', tree := rows - {id}, TreeOf(rows, root, next);
    var tree' := tree - {PathOf(rows, root, next, id)};
    forall i | i in rows' ensures Placed(tree', rows', root, next, i) {
      NodeAt(rows, root, next, i);
      if PathOf(rows, root, next, i) == PathOf(rows, root, next, id) { PathsDiffer(rows, root, next, i, id); }
    }
    NodeAt(rows, root, next, id);
    forall k | k in tree' ensures Backed(tree', rows', root, next, k) {
      RowAt(rows, root, next, k);
    }
    TreeIs(rows', root, next, tree');
  }

  /** A row has children exactly when its path has children in the tree. */
  lemma ChildrenAgree(rows: Rows, root: InodeId, next: InodeId, id: InodeId)
    requires Valid(rows, root, next) && id in rows
    ensures (exists i | i in rows :: rows[i].parent == Some(id))
        <==> HasChildren(TreeOf(rows, root, next), PathOf(rows, root, next, id))
  {
    var tree, c := TreeOf(rows, root, next), PathOf(rows, root, next, id);
    if i :| i in rows && rows[i].parent == Some(id) {
      assert Linked(rows, root, i);
      NodeAt(rows, root, next, i);
      var p := PathOf(rows, root, next, i);
      assert p[..|p| - 1] == c && IsChild(p, c);
    }
    if HasChildren(tree, c) {
      var p :| p in tree && IsChild(p, c);
      var i := tree[p].id;
      RowAt(rows, root, next, p);
      assert Linked(rows, root, i);
      assert p[..|p| - 1] == PathOf(rows, root, next, rows[i].parent.value);
      PathsDiffer(rows, root, next, rows[i].parent.value, id);
    }
  }

  /** The children of a row are found by name under its path. */
  lemma ChildAgrees(rows: Rows, root: InodeId, next: InodeId, id: InodeId, name: string)
    requires Valid(rows, root, next) && id in rows
    ensures var tree, c := TreeOf(rows, root, next), PathOf(rows, root, next, id) + [name];
            && (c in tree <==> Child(rows, id, name).Some?)
            && (c in tree ==> tree[c].id == Child(rows, id, name).value
                              && PathOf(rows, root, next, Child(rows, id, name).value) == c)
  {
    var tree, c := TreeOf(rows, root, next), PathOf(rows, root, next, id) + [name];
    if Child(rows, id, name).Some? {
      var i := Child(rows, id, name).value;
      assert Linked(rows, root, i);
      assert PathOf(rows, root, next, i) == c;
      NodeAt(rows, root, next, i);
    }
    if c in tree {
      var i := tree[c].id;
      RowAt(rows, root, next, c);
      assert Linked(rows, root, i);
      assert c[..|c| - 1] == PathOf(rows, root, next, rows[i].parent.value);
      assert c[..|c| - 1] == PathOf(rows, root, next, id);
      PathsDiffer(rows, root, next, rows[i].parent.value, id);
      assert c[|c| - 1] == rows[i].name;
    }
  }

  /** Every prefix of a path in a closed tree is in it. */
  lemma {:induction false} PrefixIn(tree: Tree, c: seq<string>, n: nat)
    requires Closed(tree) && c in tree && n <= |c|
    ensures c[..n] in tree
    decreases |c|
  {
    if n == |c| {
      assert c[..n] == c;
    } else {
      assert Hangs(tree, c);
      PrefixIn(tree, c[..|c| - 1], n);
      assert c[..|c| - 1][..n] == c[..n];
    }
  }

  // ---------- runs ----------

  /** The operations, at the components of the paths they are given. */
  datatype Op = MkDir(at: seq<string>) | MkFile(at: seq<string>) | RmDir(at: seq<string>) | Unlink(at: seq<string>)

  function Apply(tree: Tree, next: InodeId, op: Op): (Tree, bool) {
    match op
    case MkDir(c) => var (t, r) := Make(tree, next, c, Dir); (t, r.Ok?)
    case MkFile(c) => var (t, r) := Make(tree, next, c, File); (t, r.Ok?)
    case RmDir(c) => var (t, r) := RemoveDir(tree, c); (t, r.Ok?)
    case Unlink(c) => var (t, r) := DeleteLeaf(tree, c); (t, r.Ok?)
  }

  lemma AddKeepsClosed(tree: Tree, c: seq<string>, node: Node)
    requires Closed(tree) && c !in tree && Hangs(tree, c)
    ensures Closed(tree[c := node])
  {
    var tree' := tree[c := node];
    forall k | k in tree' ensures Hangs(tree', k) {
      assert Hangs(tree, k);
    }
  }

  lemma RemoveKeepsClosed(tree: Tree, c: seq<string>)
    requires Closed(tree) && c in tree && (!HasChildren(tree, c) || tree[c].kind != Dir)
    ensures Closed(tree - {c})
  {
    forall k | k in tree - {c} ensures Hangs(tree - {c}, k) {
      assert Hangs(tree, k);
      if k != [] && k[..|k| - 1] == c { assert IsChild(k, c); }
    }
  }

  /** A step changes the tree at its own path only, keeps it closed, and changes nothing when it fails. */
  lemma StepExactly(tree: Tree, next: InodeId, op: Op)
    requires Closed(tree)
    ensures var (tree', ok) := Apply(tree, next, op);
            && Closed(tree')
            && (!ok ==> tree' == tree)
            && (forall c | c != op.at :: (c in tree' <==> c in tree) && (c in tree ==> tree'[c] == tree[c]))
            && (ok ==> (op.at in tree' <==> op.MkDir? || op.MkFile?) && (op.at in tree <==> op.RmDir? || op.Unlink?))
  {
    if Apply(tree, next, op).1 {
      match op
      case MkDir(c) => AddKeepsClosed(tree, c, Node(next, Dir));
      case MkFile(c) => AddKeepsClosed(tree, c, Node(next, File));
      case RmDir(c) => RemoveKeepsClosed(tree, c);
      case Unlink(c) => RemoveKeepsClosed(tree, c);
    }
  }

  /**
   The answers of a creation. It gives the new identifier exactly when the node is then at its
   path; and each refusal says what is in the way: no name to make, nothing or no directory to make
   it in, or something there already.
   */
  lemma MakeAnswers(tree: Tree, id: InodeId, c: seq<string>, kind: Kind)
    requires Closed(tree)
    ensures var (tree', r) := Make(tree, id, c, kind);
            && (r.Ok? ==> r == Ok(id) && c in tree' && tree'[c] == Node(id, kind) && c !in tree)
            && (r == Err(BadPath(InvalidPath)) <==> c == [])
            && (r == Err(PathNotFound) <==> c != [] && c[..|c| - 1] !in tree)
            && (r == Err(NotDirectory) <==> c != [] && c[..|c| - 1] in tree && tree[c[..|c| - 1]].kind != Dir)
            && (r == Err(AlreadyExists) <==> c != [] && c in tree)
  {
    if c in tree { assert Hangs(tree, c); }
  }

  /** The answers of the two removals, by what is at the path. */
  lemma RemovalAnswers(tree: Tree, c: seq<string>)
    ensures var (_, r) := RemoveDir(tree, c);
            && (r == Err(PathNotFound) <==> c !in tree)
            && (r == Err(NotDirectory) <==> c in tree && tree[c].kind != Dir)
            && (r == Err(DirectoryNotEmpty) <==> c in tree && tree[c].kind == Dir && HasChildren(tree, c))
    ensures var (_, r) := DeleteLeaf(tree, c);
            && (r == Err(PathNotFound) <==> c !in tree)
            && (r == Err(IsDirectory) <==> c in tree && tree[c].kind == Dir)
  {
  }

  /**
   An operation goes through exactly when its outcome is still a tree: a creation for a free path
   below an existing directory, a directory removal when nothing is left hanging, a deletion for
   anything that is not a directory.
   */
  lemma StepSucceedsExactly(tree: Tree, next: InodeId, op: Op)
    requires Closed(tree)
    ensures var ok, at := Apply(tree, next, op).1, op.at;
            match op
            case MkDir(_) => ok <==> at != [] && at !in tree && Closed(tree[at := Node(next, Dir)])
            case MkFile(_) => ok <==> at != [] && at !in tree && Closed(tree[at := Node(next, File)])
            case RmDir(_) => ok <==> at in tree && tree[at].kind == Dir && Closed(tree - {at})
            case Unlink(_) => ok <==> at in tree && tree[at].kind != Dir
  {
    match op
    case MkDir(c) => AddedClosed(tree, c, Node(next, Dir));
    case MkFile(c) => AddedClosed(tree, c, Node(next, File));
    case RmDir(c) => if c in tree && tree[c].kind == Dir { RemovedClosed(tree, c); }
    case Unlink(c) =>
  }

  lemma AddedClosed(tree: Tree, c: seq<string>, node: Node)
    requires Closed(tree)
    ensures c != [] && c !in tree ==> (Closed(tree[c := node]) <==> Hangs(tree, c))
  {
    if c != [] && c !in tree {
      if Hangs(tree, c) {
        AddKeepsClosed(tree, c, node);
      } else {
        assert !Hangs(tree[c := node], c);
      }
    }
  }

  lemma RemovedClosed(tree: Tree, c: seq<string>)
    requires Closed(tree) && c in tree && tree[c].kind == Dir
    ensures Closed(tree - {c}) <==> !HasChildren(tree, c)
  {
    if HasChildren(tree, c) {
      var k :| k in tree && IsChild(k, c);
      assert k[..|k| - 1] == c;
      assert !Hangs(tree - {c}, k);
    } else {
      RemoveKeepsClosed(tree, c);
    }
  }

  /** What was just made can be taken away again, and that gives back the tree as it was. */
  lemma MakeThenRemove(tree: Tree, next: InodeId, c: seq<string>)
    requires Closed(tree)
    ensures Apply(tree, next, MkFile(c)).1 ==>
              Apply(Apply(tree, next, MkFile(c)).0, next + 1, Unlink(c)) == (tree, true)
    ensures Apply(tree, next, MkDir(c)).1 ==>
              Apply(Apply(tree, next, MkDir(c)).0, next + 1, RmDir(c)) == (tree, true)
  {
    if Apply(tree, next, MkDir(c)).1 {
      var made := tree[c := Node(next, Dir)];
      forall k | k in made ensures !IsChild(k, c) {
        if k in tree { assert Hangs(tree, k); }
      }
      assert made - {c} == tree;
      assert tree[c := Node(next, File)] - {c} == tree;
    }
  }

  /** The root goes exactly when a directory removal names it and it is all there is. */
  lemma RootLostExactly(tree: Tree, next: InodeId, op: Op)
    requires Closed(tree) && [] in tree && tree[[]].kind == Dir
    ensures [] !in Apply(tree, next, op).0 <==> op == RmDir([]) && tree.Keys == {[]}
  {
    if op == RmDir([]) {
      forall c | c in tree && c != [] ensures HasChildren(tree, []) {
        PrefixIn(tree, c, 1);
        assert IsChild(c[..1], []);
      }
      if HasChildren(tree, []) {
        var c :| c in tree && IsChild(c, []);
        assert c in tree.Keys;
      } else {
        assert tree.Keys == {[]};
      }
    }
  }

  function NextAfter(tree: Tree, next: InodeId, op: Op): InodeId {
    if (op.MkDir? || op.MkFile?) && Apply(tree, next, op).1 then next + 1 else next
  }

  function Run(tree: Tree, next: InodeId, ops: seq<Op>): Tree
    decreases ops
  {
    if ops == [] then tree else Run(Apply(tree, next, ops[0]).0, NextAfter(tree, next, ops[0]), ops[1..])
  }

  ghost predicate Rooted(tree: Tree) {
    [] in tree && tree[[]].kind == Dir
  }

  /** Distinct nodes of the tree are distinct rows, all older than the next identifier. */
  ghost predicate OwnIds(tree: Tree, next: InodeId) {
    && (forall c | c in tree :: tree[c].id < next)
    && (forall c, d | c in tree && d in tree && c != d :: tree[c].id != tree[d].id)
  }

  /** A valid table's tree has one row for each node, older than the next identifier. */
  lemma TreeOwnsIds(rows: Rows, root: InodeId, next: InodeId)
    requires Valid(rows, root, next)
    ensures OwnIds(TreeOf(rows, root, next), next)
  {
    var tree := TreeOf(rows, root, next);
    forall c | c in tree ensures tree[c].id in rows && PathOf(rows, root, next, tree[c].id) == c {
      RowAt(rows, root, next, c);
    }
  }

  lemma StepKeepsRoot(tree: Tree, next: InodeId, op: Op)
    requires Closed(tree) && Rooted(tree) && op != RmDir([])
    ensures Rooted(Apply(tree, next, op).0)
  {
    if op.at != [] { StepExactly(tree, next, op); }
  }

  lemma StepKeepsIds(tree: Tree, next: InodeId, op: Op)
    requires OwnIds(tree, next)
    ensures OwnIds(Apply(tree, next, op).0, NextAfter(tree, next, op))
  {
  }

  /**
   Over any run of the four operations that never removes "/": the nodes form a tree below the
   root, with directories only as parents and one row for each node, and a path that no step
   names holds at the end what it held at the start.
   */
  lemma {:induction false} TreeOverRuns(tree: Tree, next: InodeId, ops: seq<Op>, c: seq<string>)
    requires Closed(tree) && Rooted(tree) && OwnIds(tree, next) && RmDir([]) !in ops
    ensures var t := Run(tree, next, ops);
            && Closed(t) && Rooted(t)
            && (forall p, q | p in t && q in t && p != q :: t[p].id != t[q].id)
            && ((forall i | 0 <= i < |ops| :: ops[i].at != c) ==>
                  (c in t <==> c in tree) && (c in t ==> t[c] == tree[c]))
    decreases ops
  {
    if ops != [] {
      StepExactly(tree, next, ops[0]);
      StepKeepsRoot(tree, next, ops[0]);
      StepKeepsIds(tree, next, ops[0]);
      TreeOverRuns(Apply(tree, next, ops[0]).0, NextAfter(tree, next, ops[0]), ops[1..], c);
      assert forall i | 0 <= i < |ops[1..]| :: ops[1..][i] == ops[i + 1];
    }
  }

  // ---------- the code ----------

  class FileSystem {
    var rows: Rows
    const root: InodeId
    var nextId: InodeId

    ghost predicate Ready()
      reads this
    {
      Valid(rows, root, nextId)
    }

    ghost function CurrentTree(): Tree
      requires Ready()
      reads this
    {
      TreeOf(rows, root, nextId)
    }

    constructor (root: InodeId)
      ensures Ready() && CurrentTree() == map[[] := Node(root, Dir)]
    {
      this.root, nextId := root, root + 1;
      rows := map[root := Inode(None, "/", Dir)];
      new;
      assert Linked(rows, root, root);
      TreeIs(rows, root, nextId, map[[] := Node(root, Dir)]);
    }

    /** One lookup by parent and name per component, from the root. */
    method Walk(components: seq<string>) returns (r: Result<InodeId, FsError>)
      requires Ready()
      ensures r == if components in CurrentTree() then Ok(CurrentTree()[components].id) else Err(PathNotFound)
    {
      TreeIsClosed(rows, root, nextId);
      var current := root;
      for i := 0 to |components|
        invariant components[..i] in CurrentTree() ==> CurrentTree()[components[..i]].id == current
        invariant i > 0 ==> components[..i] in CurrentTree()
        invariant i == 0 ==> current == root
      {
        assert components[..i + 1] == components[..i] + [components[i]];
        if components in CurrentTree() {
          PrefixIn(CurrentTree(), components, i);
          PrefixIn(CurrentTree(), components, i + 1);
        }
        if components[..i] in CurrentTree() {
          RowAt(rows, root, nextId, components[..i]);
          ChildAgrees(rows, root, nextId, current, components[i]);
        } else {
          NoRowsBelow(rows, root, nextId, components[i]);
        }
        var child := Child(rows, current, components[i]);
        if child.None? {
          return Err(PathNotFound);
        }
        current := child.value;
      }
      assert components[..|components|] == components;
      if components in CurrentTree() { RowAt(rows, root, nextId, components); }
      r := if current in rows then Ok(current) else Err(PathNotFound);
    }

    /** The row found is the one the tree has at the components of the path. */
    method ResolvePath(path: string) returns (r: Result<InodeId, FsError>)
      requires Ready()
      ensures match PathComponents(path)
              case Err(e) => r == Err(BadPath(e))
              case Ok(c) => r == if c in CurrentTree() then Ok(CurrentTree()[c].id) else Err(PathNotFound)
      ensures r.Ok? ==>
                var c := PathComponents(path).value;
                && r.value in rows && PathOf(rows, root, nextId, r.value) == c
                && CurrentTree()[c].kind == rows[r.value].kind
    {
      var normalized := NormalizePath(path);
      if normalized.Err? {
        return Err(BadPath(normalized.error));
      }
      NormalizeLaws(path);
      ghost var c := PathComponents(path).value;
      if c in CurrentTree() { RowAt(rows, root, nextId, c); }
      if normalized.value == "/" {
        TreeIsClosed(rows, root, nextId);
        return if root in rows then Ok(root) else Err(PathNotFound);
      }
      var components := PathComponents(normalized.value);
      r := Walk(components.value);
    }

    /** The two refusals a creation can meet once the parent is found. */
    method CheckSlot(parent: InodeId, name: string, ghost at: seq<string>) returns (refusal: Option<FsError>)
      requires Ready() && parent in rows && at == PathOf(rows, root, nextId, parent) + [name]
      ensures refusal == if rows[parent].kind != Dir then Some(NotDirectory)
                         else if at in CurrentTree() then Some(AlreadyExists)
                         else None
      ensures refusal.None? ==> Child(rows, parent, name).None?
    {
      ChildAgrees(rows, root, nextId, parent, name);
      if rows[parent].kind != Dir {
        return Some(NotDirectory);
      }
      refusal := if Child(rows, parent, name).Some? then Some(AlreadyExists) else None;
    }

    method InsertChild(parent: InodeId, name: string, kind: Kind, ghost at: seq<string>) returns (id: InodeId)
      requires Ready() && parent in rows && at == PathOf(rows, root, nextId, parent) + [name]
      requires rows[parent].kind == Dir && Child(rows, parent, name).None?
      modifies this
      ensures id == old(nextId) && nextId == id + 1 && rows == old(rows)[id := Inode(Some(parent), name, kind)]
      ensures Valid(rows, root, nextId)
      ensures TreeOf(rows, root, nextId) == TreeOf(old(rows), root, id)[at := Node(id, kind)]
    {
      InsertExactly(rows, root, nextId, parent, name, kind, at);
      id := nextId;
      rows, nextId := rows[id := Inode(Some(parent), name, kind)], nextId + 1;
    }

    /** The tree has a node with this identifier at `c`, and `before` had neither the node nor the identifier. */
    ghost predicate NewAt(c: seq<string>, id: InodeId, kind: Kind, before: Tree)
      requires Ready()
      reads this
    {
      && c in CurrentTree() && CurrentTree()[c] == Node(id, kind)
      && c !in before && forall k | k in before :: before[k].id != id
    }

    method CreateInode(path: string, kind: Kind) returns (r: Result<InodeId, FsError>)
      requires Ready()
      modifies this
      ensures Ready()
      ensures match PathComponents(path)
              case Err(e) => r == Err(BadPath(e)) && CurrentTree() == old(CurrentTree()) && nextId == old(nextId)
              case Ok(c) => && (CurrentTree(), r) == Make(old(CurrentTree()), old(nextId), c, kind)
                            && nextId == if r.Ok? then old(nextId) + 1 else old(nextId)
      ensures r.Ok? ==> NewAt(PathComponents(path).value, r.value, kind, old(CurrentTree()))
    {
      TreeOwnsIds(rows, root, nextId);
      ghost var c := PathComponents(path);
      SplitErrors(path);
      var split := SplitPath(path);
      if split.Err? {
        return Err(BadPath(split.error));
      }
      var (parentPath, name) := split.value;
      assert c.value[..|c.value| - 1] == PathComponents(parentPath).value;
      var parent := ResolvePath(parentPath);
      if parent.Err? {
        return Err(parent.error);
      }
      var refusal := CheckSlot(parent.value, name, c.value);
      if refusal.Some? {
        return Err(refusal.value);
      }
      var id := InsertChild(parent.value, name, kind, c.value);
      r := Ok(id);
    }

    method CreateDirectory(path: string) returns (r: Result<InodeId, FsError>)
      requires Ready()
      modifies this
      ensures Ready()
      ensures match PathComponents(path)
              case Err(e) => r == Err(BadPath(e)) && CurrentTree() == old(CurrentTree()) && nextId == old(nextId)
              case Ok(c) => && (CurrentTree(), r) == Make(old(CurrentTree()), old(nextId), c, Dir)
                            && CurrentTree() == Apply(old(CurrentTree()), old(nextId), MkDir(c)).0
                            && nextId == NextAfter(old(CurrentTree()), old(nextId), MkDir(c))
      ensures r.Ok? ==> NewAt(PathComponents(path).value, r.value, Dir, old(CurrentTree()))
    {
      r := CreateInode(path, Dir);
    }

    method CreateFile(path: string) returns (r: Result<InodeId, FsError>)
      requires Ready()
      modifies this
      ensures Ready()
      ensures match PathComponents(path)
              case Err(e) => r == Err(BadPath(e)) && CurrentTree() == old(CurrentTree()) && nextId == old(nextId)
              case Ok(c) => && (CurrentTree(), r) == Make(old(CurrentTree()), old(nextId), c, File)
                            && CurrentTree() == Apply(old(CurrentTree()), old(nextId), MkFile(c)).0
                            && nextId == NextAfter(old(CurrentTree()), old(nextId), MkFile(c))
      ensures r.Ok? ==> NewAt(PathComponents(path).value, r.value, File, old(CurrentTree()))
    {
      r := CreateInode(path, File);
    }

    /** The rows under a directory are exactly the nodes one step below its path. */
    method ListDirectory(path: string) returns (r: Result<set<InodeId>, FsError>)
      requires Ready()
      ensures match PathComponents(path)
              case Err(e) => r == Err(BadPath(e))
              case Ok(dir) =>
                && (r.Ok? <==> dir in CurrentTree() && CurrentTree()[dir].kind == Dir)
                && (r.Ok? ==> forall c | c in CurrentTree() :: CurrentTree()[c].id in r.value <==> IsChild(c, dir))
                && (r.Err? ==> r.error == if dir in CurrentTree() then NotDirectory else PathNotFound)
    {
      var dir := ResolvePath(path);
      if dir.Err? {
        return Err(dir.error);
      }
      if rows[dir.value].kind != Dir {
        return Err(NotDirectory);
      }
      r := Ok(set i | i in rows && rows[i].parent == Some(dir.value));
      forall c | c in CurrentTree()
        ensures CurrentTree()[c].id in r.value <==> IsChild(c, PathOf(rows, root, nextId, dir.value))
      {
        RowAt(rows, root, nextId, c);
        ChildPath(rows, root, nextId, CurrentTree()[c].id, dir.value);
      }
    }

    method RemoveDirectory(path: string) returns (r: Result<(), FsError>)
      requires Ready()
      modifies this
      ensures Ready()
      ensures match PathComponents(path)
              case Err(e) => r == Err(BadPath(e)) && CurrentTree() == old(CurrentTree())
              case Ok(c) => && (CurrentTree(), r) == RemoveDir(old(CurrentTree()), c)
                            && CurrentTree() == Apply(old(CurrentTree()), old(nextId), RmDir(c)).0
      ensures nextId == old(nextId)
    {
      var dir := ResolvePath(path);
      if dir.Err? {
        return Err(dir.error);
      }
      if rows[dir.value].kind != Dir {
        return Err(NotDirectory);
      }
      ChildrenAgree(rows, root, nextId, dir.value);
      if exists i | i in rows :: rows[i].parent == Some(dir.value) {
        return Err(DirectoryNotEmpty);
      }
      RemovedTree(rows, root, nextId, dir.value);
      rows := rows - {dir.value};
      r := Ok(());
    }

    method DeleteFile(path: string) returns (r: Result<(), FsError>)
      requires Ready()
      modifies this
      ensures Ready()
      ensures match PathComponents(path)
              case Err(e) => r == Err(BadPath(e)) && CurrentTree() == old(CurrentTree())
              case Ok(c) => && (CurrentTree(), r) == DeleteLeaf(old(CurrentTree()), c)
                            && CurrentTree() == Apply(old(CurrentTree()), old(nextId), Unlink(c)).0
      ensures nextId == old(nextId)
    {
      var file := ResolvePath(path);
      if file.Err? {
        return Err(file.error);
      }
      if rows[file.value].kind == Dir {
        return Err(IsDirectory);
      }
      forall i | i in rows ensures rows[i].parent != Some(file.value) {
        assert Linked(rows, root, i);
      }
      RemovedTree(rows, root, nextId, file.value);
      rows := rows - {file.value};
      r := Ok(());
    }
  }

  /** Where splitting fails, so does resolving, with the same error; the root is an invalid path to make. */
  lemma SplitErrors(path: string)
    ensures match PathComponents(path)
            case Err(e) => SplitPath(path) == Err(e)
            case Ok(c) => if c == [] then SplitPath(path) == Err(InvalidPath)
                          else SplitPath(path).Ok? && PathComponents(SplitPath(path).value.0).Ok?
                               && PathComponents(SplitPath(path).value.0).value + [SplitPath(path).value.1] == c
  {
    if NormalizePath(path).Ok? {
      NormalizeLaws(path);
      SplitLaws(path);
    }
  }

  lemma NoRowsBelow(rows: Rows, root: InodeId, next: InodeId, name: string)
    requires Valid(rows, root, next) && root !in rows
    ensures Child(rows, root, name) == None
  {
    forall i | i in rows ensures rows[i].parent != Some(root) {
      assert Linked(rows, root, i);
    }
  }

  lemma ChildPath(rows: Rows, root: InodeId, next: InodeId, i: InodeId, dir: InodeId)
    requires Valid(rows, root, next) && i in rows && dir in rows
    ensures rows[i].parent == Some(dir) <==> IsChild(PathOf(rows, root, next, i), PathOf(rows, root, next, dir))
  {
    assert Linked(rows, root, i);
    var p := PathOf(rows, root, next, i);
    if i != root {
      assert p[..|p| - 1] == PathOf(rows, root, next, rows[i].parent.value);
      if IsChild(p, PathOf(rows, root, next, dir)) {
        PathsDiffer(rows, root, next, rows[i].parent.value, dir);
      }
    }
  }
}
