/** Path lookup through the dentry cache. The cache is a FlatHashMap keyed by parent
    dentry and component name; the walk is proved to be the fold of the filesystem's
    own lookup over the path's components, whatever the cache holds. */
module VfsPath {
  import FlatHashMap
  import opened Defs

  const MAX_NODE_NAME_LENGTH := 255
  const VFS_ERR_INVAL := 7
  const VFS_ERR_NAMETOOLONG := 14

  // dir_entry_t: never changed once created.
  class Dentry {
    const parent: Dentry?
    const inode: nat
    const name: string

    constructor (parent: Dentry?, name: string, inode: nat)
      ensures this.parent == parent && this.name == name && this.inode == inode
    {
      this.parent, this.name, this.inode := parent, name, inode;
    }
  }

  datatype Key = Key(parent: Dentry, name: string)

  // What inode_ops.lookup answers.
  datatype Lookup = Missing(code: int) | Inode(id: nat)

  // How a walk ends. Halted stands for the assertion on the name length, which stops the kernel.
  datatype Walk = Found(entry: Dentry) | Error(code: int) | Halted

  datatype Outcome = Reached(id: nat) | Failed(code: int) | Stopped

  // The inode instead of the dentry.
  ghost function OutcomeOf(w: Walk): Outcome {
    match w
    case Found(d) => Reached(d.inode)
    case Error(code) => Failed(code)
    case Halted => Stopped
  }

  // ---------------------------------------------------------------- components of a path

  // kfind_index_first_of_from with the end of the string in place of -1
  function FirstSlash(path: string, from: nat): (i: nat)
    requires from <= |path|
    ensures from <= i <= |path| && '/' !in path[from..i] && (i < |path| ==> path[i] == '/')
    decreases |path| - from
  {
    if from == |path| || path[from] == '/' then from else FirstSlash(path, from + 1)
  }

  // The components after the slash at `at`.
  function Sections(path: string, at: nat): (s: seq<string>)
    requires at < |path| && path[at] == '/'
    ensures |s| > 0
    decreases |path| - at
  {
    var end := FirstSlash(path, at + 1);
    [path[at + 1..end]] + if end < |path| then Sections(path, end) else []
  }

  ghost function Join(s: seq<string>): string {
    if s == [] then "" else "/" + s[0] + Join(s[1..])
  }

  lemma SplitAtSlash(path: string, at: nat, end: nat)
    requires at < end <= |path| && path[at] == '/'
    ensures path[at..] == "/" + path[at + 1..end] + path[end..]
  {
  }

  // No component holds a slash, and together they are the path.
  lemma {:induction false} SectionsRejoin(path: string, at: nat)
    requires at < |path| && path[at] == '/'
    ensures Join(Sections(path, at)) == path[at..]
    ensures forall i :: 0 <= i < |Sections(path, at)| ==> '/' !in Sections(path, at)[i]
    decreases |path| - at
  {
    var end := FirstSlash(path, at + 1);
    var s := Sections(path, at);
    assert s[0] == path[at + 1..end];
    SplitAtSlash(path, at, end);
    if end < |path| {
      SectionsRejoin(path, end);
      assert s[1..] == Sections(path, end);
    } else {
      assert s[1..] == [];
    }
  }

  // The filesystem's lookup folded over the components.
  ghost function Fold(fs: (nat, string) -> Lookup, inode: nat, names: seq<string>): Outcome
    decreases |names|
  {
    if names == [] then Reached(inode)
    else if |names[0]| > MAX_NODE_NAME_LENGTH + 1 then Failed(-VFS_ERR_NAMETOOLONG)
    else if |names[0]| > MAX_NODE_NAME_LENGTH then Stopped
    else match fs(inode, names[0])
      case Missing(code) => Failed(code)
      case Inode(id) => Fold(fs, id, names[1..])
  }

  // `names` are the components of a path: none for the root, and otherwise what stands
  // behind each slash.
  ghost predicate Components(path: string, names: seq<string>) {
    && (forall i :: 0 <= i < |names| ==> '/' !in names[i])
    && if path == "/" then names == [] else names != [] && Join(names) == path
  }

  // There is one way to take a path apart.
  lemma ComponentsUnique(path: string, a: seq<string>, b: seq<string>)
    requires Components(path, a) && Components(path, b)
    ensures a == b
  {
    if path != "/" { JoinUnique(a, b); }
  }

  lemma {:induction false} JoinUnique(a: seq<string>, b: seq<string>)
    requires Join(a) == Join(b)
    requires forall i :: 0 <= i < |a| ==> '/' !in a[i]
    requires forall i :: 0 <= i < |b| ==> '/' !in b[i]
    ensures a == b
    decreases |a|
  {
    if a != [] && b != [] {
      SlashEnds(a);
      SlashEnds(b);
      FirstUnique(a[0], Join(a[1..]), b[0], Join(b[1..]));
      JoinUnique(a[1..], b[1..]);
    }
  }

  lemma SlashEnds(s: seq<string>)
    requires s != []
    ensures Join(s) == "/" + (s[0] + Join(s[1..])) && (Join(s[1..]) == "" || Join(s[1..])[0] == '/')
  {
  }

  // A component ends at the next slash or with the path.
  lemma FirstUnique(a: string, r: string, b: string, t: string)
    requires "/" + (a + r) == "/" + (b + t) && '/' !in a && '/' !in b
    requires (r == "" || r[0] == '/') && (t == "" || t[0] == '/')
    ensures a == b && r == t
  {
    var x, y := "/" + (a + r), "/" + (b + t);
    assert a + r == x[1..] && b + t == y[1..];
    assert |a| + |r| == |b| + |t|;
    NotShorter(a, r, b, t);
    NotShorter(b, t, a, r);
    assert a == (a + r)[..|a|] && b == (b + t)[..|b|];
    assert r == (a + r)[|a|..] && t == (b + t)[|b|..];
  }

  lemma NotShorter(a: string, r: string, b: string, t: string)
    requires a + r == b + t && '/' !in b && (r == "" || r[0] == '/')
    ensures |b| <= |a|
  {
    assert r != "" ==> (a + r)[|a|] == '/';
  }

  // From inode to inode: component i leads from ids[i] to ids[i + 1].
  ghost predicate Walked(fs: (nat, string) -> Lookup, start: nat, names: seq<string>, ids: seq<nat>) {
    && 1 <= |ids| <= |names| + 1 && ids[0] == start
    && forall i :: 0 <= i < |ids| - 1 ==>
         |names[i]| <= MAX_NODE_NAME_LENGTH && fs(ids[i], names[i]) == Inode(ids[i + 1])
  }

  // What ends a walk that got as far as the last of `ids`.
  ghost predicate Ended(fs: (nat, string) -> Lookup, names: seq<string>, ids: seq<nat>, end: Outcome)
    requires 1 <= |ids| <= |names| + 1
  {
    var k := |ids| - 1;
    match end
    case Reached(id) => k == |names| && id == ids[k]
    case Failed(code) =>
      && k < |names|
      && (if |names[k]| > MAX_NODE_NAME_LENGTH + 1 then code == -VFS_ERR_NAMETOOLONG
          else |names[k]| <= MAX_NODE_NAME_LENGTH && fs(ids[k], names[k]) == Missing(code))
    case Stopped => k < |names| && |names[k]| == MAX_NODE_NAME_LENGTH + 1
  }

  // The fold is the walk.
  lemma {:induction false} FoldWalks(fs: (nat, string) -> Lookup, start: nat, names: seq<string>)
    returns (ids: seq<nat>)
    ensures Walked(fs, start, names, ids) && Ended(fs, names, ids, Fold(fs, start, names))
    decreases |names|
  {
    ids := [start];
    if names != [] && |names[0]| <= MAX_NODE_NAME_LENGTH && fs(start, names[0]).Inode? {
      var rest := FoldWalks(fs, fs(start, names[0]).id, names[1..]);
      ids := [start] + rest;
      assert forall i :: 0 < i < |ids| ==> ids[i] == rest[i - 1];
      assert forall i :: 0 < i < |names| ==> names[i] == names[1..][i - 1];
    }
  }

  // ---------------------------------------------------------------- the cache as a map

  // Every cached dentry is what the filesystem would answer.
  ghost predicate Coherent(m: map<Key, Dentry>, fs: (nat, string) -> Lookup) {
    forall k <- m.Keys ::
      m[k].parent == k.parent && m[k].name == k.name && fs(k.parent.inode, k.name) == Inode(m[k].inode)
  }

  ghost predicate Extends(m: map<Key, Dentry>, m': map<Key, Dentry>) {
    forall k <- m.Keys :: k in m' && m'[k] == m[k]
  }

  // The dentry the cache alone leads to.
  ghost function CacheWalk(m: map<Key, Dentry>, cur: Dentry, names: seq<string>): Option<Dentry>
    decreases |names|
  {
    if names == [] then Some(cur)
    else if Key(cur, names[0]) in m then CacheWalk(m, m[Key(cur, names[0])], names[1..])
    else None
  }

  lemma {:induction false} CacheWalkGrows(m: map<Key, Dentry>, m': map<Key, Dentry>, cur: Dentry, names: seq<string>)
    requires Extends(m, m') && CacheWalk(m, cur, names).Some?
    ensures CacheWalk(m', cur, names) == CacheWalk(m, cur, names)
    decreases |names|
  {
    if names != [] { CacheWalkGrows(m, m', m[Key(cur, names[0])], names[1..]); }
  }

  lemma {:induction false} CacheWalkAppend(m: map<Key, Dentry>, cur: Dentry, names: seq<string>, name: string)
    requires CacheWalk(m, cur, names).Some? && Key(CacheWalk(m, cur, names).value, name) in m
    ensures CacheWalk(m, cur, names + [name]) == Some(m[Key(CacheWalk(m, cur, names).value, name)])
    decreases |names|
  {
    if names != [] {
      assert (names + [name])[0] == names[0] && (names + [name])[1..] == names[1..] + [name];
      CacheWalkAppend(m, m[Key(cur, names[0])], names[1..], name);
    } else {
      assert names + [name] == [name];
      assert CacheWalk(m, m[Key(cur, name)], []) == Some(m[Key(cur, name)]);
    }
  }

  class Vfs {
    const root: Dentry
    const fs: (nat, string) -> Lookup
    const dcache: FlatHashMap.FlatHashMap<Key, Dentry>

    constructor (root: Dentry, fs: (nat, string) -> Lookup, hash: Key -> nat)
      ensures Valid() && this.root == root && this.fs == fs && dcache.model == map[] && fresh(dcache)
      ensures fresh(dcache.entries)
    {
      this.root, this.fs := root, fs;
      dcache := new FlatHashMap.FlatHashMap(64, hash);
    }

    ghost predicate Valid()
      reads dcache, dcache.entries
    {
      dcache.Valid() && Coherent(dcache.model, fs)
    }

    // kfind_index_first_of_from
    method FindFirstFrom(path: string, offset: nat) returns (r: int)
      requires offset <= |path|
      ensures r == if FirstSlash(path, offset) == |path| then -1 else FirstSlash(path, offset)
    {
      var it := offset;
      while it == |path| || path[it] != '/'
        invariant offset <= it <= |path| && FirstSlash(path, offset) == FirstSlash(path, it)
        decreases |path| - it
      {
        if it == |path| {
          return -1;
        }
        it := it + 1;
      }
      return it;
    }

    // fetch_path_section; None when the name does not fit.
    method FetchSection(path: string, offset: nat) returns (name: Option<string>)
      requires offset < |path| && path[offset] == '/'
      ensures name == if |Sections(path, offset)[0]| > MAX_NODE_NAME_LENGTH + 1 then None
                      else Some(Sections(path, offset)[0])
    {
      var index := FindFirstFrom(path, offset + 1);
      if index < 0 {
        index := |path|;
      }
      var size := index - (offset + 1);
      if size > MAX_NODE_NAME_LENGTH + 1 {
        return None;
      }
      return Some(path[offset + 1..index]);
    }

    // path_lookup_step for one component
    method LookupStep(parent: Dentry, path: string, offset: nat, ghost done: seq<string>) returns (r: Walk)
      requires Valid() && offset < |path| && path[offset] == '/'
      requires CacheWalk(dcache.model, root, done) == Some(parent)
      modifies dcache, dcache.entries
      ensures Valid() && (dcache.entries == old(dcache.entries) || fresh(dcache.entries))
      ensures Extends(old(dcache.model), dcache.model)
      ensures r == Error(-VFS_ERR_NAMETOOLONG) <== |Sections(path, offset)[0]| > MAX_NODE_NAME_LENGTH + 1
      ensures r == Halted <== |Sections(path, offset)[0]| == MAX_NODE_NAME_LENGTH + 1
      ensures |Sections(path, offset)[0]| <= MAX_NODE_NAME_LENGTH ==>
        var name := Sections(path, offset)[0];
        match fs(parent.inode, name)
        case Missing(c) => r == Error(c)
        case Inode(id) =>
          r.Found? && r.entry.inode == id && CacheWalk(dcache.model, root, done + [name]) == Some(r.entry)
    {
      hide Coherent, Extends, CacheWalk, Sections, FirstSlash, FlatHashMap.Hidden, FlatHashMap.BagOf, FlatHashMap.Bag,
        FlatHashMap.Tombs, FlatHashMap.Reachable;
      ghost var m := dcache.model;
      ExtendsSelf(m);
      var fetched := FetchSection(path, offset);
      if fetched.None? {
        return Error(-VFS_ERR_NAMETOOLONG);
      }
      var name := fetched.value;
      // dir_entry_cache_lookup asserts the length
      if |name| > MAX_NODE_NAME_LENGTH {
        return Halted;
      }
      var key := Key(parent, name);
      var cached := dcache.Get(key);
      if cached.Some? {
        CacheWalkAppend(m, root, done, name);
        CoherentAt(m, fs, key);
        return Found(cached.value);
      }
      match fs(parent.inode, name) {
        case Missing(code) =>
          return Error(code);
        case Inode(id) =>
          var entry := new Dentry(parent, name, id);
          dcache.AbsentNotHidden(key);
          var inserted := dcache.Insert(key, entry, false);
          InsertCoherent(m, fs, key, entry);
          CacheWalkGrows(m, dcache.model, root, done);
          CacheWalkAppend(dcache.model, root, done, name);
          return Found(entry);
      }
    }

    // vfs_lookup_path, no mounts registered. `names` are the components of the path and
    // `ids` the inodes that the filesystem leads to.
    method LookupPath(path: string) returns (r: Walk, ghost names: seq<string>, ghost ids: seq<nat>)
      requires Valid()
      modifies dcache, dcache.entries
      ensures Valid() && (dcache.entries == old(dcache.entries) || fresh(dcache.entries))
      ensures Extends(old(dcache.model), dcache.model)
      ensures path == "" || path[0] != '/' ==> r == Error(-VFS_ERR_INVAL) && dcache.model == old(dcache.model)
      ensures path != "" && path[0] == '/' ==>
        && Components(path, names) && Walked(fs, root.inode, names, ids) && Ended(fs, names, ids, OutcomeOf(r))
        && OutcomeOf(r) == Fold(fs, root.inode, names)
        && (r.Found? ==> CacheWalk(dcache.model, root, names) == Some(r.entry))
    {
      hide Coherent, Extends, CacheWalk, Sections, FirstSlash, Fold, Walked, Ended;
      ExtendsSelf(dcache.model);
      CacheWalkNone(dcache.model, root);
      FoldNone(fs, root.inode);
      names, ids := [], [];
      if path == "" || path[0] != '/' {
        return Error(-VFS_ERR_INVAL), [], [];
      }
      if |path| == 1 {
        ids := FoldWalks(fs, root.inode, []);
        return Found(root), [], ids;
      }
      names := Sections(path, 0);
      SectionsRejoin(path, 0);
      ids := FoldWalks(fs, root.inode, names);
      r := WalkFrom(path);
    }

    // The loop of vfs_lookup_path.
    method WalkFrom(path: string) returns (r: Walk)
      requires Valid() && |path| > 1 && path[0] == '/'
      modifies dcache, dcache.entries
      ensures Valid() && (dcache.entries == old(dcache.entries) || fresh(dcache.entries))
      ensures Extends(old(dcache.model), dcache.model)
      ensures
        var names := Sections(path, 0);
        match r
        case Found(d) =>
          Fold(fs, root.inode, names) == Reached(d.inode) && CacheWalk(dcache.model, root, names) == Some(d)
        case Error(c) => Fold(fs, root.inode, names) == Failed(c)
        case Halted => Fold(fs, root.inode, names) == Stopped
    {
      hide Coherent, Extends, CacheWalk, Sections, FirstSlash, Fold;
      var offset, cur := 0, root;
      ghost var done: seq<string> := [];
      ExtendsSelf(dcache.model);
      CacheWalkNone(dcache.model, root);
      assert [] + Sections(path, 0) == Sections(path, 0);
      while true
        invariant offset < |path| && path[offset] == '/' && Sections(path, 0) == done + Sections(path, offset)
        invariant Valid() && (dcache.entries == old(dcache.entries) || fresh(dcache.entries))
        invariant Extends(old(dcache.model), dcache.model)
        invariant CacheWalk(dcache.model, root, done) == Some(cur)
        invariant Fold(fs, root.inode, Sections(path, 0)) == Fold(fs, cur.inode, Sections(path, offset))
        decreases |path| - offset
      {
        ghost var before := dcache.model;
        FoldStep(fs, cur.inode, path, offset);
        var child := LookupStep(cur, path, offset, done);
        ExtendsTransitive(old(dcache.model), before, dcache.model);
        if !child.Found? {
          return child;
        }
        cur := child.entry;
        var next := FindFirstFrom(path, offset + 1);
        Reassoc(done, Sections(path, offset)[0], if next < 0 then [] else Sections(path, next));
        done := done + [Sections(path, offset)[0]];
        if next < 0 {
          return Found(cur);
        }
        offset := next;
      }
    }

    // Looking a path up again gives the same dentry.
    method LookupTwice(path: string) returns (r: Walk, again: Walk)
      requires Valid() && path != "" && path[0] == '/'
      modifies dcache, dcache.entries
      ensures Valid() && again == r
    {
      hide Coherent, Extends, CacheWalk, Fold, Walked, Ended, Components;
      ghost var names, ids, names', ids';
      r, names, ids := LookupPath(path);
      ghost var m := dcache.model;
      again, names', ids' := LookupPath(path);
      ComponentsUnique(path, names, names');
      if r.Found? { CacheWalkGrows(m, dcache.model, root, names); }
    }
  }

  lemma ExtendsSelf(m: map<Key, Dentry>)
    ensures Extends(m, m)
  {
  }

  lemma ExtendsTransitive(a: map<Key, Dentry>, b: map<Key, Dentry>, c: map<Key, Dentry>)
    requires Extends(a, b) && Extends(b, c)
    ensures Extends(a, c)
  {
  }

  lemma CacheWalkNone(m: map<Key, Dentry>, cur: Dentry)
    ensures CacheWalk(m, cur, []) == Some(cur)
  {
  }

  lemma Reassoc(a: seq<string>, n: string, b: seq<string>)
    ensures a + ([n] + b) == (a + [n]) + b && a + ([n] + []) == a + [n]
  {
  }

  lemma FoldNone(fs: (nat, string) -> Lookup, inode: nat)
    ensures Fold(fs, inode, []) == Reached(inode)
  {
  }

  // One component of the fold, with the rest of the path as the code finds it.
  lemma FoldStep(fs: (nat, string) -> Lookup, inode: nat, path: string, offset: nat)
    requires offset < |path| && path[offset] == '/'
    ensures
      var names, next := Sections(path, offset), FirstSlash(path, offset + 1);
      && names == [names[0]] + (if next < |path| then Sections(path, next) else [])
      && (|names[0]| > MAX_NODE_NAME_LENGTH + 1 ==> Fold(fs, inode, names) == Failed(-VFS_ERR_NAMETOOLONG))
      && (|names[0]| == MAX_NODE_NAME_LENGTH + 1 ==> Fold(fs, inode, names) == Stopped)
      && (|names[0]| <= MAX_NODE_NAME_LENGTH ==>
            match fs(inode, names[0])
            case Missing(code) => Fold(fs, inode, names) == Failed(code)
            case Inode(id) =>
              Fold(fs, inode, names) == if next < |path| then Fold(fs, id, Sections(path, next)) else Reached(id))
      && offset < next
  {
    var names, next := Sections(path, offset), FirstSlash(path, offset + 1);
    assert names[1..] == if next < |path| then Sections(path, next) else [];
  }

  lemma CoherentAt(m: map<Key, Dentry>, fs: (nat, string) -> Lookup, key: Key)
    requires Coherent(m, fs) && key in m
    ensures fs(key.parent.inode, key.name) == Inode(m[key].inode)
  {
  }

  lemma InsertCoherent(m: map<Key, Dentry>, fs: (nat, string) -> Lookup, key: Key, entry: Dentry)
    requires Coherent(m, fs) && key !in m && entry.parent == key.parent && entry.name == key.name
    requires fs(key.parent.inode, key.name) == Inode(entry.inode)
    ensures Coherent(m[key := entry], fs) && Extends(m, m[key := entry])
  {
  }
}
