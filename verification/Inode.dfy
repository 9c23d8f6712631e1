/** The inode table that zipfuse builds from an archive listing: a tree stored in a flat vector. */
module Inode {
  import opened Results

  type Name = string
  type Path = seq<Name>

  datatype InodeKind = DirectoryKind | FileKind

  datatype DirectoryEntry = DirectoryEntry(inode: nat, kind: InodeKind)

  datatype InodeContent = Directory(entries: map<Name, DirectoryEntry>) | File(zipIndex: nat)

  datatype InodeData = InodeData(size: nat, mode: nat, data: InodeContent) {
    predicate IsDir() {
      data.Directory?
    }
  }

  /** One entry of the archive: `path` is `enclosed_name`, split into components. */
  datatype ZipEntry = ZipEntry(path: Option<Path>, isFile: bool, size: nat, mode: Option<nat>)

  /** `Panicked` stands for the failed `unwrap` of a lookup below a file. */
  datatype BuildError = InvalidName | ParentNotAllowed | Panicked

  const INVALID: nat := 0
  const ROOT: nat := 1
  const DEFAULT_DIR_MODE: nat := 0x140  // owner may read and search

  function NewDir(mode: nat): InodeData {
    InodeData(0, mode, Directory(map[]))
  }

  function NewFile(zipIndex: nat, entry: ZipEntry): InodeData {
    InodeData(entry.size, UnwrapOr(entry.mode, 0), File(zipIndex))
  }

  function UnwrapOr(o: Option<nat>, default: nat): nat {
    if o.Some? then o.value else default
  }

  function KindOf(data: InodeData): InodeKind {
    if data.IsDir() then DirectoryKind else FileKind
  }

  function Get(t: seq<InodeData>, inode: nat): Option<InodeData> {
    if inode == INVALID || inode >= |t| then None else Some(t[inode])
  }

  /** The inode of `name` in directory `parent`. */
  function Find(t: seq<InodeData>, parent: nat, name: Name): Option<nat>
    requires Get(t, parent).Some? && t[parent].IsDir()
  {
    var entries := t[parent].data.entries;
    if name in entries then Some(entries[name].inode) else None
  }

  /** The table after appending `data` and linking it into `parent` as `name`. */
  function Added(t: seq<InodeData>, parent: nat, name: Name, data: InodeData): seq<InodeData>
    requires Get(t, parent).Some? && t[parent].IsDir()
  {
    var entries := t[parent].data.entries[name := DirectoryEntry(|t|, KindOf(data))];
    t[parent := t[parent].(data := Directory(entries))] + [data]
  }

  /** Follows `path` from the root. */
  function Resolve(t: seq<InodeData>, path: Path): Option<nat>
    decreases |path|
  {
    if path == [] then Some(ROOT) else
    var parent := Resolve(t, Parent(path));
    if parent.Some? && Get(t, parent.value).Some? && t[parent.value].IsDir() then Find(t, parent.value, Last(path)) else None
  }

  function Parent(path: Path): Path
    requires path != []
  {
    path[..|path| - 1]
  }

  function Last(path: Path): Name
    requires path != []
  {
    path[|path| - 1]
  }

  // ---------- The table is a tree ----------

  /** Paths and inodes above `INVALID` correspond one to one; `at` inverts `paths`. */
  ghost predicate Indexed(t: seq<InodeData>, paths: seq<Path>, at: map<Path, nat>) {
    && |t| == |paths| >= 2
    && [] in at && at[[]] == ROOT
    && (forall p :: p in at ==> ROOT <= at[p] < |t| && paths[at[p]] == p)
    && (forall i :: ROOT <= i < |t| ==> paths[i] in at && at[paths[i]] == i)
    && |at| == |t| - 1
  }

  /** Directory `i` has an entry for `p`, which points to the inode of `p` and has its kind. */
  ghost predicate Links(t: seq<InodeData>, at: map<Path, nat>, i: nat, p: Path)
    requires p != []
  {
    && p in at && i < at[p] < |t|
    && t[i].IsDir() && Last(p) in t[i].data.entries
    && t[i].data.entries[Last(p)] == DirectoryEntry(at[p], KindOf(t[at[p]]))
  }

  /** Every inode above the root is linked from the directory of its parent path, which has a smaller
      number, and every entry of every directory is such a link. */
  ghost predicate Linked(t: seq<InodeData>, paths: seq<Path>, at: map<Path, nat>)
    requires Indexed(t, paths, at)
  {
    && (forall p {:trigger Parent(p)} :: p in at && p != [] ==> Parent(p) in at && Links(t, at, at[Parent(p)], p))
    && (forall i, name :: ROOT <= i < |t| && t[i].IsDir() && name in t[i].data.entries ==> Links(t, at, i, paths[i] + [name]))
  }

  ghost predicate IsTree(t: seq<InodeData>, paths: seq<Path>, at: map<Path, nat>) {
    && Indexed(t, paths, at)
    && Linked(t, paths, at)
    && t[INVALID] == NewDir(0) && t[ROOT].IsDir()
  }

  /** What sits at a path, leaving out inode numbers and modes. */
  datatype Node = DirNode | FileNode(zipIndex: nat, size: nat)

  function NodeOf(data: InodeData): Node {
    match data.data
    case Directory(_) => DirNode
    case File(i) => FileNode(i, data.size)
  }

  ghost function Nodes(t: seq<InodeData>, at: map<Path, nat>): map<Path, Node>
    requires forall p :: p in at ==> at[p] < |t|
  {
    map p | p in at :: NodeOf(t[at[p]])
  }

  /** The mode of what sits at a path. */
  ghost function Modes(t: seq<InodeData>, at: map<Path, nat>): map<Path, nat>
    requires forall p :: p in at ==> at[p] < |t|
  {
    map p | p in at :: t[at[p]].mode
  }

  lemma {:induction false} ModesAdded(t: seq<InodeData>, paths: seq<Path>, at: map<Path, nat>, parent: nat, name: Name, data: InodeData)
    requires Indexed(t, paths, at)
    requires ROOT <= parent < |t| && t[parent].IsDir()
    ensures var p := paths[parent] + [name];
            Modes(Added(t, parent, name, data), at[p := |t|]) == Modes(t, at)[p := data.mode]
  {
    var t' := Added(t, parent, name, data);
    assert forall i :: 0 <= i < |t| ==> t'[i].mode == t[i].mode;
  }

  lemma {:induction false} ModesKnown(t: seq<InodeData>, at: map<Path, nat>, p: Path)
    requires forall q :: q in at ==> at[q] < |t|
    ensures p in Modes(t, at) <==> p in at
  {
  }

  lemma {:induction false} ModesChanged(t: seq<InodeData>, paths: seq<Path>, at: map<Path, nat>, p: Path, mode: nat)
    requires IsTree(t, paths, at) && p in at
    ensures var i := at[p];
            Modes(t[i := t[i].(mode := mode)], at) == Modes(t, at)[p := mode]
  {
    assert forall q :: q in at && at[q] == at[p] ==> paths[at[q]] == q && paths[at[p]] == p;
  }

  lemma {:induction false} IndexedAdded(t: seq<InodeData>, paths: seq<Path>, at: map<Path, nat>, parent: nat, name: Name, data: InodeData)
    requires IsTree(t, paths, at)
    requires ROOT <= parent < |t| && t[parent].IsDir() && name !in t[parent].data.entries
    ensures var p := paths[parent] + [name];
            && p !in at && Indexed(Added(t, parent, name, data), paths + [p], at[p := |t|])
            && Nodes(Added(t, parent, name, data), at[p := |t|]) == Nodes(t, at)[p := NodeOf(data)]
  {
    var p := paths[parent] + [name];
    assert Parent(p) == paths[parent] && Last(p) == name;
    assert p in at ==> Links(t, at, at[Parent(p)], p);
    assert p !in at;
    IndexedUpdated(t, paths, at, parent, name, data);
  }

  lemma {:induction false} IndexedUpdated(t: seq<InodeData>, paths: seq<Path>, at: map<Path, nat>, parent: nat, name: Name, data: InodeData)
    requires Indexed(t, paths, at)
    requires ROOT <= parent < |t| && t[parent].IsDir()
    requires paths[parent] + [name] !in at
    ensures var p := paths[parent] + [name];
            && Indexed(Added(t, parent, name, data), paths + [p], at[p := |t|])
            && Nodes(Added(t, parent, name, data), at[p := |t|]) == Nodes(t, at)[p := NodeOf(data)]
  {
    var p := paths[parent] + [name];
    var t', at' := Added(t, parent, name, data), at[p := |t|];
    assert forall i :: 0 <= i < |t| ==> NodeOf(t'[i]) == NodeOf(t[i]);
    var l, r := Nodes(t', at'), Nodes(t, at)[p := NodeOf(data)];
    assert l.Keys == r.Keys;
    forall q | q in l
      ensures l[q] == r[q]
    {
    }
  }

  lemma {:induction false} LinksAdded(t: seq<InodeData>, paths: seq<Path>, at: map<Path, nat>, parent: nat, name: Name, data: InodeData, i: nat, q: Path)
    requires IsTree(t, paths, at)
    requires ROOT <= parent < |t| && t[parent].IsDir() && name !in t[parent].data.entries
    requires q != [] && Links(t, at, i, q)
    ensures var p := paths[parent] + [name];
            Links(Added(t, parent, name, data), at[p := |t|], i, q)
  {
    var p := paths[parent] + [name];
    IndexedAdded(t, paths, at, parent, name, data);
    var t' := Added(t, parent, name, data);
    assert KindOf(t'[at[q]]) == KindOf(t[at[q]]);
  }

  /** Adding a new file or empty directory to a directory keeps the table a tree. */
  lemma {:induction false} AddedIsTree(t: seq<InodeData>, paths: seq<Path>, at: map<Path, nat>, parent: nat, name: Name, data: InodeData)
    requires IsTree(t, paths, at)
    requires ROOT <= parent < |t| && t[parent].IsDir() && name !in t[parent].data.entries
    requires data.IsDir() ==> data.data.entries == map[]
    ensures var p := paths[parent] + [name];
            IsTree(Added(t, parent, name, data), paths + [p], at[p := |t|])
  {
    var p := paths[parent] + [name];
    var t', paths', at' := Added(t, parent, name, data), paths + [p], at[p := |t|];
    IndexedAdded(t, paths, at, parent, name, data);
    assert Parent(p) == paths[parent] && Last(p) == name;
    assert Links(t', at', parent, p);
    forall q | q in at' && q != []
      ensures Parent(q) in at' && Links(t', at', at'[Parent(q)], q)
    {
      if q != p {
        LinksAdded(t, paths, at, parent, name, data, at[Parent(q)], q);
        assert Parent(q) != p;
      }
    }
    forall i, n | ROOT <= i < |t'| && t'[i].IsDir() && n in t'[i].data.entries
      ensures Links(t', at', i, paths'[i] + [n])
    {
      if i < |t| && !(i == parent && n == name) {
        assert n in t[i].data.entries;
        LinksAdded(t, paths, at, parent, name, data, i, paths[i] + [n]);
      }
    }
  }

  /** What a lookup in the directory of the parent path says about a path. */
  lemma {:induction false} ChildOf(t: seq<InodeData>, paths: seq<Path>, at: map<Path, nat>, p: Path)
    requires IsTree(t, paths, at) && p != [] && Parent(p) in at
    ensures ROOT <= at[Parent(p)] < |t| == |paths| && paths[at[Parent(p)]] + [Last(p)] == p
    ensures Parent(p) in Nodes(t, at) && (Nodes(t, at)[Parent(p)] == DirNode <==> t[at[Parent(p)]].IsDir())
    ensures p in Nodes(t, at) <==> p in at
    ensures t[at[Parent(p)]].IsDir() ==>
              var found := Find(t, at[Parent(p)], Last(p));
              (p in at <==> found.Some?) && (p in at ==> found.value == at[p] && ROOT <= at[p] < |t|)
  {
    var i := at[Parent(p)];
    assert paths[i] + [Last(p)] == p;
    assert p in at ==> Links(t, at, i, p);
    assert t[i].IsDir() && Last(p) in t[i].data.entries ==> Links(t, at, i, paths[i] + [Last(p)]);
  }

  /** Following a path finds exactly the inode of that path. */
  lemma {:induction false} ResolveIsIndex(t: seq<InodeData>, paths: seq<Path>, at: map<Path, nat>, p: Path)
    requires IsTree(t, paths, at)
    ensures Resolve(t, p) == if p in at then Some(at[p]) else None
    decreases |p|
  {
    if p != [] {
      var q := Parent(p);
      ResolveIsIndex(t, paths, at, q);
      assert p in at ==> q in at && Links(t, at, at[q], p);
      if q in at {
        ChildOf(t, paths, at, p);
      }
    }
  }

  /** The root reaches every inode but the invalid one, and those are the ones that `get` knows. */
  lemma {:induction false} RootReachesAll(t: seq<InodeData>, paths: seq<Path>, at: map<Path, nat>, i: nat)
    requires IsTree(t, paths, at)
    ensures (exists p :: Resolve(t, p) == Some(i)) <==> i != INVALID && i < |t|
    ensures Get(t, i).Some? <==> exists p :: Resolve(t, p) == Some(i)
    ensures Get(t, i).Some? ==> i < |t| && Get(t, i).value == t[i]
  {
    if ROOT <= i < |t| {
      ResolveIsIndex(t, paths, at, paths[i]);
    }
    if p :| Resolve(t, p) == Some(i) {
      ResolveIsIndex(t, paths, at, p);
    }
  }

  /** What the directory above a path lists for it: the inode that the path resolves to, as a directory exactly if
      it is one. */
  lemma {:induction false} ListedAs(t: seq<InodeData>, paths: seq<Path>, at: map<Path, nat>, p: Path)
    requires IsTree(t, paths, at) && p != [] && Resolve(t, p).Some?
    ensures var d, i := Resolve(t, Parent(p)), Resolve(t, p).value;
            && d.Some? && ROOT <= d.value < i < |t| && Points(t, d.value, Last(p), i)
            && (t[d.value].data.entries[Last(p)].kind == DirectoryKind <==> t[i].IsDir())
  {
    ResolveIsIndex(t, paths, at, p);
    ResolveIsIndex(t, paths, at, Parent(p));
    assert Links(t, at, at[Parent(p)], p);
    assert ROOT < at[p];
    OneIncomingEntry(t, paths, at, at[p]);
  }

  /** Every inode above the root has exactly one incoming entry; it comes from a directory with a smaller
      number and has the kind of its target. */
  lemma {:induction false} OneIncomingEntry(t: seq<InodeData>, paths: seq<Path>, at: map<Path, nat>, i: nat)
    requires IsTree(t, paths, at) && ROOT < i < |t|
    ensures exists d, name :: ROOT <= d < i && Points(t, d, name, i)
    ensures forall d, name, d', name' :: 0 <= d < |t| && 0 <= d' < |t| && Points(t, d, name, i) && Points(t, d', name', i) ==>
              d == d' && name == name'
    ensures forall d, name :: 0 <= d < |t| && Points(t, d, name, i) ==>
              && (t[d].data.entries[name].kind == DirectoryKind <==> t[i].IsDir())
              && (t[d].data.entries[name].kind == FileKind <==> t[i].data.File?)
  {
    var p := paths[i];
    assert p != [] && Links(t, at, at[Parent(p)], p);
    assert Points(t, at[Parent(p)], Last(p), i);
    forall d, name | 0 <= d < |t| && Points(t, d, name, i)
      ensures d == at[Parent(p)] && name == Last(p)
    {
      assert d != INVALID;
      var q := paths[d] + [name];
      assert Links(t, at, d, q) && Last(q) == name && Parent(q) == paths[d];
    }
  }

  /** Entry `name` of directory `d` points to inode `i`. */
  predicate Points(t: seq<InodeData>, d: nat, name: Name, i: nat)
    requires d < |t|
  {
    t[d].IsDir() && name in t[d].data.entries && t[d].data.entries[name].inode == i
  }

  lemma {:induction false} LinksByData(t: seq<InodeData>, t': seq<InodeData>, at: map<Path, nat>, i: nat, p: Path)
    requires |t| == |t'| && forall j :: 0 <= j < |t| ==> t'[j].data == t[j].data
    requires p != [] && Links(t, at, i, p)
    ensures Links(t', at, i, p)
  {
  }

  /** Tables that differ in modes only are alike as trees. */
  lemma {:induction false} TreeByData(t: seq<InodeData>, t': seq<InodeData>, paths: seq<Path>, at: map<Path, nat>)
    requires IsTree(t, paths, at)
    requires |t| == |t'| && t[INVALID] == t'[INVALID] && forall j :: 0 <= j < |t| ==> t'[j].data == t[j].data
    ensures IsTree(t', paths, at)
  {
    hide Links;
    forall p | p in at && p != []
      ensures Parent(p) in at && Links(t', at, at[Parent(p)], p)
    {
      LinksByData(t, t', at, at[Parent(p)], p);
    }
    forall j, name | ROOT <= j < |t'| && t'[j].IsDir() && name in t'[j].data.entries
      ensures Links(t', at, j, paths[j] + [name])
    {
      LinksByData(t, t', at, j, paths[j] + [name]);
    }
  }

  /** Changing a mode changes neither links nor nodes. */
  lemma {:induction false} ModeKeepsTree(t: seq<InodeData>, paths: seq<Path>, at: map<Path, nat>, i: nat, mode: nat)
    requires IsTree(t, paths, at) && ROOT <= i < |t|
    ensures var t' := t[i := t[i].(mode := mode)];
            IsTree(t', paths, at) && Nodes(t', at) == Nodes(t, at)
  {
    var t' := t[i := t[i].(mode := mode)];
    TreeByData(t, t', paths, at);
    hide Linked;
    assert forall j :: 0 <= j < |t| ==> NodeOf(t'[j]) == NodeOf(t[j]);
  }

  // ---------- The path map the table refines ----------

  /** The map after the first `k` components of an entry's path: missing directories are created, the
      last component becomes `leaf` unless something is there already. */
  function WalkPath(m: map<Path, Node>, path: Path, leaf: Node, k: nat): Result<map<Path, Node>, BuildError>
    requires k <= |path|
    decreases k
  {
    if k == 0 then Ok(m) else
    var m' :- WalkPath(m, path, leaf, k - 1);
    if path[k - 1] == ".." then Err(ParentNotAllowed)
    else if path[..k - 1] !in m' || m'[path[..k - 1]] != DirNode then Err(Panicked)
    else if path[..k] in m' then Ok(m')
    else Ok(m'[path[..k] := if k == |path| then leaf else DirNode])
  }

  function LeafNode(i: nat, e: ZipEntry): Node {
    if e.isFile then FileNode(i, e.size) else DirNode
  }

  /** The map of a whole archive. */
  function PathMap(entries: seq<ZipEntry>): Result<map<Path, Node>, BuildError> {
    if entries == [] then Ok(map[[] := DirNode]) else
    var i := |entries| - 1;
    var m :- PathMap(entries[..i]);
    var e := entries[i];
    if e.path.None? then Err(InvalidName) else WalkPath(m, e.path.value, LeafNode(i, e), |e.path.value|)
  }

  /** The modes after component `k` of an entry's path: a new node gets one, and a directory entry resets that
      of its path. */
  function ModeStep(m: map<Path, nat>, path: Path, e: ZipEntry, k: nat): map<Path, nat>
    requires k < |path|
  {
    var p, isLeaf := path[..k + 1], k + 1 == |path|;
    if p in m then
      if isLeaf && !e.isFile then m[p := UnwrapOr(e.mode, 0)] else m
    else
      m[p := if isLeaf then UnwrapOr(e.mode, if e.isFile then 0 else DEFAULT_DIR_MODE) else DEFAULT_DIR_MODE]
  }

  function WalkModes(m: map<Path, nat>, path: Path, e: ZipEntry, k: nat): map<Path, nat>
    requires k <= |path|
  {
    if k == 0 then m else ModeStep(WalkModes(m, path, e, k - 1), path, e, k - 1)
  }

  /** The modes of a whole archive; the root has mode 0. */
  function ModeMap(entries: seq<ZipEntry>): map<Path, nat> {
    if entries == [] then map[[] := 0] else
    var i := |entries| - 1;
    var m, e := ModeMap(entries[..i]), entries[i];
    if e.path.None? then m else WalkModes(m, e.path.value, e, |e.path.value|)
  }

  lemma {:induction false} WalkPathStops(m: map<Path, Node>, path: Path, leaf: Node, k: nat, n: nat)
    requires k <= n <= |path| && WalkPath(m, path, leaf, k).Err?
    ensures WalkPath(m, path, leaf, n) == WalkPath(m, path, leaf, k)
    decreases n
  {
    if k < n {
      WalkPathStops(m, path, leaf, k, n - 1);
    }
  }

  lemma {:induction false} WalkStep(m: map<Path, Node>, path: Path, leaf: Node, k: nat, cur: map<Path, Node>)
    requires k < |path| && WalkPath(m, path, leaf, k) == Ok(cur)
    ensures WalkPath(m, path, leaf, k + 1)
         == if path[k] == ".." then Err(ParentNotAllowed)
            else if path[..k] !in cur || cur[path[..k]] != DirNode then Err(Panicked)
            else if path[..k + 1] in cur then Ok(cur)
            else Ok(cur[path[..k + 1] := if k + 1 == |path| then leaf else DirNode])
  {
  }

  class InodeTable {
    var table: seq<InodeData>
    ghost var paths: seq<Path>
    ghost var at: map<Path, nat>

    ghost predicate Valid()
      reads this
    {
      IsTree(table, paths, at)
    }

    ghost function NodeMap(): map<Path, Node>
      requires Valid()
      reads this
    {
      Nodes(table, at)
    }

    ghost function ModesByPath(): map<Path, nat>
      requires Valid()
      reads this
    {
      Modes(table, at)
    }

    /** The invalid inode and the root. */
    constructor ()
      ensures Valid() && |table| == 2 && NodeMap() == map[[] := DirNode] && ModesByPath() == map[[] := 0]
    {
      table := [NewDir(0), NewDir(0)];
      paths := [[], []];
      at := map[[] := ROOT];
      new;
      assert Nodes(table, at) == map[[] := DirNode] && Modes(table, at) == map[[] := 0];
    }

    method Put(data: InodeData) returns (inode: nat)
      modifies this`table
      ensures table == old(table) + [data] && inode == |old(table)|
    {
      inode := |table|;
      table := table + [data];
    }

    /** Adds `data` under a directory in which `name` is free. The result is again a tree, with one more
        path. */
    method Add(parent: nat, name: Name, data: InodeData) returns (inode: nat)
      requires Valid()
      requires ROOT <= parent < |table| && table[parent].IsDir() && Find(table, parent, name).None?
      requires data.IsDir() ==> data.data.entries == map[]
      modifies this
      ensures Valid() && inode == |old(table)|
      ensures var p := old(paths)[parent] + [name];
              && p !in old(at) && at == old(at)[p := inode]
              && NodeMap() == old(NodeMap())[p := NodeOf(data)]
              && ModesByPath() == old(ModesByPath())[p := data.mode]
      ensures parent < |table| && Points(table, parent, name, inode)
      ensures table[parent].data.entries[name].kind == DirectoryKind <==> data.IsDir()
    {
      ModesAdded(table, paths, at, parent, name, data);
      AddedIsTree(table, paths, at, parent, name, data);
      IndexedAdded(table, paths, at, parent, name, data);
      hide IsTree, Nodes, Modes;
      ghost var p := paths[parent] + [name];
      ghost var added := Added(table, parent, name, data);
      inode := Put(data);
      var entries := table[parent].data.entries[name := DirectoryEntry(inode, KindOf(data))];
      table := table[parent := table[parent].(data := Directory(entries))];
      assert table == added;
      paths, at := paths + [p], at[p := inode];
    }

    /** Adds one entry of the archive: the inner loop over the components of its path. The table is a tree
        afterwards, also if the entry is rejected halfway. */
    method AddEntry(i: nat, e: ZipEntry) returns (r: Result<(), BuildError>)
      requires Valid()
      modifies this
      ensures Valid()
      ensures e.path.None? ==> r == Err(InvalidName)
      ensures e.path.Some? ==>
                var walked := WalkPath(old(NodeMap()), e.path.value, LeafNode(i, e), |e.path.value|);
                if r.Ok? then walked == Ok(NodeMap()) else walked == Err(r.error)
      ensures r.Ok? ==> ModesByPath() == WalkModes(old(ModesByPath()), e.path.value, e, |e.path.value|)
    {
      if e.path.None? {
        return Err(InvalidName);
      }
      var path := e.path.value;
      ghost var m, leaf := NodeMap(), LeafNode(i, e);
      var parent, k := ROOT, 0;
      assert path[..0] == [];
      assert WalkPath(m, path, leaf, 0) == Ok(m);
      hide IsTree, Indexed, Linked, Nodes, Modes, WalkPath, ModeStep;
      while k < |path|
        invariant k <= |path| && Valid()
        invariant path[..k] in at && at[path[..k]] == parent
        invariant WalkPath(m, path, leaf, k) == Ok(NodeMap())
        invariant ModesByPath() == WalkModes(old(ModesByPath()), path, e, k)
      {
        r, parent := AddComponent(i, e, path, k, parent, m);
        if r.Err? {
          WalkPathStops(m, path, leaf, k + 1, |path|);
          return;
        }
        k := k + 1;
      }
      r := Ok(());
    }

    /** Sets the mode of the inode at `p`. */
    method SetMode(inode: nat, mode: nat, ghost p: Path)
      requires Valid() && p in at && at[p] == inode
      modifies this`table
      ensures Valid() && NodeMap() == old(NodeMap()) && ModesByPath() == old(ModesByPath())[p := mode]
    {
      ModesChanged(table, paths, at, p, mode);
      ModeKeepsTree(table, paths, at, inode, mode);
      table := table[inode := table[inode].(mode := mode)];
    }

    /** Body of the inner loop: component `k` of the path, below `parent`. */
    method AddComponent(i: nat, e: ZipEntry, path: Path, k: nat, parent: nat, ghost m: map<Path, Node>)
      returns (r: Result<(), BuildError>, child: nat)
      requires Valid() && e.path == Some(path) && k < |path|
      requires path[..k] in at && at[path[..k]] == parent
      requires WalkPath(m, path, LeafNode(i, e), k) == Ok(NodeMap())
      modifies this
      ensures Valid()
      ensures r.Ok? ==> path[..k + 1] in at && at[path[..k + 1]] == child
      ensures WalkPath(m, path, LeafNode(i, e), k + 1) == if r.Ok? then Ok(NodeMap()) else Err(r.error)
      ensures r.Ok? ==> ModesByPath() == ModeStep(old(ModesByPath()), path, e, k)
    {
      ghost var p, cur, leaf := path[..k + 1], NodeMap(), LeafNode(i, e);
      assert Parent(p) == path[..k] && Last(p) == path[k];
      ChildOf(table, paths, at, p);
      WalkStep(m, path, leaf, k, cur);
      ModesKnown(table, at, p);
      hide IsTree, Indexed, Linked, Nodes, Modes, WalkPath, LeafNode, Points, KindOf, Added;
      var name := path[k];
      child := parent;
      if name == ".." {
        return Err(ParentNotAllowed), child;
      }
      var isLeaf := k + 1 == |path|;
      var isFile := e.isFile && isLeaf;
      if !table[parent].IsDir() {
        return Err(Panicked), child;
      }
      var found := Find(table, parent, name);
      if found.Some? {
        child := found.value;
        if !isFile && isLeaf {
          SetMode(child, UnwrapOr(e.mode, 0), p);
        }
        return Ok(()), child;
      }
      var data :=
        if isFile then NewFile(i, e)
        else if isLeaf then NewDir(UnwrapOr(e.mode, DEFAULT_DIR_MODE))
        else NewDir(DEFAULT_DIR_MODE);
      child := Add(parent, name, data);
      assert NodeOf(data) == if isLeaf then leaf else DirNode;
      r := Ok(());
    }

    /** Builds the table of an archive: a tree whose paths and nodes are those of the path map, and an
        error exactly where the path map has that error. */
    static method FromZip(entries: seq<ZipEntry>) returns (r: Result<InodeTable, BuildError>)
      ensures r.Ok? ==> fresh(r.value) && r.value.Valid() && PathMap(entries) == Ok(r.value.NodeMap())
      ensures r.Ok? ==> r.value.ModesByPath() == ModeMap(entries)
      ensures r.Err? ==> PathMap(entries) == Err(r.error)
    {
      var t := new InodeTable();
      hide IsTree, Indexed, Linked, Nodes, Modes, WalkPath, WalkModes, LeafNode;
      for i := 0 to |entries|
        invariant fresh(t) && t.Valid()
        invariant PathMap(entries[..i]) == Ok(t.NodeMap()) && t.ModesByPath() == ModeMap(entries[..i])
      {
        assert entries[..i + 1][..i] == entries[..i];
        var added := t.AddEntry(i, entries[i]);
        if added.Err? {
          PathMapStops(entries, i + 1, |entries|);
          assert entries[..|entries|] == entries;
          return Err(added.error);
        }
      }
      assert entries[..|entries|] == entries;
      r := Ok(t);
    }
  }

  lemma {:induction false} PathMapStops(entries: seq<ZipEntry>, i: nat, n: nat)
    requires i <= n <= |entries| && PathMap(entries[..i]).Err?
    ensures PathMap(entries[..n]) == PathMap(entries[..i])
    decreases n
  {
    if i < n {
      PathMapStops(entries, i, n - 1);
      assert entries[..n][..n - 1] == entries[..n - 1];
    }
  }
}
