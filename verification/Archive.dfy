/** What the inode table of an archive means, in terms of the listing alone. */
module Archive {
  import opened Results
  import opened Inode

  /** The entry is at `p` or below it. */
  ghost predicate Mentions(e: ZipEntry, p: Path) {
    e.path.Some? && p <= e.path.value
  }

  ghost predicate Mentioned(entries: seq<ZipEntry>, p: Path) {
    exists i: nat :: i < |entries| && Mentions(entries[i], p)
  }

  ghost predicate FirstMention(entries: seq<ZipEntry>, p: Path, i: nat) {
    i < |entries| && Mentions(entries[i], p) && forall j: nat :: j < i ==> !Mentions(entries[j], p)
  }

  /** What entry `i`, which mentions `p`, puts there. */
  function NodeFrom(entries: seq<ZipEntry>, p: Path, i: nat): Node
    requires i < |entries|
  {
    if entries[i].path == Some(p) then LeafNode(i, entries[i]) else DirNode
  }

  /** Entry `j` passes through a path that an earlier entry made a file. */
  ghost predicate Blocked(entries: seq<ZipEntry>, j: nat)
    requires j < |entries| && entries[j].path.Some?
  {
    exists p, i: nat :: p != [] && p < entries[j].path.value && i < j && FirstMention(entries, p, i) && NodeFrom(entries, p, i) != DirNode
  }

  ghost predicate Acceptable(entries: seq<ZipEntry>, j: nat)
    requires j < |entries|
  {
    entries[j].path.Some? && ".." !in entries[j].path.value && !Blocked(entries, j)
  }

  // ---------- One entry ----------

  /** What the first `k` components of an entry's path do to one path: all that is added are their prefixes. */
  lemma {:induction false} WalkPathAt(m: map<Path, Node>, path: Path, leaf: Node, k: nat, p: Path)
    requires k <= |path| && WalkPath(m, path, leaf, k).Ok?
    ensures var m' := WalkPath(m, path, leaf, k).value;
            var touched := 1 <= |p| <= k && p == path[..|p|];
            && (p in m' <==> p in m || touched)
            && (p in m ==> m'[p] == m[p])
            && (p !in m && touched ==> m'[p] == if |p| == |path| then leaf else DirNode)
    decreases k
  {
    if k > 0 {
      WalkPathAt(m, path, leaf, k - 1, p);
      assert |path[..k]| == k;
    }
  }

  /** A path is walked to the end exactly if it has no `..` and none of its proper prefixes is a file. */
  lemma {:induction false} WalkPathOkIff(m: map<Path, Node>, path: Path, leaf: Node, k: nat)
    requires k <= |path| && [] in m && m[[]] == DirNode
    ensures WalkPath(m, path, leaf, k).Ok?
       <==> forall n :: 0 <= n < k ==> path[n] != ".." && (path[..n] in m ==> m[path[..n]] == DirNode)
    decreases k
  {
    if k > 0 {
      WalkPathOkIff(m, path, leaf, k - 1);
      if WalkPath(m, path, leaf, k - 1).Ok? {
        var m1 := WalkPath(m, path, leaf, k - 1).value;
        var q := path[..k - 1];
        WalkPathAt(m, path, leaf, k - 1, q);
        assert q in m1 && (q in m ==> m1[q] == m[q]) && (q !in m ==> m1[q] == DirNode) by {
          if k == 1 {
            assert q == [];
          }
        }
      }
    }
  }

  // ---------- The whole listing ----------

  /** The first entry that mentions a path decides what is there. */
  ghost predicate Decides(entries: seq<ZipEntry>, m: map<Path, Node>) {
    && [] in m && m[[]] == DirNode
    && (forall p :: p != [] ==> (p in m <==> Mentioned(entries, p)))
    && (forall p, i: nat :: p != [] && FirstMention(entries, p, i) ==> p in m && m[p] == NodeFrom(entries, p, i))
  }

  lemma {:induction false} FirstMentionExists(entries: seq<ZipEntry>, p: Path, i: nat) returns (k: nat)
    requires i < |entries| && Mentions(entries[i], p)
    ensures k <= i && FirstMention(entries, p, k)
    decreases i
  {
    if exists j: nat :: j < i && Mentions(entries[j], p) {
      var j: nat :| j < i && Mentions(entries[j], p);
      k := FirstMentionExists(entries, p, j);
    } else {
      k := i;
    }
  }

  lemma {:induction false} PrefixIsTake(p: Path, path: Path)
    ensures p <= path <==> |p| <= |path| && p == path[..|p|]
  {
  }

  /** A path is in the map after one more entry if it was before or the entry mentions it ... */
  lemma {:induction false} MentionedMore<T>(entries: seq<ZipEntry>, m: map<Path, T>, p: Path)
    requires entries != [] && p != []
    requires p in m <==> Mentioned(entries[..|entries| - 1], p)
    ensures (p in m || Mentions(entries[|entries| - 1], p)) <==> Mentioned(entries, p)
  {
    var i := |entries| - 1;
    var before := entries[..i];
    if p in m {
      var j: nat :| j < i && Mentions(before[j], p);
      assert Mentions(entries[j], p);
    }
    if j: nat :| j < |entries| && Mentions(entries[j], p) {
      if j < i {
        assert Mentions(before[j], p);
      }
    }
  }

  /** ... and holds what the first entry mentioning it put there. */
  lemma {:induction false} DecidedMore(entries: seq<ZipEntry>, m: map<Path, Node>, m': map<Path, Node>, p: Path, j: nat)
    requires entries != [] && Decides(entries[..|entries| - 1], m)
    requires var e := entries[|entries| - 1]; e.path.Some? && Extends(m, m', e.path.value, LeafNode(|entries| - 1, e))
    requires p != [] && FirstMention(entries, p, j)
    ensures p in m' && m'[p] == NodeFrom(entries, p, j)
  {
    var i := |entries| - 1;
    var before, e := entries[..i], entries[i];
    var path := e.path.value;
    if j < i {
      assert FirstMention(before, p, j);
    } else {
      assert forall k: nat :: k < |before| ==> before[k] == entries[k];
      assert !Mentioned(before, p);
      PrefixIsTake(p, path);
    }
  }

  /** `m'` is `m` with the prefixes of `path` that were missing. */
  ghost predicate Extends(m: map<Path, Node>, m': map<Path, Node>, path: Path, leaf: Node) {
    && (forall p :: p in m' <==> p in m || (p != [] && p <= path))
    && (forall p :: p in m ==> m'[p] == m[p])
    && (forall p :: p in m' && p !in m ==> m'[p] == if p == path then leaf else DirNode)
  }

  lemma {:induction false} WalkPathExtends(m: map<Path, Node>, path: Path, leaf: Node)
    requires WalkPath(m, path, leaf, |path|).Ok?
    ensures Extends(m, WalkPath(m, path, leaf, |path|).value, path, leaf)
  {
    var m' := WalkPath(m, path, leaf, |path|).value;
    forall p
      ensures p in m' <==> p in m || (p != [] && p <= path)
      ensures p in m ==> m'[p] == m[p]
      ensures p in m' && p !in m ==> m'[p] == if p == path then leaf else DirNode
    {
      WalkPathAt(m, path, leaf, |path|, p);
      PrefixIsTake(p, path);
      hide WalkPath;
      assert |p| == |path| && p <= path ==> p == path;
    }
  }

  /** One more entry. */
  lemma {:induction false} DecidesMore(entries: seq<ZipEntry>, m: map<Path, Node>, m': map<Path, Node>)
    requires entries != [] && Decides(entries[..|entries| - 1], m)
    requires var e := entries[|entries| - 1]; e.path.Some? && Extends(m, m', e.path.value, LeafNode(|entries| - 1, e))
    ensures Decides(entries, m')
  {
    forall p | p != []
      ensures p in m' <==> Mentioned(entries, p)
    {
      MentionedMore(entries, m, p);
    }
    forall p, j: nat | p != [] && FirstMention(entries, p, j)
      ensures p in m' && m'[p] == NodeFrom(entries, p, j)
    {
      DecidedMore(entries, m, m', p, j);
    }
  }

  /** Whenever the listing is accepted, every path holds what the first entry at or below it put there:
      that entry itself, or a directory on the way to it. */
  lemma {:induction false} PathMapDecides(entries: seq<ZipEntry>)
    requires PathMap(entries).Ok?
    ensures Decides(entries, PathMap(entries).value)
  {
    if entries != [] {
      var i := |entries| - 1;
      var m, e := PathMap(entries[..i]).value, entries[i];
      PathMapDecides(entries[..i]);
      WalkPathExtends(m, e.path.value, LeafNode(i, e));
      DecidesMore(entries, m, PathMap(entries).value);
    }
  }

  lemma {:induction false} AcceptedIffWalked(entries: seq<ZipEntry>, m: map<Path, Node>)
    requires entries != [] && Decides(entries[..|entries| - 1], m)
    requires entries[|entries| - 1].path.Some?
    ensures var e := entries[|entries| - 1];
            WalkPath(m, e.path.value, LeafNode(|entries| - 1, e), |e.path.value|).Ok? <==> Acceptable(entries, |entries| - 1)
  {
    var i := |entries| - 1;
    var path := entries[i].path.value;
    WalkPathOkIff(m, path, LeafNode(i, entries[i]), |path|);
    hide WalkPath, Blocked, Decides;
    BlockedIff(entries, m);
  }

  /** The last entry is blocked exactly if the map has a file at a proper prefix of it. */
  lemma {:induction false} BlockedIff(entries: seq<ZipEntry>, m: map<Path, Node>)
    requires entries != [] && Decides(entries[..|entries| - 1], m)
    requires entries[|entries| - 1].path.Some?
    ensures var path := entries[|entries| - 1].path.value;
            Blocked(entries, |entries| - 1) <==> exists n :: 0 <= n < |path| && path[..n] in m && m[path[..n]] != DirNode
  {
    var i := |entries| - 1;
    var before, path := entries[..i], entries[i].path.value;
    assert forall k: nat :: k < i ==> before[k] == entries[k];
    if Blocked(entries, i) {
      var p, j: nat :| p != [] && p < path && j < i && FirstMention(entries, p, j) && NodeFrom(entries, p, j) != DirNode;
      assert FirstMention(before, p, j);
      PrefixIsTake(p, path);
      assert path[..|p|] in m && m[path[..|p|]] != DirNode;
    }
    if n :| 0 <= n < |path| && path[..n] in m && m[path[..n]] != DirNode {
      var p := path[..n];
      assert p != [] && p < path;
      var k: nat :| k < |before| && Mentions(before[k], p);
      var j := FirstMentionExists(before, p, k);
      assert FirstMention(entries, p, j);
    }
  }

  /** An archive is accepted exactly if every name is valid, no path has a `..` component, and no entry
      passes through a path that an earlier entry made a file. */
  lemma {:induction false} AcceptedIff(entries: seq<ZipEntry>)
    ensures PathMap(entries).Ok? <==> forall j :: 0 <= j < |entries| ==> Acceptable(entries, j)
  {
    if entries != [] {
      var i := |entries| - 1;
      var before := entries[..i];
      AcceptedIff(before);
      forall j | 0 <= j < i
        ensures Acceptable(before, j) <==> Acceptable(entries, j)
      {
        AcceptablePrefix(entries, i, j);
      }
      if PathMap(before).Ok? && entries[i].path.Some? {
        PathMapDecides(before);
        AcceptedIffWalked(entries, PathMap(before).value);
      }
      assert PathMap(entries).Ok? <==> PathMap(before).Ok? && Acceptable(entries, i);
    }
  }

  lemma {:induction false} AcceptablePrefix(entries: seq<ZipEntry>, n: nat, j: nat)
    requires j < n <= |entries|
    ensures Acceptable(entries[..n], j) <==> Acceptable(entries, j)
  {
    var before := entries[..n];
    assert before[j] == entries[j];
    assert forall k: nat :: k < n ==> before[k] == entries[k];
    forall p: Path, i: nat | i < j
      ensures FirstMention(before, p, i) <==> FirstMention(entries, p, i)
      ensures NodeFrom(before, p, i) == NodeFrom(entries, p, i)
    {
    }
  }

  // ---------- The table ----------

  /** Distinct non-empty prefixes of the paths in the listing. */
  ghost function Prefixes(entries: seq<ZipEntry>): set<Path> {
    set i, n | 0 <= i < |entries| && entries[i].path.Some? && 1 <= n <= |entries[i].path.value| :: entries[i].path.value[..n]
  }

  lemma {:induction false} PrefixesAreMentioned(entries: seq<ZipEntry>, p: Path)
    ensures p in Prefixes(entries) <==> p != [] && Mentioned(entries, p)
  {
    if p != [] && Mentioned(entries, p) {
      var i: nat :| i < |entries| && Mentions(entries[i], p);
      PrefixIsTake(p, entries[i].path.value);
      assert p == entries[i].path.value[..|p|];
    }
    if p in Prefixes(entries) {
      var i, n :| 0 <= i < |entries| && entries[i].path.Some? && 1 <= n <= |entries[i].path.value| && p == entries[i].path.value[..n];
      assert Mentions(entries[i], p);
    }
  }

  /** A table built from a listing has one inode per distinct prefix, besides the invalid one and the
      root. */
  lemma {:induction false} TableLength(entries: seq<ZipEntry>, t: seq<InodeData>, paths: seq<Path>, at: map<Path, nat>)
    requires IsTree(t, paths, at) && PathMap(entries) == Ok(Nodes(t, at))
    ensures |t| == 2 + |Prefixes(entries)|
  {
    hide PathMap, Linked, Prefixes;
    PathMapDecides(entries);
    PathsOfMap(entries, Nodes(t, at));
    assert at.Keys == Nodes(t, at).Keys;
    PrefixesAreMentioned(entries, []);
  }

  lemma {:induction false} PathsOfMap(entries: seq<ZipEntry>, m: map<Path, Node>)
    requires Decides(entries, m)
    ensures m.Keys == Prefixes(entries) + {[]}
  {
    hide Prefixes;
    forall p
      ensures p in m.Keys <==> p == [] || p in Prefixes(entries)
    {
      PrefixesAreMentioned(entries, p);
    }
  }

  /** Resolving a path in a table built from a listing: the first entry at or below the path decides, the
      root is a directory, and nothing else is found. */
  lemma {:induction false} TableRefinesListing(entries: seq<ZipEntry>, t: seq<InodeData>, paths: seq<Path>, at: map<Path, nat>, p: Path)
    requires IsTree(t, paths, at) && PathMap(entries) == Ok(Nodes(t, at))
    ensures Resolve(t, p).Some? ==> ROOT <= Resolve(t, p).value < |t|
    ensures Resolve(t, p).Some? <==> p == [] || Mentioned(entries, p)
    ensures p == [] ==> NodeOf(t[Resolve(t, p).value]) == DirNode
    ensures forall i: nat :: p != [] && FirstMention(entries, p, i) ==>
              Resolve(t, p).Some? && NodeOf(t[Resolve(t, p).value]) == NodeFrom(entries, p, i)
  {
    ResolveIsIndex(t, paths, at, p);
    PathMapDecides(entries);
    assert p in at <==> p in Nodes(t, at);
  }

  // ---------- Archives without conflicts ----------

  ghost predicate FileAt(entries: seq<ZipEntry>, p: Path, i: nat) {
    i < |entries| && entries[i].path == Some(p) && entries[i].isFile
  }

  /** The path is a directory entry, or a proper prefix of an entry. */
  ghost predicate DirAt(entries: seq<ZipEntry>, p: Path) {
    exists i: nat :: i < |entries| && Mentions(entries[i], p) && !FileAt(entries, p, i)
  }

  ghost predicate FirstFile(entries: seq<ZipEntry>, p: Path, i: nat) {
    FileAt(entries, p, i) && forall j: nat :: j < i ==> !FileAt(entries, p, j)
  }

  /** All names are valid, there is no `..`, and no path is both a file and a directory. */
  ghost predicate Clean(entries: seq<ZipEntry>) {
    && (forall j :: 0 <= j < |entries| ==> entries[j].path.Some? && ".." !in entries[j].path.value)
    && (forall p: Path, i: nat :: p != [] && FileAt(entries, p, i) ==> !DirAt(entries, p))
  }

  lemma {:induction false} CleanIsAccepted(entries: seq<ZipEntry>)
    requires Clean(entries)
    ensures PathMap(entries).Ok?
  {
    forall j | 0 <= j < |entries|
      ensures Acceptable(entries, j)
    {
      forall p: Path, i: nat | p != [] && p < entries[j].path.value && i < j && FirstMention(entries, p, i)
        ensures NodeFrom(entries, p, i) == DirNode
      {
        assert Mentions(entries[j], p) && !FileAt(entries, p, j);
        assert DirAt(entries, p);
        assert !FileAt(entries, p, i);
      }
    }
    AcceptedIff(entries);
  }

  /** For a clean archive, resolving a non-empty path yields a file with zip index `i` exactly if entry `i`
      is the first file entry at that path, and a directory exactly if the path is a directory entry
      or a proper prefix of an entry. */
  lemma {:induction false} CleanTable(entries: seq<ZipEntry>, t: seq<InodeData>, paths: seq<Path>, at: map<Path, nat>, p: Path)
    requires Clean(entries) && IsTree(t, paths, at) && PathMap(entries) == Ok(Nodes(t, at)) && p != []
    ensures Resolve(t, p).Some? ==> Resolve(t, p).value < |t|
    ensures forall i: nat :: (Resolve(t, p).Some? && t[Resolve(t, p).value].data == File(i)) <==> FirstFile(entries, p, i)
    ensures (Resolve(t, p).Some? && t[Resolve(t, p).value].IsDir()) <==> DirAt(entries, p)
  {
    TableRefinesListing(entries, t, paths, at, p);
    if Mentioned(entries, p) {
      var k: nat :| k < |entries| && Mentions(entries[k], p);
      var first := FirstMentionExists(entries, p, k);
      var node := NodeFrom(entries, p, first);
      assert NodeOf(t[Resolve(t, p).value]) == node;
      if FileAt(entries, p, first) {
        assert !DirAt(entries, p);
        assert FirstFile(entries, p, first);
      } else {
        assert DirAt(entries, p);
      }
    }
  }

  /** How a path of a clean archive is listed in the directory above it: as a directory exactly if it is a directory
      entry or a proper prefix of one, else as a file. */
  lemma {:induction false} ListedKind(entries: seq<ZipEntry>, t: seq<InodeData>, paths: seq<Path>, at: map<Path, nat>, p: Path)
    requires Clean(entries) && IsTree(t, paths, at) && PathMap(entries) == Ok(Nodes(t, at)) && p != []
    requires Mentioned(entries, p)
    ensures var d, i := Resolve(t, Parent(p)), Resolve(t, p);
            && d.Some? && i.Some? && d.value < |t| && Points(t, d.value, Last(p), i.value)
            && (t[d.value].data.entries[Last(p)].kind == DirectoryKind <==> DirAt(entries, p))
            && (t[d.value].data.entries[Last(p)].kind == FileKind <==> exists k :: FirstFile(entries, p, k))
  {
    hide IsTree, Nodes, Resolve, PathMap, DirAt, Clean, FirstFile;
    TableRefinesListing(entries, t, paths, at, p);
    ListedAs(t, paths, at, p);
    CleanTable(entries, t, paths, at, p);
    var data := t[Resolve(t, p).value].data;
    assert data.File? ==> data == File(data.zipIndex);
  }

  /** The (path, is-file) pairs of a listing, without order and repetition. */
  ghost function Pairs(entries: seq<ZipEntry>): set<(Option<Path>, bool)> {
    set i | 0 <= i < |entries| :: (entries[i].path, entries[i].isFile)
  }

  lemma {:induction false} PairsDecide(a: seq<ZipEntry>, b: seq<ZipEntry>, p: Path)
    requires Pairs(a) == Pairs(b)
    ensures DirAt(a, p) ==> DirAt(b, p)
    ensures (exists i :: FileAt(a, p, i)) ==> exists i :: FileAt(b, p, i)
  {
    if DirAt(a, p) {
      var i: nat :| i < |a| && Mentions(a[i], p) && !FileAt(a, p, i);
      assert (a[i].path, a[i].isFile) in Pairs(b);
      var j :| 0 <= j < |b| && (b[j].path, b[j].isFile) == (a[i].path, a[i].isFile);
      assert Mentions(b[j], p) && !FileAt(b, p, j);
    }
    if i: nat :| FileAt(a, p, i) {
      assert (a[i].path, a[i].isFile) in Pairs(b);
      var j :| 0 <= j < |b| && (b[j].path, b[j].isFile) == (a[i].path, a[i].isFile);
      assert FileAt(b, p, j);
    }
  }

  /** Having no conflicts depends on the (path, is-file) pairs alone. */
  lemma {:induction false} CleanByPairs(a: seq<ZipEntry>, b: seq<ZipEntry>)
    requires Clean(a) && Pairs(a) == Pairs(b)
    ensures Clean(b)
  {
    forall j | 0 <= j < |b|
      ensures b[j].path.Some? && ".." !in b[j].path.value
    {
      assert (b[j].path, b[j].isFile) in Pairs(a);
    }
    forall p: Path, j: nat | p != [] && FileAt(b, p, j)
      ensures !DirAt(b, p)
    {
      PairsDecide(a, b, p);
      PairsDecide(b, a, p);
      var i: nat :| FileAt(a, p, i);
    }
  }

  /** Order and repetition of entries do not matter: if a listing has no conflicts, then any listing with the same
      (path, is-file) pairs has none either, both are accepted, and every path resolves in both tables to
      the same kind of thing, or in neither. */
  lemma {:induction false} OrderIrrelevant(a: seq<ZipEntry>, t: seq<InodeData>, paths: seq<Path>, at: map<Path, nat>,
                        b: seq<ZipEntry>, t': seq<InodeData>, paths': seq<Path>, at': map<Path, nat>, p: Path)
    requires Clean(a) && Pairs(a) == Pairs(b)
    requires IsTree(t, paths, at) && PathMap(a) == Ok(Nodes(t, at))
    requires IsTree(t', paths', at') && PathMap(b) == Ok(Nodes(t', at'))
    ensures Clean(b)
    ensures Resolve(t, p).Some? <==> Resolve(t', p).Some?
    ensures Resolve(t, p).Some? ==>
              && Resolve(t, p).value < |t| && Resolve(t', p).value < |t'|
              && (t[Resolve(t, p).value].IsDir() <==> t'[Resolve(t', p).value].IsDir())
  {
    CleanByPairs(a, b);
    hide *;
    KindInTable(a, t, paths, at, p);
    KindInTable(b, t', paths', at', p);
    PairsDecide(a, b, p);
    PairsDecide(b, a, p);
    MentionedByPairs(a, b, p);
    MentionedByPairs(b, a, p);
  }

  /** What is at a path of a table without conflicts. */
  lemma {:induction false} KindInTable(a: seq<ZipEntry>, t: seq<InodeData>, paths: seq<Path>, at: map<Path, nat>, p: Path)
    requires Clean(a) && IsTree(t, paths, at) && PathMap(a) == Ok(Nodes(t, at))
    ensures Resolve(t, p).Some? <==> p == [] || Mentioned(a, p)
    ensures Resolve(t, p).Some? ==>
              Resolve(t, p).value < |t| && (t[Resolve(t, p).value].IsDir() <==> p == [] || DirAt(a, p))
  {
    TableRefinesListing(a, t, paths, at, p);
    if p != [] {
      CleanTable(a, t, paths, at, p);
    }
  }

  lemma {:induction false} MentionedByPairs(a: seq<ZipEntry>, b: seq<ZipEntry>, p: Path)
    requires Pairs(a) == Pairs(b)
    ensures Mentioned(a, p) ==> Mentioned(b, p)
  {
    if Mentioned(a, p) {
      var i: nat :| i < |a| && Mentions(a[i], p);
      assert (a[i].path, a[i].isFile) in Pairs(b);
      var j :| 0 <= j < |b| && (b[j].path, b[j].isFile) == (a[i].path, a[i].isFile);
      assert Mentions(b[j], p);
    }
  }

  /** The entries of a listing, without order and repetition. */
  ghost function Entries(entries: seq<ZipEntry>): set<ZipEntry> {
    set i | 0 <= i < |entries| :: entries[i]
  }

  /** In a reordering of a listing without conflicts, a path with a file entry resolves to that same entry: the zip
      indices found in the two tables are those of one entry, provided that all file entries for the
      path are alike. */
  lemma {:induction false} SameEntry(a: seq<ZipEntry>, t: seq<InodeData>, paths: seq<Path>, at: map<Path, nat>,
                  b: seq<ZipEntry>, t': seq<InodeData>, paths': seq<Path>, at': map<Path, nat>, p: Path, e: ZipEntry)
    returns (i: nat, j: nat)
    requires Clean(a) && Entries(a) == Entries(b) && p != []
    requires e in a && e.path == Some(p) && e.isFile
    requires forall k: nat :: FileAt(a, p, k) ==> a[k] == e
    requires IsTree(t, paths, at) && PathMap(a) == Ok(Nodes(t, at))
    requires IsTree(t', paths', at') && PathMap(b) == Ok(Nodes(t', at'))
    ensures i < |a| && j < |b| && a[i] == e == b[j]
    ensures Resolve(t, p).Some? && Resolve(t, p).value < |t| && NodeOf(t[Resolve(t, p).value]) == FileNode(i, e.size)
    ensures Resolve(t', p).Some? && Resolve(t', p).value < |t'| && NodeOf(t'[Resolve(t', p).value]) == FileNode(j, e.size)
  {
    assert Pairs(a) == Pairs(b) by {
      EntriesGivePairs(a, b);
      EntriesGivePairs(b, a);
    }
    CleanByPairs(a, b);
    forall k: nat | FileAt(b, p, k)
      ensures b[k] == e
    {
      assert b[k] in Entries(a);
      var n :| 0 <= n < |a| && a[n] == b[k];
      assert FileAt(a, p, n);
    }
    assert e in b by {
      assert e in Entries(a);
    }
    i := FileFound(a, t, paths, at, p, e);
    j := FileFound(b, t', paths', at', p, e);
  }

  lemma {:induction false} EntriesGivePairs(a: seq<ZipEntry>, b: seq<ZipEntry>)
    requires Entries(a) == Entries(b)
    ensures Pairs(a) <= Pairs(b)
  {
    forall i | 0 <= i < |a|
      ensures (a[i].path, a[i].isFile) in Pairs(b)
    {
      assert a[i] in Entries(b);
    }
  }

  /** A table without conflicts holds, at the path of a file entry, the first of the file entries there. */
  lemma {:induction false} FileFound(a: seq<ZipEntry>, t: seq<InodeData>, paths: seq<Path>, at: map<Path, nat>, p: Path, e: ZipEntry) returns (i: nat)
    requires Clean(a) && p != [] && e in a && e.path == Some(p) && e.isFile
    requires forall k: nat :: FileAt(a, p, k) ==> a[k] == e
    requires IsTree(t, paths, at) && PathMap(a) == Ok(Nodes(t, at))
    ensures i < |a| && a[i] == e
    ensures Resolve(t, p).Some? && Resolve(t, p).value < |t| && NodeOf(t[Resolve(t, p).value]) == FileNode(i, e.size)
  {
    var k: nat :| k < |a| && a[k] == e;
    assert FileAt(a, p, k) && Mentions(a[k], p);
    i := FirstMentionExists(a, p, k);
    TableRefinesListing(a, t, paths, at, p);
    hide IsTree, Nodes, Resolve, PathMap;
    assert FileAt(a, p, i) || DirAt(a, p);
  }

  // ---------- Modes ----------

  ghost predicate DirEntryAt(entries: seq<ZipEntry>, p: Path, i: nat) {
    i < |entries| && entries[i].path == Some(p) && !entries[i].isFile
  }

  ghost predicate LastDirEntry(entries: seq<ZipEntry>, p: Path, i: nat) {
    DirEntryAt(entries, p, i) && forall j: nat :: i < j ==> !DirEntryAt(entries, p, j)
  }

  /** The mode at `p`, from the listing alone: that of the last directory entry for `p`, where a missing mode is
      the default in the first entry to mention `p` and 0 in a later one; without a directory entry,
      that of the file entry that put the file there, or the default for a directory on the way. */
  ghost predicate ModeIs(entries: seq<ZipEntry>, p: Path, mode: nat) {
    && (forall i: nat :: LastDirEntry(entries, p, i) ==>
          match entries[i].mode
          case Some(m) => mode == m
          case None => mode == if FirstMention(entries, p, i) then DEFAULT_DIR_MODE else 0)
    && (forall i: nat :: FirstMention(entries, p, i) && (forall j: nat :: !DirEntryAt(entries, p, j)) ==>
          if entries[i].path != Some(p) then mode == DEFAULT_DIR_MODE
          else match entries[i].mode
               case Some(m) => mode == m
               case None => mode == 0)
  }

  /** What the first `k` components of an entry's path do to the mode of one path. */
  lemma {:induction false} WalkModesAt(m: map<Path, nat>, path: Path, e: ZipEntry, k: nat, p: Path)
    requires k <= |path| && p != []
    ensures var m' := WalkModes(m, path, e, k);
            var touched := |p| <= k && p == path[..|p|];
            && (p in m' <==> p in m || touched)
            && (p in m' && !touched ==> m'[p] == m[p])
            && (p in m && touched ==> m'[p] == if p == path && !e.isFile then UnwrapOr(e.mode, 0) else m[p])
            && (p !in m && touched ==>
                  m'[p] == if p == path then UnwrapOr(e.mode, if e.isFile then 0 else DEFAULT_DIR_MODE) else DEFAULT_DIR_MODE)
    decreases k
  {
    if k > 0 {
      WalkModesAt(m, path, e, k - 1, p);
      assert |path[..k]| == k && path[..|path|] == path;
    }
  }

  lemma {:induction false} EarlierEntries(entries: seq<ZipEntry>, p: Path, j: nat)
    requires entries != []
    ensures var i := |entries| - 1;
            && (DirEntryAt(entries[..i], p, j) <==> j < i && DirEntryAt(entries, p, j))
            && (FirstMention(entries[..i], p, j) <==> j < i && FirstMention(entries, p, j))
  {
    var i := |entries| - 1;
    assert forall k: nat :: k < i ==> entries[..i][k] == entries[k];
  }

  lemma {:induction false} LastDirEntryKept(entries: seq<ZipEntry>, p: Path, j: nat)
    requires entries != [] && !DirEntryAt(entries, p, |entries| - 1) && LastDirEntry(entries, p, j)
    ensures j < |entries| - 1 && LastDirEntry(entries[..|entries| - 1], p, j)
  {
    var before := entries[..|entries| - 1];
    EarlierEntries(entries, p, j);
    forall n: nat | j < n
      ensures !DirEntryAt(before, p, n)
    {
      EarlierEntries(entries, p, n);
    }
  }

  lemma {:induction false} FirstMentionKept(entries: seq<ZipEntry>, p: Path, j: nat)
    requires entries != [] && Mentioned(entries[..|entries| - 1], p)
    ensures FirstMention(entries, p, j) <==> FirstMention(entries[..|entries| - 1], p, j)
  {
    var before := entries[..|entries| - 1];
    EarlierEntries(entries, p, j);
    var k: nat :| k < |before| && Mentions(before[k], p);
    assert Mentions(entries[k], p);
  }

  /** The last entry leaves the mode of a path alone unless it is a directory entry for it ... */
  lemma {:induction false} ModeKept(entries: seq<ZipEntry>, p: Path, mode: nat)
    requires entries != [] && !DirEntryAt(entries, p, |entries| - 1)
    requires Mentioned(entries[..|entries| - 1], p) && ModeIs(entries[..|entries| - 1], p, mode)
    ensures ModeIs(entries, p, mode)
  {
    hide DirEntryAt, LastDirEntry, FirstMention, Mentioned;
    var before := entries[..|entries| - 1];
    forall j: nat
      ensures FirstMention(entries, p, j) <==> FirstMention(before, p, j)
      ensures LastDirEntry(entries, p, j) ==> j < |before| && LastDirEntry(before, p, j)
      ensures DirEntryAt(before, p, j) ==> DirEntryAt(entries, p, j)
    {
      FirstMentionKept(entries, p, j);
      EarlierEntries(entries, p, j);
      if LastDirEntry(entries, p, j) {
        LastDirEntryKept(entries, p, j);
      }
    }
    forall j: nat | FirstMention(entries, p, j)
      ensures j < |before|
    {
      MentionInside(before, p, j);
    }
  }

  lemma {:induction false} MentionInside(entries: seq<ZipEntry>, p: Path, i: nat)
    requires FirstMention(entries, p, i)
    ensures i < |entries|
  {
  }

  /** ... which resets it, or sets it if the path is new. */
  lemma {:induction false} ModeSet(entries: seq<ZipEntry>, p: Path)
    requires entries != []
    ensures var i := |entries| - 1;
            var known := Mentioned(entries[..i], p);
            && (DirEntryAt(entries, p, i) ==>
                  ModeIs(entries, p, UnwrapOr(entries[i].mode, if known then 0 else DEFAULT_DIR_MODE)))
            && (!known && Mentions(entries[i], p) && !DirEntryAt(entries, p, i) ==>
                  ModeIs(entries, p, if entries[i].path == Some(p) then UnwrapOr(entries[i].mode, 0) else DEFAULT_DIR_MODE))
  {
    var i := |entries| - 1;
    var before := entries[..i];
    assert forall k: nat :: k < i ==> before[k] == entries[k];
    if Mentioned(before, p) {
      var k: nat :| k < i && Mentions(before[k], p);
      assert Mentions(entries[k], p);
    } else {
      assert forall k: nat :: k < i ==> !Mentions(before[k], p);
      assert forall k: nat :: k < i ==> !Mentions(entries[k], p);
    }
  }

  /** One more entry. */
  lemma {:induction false} ModeMore(entries: seq<ZipEntry>, m: map<Path, nat>, p: Path)
    requires entries != [] && p != [] && entries[|entries| - 1].path.Some?
    requires p in m <==> Mentioned(entries[..|entries| - 1], p)
    requires p in m ==> ModeIs(entries[..|entries| - 1], p, m[p])
    ensures var e := entries[|entries| - 1];
            var m' := WalkModes(m, e.path.value, e, |e.path.value|);
            (p in m' <==> Mentioned(entries, p)) && (p in m' ==> ModeIs(entries, p, m'[p]))
  {
    hide WalkModes, ModeIs, Mentioned;
    var e := entries[|entries| - 1];
    WalkModesAt(m, e.path.value, e, |e.path.value|, p);
    PrefixIsTake(p, e.path.value);
    MentionedMore(entries, m, p);
    ModeSet(entries, p);
    if p in m && !DirEntryAt(entries, p, |entries| - 1) {
      ModeKept(entries, p, m[p]);
    }
  }

  /** The modes of every listing, accepted or not, up to its names being valid. */
  lemma {:induction false} ModeMapDecides(entries: seq<ZipEntry>, p: Path)
    requires p != [] && forall i :: 0 <= i < |entries| ==> entries[i].path.Some?
    ensures p in ModeMap(entries) <==> Mentioned(entries, p)
    ensures p in ModeMap(entries) ==> ModeIs(entries, p, ModeMap(entries)[p])
    decreases |entries|
  {
    if entries != [] {
      ModeMapDecides(entries[..|entries| - 1], p);
      ModeMore(entries, ModeMap(entries[..|entries| - 1]), p);
    }
  }

  /** The mode of what a path resolves to in a table built from a listing. */
  lemma {:induction false} TableModes(entries: seq<ZipEntry>, t: seq<InodeData>, paths: seq<Path>, at: map<Path, nat>, p: Path)
    requires IsTree(t, paths, at) && PathMap(entries) == Ok(Nodes(t, at)) && Modes(t, at) == ModeMap(entries)
    requires p != []
    ensures Resolve(t, p).Some? ==> Resolve(t, p).value < |t| && ModeIs(entries, p, t[Resolve(t, p).value].mode)
  {
    AcceptedIff(entries);
    forall i | 0 <= i < |entries|
      ensures entries[i].path.Some?
    {
      assert Acceptable(entries, i);
    }
    ModeMapDecides(entries, p);
    ResolveIsIndex(t, paths, at, p);
    assert p in at <==> p in Modes(t, at);
  }
}
