/**
 * The track selector's folder tree (workbench/components/TrackSelector.jsx):
 * `buildTree` files each slash-separated track name under the folder reached by
 * its directory components, creating folders on the way, and the selector shows
 * each track under a display name.
 *
 * The folder objects that `buildTree` creates and mutates are modelled as an arena:
 * a sequence of folder records, where a record's `folders` map sends each child
 * folder's name to the child's index and index 0 is the root. Creating a folder
 * appends a record; walking reassigns the current index, as the source reassigns
 * `node`.
 */
module TrackTree {
  import opened Wrappers
  import opened Text
  import opened TrackNames

  datatype Folder = Folder(folders: map<string, nat>, files: seq<string>)

  /** The directory components of a track: every `/` piece but the last. */
  function Dirs(track: string): (d: seq<string>)
    ensures forall k :: 0 <= k < |d| ==> '/' !in d[k]
  {
    var parts := Split(track, '/');
    parts[..|parts| - 1]
  }

  /** A name with no `/` has no directory components: it is filed at the root. */
  lemma {:induction false} RootIffNoSlash(track: string)
    ensures Dirs(track) == [] <==> '/' !in track
  {
    var parts := Split(track, '/');
    if '/' !in track {
      SplitNoSep(track, '/');
    } else if |parts| == 1 {
      JoinSplit(track, '/');
      assert false;
    }
  }

  /** A track's directories, followed by its last piece, joined by `/`, give back the name. */
  lemma DirsThenLast(track: string)
    ensures Join(Dirs(track) + [LastPiece(track, '/')], '/') == track
  {
    var parts := Split(track, '/');
    var d, l := Dirs(track), LastPiece(track, '/');
    assert d == parts[..|parts| - 1] && l == parts[|parts| - 1];
    assert d + [l] == parts;
    JoinSplit(track, '/');
  }

  /** The folder reached from node `n` by following the names in `path`, if any. */
  function Lookup(nodes: seq<Folder>, n: nat, path: seq<string>): Option<nat>
    decreases |path|
  {
    if path == [] then Some(n)
    else if n < |nodes| && path[0] in nodes[n].folders then Lookup(nodes, nodes[n].folders[path[0]], path[1..])
    else None
  }

  /** `path` names a folder the tree must hold: a non-empty prefix of some track's directories. */
  predicate IsFolderPath(tracks: seq<string>, path: seq<string>) {
    path != [] && exists j :: 0 <= j < |tracks| && path <= Dirs(tracks[j])
  }

  /** The tracks filed directly in the folder at `path`, in input order. */
  function FilesAt(tracks: seq<string>, path: seq<string>): seq<string>
    decreases |tracks|
  {
    if tracks == [] then []
    else
      var last := tracks[|tracks| - 1];
      FilesAt(tracks[..|tracks| - 1], path) + (if Dirs(last) == path then [last] else [])
  }

  /** The number of files across all folders. */
  function TotalFiles(nodes: seq<Folder>): nat
    decreases |nodes|
  {
    if nodes == [] then 0 else TotalFiles(nodes[..|nodes| - 1]) + |nodes[|nodes| - 1].files|
  }

  /** A folder holds exactly the tracks whose directories are its path. */
  lemma {:induction false} FilesAtMembers(tracks: seq<string>, path: seq<string>)
    ensures forall x :: x in FilesAt(tracks, path) <==> x in tracks && Dirs(x) == path
    decreases |tracks|
  {
    if tracks != [] {
      var init := tracks[..|tracks| - 1];
      FilesAtMembers(init, path);
      assert tracks == init + [tracks[|tracks| - 1]];
    }
  }

  /** The root holds exactly the tracks without a `/`. */
  lemma RootHoldsFlatTracks(tracks: seq<string>)
    ensures forall x :: x in FilesAt(tracks, []) <==> x in tracks && '/' !in x
  {
    FilesAtMembers(tracks, []);
    forall x | x in tracks ensures Dirs(x) == [] <==> '/' !in x {
      RootIffNoSlash(x);
    }
  }

  /** A non-root path holding files names a folder. */
  lemma FilesMakeFolder(tracks: seq<string>, path: seq<string>)
    ensures path != [] && FilesAt(tracks, path) != [] ==> IsFolderPath(tracks, path)
  {
    FilesAtMembers(tracks, path);
    if path != [] && FilesAt(tracks, path) != [] {
      var x := FilesAt(tracks, path)[0];
      assert x in tracks;
      var j :| 0 <= j < |tracks| && tracks[j] == x;
      assert path <= Dirs(tracks[j]);
    }
  }

  /** Files are counted per folder, so replacing one folder changes the total by the difference. */
  lemma {:induction false} TotalFilesUpdate(nodes: seq<Folder>, i: nat, f: Folder)
    requires i < |nodes|
    ensures TotalFiles(nodes[i := f]) + |nodes[i].files| == TotalFiles(nodes) + |f.files|
    decreases |nodes|
  {
    var last := |nodes| - 1;
    if i < last {
      TotalFilesUpdate(nodes[..last], i, f);
      assert nodes[i := f][..last] == nodes[..last][i := f];
    } else {
      assert nodes[i := f][..last] == nodes[..last];
    }
  }

  // ---------------------------------------------------------------------------
  // Shape of the arena during the build

  /** The child `k` of node `m` is a later node whose path extends `m`'s by `k`. */
  ghost predicate ChildOk(nodes: seq<Folder>, paths: seq<seq<string>>, m: nat, k: string)
    requires m < |nodes| == |paths| && k in nodes[m].folders
  {
    var c := nodes[m].folders[k];
    0 < c < |nodes| && paths[c] == paths[m] + [k]
  }

  /** Node `c` hangs under an earlier node whose path is `c`'s less its last name. */
  ghost predicate ParentOk(nodes: seq<Folder>, paths: seq<seq<string>>, parent: seq<nat>, c: nat)
    requires 0 < c < |nodes| == |paths| == |parent|
  {
    var p := parent[c];
    var path := paths[c];
    && p < c
    && |path| > 0
    && paths[p] == path[..|path| - 1]
    && path[|path| - 1] in nodes[p].folders
    && nodes[p].folders[path[|path| - 1]] == c
  }

  /** Node `m` sits at `paths[m]`; the arena is a tree rooted at 0 with one node per path. */
  ghost predicate Shaped(nodes: seq<Folder>, paths: seq<seq<string>>, parent: seq<nat>) {
    && |nodes| == |paths| == |parent| && |nodes| > 0 && paths[0] == []
    && (forall m, k :: 0 <= m < |nodes| && k in nodes[m].folders ==> ChildOk(nodes, paths, m, k))
    && (forall c :: 0 < c < |nodes| ==> ParentOk(nodes, paths, parent, c))
    && (forall a, b :: 0 <= a < b < |paths| ==> paths[a] != paths[b])
  }

  /** Every node holds the files of its path. */
  ghost predicate Stocked(nodes: seq<Folder>, paths: seq<seq<string>>, seen: seq<string>)
    requires |nodes| == |paths|
  {
    forall m :: 0 <= m < |nodes| ==> nodes[m].files == FilesAt(seen, paths[m])
  }

  /** Every folder path of the tracks seen has a node. */
  ghost predicate Covers(paths: seq<seq<string>>, seen: seq<string>) {
    forall path :: IsFolderPath(seen, path) ==> path in paths
  }

  /** Every node but the root is a folder path of the tracks seen. */
  ghost predicate OnlyFolders(paths: seq<seq<string>>, seen: seq<string>) {
    forall m :: 0 < m < |paths| ==> IsFolderPath(seen, paths[m])
  }

  /** The first `i` non-empty prefixes of `dirs` all have nodes. */
  ghost predicate PrefixesIn(dirs: seq<string>, i: nat, paths: seq<seq<string>>)
    requires i <= |dirs|
  {
    forall k :: 0 < k <= i ==> dirs[..k] in paths
  }

  /** Reaching the next prefix, in a list of paths that only grew, extends the coverage. */
  lemma PrefixesGrow(dirs: seq<string>, i: nat, paths: seq<seq<string>>, paths': seq<seq<string>>)
    requires i < |dirs| && PrefixesIn(dirs, i, paths) && paths <= paths' && dirs[..i + 1] in paths'
    ensures PrefixesIn(dirs, i + 1, paths')
  {
    forall k | 0 < k <= i + 1 ensures dirs[..k] in paths' {
      if k <= i {
        var a :| 0 <= a < |paths| && paths[a] == dirs[..k];
        assert paths'[a] == paths[a];
      }
    }
  }

  /** Coverage of prefixes survives adding paths. */
  lemma PrefixesKept(dirs: seq<string>, i: nat, paths: seq<seq<string>>, paths': seq<seq<string>>)
    requires i <= |dirs| && PrefixesIn(dirs, i, paths) && paths <= paths'
    ensures PrefixesIn(dirs, i, paths')
  {
    forall k | 0 < k <= i ensures dirs[..k] in paths' {
      var a :| 0 <= a < |paths| && paths[a] == dirs[..k];
      assert paths'[a] == paths[a];
    }
  }

  /** The arena after creating folder `k` under `node`. */
  function AddChild(nodes: seq<Folder>, node: nat, k: string): seq<Folder>
    requires node < |nodes|
  {
    (nodes + [Folder(map[], [])])[node := nodes[node].(folders := nodes[node].folders[k := |nodes|])]
  }

  /** In a shaped arena, a node whose path extends `node`'s by `k` is `node`'s child `k`. */
  lemma PathHasEdge(nodes: seq<Folder>, paths: seq<seq<string>>, parent: seq<nat>, node: nat, k: string, a: nat)
    requires Shaped(nodes, paths, parent) && node < |nodes| && a < |nodes| && paths[a] == paths[node] + [k]
    ensures k in nodes[node].folders && nodes[node].folders[k] == a
  {
    assert a != 0;
    assert ParentOk(nodes, paths, parent, a);
    assert paths[parent[a]] == paths[node];
  }

  /** Creating a missing child keeps the tree shape, under a path no node had. */
  lemma AddChildShaped(nodes: seq<Folder>, paths: seq<seq<string>>, parent: seq<nat>, node: nat, k: string)
    requires Shaped(nodes, paths, parent) && node < |nodes| && k !in nodes[node].folders
    ensures paths[node] + [k] !in paths
    ensures Shaped(AddChild(nodes, node, k), paths + [paths[node] + [k]], parent + [node])
  {
    var path := paths[node] + [k];
    if path in paths {
      var a :| 0 <= a < |paths| && paths[a] == path;
      PathHasEdge(nodes, paths, parent, node, k, a);
      assert false;
    }
    var nodes', paths', parent' := AddChild(nodes, node, k), paths + [path], parent + [node];
    forall m, k' | 0 <= m < |nodes'| && k' in nodes'[m].folders ensures ChildOk(nodes', paths', m, k') {
      if m == node && k' == k {
      } else {
        assert ChildOk(nodes, paths, m, k');
      }
    }
    forall c | 0 < c < |nodes'| ensures ParentOk(nodes', paths', parent', c) {
      if c < |nodes| {
        assert ParentOk(nodes, paths, parent, c);
      } else {
        assert paths'[c][..|paths'[c]| - 1] == paths[node];
      }
    }
  }

  /** Changing a node's files keeps the tree shape. */
  lemma FilesKeepShape(nodes: seq<Folder>, paths: seq<seq<string>>, parent: seq<nat>, node: nat, files: seq<string>)
    requires Shaped(nodes, paths, parent) && node < |nodes|
    ensures Shaped(nodes[node := nodes[node].(files := files)], paths, parent)
  {
    var nodes' := nodes[node := nodes[node].(files := files)];
    forall m, k | 0 <= m < |nodes'| && k in nodes'[m].folders ensures ChildOk(nodes', paths, m, k) {
      assert ChildOk(nodes, paths, m, k);
    }
    forall c | 0 < c < |nodes'| ensures ParentOk(nodes', paths, parent, c) {
      assert ParentOk(nodes, paths, parent, c);
    }
  }

  /** Following names from `n` lands on the node whose path extends `n`'s by them. */
  lemma {:induction false} LookupSound(nodes: seq<Folder>, paths: seq<seq<string>>, parent: seq<nat>, n: nat, path: seq<string>)
    requires Shaped(nodes, paths, parent) && n < |nodes|
    ensures Lookup(nodes, n, path).Some? ==>
      Lookup(nodes, n, path).value < |nodes| && paths[Lookup(nodes, n, path).value] == paths[n] + path
    decreases |path|
  {
    if path != [] && path[0] in nodes[n].folders {
      assert ChildOk(nodes, paths, n, path[0]);
      var c := nodes[n].folders[path[0]];
      LookupSound(nodes, paths, parent, c, path[1..]);
      assert paths[n] + [path[0]] + path[1..] == paths[n] + path;
    } else if path == [] {
      assert paths[n] + path == paths[n];
    }
  }

  /** Following a path in two stretches is following it at once. */
  lemma {:induction false} LookupAppend(nodes: seq<Folder>, n: nat, p: seq<string>, q: seq<string>)
    ensures Lookup(nodes, n, p + q) ==
      match Lookup(nodes, n, p) case None => None case Some(x) => Lookup(nodes, x, q)
    decreases |p|
  {
    if p == [] {
      assert p + q == q;
    } else {
      assert (p + q)[0] == p[0] && (p + q)[1..] == p[1..] + q;
      if n < |nodes| && p[0] in nodes[n].folders {
        LookupAppend(nodes, nodes[n].folders[p[0]], p[1..], q);
      }
    }
  }

  /** Every node is reached from the root by its own path. */
  lemma {:induction false} LookupReaches(nodes: seq<Folder>, paths: seq<seq<string>>, parent: seq<nat>, m: nat)
    requires Shaped(nodes, paths, parent) && m < |nodes|
    ensures Lookup(nodes, 0, paths[m]) == Some(m)
    decreases m
  {
    if m > 0 {
      assert ParentOk(nodes, paths, parent, m);
      var p := parent[m];
      var path := paths[m];
      LookupReaches(nodes, paths, parent, p);
      assert path == paths[p] + [path[|path| - 1]];
      LookupAppend(nodes, 0, paths[p], [path[|path| - 1]]);
    }
  }

  /** One more track: its folder prefixes join the folder paths. */
  lemma FolderPathGrows(tracks: seq<string>, t: nat, path: seq<string>)
    requires t < |tracks|
    ensures IsFolderPath(tracks[..t + 1], path) <==>
      IsFolderPath(tracks[..t], path) || (path != [] && path <= Dirs(tracks[t]))
  {
    var before, after := tracks[..t], tracks[..t + 1];
    if IsFolderPath(after, path) && !(path <= Dirs(tracks[t])) {
      var j :| 0 <= j < |after| && path <= Dirs(after[j]);
      assert j < t && after[j] == before[j];
    }
    if IsFolderPath(before, path) {
      var j :| 0 <= j < |before| && path <= Dirs(before[j]);
      assert after[j] == before[j];
    }
    if path != [] && path <= Dirs(tracks[t]) {
      assert after[t] == tracks[t];
    }
  }

  /** Filing one more track adds it to the folder of its directories only. */
  lemma FilesAtGrows(tracks: seq<string>, t: nat, path: seq<string>)
    requires t < |tracks|
    ensures FilesAt(tracks[..t + 1], path) ==
      FilesAt(tracks[..t], path) + (if Dirs(tracks[t]) == path then [tracks[t]] else [])
  {
    assert tracks[..t + 1][..t] == tracks[..t];
  }

  // ---------------------------------------------------------------------------
  // The build

  /** Creating a missing folder keeps the tree shape and the file count. */
  lemma FolderAddedShape(nodes: seq<Folder>, paths: seq<seq<string>>, parent: seq<nat>, node: nat, name: string)
    requires Shaped(nodes, paths, parent) && node < |nodes| && name !in nodes[node].folders
    ensures paths[node] + [name] !in paths
    ensures Shaped(AddChild(nodes, node, name), paths + [paths[node] + [name]], parent + [node])
    ensures TotalFiles(AddChild(nodes, node, name)) == TotalFiles(nodes)
  {
    AddChildShaped(nodes, paths, parent, node, name);
    var grown := nodes + [Folder(map[], [])];
    TotalFilesUpdate(grown, node, nodes[node].(folders := nodes[node].folders[name := |nodes|]));
    assert grown[..|nodes|] == nodes;
  }

  /** The folder created during the walk for track `t` holds no files yet and is a folder path. */
  lemma FolderAddedContents(tracks: seq<string>, t: nat, i: nat, nodes: seq<Folder>, paths: seq<seq<string>>, node: nat)
    requires t < |tracks| && i < |Dirs(tracks[t])|
    requires |nodes| == |paths| && node < |nodes|
    requires Stocked(nodes, paths, tracks[..t])
    requires Covers(paths, tracks[..t]) && OnlyFolders(paths, tracks[..t + 1])
    requires Dirs(tracks[t])[..i + 1] !in paths
    ensures var dirs := Dirs(tracks[t]);
      var nodes', paths' := AddChild(nodes, node, dirs[i]), paths + [dirs[..i + 1]];
      && Stocked(nodes', paths', tracks[..t])
      && Covers(paths', tracks[..t])
      && OnlyFolders(paths', tracks[..t + 1])
  {
    var dirs := Dirs(tracks[t]);
    var nodes', paths' := AddChild(nodes, node, dirs[i]), paths + [dirs[..i + 1]];
    FolderPathGrows(tracks, t, dirs[..i + 1]);
    FilesMakeFolder(tracks[..t], dirs[..i + 1]);
    forall m | 0 <= m < |nodes'| ensures nodes'[m].files == FilesAt(tracks[..t], paths'[m]) {
      if m < |nodes| {
        assert nodes'[m].files == nodes[m].files;
      }
    }
  }

  /** Filing track `t` in the folder its walk reached keeps the build's invariants for one more track. */
  lemma FileAdded(tracks: seq<string>, t: nat, nodes: seq<Folder>, paths: seq<seq<string>>, parent: seq<nat>, node: nat)
    requires t < |tracks|
    requires Shaped(nodes, paths, parent) && Stocked(nodes, paths, tracks[..t])
    requires Covers(paths, tracks[..t]) && OnlyFolders(paths, tracks[..t + 1])
    requires PrefixesIn(Dirs(tracks[t]), |Dirs(tracks[t])|, paths)
    requires node < |nodes| && paths[node] == Dirs(tracks[t])
    ensures var nodes' := nodes[node := nodes[node].(files := nodes[node].files + [tracks[t]])];
      && Shaped(nodes', paths, parent)
      && Stocked(nodes', paths, tracks[..t + 1])
      && Covers(paths, tracks[..t + 1])
      && TotalFiles(nodes') == TotalFiles(nodes) + 1
  {
    var track, dirs := tracks[t], Dirs(tracks[t]);
    var nodes' := nodes[node := nodes[node].(files := nodes[node].files + [track])];
    forall m | 0 <= m < |nodes'| ensures nodes'[m].files == FilesAt(tracks[..t + 1], paths[m]) {
      FilesAtGrows(tracks, t, paths[m]);
    }
    forall path | IsFolderPath(tracks[..t + 1], path) ensures path in paths {
      FolderPathGrows(tracks, t, path);
      if !IsFolderPath(tracks[..t], path) {
        assert path == dirs[..|path|];
      }
    }
    FilesKeepShape(nodes, paths, parent, node, nodes[node].files + [track]);
    TotalFilesUpdate(nodes, node, nodes[node].(files := nodes[node].files + [track]));
  }

  /** Once every track is filed, the invariants say what the finished tree is. */
  lemma Finished(tracks: seq<string>, nodes: seq<Folder>, paths: seq<seq<string>>, parent: seq<nat>)
    requires Shaped(nodes, paths, parent) && Stocked(nodes, paths, tracks)
    requires Covers(paths, tracks) && OnlyFolders(paths, tracks)
    ensures forall path :: Lookup(nodes, 0, path).Some? <==> path == [] || IsFolderPath(tracks, path)
    ensures forall path :: Lookup(nodes, 0, path).Some? ==>
      Lookup(nodes, 0, path).value < |nodes| && nodes[Lookup(nodes, 0, path).value].files == FilesAt(tracks, path)
    ensures forall p, q :: Lookup(nodes, 0, p).Some? && Lookup(nodes, 0, p) == Lookup(nodes, 0, q) ==> p == q
  {
    forall path ensures Lookup(nodes, 0, path).Some? ==>
      Lookup(nodes, 0, path).value < |nodes| && paths[Lookup(nodes, 0, path).value] == path
    {
      LookupSound(nodes, paths, parent, 0, path);
    }
    forall path | path == [] || IsFolderPath(tracks, path) ensures Lookup(nodes, 0, path).Some? {
      if path != [] {
        var m :| 0 <= m < |paths| && paths[m] == path;
        LookupReaches(nodes, paths, parent, m);
      }
    }
  }

  /**
   * `buildTree(tracks)`: for each track, walk from the root through its directory
   * components, creating each missing folder, and append the track to the files of
   * the folder reached.
   *
   * The root's `folders` reach exactly the folder paths of the input, each path its
   * own folder; every folder holds, in input order, exactly the tracks whose
   * directories are its path (so a track without `/` is filed at the root), and
   * the tree holds as many files as there are tracks.
   */
  method BuildTree(tracks: seq<string>) returns (nodes: seq<Folder>)
    ensures forall path :: Lookup(nodes, 0, path).Some? <==> path == [] || IsFolderPath(tracks, path)
    ensures forall path :: Lookup(nodes, 0, path).Some? ==>
      Lookup(nodes, 0, path).value < |nodes| && nodes[Lookup(nodes, 0, path).value].files == FilesAt(tracks, path)
    ensures forall p, q :: Lookup(nodes, 0, p).Some? && Lookup(nodes, 0, p) == Lookup(nodes, 0, q) ==> p == q
    ensures TotalFiles(nodes) == |tracks|
  {
    nodes := [Folder(map[], [])];
    ghost var paths: seq<seq<string>> := [[]];
    ghost var parent: seq<nat> := [0];
    for t := 0 to |tracks|
      invariant Building(tracks, t, nodes, paths, parent)
    {
      var track := tracks[t];
      WalkBegins(tracks, t, nodes, paths, parent);
      var node;
      nodes, node, paths, parent := Walk(tracks, t, nodes, paths, parent);
      FileAdded(tracks, t, nodes, paths, parent, node);
      nodes := nodes[node := nodes[node].(files := nodes[node].files + [track])];
    }
    assert tracks[..|tracks|] == tracks;
    Finished(tracks, nodes, paths, parent);
  }

  /**
   * The inner loop of `buildTree` for track `t`: from the root, through each
   * directory component, creating the folder when it is missing.
   */
  method Walk(tracks: seq<string>, t: nat, nodes0: seq<Folder>, ghost paths0: seq<seq<string>>, ghost parent0: seq<nat>)
    returns (nodes: seq<Folder>, node: nat, ghost paths: seq<seq<string>>, ghost parent: seq<nat>)
    requires Walking(tracks, t, nodes0, paths0, parent0)
    ensures Walking(tracks, t, nodes, paths, parent)
    ensures PrefixesIn(Dirs(tracks[t]), |Dirs(tracks[t])|, paths)
    ensures node < |nodes| && paths[node] == Dirs(tracks[t])
    ensures Closed(nodes0) && (nodes, node) == DescendOwn(nodes0, 0, Dirs(tracks[t]))
  {
    nodes, paths, parent := nodes0, paths0, parent0;
    var dirs := Dirs(tracks[t]);
    node := 0;
    ShapedClosed(nodes, paths, parent);
    assert dirs[0..] == dirs;
    for i := 0 to |dirs|
      invariant Walking(tracks, t, nodes, paths, parent)
      invariant PrefixesIn(dirs, i, paths)
      invariant node < |nodes| && paths[node] == dirs[..i]
      invariant Closed(nodes) && DescendOwn(nodes, node, dirs[i..]) == DescendOwn(nodes0, 0, dirs)
    {
      var name := dirs[i];
      DescendOwnStep(nodes, node, dirs, i);
      if name !in nodes[node].folders {
        FolderCreated(tracks, t, i, nodes, paths, parent, node);
        nodes := AddChild(nodes, node, name);
        paths := paths + [dirs[..i + 1]];
        parent := parent + [node];
      }
      Descended(tracks, t, i, nodes, paths, parent, node);
      node := nodes[node].folders[name];
      ShapedClosed(nodes, paths, parent);
    }
    assert dirs[..|dirs|] == dirs;
    assert dirs[|dirs|..] == [];
  }

  /** The invariant of the build after `t` tracks: the arena is exact for them. */
  ghost predicate Building(tracks: seq<string>, t: nat, nodes: seq<Folder>, paths: seq<seq<string>>, parent: seq<nat>) {
    && t <= |tracks|
    && Shaped(nodes, paths, parent) && Stocked(nodes, paths, tracks[..t])
    && Covers(paths, tracks[..t]) && OnlyFolders(paths, tracks[..t]) && TotalFiles(nodes) == t
  }

  /** The next track only adds folder paths, so the walk for it starts from a valid arena. */
  lemma WalkBegins(tracks: seq<string>, t: nat, nodes: seq<Folder>, paths: seq<seq<string>>, parent: seq<nat>)
    requires Building(tracks, t, nodes, paths, parent) && t < |tracks|
    ensures Walking(tracks, t, nodes, paths, parent)
  {
    forall m | 0 < m < |paths| ensures IsFolderPath(tracks[..t + 1], paths[m]) {
      FolderPathGrows(tracks, t, paths[m]);
    }
  }

  /** The invariant of the walk for track `t`: the arena is exact for the tracks before it. */
  ghost predicate Walking(tracks: seq<string>, t: nat, nodes: seq<Folder>, paths: seq<seq<string>>, parent: seq<nat>) {
    && t < |tracks|
    && Shaped(nodes, paths, parent) && Stocked(nodes, paths, tracks[..t])
    && Covers(paths, tracks[..t]) && OnlyFolders(paths, tracks[..t + 1]) && TotalFiles(nodes) == t
  }

  /** Creating the missing folder `dirs[i]` under the node at `dirs[..i]` keeps the walk's invariant. */
  lemma FolderCreated(tracks: seq<string>, t: nat, i: nat, nodes: seq<Folder>, paths: seq<seq<string>>, parent: seq<nat>, node: nat)
    requires Walking(tracks, t, nodes, paths, parent) && i < |Dirs(tracks[t])|
    requires PrefixesIn(Dirs(tracks[t]), i, paths)
    requires node < |nodes| && paths[node] == Dirs(tracks[t])[..i] && Dirs(tracks[t])[i] !in nodes[node].folders
    ensures var dirs := Dirs(tracks[t]);
      var paths' := paths + [dirs[..i + 1]];
      && Walking(tracks, t, AddChild(nodes, node, dirs[i]), paths', parent + [node])
      && PrefixesIn(dirs, i, paths')
  {
    var dirs := Dirs(tracks[t]);
    assert dirs[..i + 1] == paths[node] + [dirs[i]];
    FolderAddedShape(nodes, paths, parent, node, dirs[i]);
    FolderAddedContents(tracks, t, i, nodes, paths, node);
    PrefixesKept(dirs, i, paths, paths + [dirs[..i + 1]]);
  }

  /** Descending from the node at `dirs[..i]` into its child `dirs[i]` reaches `dirs[..i + 1]`. */
  lemma Descended(tracks: seq<string>, t: nat, i: nat, nodes: seq<Folder>, paths: seq<seq<string>>, parent: seq<nat>, node: nat)
    requires t < |tracks| && Shaped(nodes, paths, parent) && i < |Dirs(tracks[t])|
    requires PrefixesIn(Dirs(tracks[t]), i, paths)
    requires node < |nodes| && paths[node] == Dirs(tracks[t])[..i] && Dirs(tracks[t])[i] in nodes[node].folders
    ensures var dirs, child := Dirs(tracks[t]), nodes[node].folders[Dirs(tracks[t])[i]];
      && child < |nodes| && paths[child] == dirs[..i + 1]
      && PrefixesIn(dirs, i + 1, paths)
  {
    var dirs := Dirs(tracks[t]);
    assert ChildOk(nodes, paths, node, dirs[i]);
    assert dirs[..i + 1] == dirs[..i] + [dirs[i]];
    PrefixesGrow(dirs, i, paths, paths);
  }

  // ---------------------------------------------------------------------------
  // The walk as written

  /** The members every plain JavaScript object inherits from `Object.prototype`. */
  const InheritedKeys: set<string> := {
    "constructor", "__defineGetter__", "__defineSetter__", "hasOwnProperty",
    "__lookupGetter__", "__lookupSetter__", "isPrototypeOf", "propertyIsEnumerable",
    "toString", "valueOf", "__proto__", "toLocaleString"
  }

  datatype JsError = TypeError

  /** Child folder indices stay inside the arena. */
  predicate Closed(nodes: seq<Folder>) {
    forall m, k :: 0 <= m < |nodes| && k in nodes[m].folders ==> nodes[m].folders[k] < |nodes|
  }

  /**
   * The directory walk for one track as the source writes it. `node.folders[name]`
   * on a plain object also finds an inherited member: for a name in
   * `InheritedKeys` the walk moves onto that member (a function, or the prototype
   * itself), which has neither `folders` nor `files`, so the next step of the walk,
   * or the final `files.push`, throws.
   */
  function DescendAsWritten(nodes: seq<Folder>, node: nat, dirs: seq<string>): (r: Result<(seq<Folder>, nat), JsError>)
    requires Closed(nodes) && node < |nodes|
    ensures r.Success? ==> Closed(r.value.0) && r.value.1 < |r.value.0|
    decreases |dirs|
  {
    if dirs == [] then Success((nodes, node))
    else
      var name := dirs[0];
      if name in nodes[node].folders then DescendAsWritten(nodes, nodes[node].folders[name], dirs[1..])
      else if name in InheritedKeys then Failure(TypeError)
      else
        var nodes' := AddChild(nodes, node, name);
        DescendAsWritten(nodes', |nodes|, dirs[1..])
  }

  /** The walk as written fails only on a directory named like an inherited member. */
  lemma {:induction false} DescendAsWrittenFails(nodes: seq<Folder>, node: nat, dirs: seq<string>)
    requires Closed(nodes) && node < |nodes|
    ensures DescendAsWritten(nodes, node, dirs).Failure? ==> exists i :: 0 <= i < |dirs| && dirs[i] in InheritedKeys
    decreases |dirs|
  {
    if dirs != [] {
      var name := dirs[0];
      if name in nodes[node].folders {
        DescendAsWrittenFails(nodes, nodes[node].folders[name], dirs[1..]);
      } else if name !in InheritedKeys {
        DescendAsWrittenFails(AddChild(nodes, node, name), |nodes|, dirs[1..]);
      }
      if DescendAsWritten(nodes, node, dirs).Failure? && name !in InheritedKeys {
        var i :| 0 <= i < |dirs[1..]| && dirs[1..][i] in InheritedKeys;
        assert dirs[i + 1] in InheritedKeys;
      }
    }
  }

  /**
   * The directory walk with an own-key folder lookup, the evidently intended one:
   * an existing child is reused, a missing one created. `Walk` performs it.
   */
  function DescendOwn(nodes: seq<Folder>, node: nat, dirs: seq<string>): (r: (seq<Folder>, nat))
    requires Closed(nodes) && node < |nodes|
    ensures Closed(r.0) && r.1 < |r.0| && |nodes| <= |r.0|
    decreases |dirs|
  {
    if dirs == [] then (nodes, node)
    else
      var name := dirs[0];
      if name in nodes[node].folders then DescendOwn(nodes, nodes[node].folders[name], dirs[1..])
      else DescendOwn(AddChild(nodes, node, name), |nodes|, dirs[1..])
  }

  /** Away from inherited member names, the walk as written is the intended walk. */
  lemma {:induction false} AsWrittenAgreesOffInherited(nodes: seq<Folder>, node: nat, dirs: seq<string>)
    requires Closed(nodes) && node < |nodes|
    requires forall i :: 0 <= i < |dirs| ==> dirs[i] !in InheritedKeys
    ensures DescendAsWritten(nodes, node, dirs) == Success(DescendOwn(nodes, node, dirs))
    decreases |dirs|
  {
    if dirs != [] {
      var name := dirs[0];
      assert forall i :: 0 <= i < |dirs[1..]| ==> dirs[1..][i] == dirs[i + 1];
      if name in nodes[node].folders {
        AsWrittenAgreesOffInherited(nodes, nodes[node].folders[name], dirs[1..]);
      } else {
        AsWrittenAgreesOffInherited(AddChild(nodes, node, name), |nodes|, dirs[1..]);
      }
    }
  }

  /** One step of the intended walk, from position `i` of the directories. */
  lemma DescendOwnStep(nodes: seq<Folder>, node: nat, dirs: seq<string>, i: nat)
    requires Closed(nodes) && node < |nodes| && i < |dirs|
    ensures dirs[i] in nodes[node].folders ==>
      DescendOwn(nodes, node, dirs[i..]) == DescendOwn(nodes, nodes[node].folders[dirs[i]], dirs[i + 1..])
    ensures dirs[i] !in nodes[node].folders ==>
      DescendOwn(nodes, node, dirs[i..]) == DescendOwn(AddChild(nodes, node, dirs[i]), |nodes|, dirs[i + 1..])
  {
    assert dirs[i..][0] == dirs[i] && dirs[i..][1..] == dirs[i + 1..];
  }

  /** A shaped arena keeps its child indices inside it. */
  lemma ShapedClosed(nodes: seq<Folder>, paths: seq<seq<string>>, parent: seq<nat>)
    requires Shaped(nodes, paths, parent)
    ensures Closed(nodes)
  {
    forall m, k | 0 <= m < |nodes| && k in nodes[m].folders ensures nodes[m].folders[k] < |nodes| {
      assert ChildOk(nodes, paths, m, k);
    }
  }

  /**
   * The failing input: a track in a folder named `constructor`. The walk as written
   * throws on it, although the folder is one the tree should hold and `BuildTree`
   * files the track there.
   */
  lemma ConstructorFolderThrows(track: string)
    requires track == "constructor/a.strudel"
    ensures Dirs(track) == ["constructor"]
    ensures DescendAsWritten([Folder(map[], [])], 0, Dirs(track)) == Failure(TypeError)
    ensures IsFolderPath([track], ["constructor"])
  {
    ConstructorDirs(track);
    assert [track][0] == track;
    assert ["constructor"] <= Dirs([track][0]);
  }

  /** `constructor/a.strudel` has the one directory `constructor`. */
  lemma ConstructorDirs(track: string)
    requires track == "constructor/a.strudel"
    ensures Dirs(track) == ["constructor"]
  {
    var dir, file := "constructor", "a.strudel";
    assert track == dir + ['/'] + file;
    assert '/' !in dir && '/' !in file;
    SplitAround(dir, file, '/');
    SplitNoSep(file, '/');
  }

  // ---------------------------------------------------------------------------
  // Display names

  /** A track listed inside a folder: its last `/` piece without a trailing `.strudel`. */
  function NestedDisplayName(track: string): (d: string)
    ensures '/' !in d
    ensures EndsWith(LastPiece(track, '/'), Ext) ==> d + Ext == LastPiece(track, '/')
    ensures !EndsWith(LastPiece(track, '/'), Ext) ==> d == LastPiece(track, '/')
  {
    LastPieceSuffix(track, '/');
    StripSuffix(LastPiece(track, '/'), Ext)
  }

  /** A track at the root: the name without a trailing `.strudel`. */
  function RootDisplayName(track: string): (d: string)
    ensures EndsWith(track, Ext) ==> d + Ext == track
    ensures !EndsWith(track, Ext) ==> d == track
  {
    StripSuffix(track, Ext)
  }

  /** For a track with no `/` (the ones filed at the root) both rules agree. */
  lemma DisplayNamesAgreeAtRoot(track: string)
    requires '/' !in track
    ensures NestedDisplayName(track) == RootDisplayName(track)
  {
    SplitNoSep(track, '/');
  }

  /**
   * A nested track's display name is the base name the create route put in its
   * starter comment.
   */
  lemma DisplayNameIsBaseName(track: string)
    requires EndsWith(track, Ext) && LastPiece(track, '/') != Ext
    ensures NestedDisplayName(track) == BaseName(track)
  {
    BaseNameOfComponent(track);
    LastPieceSuffix(track, '/');
    var c := LastPiece(track, '/');
    assert EndsWith(c, Ext) by {
      assert c[|c| - |Ext|..] == (BaseName(track) + Ext)[|c| - |Ext|..];
    }
  }
}
