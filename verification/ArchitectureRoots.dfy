/**
 Which node of a level owns a file (tools/architecture-graph.ts, tools/architecture-diff.ts):
 the longest-prefix index, its pruning, and the directory walk it has to agree with.
 */
module ArchitectureRoots {
  import opened Wrappers
  import opened Paths

  type Node = string

  type Roots = map<Path, Node>

  /** The nearest of a path and its ancestors, down to `.`, that has an entry. */
  function Lookup(roots: Roots, p: Path): Option<Node>
    decreases |p|
  {
    if p in roots then Some(roots[p]) else if p == [] then None else Lookup(roots, Parent(p))
  }

  /** The deepest key over a path. */
  ghost predicate Deepest(roots: Roots, p: Path, key: Path) {
    key in roots && key <= p && forall q | q in roots && q <= p :: |q| <= |key|
  }

  lemma {:induction false} LookupDeepest(roots: Roots, p: Path)
    ensures Lookup(roots, p).Some? <==> exists q :: q in roots && q <= p
    ensures forall key :: Deepest(roots, p, key) ==> Lookup(roots, p) == Some(roots[key])
    decreases |p|
  {
    if p in roots {
      forall key | Deepest(roots, p, key) ensures key == p {
        assert p <= p;
      }
    } else if p == [] {
    } else {
      LookupDeepest(roots, Parent(p));
      forall q | q in roots && q <= p ensures q <= Parent(p) {
        assert q != p;
      }
      assert Parent(p) <= p;
    }
  }

  /** `roots` as `Object.entries` lists it. */
  ghost predicate Lists(entries: seq<(Path, Node)>, roots: Roots) {
    && (forall e | e in entries :: e.0 in roots && roots[e.0] == e.1)
    && forall p | p in roots :: (p, roots[p]) in entries
  }

  predicate Matches(prefix: string, file: string) {
    prefix == "." || Under(prefix, file)
  }

  lemma MatchesExactly(p: Path, file: Path)
    requires file != []
    ensures Matches(Text(p), Text(file)) <==> p <= file
  {
    if p != [] {
      NotDot(p);
      UnderExactly(p, file);
    }
  }

  /** The loop over all entries finds what the walk up the directories finds. */
  method NodeForFile(entries: seq<(Path, Node)>, file: Path) returns (best: Option<Node>)
    requires file != []
    ensures forall roots :: Lists(entries, roots) ==> best == Lookup(roots, file)
  {
    best := None;
    var bestLength := -1;
    ghost var key: Path := [];
    for i := 0 to |entries|
      invariant best.None? ==> bestLength == -1 && forall j | 0 <= j < i :: !(entries[j].0 <= file)
      invariant best.Some? ==> (key, best.value) in entries && key <= file && bestLength == Rank(key)
      invariant best.Some? ==> forall j | 0 <= j < i && entries[j].0 <= file :: |entries[j].0| <= |key|
    {
      var (prefix, node) := entries[i];
      var matches := Matches(Text(prefix), Text(file));
      var length := if Text(prefix) == "." then 0 else |Text(prefix)|;
      MatchesExactly(prefix, file);
      if prefix != [] { NotDot(prefix); }
      if matches && best.Some? { RankExactly(key, prefix, file); }
      if matches && length > bestLength {
        best := Some(node);
        bestLength := length;
        key := prefix;
      }
    }
    forall roots | Lists(entries, roots) ensures best == Lookup(roots, file) {
      LookupDeepest(roots, file);
      forall q | q in roots && q <= file ensures best.Some? && |q| <= |key| {
        var j :| 0 <= j < |entries| && entries[j] == (q, roots[q]);
        assert entries[j].0 <= file;
      }
      if best.Some? {
        assert Deepest(roots, file, key);
      }
    }
  }

  // ---- Pruning -----------------------------------------------------------------------

  /** What the nearest ancestor says. The workspace root is its own ancestor. */
  function Inherited(roots: Roots, p: Path): Option<Node> {
    Lookup(roots, Parent(p))
  }

  predicate Keeps(roots: Roots, p: Path) {
    p in roots && Inherited(roots, p) != Some(roots[p])
  }

  function Pruned(roots: Roots): Roots {
    map p | p in roots && Keeps(roots, p) :: roots[p]
  }

  method NearestAncestor(roots: Roots, path: Path) returns (node: Option<Node>)
    ensures node == Inherited(roots, path)
  {
    var ancestor := Parent(path);
    while ancestor != [] && ancestor !in roots
      invariant Lookup(roots, ancestor) == Inherited(roots, path)
      decreases |ancestor|
    {
      ancestor := Parent(ancestor);
    }
    node := if ancestor in roots then Some(roots[ancestor]) else None;
  }

  function PrunedFirst(entries: seq<(Path, Node)>, roots: Roots, n: nat): Roots
    requires n <= |entries|
  {
    if n == 0 then map[]
    else
      var (path, node) := entries[n - 1];
      var kept := PrunedFirst(entries, roots, n - 1);
      if Inherited(roots, path) != Some(node) then kept[path := node] else kept
  }

  predicate Seen(entries: seq<(Path, Node)>, n: nat, p: Path)
    requires n <= |entries|
  {
    n > 0 && (entries[n - 1].0 == p || Seen(entries, n - 1, p))
  }

  lemma {:induction false} SeenAt(entries: seq<(Path, Node)>, n: nat, i: nat)
    requires i < n <= |entries|
    ensures Seen(entries, n, entries[i].0)
  {
    if i < n - 1 { SeenAt(entries, n - 1, i); }
  }

  lemma {:induction false} PrunedFirstExactly(entries: seq<(Path, Node)>, roots: Roots, n: nat)
    requires n <= |entries| && forall e | e in entries :: e.0 in roots && roots[e.0] == e.1
    ensures forall p :: p in PrunedFirst(entries, roots, n) <==> Keeps(roots, p) && Seen(entries, n, p)
  {
    if n == 0 {
    } else {
      var (path, node) := entries[n - 1];
      PrunedFirstExactly(entries, roots, n - 1);
      assert entries[n - 1] in entries;
      assert Keeps(roots, path) <==> Inherited(roots, path) != Some(node);
    }
  }

  lemma {:induction false} PrunedFirstValues(entries: seq<(Path, Node)>, roots: Roots, n: nat)
    requires n <= |entries| && forall e | e in entries :: e.0 in roots && roots[e.0] == e.1
    ensures forall p | p in PrunedFirst(entries, roots, n) :: p in roots && PrunedFirst(entries, roots, n)[p] == roots[p]
  {
    if n > 0 {
      PrunedFirstValues(entries, roots, n - 1);
      assert entries[n - 1] in entries;
    }
  }

  method PruneRoots(entries: seq<(Path, Node)>, roots: Roots) returns (kept: Roots)
    requires Lists(entries, roots)
    ensures kept == Pruned(roots)
  {
    kept := map[];
    for i := 0 to |entries|
      invariant kept == PrunedFirst(entries, roots, i)
    {
      var (path, node) := entries[i];
      var inherited := NearestAncestor(roots, path);
      if inherited != Some(node) {
        kept := kept[path := node];
      }
    }
    PrunedAll(entries, roots);
  }

  lemma PrunedAll(entries: seq<(Path, Node)>, roots: Roots)
    requires Lists(entries, roots)
    ensures PrunedFirst(entries, roots, |entries|) == Pruned(roots)
  {
    PrunedFirstExactly(entries, roots, |entries|);
    PrunedFirstValues(entries, roots, |entries|);
    forall p | p in roots ensures Seen(entries, |entries|, p) {
      var i :| 0 <= i < |entries| && entries[i] == (p, roots[p]);
      SeenAt(entries, |entries|, i);
    }
  }

  /** Pruning never changes which node owns a path. */
  lemma {:induction false} PruningKeepsLookup(roots: Roots, p: Path)
    requires [] !in roots
    ensures Lookup(Pruned(roots), p) == Lookup(roots, p)
    decreases |p|
  {
    if p != [] {
      PruningKeepsLookup(roots, Parent(p));
    }
  }

  /** A pruned index has no entry that could be left out as well. */
  lemma PrunedIsMinimal(roots: Roots, p: Path)
    requires [] !in roots && p in Pruned(roots)
    ensures Lookup(Pruned(roots) - {p}, p) != Lookup(roots, p)
  {
    PruningKeepsLookup(roots, Parent(p));
    LookupElsewhere(Pruned(roots), p, Parent(p));
  }

  lemma {:induction false} LookupElsewhere(roots: Roots, gone: Path, p: Path)
    requires |p| < |gone|
    ensures Lookup(roots - {gone}, p) == Lookup(roots, p)
    decreases |p|
  {
    if p != [] {
      LookupElsewhere(roots, gone, Parent(p));
    }
  }

  lemma {:induction false} LongerThanAll(lengths: set<nat>) returns (n: nat)
    ensures forall k | k in lengths :: k < n
  {
    if lengths == {} {
      n := 1;
    } else {
      var k :| k in lengths;
      var m := LongerThanAll(lengths - {k});
      n := if k < m then m else k + 1;
      forall q | q in lengths ensures q < n {
        assert q == k || q in lengths - {k};
      }
    }
  }

  function Letters(n: nat): (s: Segment)
    requires n > 0
    ensures |s| == n
  {
    var s: string := seq(n, _ => 'a');
    assert s[0] == 'a';
    s
  }

  /** A `.` root is dropped as its own ancestor, and the files only it owned lose their node. */
  lemma DotRootIsLost(roots: Roots) returns (file: Path)
    requires [] in roots
    ensures |file| == 1 && Lookup(roots, file) == Some(roots[[]]) && Lookup(Pruned(roots), file) == None
  {
    var lengths := set p | p in roots && |p| == 1 :: |p[0]|;
    var n := LongerThanAll(lengths);
    var name := Letters(n + 1);
    file := [name];
    assert file in roots ==> |name| in lengths;
    assert Parent(file) == [];
  }

  /** Pruning is harmless exactly for the root maps without a `.` entry. */
  lemma PruningHarmlessExactly(roots: Roots)
    ensures (forall p: Path :: Lookup(Pruned(roots), p) == Lookup(roots, p)) <==> [] !in roots
  {
    if [] in roots {
      var file := DotRootIsLost(roots);
      assert Lookup(Pruned(roots), file) != Lookup(roots, file);
    } else {
      forall p: Path ensures Lookup(Pruned(roots), p) == Lookup(roots, p) {
        PruningKeepsLookup(roots, p);
      }
    }
  }

  // ---- Directories that hold a source file ----------------------------------------------

  /** A directory and those above it, short of the workspace. */
  function Upwards(p: Path): set<Path>
    decreases |p|
  {
    if p == [] then {} else {p} + Upwards(Parent(p))
  }

  lemma {:induction false} UpwardsExactly(p: Path)
    ensures forall d :: d in Upwards(p) <==> d != [] && d <= p
    decreases |p|
  {
    if p == [] {
    } else {
      UpwardsExactly(Parent(p));
      forall d ensures d in Upwards(p) <==> d != [] && d <= p {
        if d <= p && d != p { assert d <= Parent(p); }
      }
    }
  }

  ghost predicate UpwardClosed(directories: set<Path>) {
    forall d | d in directories :: Upwards(d) <= directories
  }

  lemma {:induction false} UpwardsClosed(p: Path)
    ensures UpwardClosed(Upwards(p))
    decreases |p|
  {
    if p == [] {
    } else {
      UpwardsClosed(Parent(p));
    }
  }

  /** Stops at the first directory already there: everything above it is there as well. */
  method AddDirectory(directories: set<Path>, lowest: Path) returns (more: set<Path>)
    requires UpwardClosed(directories)
    ensures more == directories + Upwards(lowest) && UpwardClosed(more)
  {
    more := directories;
    var directory := lowest;
    while directory != [] && directory !in more
      invariant more + Upwards(directory) == directories + Upwards(lowest)
      invariant forall d | d in more :: d in directories || |directory| < |d|
      invariant directories <= more
      decreases |directory|
    {
      more := more + {directory};
      directory := Parent(directory);
    }
    UpwardsClosed(lowest);
  }

  /** Some file lies in the directory, at any depth. */
  ghost predicate HoldsOne(directory: Path, files: seq<Path>) {
    exists file :: file in files && directory <= Parent(file)
  }

  lemma OneMoreFile(files: seq<Path>, i: nat)
    requires i < |files|
    ensures forall d :: HoldsOne(d, files[..i + 1]) <==> HoldsOne(d, files[..i]) || d <= Parent(files[i])
  {
    assert files[..i + 1] == files[..i] + [files[i]];
    forall d ensures HoldsOne(d, files[..i + 1]) <==> HoldsOne(d, files[..i]) || d <= Parent(files[i]) {
      if file :| file in files[..i] && d <= Parent(file) { assert file in files[..i + 1]; }
      assert files[i] in files[..i + 1];
    }
  }

  /** Exactly the directories, short of the workspace, that some file lies in. */
  method SourceDirectories(files: seq<Path>) returns (directories: set<Path>)
    ensures forall d :: d in directories <==> d != [] && HoldsOne(d, files)
  {
    directories := {};
    for i := 0 to |files|
      invariant UpwardClosed(directories)
      invariant forall d :: d in directories <==> d != [] && HoldsOne(d, files[..i])
    {
      directories := AddDirectory(directories, Parent(files[i]));
      UpwardsExactly(Parent(files[i]));
      OneMoreFile(files, i);
    }
    assert files[..|files|] == files;
  }

  // ---- The index of the folder modules -----------------------------------------------

  const ROOT_MODULE: Node := "root"

  function ModuleDirectory(modules: set<Path>, directory: Path): Option<Path>
    decreases |directory|
  {
    if directory == [] then None
    else if directory in modules then Some(directory)
    else ModuleDirectory(modules, Parent(directory))
  }

  /** The deepest module directory a file lies in, or `root`. */
  function ModuleOf(modules: set<Path>, file: Path): Node {
    match ModuleDirectory(modules, Parent(file))
    case Some(directory) => Text(directory)
    case None => ROOT_MODULE
  }

  method FindModule(modules: set<Path>, file: Path) returns (node: Node)
    ensures node == ModuleOf(modules, file)
  {
    var directory := Parent(file);
    while directory != []
      invariant ModuleDirectory(modules, directory) == ModuleDirectory(modules, Parent(file))
      decreases |directory|
    {
      if directory in modules { return Text(directory); }
      directory := Parent(directory);
    }
    node := ROOT_MODULE;
  }

  function UiNodes(modules: set<Path>, files: seq<Path>): set<Node> {
    set file | file in files :: ModuleOf(modules, file)
  }

  function SourceRootEntries(nodes: set<Node>, sourceRoots: seq<Path>): Roots {
    map p | p in sourceRoots && ROOT_MODULE in nodes :: ROOT_MODULE
  }

  function ModuleEntries(nodes: set<Node>, modules: set<Path>): Roots {
    map m | m in modules && Text(m) in nodes :: Text(m)
  }

  /** The emitted index. Where both maps have an entry the module's wins. */
  function UiRoots(modules: set<Path>, files: seq<Path>, sourceRoots: seq<Path>): Roots {
    SourceRootEntries(UiNodes(modules, files), sourceRoots) + ModuleEntries(UiNodes(modules, files), modules)
  }

  function Elements(ps: seq<Path>): set<Path> {
    set p | p in ps
  }

  method CollectNodes(modules: set<Path>, files: seq<Path>) returns (nodes: set<Node>)
    ensures nodes == UiNodes(modules, files)
  {
    nodes := {};
    for i := 0 to |files|
      invariant nodes == UiNodes(modules, files[..i])
    {
      var node := FindModule(modules, files[i]);
      nodes := nodes + {node};
      assert files[..i + 1] == files[..i] + [files[i]];
    }
    assert files[..|files|] == files;
  }

  method UiModuleRoots(modules: seq<Path>, files: seq<Path>, sourceRoots: seq<Path>) returns (roots: Roots)
    ensures roots == UiRoots(Elements(modules), files, sourceRoots)
  {
    var nodes := CollectNodes(Elements(modules), files);
    roots := AddSourceRoots(nodes, sourceRoots);
    roots := AddModules(roots, nodes, modules);
  }

  method AddSourceRoots(nodes: set<Node>, sourceRoots: seq<Path>) returns (roots: Roots)
    ensures roots == SourceRootEntries(nodes, sourceRoots)
  {
    roots := map[];
    if ROOT_MODULE in nodes {
      for i := 0 to |sourceRoots|
        invariant roots == SourceRootEntries(nodes, sourceRoots[..i])
      {
        roots := roots[sourceRoots[i] := ROOT_MODULE];
        assert sourceRoots[..i + 1] == sourceRoots[..i] + [sourceRoots[i]];
      }
      assert sourceRoots[..|sourceRoots|] == sourceRoots;
    }
  }

  lemma MoreModules(base: Roots, nodes: set<Node>, modules: seq<Path>, i: nat)
    requires i < |modules|
    ensures var m := modules[i]; var before := base + ModuleEntries(nodes, Elements(modules[..i]));
      base + ModuleEntries(nodes, Elements(modules[..i + 1])) == if Text(m) in nodes then before[m := Text(m)] else before
  {
    var m, some := modules[i], Elements(modules[..i]);
    assert modules[..i + 1] == modules[..i] + [m];
    assert Elements(modules[..i + 1]) == some + {m};
    OneMoreModule(base, nodes, some, m);
  }

  lemma OneMoreModule(base: Roots, nodes: set<Node>, modules: set<Path>, m: Path)
    ensures var before := base + ModuleEntries(nodes, modules);
      base + ModuleEntries(nodes, modules + {m}) == if Text(m) in nodes then before[m := Text(m)] else before
  {
  }

  method AddModules(base: Roots, nodes: set<Node>, modules: seq<Path>) returns (roots: Roots)
    ensures roots == base + ModuleEntries(nodes, Elements(modules))
  {
    roots := base;
    for i := 0 to |modules|
      invariant roots == base + ModuleEntries(nodes, Elements(modules[..i]))
    {
      MoreModules(base, nodes, modules, i);
      if Text(modules[i]) in nodes {
        roots := roots[modules[i] := Text(modules[i])];
      }
    }
    assert modules[..|modules|] == modules;
  }

  lemma {:induction false} ModuleDirectoryDeepest(modules: set<Path>, p: Path)
    ensures match ModuleDirectory(modules, p)
      case Some(d) => d in modules && d != [] && d <= p && forall q | q in modules && q <= p :: |q| <= |d|
      case None => forall q | q in modules && q <= p :: q == []
    decreases |p|
  {
    if p == [] || p in modules {
    } else {
      ModuleDirectoryDeepest(modules, Parent(p));
      forall q | q in modules && q <= p ensures q <= Parent(p) {
        assert q != p;
      }
      assert Parent(p) <= p;
    }
  }

  /** `d` is the deepest of the module directories that hold the file. */
  ghost predicate Houses(modules: set<Path>, file: Path, d: Path) {
    d in modules && d != [] && d <= Parent(file) && forall q | q in modules && q <= Parent(file) :: |q| <= |d|
  }

  ghost predicate Homeless(modules: set<Path>, file: Path) {
    forall q | q in modules && q != [] :: !(q <= Parent(file))
  }

  lemma ModuleOfExactly(modules: set<Path>, file: Path, d: Path)
    ensures ModuleDirectory(modules, Parent(file)) == Some(d) <==> Houses(modules, file, d)
    ensures ModuleDirectory(modules, Parent(file)).None? <==> Homeless(modules, file)
    ensures Houses(modules, file, d) ==> ModuleOf(modules, file) == Text(d)
    ensures Homeless(modules, file) ==> ModuleOf(modules, file) == "root"
  {
    ModuleDirectoryDeepest(modules, Parent(file));
    if Houses(modules, file, d) {
      var e := ModuleDirectory(modules, Parent(file)).value;
      assert |e| == |d| && e == Parent(file)[..|d|] == d;
    }
  }

  /** `n` is the node of some file. */
  ghost predicate Used(modules: set<Path>, files: seq<Path>, n: Node) {
    exists file :: file in files && ModuleOf(modules, file) == n
  }

  /**
   The emitted index holds the module directories whose name is some file's node, each under that
   name, and besides them the source roots, under `root`, when some file's node is `root`.
   */
  lemma UiRootsExactly(modules: set<Path>, files: seq<Path>, sourceRoots: seq<Path>, p: Path, n: Node)
    ensures var roots := UiRoots(modules, files, sourceRoots);
      p in roots && roots[p] == n <==>
        if p in modules && Used(modules, files, Text(p)) then n == Text(p)
        else p in sourceRoots && Used(modules, files, "root") && n == "root"
  {
    hide ModuleOf, Text;
    forall m ensures m in UiNodes(modules, files) <==> Used(modules, files, m) {
    }
  }

  lemma {:induction false} DeepestExists(roots: Roots, p: Path) returns (key: Path)
    requires Lookup(roots, p).Some?
    ensures Deepest(roots, p, key) && Lookup(roots, p) == Some(roots[key])
    decreases |p|
  {
    if p in roots {
      key := p;
    } else {
      key := DeepestExists(roots, Parent(p));
      forall q | q in roots && q <= p ensures |q| <= |key| {
        assert q != p;
        assert q <= Parent(p);
      }
      assert Parent(p) <= p;
    }
  }

  /** A source root between a file and its module: the index then answers `root`. */
  ghost predicate Shadowed(modules: set<Path>, files: seq<Path>, sourceRoots: seq<Path>, file: Path) {
    && ROOT_MODULE in UiNodes(modules, files)
    && ModuleDirectory(modules, Parent(file)).Some?
    && var m := ModuleDirectory(modules, Parent(file)).value;
      Text(m) != ROOT_MODULE && exists p :: p in sourceRoots && p <= file && |m| < |p|
  }

  ghost predicate Scanned(modules: set<Path>, files: seq<Path>, sourceRoots: seq<Path>, file: Path) {
    && file in files && file != [] && file !in modules && file !in sourceRoots && [] !in modules
    && exists p :: p in sourceRoots && p <= file
  }

  /** The deepest index entry over a file in some module. */
  lemma KeyOverModule(nodes: set<Node>, modules: set<Path>, sourceRoots: seq<Path>, file: Path, m: Path)
    requires m in modules && Text(m) in nodes && m <= file && forall q | q in modules && q <= file :: |q| <= |m|
    ensures var roots := SourceRootEntries(nodes, sourceRoots) + ModuleEntries(nodes, modules);
      Lookup(roots, file) ==
        if ROOT_MODULE in nodes && exists p :: p in sourceRoots && p <= file && |m| < |p| then Some(ROOT_MODULE)
        else Some(Text(m))
  {
    var roots := SourceRootEntries(nodes, sourceRoots) + ModuleEntries(nodes, modules);
    assert m in roots;
    LookupDeepest(roots, file);
    var key := DeepestExists(roots, file);
    assert |m| <= |key|;
    assert |m| == |key| ==> key == m;
    if p :| p in sourceRoots && p <= file && |m| < |p| {
      assert ROOT_MODULE in nodes ==> p in roots;
    }
  }

  lemma KeyOverRoot(nodes: set<Node>, modules: set<Path>, sourceRoots: seq<Path>, file: Path, p: Path)
    requires ROOT_MODULE in nodes && p in sourceRoots && p <= file && forall q | q in modules :: !(q <= file)
    ensures Lookup(SourceRootEntries(nodes, sourceRoots) + ModuleEntries(nodes, modules), file) == Some(ROOT_MODULE)
  {
    var roots := SourceRootEntries(nodes, sourceRoots) + ModuleEntries(nodes, modules);
    assert p in roots;
    LookupDeepest(roots, file);
    var key := DeepestExists(roots, file);
  }

  /** For a scanned file the index and the directory walk agree exactly when no source root shadows its module. */
  lemma IndexAgreesExactly(modules: set<Path>, files: seq<Path>, sourceRoots: seq<Path>, file: Path)
    requires Scanned(modules, files, sourceRoots, file)
    ensures Lookup(UiRoots(modules, files, sourceRoots), file) == Some(ModuleOf(modules, file))
            <==> !Shadowed(modules, files, sourceRoots, file)
  {
    var nodes := UiNodes(modules, files);
    ModuleDirectoryDeepest(modules, Parent(file));
    forall q | q in modules && q <= file ensures q <= Parent(file) { assert q != file; }
    assert Parent(file) <= file;
    assert ModuleOf(modules, file) in nodes;
    match ModuleDirectory(modules, Parent(file))
    case None =>
      var p :| p in sourceRoots && p <= file;
      KeyOverRoot(nodes, modules, sourceRoots, file, p);
    case Some(m) =>
      KeyOverModule(nodes, modules, sourceRoots, file, m);
  }

  /** With no module directory strictly above a source root, the two always agree. */
  lemma IndexAgrees(modules: set<Path>, files: seq<Path>, sourceRoots: seq<Path>)
    requires forall m, p | m in modules && p in sourceRoots && m <= p :: m == p
    ensures forall file :: Scanned(modules, files, sourceRoots, file) ==>
              Lookup(UiRoots(modules, files, sourceRoots), file) == Some(ModuleOf(modules, file))
  {
    forall file | Scanned(modules, files, sourceRoots, file)
      ensures Lookup(UiRoots(modules, files, sourceRoots), file) == Some(ModuleOf(modules, file))
    {
      IndexAgreesExactly(modules, files, sourceRoots, file);
      ModuleDirectoryDeepest(modules, Parent(file));
      if Shadowed(modules, files, sourceRoots, file) {
        var m := ModuleDirectory(modules, Parent(file)).value;
        var p :| p in sourceRoots && p <= file && |m| < |p|;
        NestedAncestors(m, p, file);
      }
    }
  }

  lemma NestedAncestors(p: Path, q: Path, f: Path)
    requires p <= Parent(f) && q <= f && |p| < |q|
    ensures p <= q && p != q
  {
    assert Parent(f) <= f;
  }
}
