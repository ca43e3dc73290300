/** Workspace snapshots (config/file-tree.go): which files a snapshot covers,
    how their hashes are computed shard by shard, and how two snapshots are
    compared into a change list. */
module FileTree {
  import opened Common
  import opened Hash

  // ---------------------------------------------------------------------
  // The walk

  /** A directory tree as `filepath.Walk` meets it, children in the order the
      walk visits them. `Unlistable` is a directory whose entries cannot be
      read; `Unstattable` an entry whose `Lstat` fails. */
  datatype FsNode =
    | File(name: string)
    | Dir(name: string, children: seq<FsNode>)
    | Unlistable(name: string)
    | Unstattable(name: string)

  /** A collected file: its absolute path and its path relative to the walked folder. */
  datatype FilePath = FilePath(abs: Path, rel: Path)

  datatype WalkError = StatFailed(path: Path) | ListFailed(path: Path)

  /** Directories the snapshot never descends into. */
  predicate SkippedDir(name: string)
  {
    name == ".PKr" || name == "tmp"
  }

  /** The program's own executables, never part of a snapshot. */
  predicate ToolBinary(name: string)
  {
    name == "PKr-Base.exe" || name == "PKr-Cli.exe" || name == "PKr-Base" || name == "PKr-Cli"
  }

  /** The walk of `node`, found at `root + rel`, with the callback of
      `FetchAllFilesPaths` deciding what is skipped and what is collected. */
  function Walk(root: Path, rel: Path, node: FsNode): Result<seq<FilePath>, WalkError>
    decreases node, 1
  {
    match node
    case Unstattable(_) => Err(StatFailed(root + rel))
    case File(name) => if ToolBinary(name) then Ok([]) else Ok([FilePath(root + rel, rel)])
    case Unlistable(_) => Err(ListFailed(root + rel))
    case Dir(name, children) => if SkippedDir(name) then Ok([]) else WalkChildren(root, rel, node, 0)
  }

  /** The walks of the children `i..` of `parent`, stopping at the first error. */
  function WalkChildren(root: Path, rel: Path, parent: FsNode, i: nat): Result<seq<FilePath>, WalkError>
    requires parent.Dir? && i <= |parent.children|
    decreases parent, 0, |parent.children| - i
  {
    if i == |parent.children| then Ok([])
    else
      var c := parent.children[i];
      match Walk(root, rel + [c.name], c)
      case Err(e) => Err(e)
      case Ok(first) =>
        match WalkChildren(root, rel, parent, i + 1)
        case Err(e) => Err(e)
        case Ok(rest) => Ok(first + rest)
  }

  /** Reference definition: the tree holds an entry the walk cannot get past.
      A directory that cannot be listed stops the walk even when its name
      is `.PKr` or `tmp`: the callback returns the error before it looks at
      the name. */
  ghost predicate Broken(node: FsNode)
    decreases node
  {
    match node
    case Unstattable(_) => true
    case Unlistable(_) => true
    case File(_) => false
    case Dir(name, cs) => !SkippedDir(name) && exists i :: 0 <= i < |cs| && Broken(cs[i])
  }

  /** Reference definition: the relative paths of the files a snapshot must cover. */
  ghost function Collectable(node: FsNode): set<Path>
    decreases node
  {
    match node
    case File(name) => if ToolBinary(name) then {} else {[]}
    case Dir(name, cs) =>
      if SkippedDir(name) then {}
      else set i, q | 0 <= i < |cs| && q in Collectable(cs[i]) :: [cs[i].name] + q
    case Unlistable(_) => {}
    case Unstattable(_) => {}
  }

  /** The relative paths of a list of collected files. */
  ghost function RelPaths(fs: seq<FilePath>): set<Path>
  {
    set e | e in fs :: e.rel
  }

  /** Every collected entry pairs the absolute path with its relative one. */
  ghost predicate Paired(root: Path, fs: seq<FilePath>)
  {
    forall e :: e in fs ==> e.abs == root + e.rel
  }

  /** The walk of children `i..` of `parent` fails iff one of them is broken,
      and otherwise collects what they collect. */
  lemma {:induction false} WalkChildrenSpec(root: Path, rel: Path, parent: FsNode, i: nat)
    requires parent.Dir? && i <= |parent.children|
    requires forall j :: i <= j < |parent.children| ==>
      var c := parent.children[j];
      var w := Walk(root, rel + [c.name], c);
      (w.Err? <==> Broken(c)) &&
      (w.Ok? ==> Paired(root, w.value) && RelPaths(w.value) == set q | q in Collectable(c) :: rel + [c.name] + q)
    ensures var w := WalkChildren(root, rel, parent, i);
      (w.Err? <==> exists j :: i <= j < |parent.children| && Broken(parent.children[j])) &&
      (w.Ok? ==>
         Paired(root, w.value) &&
         RelPaths(w.value) == set j, q | i <= j < |parent.children| && q in Collectable(parent.children[j]) :: rel + [parent.children[j].name] + q)
    decreases |parent.children| - i
  {
    var cs := parent.children;
    if i < |cs| {
      WalkChildrenSpec(root, rel, parent, i + 1);
      var c := cs[i];
      var w := Walk(root, rel + [c.name], c);
      var rest := WalkChildren(root, rel, parent, i + 1);
      if w.Ok? && rest.Ok? {
        var all := WalkChildren(root, rel, parent, i);
        assert all.value == w.value + rest.value;
        RelPathsAppend(w.value, rest.value);
        ChildrenSplit(rel, cs, i);
      }
    }
  }

  lemma RelPathsAppend(a: seq<FilePath>, b: seq<FilePath>)
    ensures RelPaths(a + b) == RelPaths(a) + RelPaths(b)
  {
    forall p | p in RelPaths(a + b) ensures p in RelPaths(a) + RelPaths(b) {
      var e :| e in a + b && e.rel == p;
      if e in a {
        assert p in RelPaths(a);
      } else {
        assert p in RelPaths(b);
      }
    }
    forall p | p in RelPaths(a) + RelPaths(b) ensures p in RelPaths(a + b) {
      if p in RelPaths(a) {
        var e :| e in a && e.rel == p;
        assert e in a + b;
      } else {
        var e :| e in b && e.rel == p;
        assert e in a + b;
      }
    }
  }

  /** The paths below children `i..` are those below child `i` and those below the rest. */
  lemma ChildrenSplit(rel: Path, cs: seq<FsNode>, i: nat)
    requires i < |cs|
    ensures (set j, q | i <= j < |cs| && q in Collectable(cs[j]) :: rel + [cs[j].name] + q)
      == (set q | q in Collectable(cs[i]) :: rel + [cs[i].name] + q)
       + (set j, q | i + 1 <= j < |cs| && q in Collectable(cs[j]) :: rel + [cs[j].name] + q)
  {
    var lhs := set j, q | i <= j < |cs| && q in Collectable(cs[j]) :: rel + [cs[j].name] + q;
    var first := set q | q in Collectable(cs[i]) :: rel + [cs[i].name] + q;
    var others := set j, q | i + 1 <= j < |cs| && q in Collectable(cs[j]) :: rel + [cs[j].name] + q;
    forall p | p in lhs ensures p in first + others {
      var j, q :| i <= j < |cs| && q in Collectable(cs[j]) && p == rel + [cs[j].name] + q;
      if j == i {
        assert p in first;
      } else {
        assert p in others;
      }
    }
  }

  /** The walk fails iff the tree is broken; when it succeeds it collects
      exactly the collectable files, each with its absolute path. */
  lemma {:induction false} WalkSpec(root: Path, rel: Path, node: FsNode)
    ensures Walk(root, rel, node).Err? <==> Broken(node)
    ensures Walk(root, rel, node).Ok? ==>
      Paired(root, Walk(root, rel, node).value) &&
      RelPaths(Walk(root, rel, node).value) == set q | q in Collectable(node) :: rel + q
    decreases node
  {
    match node
    case Dir(name, cs) =>
      if !SkippedDir(name) {
        forall j | 0 <= j < |cs| ensures
          var c := cs[j];
          var w := Walk(root, rel + [c.name], c);
          (w.Err? <==> Broken(c)) &&
          (w.Ok? ==> Paired(root, w.value) && RelPaths(w.value) == set q | q in Collectable(c) :: rel + [c.name] + q)
        {
          var c := cs[j];
          WalkSpec(root, rel + [c.name], c);
          assert (set q | q in Collectable(c) :: (rel + [c.name]) + q) == set q | q in Collectable(c) :: rel + [c.name] + q;
        }
        WalkChildrenSpec(root, rel, node, 0);
        CollectableDir(node, rel);
      }
    case File(name) =>
      if !ToolBinary(name) {
        assert rel + [] == rel;
      }
    case Unlistable(_) =>
    case Unstattable(_) =>
  }

  /** The collectable paths of a directory that is not skipped, child by child. */
  lemma CollectableDir(node: FsNode, rel: Path)
    requires node.Dir? && !SkippedDir(node.name)
    ensures (set q | q in Collectable(node) :: rel + q) ==
      set j, q | 0 <= j < |node.children| && q in Collectable(node.children[j]) :: rel + [node.children[j].name] + q
  {
    ChildPathsCollectable(node, rel);
    CollectablePathsOfChildren(node, rel);
  }

  lemma ChildPathsCollectable(node: FsNode, rel: Path)
    requires node.Dir? && !SkippedDir(node.name)
    ensures forall j, q | 0 <= j < |node.children| && q in Collectable(node.children[j]) ::
      rel + [node.children[j].name] + q in (set q' | q' in Collectable(node) :: rel + q')
  {
    var cs := node.children;
    forall j, q | 0 <= j < |cs| && q in Collectable(cs[j])
      ensures rel + [cs[j].name] + q in (set q' | q' in Collectable(node) :: rel + q')
    {
      assert [cs[j].name] + q in Collectable(node);
      assert rel + [cs[j].name] + q == rel + ([cs[j].name] + q);
    }
  }

  lemma CollectablePathsOfChildren(node: FsNode, rel: Path)
    requires node.Dir? && !SkippedDir(node.name)
    ensures forall q' | q' in Collectable(node) ::
      rel + q' in (set j, q | 0 <= j < |node.children| && q in Collectable(node.children[j]) :: rel + [node.children[j].name] + q)
  {
    var cs := node.children;
    forall q' | q' in Collectable(node)
      ensures rel + q' in (set j, q | 0 <= j < |cs| && q in Collectable(cs[j]) :: rel + [cs[j].name] + q)
    {
      var j, q :| 0 <= j < |cs| && q in Collectable(cs[j]) && q' == [cs[j].name] + q;
      assert rel + q' == rel + [cs[j].name] + q;
    }
  }

  /** A collectable path goes through no skipped directory and ends in a file
      that is not one of the program's executables. */
  lemma {:induction false} CollectableNames(node: FsNode, q: Path)
    requires q in Collectable(node)
    ensures node.Dir? ==> |q| > 0 && !SkippedDir(node.name)
    ensures forall k :: 0 <= k < |q| - 1 ==> !SkippedDir(q[k])
    ensures |q| > 0 ==> !ToolBinary(q[|q| - 1])
    ensures |q| == 0 ==> node.File? && !ToolBinary(node.name)
    decreases node
  {
    match node
    case File(name) =>
    case Dir(name, cs) =>
      var i, r :| 0 <= i < |cs| && r in Collectable(cs[i]) && q == [cs[i].name] + r;
      CollectableNames(cs[i], r);
      assert q[1..] == r;
  }

  /** `FetchAllFilesPaths`: the files of the folder at `root` a snapshot covers,
      or the walk's error (with no files). */
  function FetchAllFilesPaths(root: Path, tree: FsNode): (r: Result<seq<FilePath>, WalkError>)
    ensures r.Err? <==> Broken(tree)
    ensures r.Ok? ==> Paired(root, r.value) && RelPaths(r.value) == Collectable(tree)
  {
    WalkSpec(root, [], tree);
    assert (set q | q in Collectable(tree) :: [] + q) == Collectable(tree) by {
      forall q: Path ensures [] + q == q { }
    }
    Walk(root, [], tree)
  }

  // ---------------------------------------------------------------------
  // Hashing in shards

  datatype Node = Node(path: string, hash: string)

  /** The value `make([]Node, n)` leaves in every slot. */
  const ZeroNode := Node("", "")

  function Min(a: int, b: int): int { if a < b then a else b }

  /** `numWorkers`: twice the CPU count, but no more than the number of files. */
  function NumWorkers(numCPU: nat, n: nat): nat { Min(2 * numCPU, n) }

  /** `partitionSize`: the number of files per worker, rounded up. */
  function PartitionSize(n: nat, w: nat): nat
    requires w > 0
  {
    (n + w - 1) / w
  }

  /** Start and end of shard `i`; only the end is clamped to `n`. */
  function ShardStart(i: nat, ps: nat): nat { i * ps }

  function ShardEnd(i: nat, ps: nat, n: nat): nat
  {
    if (i + 1) * ps > n then n else (i + 1) * ps
  }

  /** Every shard's slice `[start:end]` is well formed: the last shard starts within the list. */
  predicate ShardsInRange(n: nat, w: nat)
  {
    w > 0 && (w - 1) * PartitionSize(n, w) <= n
  }

  lemma MulLeft(a: nat, b: nat, c: nat)
    requires a <= b
    ensures a * c <= b * c
  {
    assert b * c == a * c + (b - a) * c;
  }

  lemma LessFromMul(a: nat, b: nat, c: nat)
    ensures a * c < b * c ==> a < b
  {
    if b <= a {
      MulLeft(b, a, c);
    }
  }

  lemma DivBounds(k: nat, ps: nat)
    requires ps > 0
    ensures (k / ps) * ps <= k < (k / ps + 1) * ps
  {
    assert k == (k / ps) * ps + k % ps;
  }

  /** The workers together have room for all files. */
  lemma PartitionCovers(n: nat, w: nat)
    requires w > 0
    ensures n <= w * PartitionSize(n, w)
  {
    var ps := PartitionSize(n, w);
    assert n + w - 1 == ps * w + (n + w - 1) % w;
  }

  /** Every shard starts within the list when the last one does. */
  lemma ShardStartInRange(n: nat, w: nat, i: nat)
    requires ShardsInRange(n, w) && i < w
    ensures ShardStart(i, PartitionSize(n, w)) <= n
  {
    MulLeft(i, w - 1, PartitionSize(n, w));
  }

  /** File `k` lies in shard `k / ps`. */
  lemma ShardsCover(n: nat, numCPU: nat, k: nat)
    requires numCPU > 0 && k < n
    ensures var w := NumWorkers(numCPU, n);
      var ps := PartitionSize(n, w);
      k / ps < w && ShardStart(k / ps, ps) <= k < ShardEnd(k / ps, ps, n)
  {
    var w := NumWorkers(numCPU, n);
    var ps := PartitionSize(n, w);
    PartitionCovers(n, w);
    DivBounds(k, ps);
    LessFromMul(k / ps, w, ps);
  }

  /** A file lies in no shard but `k / ps`: the shards are pairwise disjoint. */
  lemma ShardsDisjoint(n: nat, numCPU: nat, k: nat, i: nat)
    requires numCPU > 0 && k < n
    ensures var w := NumWorkers(numCPU, n);
      var ps := PartitionSize(n, w);
      i < w && ShardStart(i, ps) <= k < ShardEnd(i, ps, n) ==> i == k / ps
  {
    var w := NumWorkers(numCPU, n);
    var ps := PartitionSize(n, w);
    DivBounds(k, ps);
    LessFromMul(i, k / ps + 1, ps);
    LessFromMul(k / ps, i + 1, ps);
  }

  /** The start of a shard is not clamped: with 5 files and 4 workers the last
      shard is the inverted slice `[6:5]`. */
  lemma InvertedShard()
    ensures NumWorkers(2, 5) == 4 && PartitionSize(5, 4) == 2
    ensures ShardStart(3, 2) == 6 > ShardEnd(3, 2, 5) == 5
    ensures !ShardsInRange(5, 4)
  {
  }

  /** The file hashing a worker calls: a path to its hash string and error. */
  type Hasher = Path -> (string, Option<HashError>)

  /** `GenerateHashWithFilePath` over the file system `source`. */
  function FileHasher(source: Path -> FileSource, digest: Bytes -> Digest): Hasher
  {
    p => HashFile(source(p), digest)
  }

  /** What a worker stores for a file: its relative path and hash, or nothing
      (the zero node stays) when hashing fails. */
  function Slot(f: FilePath, hashOf: Hasher): Node
  {
    var (h, err) := hashOf(f.abs);
    if err.None? then Node(JoinPath(f.rel), h) else ZeroNode
  }

  /** A slot holds the zero node exactly when its file could not be hashed. */
  lemma SlotZeroIffHashFails(f: FilePath, source: Path -> FileSource, digest: Bytes -> Digest)
    ensures Slot(f, FileHasher(source, digest)) == ZeroNode <==> !source(f.abs).Readable?
    ensures source(f.abs).Readable? ==> |Slot(f, FileHasher(source, digest)).hash| == 64
  {
  }

  /** One worker: hashes `jobs` into `res[offset..]`, slot `j` for job `j`,
      leaving a slot untouched when its file cannot be hashed. */
  method HashShard(jobs: seq<FilePath>, res: array<Node>, offset: nat, hashOf: Hasher)
    requires offset + |jobs| <= res.Length
    requires forall k :: offset <= k < offset + |jobs| ==> res[k] == ZeroNode
    modifies res
    ensures forall k :: 0 <= k < res.Length ==>
      res[k] == if offset <= k < offset + |jobs| then Slot(jobs[k - offset], hashOf) else old(res[k])
  {
    for j := 0 to |jobs|
      invariant forall k :: 0 <= k < res.Length ==>
        res[k] == if offset <= k < offset + j then Slot(jobs[k - offset], hashOf) else old(res[k])
    {
      var job := jobs[j];
      var (hash, err) := hashOf(job.abs);
      if err.None? {
        res[offset + j] := Node(JoinPath(job.rel), hash);
      }
    }
  }

  /** The worker pool of `GetNewTree`: `numWorkers` workers hash shard
      `[i*ps, min((i+1)*ps, n))` each, into a slice of `n` zero nodes. The
      workers run one after another here. `n > 0` is required because `n = 0`
      divides by zero, and the shards must be in range because the start of a
      shard is not clamped. */
  method HashInShards(files: seq<FilePath>, numCPU: nat, hashOf: Hasher)
    returns (nodes: array<Node>)
    requires numCPU > 0 && |files| > 0
    requires ShardsInRange(|files|, NumWorkers(numCPU, |files|))
    ensures fresh(nodes) && nodes.Length == |files|
    ensures forall k :: 0 <= k < |files| ==> nodes[k] == Slot(files[k], hashOf)
  {
    var n := |files|;
    var numWorkers := Min(numCPU * 2, n);
    var partitionSize := (n + numWorkers - 1) / numWorkers;
    nodes := new Node[n](_ => ZeroNode);
    ghost var filled := 0;
    for i := 0 to numWorkers
      invariant filled == Min(ShardStart(i, partitionSize), n)
      invariant forall k :: 0 <= k < n ==>
        nodes[k] == if k < filled then Slot(files[k], hashOf) else ZeroNode
    {
      var start := i * partitionSize;
      var end := (i + 1) * partitionSize;
      if end > n {
        end := n;
      }
      ShardStartInRange(n, numWorkers, i);
      assert start == filled;
      var jobs := files[start..end];
      assert forall k :: start <= k < end ==> jobs[k - start] == files[k];
      HashShard(jobs, nodes, start, hashOf);
      assert end == Min(ShardStart(i + 1, partitionSize), n);
      filled := end;
    }
    PartitionCovers(n, numWorkers);
  }

  /** How `GetNewTree` ends: the snapshot, the walk's error, or one of the
      two runtime panics of the worker split. */
  datatype TreeOutcome =
    | Tree(nodes: seq<Node>)
    | WalkFailed(error: WalkError)
    | DivisionByZero   // no file collected: `numWorkers` is 0
    | SliceOutOfRange  // a shard starts past the end of the list

  /** `GetNewTree`: the walk's error, or one node per collected file, slot `k`
      for file `k`. A workspace with no collectable file divides by zero,
      and a split whose last shard starts past the end slices out of range. */
  method GetNewTree(root: Path, tree: FsNode, numCPU: nat, hashOf: Hasher)
    returns (r: TreeOutcome)
    requires numCPU > 0
    ensures r.WalkFailed? <==> Broken(tree)
    ensures r.DivisionByZero? <==> !Broken(tree) && Collectable(tree) == {}
    ensures r.SliceOutOfRange? <==>
      !Broken(tree) && Collectable(tree) != {} &&
      var n := |FetchAllFilesPaths(root, tree).value|;
      !ShardsInRange(n, NumWorkers(numCPU, n))
    ensures r.Tree? ==>
      var files := FetchAllFilesPaths(root, tree).value;
      |r.nodes| == |files| &&
      forall k :: 0 <= k < |files| ==> r.nodes[k] == Slot(files[k], hashOf)
  {
    var walked := FetchAllFilesPaths(root, tree);
    if walked.Err? {
      return WalkFailed(walked.error);
    }
    var n := |walked.value|;
    if n > 0 {
      assert walked.value[0].rel in RelPaths(walked.value);
    }
    var numWorkers := Min(numCPU * 2, n);
    if numWorkers == 0 {
      return DivisionByZero;
    }
    if !ShardsInRange(n, numWorkers) {
      return SliceOutOfRange;
    }
    var nodes := HashInShards(walked.value, numCPU, hashOf);
    r := Tree(nodes[..]);
  }

  /** A workspace holding only the `.PKr` folder collects no file, so
      `GetNewTree` divides by zero on it. */
  lemma OnlyPKrCollectsNothing(config: FsNode)
    ensures var ws := Dir("ws", [Dir(".PKr", [config])]);
      !Broken(ws) && Collectable(ws) == {}
  {
    var ws := Dir("ws", [Dir(".PKr", [config])]);
    assert Collectable(ws.children[0]) == {};
  }

  /** A `tmp` folder that cannot be listed stops the whole walk, although a
      listable one is skipped whatever it holds. */
  lemma UnlistableTmpStopsWalk(root: Path, inside: seq<FsNode>)
    ensures FetchAllFilesPaths(root, Dir("ws", [Unlistable("tmp")])).Err?
    ensures FetchAllFilesPaths(root, Dir("ws", [Dir("tmp", inside)])) == Ok([])
  {
    var listable := Dir("ws", [Dir("tmp", inside)]);
    assert WalkChildren(root, [], listable, 1) == Ok([]);
    var none: seq<FilePath> := [];
    assert none + none == none;
    assert WalkChildren(root, [], listable, 0) == Ok(none + none);
  }

  // ---------------------------------------------------------------------
  // Comparing snapshots

  /** A change-list entry; `kind` is "Updated", "Removed" or any other text. */
  datatype FileChange = FileChange(path: string, hash: string, kind: string)

  const Updated := "Updated"
  const Removed := "Removed"

  /** No later node has the same path as node `k`. */
  predicate LastFor(nodes: seq<Node>, k: nat)
    requires k < |nodes|
  {
    forall l :: k < l < |nodes| ==> nodes[l].path != nodes[k].path
  }

  /** A snapshot as a path to hash map; a later node for the same path wins. */
  function ToMap(nodes: seq<Node>): (m: map<string, string>)
    ensures forall k :: 0 <= k < |nodes| ==> nodes[k].path in m
  {
    if nodes == [] then map[]
    else
      var last := nodes[|nodes| - 1];
      var init := nodes[..|nodes| - 1];
      assert forall k :: 0 <= k < |init| ==> init[k] == nodes[k];
      ToMap(init)[last.path := last.hash]
  }

  /** Every path of the map comes from a node. */
  lemma {:induction false} ToMapKeys(nodes: seq<Node>, p: string)
    ensures p in ToMap(nodes) <==> exists k :: 0 <= k < |nodes| && nodes[k].path == p
  {
    if nodes != [] {
      var init := nodes[..|nodes| - 1];
      ToMapKeys(init, p);
      if p in ToMap(init) {
        var k :| 0 <= k < |init| && init[k].path == p;
        assert nodes[k] == init[k];
      }
      if p != nodes[|nodes| - 1].path && exists k :: 0 <= k < |nodes| && nodes[k].path == p {
        var k :| 0 <= k < |nodes| && nodes[k].path == p;
        assert init[k] == nodes[k];
      }
    }
  }

  /** Duplicate paths collapse to the hash of the last node with that path. */
  lemma {:induction false} ToMapLast(nodes: seq<Node>, k: nat)
    requires k < |nodes| && LastFor(nodes, k)
    ensures ToMap(nodes)[nodes[k].path] == nodes[k].hash
  {
    if k < |nodes| - 1 {
      var init := nodes[..|nodes| - 1];
      assert LastFor(init, k) by {
        forall l | k < l < |init| ensures init[l].path != init[k].path {
          assert init[l] == nodes[l] && init[k] == nodes[k];
        }
      }
      ToMapLast(init, k);
      assert init[k] == nodes[k];
    }
  }

  /** `m = make(map[string]string)` filled node by node, as both loops of `CompareTrees` do. */
  method BuildMap(nodes: seq<Node>) returns (m: map<string, string>)
    ensures m == ToMap(nodes)
  {
    m := map[];
    for i := 0 to |nodes|
      invariant m == ToMap(nodes[..i])
    {
      assert nodes[..i + 1][..i] == nodes[..i];
      m := m[nodes[i].path := nodes[i].hash];
    }
    assert nodes[..|nodes|] == nodes;
  }

  /** Reference definition of the change set between two path to hash maps, keyed by path. */
  ghost function Diff(oldMap: map<string, string>, newMap: map<string, string>): map<string, FileChange>
  {
    map p | p in newMap.Keys + oldMap.Keys && (p in newMap ==> p !in oldMap || oldMap[p] != newMap[p]) ::
      if p in newMap then FileChange(p, newMap[p], Updated) else FileChange(p, oldMap[p], Removed)
  }

  /** The entry of `Diff` for one path. */
  lemma DiffAt(oldMap: map<string, string>, newMap: map<string, string>, p: string)
    ensures p in Diff(oldMap, newMap) <==>
      (p in newMap && (p !in oldMap || oldMap[p] != newMap[p])) || (p in oldMap && p !in newMap)
    ensures p in Diff(oldMap, newMap) ==>
      Diff(oldMap, newMap)[p] == if p in newMap then FileChange(p, newMap[p], Updated) else FileChange(p, oldMap[p], Removed)
  {
  }

  predicate NoDuplicatePaths(cs: seq<FileChange>)
  {
    forall i, j :: 0 <= i < j < |cs| ==> cs[i].path != cs[j].path
  }

  /** `changes` lists the entries of `d`, each once. */
  ghost predicate Enumerates(changes: seq<FileChange>, d: map<string, FileChange>)
  {
    && (forall p :: p in d ==> d[p].path == p)
    && NoDuplicatePaths(changes)
    && (forall c :: c in changes <==> c.path in d && d[c.path] == c)
  }

  /** `CompareTrees`: an `Updated` change with the new hash for every path that
      is new or whose hash differs, a `Removed` change with the old hash for
      every path that is gone, each path once. */
  method CompareTrees(oldTree: seq<Node>, newTree: seq<Node>) returns (changes: seq<FileChange>)
    ensures Enumerates(changes, Diff(ToMap(oldTree), ToMap(newTree)))
  {
    var oldMap := BuildMap(oldTree);
    var newMap := BuildMap(newTree);
    var updated := UpdatedChanges(oldMap, newMap);
    changes := AppendRemoved(oldMap, newMap, updated);
  }

  /** The first loop of `CompareTrees`: the `Updated` entries of the
      difference, one per path of the new snapshot that is new or changed. */
  method UpdatedChanges(oldMap: map<string, string>, newMap: map<string, string>) returns (changes: seq<FileChange>)
    ensures NoDuplicatePaths(changes)
    ensures forall c :: c in changes <==>
      c.path in newMap && c.path in Diff(oldMap, newMap) && Diff(oldMap, newMap)[c.path] == c
  {
    ghost var d := Diff(oldMap, newMap);
    changes := [];
    var todo := newMap.Keys;
    ghost var done: set<string> := {};
    while todo != {}
      invariant todo + done == newMap.Keys && todo !! done
      invariant NoDuplicatePaths(changes)
      invariant forall c :: c in changes <==> c.path in done && c.path in d && d[c.path] == c
      decreases todo
    {
      var p :| p in todo;
      DiffAt(oldMap, newMap, p);
      if p !in oldMap || oldMap[p] != newMap[p] {
        changes := changes + [FileChange(p, newMap[p], Updated)];
      }
      todo := todo - {p};
      done := done + {p};
    }
  }

  /** The second loop of `CompareTrees`: after the `Updated` entries, a
      `Removed` one for every path of the old snapshot that is gone. */
  method AppendRemoved(oldMap: map<string, string>, newMap: map<string, string>, updated: seq<FileChange>)
    returns (changes: seq<FileChange>)
    requires NoDuplicatePaths(updated)
    requires forall c :: c in updated <==>
      c.path in newMap && c.path in Diff(oldMap, newMap) && Diff(oldMap, newMap)[c.path] == c
    ensures Enumerates(changes, Diff(oldMap, newMap))
  {
    ghost var d := Diff(oldMap, newMap);
    forall p | p in d ensures (p in newMap || p in oldMap) && d[p].path == p {
      DiffAt(oldMap, newMap, p);
    }
    changes := updated;
    var todo := oldMap.Keys;
    ghost var done: set<string> := {};
    while todo != {}
      invariant todo + done == oldMap.Keys && todo !! done
      invariant NoDuplicatePaths(changes)
      invariant forall c :: c in changes <==> c.path in d && d[c.path] == c && (c.path in newMap || c.path in done)
      decreases todo
    {
      var p :| p in todo;
      DiffAt(oldMap, newMap, p);
      if p !in newMap {
        changes := changes + [FileChange(p, oldMap[p], Removed)];
      }
      todo := todo - {p};
      done := done + {p};
    }
  }

  /** Comparing a snapshot with itself gives no changes. */
  lemma CompareSameTree(t: seq<Node>)
    ensures Diff(ToMap(t), ToMap(t)) == map[]
  {
  }

  /** The effect of one change on a path to hash map; other kinds change nothing. */
  function ApplyChange(m: map<string, string>, c: FileChange): map<string, string>
  {
    if c.kind == Updated then m[c.path := c.hash]
    else if c.kind == Removed then m - {c.path}
    else m
  }

  /** The changes applied one after another. */
  function ApplyChanges(m: map<string, string>, cs: seq<FileChange>): map<string, string>
  {
    if cs == [] then m else ApplyChange(ApplyChanges(m, cs[..|cs| - 1]), cs[|cs| - 1])
  }

  /** The map once every entry of a path-keyed change set has taken effect. */
  ghost function Overlay(m: map<string, string>, d: map<string, FileChange>): map<string, string>
  {
    map p | p in m.Keys + d.Keys && (if p in d then d[p].kind == Updated || (d[p].kind != Removed && p in m) else p in m) ::
      if p in d && d[p].kind == Updated then d[p].hash else m[p]
  }

  /** Dropping the last change of an enumeration enumerates the rest of the set. */
  lemma EnumerationInit(cs: seq<FileChange>, d: map<string, FileChange>)
    requires Enumerates(cs, d) && |cs| > 0
    ensures var c := cs[|cs| - 1];
      c.path in d && d[c.path] == c && Enumerates(cs[..|cs| - 1], d - {c.path})
  {
    var c := cs[|cs| - 1];
    var init := cs[..|cs| - 1];
    var d' := d - {c.path};
    assert c in cs;
    assert NoDuplicatePaths(init) by {
      forall i, j | 0 <= i < j < |init| ensures init[i].path != init[j].path {
        assert init[i] == cs[i] && init[j] == cs[j];
      }
    }
    forall x ensures x in init <==> x.path in d' && d'[x.path] == x {
      if x in init {
        var k :| 0 <= k < |init| && init[k] == x;
        assert cs[k] == x && x in cs;
        assert x.path != c.path;
      }
      if x.path in d' && d'[x.path] == x {
        assert x in cs;
        var k :| 0 <= k < |cs| && cs[k] == x;
        assert k != |cs| - 1;
        assert x == init[k];
      }
    }
  }

  /** One more change, for a path the set did not hold, takes effect on the overlay. */
  lemma OverlayStep(m: map<string, string>, d: map<string, FileChange>, c: FileChange)
    requires c.path !in d
    ensures ApplyChange(Overlay(m, d), c) == Overlay(m, d[c.path := c])
  {
  }

  /** Applying a list that enumerates a change set, in any order, has the set's effect. */
  lemma {:induction false} ApplyEnumeration(m: map<string, string>, cs: seq<FileChange>, d: map<string, FileChange>)
    requires Enumerates(cs, d)
    ensures ApplyChanges(m, cs) == Overlay(m, d)
  {
    if cs == [] {
      assert forall p :: p in d ==> d[p] in cs;
      assert d.Keys == {};
    } else {
      var c := cs[|cs| - 1];
      EnumerationInit(cs, d);
      var d' := d - {c.path};
      ApplyEnumeration(m, cs[..|cs| - 1], d');
      OverlayStep(m, d', c);
      assert d'[c.path := c] == d;
    }
  }

  /** Taking the change set between two maps into effect on the first gives the second. */
  lemma OverlayDiff(oldMap: map<string, string>, newMap: map<string, string>)
    ensures Overlay(oldMap, Diff(oldMap, newMap)) == newMap
  {
    var o := Overlay(oldMap, Diff(oldMap, newMap));
    forall p ensures (p in o <==> p in newMap) && (p in o ==> o[p] == newMap[p]) {
      DiffAt(oldMap, newMap, p);
    }
  }

  /** Applying the result of `CompareTrees` to the old map yields the new map,
      whatever order the change list comes in. */
  lemma ApplyComparison(oldTree: seq<Node>, newTree: seq<Node>, changes: seq<FileChange>)
    requires Enumerates(changes, Diff(ToMap(oldTree), ToMap(newTree)))
    ensures ApplyChanges(ToMap(oldTree), changes) == ToMap(newTree)
  {
    var om, nm := ToMap(oldTree), ToMap(newTree);
    ApplyEnumeration(om, changes, Diff(om, nm));
    OverlayDiff(om, nm);
  }
}
