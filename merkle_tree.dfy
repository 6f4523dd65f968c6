/**
 * The Merkle tree: ordering files by id, building the tree layer by layer,
 * breadth-first search for a node, and folding an inclusion proof back up
 * to a top hash (`verifyFile`, `reconstruct`).
 */
module MerkleTree {
  import opened Bytes
  import opened ComplementingHashes
  import opened Nodes

  // ---------------------------------------------------------------------
  // compareByteArrays: unsigned lexicographic order on byte arrays
  // ---------------------------------------------------------------------

  /**
   * The value `compareByteArrays` returns: the difference of the first
   * differing bytes, or else the difference of the lengths.
   */
  function Compare(left: seq<byte>, right: seq<byte>): int
  {
    if left == [] || right == [] then |left| - |right|
    else if left[0] != right[0] then left[0] as int - right[0] as int
    else Compare(left[1..], right[1..])
  }

  /** `compareByteArrays`: walks both arrays with one index until they differ or one ends. */
  method CompareByteArrays(left: seq<byte>, right: seq<byte>) returns (r: int)
    ensures r == Compare(left, right)
  {
    var i := 0;
    while i < |left| && i < |right|
      invariant 0 <= i <= |left| && i <= |right|
      invariant Compare(left, right) == Compare(left[i..], right[i..])
    {
      var a := left[i];
      var b := right[i];
      assert left[i..][1..] == left[i + 1..] && right[i..][1..] == right[i + 1..];
      if a != b {
        return a as int - b as int;
      }
      i := i + 1;
    }
    return |left| - |right|;
  }

  lemma {:induction false} CompareFlips(left: seq<byte>, right: seq<byte>)
    ensures Compare(left, right) == -Compare(right, left)
    decreases |left|
  {
    if left != [] && right != [] && left[0] == right[0] {
      CompareFlips(left[1..], right[1..]);
    }
  }

  lemma {:induction false} CompareZero(left: seq<byte>, right: seq<byte>)
    ensures Compare(left, right) == 0 <==> left == right
    decreases |left|
  {
    if left != [] && right != [] && left[0] == right[0] {
      CompareZero(left[1..], right[1..]);
      assert left == [left[0]] + left[1..] && right == [right[0]] + right[1..];
    }
  }

  /** A proper prefix sorts first. */
  lemma {:induction false} ComparePrefix(left: seq<byte>, right: seq<byte>)
    requires |left| < |right| && left == right[..|left|]
    ensures Compare(left, right) < 0
    decreases |left|
  {
    if left != [] {
      assert left[1..] == right[1..][..|left| - 1];
      ComparePrefix(left[1..], right[1..]);
    }
  }

  lemma {:induction false} CompareTransitive(x: seq<byte>, y: seq<byte>, z: seq<byte>)
    requires Compare(x, y) <= 0 && Compare(y, z) <= 0
    ensures Compare(x, z) <= 0
    decreases |x|
  {
    if x != [] && y != [] && z != [] && x[0] == y[0] && y[0] == z[0] {
      CompareTransitive(x[1..], y[1..], z[1..]);
    }
  }

  /**
   * `compareByteArrays` is a total order on byte arrays: zero exactly for
   * equal arrays, the sign flips when the arguments are swapped, a proper
   * prefix comes first, and "at most" is transitive.
   */
  lemma CompareIsTotalOrder(x: seq<byte>, y: seq<byte>, z: seq<byte>)
    ensures Compare(x, y) == 0 <==> x == y
    ensures Compare(x, y) == -Compare(y, x)
    ensures |x| < |y| && x == y[..|x|] ==> Compare(x, y) < 0
    ensures Compare(x, y) <= 0 && Compare(y, z) <= 0 ==> Compare(x, z) <= 0
  {
    CompareZero(x, y);
    CompareFlips(x, y);
    if |x| < |y| && x == y[..|x|] {
      ComparePrefix(x, y);
    }
    if Compare(x, y) <= 0 && Compare(y, z) <= 0 {
      CompareTransitive(x, y, z);
    }
  }

  // ---------------------------------------------------------------------
  // Files and their order
  // ---------------------------------------------------------------------

  /** A stored file: its id and the SHA-256 of its stored bytes. */
  datatype FileInfo = FileInfo(fileId: seq<byte>, sha256: Digest)

  ghost predicate Sorted(fs: seq<FileInfo>)
  {
    forall i, j :: 0 <= i < j < |fs| ==> Compare(fs[i].fileId, fs[j].fileId) <= 0
  }

  ghost predicate DistinctIds(fs: seq<FileInfo>)
  {
    forall i, j :: 0 <= i < j < |fs| ==> fs[i].fileId != fs[j].fileId
  }

  /** Inserts `f` before the first file whose id is not smaller (keeps equal ids in input order). */
  function Insert(f: FileInfo, fs: seq<FileInfo>): (r: seq<FileInfo>)
    ensures multiset(r) == multiset(fs) + multiset{f}
    ensures |r| == |fs| + 1
    ensures forall x :: x in r <==> x == f || x in fs
  {
    if fs == [] || Compare(f.fileId, fs[0].fileId) <= 0 then [f] + fs
    else
      assert fs == [fs[0]] + fs[1..];
      [fs[0]] + Insert(f, fs[1..])
  }

  /**
   * The list `files.stream().sorted(...)` yields: the same files, ordered by
   * `compareByteArrays` on their ids. The stream over a set is unordered, so
   * the relative order of files with equal ids is not fixed; this insertion
   * sort picks one, and `SortedUnique` shows that for distinct ids every
   * sorted order is this one.
   */
  function SortFiles(files: seq<FileInfo>): (r: seq<FileInfo>)
    ensures multiset(r) == multiset(files) && |r| == |files|
  {
    if files == [] then []
    else
      assert files == [files[0]] + files[1..];
      Insert(files[0], SortFiles(files[1..]))
  }

  /** Every id in `fs` is at least `id`. */
  ghost predicate AllAtLeast(id: seq<byte>, fs: seq<FileInfo>)
  {
    forall x | x in fs :: Compare(id, x.fileId) <= 0
  }

  lemma SortedCons(y: FileInfo, t: seq<FileInfo>)
    ensures Sorted([y] + t) <==> AllAtLeast(y.fileId, t) && Sorted(t)
  {
    var s := [y] + t;
    assert s[1..] == t;
    if AllAtLeast(y.fileId, t) && Sorted(t) {
      forall i, j | 0 <= i < j < |s| ensures Compare(s[i].fileId, s[j].fileId) <= 0 {
        if i == 0 {
          assert s[j] == t[j - 1] && s[j] in t;
        } else {
          assert s[i] == t[i - 1] && s[j] == t[j - 1];
        }
      }
    }
    if Sorted(s) {
      forall x | x in t ensures Compare(y.fileId, x.fileId) <= 0 {
        var j :| 0 <= j < |t| && t[j] == x;
        assert s[0] == y && s[j + 1] == x;
        assert Compare(s[0].fileId, s[j + 1].fileId) <= 0;
      }
      forall i, j | 0 <= i < j < |t| ensures Compare(t[i].fileId, t[j].fileId) <= 0 {
        assert s[i + 1] == t[i] && s[j + 1] == t[j];
      }
    }
  }

  lemma {:induction false} InsertSorted(f: FileInfo, fs: seq<FileInfo>)
    requires Sorted(fs)
    ensures Sorted(Insert(f, fs))
    decreases |fs|
  {
    if fs == [] || Compare(f.fileId, fs[0].fileId) <= 0 {
      if fs != [] {
        assert fs == [fs[0]] + fs[1..];
        SortedCons(fs[0], fs[1..]);
        forall x | x in fs ensures Compare(f.fileId, x.fileId) <= 0 {
          if x == fs[0] {
          } else {
            assert x in fs[1..];
            CompareTransitive(f.fileId, fs[0].fileId, x.fileId);
          }
        }
      }
      SortedCons(f, fs);
    } else {
      assert fs == [fs[0]] + fs[1..];
      SortedCons(fs[0], fs[1..]);
      CompareFlips(f.fileId, fs[0].fileId);
      InsertSorted(f, fs[1..]);
      SortedCons(fs[0], Insert(f, fs[1..]));
    }
  }

  /** The files in the order `fromFiles` uses: ascending by id, and a permutation of the input. */
  lemma {:induction false} SortFilesSorted(files: seq<FileInfo>)
    ensures Sorted(SortFiles(files))
    ensures multiset(SortFiles(files)) == multiset(files)
    decreases |files|
  {
    if files != [] {
      SortFilesSorted(files[1..]);
      InsertSorted(files[0], SortFiles(files[1..]));
    }
  }

  lemma DistinctCons(f: FileInfo, fs: seq<FileInfo>)
    requires DistinctIds(fs)
    requires forall g | g in fs :: g.fileId != f.fileId
    ensures DistinctIds([f] + fs)
  {
    forall i, j | 0 <= i < j < |[f] + fs| ensures ([f] + fs)[i].fileId != ([f] + fs)[j].fileId {
      if i == 0 {
        assert ([f] + fs)[j] == fs[j - 1];
      }
    }
  }

  lemma {:induction false} InsertDistinct(f: FileInfo, fs: seq<FileInfo>)
    requires DistinctIds(fs)
    requires forall g | g in fs :: g.fileId != f.fileId
    ensures DistinctIds(Insert(f, fs))
    decreases |fs|
  {
    if fs == [] || Compare(f.fileId, fs[0].fileId) <= 0 {
      DistinctCons(f, fs);
    } else {
      var head, tail := fs[0], fs[1..];
      assert DistinctIds(tail) && forall x | x in tail :: x.fileId != head.fileId by {
        DistinctTail(fs);
      }
      InsertDistinct(f, tail);
      var rest := Insert(f, tail);
      assert forall g | g in rest :: g.fileId != head.fileId by {
        assert head in fs;
      }
      DistinctCons(head, rest);
    }
  }

  lemma {:induction false} SortFilesDistinct(files: seq<FileInfo>)
    requires DistinctIds(files)
    ensures DistinctIds(SortFiles(files))
    decreases |files|
  {
    if files != [] {
      var head, tail := files[0], files[1..];
      assert DistinctIds(tail) && forall x | x in tail :: x.fileId != head.fileId by {
        DistinctTail(files);
      }
      SortFilesDistinct(tail);
      var sorted := SortFiles(tail);
      forall g | g in sorted ensures g.fileId != head.fileId {
        assert g in multiset(tail);
      }
      InsertDistinct(head, sorted);
    }
  }

  lemma DistinctTail(s: seq<FileInfo>)
    requires s != [] && DistinctIds(s)
    ensures DistinctIds(s[1..])
    ensures forall x | x in s[1..] :: x.fileId != s[0].fileId
  {
    forall i, j | 0 <= i < j < |s[1..]| ensures s[1..][i].fileId != s[1..][j].fileId {
      assert s[1..][i] == s[i + 1] && s[1..][j] == s[j + 1];
    }
    forall x | x in s[1..] ensures x.fileId != s[0].fileId {
      var j :| 0 <= j < |s[1..]| && s[1..][j] == x;
      assert s[j + 1] == x;
    }
  }

  /** Files with the same id are the same file: ids distinct, except for exact copies. */
  ghost predicate SameIdSameFile(fs: seq<FileInfo>)
  {
    forall i, j :: 0 <= i < |fs| && 0 <= j < |fs| && fs[i].fileId == fs[j].fileId ==> fs[i] == fs[j]
  }

  lemma SortedHeads(s: seq<FileInfo>, t: seq<FileInfo>)
    requires Sorted(s) && Sorted(t) && SameIdSameFile(s) && s != [] && t != []
    requires s[0] in t && t[0] in s
    ensures s[0] == t[0]
  {
    var s0, t0 := s[0], t[0];
    assert s == [s0] + s[1..] && t == [t0] + t[1..];
    SortedCons(s0, s[1..]);
    SortedCons(t0, t[1..]);
    if s0 != t0 {
      assert s0 in t[1..] && t0 in s[1..];
      CompareFlips(s0.fileId, t0.fileId);
      CompareZero(s0.fileId, t0.fileId);
      assert false;
    }
  }

  lemma SameIdTail(s: seq<FileInfo>)
    requires s != [] && SameIdSameFile(s)
    ensures SameIdSameFile(s[1..])
  {
    forall i, j | 0 <= i < |s| - 1 && 0 <= j < |s| - 1 && s[1..][i].fileId == s[1..][j].fileId
      ensures s[1..][i] == s[1..][j]
    {
      assert s[1..][i] == s[i + 1] && s[1..][j] == s[j + 1];
    }
  }

  /**
   * Two sorted arrangements of the same files are the same list when files
   * with equal ids are copies of each other (in particular, when ids are distinct).
   */
  lemma {:induction false} SortedUnique(s: seq<FileInfo>, t: seq<FileInfo>)
    requires Sorted(s) && Sorted(t) && SameIdSameFile(s)
    requires multiset(s) == multiset(t)
    ensures s == t
    decreases |s|
  {
    assert |s| == |multiset(s)| == |multiset(t)| == |t|;
    if s != [] {
      assert s[0] == t[0] by {
        assert s[0] in multiset(t) && t[0] in multiset(s);
        SortedHeads(s, t);
      }
      MultisetTails(s, t);
      SortedTail(s);
      SortedTail(t);
      SameIdTail(s);
      SortedUnique(s[1..], t[1..]);
      assert s == [s[0]] + s[1..] && t == [t[0]] + t[1..];
    }
  }

  lemma MultisetTails(s: seq<FileInfo>, t: seq<FileInfo>)
    requires s != [] && t != [] && s[0] == t[0] && multiset(s) == multiset(t)
    ensures multiset(s[1..]) == multiset(t[1..])
  {
    assert s == [s[0]] + s[1..] && t == [t[0]] + t[1..];
    assert multiset(s[1..]) == multiset(s) - multiset{s[0]};
    assert multiset(t[1..]) == multiset(t) - multiset{t[0]};
  }

  lemma SortedTail(s: seq<FileInfo>)
    requires s != [] && Sorted(s)
    ensures Sorted(s[1..])
  {
    assert s == [s[0]] + s[1..];
    SortedCons(s[0], s[1..]);
  }

  // ---------------------------------------------------------------------
  // The shape fromFiles builds
  // ---------------------------------------------------------------------

  /** When the count is odd, the last file is appended once more. */
  function Pad(sorted: seq<FileInfo>): (r: seq<FileInfo>)
    ensures |r| % 2 == 0
    ensures |r| == |sorted| + |sorted| % 2 && r[..|sorted|] == sorted
    ensures |r| > |sorted| ==> r[|r| - 1] == r[|r| - 2]
  {
    if |sorted| % 2 == 1 then sorted + [sorted[|sorted| - 1]] else sorted
  }

  /** One leaf per file, holding the file's hash. */
  function LeafLayer(files: seq<FileInfo>): (r: seq<Node>)
    ensures |r| == |files|
  {
    seq(|files|, i requires 0 <= i < |files| => Leaf(files[i].sha256))
  }

  /** The next layer up: nodes 2i and 2i+1 become one inner node; a trailing odd node has no right child. */
  function Pair(layer: seq<Node>): (r: seq<Node>)
    ensures |r| == (|layer| + 1) / 2
  {
    seq((|layer| + 1) / 2,
        k requires 0 <= k < (|layer| + 1) / 2 =>
          Inner(layer[2 * k], if 2 * k + 1 < |layer| then Some(layer[2 * k + 1]) else None))
  }

  lemma PairAt(layer: seq<Node>, k: nat)
    requires 2 * k < |layer|
    ensures Pair(layer)[k] == Inner(layer[2 * k], if 2 * k + 1 < |layer| then Some(layer[2 * k + 1]) else None)
  {
  }

  /** Pairing layers until at most one node is left. */
  function Build(layer: seq<Node>): (r: seq<Node>)
    ensures |layer| == 0 <==> |r| == 0
    ensures |r| <= 1
    decreases |layer|
  {
    if |layer| <= 1 then layer else Build(Pair(layer))
  }

  /** The value of the tree `fromFiles` builds from a non-empty collection of files. */
  function TreeOf(files: seq<FileInfo>): Node
    requires |files| > 0
  {
    Build(LeafLayer(Pad(SortFiles(files))))[0]
  }

  /** The leaf hashes of a tree, left to right. */
  function Leaves(n: Node): seq<seq<byte>>
  {
    match n
    case Leaf(h) => [h]
    case Inner(a, b) => Leaves(a) + (if b.Some? then Leaves(b.value) else [])
  }

  function LayerLeaves(layer: seq<Node>): seq<seq<byte>>
  {
    if layer == [] then [] else Leaves(layer[0]) + LayerLeaves(layer[1..])
  }

  lemma {:induction false} PairLeaves(layer: seq<Node>)
    ensures LayerLeaves(Pair(layer)) == LayerLeaves(layer)
    decreases |layer|
  {
    var p := Pair(layer);
    if |layer| == 1 {
      assert p == [Inner(layer[0], None)];
      assert p[1..] == [] && layer[1..] == [];
    } else if |layer| >= 2 {
      assert p[1..] == Pair(layer[2..]);
      assert p[0] == Inner(layer[0], Some(layer[1]));
      PairLeaves(layer[2..]);
      assert layer[1..][1..] == layer[2..];
      calc {
        LayerLeaves(p);
        Leaves(layer[0]) + Leaves(layer[1]) + LayerLeaves(layer[2..]);
        Leaves(layer[0]) + (Leaves(layer[1]) + LayerLeaves(layer[2..]));
        LayerLeaves(layer);
      }
    }
  }

  lemma {:induction false} BuildLeaves(layer: seq<Node>)
    ensures LayerLeaves(Build(layer)) == LayerLeaves(layer)
    decreases |layer|
  {
    if |layer| > 1 {
      PairLeaves(layer);
      BuildLeaves(Pair(layer));
    }
  }

  lemma {:induction false} LeafLayerLeaves(files: seq<FileInfo>)
    ensures LayerLeaves(LeafLayer(files)) == seq(|files|, i requires 0 <= i < |files| => files[i].sha256)
    decreases |files|
  {
    if files != [] {
      assert LeafLayer(files)[1..] == LeafLayer(files[1..]);
      LeafLayerLeaves(files[1..]);
    }
  }

  /**
   * Leaf order: the leaves of the built tree, left to right, are the hashes
   * of the files sorted by id, with the last one repeated when the count is odd.
   */
  lemma TreeLeaves(files: seq<FileInfo>)
    requires |files| > 0
    ensures var padded := Pad(SortFiles(files));
      Leaves(TreeOf(files)) == seq(|padded|, i requires 0 <= i < |padded| => padded[i].sha256)
  {
    var layer := LeafLayer(Pad(SortFiles(files)));
    BuildLeaves(layer);
    LeafLayerLeaves(Pad(SortFiles(files)));
    var built := Build(layer);
    assert built[1..] == [];
    assert LayerLeaves(built) == Leaves(built[0]) + [];
  }

  /**
   * Determinism: for files with distinct ids, the tree (and so its top
   * hash) depends only on which files there are, not on the order in which
   * the set hands them over.
   */
  lemma TreeIgnoresOrder(files: seq<FileInfo>, shuffled: seq<FileInfo>)
    requires |files| > 0 && DistinctIds(files)
    requires multiset(shuffled) == multiset(files)
    ensures |shuffled| > 0
    ensures TreeOf(shuffled) == TreeOf(files)
  {
    assert |shuffled| == |multiset(shuffled)| == |multiset(files)| == |files|;
    SortFilesSorted(files);
    SortFilesSorted(shuffled);
    SortFilesDistinct(files);
    CopiesSameId(SortFiles(files), SortFiles(files));
    SortedUnique(SortFiles(files), SortFiles(shuffled));
  }

  /**
   * Padding is storing the last file twice: for an odd number of files with
   * distinct ids, the tree is the one built over the same files plus a
   * second copy of the file whose id sorts last.
   */
  lemma OddCountDuplicatesLast(files: seq<FileInfo>)
    requires |files| % 2 == 1 && DistinctIds(files)
    ensures var s := SortFiles(files);
      TreeOf(files + [s[|s| - 1]]) == TreeOf(files)
  {
    var s := SortFiles(files);
    var x := s[|s| - 1];
    var t := s + [x];
    SortFilesSorted(files);
    SortFilesSorted(files + [x]);
    SortedRepeatLast(s);
    assert x in multiset(files);
    assert multiset(t) == multiset(files + [x]) == multiset(SortFiles(files + [x]));
    forall k | 0 <= k < |t| ensures t[k] in files {
      assert t[k] in multiset(t);
    }
    CopiesSameId(files, t);
    SortedUnique(t, SortFiles(files + [x]));
    assert Pad(s) == t;
  }

  /** Repeating the last file of a sorted list keeps it sorted. */
  lemma SortedRepeatLast(s: seq<FileInfo>)
    requires Sorted(s) && s != []
    ensures Sorted(s + [s[|s| - 1]])
  {
    var t := s + [s[|s| - 1]];
    forall i, j | 0 <= i < j < |t| ensures Compare(t[i].fileId, t[j].fileId) <= 0 {
      if j == |s| && i == |s| - 1 {
        CompareZero(t[i].fileId, t[j].fileId);
      } else if j == |s| {
        assert t[j] == s[|s| - 1];
      }
    }
  }

  /** A list drawn from files with distinct ids holds equal ids only in copies. */
  lemma CopiesSameId(files: seq<FileInfo>, t: seq<FileInfo>)
    requires DistinctIds(files)
    requires forall k :: 0 <= k < |t| ==> t[k] in files
    ensures SameIdSameFile(t)
  {
    forall i, j | 0 <= i < |t| && 0 <= j < |t| && t[i].fileId == t[j].fileId ensures t[i] == t[j] {
      var a :| 0 <= a < |files| && files[a] == t[i];
      var b :| 0 <= b < |files| && files[b] == t[j];
      if a < b || b < a {
        assert false;
      }
    }
  }

  // ---------------------------------------------------------------------
  // Breadth-first order
  // ---------------------------------------------------------------------

  function Size(n: Node): nat
  {
    match n
    case Leaf(_) => 1
    case Inner(a, b) => 1 + Size(a) + (if b.Some? then Size(b.value) else 0)
  }

  function QueueSize(q: seq<Node>): nat
  {
    if q == [] then 0 else Size(q[0]) + QueueSize(q[1..])
  }

  lemma {:induction false} QueueSizeAppend(p: seq<Node>, q: seq<Node>)
    ensures QueueSize(p + q) == QueueSize(p) + QueueSize(q)
    decreases |p|
  {
    if p == [] {
      assert p + q == q;
    } else {
      assert (p + q)[1..] == p[1..] + q;
      QueueSizeAppend(p[1..], q);
    }
  }

  /** The children of a node, left before right. */
  function Children(n: Node): (r: seq<Node>)
    ensures QueueSize(r) + 1 == Size(n)
  {
    match n
    case Leaf(_) => []
    case Inner(a, None) => assert [a][1..] == []; [a]
    case Inner(a, Some(b)) =>
      assert [a, b][1..] == [b] && [b][1..] == [];
      assert QueueSize([b]) == Size(b);
      [a, b]
  }

  /** The order in which a FIFO queue starting with `q` visits nodes: poll one, enqueue its children. */
  function Bfs(q: seq<Node>): seq<Node>
    decreases QueueSize(q)
  {
    if q == [] then []
    else
      QueueSizeAppend(q[1..], Children(q[0]));
      [q[0]] + Bfs(q[1..] + Children(q[0]))
  }

  /** Every subtree of every queued node is visited. */
  lemma {:induction false} BfsVisitsAll(q: seq<Node>, i: nat, path: seq<bool>)
    requires i < |q| && ValidPath(q[i], path)
    ensures Subtree(q[i], path) in Bfs(q)
    decreases QueueSize(q), |path|
  {
    var next := q[1..] + Children(q[0]);
    QueueSizeAppend(q[1..], Children(q[0]));
    if i == 0 && path == [] {
    } else if i == 0 {
      var c := if !path[0] then 0 else 1;
      assert Children(q[0])[c] == (if !path[0] then q[0].a else q[0].b.value);
      assert next[|q| - 1 + c] == Children(q[0])[c];
      BfsVisitsAll(next, |q| - 1 + c, path[1..]);
    } else {
      assert next[i - 1] == q[i];
      BfsVisitsAll(next, i - 1, path);
    }
  }

  /** The positions of `Children(n)` when `n` sits at `p`, left before right. */
  function ChildPaths(n: Node, p: seq<bool>): (r: seq<seq<bool>>)
    ensures |r| == |Children(n)|
  {
    match n
    case Leaf(_) => []
    case Inner(_, None) => [p + [false]]
    case Inner(_, Some(_)) => [p + [false], p + [true]]
  }

  /** The positions `Bfs(q)` visits, in order, when the queued nodes sit at `ps`. */
  function BfsPaths(q: seq<Node>, ps: seq<seq<bool>>): (r: seq<seq<bool>>)
    requires |ps| == |q|
    ensures |r| == |Bfs(q)|
    decreases QueueSize(q)
  {
    if q == [] then []
    else
      QueueSizeAppend(q[1..], Children(q[0]));
      [ps[0]] + BfsPaths(q[1..] + Children(q[0]), ps[1..] + ChildPaths(q[0], ps[0]))
  }

  /** The child positions of a node at `p` below `root` lead to its children. */
  lemma ChildPathsPlaced(root: Node, p: seq<bool>)
    requires ValidPath(root, p)
    ensures var n := Subtree(root, p);
      forall c :: 0 <= c < |Children(n)| ==>
        ValidPath(root, ChildPaths(n, p)[c]) && Subtree(root, ChildPaths(n, p)[c]) == Children(n)[c]
  {
    var n := Subtree(root, p);
    if n.Inner? {
      assert [false][1..] == [] && [true][1..] == [];
      PathConcat(root, p, [false]);
      PathConcat(root, p, [true]);
    }
  }

  /** Nodes queued at their positions below `root` are visited at those positions, and so are their descendants. */
  lemma {:induction false} BfsPathsPlaced(root: Node, q: seq<Node>, ps: seq<seq<bool>>)
    requires |ps| == |q|
    requires forall i :: 0 <= i < |q| ==> ValidPath(root, ps[i]) && Subtree(root, ps[i]) == q[i]
    ensures forall i :: 0 <= i < |Bfs(q)| ==>
      ValidPath(root, BfsPaths(q, ps)[i]) && Subtree(root, BfsPaths(q, ps)[i]) == Bfs(q)[i]
    decreases QueueSize(q)
  {
    if q != [] {
      QueueSizeAppend(q[1..], Children(q[0]));
      var kids, kidPaths := Children(q[0]), ChildPaths(q[0], ps[0]);
      var next, nextPaths := q[1..] + kids, ps[1..] + kidPaths;
      ChildPathsPlaced(root, ps[0]);
      forall i | 0 <= i < |next| ensures ValidPath(root, nextPaths[i]) && Subtree(root, nextPaths[i]) == next[i] {
        if i < |q| - 1 {
          assert next[i] == q[i + 1] && nextPaths[i] == ps[i + 1];
        } else {
          var c := i - (|q| - 1);
          assert Subtree(root, ps[0]) == q[0] && c < |kids|;
          assert next[i] == kids[c] && nextPaths[i] == kidPaths[c];
        }
      }
      BfsPathsPlaced(root, next, nextPaths);
      forall i | 0 <= i < |Bfs(q)|
        ensures ValidPath(root, BfsPaths(q, ps)[i]) && Subtree(root, BfsPaths(q, ps)[i]) == Bfs(q)[i]
      {
        if i > 0 {
          assert Bfs(q)[i] == Bfs(next)[i - 1];
          assert BfsPaths(q, ps)[i] == BfsPaths(next, nextPaths)[i - 1];
        }
      }
    }
  }

  /**
   * The position of every node in the breadth-first order from `root`: the
   * path from the root that leads to it.
   */
  ghost function BfsPlaces(root: Node): (r: seq<seq<bool>>)
    ensures |r| == |Bfs([root])|
    ensures forall i :: 0 <= i < |r| ==> ValidPath(root, r[i]) && Subtree(root, r[i]) == Bfs([root])[i]
  {
    BfsPathsPlaced(root, [root], [[]]);
    BfsPaths([root], [[]])
  }

  // ---------------------------------------------------------------------
  // verifyFile and reconstruct: the fold over the proof
  // ---------------------------------------------------------------------

  /**
   * One level of the fold. A sibling on the left yields SHA-256(sibling ++
   * current); otherwise SHA-256(current ++ sibling-or-nothing). A left
   * sibling that is absent makes `new InnerNode(null, current)` throw.
   */
  function FoldStep(sha256: Hasher, current: seq<byte>, c: ComplementingHash): Result<seq<byte>>
  {
    if c.left then
      (if c.sha256.None? then Failure(NullPointer) else Success(sha256(c.sha256.value + current)))
    else Success(sha256(current + (if c.sha256.Some? then c.sha256.value else [])))
  }

  /** The hash obtained by folding the whole proof, leaf first. */
  function Fold(sha256: Hasher, current: seq<byte>, proof: seq<ComplementingHash>): Result<seq<byte>>
    decreases |proof|
  {
    if proof == [] then Success(current)
    else
      match FoldStep(sha256, current, proof[0])
      case Failure(e) => Failure(e)
      case Success(next) => Fold(sha256, next, proof[1..])
  }

  lemma {:induction false} FoldAppend(sha256: Hasher, h: seq<byte>, xs: seq<ComplementingHash>, ys: seq<ComplementingHash>)
    ensures Fold(sha256, h, xs + ys) ==
      (match Fold(sha256, h, xs)
       case Failure(e) => Failure(e)
       case Success(mid) => Fold(sha256, mid, ys))
    decreases |xs|
  {
    if xs == [] {
      assert xs + ys == ys;
    } else {
      assert (xs + ys)[0] == xs[0] && (xs + ys)[1..] == xs[1..] + ys;
      match FoldStep(sha256, h, xs[0])
      case Failure(e) =>
      case Success(next) => FoldAppend(sha256, next, xs[1..], ys);
    }
  }

  /** A proof with no left-sibling gaps never throws, and every non-empty fold is a digest. */
  lemma {:induction false} FoldDefined(sha256: Hasher, h: seq<byte>, proof: seq<ComplementingHash>)
    ensures Fold(sha256, h, proof).Success? <==>
      forall i :: 0 <= i < |proof| && proof[i].left ==> proof[i].sha256.Some?
    ensures Fold(sha256, h, proof).Success? && proof != [] ==> |Fold(sha256, h, proof).value| == 32
    decreases |proof|
  {
    if proof != [] {
      if FoldStep(sha256, h, proof[0]).Success? {
        FoldDefined(sha256, FoldStep(sha256, h, proof[0]).value, proof[1..]);
        forall i | 1 <= i < |proof| ensures proof[i] == proof[1..][i - 1] {}
      }
    }
  }

  /**
   * Proof soundness: folding the proof of any node from that node's hash
   * gives the hash of the whole tree.
   */
  lemma {:induction false} ProofAtFoldsToRoot(sha256: Hasher, n: Node, path: seq<bool>)
    requires ValidPath(n, path)
    ensures Fold(sha256, HashOf(sha256, Subtree(n, path)), ProofAt(sha256, n, path))
         == Success(HashOf(sha256, n))
    decreases |path|
  {
    if path != [] {
      var child := if !path[0] then n.a else n.b.value;
      ProofAtFoldsToRoot(sha256, child, path[1..]);
      var step := ProofAt(sha256, n, path)[|path| - 1];
      assert ProofAt(sha256, n, path) == ProofAt(sha256, child, path[1..]) + [step];
      FoldAppend(sha256, HashOf(sha256, Subtree(n, path)), ProofAt(sha256, child, path[1..]), [step]);
      assert [step][1..] == [];
    }
  }

  /**
   * `verifyFile`: rebuild the path from the leaf with one new inner node per
   * step, hash the top node, and compare with the trusted `topHash` byte by
   * byte (a missing top hash never matches).
   */
  method VerifyFile(sha256: Hasher, fileNode: Node, topHash: Option<seq<byte>>,
                    complementingHashes: seq<ComplementingHash>)
    returns (r: Result<bool>)
    requires fileNode.Leaf?
    ensures Fold(sha256, fileNode.leafHash, complementingHashes).Failure? ==>
      r == Failure(Fold(sha256, fileNode.leafHash, complementingHashes).error)
    ensures Fold(sha256, fileNode.leafHash, complementingHashes).Success? ==>
      r == Success(topHash == Some(Fold(sha256, fileNode.leafHash, complementingHashes).value))
  {
    var current := fileNode;
    for i := 0 to |complementingHashes|
      invariant Fold(sha256, fileNode.leafHash, complementingHashes)
             == Fold(sha256, HashOf(sha256, current), complementingHashes[i..])
    {
      var complementingHash := complementingHashes[i];
      var hash := complementingHash.sha256;
      var complementingNode := if hash.Some? then Some(Leaf(hash.value)) else None;
      assert complementingHashes[i..][1..] == complementingHashes[i + 1..];
      if complementingHash.left {
        if complementingNode.None? {
          return Failure(NullPointer);
        }
        current := Inner(complementingNode.value, Some(current));
      } else {
        current := Inner(current, complementingNode);
      }
    }
    assert complementingHashes[|complementingHashes|..] == [];
    var calculatedTopHash := HashOf(sha256, current);
    return Success(topHash == Some(calculatedTopHash));
  }

  /**
   * `reconstruct`: the same fold, returning the rebuilt tree, whose top hash
   * is the folded hash and whose leaves are the starting hash and the siblings.
   */
  method Reconstruct(sha256: Hasher, dataHash: seq<byte>, hashes: seq<ComplementingHash>)
    returns (r: Result<Node>)
    ensures r.Success? <==> Fold(sha256, dataHash, hashes).Success?
    ensures r.Success? ==> HashOf(sha256, r.value) == Fold(sha256, dataHash, hashes).value
    ensures r.Success? ==> dataHash in Leaves(r.value)
  {
    var current := Leaf(dataHash);
    for i := 0 to |hashes|
      invariant Fold(sha256, dataHash, hashes) == Fold(sha256, HashOf(sha256, current), hashes[i..])
      invariant dataHash in Leaves(current)
    {
      var complementingHash := hashes[i];
      var hash := complementingHash.sha256;
      var complementingHashNode := if hash.Some? then Some(Leaf(hash.value)) else None;
      assert hashes[i..][1..] == hashes[i + 1..];
      if complementingHash.left {
        if complementingHashNode.None? {
          return Failure(NullPointer);
        }
        current := Inner(complementingHashNode.value, Some(current));
      } else {
        current := Inner(current, complementingHashNode);
      }
    }
    assert hashes[|hashes|..] == [];
    return Success(current);
  }

  // ---------------------------------------------------------------------
  // The tree object
  // ---------------------------------------------------------------------

  /** Whether a node-testing predicate accepts the node with this value. */
  predicate Accepts(p: (bool, seq<byte>) -> bool, sha256: Hasher, n: Node)
  {
    p(n.Leaf?, HashOf(sha256, n))
  }

  ghost function Models(nodes: seq<TreeNode>): (r: seq<Node>)
    ensures |r| == |nodes|
  {
    seq(|nodes|, i requires 0 <= i < |nodes| => nodes[i].Model)
  }

  class MerkleTree {
    const rootNode: TreeNode

    constructor (rootNode: TreeNode)
      ensures this.rootNode == rootNode
    {
      this.rootNode := rootNode;
    }

    /** The root is a well-formed, fully linked tree without a parent. */
    ghost predicate Valid()
      reads rootNode, rootNode.Descendants
    {
      rootNode.Valid() && rootNode.Linked() && rootNode.parent == null
    }

    /** `getTopHash()`: the root node's hash. */
    function GetTopHash(sha256: Hasher): (h: seq<byte>)
      requires rootNode.Valid()
      ensures h == HashOf(sha256, rootNode.Model)
    {
      rootNode.Hash(sha256)
    }

    /**
     * `find(predicate)`: the first node, in breadth-first order with the
     * left child before the right one, that the predicate accepts; null when
     * none does. The predicate sees what a caller can observe of a node:
     * whether it is a leaf, and its hash. `k` is the node's place in the
     * breadth-first order and `path` the position found there.
     */
    method Find(sha256: Hasher, p: (bool, seq<byte>) -> bool) returns (r: TreeNode?, ghost k: nat, ghost path: seq<bool>)
      requires rootNode.Valid()
      ensures r == null <==>
        forall j :: 0 <= j < |Bfs([rootNode.Model])| ==> !Accepts(p, sha256, Bfs([rootNode.Model])[j])
      ensures r != null ==>
        && k < |Bfs([rootNode.Model])|
        && r.Model == Bfs([rootNode.Model])[k]
        && Accepts(p, sha256, r.Model)
        && (forall j :: 0 <= j < k ==> !Accepts(p, sha256, Bfs([rootNode.Model])[j]))
        && path == BfsPlaces(rootNode.Model)[k]
        && rootNode.At(path) == r
    {
      ghost var order := Bfs([rootNode.Model]);
      ghost var places := BfsPlaces(rootNode.Model);
      var queue: seq<TreeNode> := [rootNode];
      ghost var paths: seq<seq<bool>> := [[]];
      ghost var visited: nat := 0;
      assert Models(queue) == [rootNode.Model];
      while queue != []
        invariant |paths| == |queue|
        invariant Placed(rootNode, queue, paths)
        invariant visited <= |order| && order[visited..] == Bfs(Models(queue))
        invariant places[visited..] == BfsPaths(Models(queue), paths)
        invariant forall j :: 0 <= j < visited ==> !Accepts(p, sha256, order[j])
        decreases QueueSize(Models(queue))
      {
        var current := queue[0];
        ghost var currentPath := paths[0];
        ghost var before := Models(queue);
        ModelsTail(queue);
        PlacedTail(rootNode, queue, paths);
        BfsPathsStep(places, visited, before, paths);
        queue, paths := queue[1..], paths[1..];
        BfsStep(order, visited, before);
        ChildModels(current);
        if p(current.a == null, current.Hash(sha256)) {
          assert Accepts(p, sha256, order[visited]);
          return current, visited, currentPath;
        }
        ghost var rest, restPaths := queue, paths;
        if current.a != null {
          var a: TreeNode := current.a;
          AtSnoc(rootNode, currentPath, false);
          PlacedAppend(rootNode, queue, paths, a, currentPath + [false]);
          queue, paths := queue + [a], paths + [currentPath + [false]];
          if current.b != null {
            var b: TreeNode := current.b;
            AtSnoc(rootNode, currentPath, true);
            PlacedAppend(rootNode, queue, paths, b, currentPath + [true]);
            queue, paths := queue + [b], paths + [currentPath + [true]];
          }
        }
        EnqueueKids(rest, current, queue);
        assert paths == restPaths + ChildPaths(current.Model, currentPath);
        visited := visited + 1;
      }
      assert visited == |order|;
      return null, 0, [];
    }
  }

  /** Each queued node is valid and sits at the matching path below `root`. */
  ghost predicate Placed(root: TreeNode, queue: seq<TreeNode>, paths: seq<seq<bool>>)
  {
    |paths| == |queue| &&
    forall i :: 0 <= i < |queue| ==> root.At(paths[i]) == queue[i] && queue[i].Valid()
  }

  lemma PlacedTail(root: TreeNode, queue: seq<TreeNode>, paths: seq<seq<bool>>)
    requires Placed(root, queue, paths) && queue != []
    ensures root.At(paths[0]) == queue[0] && queue[0].Valid()
    ensures Placed(root, queue[1..], paths[1..])
  {
    forall i | 0 <= i < |queue[1..]| ensures root.At(paths[1..][i]) == queue[1..][i] && queue[1..][i].Valid() {
      assert paths[1..][i] == paths[i + 1] && queue[1..][i] == queue[i + 1];
    }
  }

  lemma PlacedAppend(root: TreeNode, queue: seq<TreeNode>, paths: seq<seq<bool>>, x: TreeNode, px: seq<bool>)
    requires Placed(root, queue, paths) && root.At(px) == x && x.Valid()
    ensures Placed(root, queue + [x], paths + [px])
  {
    forall i | 0 <= i < |queue| + 1 ensures root.At((paths + [px])[i]) == (queue + [x])[i] && (queue + [x])[i].Valid() {
      if i < |queue| {
        assert (paths + [px])[i] == paths[i] && (queue + [x])[i] == queue[i];
      }
    }
  }

  /** Enqueuing a node's children appends their values, left before right. */
  lemma EnqueueKids(rest: seq<TreeNode>, n: TreeNode, queue: seq<TreeNode>)
    requires n.Valid()
    requires n.a == null ==> queue == rest
    requires n.a != null && n.b == null ==> queue == rest + [n.a]
    requires n.a != null && n.b != null ==> queue == rest + [n.a] + [n.b]
    ensures Models(queue) == Models(rest) + Children(n.Model)
  {
    if n.a != null {
      ModelsAppend(rest, n.a);
      if n.b != null {
        ModelsAppend(rest + [n.a], n.b);
      }
    }
  }

  lemma ChildModels(n: TreeNode)
    requires n.Valid()
    ensures n.a == null ==> n.b == null && Children(n.Model) == []
    ensures n.a != null ==> n.a.Valid() && (n.b != null ==> n.b.Valid())
    ensures n.a != null && n.b == null ==> Children(n.Model) == [n.a.Model]
    ensures n.a != null && n.b != null ==> Children(n.Model) == [n.a.Model, n.b.Model]
  {
  }

  lemma ModelsTail(q: seq<TreeNode>)
    requires q != []
    ensures Models(q)[0] == q[0].Model && Models(q)[1..] == Models(q[1..])
  {
  }

  lemma ModelsAppend(q: seq<TreeNode>, x: TreeNode)
    ensures Models(q + [x]) == Models(q) + [x.Model]
  {
  }

  /** One round of the search: the polled node is next in the order, and the rest follows from the new queue. */
  lemma BfsStep(order: seq<Node>, visited: nat, before: seq<Node>)
    requires visited <= |order| && order[visited..] == Bfs(before) && before != []
    ensures visited < |order| && order[visited] == before[0]
    ensures order[visited + 1..] == Bfs(before[1..] + Children(before[0]))
    ensures QueueSize(before[1..] + Children(before[0])) < QueueSize(before)
  {
    QueueSizeAppend(before[1..], Children(before[0]));
    assert order[visited + 1..] == order[visited..][1..];
  }

  /** One round of the search, for positions: the polled position is next, and the rest follows from the new queue. */
  lemma BfsPathsStep(places: seq<seq<bool>>, visited: nat, before: seq<Node>, paths: seq<seq<bool>>)
    requires |paths| == |before| && before != []
    requires visited <= |places| && places[visited..] == BfsPaths(before, paths)
    ensures visited < |places| && places[visited] == paths[0]
    ensures places[visited + 1..]
         == BfsPaths(before[1..] + Children(before[0]), paths[1..] + ChildPaths(before[0], paths[0]))
  {
    QueueSizeAppend(before[1..], Children(before[0]));
    assert places[visited + 1..] == places[visited..][1..];
  }

  /** The node one step below the node at `p`. */
  lemma {:induction false} AtSnoc(root: TreeNode, p: seq<bool>, d: bool)
    requires root.At(p) != null
    ensures root.At(p + [d]) == (if !d then root.At(p).a else root.At(p).b)
    decreases |p|
  {
    if p == [] {
      assert [] + [d] == [d];
      assert [d][1..] == [];
    } else {
      assert (p + [d])[1..] == p[1..] + [d];
      var child := if !p[0] then root.a else root.b;
      AtSnoc(child, p[1..], d);
    }
  }

  /**
   * `fromFiles`: sort the files by id, repeat the last one if their number
   * is odd, make one leaf per file, then pair nodes layer by layer until one
   * is left. An empty collection makes `layerNodes.get(0)` throw.
   */
  method FromFiles(files: seq<FileInfo>) returns (r: Result<MerkleTree>)
    ensures r.Success? <==> |files| > 0
    ensures r.Failure? ==> r.error == IndexOutOfBounds
    ensures r.Success? ==> fresh(r.value) && r.value.Valid() && r.value.rootNode.Model == TreeOf(files)
  {
    var sortedFiles := SortFiles(files);
    if |sortedFiles| % 2 == 1 {
      var lastFile := sortedFiles[|sortedFiles| - 1];
      sortedFiles := sortedFiles + [lastFile];
    }
    assert sortedFiles == Pad(SortFiles(files));

    var layerNodes := MakeLeaves(sortedFiles);
    ghost var spec := Build(LeafLayer(sortedFiles));
    while |layerNodes| > 1
      invariant forall j :: 0 <= j < |layerNodes| ==>
        fresh(layerNodes[j]) && layerNodes[j].Valid() && layerNodes[j].Linked() && layerNodes[j].parent == null
      invariant forall j, j' :: 0 <= j < j' < |layerNodes| ==>
        layerNodes[j].Footprint() !! layerNodes[j'].Footprint()
      invariant Build(Models(layerNodes)) == spec
      decreases |layerNodes|
    {
      layerNodes := PairLayer(layerNodes);
    }

    if |layerNodes| == 0 {
      return Failure(IndexOutOfBounds);
    }
    var tree := new MerkleTree(layerNodes[0]);
    return Success(tree);
  }

  /** The first loop of `fromFiles`: one new, parentless leaf per file, in order. */
  method MakeLeaves(sortedFiles: seq<FileInfo>) returns (layerNodes: seq<TreeNode>)
    ensures Models(layerNodes) == LeafLayer(sortedFiles)
    ensures forall j :: 0 <= j < |layerNodes| ==>
      fresh(layerNodes[j]) && layerNodes[j].Valid() && layerNodes[j].Linked() && layerNodes[j].parent == null
    ensures forall j, j' :: 0 <= j < j' < |layerNodes| ==> layerNodes[j].Footprint() !! layerNodes[j'].Footprint()
  {
    layerNodes := [];
    for i := 0 to |sortedFiles|
      invariant |layerNodes| == i
      invariant Models(layerNodes) == LeafLayer(sortedFiles)[..i]
      invariant forall j :: 0 <= j < i ==>
        fresh(layerNodes[j]) && layerNodes[j].Valid() && layerNodes[j].Linked() && layerNodes[j].parent == null
      invariant forall j, j' :: 0 <= j < j' < i ==> layerNodes[j].Footprint() !! layerNodes[j'].Footprint()
    {
      var leaf := new TreeNode.LeafNode(sortedFiles[i].sha256);
      layerNodes := layerNodes + [leaf];
    }
    assert LeafLayer(sortedFiles)[..|sortedFiles|] == LeafLayer(sortedFiles);
  }

  /**
   * The inner loop of `fromFiles`: nodes 2i and 2i+1 of a layer of disjoint,
   * parentless trees become the children of a new inner node (a trailing
   * odd node gets no sibling), and the new nodes form the next layer.
   */
  method PairLayer(layerNodes: seq<TreeNode>) returns (newLayerNodes: seq<TreeNode>)
    requires forall j :: 0 <= j < |layerNodes| ==>
      layerNodes[j].Valid() && layerNodes[j].Linked() && layerNodes[j].parent == null
    requires forall j, j' :: 0 <= j < j' < |layerNodes| ==>
      layerNodes[j].Footprint() !! layerNodes[j'].Footprint()
    modifies set j | 0 <= j < |layerNodes| :: layerNodes[j]
    ensures Models(newLayerNodes) == Pair(Models(layerNodes))
    ensures forall k :: 0 <= k < |newLayerNodes| ==>
      fresh(newLayerNodes[k]) && newLayerNodes[k].Valid() && newLayerNodes[k].Linked() && newLayerNodes[k].parent == null
    ensures forall k, k' :: 0 <= k < k' < |newLayerNodes| ==>
      newLayerNodes[k].Footprint() !! newLayerNodes[k'].Footprint()
  {
    newLayerNodes := [];
    ghost var models := Models(layerNodes);
    ghost var pairs := Pair(models);
    ghost var seen: set<TreeNode> := {};
    var i := 0;
    while i < |layerNodes|
      invariant i == 2 * |newLayerNodes| && 0 <= i <= |layerNodes| + 1
      invariant |newLayerNodes| <= |pairs|
      invariant Models(newLayerNodes) == pairs[..|newLayerNodes|]
      invariant forall k :: 0 <= k < |newLayerNodes| ==> fresh(newLayerNodes[k])
      invariant Forest(newLayerNodes, seen)
      invariant forall k, k' :: 0 <= k < k' < |newLayerNodes| ==>
        newLayerNodes[k].Footprint() !! newLayerNodes[k'].Footprint()
      invariant forall j :: i <= j < |layerNodes| ==>
        layerNodes[j].Linked() && layerNodes[j].parent == null && layerNodes[j].Footprint() !! seen
      decreases |layerNodes| - i
    {
      var newNode := PairStep(layerNodes, i, newLayerNodes, seen);
      PairAt(models, |newLayerNodes|);
      ModelsExtend(newLayerNodes, newNode, pairs);
      seen := seen + newNode.Footprint();
      newLayerNodes := newLayerNodes + [newNode];
      i := i + 2;
    }
    HalfUp(|layerNodes|, |newLayerNodes|);
    assert pairs[..|newLayerNodes|] == pairs;
  }

  /**
   * One round of the inner loop of `fromFiles`: node `i` and, when there is
   * one, node `i + 1` of the layer become the children of a new inner node.
   * The new node joins the trees already built, which keep their shape.
   */
  method PairStep(layerNodes: seq<TreeNode>, i: nat, newLayerNodes: seq<TreeNode>, ghost seen: set<TreeNode>)
    returns (newNode: TreeNode)
    requires i < |layerNodes|
    requires forall j :: 0 <= j < |layerNodes| ==> layerNodes[j].Valid()
    requires forall j, j' :: 0 <= j < j' < |layerNodes| ==>
      layerNodes[j].Footprint() !! layerNodes[j'].Footprint()
    requires Forest(newLayerNodes, seen)
    requires forall k, k' :: 0 <= k < k' < |newLayerNodes| ==>
      newLayerNodes[k].Footprint() !! newLayerNodes[k'].Footprint()
    requires forall j :: i <= j < |layerNodes| ==>
      layerNodes[j].Linked() && layerNodes[j].parent == null && layerNodes[j].Footprint() !! seen
    modifies {layerNodes[i]} + (if i + 1 < |layerNodes| then {layerNodes[i + 1]} else {})
    ensures fresh(newNode)
    ensures newNode.Model == Inner(layerNodes[i].Model, if i + 1 < |layerNodes| then Some(layerNodes[i + 1].Model) else None)
    ensures Forest(newLayerNodes + [newNode], seen + newNode.Footprint())
    ensures forall k, k' :: 0 <= k < k' < |newLayerNodes| + 1 ==>
      (newLayerNodes + [newNode])[k].Footprint() !! (newLayerNodes + [newNode])[k'].Footprint()
    ensures forall j :: i + 2 <= j < |layerNodes| ==>
      layerNodes[j].Linked() && layerNodes[j].parent == null && layerNodes[j].Footprint() !! seen + newNode.Footprint()
  {
    var a := layerNodes[i];
    var b := if i + 1 < |layerNodes| then layerNodes[i + 1] else null;
    assert a.Linked() && (b != null ==> b.Linked() && a.Footprint() !! b.Footprint());
    newNode := new TreeNode.InnerNode(a, b);
    assert newNode.Valid() && newNode.Linked();
    ForestSnoc(newLayerNodes, newNode, seen, seen + newNode.Footprint());
  }

  /** Every node of `nodes` roots a valid, linked, parentless tree lying inside `region`. */
  ghost predicate Forest(nodes: seq<TreeNode>, region: set<TreeNode>)
    reads region
  {
    forall k :: 0 <= k < |nodes| ==>
      && nodes[k].Valid() && nodes[k].Footprint() <= region
      && nodes[k].Linked() && nodes[k].parent == null
  }

  lemma ForestSnoc(nodes: seq<TreeNode>, x: TreeNode, region: set<TreeNode>, region': set<TreeNode>)
    requires Forest(nodes, region) && region' == region + x.Footprint()
    requires x.Valid() && x.Linked() && x.parent == null
    ensures Forest(nodes + [x], region')
  {
  }

  lemma ModelsExtend(nodes: seq<TreeNode>, x: TreeNode, target: seq<Node>)
    requires |nodes| < |target| && Models(nodes) == target[..|nodes|] && x.Model == target[|nodes|]
    ensures Models(nodes + [x]) == target[..|nodes| + 1]
  {
    ModelsAppend(nodes, x);
    assert target[..|nodes| + 1] == target[..|nodes|] + [target[|nodes|]];
  }

  lemma HalfUp(n: nat, m: nat)
    requires n <= 2 * m <= n + 1
    ensures m == (n + 1) / 2
  {
  }
}
