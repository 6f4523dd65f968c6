/**
 * Merkle tree nodes. `Node` is the value of a (sub)tree; `TreeNode` is the
 * heap object the system builds: a leaf node (no children, a stored hash) or
 * an inner node (a left child and an optional right child), each with a
 * mutable back-pointer to its parent.
 */
module Nodes {
  import opened Bytes
  import opened ComplementingHashes

  /** The value of a (sub)tree: a leaf with its stored hash, or an inner node. */
  datatype Node = Leaf(leafHash: seq<byte>) | Inner(a: Node, b: Option<Node>)

  /**
   * The hash of a node: a leaf's stored bytes, or SHA-256 of the left
   * child's hash followed by the right child's hash (nothing when absent).
   */
  function HashOf(sha256: Hasher, n: Node): seq<byte>
  {
    match n
    case Leaf(h) => h
    case Inner(a, b) =>
      sha256(HashOf(sha256, a) + (if b.Some? then HashOf(sha256, b.value) else []))
  }

  /** The hash of an inner node with no right child is SHA-256 of its left child's hash alone. */
  lemma SingleChildHash(sha256: Hasher, x: Node)
    ensures HashOf(sha256, Inner(x, None)) == sha256(HashOf(sha256, x))
    ensures HashOf(sha256, Inner(x, None)) == sha256(HashOf(sha256, x) + [])
  {
    assert HashOf(sha256, x) + [] == HashOf(sha256, x);
  }

  /** Every inner node hashes to a 32-byte digest. */
  lemma InnerHashIsDigest(sha256: Hasher, n: Node)
    requires n.Inner?
    ensures |HashOf(sha256, n)| == 32
  {
  }

  // ---------------------------------------------------------------------
  // Positions in a tree: a path of directions from the root, false for the
  // left child `a` and true for the right child `b`.
  // ---------------------------------------------------------------------

  predicate ValidPath(n: Node, path: seq<bool>)
    decreases |path|
  {
    path == [] ||
    (n.Inner? &&
     (if !path[0] then ValidPath(n.a, path[1..])
      else n.b.Some? && ValidPath(n.b.value, path[1..])))
  }

  function Subtree(n: Node, path: seq<bool>): Node
    requires ValidPath(n, path)
    decreases |path|
  {
    if path == [] then n
    else if !path[0] then Subtree(n.a, path[1..])
    else Subtree(n.b.value, path[1..])
  }

  /**
   * The inclusion proof of the node at `path`: one step per ancestor, from the
   * node's parent up to the root. Below a left child the step is (false, the
   * right sibling's hash or None); below a right child it is (true, the left
   * sibling's hash).
   */
  function ProofAt(sha256: Hasher, n: Node, path: seq<bool>): (proof: seq<ComplementingHash>)
    requires ValidPath(n, path)
    ensures |proof| == |path|
    ensures forall i :: 0 <= i < |proof| && proof[i].left ==> proof[i].sha256.Some?
    decreases |path|
  {
    if path == [] then []
    else if !path[0] then
      ProofAt(sha256, n.a, path[1..])
      + [ComplementingHash(false, if n.b.Some? then Some(HashOf(sha256, n.b.value)) else None)]
    else
      ProofAt(sha256, n.b.value, path[1..]) + [ComplementingHash(true, Some(HashOf(sha256, n.a)))]
  }

  lemma {:induction false} SubtreeStep(n: Node, path: seq<bool>, d: bool)
    requires ValidPath(n, path)
    ensures ValidPath(n, path + [d]) <==>
      (Subtree(n, path).Inner? && (!d || Subtree(n, path).b.Some?))
    ensures ValidPath(n, path + [d]) ==>
      Subtree(n, path + [d]) == (if !d then Subtree(n, path).a else Subtree(n, path).b.value)
    decreases |path|
  {
    if path == [] {
      assert [] + [d] == [d];
      assert [d][1..] == [];
    } else {
      assert (path + [d])[1..] == path[1..] + [d];
      if !path[0] {
        SubtreeStep(n.a, path[1..], d);
      } else {
        SubtreeStep(n.b.value, path[1..], d);
      }
    }
  }

  /** A path is valid exactly when its prefix is, and its suffix is valid below the prefix. */
  lemma {:induction false} PathConcat(n: Node, p: seq<bool>, q: seq<bool>)
    ensures ValidPath(n, p + q) <==> ValidPath(n, p) && ValidPath(Subtree(n, p), q)
    ensures ValidPath(n, p + q) ==> Subtree(n, p + q) == Subtree(Subtree(n, p), q)
    decreases |p|
  {
    if p == [] {
      assert p + q == q;
    } else {
      assert (p + q)[0] == p[0] && (p + q)[1..] == p[1..] + q;
      if n.Inner? {
        if !p[0] {
          PathConcat(n.a, p[1..], q);
        } else if n.b.Some? {
          PathConcat(n.b.value, p[1..], q);
        }
      }
    }
  }

  /** The proof of a node one level below `m` ends with the step `m` contributes. */
  lemma ProofAtCons(sha256: Hasher, m: Node, d: bool, q: seq<bool>)
    requires ValidPath(m, [d] + q)
    ensures ValidPath(m, [d]) && ValidPath(Subtree(m, [d]), q)
    ensures ProofAt(sha256, m, [d] + q) == ProofAt(sha256, Subtree(m, [d]), q) + ProofAt(sha256, m, [d])
  {
    assert ([d] + q)[0] == d && ([d] + q)[1..] == q;
    assert [d][1..] == [];
    PathConcat(m, [d], q);
  }

  // ---------------------------------------------------------------------
  // The node objects (`LeafNode`, `InnerNode`).
  // ---------------------------------------------------------------------

  /**
   * A node object. A `LeafNode` has no children and stores `hash`; an
   * `InnerNode` has a left child `a` and an optional right child `b`. The
   * children never change; `parent` is set by the constructor of the inner
   * node that adopts this one.
   */
  class TreeNode {
    var parent: TreeNode?
    const a: TreeNode?
    const b: TreeNode?
    /** The stored hash of a leaf node (empty for an inner node). */
    const hash: seq<byte>

    /** The nodes below this one. */
    ghost const Descendants: set<TreeNode>
    /** The value of the subtree rooted here. */
    ghost const Model: Node

    ghost function Footprint(): set<TreeNode>
    {
      {this} + Descendants
    }

    /** The children form a tree whose value is `Model`. Reads no mutable state. */
    ghost predicate Valid()
      decreases Descendants
    {
      && this !in Descendants
      && (a == null ==> b == null && Descendants == {} && Model == Leaf(hash))
      && (a != null ==>
            && Descendants == a.Footprint() + (if b == null then {} else b.Footprint())
            && a !in a.Descendants
            && a.Valid()
            && (b != null ==> b !in b.Descendants && b.Valid() && a.Footprint() !! b.Footprint())
            && Model == Inner(a.Model, if b == null then None else Some(b.Model)))
    }

    /** Every node below this one points back at its parent. */
    ghost predicate Linked()
      requires Valid()
      reads Descendants
      decreases Descendants
    {
      a != null ==>
        && a.parent == this && a.Linked()
        && (b != null ==> b.parent == this && b.Linked())
    }

    /** `new LeafNode(hash)`: a parentless leaf storing `hash`. */
    constructor LeafNode(hash: seq<byte>)
      ensures Valid() && Linked()
      ensures this.hash == hash && a == null && b == null && parent == null
      ensures Model == Leaf(hash)
    {
      this.hash := hash;
      a, b, parent := null, null, null;
      Descendants := {};
      Model := Leaf(hash);
    }

    /**
     * `new InnerNode(a, b)`: stores the children and makes this node the
     * parent of `a` and, when present, of `b`. Nothing else changes.
     */
    constructor InnerNode(a: TreeNode, b: TreeNode?)
      modifies a, b
      ensures this.a == a && this.b == b && parent == null && hash == []
      ensures a.parent == this && (b != null ==> b.parent == this)
      ensures Descendants == a.Footprint() + (if b == null then {} else b.Footprint())
      ensures Model == Inner(a.Model, if b == null then None else Some(b.Model))
      ensures a.Valid() && (b != null ==> b.Valid() && a.Footprint() !! b.Footprint())
              ==> Valid()
      ensures a.Valid() && (b != null ==> b.Valid() && a.Footprint() !! b.Footprint())
              && old(a.Linked()) && (b != null ==> old(b.Linked()))
              ==> Valid() && Linked()
    {
      this.a, this.b := a, b;
      hash, parent := [], null;
      Descendants := a.Footprint() + (if b == null then {} else b.Footprint());
      Model := Inner(a.Model, if b == null then None else Some(b.Model));
      new;
      a.parent := this;
      if b != null {
        b.parent := this;
      }
    }

    /** `hash()`: a leaf's stored bytes, recomputed from the children for an inner node. */
    function Hash(sha256: Hasher): (h: seq<byte>)
      requires Valid()
      ensures h == HashOf(sha256, Model)
      decreases Descendants
    {
      if a == null then hash
      else
        var aHash := a.Hash(sha256);
        var bHash := if b != null then b.Hash(sha256) else [];
        sha256(aHash + bHash)
    }

    /** The node reached from this one by following `path`, or null. */
    function At(path: seq<bool>): TreeNode?
      decreases |path|
    {
      if path == [] then this
      else if !path[0] then (if a == null then null else a.At(path[1..]))
      else (if b == null then null else b.At(path[1..]))
    }

    /**
     * `getComplementingHashes()`: walks the parent pointers from this node to
     * the root, emitting one step per level. `root` and `path` are the tree
     * and this node's position in it; they only serve the proof.
     */
    method GetComplementingHashes(sha256: Hasher, ghost root: TreeNode, ghost path: seq<bool>)
      returns (hashes: seq<ComplementingHash>)
      requires root.Valid() && root.Linked() && root.parent == null && root.At(path) == this
      ensures ValidPath(root.Model, path)
      ensures hashes == ProofAt(sha256, root.Model, path)
    {
      AtModel(root, path);
      hashes := [];
      var current: TreeNode := this;
      ghost var i := |path|;
      assert path[..i] == path && path[i..] == [];
      PathConcat(root.Model, path, []);
      while true
        invariant 0 <= i <= |path|
        invariant current == root.At(path[..i])
        invariant ValidPath(root.Model, path[..i])
        invariant ValidPath(Subtree(root.Model, path[..i]), path[i..])
        invariant hashes == ProofAt(sha256, Subtree(root.Model, path[..i]), path[i..])
        decreases i
      {
        if i > 0 {
          StepUp(sha256, root, path, i);
        }
        var parent := current.parent;
        if parent == null {
          break;
        }
        var a := parent.a;
        var b := parent.b;
        if current == a {
          hashes := hashes + [ComplementingHash(false, if b != null then Some(b.Hash(sha256)) else None)];
        } else {
          // Every node of a linked tree is a child of its parent, so the
          // "Invalid Merkle tree" exception cannot be reached.
          assert current == b;
          hashes := hashes + [ComplementingHash(true, Some(a.Hash(sha256)))];
        }
        current := parent;
        i := i - 1;
      }
      assert path[..0] == [] && path[0..] == path;
    }
  }

  // ---------------------------------------------------------------------
  // Facts about node objects and paths
  // ---------------------------------------------------------------------

  /** The node at a path of a valid tree is a valid node of that tree, with the subtree at that path as its value. */
  lemma {:induction false} AtModel(root: TreeNode, path: seq<bool>)
    requires root.Valid()
    ensures root.At(path) != null <==> ValidPath(root.Model, path)
    ensures root.At(path) != null ==>
      && root.At(path).Valid()
      && root.At(path).Model == Subtree(root.Model, path)
      && root.At(path).Footprint() <= root.Footprint()
    decreases |path|
  {
    if path != [] {
      if !path[0] && root.a != null {
        AtModel(root.a, path[1..]);
      } else if path[0] && root.b != null {
        AtModel(root.b, path[1..]);
      }
    }
  }

  /** Stepping from the node at `p` to its child in direction `d`. */
  lemma AtChild(root: TreeNode, p: seq<bool>, d: bool)
    requires root.Valid() && root.At(p) != null && root.At(p + [d]) != null
    ensures root.At(p + [d]) == (if !d then root.At(p).a else root.At(p).b)
    ensures root.At(p).a != root.At(p).b
    decreases |p|
  {
    AtModel(root, p);
    if p == [] {
      assert [] + [d] == [d];
      assert [d][1..] == [];
    } else {
      assert (p + [d])[1..] == p[1..] + [d];
      var child := if !p[0] then root.a else root.b;
      AtChild(child, p[1..], d);
    }
  }

  /** In a linked tree, the parent of the node at a non-empty path is the node one step up. */
  lemma {:induction false} ParentOfAt(root: TreeNode, path: seq<bool>)
    requires root.Valid() && root.Linked() && |path| > 0 && root.At(path) != null
    ensures root.At(path).parent == root.At(path[..|path| - 1])
    decreases |path|
  {
    var child := if !path[0] then root.a else root.b;
    if |path| == 1 {
      assert path[1..] == [];
      assert path[..0] == [];
    } else {
      ParentOfAt(child, path[1..]);
      assert path[1..][..|path| - 2] == path[..|path| - 1][1..];
    }
  }

  /**
   * One step of the walk to the root: the parent of the node at a non-empty
   * path is the node one step up, the node is its `a` exactly when the last
   * step went left, and the proof from one level up is the proof from here
   * followed by the sibling step.
   */
  lemma StepUp(sha256: Hasher, root: TreeNode, path: seq<bool>, i: nat)
    requires root.Valid() && root.Linked()
    requires 0 < i <= |path| && root.At(path[..i]) != null
    requires ValidPath(root.Model, path[..i]) && ValidPath(Subtree(root.Model, path[..i]), path[i..])
    ensures root.At(path[..i]).parent == root.At(path[..i - 1]) != null
    ensures var n, p := root.At(path[..i]), root.At(path[..i - 1]);
      && p.Valid() && p.a != null && p.a.Valid() && (p.b != null ==> p.b.Valid())
      && (n == p.a <==> !path[i - 1]) && (n != p.a ==> n == p.b)
      && ValidPath(root.Model, path[..i - 1])
      && ValidPath(Subtree(root.Model, path[..i - 1]), path[i - 1..])
      && ProofAt(sha256, Subtree(root.Model, path[..i - 1]), path[i - 1..])
         == ProofAt(sha256, Subtree(root.Model, path[..i]), path[i..])
            + [if !path[i - 1] then ComplementingHash(false, if p.b != null then Some(HashOf(sha256, p.b.Model)) else None)
               else ComplementingHash(true, Some(HashOf(sha256, p.a.Model)))]
  {
    ParentOfAt(root, path[..i]);
    assert path[..i][..i - 1] == path[..i - 1];
    var d := path[i - 1];
    assert path[..i] == path[..i - 1] + [d];
    ghost var up := path[i - 1..];
    assert up[0] == d && up[1..] == path[i..];
    assert up == [d] + path[i..];
    PathConcat(root.Model, path[..i - 1], [d]);
    AtModel(root, path[..i - 1]);
    AtChild(root, path[..i - 1], d);
    AtModel(root, path[..i]);
    ProofAtCons(sha256, Subtree(root.Model, path[..i - 1]), d, path[i..]);
  }
}
