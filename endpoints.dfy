/**
 * What the server's upload, read and verify endpoints do with the Merkle
 * engine: build the tree over the stored files, find the leaf holding the
 * hash of the requested file, and answer with its encoded proof. HTTP
 * routing, status codes and file storage are not modelled; the stored files
 * arrive as a sequence.
 */
module Endpoints {
  import opened Bytes
  import opened ComplementingHashes
  import opened Nodes
  import MerkleTree
  import Client

  /** `new FileInfo(fileId, content)`: the id and the SHA-256 of the content. */
  function NewFileInfo(sha256: Hasher, fileId: seq<byte>, content: seq<byte>): (f: MerkleTree.FileInfo)
    ensures f.fileId == fileId && f.sha256 == sha256(content)
  {
    MerkleTree.FileInfo(fileId, sha256(content))
  }

  // ---------------------------------------------------------------------
  // Leaves and depth of the built tree
  // ---------------------------------------------------------------------

  /** The hash at a leaf position is one of the tree's leaf hashes. */
  lemma {:induction false} SubtreeLeaf(n: Node, path: seq<bool>)
    requires ValidPath(n, path) && Subtree(n, path).Leaf?
    ensures Subtree(n, path).leafHash in MerkleTree.Leaves(n)
    decreases |path|
  {
    if path != [] {
      if !path[0] {
        SubtreeLeaf(n.a, path[1..]);
      } else {
        SubtreeLeaf(n.b.value, path[1..]);
      }
    }
  }

  /** Every leaf hash of a tree sits at some leaf position. */
  lemma {:induction false} LeafPath(n: Node, h: seq<byte>) returns (path: seq<bool>)
    requires h in MerkleTree.Leaves(n)
    ensures ValidPath(n, path) && Subtree(n, path) == Leaf(h)
    decreases n
  {
    match n
    case Leaf(_) =>
      path := [];
    case Inner(a, b) =>
      if h in MerkleTree.Leaves(a) {
        var p := LeafPath(a, h);
        path := [false] + p;
        assert path[1..] == p;
      } else {
        var p := LeafPath(b.value, h);
        path := [true] + p;
        assert path[1..] == p;
      }
  }

  /** No path into any node of `layer` is longer than `h`. */
  ghost predicate DepthAtMost(layer: seq<Node>, h: nat)
  {
    forall k, path :: 0 <= k < |layer| && ValidPath(layer[k], path) ==> |path| <= h
  }

  lemma PairDepth(layer: seq<Node>, h: nat)
    requires DepthAtMost(layer, h)
    ensures DepthAtMost(MerkleTree.Pair(layer), h + 1)
  {
    var pairs := MerkleTree.Pair(layer);
    forall k, path | 0 <= k < |pairs| && ValidPath(pairs[k], path) ensures |path| <= h + 1 {
      MerkleTree.PairAt(layer, k);
      if path != [] {
        var child := if !path[0] then 2 * k else 2 * k + 1;
        assert ValidPath(layer[child], path[1..]);
      }
    }
  }

  /** Each pairing pass adds one level and removes at least one node. */
  lemma {:induction false} BuildDepth(layer: seq<Node>, h: nat)
    requires |layer| > 0 && DepthAtMost(layer, h)
    ensures DepthAtMost(MerkleTree.Build(layer), h + |layer| - 1)
    decreases |layer|
  {
    if |layer| > 1 {
      PairDepth(layer, h);
      BuildDepth(MerkleTree.Pair(layer), h + 1);
    }
  }

  /** A path into the built tree is shorter than its leaf layer, so the proof length fits an `int`. */
  lemma TreeDepth(files: seq<MerkleTree.FileInfo>, path: seq<bool>)
    requires |files| > 0 && ValidPath(MerkleTree.TreeOf(files), path)
    ensures |path| < |MerkleTree.Pad(MerkleTree.SortFiles(files))|
  {
    var layer := MerkleTree.LeafLayer(MerkleTree.Pad(MerkleTree.SortFiles(files)));
    assert DepthAtMost(layer, 0) by {
      forall k, p | 0 <= k < |layer| && ValidPath(layer[k], p) ensures |p| <= 0 {
        assert layer[k].Leaf?;
      }
    }
    BuildDepth(layer, 0);
  }

  /** Sorting and padding keep exactly the stored files. */
  lemma PaddedHoldsFiles(files: seq<MerkleTree.FileInfo>, f: MerkleTree.FileInfo)
    requires |files| > 0
    ensures f in MerkleTree.Pad(MerkleTree.SortFiles(files)) <==> f in files
  {
    var sorted := MerkleTree.SortFiles(files);
    var padded := MerkleTree.Pad(sorted);
    assert f in sorted <==> f in files by {
      assert f in multiset(sorted) <==> f in multiset(files);
    }
    if f in padded {
      var j :| 0 <= j < |padded| && padded[j] == f;
      if j < |sorted| {
        assert padded[..|sorted|][j] == sorted[j];
      } else {
        assert padded[..|sorted|][|sorted| - 1] == sorted[|sorted| - 1];
      }
    }
    if f in sorted {
      var j :| 0 <= j < |sorted| && sorted[j] == f;
      assert padded[..|sorted|][j] == sorted[j];
    }
  }

  /** A file's hash is a leaf of the tree exactly when some stored file has that hash. */
  lemma TreeHoldsFileHashes(files: seq<MerkleTree.FileInfo>, h: seq<byte>)
    requires |files| > 0
    ensures h in MerkleTree.Leaves(MerkleTree.TreeOf(files)) <==> exists i :: 0 <= i < |files| && files[i].sha256 == h
  {
    if h in MerkleTree.Leaves(MerkleTree.TreeOf(files)) {
      LeafIsStoredFile(files, h);
    }
    if exists i :: 0 <= i < |files| && files[i].sha256 == h {
      var i :| 0 <= i < |files| && files[i].sha256 == h;
      StoredFileIsLeaf(files, i);
    }
  }

  /** The leaf hashes of the built tree are the hashes of the padded, sorted files, in order. */
  lemma LeavesArePadded(files: seq<MerkleTree.FileInfo>)
    requires |files| > 0
    ensures var padded := MerkleTree.Pad(MerkleTree.SortFiles(files));
      var leaves := MerkleTree.Leaves(MerkleTree.TreeOf(files));
      |leaves| == |padded| && forall j :: 0 <= j < |padded| ==> leaves[j] == padded[j].sha256
  {
    MerkleTree.TreeLeaves(files);
  }

  lemma LeafIsStoredFile(files: seq<MerkleTree.FileInfo>, h: seq<byte>)
    requires |files| > 0 && h in MerkleTree.Leaves(MerkleTree.TreeOf(files))
    ensures exists i :: 0 <= i < |files| && files[i].sha256 == h
  {
    var padded := MerkleTree.Pad(MerkleTree.SortFiles(files));
    var leaves := MerkleTree.Leaves(MerkleTree.TreeOf(files));
    LeavesArePadded(files);
    var j :| 0 <= j < |leaves| && leaves[j] == h;
    PaddedHoldsFiles(files, padded[j]);
    var i :| 0 <= i < |files| && files[i] == padded[j];
  }

  lemma StoredFileIsLeaf(files: seq<MerkleTree.FileInfo>, i: nat)
    requires i < |files|
    ensures files[i].sha256 in MerkleTree.Leaves(MerkleTree.TreeOf(files))
  {
    var padded := MerkleTree.Pad(MerkleTree.SortFiles(files));
    var leaves := MerkleTree.Leaves(MerkleTree.TreeOf(files));
    LeavesArePadded(files);
    PaddedHoldsFiles(files, files[i]);
    var j :| 0 <= j < |padded| && padded[j] == files[i];
    assert leaves[j] == files[i].sha256;
  }

  /** Pairing a layer of two or more nodes ends in an inner node. */
  lemma {:induction false} BuildIsInner(layer: seq<Node>)
    requires |layer| >= 2
    ensures MerkleTree.Build(layer)[0].Inner?
    decreases |layer|
  {
    var pairs := MerkleTree.Pair(layer);
    MerkleTree.PairAt(layer, 0);
    if |pairs| >= 2 {
      BuildIsInner(pairs);
    }
  }

  /** All hashes of a tree whose leaves are digests are digests. */
  lemma {:induction false} HashIsDigest(sha256: Hasher, n: Node)
    requires forall h | h in MerkleTree.Leaves(n) :: |h| == 32
    ensures |HashOf(sha256, n)| == 32
  {
    if n.Leaf? {
      assert n.leafHash in MerkleTree.Leaves(n);
    }
  }

  /** The siblings in a proof of a tree whose leaves are digests are digests, so the codec can carry the proof. */
  lemma {:induction false} ProofIsWellFormed(sha256: Hasher, n: Node, path: seq<bool>)
    requires ValidPath(n, path)
    requires forall h | h in MerkleTree.Leaves(n) :: |h| == 32
    ensures WellFormed(ProofAt(sha256, n, path))
    decreases |path|
  {
    if path != [] {
      var child, sibling := if !path[0] then n.a else n.b.value, if !path[0] then n.b else Some(n.a);
      assert forall h | h in MerkleTree.Leaves(child) :: h in MerkleTree.Leaves(n);
      ProofIsWellFormed(sha256, child, path[1..]);
      if sibling.Some? {
        assert forall h | h in MerkleTree.Leaves(sibling.value) :: h in MerkleTree.Leaves(n);
        HashIsDigest(sha256, sibling.value);
      }
      var proof := ProofAt(sha256, n, path);
      var head := ProofAt(sha256, child, path[1..]);
      assert proof == head + [proof[|proof| - 1]];
      forall i | 0 <= i < |proof| && proof[i].sha256.Some? ensures |proof[i].sha256.value| == HashLength {
        if i < |head| {
          assert proof[i] == head[i];
        }
      }
    }
  }

  // ---------------------------------------------------------------------
  // The endpoints
  // ---------------------------------------------------------------------

  /**
   * The proof both the upload and the read endpoint send: build the tree
   * over the stored files, find the first leaf holding the SHA-256 of the
   * file's content, and write its complementing hashes. No stored files
   * makes the build throw; no matching leaf leaves `find` with null, which
   * the next call dereferences.
   */
  method ProofResponse(sha256: Hasher, files: seq<MerkleTree.FileInfo>, fileContent: seq<byte>)
    returns (r: Result<seq<byte>>, ghost proof: seq<ComplementingHash>)
    requires |files| <= MaxInt32
    ensures r.Success? <==> exists i :: 0 <= i < |files| && files[i].sha256 == sha256(fileContent)
    ensures r.Failure? ==> r.error == (if |files| == 0 then IndexOutOfBounds else NullPointer)
    ensures r.Success? ==>
      && |files| > 0 && proof == ServedProof(sha256, files, sha256(fileContent))
      && |proof| <= MaxInt32 && WellFormed(proof)
      && r.value == Encode(proof)
      && Decode(r.value, 0) == Success((proof, |r.value|))
      && MerkleTree.Fold(sha256, sha256(fileContent), proof)
         == Success(HashOf(sha256, MerkleTree.TreeOf(files)))
  {
    proof := [];
    var built := MerkleTree.FromFiles(files);
    if built.Failure? {
      return Failure(built.error), proof;
    }
    var merkleTree := built.value;
    var target := sha256(fileContent);
    var leafNode, k, path := merkleTree.Find(sha256, IsLeafWith(target));
    StoredFileIsSearched(sha256, files, target);
    if leafNode == null {
      return Failure(NullPointer), proof;
    }
    FirstLeafIsFound(sha256, MerkleTree.Bfs([merkleTree.rootNode.Model]), target, k);
    AtModel(merkleTree.rootNode, path);
    LeafProof(sha256, files, path, target);
    var complementingHashes := leafNode.GetComplementingHashes(sha256, merkleTree.rootNode, path);
    proof := complementingHashes;
    var outputBytes := Write(complementingHashes);
    RoundTrip(proof, []);
    assert outputBytes + [] == outputBytes;
    r := Success(outputBytes);
  }

  /** The place of the first leaf holding `target` in `order`, or `|order|` when there is none. */
  function FirstLeafWith(order: seq<Node>, target: seq<byte>): (i: nat)
    ensures i <= |order|
    ensures i < |order| ==> order[i] == Leaf(target)
    ensures forall j :: 0 <= j < i ==> order[j] != Leaf(target)
  {
    if order == [] then 0
    else if order[0] == Leaf(target) then 0
    else
      var i := 1 + FirstLeafWith(order[1..], target);
      assert forall j :: 1 <= j < i ==> order[j] == order[1..][j - 1];
      i
  }

  /**
   * What `find` with `IsLeafWith(target)` stops at is the first leaf holding
   * `target` in breadth-first order.
   */
  lemma FirstLeafIsFound(sha256: Hasher, order: seq<Node>, target: seq<byte>, k: nat)
    requires k < |order| && MerkleTree.Accepts(IsLeafWith(target), sha256, order[k])
    requires forall j :: 0 <= j < k ==> !MerkleTree.Accepts(IsLeafWith(target), sha256, order[j])
    ensures k == FirstLeafWith(order, target)
  {
    assert order[k] == Leaf(target);
  }

  /**
   * The proof the endpoints send for a file with hash `target`: the
   * complementing hashes of the first leaf in breadth-first order, over the
   * tree of the stored files, that holds `target`. Empty when no leaf does.
   */
  ghost function ServedProof(sha256: Hasher, files: seq<MerkleTree.FileInfo>, target: seq<byte>): seq<ComplementingHash>
    requires |files| > 0
  {
    var tree := MerkleTree.TreeOf(files);
    var k := FirstLeafWith(MerkleTree.Bfs([tree]), target);
    if k < |MerkleTree.Bfs([tree])| then ProofAt(sha256, tree, MerkleTree.BfsPlaces(tree)[k]) else []
  }

  /** The predicate both endpoints hand to `find`: a leaf whose hash is `target`. */
  function IsLeafWith(target: seq<byte>): (bool, seq<byte>) -> bool
  {
    (isLeaf, hash) => isLeaf && hash == target
  }

  /** When a stored file has hash `target`, the breadth-first order reaches a leaf that `find` accepts. */
  lemma StoredFileIsSearched(sha256: Hasher, files: seq<MerkleTree.FileInfo>, target: seq<byte>)
    requires |files| > 0
    ensures (exists i :: 0 <= i < |files| && files[i].sha256 == target) ==>
      exists j :: 0 <= j < |MerkleTree.Bfs([MerkleTree.TreeOf(files)])|
        && MerkleTree.Accepts(IsLeafWith(target), sha256, MerkleTree.Bfs([MerkleTree.TreeOf(files)])[j])
  {
    var tree := MerkleTree.TreeOf(files);
    TreeHoldsFileHashes(files, target);
    if target in MerkleTree.Leaves(tree) {
      var p := LeafPath(tree, target);
      MerkleTree.BfsVisitsAll([tree], 0, p);
      var order := MerkleTree.Bfs([tree]);
      var j :| 0 <= j < |order| && order[j] == Leaf(target);
      assert MerkleTree.Accepts(IsLeafWith(target), sha256, order[j]);
    }
  }

  /**
   * The leaf at `path` holding `target` belongs to a stored file, and its
   * proof is short enough to write, carries digests only, and folds from
   * `target` to the top hash.
   */
  lemma LeafProof(sha256: Hasher, files: seq<MerkleTree.FileInfo>, path: seq<bool>, target: seq<byte>)
    requires 0 < |files| <= MaxInt32
    requires ValidPath(MerkleTree.TreeOf(files), path)
    requires Subtree(MerkleTree.TreeOf(files), path) == Leaf(target)
    ensures exists i :: 0 <= i < |files| && files[i].sha256 == target
    ensures var proof := ProofAt(sha256, MerkleTree.TreeOf(files), path);
      && |proof| <= MaxInt32 && WellFormed(proof)
      && MerkleTree.Fold(sha256, target, proof) == Success(HashOf(sha256, MerkleTree.TreeOf(files)))
  {
    var tree := MerkleTree.TreeOf(files);
    SubtreeLeaf(tree, path);
    TreeHoldsFileHashes(files, target);
    TreeDepth(files, path);
    assert forall h | h in MerkleTree.Leaves(tree) :: |h| == 32 by {
      forall h | h in MerkleTree.Leaves(tree) ensures |h| == 32 {
        TreeHoldsFileHashes(files, h);
      }
    }
    ProofIsWellFormed(sha256, tree, path);
    MerkleTree.ProofAtFoldsToRoot(sha256, tree, path);
  }

  /** The read endpoint's answer: the proof, then the stored bytes of the file. */
  method ReadResponse(sha256: Hasher, files: seq<MerkleTree.FileInfo>, fileContent: seq<byte>)
    returns (r: Result<seq<byte>>, ghost proof: seq<ComplementingHash>)
    requires |files| <= MaxInt32
    ensures r.Success? <==> exists i :: 0 <= i < |files| && files[i].sha256 == sha256(fileContent)
    ensures r.Failure? ==> r.error == (if |files| == 0 then IndexOutOfBounds else NullPointer)
    ensures r.Success? ==>
      && |files| > 0 && proof == ServedProof(sha256, files, sha256(fileContent))
      && |proof| <= MaxInt32 && WellFormed(proof)
      && r.value == Encode(proof) + fileContent
      && MerkleTree.Fold(sha256, sha256(fileContent), proof)
         == Success(HashOf(sha256, MerkleTree.TreeOf(files)))
  {
    var response;
    response, proof := ProofResponse(sha256, files, fileContent);
    if response.Failure? {
      return response, proof;
    }
    r := Success(response.value + fileContent);
  }

  /** The verify endpoint's answer: the top hash of the tree over the stored files. */
  method VerifyResponse(sha256: Hasher, files: seq<MerkleTree.FileInfo>) returns (r: Result<seq<byte>>)
    ensures r.Success? <==> |files| > 0
    ensures r.Success? ==> r.value == HashOf(sha256, MerkleTree.TreeOf(files)) && |r.value| == 32
  {
    var built := MerkleTree.FromFiles(files);
    if built.Failure? {
      return Failure(built.error);
    }
    var tree := MerkleTree.TreeOf(files);
    assert tree.Inner? by {
      assert |MerkleTree.LeafLayer(MerkleTree.Pad(MerkleTree.SortFiles(files)))| >= 2;
      BuildIsInner(MerkleTree.LeafLayer(MerkleTree.Pad(MerkleTree.SortFiles(files))));
    }
    InnerHashIsDigest(sha256, tree);
    r := Success(built.value.GetTopHash(sha256));
  }

  /**
   * A client whose cache holds the server's top hash accepts every file the
   * read endpoint serves: the Merkle check of `read` passes whenever the
   * rest of the file can be taken apart and decrypted.
   */
  lemma ServedFilePassesMerkleCheck(sha256: Hasher, recover: Client.SignatureRecovery, decrypt: Client.Decryptor,
                                    fileName: seq<byte>, top: seq<byte>,
                                    proof: seq<ComplementingHash>, fileContent: seq<byte>)
    requires |proof| <= MaxInt32 && WellFormed(proof)
    requires MerkleTree.Fold(sha256, sha256(fileContent), proof) == Success(top)
    ensures var r := Client.ReadOutcome(sha256, recover, decrypt, fileName, Some(top), Some(Encode(proof) + fileContent));
      r.Success? ==> r.value.merkleOk
  {
    var reply := Encode(proof) + fileContent;
    RoundTrip(proof, fileContent);
    assert reply[|Encode(proof)|..] == fileContent;
    Client.CacheDecidesOnlyMerkleCheck(sha256, recover, decrypt, fileName, Some(top), Some(top), reply);
  }

  /**
   * Upload followed by verify: the client signs and sends a file, the
   * server stores it beside the files it already holds and answers with the
   * proof for it, the client caches the top hash that proof leads to, and
   * the verify endpoint's top hash then matches the cache.
   */
  method UploadThenVerify(sha256: Hasher, sign: Client.Signer, client: Client.Client,
                          nonce: seq<byte>, iv: seq<byte>, timestamp: Int64, cipherText: seq<byte>,
                          fileId: seq<byte>, others: seq<MerkleTree.FileInfo>)
    returns (uploaded: Result<seq<byte>>, verified: Result<bool>)
    requires |others| < MaxInt32
    requires sign(sha256(Client.EncodeEnvelope(Client.Envelope(nonce, iv, timestamp, cipherText)))).Some?
    modifies client
    ensures uploaded.Success? && verified == Success(true)
  {
    var envelope := Client.EncodeEnvelope(Client.Envelope(nonce, iv, timestamp, cipherText));
    var body := Client.EncodeSigned(sign(sha256(envelope)).value, envelope);
    var files := others + [NewFileInfo(sha256, fileId, body)];
    assert files[|others|].sha256 == sha256(body);
    var reply, proof := ProofResponse(sha256, files, body);
    var sent;
    sent, uploaded := client.Upload(sha256, sign, nonce, iv, timestamp, cipherText, Some(reply.value));
    var top := VerifyResponse(sha256, files);
    verified := client.Verify(Some(top.value));
  }
}
