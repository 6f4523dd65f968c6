# alvinw-cryptography: Merkle engine and client protocol, in Dafny

This project models the core of a small encrypted file store that a server
may not tamper with.

- **Client upload.** The client encrypts each file, frames it and signs it. The framing is a nonce, an iv, a timestamp and the AES-GCM ciphertext, preceded by a length-prefixed RSA signature. The client then uploads it.
- **Merkle tree.** The server keeps a Merkle tree over the SHA-256 hashes of all stored uploads. The leaves are sorted by file id, and the last leaf is repeated when the count is odd. Inner nodes hash their left child's hash followed by their right child's hash.
- **Inclusion proof.** The server answers every upload and read with the inclusion proof of the file. This is the list of *complementing hashes* from the leaf up to the root, written in a small binary format.
- **Cached top hash.** The client folds that proof into a top hash, caches it after an upload, and compares it on every read and verify.

The modules follow the program's structure:

| file | module | models |
|---|---|---|
| `bytes.dfy` | `Bytes` | Java `int`/`long` big-endian encodings, `DataInputStream` reads over an in-memory byte sequence, the exceptions the code can raise |
| `complementing_hash.dfy` | `ComplementingHashes` | `ComplementingHash` and its `read`/`write` codec |
| `nodes.dfy` | `Nodes` | `LeafNode` and `InnerNode`. These are heap objects (`TreeNode`) with a mutable parent pointer, alongside their value model `Node`, node hashing and `getComplementingHashes` |
| `merkle_tree.dfy` | `MerkleTree` | `MerkleTree`: `compareByteArrays`, `fromFiles`, `find`, `getTopHash`, `verifyFile`, `reconstruct` |
| `client.dfy` | `Client` | the client's upload framing, its top-hash cache, and `upload`, `read` and `verify` |
| `endpoints.dfy` | `Endpoints` | how the upload, read and verify endpoints use the engine |

SHA-256, the RSA signature and check, and the AES-GCM decryption are
function parameters. SHA-256 is any function with 32-byte results. The
crypto operations are any functions of the right shape. Every result below
therefore holds for every such function; none relies on a property of the
cryptography.

Java exceptions become `Failure(e)` values of a `Result`, with `e` naming
the exception:

- `EndOfStream`: `EOFException`
- `NegativeLength`: `IllegalArgumentException` for a negative capacity or length
- `NullPointer`
- `IndexOutOfBounds`
- `SecurityFailure`: `GeneralSecurityException`
- `UnexpectedStatus`: `HttpResponseException`

## Model

| member | source | states |
|---|---|---|
| `Bytes.BigEndianRoundTrip` | src/main/java/alvinw/cryptography/merkle/ComplementingHash.java:27 | decoding the big-endian encoding of a value below 256^n gives the value back |
| `Bytes.FromBigEndianInjective` | src/main/java/alvinw/cryptography/merkle/ComplementingHash.java:58 | equal-length byte strings with the same big-endian value are equal |
| `Bytes.SignedWriteInt` | src/main/java/alvinw/cryptography/client/Client.java:178 | `readInt` on what `writeInt(x)` wrote is `x`, for every Java `int` including negative ones |
| `Bytes.SignedWriteLong` | src/main/java/alvinw/cryptography/client/Client.java:158 | `readLong` on what `writeLong(x)` wrote is `x`, for every Java `long` |
| `Bytes.WriteLongSigned` | src/main/java/alvinw/cryptography/client/Client.java:268 | any 8 bytes read as a signed `long` are written back as the same 8 bytes |
| `Bytes.ReadInt` | src/main/java/alvinw/cryptography/merkle/ComplementingHash.java:27 | `readInt` succeeds exactly when 4 bytes remain, and advances by 4 |
| `Bytes.ReadLong` | src/main/java/alvinw/cryptography/client/Client.java:268 | `readLong` succeeds exactly when 8 bytes remain, and advances by 8 |
| `Bytes.ReadBoolean` | src/main/java/alvinw/cryptography/merkle/ComplementingHash.java:30-31 | `readBoolean` succeeds exactly when a byte remains; any non-zero byte reads as true |
| `Bytes.ReadFully` | src/main/java/alvinw/cryptography/merkle/ComplementingHash.java:34 | `readFully` of n bytes succeeds exactly when n bytes remain, and returns n bytes |
| `Bytes.ReadNBytes` | src/main/java/alvinw/cryptography/client/Client.java:244 | `readNBytes(len)` fails only for a negative length; otherwise it returns the next min(len, remaining) bytes and never runs past the end |
| `ComplementingHashes.EncodeEntry` | src/main/java/alvinw/cryptography/merkle/ComplementingHash.java:60-65 | one written step takes two flag bytes plus the hash bytes when a hash is present |
| `ComplementingHashes.EncodeEntriesAppend` | src/main/java/alvinw/cryptography/merkle/ComplementingHash.java:59-66 | writing one more step appends exactly that step's bytes |
| `ComplementingHashes.Write` | src/main/java/alvinw/cryptography/merkle/ComplementingHash.java:57-67 | the loop writes the count followed by every step in order, i.e. exactly the encoding `Encode` |
| `ComplementingHashes.ReadEntry` | src/main/java/alvinw/cryptography/merkle/ComplementingHash.java:30-36 | reading one step consumes at least one byte and never runs past the end |
| `ComplementingHashes.ReadEntries` | src/main/java/alvinw/cryptography/merkle/ComplementingHash.java:29-38 | reading n steps yields exactly n steps |
| `ComplementingHashes.Read` | src/main/java/alvinw/cryptography/merkle/ComplementingHash.java:26-40 | the loop computes the decoding `Decode`, including its failures: end of stream, and a negative count rejected by `new ArrayList<>(size)` |
| `ComplementingHashes.ReadEntryEncoded` | src/main/java/alvinw/cryptography/merkle/ComplementingHash.java:30-36 | reading where a written step sits yields that step and the position after it |
| `ComplementingHashes.ReadEntriesEncoded` | src/main/java/alvinw/cryptography/merkle/ComplementingHash.java:29-38 | reading n steps where n written steps sit yields them and the position after them |
| `ComplementingHashes.RoundTrip` | src/main/java/alvinw/cryptography/merkle/ComplementingHash.java:26-67 | `read` after `write` returns the written list, for 32-byte hashes, whatever bytes follow, and stops exactly at the end of the encoding |
| `ComplementingHashes.EncodeEntriesSize` | src/main/java/alvinw/cryptography/merkle/ComplementingHash.java:59-66 | the written size is 2 bytes per step plus 32 per present hash |
| `ComplementingHashes.ReadEntriesShape` | src/main/java/alvinw/cryptography/merkle/ComplementingHash.java:29-38 | every list `read` returns has 32-byte hashes, and consumes exactly its wire size |
| `ComplementingHashes.DecodeShape` | src/main/java/alvinw/cryptography/merkle/ComplementingHash.java:26-40 | a successful `read` consumes 4 + wire-size bytes within the input, and yields a well-formed list |
| `ComplementingHashes.DecodeLength` | src/main/java/alvinw/cryptography/merkle/ComplementingHash.java:26-40 | what `read` consumed is exactly as long as writing its result back |
| `ComplementingHashes.DecodeFailures` | src/main/java/alvinw/cryptography/merkle/ComplementingHash.java:26-40 | fewer than 4 bytes is end of stream; a negative count is rejected; a zero count yields the empty list; any other failure is end of stream |
| `ComplementingHashes.ReadEntryTruncated` | src/main/java/alvinw/cryptography/merkle/ComplementingHash.java:30-36 | a step cut short anywhere fails with end of stream |
| `ComplementingHashes.ReadEntriesTruncated` | src/main/java/alvinw/cryptography/merkle/ComplementingHash.java:29-38 | a list of steps cut short anywhere fails with end of stream |
| `ComplementingHashes.DecodeTruncated` | src/main/java/alvinw/cryptography/merkle/ComplementingHash.java:26-40 | every proper prefix of a written list fails to read, with end of stream |
| `ComplementingHashes.DecodeEncodeStable` | src/main/java/alvinw/cryptography/merkle/ComplementingHash.java:26-67 | re-writing any list `read` accepted and reading it again gives the same list |
| `ComplementingHashes.FlagsAreNormalised` | src/main/java/alvinw/cryptography/merkle/ComplementingHash.java:30-31 | a flag byte 2 reads as true and is written back as 1, so `write(read(x))` need not equal x |
| `Nodes.SingleChildHash` | src/main/java/alvinw/cryptography/merkle/InnerNode.java:24-30 | an inner node without a right child hashes the left child's hash followed by nothing |
| `Nodes.ProofAt` | src/main/java/alvinw/cryptography/merkle/LeafNode.java:37-61 | the proof for a node has one step per level, and a step with a left sibling always carries a hash |
| `Nodes.SubtreeStep` | src/main/java/alvinw/cryptography/merkle/InnerNode.java:42-48 | a path extends by a step exactly when it reaches an inner node that has that child |
| `Nodes.PathConcat` | src/main/java/alvinw/cryptography/merkle/InnerNode.java:42-48 | following p then q equals following p + q |
| `Nodes.TreeNode.LeafNode` | src/main/java/alvinw/cryptography/merkle/LeafNode.java:13-15 | a new leaf stores the hash and has no children and no parent |
| `Nodes.TreeNode.InnerNode` | src/main/java/alvinw/cryptography/merkle/InnerNode.java:14-21 | a new inner node keeps its children and sets their parent pointers to itself; two disjoint linked subtrees give a linked tree |
| `Nodes.TreeNode.Hash` | src/main/java/alvinw/cryptography/merkle/InnerNode.java:24-30 | the recursive `hash()` of an object tree is the hash of its value model |
| `Nodes.TreeNode.GetComplementingHashes` | src/main/java/alvinw/cryptography/merkle/LeafNode.java:37-61 | walking parent pointers from a node at `path` collects exactly the proof for `path`, leaf first; the "Invalid Merkle tree" branch is never taken on a linked tree |
| `Nodes.AtModel` | src/main/java/alvinw/cryptography/merkle/InnerNode.java:42-48 | a path reaches an object exactly when it is valid in the value model, and the object there models that subtree |
| `Nodes.ParentOfAt` | src/main/java/alvinw/cryptography/merkle/InnerNode.java:14-21 | in a linked tree, a node's parent pointer is the node one step up its path |
| `MerkleTree.CompareByteArrays` | src/main/java/alvinw/cryptography/merkle/MerkleTree.java:94-104 | the loop returns the difference of the first differing unsigned bytes, else the difference of the lengths |
| `MerkleTree.CompareIsTotalOrder` | src/main/java/alvinw/cryptography/merkle/MerkleTree.java:94-104 | the comparison is zero exactly on equal arrays, antisymmetric and transitive, and a proper prefix sorts first |
| `MerkleTree.CompareZero` | src/main/java/alvinw/cryptography/merkle/MerkleTree.java:94-104 | the comparison is zero exactly when the arrays are equal |
| `MerkleTree.CompareFlips` | src/main/java/alvinw/cryptography/merkle/MerkleTree.java:94-104 | swapping the arguments negates the comparison |
| `MerkleTree.CompareTransitive` | src/main/java/alvinw/cryptography/merkle/MerkleTree.java:94-104 | the comparison is transitive |
| `MerkleTree.ComparePrefix` | src/main/java/alvinw/cryptography/merkle/MerkleTree.java:103 | a proper prefix compares below the longer array |
| `MerkleTree.Insert` | src/main/java/alvinw/cryptography/merkle/MerkleTree.java:64-66 | inserting one file keeps every file and adds exactly that one |
| `MerkleTree.SortFiles` | src/main/java/alvinw/cryptography/merkle/MerkleTree.java:64-66 | sorting is a permutation of the files |
| `MerkleTree.InsertSorted` | src/main/java/alvinw/cryptography/merkle/MerkleTree.java:64-66 | insertion into a list sorted by file id keeps it sorted |
| `MerkleTree.SortFilesSorted` | src/main/java/alvinw/cryptography/merkle/MerkleTree.java:64-66 | the sorted files are ordered by `compareByteArrays` of their ids, and are a permutation of the input |
| `MerkleTree.SortFilesDistinct` | src/main/java/alvinw/cryptography/merkle/MerkleTree.java:64-66 | sorting keeps file ids distinct |
| `MerkleTree.SortedUnique` | src/main/java/alvinw/cryptography/merkle/MerkleTree.java:57-58 | two sorted orderings of the same files are equal when files with equal ids are copies of each other, in particular when ids are distinct |
| `MerkleTree.Pad` | src/main/java/alvinw/cryptography/merkle/MerkleTree.java:68-72 | padding keeps the sorted files as a prefix, makes the count even, and repeats the last file when the count was odd |
| `MerkleTree.LeafLayer` | src/main/java/alvinw/cryptography/merkle/MerkleTree.java:73-75 | one leaf per file |
| `MerkleTree.Pair` | src/main/java/alvinw/cryptography/merkle/MerkleTree.java:79-88 | one pass halves the layer, rounding up |
| `MerkleTree.Build` | src/main/java/alvinw/cryptography/merkle/MerkleTree.java:77-90 | pairing until one node is left yields one node, or none for no leaves |
| `MerkleTree.PairLeaves` | src/main/java/alvinw/cryptography/merkle/MerkleTree.java:79-88 | pairing keeps the leaf hashes in left-to-right order |
| `MerkleTree.BuildLeaves` | src/main/java/alvinw/cryptography/merkle/MerkleTree.java:77-90 | the built tree has the layer's leaf hashes in order |
| `MerkleTree.LeafLayerLeaves` | src/main/java/alvinw/cryptography/merkle/MerkleTree.java:73-75 | the leaf layer holds the files' hashes in order |
| `MerkleTree.TreeLeaves` | src/main/java/alvinw/cryptography/merkle/MerkleTree.java:63-91 | the tree's leaves, left to right, are the hashes of the sorted and padded files |
| `MerkleTree.TreeIgnoresOrder` | src/main/java/alvinw/cryptography/merkle/MerkleTree.java:55-66 | the same set of files, with distinct ids, in any order gives the same tree |
| `MerkleTree.OddCountDuplicatesLast` | src/main/java/alvinw/cryptography/merkle/MerkleTree.java:64-72 | for an odd number of files with distinct ids, the tree equals the tree over the same files with the one whose id sorts last stored a second time |
| `MerkleTree.Children` | src/main/java/alvinw/cryptography/merkle/MerkleTree.java:43-49 | the children `find` queues make up all of a node's size but the node itself |
| `MerkleTree.BfsVisitsAll` | src/main/java/alvinw/cryptography/merkle/MerkleTree.java:35-52 | the breadth-first order visits every node reachable from the queue |
| `MerkleTree.FoldAppend` | src/main/java/alvinw/cryptography/merkle/MerkleTree.java:118-131 | folding a concatenated proof folds the first part and then the rest |
| `MerkleTree.FoldDefined` | src/main/java/alvinw/cryptography/merkle/MerkleTree.java:118-131 | folding fails exactly when some left step has no hash, the NullPointerException of `new InnerNode(null, current)`; a non-empty fold is 32 bytes |
| `MerkleTree.ProofAtFoldsToRoot` | src/main/java/alvinw/cryptography/merkle/MerkleTree.java:115-136 | folding a node's proof, starting from that node's hash, gives the root's hash |
| `MerkleTree.VerifyFile` | src/main/java/alvinw/cryptography/merkle/MerkleTree.java:115-136 | `verifyFile` is true exactly when the trusted top hash is present and equals the folded hash; it throws exactly when the fold does |
| `MerkleTree.Reconstruct` | src/main/java/alvinw/cryptography/merkle/MerkleTree.java:148-168 | the rebuilt tree exists exactly when the fold succeeds; its top hash is the folded hash, and the data hash is one of its leaves |
| `MerkleTree.MerkleTree.constructor` | src/main/java/alvinw/cryptography/merkle/MerkleTree.java:20-22 | the tree keeps the given root |
| `MerkleTree.MerkleTree.GetTopHash` | src/main/java/alvinw/cryptography/merkle/MerkleTree.java:24-26 | the top hash is the hash of the tree's value |
| `MerkleTree.BfsPaths` | src/main/java/alvinw/cryptography/merkle/MerkleTree.java:35-52 | one position per visited node, in the order the queue visits them |
| `MerkleTree.BfsPathsPlaced` | src/main/java/alvinw/cryptography/merkle/MerkleTree.java:35-52 | queued nodes at their positions are visited at those positions, and so are their descendants |
| `MerkleTree.BfsPlaces` | src/main/java/alvinw/cryptography/merkle/MerkleTree.java:35-52 | the position of every node in the breadth-first order from the root leads to that node |
| `MerkleTree.MerkleTree.Find` | src/main/java/alvinw/cryptography/merkle/MerkleTree.java:35-52 | returns null exactly when no node in breadth-first order is accepted; otherwise the first accepted node in that order, and the path from the root to that place in the order (left child queued before right) |
| `MerkleTree.FromFiles` | src/main/java/alvinw/cryptography/merkle/MerkleTree.java:63-92 | non-empty files give a new, valid, fully linked tree whose value is the tree over the sorted, padded files; no files make `get(0)` throw |
| `MerkleTree.MakeLeaves` | src/main/java/alvinw/cryptography/merkle/MerkleTree.java:73-75 | new, disjoint, parentless leaves modelling the leaf layer |
| `MerkleTree.PairLayer` | src/main/java/alvinw/cryptography/merkle/MerkleTree.java:79-89 | the inner loop builds new, disjoint, parentless inner nodes whose values are one pairing pass over the layer, and links the layer's nodes to them |
| `MerkleTree.PairStep` | src/main/java/alvinw/cryptography/merkle/MerkleTree.java:81-87 | one iteration makes a new inner node over nodes i and i+1 (or i alone) and links them to it, leaving later nodes untouched |
| `Client.EncodeEnvelope` | src/main/java/alvinw/cryptography/client/Client.java:154-160 | the envelope is nonce, iv, an 8-byte timestamp and the ciphertext, at least 36 bytes |
| `Client.ParseEnvelope` | src/main/java/alvinw/cryptography/client/Client.java:266-269 | taking an envelope apart succeeds exactly when it has 36 bytes (else end of stream), and the parts re-frame to the input |
| `Client.EnvelopeRoundTrip` | src/main/java/alvinw/cryptography/client/Client.java:154-160 | parsing a framed envelope gives back every field |
| `Client.EncodeSigned` | src/main/java/alvinw/cryptography/client/Client.java:174-185 | the signed upload is a 4-byte length, the signature and the envelope |
| `Client.ParseSigned` | src/main/java/alvinw/cryptography/client/Client.java:243-248 | splitting off the signature succeeds exactly with a non-negative 4-byte length (else end of stream or a negative length); signature and rest re-join to the input |
| `Client.SignedRoundTrip` | src/main/java/alvinw/cryptography/client/Client.java:174-185 | splitting a signed upload gives back its signature and envelope |
| `Client.OverlongSignatureFails` | src/main/java/alvinw/cryptography/client/Client.java:243-268 | a signature length beyond the data swallows the rest; the read then fails at the signature check if the RSA layer throws on that blob, and otherwise with end of stream at the timestamp |
| `Client.CacheDecidesOnlyMerkleCheck` | src/main/java/alvinw/cryptography/client/Client.java:226-278 | whether `read` succeeds, its plaintext and its signature check do not depend on the cached top hash; the Merkle check passes exactly when the cache holds the folded hash |
| `Client.ReadRecoversUpload` | src/main/java/alvinw/cryptography/client/Client.java:214-281 | reading a written proof followed by a signed upload folds from the hash of the whole upload; fails if the RSA layer throws on the signature, else reports whether the digest it recovers equals the envelope's hash; fails if decryption throws, else returns the decrypted framed fields |
| `Client.FoldIsDigest` | src/main/java/alvinw/cryptography/client/Client.java:207-211 | a fold from a leaf hash is 32 bytes, so the cache accepts it |
| `Client.Client.constructor` | src/main/java/alvinw/cryptography/client/Client.java:38-42 | a client over a directory starts from what its `top_hash.bin` holds (modelled as the given contents) |
| `Client.Client.GetClientTopHash` | src/main/java/alvinw/cryptography/client/Client.java:89-98 | the cached top hash is present exactly when the file exists and holds 32 bytes |
| `Client.Client.SetClientTopHash` | src/main/java/alvinw/cryptography/client/Client.java:100-107 | storing a 32-byte hash makes it the cached top hash; deleting leaves none |
| `Client.Client.Verify` | src/main/java/alvinw/cryptography/client/Client.java:283-298 | a status other than 200 throws; otherwise verification succeeds exactly when the server's top hash equals a valid cached one |
| `Client.Client.Upload` | src/main/java/alvinw/cryptography/client/Client.java:136-212 | a signer that throws ends the upload before anything is sent; otherwise sends the signed framing of the envelope; caches the top hash folded from the hash of what was sent exactly when the server answered with a readable, foldable proof; leaves the cache unchanged otherwise |
| `Client.Client.Read` | src/main/java/alvinw/cryptography/client/Client.java:214-281 | the step-by-step read computes `ReadOutcome`: status, proof, Merkle check, signature split, a throw from the RSA layer on the signature, envelope and decryption, in the order `read` performs them; the lemmas in this module state its properties |
| `Client.UploadThenReadPassesMerkleCheck` | src/main/java/alvinw/cryptography/client/Client.java:207-278 | after the top hash of an upload's proof is cached, reading that upload back with the same proof succeeds when the RSA layer and decryption do not throw, passes the Merkle check, reports the signature check as the recovered digest equalling the envelope's hash, and yields the decryption |
| `Endpoints.NewFileInfo` | src/main/java/alvinw/cryptography/merkle/FileInfo.java:13-16 | a file's info is its id and the SHA-256 of its content |
| `Endpoints.SubtreeLeaf` | src/main/java/alvinw/cryptography/merkle/LeafNode.java:28-30 | a leaf reached by a path is one of the tree's leaves |
| `Endpoints.LeafPath` | src/main/java/alvinw/cryptography/merkle/MerkleTree.java:35-52 | every leaf hash of a tree sits at some path |
| `Endpoints.TreeDepth` | src/main/java/alvinw/cryptography/merkle/MerkleTree.java:77-90 | no path is longer than the number of padded files, so a proof's length fits an `int` |
| `Endpoints.PaddedHoldsFiles` | src/main/java/alvinw/cryptography/merkle/MerkleTree.java:64-72 | sorting and padding neither add nor drop a file |
| `Endpoints.TreeHoldsFileHashes` | src/main/java/alvinw/cryptography/merkle/MerkleTree.java:63-92 | a hash is a leaf of the tree exactly when some stored file has it |
| `Endpoints.LeafIsStoredFile` | src/main/java/alvinw/cryptography/merkle/MerkleTree.java:73-75 | every leaf hash is the hash of a stored file |
| `Endpoints.StoredFileIsLeaf` | src/main/java/alvinw/cryptography/merkle/MerkleTree.java:73-75 | every stored file's hash is a leaf |
| `Endpoints.BuildIsInner` | src/main/java/alvinw/cryptography/merkle/MerkleTree.java:77-90 | with two leaves or more, the root is an inner node |
| `Endpoints.HashIsDigest` | src/main/java/alvinw/cryptography/merkle/InnerNode.java:24-30 | with 32-byte leaves, every node's hash is 32 bytes |
| `Endpoints.ProofIsWellFormed` | src/main/java/alvinw/cryptography/merkle/LeafNode.java:37-61 | with 32-byte leaves, every proof carries 32-byte hashes, so `write` and `read` round-trip it |
| `Endpoints.ProofResponse` | src/main/java/alvinw/cryptography/server/UploadEndpoint.java:40-53 | answers exactly when a stored file has the content's hash; otherwise `get(0)` or the null leaf throws. The answer is the written proof of the first leaf in breadth-first order holding that hash, which reads back unchanged and folds from the content's hash to the top hash |
| `Endpoints.StoredFileIsSearched` | src/main/java/alvinw/cryptography/server/UploadEndpoint.java:41-43 | the leaf search accepts some node in breadth-first order when a stored file has the hash |
| `Endpoints.FirstLeafWith` | src/main/java/alvinw/cryptography/server/UploadEndpoint.java:41-43 | the first place in an order holding a leaf with the hash, or the length when there is none |
| `Endpoints.FirstLeafIsFound` | src/main/java/alvinw/cryptography/merkle/MerkleTree.java:35-52 | the node `find` stops at with the leaf predicate is the first leaf holding the hash |
| `Endpoints.LeafProof` | src/main/java/alvinw/cryptography/server/UploadEndpoint.java:44 | the proof of a leaf holding a stored file's hash is well formed and folds to the top hash |
| `Endpoints.ReadResponse` | src/main/java/alvinw/cryptography/server/ReadEndpoint.java:44-57 | answers exactly when a stored file has the content's hash, with the written proof of the first leaf in breadth-first order holding that hash followed by the content; the proof folds to the top hash; otherwise `get(0)` on an empty build or the null leaf throws |
| `Endpoints.VerifyResponse` | src/main/java/alvinw/cryptography/server/VerifyEndpoint.java:24-28 | answers with the tree's 32-byte top hash exactly when files are stored |
| `Endpoints.ServedFilePassesMerkleCheck` | src/main/java/alvinw/cryptography/server/ReadEndpoint.java:48-54 | a client caching the server's top hash passes the Merkle check of every file the read endpoint serves |
| `Endpoints.UploadThenVerify` | src/main/java/alvinw/cryptography/client/Client.java:188-211 | an upload the server stores and answers with its proof caches the top hash that the verify endpoint then sends, so `verify` succeeds |

## Left out

- SHA-256, RSA signing and checking, AES-GCM encryption and decryption, and password-based key derivation are parameters. Their results are not modelled beyond the 32-byte length of SHA-256. Where `signWithRsa`, the RSA step of `verifyWithRsa` or `aesGcmDecrypt` throws, the parameter returns `None` and the model fails with `SecurityFailure`. Collision resistance is not modelled either, so no lemma claims that a tampered file fails the Merkle check. The lemmas prove the converse: honest files pass.
- `CryptoUtils` is not part of this model: random bytes, key pairs, the hex codec and the key files. The nonce, iv, timestamp and ciphertext of an upload are inputs of `Client.Client.Upload`.
- HTTP is not modelled. The client's connections, status codes, method checks and URL paths are all left out. A reply with an unexpected status is `None`, and `HttpResponseException` becomes `UnexpectedStatus`.
- File storage on disk is not modelled. The `top_hash.bin` file is the `topHashFile` field. The stored files reach the endpoints as a sequence of `FileInfo`.
- `FileStorage.getMerkleTree` builds `FileAndSomethingElseIdk` values, while `fromFiles` takes `FileInfo`. Both carry a file id and the SHA-256 of the content, so the model uses one `FileInfo` datatype.
- A Java `Set` iterates in an unspecified order, so `fromFiles` receives the files as a sequence. `TreeIgnoresOrder` proves that the order does not matter when file ids are distinct. For files with equal ids, the order the sort leaves depends on the set's iteration order; `SortFiles` picks one such order.
- The client's interactive loop, the console output and `toString` are left out. The two messages that `read` prints become the booleans of `ReadReport`.
- File names are byte sequences. The platform charset conversion of `String.getBytes()` is left out.
- `MerkleTree.VerifyFile` returns the verdict only. `verifyFile` also sets the caller's leaf's parent pointer through `new InnerNode`, but its only caller, `read`, discards that leaf.
- `MerkleTree.Reconstruct` returns the rebuilt tree as a `Node` value, not as linked objects. The client only takes that tree's top hash. The redundant second `setParent` calls in `reconstruct` are left out with it.
- `Endpoints.ProofResponse` and `Endpoints.ReadResponse` require at most 2^31-1 stored files. This is the bound of a Java list size, which `write` puts in an `int`.
- Memory exhaustion is not modelled. This includes `new ArrayList<>(size)` with a huge count.
