# merkdir Merkle core in Dafny

merkdir builds a Merkle tree over the files of a directory, saves it, and
proves that a single file belongs to the tree without revealing the other
files. Its tree follows section 2.1 of RFC 9162 (Certificate Transparency):

- Each file becomes a leaf. The leaf's hash is H(0x00 || nonce || bytes). The nonce is random and stored in the leaf, so a leaf hash does not reveal the file's hash.
- A tree of n >= 2 leaves splits at the largest power of two below n. The program computes that split with the bit trick `flp2`.
- An internal node hashes H(0x01 || left || right).
- An inclusion proof lists the sibling hashes from the leaf up to the root.
- The verifier recomputes the root from the proof and the file's bytes. It does so iteratively, with the two counters of section 2.1.3.2 of RFC 9162.
- The saved tree maps each file's relative path to its leaf number. The number of entries is the tree size.

The project has four modules:

- `PowerOfTwo` (`power_of_two.dfy`) defines the split point `PrevPow2` mathematically.
- `Bits` (`bits.dfy`) connects 64-bit words to their integer value.
- `Merkle` (`merkle.dfy`) holds the builder, proof generation, leaf lookup and the verifier.
- `MerkDir` (`tree.dfy`) holds the saved tree and proof generation by file name.

The hash function is a parameter `H` of every member that hashes, so no property depends on which function it is.

The main results:

- For any leaves, the proof that generation produces for leaf m verifies to the root hash of the built tree, when checked against bytes whose leaf hash is that leaf's hash.
- The iterative verifier computes exactly the top-down reading of the path, and it rejects every path whose length does not fit the index and the size.
- The bit trick computes the previous power of two.

## Model

| member | source | states |
|---|---|---|
| `Merkle.Flp2` | merkle/merkle.go:45-56 | For x >= 2 the 64-bit result is the largest power of two strictly below x. For x = 1 it is 0, and for x = 0 it is 2^63 (the decrement wraps). |
| `Merkle.SmearGivesPrevPow2` | merkle/merkle.go:48-55 | The word x - 1 with its highest bit smeared into every lower bit, minus itself shifted right once, has the value PrevPow2(x). |
| `PowerOfTwo.PrevPow2` | merkle/merkle.go:45-46 | The split point k of n >= 2 satisfies k < n <= 2k. |
| `PowerOfTwo.PrevPow2IsPow2` | merkle/merkle.go:45-46 | PrevPow2(n) is a power of two. |
| `PowerOfTwo.PrevPow2IsLargest` | merkle/merkle.go:45-46 | No power of two below n exceeds PrevPow2(n). |
| `PowerOfTwo.PrevPow2Unique` | merkle/merkle.go:45-46 | A power of two p with p < n <= 2p is PrevPow2(n), so the split point is determined. |
| `Merkle.CreateLeaf` | merkle/merkle.go:69-90 | The leaf keeps the name and the supplied nonce, and its hash is H over the leaf tag, the nonce and the bytes. |
| `Merkle.LeafAndNodeInputsDiffer` | merkle/merkle.go:58-67 | A leaf hash input (tag 0x00) never equals a node hash input (tag 0x01). |
| `Merkle.CreateTree` | merkle/merkle.go:92-125 | No leaves give the empty node hashed from no bytes, and one leaf is promoted as the root. Two or more leaves give an internal node that hashes its two children. |
| `Merkle.CreateTreeShape` | merkle/merkle.go:95-125 | The built tree splits every level at PrevPow2. It holds the input leaves at the bottom in their order, and every internal node hashes its children. |
| `Merkle.FiveLeaves` | merkle/merkle.go:111-113 | Five leaves split 4 + 1, and the left four split 2 + 2. |
| `Merkle.ThreeLeaves` | merkle/merkle.go:111-124 | The root of three leaves is H(1, H(1, a, b), c). The proofs of the third and the first leaf are [H(1, a, b)] and [b, c]. |
| `Merkle.GetInclusionProof` | merkle/merkle.go:127-190 | An index not below the size gives "leaf index impossible" and any other failure is "leaf count incorrect". A proof carries the index and the size, and its path has one entry per ancestor of the leaf. |
| `Merkle.ProofOfCreateTree` | merkle/merkle.go:151-189 | On a built tree every index below the size gets a proof. The proof carries that leaf's nonce, and its last entry is the hash of the sibling subtree beside the leaf's half. |
| `Merkle.GetLeaf` | merkle/merkle.go:192-218 | It gives the same two errors as proof generation, under the same conditions. |
| `Merkle.GetLeafOfShaped` | merkle/merkle.go:194-218 | On a tree shaped for n leaves, the lookup of m gives the m-th bottom node. |
| `Merkle.ShapedIffAllLeavesReachable` | merkle/merkle.go:192-218 | A tree has the shape for n leaves exactly when the lookup succeeds for every index below n. |
| `Merkle.GetLeafOfCreateTree` | merkle/merkle.go:194-218 | Looking up leaf m of the tree built from the leaves gives back the m-th input leaf. |
| `Merkle.ProofAgreesWithLeaf` | merkle/merkle.go:192-193 | Proof generation and lookup succeed on the same inputs and fail with the same error. A proof carries the nonce of the node the lookup finds. |
| `Merkle.PathRebuildsRoot` | merkle/merkle.go:151-189 | On a consistently hashed tree shaped for n, the generated path read top-down from leaf m's hash leads to the root hash. |
| `Merkle.ClimbSubtree` | merkle/merkle.go:242-267 | Over the path entries of one subtree, the loop reaches that subtree's root hash, and it is then at counters (lo >> c, (N - 1) >> c), c being the subtree's height and lo its first leaf index. |
| `Merkle.ClimbMatchesRoot` | merkle/merkle.go:236-272 | From counters (m, n - 1), the verifier's loop succeeds exactly when the path has the leaf's proof length. It then yields the root that the top-down reading gives, and otherwise "tree size and leaf index mismatch". |
| `Merkle.CalcInclusionProof` | merkle/merkle.go:228-273 | The loop with its uint64 counters returns "invalid leaf index" for an index outside the tree and "mismatch" for a path of the wrong length. Otherwise it returns the root that the path leads to from the leaf hash of the nonce and bytes. |
| `Merkle.InclusionRoundTrip` | merkle/merkle.go:220-227 | Checked against bytes whose leaf hash matches the leaf, the proof of any leaf of a built tree yields the tree's root hash. |
| `Merkle.CreatedLeafRoundTrip` | merkle/merkle.go:69-90 | A leaf made from bytes with a nonce is proven by those same bytes: its proof carries that nonce and verifies to the root hash. |
| `MerkDir.GenInclusionProof` | tree.go:19-30 | A name not in the map gives "filename not found". Otherwise the proof is for the name's leaf number, and the number of files is the tree size. On any tree, built or read back, generation succeeds exactly when the lookup of that leaf number succeeds, and the proof then carries the nonce of the node found. An engine failure becomes `ProofFailed` with the lookup's error as its cause. |
| `MerkDir.LeafNumbersDistinct` | tree.go:14 | In a tree built from its leaves, different file names have different leaf numbers. |
| `MerkDir.EveryLeafNumberUsed` | tree.go:14 | In a tree built from its leaves, every number below the size is some file's leaf number. Together with `LeafNumbersDistinct`, the map is a bijection onto 0 .. size - 1, which is what taking the number of entries as the tree size relies on. |
| `MerkDir.GenInclusionProofSucceedsIff` | tree.go:19-30 | For a tree built from its leaves, proof generation succeeds exactly for the names in the map. |
| `MerkDir.GeneratedProofVerifies` | tree.go:19-30 | For a file of a built tree, the generated proof carries the file's nonce, and the lookup under its number finds the leaf of that name. Checked against the file's bytes, the proof yields the root hash. |

## Left out

- The hash function is an uninterpreted parameter. BLAKE3 and its 32-byte digest size (`Blake3Size`) are not modelled, and the empty tree's hash is H applied to no bytes.
- `Merkle.CreateLeaf` takes the nonce as an argument. Drawing a random 16-byte nonce when the caller passes nil needs randomness, and Go's nil versus empty nonce has no counterpart here.
- HashLeaf, CreateLeaf and CalcInclusionProof read the file through an `io.Reader`. The model takes the file's bytes directly, so read errors are not modelled.
- A Go node with exactly one nil child, or a nil root, cannot be expressed: a node is empty, a leaf, or an internal node with both children. What Go does then depends on which child is missing. When the missing child is the sibling Go checks (`Right` with m < k, `Left` with m >= k), Go returns "given number of leaves is incorrect", as at merkle/merkle.go:156-157, 170-171, 206-207 and 213-214. When Go descends into the missing child, `GetInclusionProof` dereferences nil. That happens at `root.Nonce` (merkle/merkle.go:146) when the size there is 1, and otherwise at the nil check one level down (merkle/merkle.go:156, 170). `GetLeaf` at size 1 dereferences nothing: it returns the nil node with a nil error (merkle/merkle.go:200-202), and the crash happens in its caller. On the nodes the model can express, checking `Right == nil` before descending left (and `Left == nil` before descending right) is the same test as "not an internal node".
- The tree functions split at `PrevPow2`, the mathematical previous power of two, because a function cannot call the method `Flp2`. `Merkle.Flp2`'s contract shows the two agree for every size of at least two, which are the only sizes the callers pass.
- The verifier's counters are uint64 values modelled as integers in [0, 2^64). They only shrink, so no wrap-around occurs. A shift right by one is division by two, and `&1` is the remainder modulo two.
- `MerkDir.GenInclusionProof` requires the number of files to be below 2^63, as every Go length is. Error texts are modelled as constructors, and the `fmt.Errorf` wrapping is modelled as `ProofFailed(cause)`.
- The tree's creation time is an opaque integer.
- Building the map of leaf numbers, serialising trees and proofs, the command-line commands and Graphviz output (`commands.go`, `codec.go`, `merkdir.go`, `merkle/dot.go`, `Node.String`) are not part of this model. The predicate `MerkDir.Describes` states what the builder establishes, so that the end-to-end lemmas can assume it.
