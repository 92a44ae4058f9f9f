/**
 * The Merkle tree engine: leaf hashing with nonces, the tree builder of
 * section 2.1.1 of RFC 9162, inclusion proof generation (section 2.1.3.1),
 * leaf lookup, and the iterative proof verifier (section 2.1.3.2).
 *
 * The hash function (BLAKE3 in the original) is a parameter H of every
 * member that hashes, so nothing here depends on what it computes.
 */
module Merkle {
  import opened PowerOfTwo
  import opened Bits

  newtype byte = x: int | 0 <= x < 0x100
  type Bytes = seq<byte>

  /** A hash function over byte strings, left uninterpreted. */
  type HashFn = Bytes -> Bytes

  /** The values of a Go uint64. */
  type u64 = x: int | 0 <= x < 0x1_0000_0000_0000_0000

  /** Domain tags: first byte of the input of a leaf hash and of a node hash. */
  const LeafTag: byte := 0x00
  const NodeTag: byte := 0x01

  /**
   * A tree vertex: the empty tree (only ever a root), a leaf carrying a file
   * name and the nonce mixed into its hash, or an internal node owning both
   * of its children.
   */
  datatype Node =
    | Empty(hash: Bytes)
    | Leaf(name: string, nonce: Bytes, hash: Bytes)
    | Internal(left: Node, right: Node, hash: Bytes)

  /** A proof that the leaf at leafIndex is in a tree of treeSize leaves. */
  datatype InclusionProof = InclusionProof(
    leafIndex: u64,
    treeSize: u64,
    nonce: Bytes,           // nonce of the proven leaf
    path: seq<Bytes>)       // sibling hashes, bottom to top

  datatype Error =
    | LeafIndexImpossible   // the leaf index is not below the tree size
    | LeafCountIncorrect    // the tree has a leaf or the empty node where the size says there is a subtree
    | InvalidLeafIndex      // the proof's leaf index is not below its tree size
    | SizeMismatch          // the proof's path does not fit its tree size and leaf index

  datatype Result<T, E> = Ok(value: T) | Err(error: E)

  /** The nonce a node carries; only leaves have one. */
  function NonceOf(t: Node): Bytes
  {
    if t.Leaf? then t.nonce else []
  }

  // ---------------------------------------------------------------------
  // Previous power of two

  /**
   * The previous power of two of a 64-bit word, by smearing the highest set
   * bit of x - 1 into every lower bit and keeping only the highest one.
   * The callers pass only x >= 2; below that the word arithmetic wraps.
   */
  method Flp2(x: bv64) returns (r: bv64)
    ensures Value(x) >= 2 ==> Value(r) == PrevPow2(Value(x))
    ensures x == 1 ==> r == 0
    ensures x == 0 ==> r == 0x8000_0000_0000_0000
  {
    var y := x - 1;  // makes the result always less than x
    y := y | (y >> 1);
    y := y | (y >> 2);
    y := y | (y >> 4);
    y := y | (y >> 8);
    y := y | (y >> 16);
    y := y | (y >> 32);
    r := y - (y >> 1);
    // y is all ones from the highest set bit of x - 1 down
    assert y & (y + 1) == 0 && (x - 1) | y == y && (x - 1) | (y >> 1) == y;
    if Value(x) >= 2 {
      SmearGivesPrevPow2(x, y);
    }
  }

  /** Smearing x - 1 and keeping its highest bit gives the previous power of two of x. */
  lemma {:induction false} SmearGivesPrevPow2(x: bv64, s: bv64)
    requires Value(x) >= 2
    requires s & (s + 1) == 0 && (x - 1) | s == s && (x - 1) | (s >> 1) == s
    ensures Value(s - (s >> 1)) == PrevPow2(Value(x))
  {
    ValueDecrement(x);
    SmearOfDecrement(x, s);
    PrevPow2OfBounds(Value(x), Len(s));
  }

  // ---------------------------------------------------------------------
  // Leaves

  /** The hash of a leaf: the leaf tag, then the nonce, then the file's bytes. */
  function HashLeaf(H: HashFn, nonce: Bytes, data: Bytes): Bytes
  {
    H([LeafTag] + nonce + data)
  }

  /** The hash of an internal node: the node tag, then both children's hashes. */
  function HashChildren(H: HashFn, left: Bytes, right: Bytes): Bytes
  {
    H([NodeTag] + left + right)
  }

  /** A leaf for the file name with contents data, hashed with a supplied nonce. */
  function CreateLeaf(H: HashFn, name: string, data: Bytes, nonce: Bytes): (leaf: Node)
    ensures leaf.Leaf? && leaf.name == name && leaf.nonce == nonce
    ensures leaf.hash == H([LeafTag] + nonce + data)
  {
    Leaf(name, nonce, HashLeaf(H, nonce, data))
  }

  /** The tags keep every leaf hash input apart from every node hash input. */
  lemma {:induction false} LeafAndNodeInputsDiffer(nonce: Bytes, data: Bytes, left: Bytes, right: Bytes)
    ensures [LeafTag] + nonce + data != [NodeTag] + left + right
  {
    assert ([LeafTag] + nonce + data)[0] == LeafTag;
    assert ([NodeTag] + left + right)[0] == NodeTag;
  }

  // ---------------------------------------------------------------------
  // Tree shape

  /**
   * t has the shape of a tree of n leaves: for n >= 2, an internal node whose
   * left subtree has the shape for PrevPow2(n) leaves and whose right subtree
   * has the shape for the rest.
   */
  ghost predicate Shaped(t: Node, n: nat)
    decreases n
  {
    n <= 1 ||
    (t.Internal? && Shaped(t.left, PrevPow2(n)) && Shaped(t.right, n - PrevPow2(n)))
  }

  /** The nodes at the bottom of a tree shaped for n leaves, left to right. */
  ghost function LeafSeq(t: Node, n: nat): (leaves: seq<Node>)
    requires Shaped(t, n)
    ensures |leaves| == n
    decreases n
  {
    if n == 0 then []
    else if n == 1 then [t]
    else LeafSeq(t.left, PrevPow2(n)) + LeafSeq(t.right, n - PrevPow2(n))
  }

  /** Every internal node of a tree shaped for n leaves hashes its two children. */
  ghost predicate HashesConsistent(H: HashFn, t: Node, n: nat)
    requires Shaped(t, n)
    decreases n
  {
    n <= 1 ||
    (t.hash == HashChildren(H, t.left.hash, t.right.hash) &&
     HashesConsistent(H, t.left, PrevPow2(n)) &&
     HashesConsistent(H, t.right, n - PrevPow2(n)))
  }

  // ---------------------------------------------------------------------
  // Tree builder

  /**
   * The root of the tree over leaves, in the given order: the empty node for
   * no leaves, the leaf itself for one, and otherwise an internal node over
   * the trees of the first PrevPow2(n) leaves and of the rest.
   */
  function CreateTree(H: HashFn, leaves: seq<Node>): (root: Node)
    ensures |leaves| == 0 ==> root == Empty(H([]))
    ensures |leaves| == 1 ==> root == leaves[0]
    ensures |leaves| >= 2 ==> root.Internal? && root.hash == HashChildren(H, root.left.hash, root.right.hash)
    decreases |leaves|
  {
    if |leaves| == 0 then Empty(H([]))
    else if |leaves| == 1 then leaves[0]
    else
      var k := PrevPow2(|leaves|);
      var left := CreateTree(H, leaves[..k]);
      var right := CreateTree(H, leaves[k..]);
      Internal(left, right, HashChildren(H, left.hash, right.hash))
  }

  /**
   * The built tree has the shape for its number of leaves, holds the leaves
   * at the bottom in their order, and every internal node hashes its children.
   */
  lemma {:induction false} CreateTreeShape(H: HashFn, leaves: seq<Node>)
    ensures var root := CreateTree(H, leaves);
            Shaped(root, |leaves|) && LeafSeq(root, |leaves|) == leaves &&
            HashesConsistent(H, root, |leaves|)
    decreases |leaves|
  {
    var n := |leaves|;
    if n >= 2 {
      var k := PrevPow2(n);
      var left, right := leaves[..k], leaves[k..];
      CreateTreeShape(H, left);
      CreateTreeShape(H, right);
      var root := CreateTree(H, leaves);
      assert root.left == CreateTree(H, left) && root.right == CreateTree(H, right);
      assert |left| == k && |right| == n - k;
      InternalNode(H, root, n);
      assert left + right == leaves;
    }
  }

  /** An internal node whose children have the shapes for the split of n has the shape for n. */
  lemma {:induction false} InternalNode(H: HashFn, t: Node, n: nat)
    requires n >= 2 && t.Internal? && Shaped(t.left, PrevPow2(n)) && Shaped(t.right, n - PrevPow2(n))
    ensures Shaped(t, n)
    ensures LeafSeq(t, n) == LeafSeq(t.left, PrevPow2(n)) + LeafSeq(t.right, n - PrevPow2(n))
    ensures HashesConsistent(H, t, n) <==>
              t.hash == HashChildren(H, t.left.hash, t.right.hash) &&
              HashesConsistent(H, t.left, PrevPow2(n)) && HashesConsistent(H, t.right, n - PrevPow2(n))
  {
  }

  // ---------------------------------------------------------------------
  // Proof generation and leaf lookup

  /** The number of ancestors of leaf m in a tree of n leaves: its proof length. */
  function AuditLength(n: nat, m: nat): nat
    requires m < n
    decreases n
  {
    if n == 1 then 0
    else
      var k := PrevPow2(n);
      if m < k then 1 + AuditLength(k, m) else 1 + AuditLength(n - k, m - k)
  }

  /**
   * The inclusion proof for leaf m of the tree root, which the caller says
   * has n leaves. The descent mirrors the builder's split; each level adds
   * the hash of the sibling subtree after the path from below, so the path
   * runs bottom to top. A size that does not fit the tree surfaces as a leaf
   * or empty node where an internal node is needed.
   */
  function GetInclusionProof(root: Node, n: u64, m: u64): (r: Result<InclusionProof, Error>)
    ensures m >= n ==> r == Err(LeafIndexImpossible)
    ensures r.Ok? ==> m < n && r.value.leafIndex == m && r.value.treeSize == n
    ensures r.Ok? ==> |r.value.path| == AuditLength(n, m)
    ensures r.Err? && m < n ==> r.error == LeafCountIncorrect
    decreases n
  {
    if m >= n then Err(LeafIndexImpossible)
    else if n == 1 then Ok(InclusionProof(m, n, NonceOf(root), []))
    else
      var k := PrevPow2(n);
      if m < k then
        if !root.Internal? then Err(LeafCountIncorrect)
        else
          match GetInclusionProof(root.left, k, m)
          case Err(e) => Err(e)
          case Ok(ip) => Ok(InclusionProof(m, n, ip.nonce, ip.path + [root.right.hash]))
      else
        if !root.Internal? then Err(LeafCountIncorrect)
        else
          match GetInclusionProof(root.right, n - k, m - k)
          case Err(e) => Err(e)
          case Ok(ip) => Ok(InclusionProof(m, n, ip.nonce, ip.path + [root.left.hash]))
  }

  /** The node at leaf position m of the tree root, which the caller says has n leaves. */
  function GetLeaf(root: Node, n: u64, m: u64): (r: Result<Node, Error>)
    ensures m >= n ==> r == Err(LeafIndexImpossible)
    ensures r.Err? && m < n ==> r.error == LeafCountIncorrect
    decreases n
  {
    if m >= n then Err(LeafIndexImpossible)
    else if n == 1 then Ok(root)
    else
      var k := PrevPow2(n);
      if m < k then
        if !root.Internal? then Err(LeafCountIncorrect) else GetLeaf(root.left, k, m)
      else
        if !root.Internal? then Err(LeafCountIncorrect) else GetLeaf(root.right, n - k, m - k)
  }

  /** On a tree of the right shape the lookup finds the m-th bottom node. */
  lemma {:induction false} GetLeafOfShaped(t: Node, n: u64, m: u64)
    requires m < n && Shaped(t, n)
    ensures GetLeaf(t, n, m) == Ok(LeafSeq(t, n)[m])
    decreases n
  {
    if n > 1 {
      var k := PrevPow2(n);
      if m < k {
        GetLeafOfShaped(t.left, k, m);
      } else {
        GetLeafOfShaped(t.right, n - k, m - k);
      }
    }
  }

  /** Every leaf position below n can be looked up in t. */
  ghost predicate AllLeavesReachable(t: Node, n: u64)
  {
    forall m: u64 | m < n :: GetLeaf(t, n, m).Ok?
  }

  /** If every leaf position below n can be looked up, the tree has the shape for n. */
  lemma {:induction false} ReachableLeavesGiveShape(t: Node, n: u64)
    requires AllLeavesReachable(t, n)
    ensures Shaped(t, n)
    decreases n
  {
    if n > 1 {
      var k: u64 := PrevPow2(n);
      var rest: u64 := n - k;
      assert GetLeaf(t, n, 0).Ok?;
      assert t.Internal?;
      forall m: u64 | m < k
        ensures GetLeaf(t.left, k, m).Ok?
      {
        assert GetLeaf(t, n, m) == GetLeaf(t.left, k, m);
      }
      ReachableLeavesGiveShape(t.left, k);
      forall m: u64 | m < rest
        ensures GetLeaf(t.right, rest, m).Ok?
      {
        assert GetLeaf(t, n, m + k) == GetLeaf(t.right, rest, m);
      }
      ReachableLeavesGiveShape(t.right, rest);
    }
  }

  /** A tree has the shape for n leaves exactly when every position below n can be looked up. */
  lemma {:induction false} ShapedIffAllLeavesReachable(t: Node, n: u64)
    ensures Shaped(t, n) <==> AllLeavesReachable(t, n)
  {
    if Shaped(t, n) {
      forall m: u64 | m < n
        ensures GetLeaf(t, n, m).Ok?
      {
        GetLeafOfShaped(t, n, m);
      }
    }
    if AllLeavesReachable(t, n) {
      ReachableLeavesGiveShape(t, n);
    }
  }

  /** Looking up leaf m of a built tree gives back the m-th leaf it was built from. */
  lemma {:induction false} GetLeafOfCreateTree(H: HashFn, leaves: seq<Node>, m: u64)
    requires m < |leaves| < 0x1_0000_0000_0000_0000
    ensures GetLeaf(CreateTree(H, leaves), |leaves|, m) == Ok(leaves[m])
  {
    CreateTreeShape(H, leaves);
    GetLeafOfShaped(CreateTree(H, leaves), |leaves|, m);
  }

  /**
   * Proof generation and leaf lookup fail on the same inputs with the same
   * error, and a proof carries the nonce of the leaf the lookup finds.
   */
  lemma {:induction false} ProofAgreesWithLeaf(t: Node, n: u64, m: u64)
    ensures GetInclusionProof(t, n, m).Ok? <==> GetLeaf(t, n, m).Ok?
    ensures GetInclusionProof(t, n, m).Err? ==> GetInclusionProof(t, n, m).error == GetLeaf(t, n, m).error
    ensures GetInclusionProof(t, n, m).Ok? ==>
              GetInclusionProof(t, n, m).value.nonce == NonceOf(GetLeaf(t, n, m).value)
    decreases n
  {
    if m < n && n > 1 && t.Internal? {
      var k := PrevPow2(n);
      if m < k {
        ProofAgreesWithLeaf(t.left, k, m);
      } else {
        ProofAgreesWithLeaf(t.right, n - k, m - k);
      }
    }
  }

  /**
   * The proof for leaf m of a built tree exists and carries the index, the
   * size and the nonce of that leaf; its last entry is the hash of the
   * subtree beside the one holding the leaf, one level below the root.
   */
  lemma {:induction false} ProofOfCreateTree(H: HashFn, leaves: seq<Node>, m: u64)
    requires m < |leaves| < 0x1_0000_0000_0000_0000
    ensures var root := CreateTree(H, leaves);
            var r := GetInclusionProof(root, |leaves|, m);
            r.Ok? && r.value.leafIndex == m && r.value.treeSize == |leaves| &&
            r.value.nonce == NonceOf(leaves[m]) &&
            (|leaves| >= 2 ==>
               var k := PrevPow2(|leaves|);
               r.value.path[|r.value.path| - 1] == (if m < k then root.right.hash else root.left.hash))
  {
    var root := CreateTree(H, leaves);
    ProofAgreesWithLeaf(root, |leaves|, m);
    GetLeafOfCreateTree(H, leaves, m);
    if |leaves| >= 2 {
      var k := PrevPow2(|leaves|);
      if m < k {
        ProofAgreesWithLeaf(root.left, k, m);
      } else {
        ProofAgreesWithLeaf(root.right, |leaves| - k, m - k);
      }
    }
  }

  // ---------------------------------------------------------------------
  // Proof verification

  /**
   * The root that the first AuditLength(n, m) entries of a path lead to,
   * read top-down as section 2.1.3.1 of RFC 9162 builds the path: entry
   * AuditLength(n, m) - 1 is the sibling at the top, to the right of the
   * subtree holding leaf m when m < PrevPow2(n), otherwise to its left,
   * and the entries before it are the path inside that subtree.
   */
  function RootFromPath(H: HashFn, n: nat, m: nat, leafHash: Bytes, path: seq<Bytes>): Bytes
    requires m < n && AuditLength(n, m) <= |path|
    decreases n
  {
    if n == 1 then leafHash
    else
      var k := PrevPow2(n);
      var sibling := path[AuditLength(n, m) - 1];
      if m < k then HashChildren(H, RootFromPath(H, k, m, leafHash, path), sibling)
      else HashChildren(H, sibling, RootFromPath(H, n - k, m - k, leafHash, path))
  }

  /** Entries after the first AuditLength(n, m) do not change the root. */
  lemma {:induction false} RootFromPathPrefix(H: HashFn, n: nat, m: nat, leafHash: Bytes, path: seq<Bytes>, more: seq<Bytes>)
    requires m < n && AuditLength(n, m) <= |path|
    ensures RootFromPath(H, n, m, leafHash, path + more) == RootFromPath(H, n, m, leafHash, path)
    decreases n
  {
    if n > 1 {
      var k := PrevPow2(n);
      if m < k {
        RootFromPathPrefix(H, k, m, leafHash, path, more);
      } else {
        RootFromPathPrefix(H, n - k, m - k, leafHash, path, more);
      }
    }
  }

  /** A path for a leaf in the left subtree: the subtree's path, then the right sibling. */
  lemma {:induction false} RootFromPathLeft(H: HashFn, n: nat, m: nat, leafHash: Bytes, sub: seq<Bytes>, sibling: Bytes)
    requires 2 <= n && m < PrevPow2(n) && |sub| == AuditLength(PrevPow2(n), m)
    ensures RootFromPath(H, n, m, leafHash, sub + [sibling]) ==
              HashChildren(H, RootFromPath(H, PrevPow2(n), m, leafHash, sub), sibling)
  {
    RootFromPathPrefix(H, PrevPow2(n), m, leafHash, sub, [sibling]);
  }

  /** A path for a leaf in the right subtree: the subtree's path, then the left sibling. */
  lemma {:induction false} RootFromPathRight(H: HashFn, n: nat, m: nat, leafHash: Bytes, sub: seq<Bytes>, sibling: Bytes)
    requires 2 <= n && PrevPow2(n) <= m < n && |sub| == AuditLength(n - PrevPow2(n), m - PrevPow2(n))
    ensures RootFromPath(H, n, m, leafHash, sub + [sibling]) ==
              HashChildren(H, sibling, RootFromPath(H, n - PrevPow2(n), m - PrevPow2(n), leafHash, sub))
  {
    RootFromPathPrefix(H, n - PrevPow2(n), m - PrevPow2(n), leafHash, sub, [sibling]);
  }

  /**
   * What checking a proof against the proven file's bytes yields: an error
   * for an index outside the tree or a path whose length does not fit the
   * index and size, and otherwise the root the path leads to.
   */
  function InclusionRoot(H: HashFn, proof: InclusionProof, data: Bytes): Result<Bytes, Error>
  {
    if proof.leafIndex >= proof.treeSize then Err(InvalidLeafIndex)
    else if |proof.path| != AuditLength(proof.treeSize, proof.leafIndex) then Err(SizeMismatch)
    else Ok(RootFromPath(H, proof.treeSize, proof.leafIndex,
                         HashLeaf(H, proof.nonce, data), proof.path))
  }

  /** The verifier's inner loop: halve both counters while fn is even and non-zero. */
  ghost function ShiftToOdd(fn: nat, sn: nat): (nat, nat)
    decreases fn
  {
    if fn % 2 == 0 && fn != 0 then ShiftToOdd(fn / 2, sn / 2) else (fn, sn)
  }

  /** The verifier's loop over path from entry j on, from counters fn, sn and hash r. */
  ghost function Climb(H: HashFn, fn: nat, sn: nat, r: Bytes, path: seq<Bytes>, j: nat): Result<Bytes, Error>
    requires j <= |path|
    decreases |path| - j
  {
    if j == |path| then (if sn == 0 then Ok(r) else Err(SizeMismatch))
    else if sn == 0 then Err(SizeMismatch)
    else if fn % 2 == 1 || fn == sn then
      var shifted := ShiftToOdd(fn, sn);
      Climb(H, shifted.0 / 2, shifted.1 / 2, HashChildren(H, path[j], r), path, j + 1)
    else
      Climb(H, fn / 2, sn / 2, HashChildren(H, r, path[j]), path, j + 1)
  }

  /** The inner loop takes both counters at an odd multiple a * 2^e of a power of two down to a. */
  lemma {:induction false} ShiftToOddOfOddMultiple(a: nat, e: nat)
    requires a % 2 == 1
    ensures ShiftToOdd(Shl(a, e), Shl(a, e)) == (a, a)
  {
    if e > 0 {
      ShiftToOddOfOddMultiple(a, e - 1);
    }
  }

  /** The right half of the block [q * 2^c, (q + 1) * 2^c) starts at (2q + 1) * 2^(c-1). */
  lemma {:induction false} OddMultipleSpan(q: nat, c: nat, c': nat)
    requires 1 <= c && c' <= c - 1
    ensures Shl(Shl(2 * q + 1, c - 1 - c'), c') == Shl(q, c) + Pow2(c - 1)
  {
    ShlAdd(2 * q + 1, c - 1 - c', c');
    ShlSum(2 * q, 1, c - 1);
    ShlDouble(q, c - 1);
    ShlOne(c - 1);
  }

  /** Below the end of a tree of N leaves, the right half of a block has the counter 2q + 1 or more. */
  lemma {:induction false} RightHalfCounter(q: nat, c: nat, N: nat)
    requires c >= 1 && Shl(q, c) + Pow2(c - 1) < N
    ensures Shr(N - 1, c - 1) >= 2 * q + 1
    ensures Shr(N - 1, c - 1) / 2 == Shr(N - 1, c)
  {
    OddMultipleSpan(q, c, c - 1);
    ShrOfShl(2 * q + 1, 0, c - 1);
    ShrMonotone(Shl(2 * q + 1, c - 1), N - 1, c - 1);
    ShrStep(N - 1, c - 1);
  }

  /**
   * The verifier's step at the last right child of a level when it is lower
   * than its sibling (height c' < c - 1, t leaves, ending the tree): both
   * counters equal (2q + 1) * 2^(c-1-c'), the inner loop shifts them down to
   * 2q + 1, and the step lands on the parent's counters.
   */
  lemma {:induction false} RightStepLast(q: nat, c: nat, c': nat, t: nat, N: nat)
    requires 1 <= c && c' < c - 1 && 1 <= t <= Pow2(c') && t <= Pow2(c - 1)
    requires Shl(q, c) + Pow2(c - 1) + t == N
    ensures var fn := Shl(2 * q + 1, c - 1 - c');
            Shr(N - 1, c') == fn && fn != 0 &&
            ShiftToOdd(fn, fn) == (2 * q + 1, 2 * q + 1) && Shr(N - 1, c) == q
  {
    OddMultipleSpan(q, c, c');
    ShrOfShl(Shl(2 * q + 1, c - 1 - c'), t - 1, c');
    ShiftToOddOfOddMultiple(2 * q + 1, c - 1 - c');
    ShrOfShl(q, Pow2(c - 1) + t - 1, c);
  }

  /**
   * The counters on reaching a right child with t leaves and height c',
   * whose parent is the block of height c starting at q * 2^c: they are not
   * those of a left child, and one step lands on the parent's counters.
   */
  lemma {:induction false} RightChildCounters(q: nat, c: nat, c': nat, t: nat, N: nat)
    requires 1 <= c && c' <= c - 1 && 1 <= t <= Pow2(c') && t <= Pow2(c - 1)
    requires Shl(q, c) + Pow2(c - 1) + t <= N
    requires c' < c - 1 ==> Shl(q, c) + Pow2(c - 1) + t == N
    ensures var fn, sn := Shl(2 * q + 1, c - 1 - c'), Shr(N - 1, c');
            sn != 0 && (fn % 2 == 1 || fn == sn) &&
            ShiftToOdd(fn, sn).0 / 2 == q && ShiftToOdd(fn, sn).1 / 2 == Shr(N - 1, c)
  {
    if c' == c - 1 {
      RightHalfCounter(q, c, N);
    } else {
      RightStepLast(q, c, c', t, N);
    }
  }

  /**
   * The verifier's loop, started on a whole path with outcome result, gets
   * through the first a entries and is then at counters fn, sn with hash
   * root; a path shorter than a makes it fail with a size error.
   */
  ghost predicate Passes(H: HashFn, result: Result<Bytes, Error>, path: seq<Bytes>, a: nat, fn: nat, sn: nat, root: Bytes)
  {
    result == if |path| < a then Err(SizeMismatch) else Climb(H, fn, sn, root, path, a)
  }

  /** One more level, from a left child: the sibling's hash goes on the right. */
  lemma {:induction false} PassLeft(H: HashFn, result: Result<Bytes, Error>, path: seq<Bytes>, below: nat,
                                    q: nat, sn: nat, child: Bytes, parent: Bytes)
    requires Passes(H, result, path, below, 2 * q, sn, child)
    requires sn >= 2 * q + 1
    requires |path| > below ==> parent == HashChildren(H, child, path[below])
    ensures Passes(H, result, path, below + 1, q, sn / 2, parent)
  {
  }

  /**
   * One more level, from a right child or the last node of its level: the
   * sibling's hash goes on the left, and the inner loop's shifting happens.
   */
  lemma {:induction false} PassRight(H: HashFn, result: Result<Bytes, Error>, path: seq<Bytes>, below: nat,
                                     fn: nat, sn: nat, child: Bytes, parent: Bytes)
    requires Passes(H, result, path, below, fn, sn, child)
    requires sn != 0 && (fn % 2 == 1 || fn == sn)
    requires |path| > below ==> parent == HashChildren(H, path[below], child)
    ensures Passes(H, result, path, below + 1, ShiftToOdd(fn, sn).0 / 2, ShiftToOdd(fn, sn).1 / 2, parent)
  {
  }

  /** The root hash of the subtree of s leaves holding leaf i, read from the start of path when it is long enough. */
  ghost function SubtreeRoot(H: HashFn, s: nat, i: nat, h: Bytes, path: seq<Bytes>): Bytes
    requires i < s
  {
    var a := AuditLength(s, i);
    if |path| >= a then RootFromPath(H, s, i, h, path) else h
  }

  lemma {:induction false} SubtreeRootLeft(H: HashFn, s: nat, i: nat, h: Bytes, path: seq<Bytes>)
    requires 2 <= s && i < PrevPow2(s)
    ensures AuditLength(s, i) == AuditLength(PrevPow2(s), i) + 1
    ensures |path| > AuditLength(PrevPow2(s), i) ==>
              SubtreeRoot(H, s, i, h, path) ==
              HashChildren(H, SubtreeRoot(H, PrevPow2(s), i, h, path), path[AuditLength(PrevPow2(s), i)])
  {
  }

  lemma {:induction false} SubtreeRootRight(H: HashFn, s: nat, i: nat, h: Bytes, path: seq<Bytes>)
    requires 2 <= s && PrevPow2(s) <= i < s
    ensures AuditLength(s, i) == AuditLength(s - PrevPow2(s), i - PrevPow2(s)) + 1
    ensures |path| > AuditLength(s - PrevPow2(s), i - PrevPow2(s)) ==>
              SubtreeRoot(H, s, i, h, path) ==
              HashChildren(H, path[AuditLength(s - PrevPow2(s), i - PrevPow2(s))],
                           SubtreeRoot(H, s - PrevPow2(s), i - PrevPow2(s), h, path))
  {
  }

  /**
   * The verifier's loop over the part of a path that belongs to one subtree:
   * the subtree holds s leaves starting at leaf lo = q * 2^c of a tree of N
   * leaves, c being its height, and is complete or the last of its level.
   * Started at the counters of its leaf i, the loop consumes the subtree's
   * AuditLength(s, i) entries, reaches the subtree's root hash as
   * RootFromPath reads it, and is then at the counters q and (N - 1) >> c.
   */
  lemma {:induction false} ClimbSubtree(H: HashFn, s: nat, i: nat, lo: nat, q: nat, c: nat, N: nat,
                                        h: Bytes, path: seq<Bytes>, start: nat)
    requires i < s && lo + s <= N && start == lo + i
    requires c == CeilLog2(s) && lo == Shl(q, c)
    requires s == Pow2(c) || lo + s == N
    ensures Passes(H, Climb(H, start, N - 1, h, path, 0), path, AuditLength(s, i),
                   q, Shr(N - 1, c), SubtreeRoot(H, s, i, h, path))
    decreases s, 2
  {
    if s == 1 {
      assert c == 0 && lo == q && i == 0;
    } else if i < PrevPow2(s) {
      ClimbLeftHalf(H, s, i, lo, q, c, N, h, path, start);
    } else {
      ClimbRightHalf(H, s, i, lo, q, c, N, h, path, start);
    }
  }

  /** ClimbSubtree for a leaf in the left half: the left half is complete and has height c - 1. */
  lemma {:induction false} ClimbLeftHalf(H: HashFn, s: nat, i: nat, lo: nat, q: nat, c: nat, N: nat,
                                         h: Bytes, path: seq<Bytes>, start: nat)
    requires 2 <= s && i < PrevPow2(s) && lo + s <= N && start == lo + i
    requires c == CeilLog2(s) && lo == Shl(q, c)
    ensures Passes(H, Climb(H, start, N - 1, h, path, 0), path, AuditLength(s, i),
                   q, Shr(N - 1, c), SubtreeRoot(H, s, i, h, path))
    decreases s, 1
  {
    CeilLog2Bounds(s);
    CeilLog2OfPow2(c - 1);
    ShlDouble(q, c - 1);
    ClimbSubtree(H, PrevPow2(s), i, lo, 2 * q, c - 1, N, h, path, start);
    RightHalfCounter(q, c, N);
    SubtreeRootLeft(H, s, i, h, path);
    PassLeft(H, Climb(H, start, N - 1, h, path, 0), path, AuditLength(PrevPow2(s), i), q, Shr(N - 1, c - 1),
             SubtreeRoot(H, PrevPow2(s), i, h, path), SubtreeRoot(H, s, i, h, path));
  }

  /**
   * ClimbSubtree for a leaf in the right part, of s - PrevPow2(s) leaves and
   * height c'; when c' < c - 1 the right part ends the tree and the
   * verifier's inner loop shifts its counters up to the parent's level.
   */
  lemma {:induction false} ClimbRightHalf(H: HashFn, s: nat, i: nat, lo: nat, q: nat, c: nat, N: nat,
                                          h: Bytes, path: seq<Bytes>, start: nat)
    requires 2 <= s && PrevPow2(s) <= i < s && lo + s <= N && start == lo + i
    requires c == CeilLog2(s) && lo == Shl(q, c)
    requires s == Pow2(c) || lo + s == N
    ensures Passes(H, Climb(H, start, N - 1, h, path, 0), path, AuditLength(s, i),
                   q, Shr(N - 1, c), SubtreeRoot(H, s, i, h, path))
    decreases s, 1
  {
    CeilLog2Bounds(s);
    CeilLog2Bounds(s - PrevPow2(s));
    CeilLog2Least(s - PrevPow2(s), c - 1);
    if s == Pow2(c) {
      CeilLog2OfPow2(c - 1);
    }
    ClimbRightPart(H, s, i, lo, q, c, CeilLog2(s - PrevPow2(s)), N, h, path, start);
  }

  lemma {:induction false} ClimbRightPart(H: HashFn, s: nat, i: nat, lo: nat, q: nat, c: nat, c': nat, N: nat,
                                          h: Bytes, path: seq<Bytes>, start: nat)
    requires 2 <= s && PrevPow2(s) <= i < s && lo + s <= N && start == lo + i
    requires c == CeilLog2(s) && lo == Shl(q, c) && c' == CeilLog2(s - PrevPow2(s))
    requires 1 <= c && c' <= c - 1 && PrevPow2(s) == Pow2(c - 1) && 1 <= s - PrevPow2(s) <= Pow2(c')
    requires c' < c - 1 ==> lo + s == N
    requires s - PrevPow2(s) == Pow2(c') || lo + s == N
    ensures Passes(H, Climb(H, start, N - 1, h, path, 0), path, AuditLength(s, i),
                   q, Shr(N - 1, c), SubtreeRoot(H, s, i, h, path))
    decreases s, 0
  {
    OddMultipleSpan(q, c, c');
    ClimbSubtree(H, s - PrevPow2(s), i - PrevPow2(s), lo + PrevPow2(s), Shl(2 * q + 1, c - 1 - c'), c', N, h, path, start);
    RightChildCounters(q, c, c', s - PrevPow2(s), N);
    SubtreeRootRight(H, s, i, h, path);
    PassRight(H, Climb(H, start, N - 1, h, path, 0), path, AuditLength(s - PrevPow2(s), i - PrevPow2(s)),
              Shl(2 * q + 1, c - 1 - c'), Shr(N - 1, c'),
              SubtreeRoot(H, s - PrevPow2(s), i - PrevPow2(s), h, path), SubtreeRoot(H, s, i, h, path));
  }

  /**
   * The verifier's loop agrees with the top-down reading of the path: it
   * succeeds exactly when the path has AuditLength(n, m) entries, and then
   * yields the root RootFromPath computes.
   */
  lemma {:induction false} ClimbMatchesRoot(H: HashFn, n: nat, m: nat, h: Bytes, path: seq<Bytes>)
    requires m < n
    ensures Climb(H, m, n - 1, h, path, 0) ==
              if |path| == AuditLength(n, m) then Ok(RootFromPath(H, n, m, h, path))
              else Err(SizeMismatch)
  {
    var a := AuditLength(n, m);
    ClimbSubtree(H, n, m, 0, 0, CeilLog2(n), n, h, path, m);
    ShrOfShl(0, n - 1, CeilLog2(n));
  }

  /**
   * Recomputes a candidate root from a proof and the proven file's bytes.
   * The counters fn and sn are the uint64 values of the original: a right
   * shift by one is halving and the lowest bit is the remainder modulo 2.
   * Whether the candidate equals a trusted root is for the caller to decide.
   */
  method CalcInclusionProof(H: HashFn, proof: InclusionProof, data: Bytes) returns (res: Result<Bytes, Error>)
    ensures res == InclusionRoot(H, proof, data)
  {
    var leafHash := HashLeaf(H, proof.nonce, data);
    if proof.leafIndex >= proof.treeSize {
      return Err(InvalidLeafIndex);
    }
    var fn: u64 := proof.leafIndex;
    var sn: u64 := proof.treeSize - 1;
    var r := leafHash;
    ClimbMatchesRoot(H, proof.treeSize, proof.leafIndex, leafHash, proof.path);
    for i := 0 to |proof.path|
      invariant Climb(H, fn, sn, r, proof.path, i) ==
                Climb(H, proof.leafIndex, proof.treeSize - 1, leafHash, proof.path, 0)
    {
      var p := proof.path[i];
      if sn == 0 {
        return Err(SizeMismatch);
      }
      if fn % 2 == 1 || fn == sn {
        r := HashChildren(H, p, r);
        ghost var shifted := ShiftToOdd(fn, sn);
        while fn % 2 == 0 && fn != 0
          invariant ShiftToOdd(fn, sn) == shifted
        {
          fn := fn / 2;
          sn := sn / 2;
        }
      } else {
        r := HashChildren(H, r, p);
      }
      fn := fn / 2;
      sn := sn / 2;
    }
    if sn != 0 {
      return Err(SizeMismatch);
    }
    return Ok(r);
  }

  /** Following the proof of leaf m of a consistently hashed tree leads back to its root. */
  lemma {:induction false} PathRebuildsRoot(H: HashFn, t: Node, n: u64, m: u64)
    requires m < n && Shaped(t, n) && HashesConsistent(H, t, n)
    ensures GetInclusionProof(t, n, m).Ok?
    ensures RootFromPath(H, n, m, LeafSeq(t, n)[m].hash, GetInclusionProof(t, n, m).value.path) == t.hash
    decreases n, 1
  {
    if n == 1 {
      assert LeafSeq(t, n) == [t];
    } else if m < PrevPow2(n) {
      PathRebuildsLeft(H, t, n, m);
    } else {
      PathRebuildsRight(H, t, n, m);
    }
  }

  /** PathRebuildsRoot for a leaf in the left subtree. */
  lemma {:induction false} PathRebuildsLeft(H: HashFn, t: Node, n: u64, m: u64)
    requires 2 <= n && m < PrevPow2(n) && Shaped(t, n) && HashesConsistent(H, t, n)
    ensures GetInclusionProof(t, n, m).Ok?
    ensures RootFromPath(H, n, m, LeafSeq(t, n)[m].hash, GetInclusionProof(t, n, m).value.path) == t.hash
    decreases n, 0
  {
    PathRebuildsRoot(H, t.left, PrevPow2(n), m);
    var sub := GetInclusionProof(t.left, PrevPow2(n), m).value;
    assert GetInclusionProof(t, n, m) == Ok(InclusionProof(m, n, sub.nonce, sub.path + [t.right.hash]));
    assert LeafSeq(t, n)[m] == LeafSeq(t.left, PrevPow2(n))[m];
    RootFromPathLeft(H, n, m, LeafSeq(t, n)[m].hash, sub.path, t.right.hash);
  }

  /** PathRebuildsRoot for a leaf in the right subtree. */
  lemma {:induction false} PathRebuildsRight(H: HashFn, t: Node, n: u64, m: u64)
    requires 2 <= n && PrevPow2(n) <= m < n && Shaped(t, n) && HashesConsistent(H, t, n)
    ensures GetInclusionProof(t, n, m).Ok?
    ensures RootFromPath(H, n, m, LeafSeq(t, n)[m].hash, GetInclusionProof(t, n, m).value.path) == t.hash
    decreases n, 0
  {
    var rest: u64, i: u64 := n - PrevPow2(n), m - PrevPow2(n);
    PathRebuildsRoot(H, t.right, rest, i);
    var sub := GetInclusionProof(t.right, rest, i).value;
    assert GetInclusionProof(t, n, m) == Ok(InclusionProof(m, n, sub.nonce, sub.path + [t.left.hash]));
    assert LeafSeq(t, n)[m] == LeafSeq(t.right, rest)[i];
    RootFromPathRight(H, n, m, LeafSeq(t, n)[m].hash, sub.path, t.left.hash);
  }

  /**
   * Round trip: for the tree built from leaves, the proof of leaf m checked
   * against bytes whose leaf hash (with that leaf's nonce) is the leaf's
   * hash yields the root hash of the tree.
   */
  lemma {:induction false} InclusionRoundTrip(H: HashFn, leaves: seq<Node>, m: u64, data: Bytes)
    requires m < |leaves| < 0x1_0000_0000_0000_0000
    requires leaves[m].hash == HashLeaf(H, NonceOf(leaves[m]), data)
    ensures var root := CreateTree(H, leaves);
            var proof := GetInclusionProof(root, |leaves|, m);
            proof.Ok? && InclusionRoot(H, proof.value, data) == Ok(root.hash)
  {
    var root := CreateTree(H, leaves);
    CreateTreeShape(H, leaves);
    ProofOfCreateTree(H, leaves, m);
    PathRebuildsRoot(H, root, |leaves|, m);
  }

  /** A leaf made by CreateLeaf from data is proven by that same data. */
  lemma {:induction false} CreatedLeafRoundTrip(H: HashFn, leaves: seq<Node>, m: u64, name: string, data: Bytes, nonce: Bytes)
    requires m < |leaves| < 0x1_0000_0000_0000_0000
    requires leaves[m] == CreateLeaf(H, name, data, nonce)
    ensures var root := CreateTree(H, leaves);
            var proof := GetInclusionProof(root, |leaves|, m);
            proof.Ok? && proof.value.nonce == nonce &&
            InclusionRoot(H, proof.value, data) == Ok(root.hash)
  {
    InclusionRoundTrip(H, leaves, m, data);
    ProofOfCreateTree(H, leaves, m);
  }

  // ---------------------------------------------------------------------
  // Worked examples

  /** Three leaves a, b, c: the root is H(1 || H(1 || a || b) || c). */
  lemma {:induction false} ThreeLeaves(H: HashFn, a: Node, b: Node, c: Node)
    ensures CreateTree(H, [a, b, c]).hash ==
              HashChildren(H, HashChildren(H, a.hash, b.hash), c.hash)
    ensures GetInclusionProof(CreateTree(H, [a, b, c]), 3, 2).Ok?
    ensures GetInclusionProof(CreateTree(H, [a, b, c]), 3, 2).value.path ==
              [HashChildren(H, a.hash, b.hash)]
    ensures GetInclusionProof(CreateTree(H, [a, b, c]), 3, 0).Ok?
    ensures GetInclusionProof(CreateTree(H, [a, b, c]), 3, 0).value.path == [b.hash, c.hash]
  {
    PrevPow2Unique(3, 2);
    PrevPow2Unique(2, 1);
    assert [a, b, c][..2] == [a, b] && [a, b, c][2..] == [c];
    assert [a, b][..1] == [a] && [a, b][1..] == [b];
  }

  /** Five leaves: the left subtree holds four, the fifth leaf is the right child itself. */
  lemma {:induction false} FiveLeaves(H: HashFn, l: seq<Node>)
    requires |l| == 5
    ensures CreateTree(H, l).left == CreateTree(H, l[..4])
    ensures CreateTree(H, l).right == l[4]
    ensures CreateTree(H, l).left.left == CreateTree(H, l[..2])
    ensures CreateTree(H, l).left.right == CreateTree(H, l[2..4])
  {
    PrevPow2Unique(5, 4);
    PrevPow2Unique(4, 2);
    assert l[..4][..2] == l[..2] && l[..4][2..] == l[2..4];
    assert l[4..] == [l[4]];
  }
}
