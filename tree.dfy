/**
 * The saved form of a directory's Merkle tree and inclusion proofs for
 * files named by their relative paths.
 */
module MerkDir {
  import opened Merkle

  /**
   * A tree as the program saves it: the absolute path of the directory,
   * the leaf number of each file (relative path to index; the number of
   * entries is the tree size), the creation time, and the root node.
   * The creation time is an opaque integer here.
   */
  datatype Tree = Tree(path: string, files: map<string, u64>, createdAt: int, root: Node)

  datatype TreeError =
    | FileNotFound            // no file of that name in the tree
    | ProofFailed(cause: Error)   // proof generation failed; the Merkle error is kept

  /** A Go length is a non-negative signed 64-bit int, so the size converts to uint64 unchanged. */
  predicate SizeFits(t: Tree)
  {
    |t.files| < 0x8000_0000_0000_0000
  }

  /**
   * The inclusion proof for the file name: its leaf number is looked up,
   * the number of files is the tree size, and the proof comes from the
   * Merkle engine, whose failures are wrapped.
   */
  function GenInclusionProof(t: Tree, name: string): (r: Result<InclusionProof, TreeError>)
    requires SizeFits(t)
    ensures name !in t.files ==> r == Err(FileNotFound)
    ensures r.Ok? ==> name in t.files && r.value.leafIndex == t.files[name] &&
                      r.value.treeSize == |t.files| && t.files[name] < |t.files| &&
                      |r.value.path| == AuditLength(|t.files|, t.files[name])
    ensures r.Err? && name in t.files ==>
              r.error.ProofFailed? &&
              (r.error.cause == LeafIndexImpossible <==> t.files[name] >= |t.files|) &&
              (r.error.cause == LeafIndexImpossible || r.error.cause == LeafCountIncorrect)
    ensures name in t.files ==>
              var leaf := GetLeaf(t.root, |t.files|, t.files[name]);
              (r.Ok? <==> leaf.Ok?) &&
              (r.Ok? ==> r.value.nonce == NonceOf(leaf.value)) &&
              (r.Err? ==> r.error == ProofFailed(leaf.error))
  {
    if name !in t.files then Err(FileNotFound)
    else
      var leafN := t.files[name];
      var treeSize: u64 := |t.files|;
      ProofAgreesWithLeaf(t.root, treeSize, leafN);
      match GetInclusionProof(t.root, treeSize, leafN)
      case Err(e) => Err(ProofFailed(e))
      case Ok(ip) => Ok(ip)
  }

  /**
   * The tree the program builds from its leaves: one leaf per file, the
   * file's number is the position of its leaf, and the root is built from
   * those leaves in that order.
   */
  ghost predicate Describes(H: HashFn, t: Tree, leaves: seq<Node>)
  {
    |leaves| == |t.files| && t.root == CreateTree(H, leaves) &&
    forall name | name in t.files ::
      t.files[name] < |leaves| && leaves[t.files[name]].Leaf? && leaves[t.files[name]].name == name
  }

  /** In a built tree different files have different leaf numbers. */
  lemma {:induction false} LeafNumbersDistinct(H: HashFn, t: Tree, leaves: seq<Node>, a: string, b: string)
    requires Describes(H, t, leaves) && a in t.files && b in t.files && a != b
    ensures t.files[a] != t.files[b]
  {
    assert leaves[t.files[a]].name == a && leaves[t.files[b]].name == b;
  }

  /** A map that sends different keys to different values has as many values as keys. */
  lemma {:induction false} InjectiveValues(f: map<string, u64>)
    requires forall a, b | a in f && b in f && a != b :: f[a] != f[b]
    ensures |f.Values| == |f|
    decreases |f|
  {
    if f == map[] {
      assert f.Values == {};
    } else {
      var k :| k in f;
      var g := f - {k};
      forall v | v in f.Values - {f[k]}
        ensures v in g.Values
      {
        var j :| j in f && f[j] == v;
        assert g[j] == v;
      }
      forall v | v in g.Values
        ensures v in f.Values - {f[k]}
      {
        var j :| j in g && g[j] == v;
        assert f[j] == v;
      }
      assert g.Values == f.Values - {f[k]};
      InjectiveValues(g);
    }
  }

  /** A set of numbers below n has at most n elements. */
  lemma {:induction false} RangeBound(s: set<int>, n: nat)
    requires forall x | x in s :: 0 <= x < n
    ensures |s| <= n
    decreases n
  {
    if n == 0 {
      assert forall x :: x !in s;
      assert s == {};
    } else {
      RangeBound(s - {n - 1}, n - 1);
    }
  }

  /** A set of numbers below n that misses m (itself below n) has fewer than n elements. */
  lemma {:induction false} RangeMissing(s: set<int>, n: nat, m: int)
    requires 0 <= m < n && m !in s
    requires forall x | x in s :: 0 <= x < n
    ensures |s| < n
    decreases n
  {
    if m == n - 1 {
      RangeBound(s, n - 1);
    } else {
      RangeMissing(s - {n - 1}, n - 1, m);
    }
  }

  /**
   * Every number below the size of a built tree is the leaf number of a
   * file; with LeafNumbersDistinct, the map from names to leaf numbers is
   * a bijection onto 0 .. size - 1.
   */
  lemma {:induction false} EveryLeafNumberUsed(H: HashFn, t: Tree, leaves: seq<Node>, m: int)
    requires Describes(H, t, leaves) && 0 <= m < |t.files|
    ensures exists name :: name in t.files && t.files[name] == m
  {
    forall a, b | a in t.files && b in t.files && a != b
      ensures t.files[a] != t.files[b]
    {
      LeafNumbersDistinct(H, t, leaves, a, b);
    }
    InjectiveValues(t.files);
    var values: set<int> := t.files.Values;
    if m !in values {
      RangeMissing(values, |t.files|, m);
    }
    assert m in t.files.Values;
  }

  /** For a built tree, proof generation succeeds exactly for the names of its files. */
  lemma {:induction false} GenInclusionProofSucceedsIff(H: HashFn, t: Tree, leaves: seq<Node>, name: string)
    requires SizeFits(t) && Describes(H, t, leaves)
    ensures GenInclusionProof(t, name).Ok? <==> name in t.files
  {
    if name in t.files {
      ProofOfCreateTree(H, leaves, t.files[name]);
    }
  }

  /**
   * End to end: the proof generated for a file of a built tree carries the
   * nonce of the file's leaf, the leaf it names is found under that number,
   * and checking the proof against the file's bytes yields the root hash.
   */
  lemma {:induction false} GeneratedProofVerifies(H: HashFn, t: Tree, leaves: seq<Node>, name: string, data: Bytes)
    requires SizeFits(t) && Describes(H, t, leaves) && name in t.files
    requires leaves[t.files[name]].hash == HashLeaf(H, NonceOf(leaves[t.files[name]]), data)
    ensures var r := GenInclusionProof(t, name);
            r.Ok? && r.value.nonce == NonceOf(leaves[t.files[name]]) &&
            GetLeaf(t.root, r.value.treeSize, r.value.leafIndex) == Ok(leaves[t.files[name]]) &&
            GetLeaf(t.root, r.value.treeSize, r.value.leafIndex).value.name == name &&
            InclusionRoot(H, r.value, data) == Ok(t.root.hash)
  {
    var m := t.files[name];
    ProofOfCreateTree(H, leaves, m);
    GetLeafOfCreateTree(H, leaves, m);
    InclusionRoundTrip(H, leaves, m, data);
  }
}
