/**
 The Merkle tree of `backend/src/relayer/merkleTree.ts`: odd nodes are paired with
 themselves, so every layer has well-defined pairs. Leaves are buffers of any length, and
 the siblings on a path are hexadecimal texts.

 Main results: every audit path folds to the root, whatever the size; with a hash that has
 no collision among the hashed inputs, a root determines a list of distinct leaves; and a
 path that folds to the root starts at one of the leaves.
 */
module MerkleTrees {
  import opened Wrappers
  import opened Bytes
  import opened HexFields

  datatype ProofNode = ProofNode(sibling: string, isRight: bool)

  datatype TreeError = NoLeaves | IndexOutOfBounds(index: int)

  type Outcome<+T> = Result<T, TreeError>

  function HashPair(h: HashFn, left: Buffer, right: Buffer): Digest {
    h(left + right)
  }

  // -------------------------------------------------------------- specification

  /** The right partner of the even position `i`: its neighbour, or itself at an odd end. */
  function Partner(layer: seq<Buffer>, i: nat): Buffer
    requires i < |layer|
  {
    if i + 1 < |layer| then layer[i + 1] else layer[i]
  }

  function PairBytes(layer: seq<Buffer>, i: nat): Buffer
    requires 2 * i < |layer|
  {
    layer[2 * i] + Partner(layer, 2 * i)
  }

  function Parent(h: HashFn, layer: seq<Buffer>, i: nat): Digest
    requires 2 * i < |layer|
  {
    h(PairBytes(layer, i))
  }

  function NextLayer(h: HashFn, layer: seq<Buffer>): (next: seq<Digest>)
    ensures |next| == (|layer| + 1) / 2
    ensures forall i :: 0 <= i < |next| ==> next[i] == Parent(h, layer, i)
  {
    seq((|layer| + 1) / 2, i requires 0 <= i < (|layer| + 1) / 2 => Parent(h, layer, i))
  }

  function Layers(h: HashFn, leaves: seq<Buffer>): (ls: seq<seq<Buffer>>)
    requires |leaves| > 0
    ensures |ls| > 0 && ls[0] == leaves
    decreases |leaves|
  {
    if |leaves| == 1 then [leaves] else [leaves] + Layers(h, NextLayer(h, leaves))
  }

  function Root(h: HashFn, leaves: seq<Buffer>): (root: Buffer)
    requires |leaves| > 0
    ensures |root| == 32 || leaves == [root]
    decreases |leaves|
  {
    if |leaves| == 1 then leaves[0] else Root(h, NextLayer(h, leaves))
  }

  function Sibling(layer: seq<Buffer>, i: nat): Buffer
    requires i < |layer|
  {
    if i % 2 == 0 then Partner(layer, i) else layer[i - 1]
  }

  /** One step of an audit path: the sibling's hexadecimal text, and its side. */
  function NodeFor(layer: seq<Buffer>, i: nat): ProofNode
    requires i < |layer|
  {
    ProofNode(Hex(Sibling(layer, i)), i % 2 == 0)
  }

  function AuditPath(h: HashFn, leaves: seq<Buffer>, i: nat): seq<ProofNode>
    requires i < |leaves|
    decreases |leaves|
  {
    if |leaves| == 1 then []
    else [NodeFor(leaves, i)] + AuditPath(h, NextLayer(h, leaves), i / 2)
  }

  function FoldNode(h: HashFn, current: Buffer, node: ProofNode): Digest {
    var sibling := HexBytes(node.sibling);
    if node.isRight then HashPair(h, current, sibling) else HashPair(h, sibling, current)
  }

  function FoldPath(h: HashFn, leaf: Buffer, proof: seq<ProofNode>): (root: Buffer)
    ensures |root| == 32 || root == leaf
  {
    if proof == [] then leaf
    else FoldNode(h, FoldPath(h, leaf, proof[..|proof| - 1]), proof[|proof| - 1])
  }

  // ------------------------------------------------------------- completeness

  lemma {:induction false} FoldFromFront(h: HashFn, leaf: Buffer, node: ProofNode, rest: seq<ProofNode>)
    ensures FoldPath(h, leaf, [node] + rest) == FoldPath(h, FoldNode(h, leaf, node), rest)
  {
    var all := [node] + rest;
    if rest == [] {
      assert all[..0] == [];
    } else {
      var k := |rest| - 1;
      FoldFromFront(h, leaf, node, rest[..k]);
      assert all[..|all| - 1] == [node] + rest[..k];
    }
  }

  /** One step along the path reaches the parent in the next layer. */
  lemma ParentOf(h: HashFn, layer: seq<Buffer>, i: nat)
    requires i < |layer| && |layer| > 1
    ensures i / 2 < |NextLayer(h, layer)|
    ensures FoldNode(h, layer[i], NodeFor(layer, i)) == NextLayer(h, layer)[i / 2]
  {
    HexRoundTrip(Sibling(layer, i));
    assert NextLayer(h, layer)[i / 2] == Parent(h, layer, i / 2);
  }

  /** Every leaf's audit path folds to the root, for odd and even sizes alike. */
  lemma {:induction false} AuditPathFolds(h: HashFn, leaves: seq<Buffer>, i: nat)
    requires i < |leaves|
    ensures FoldPath(h, leaves[i], AuditPath(h, leaves, i)) == Root(h, leaves)
    decreases |leaves|
  {
    if |leaves| > 1 {
      var next := NextLayer(h, leaves);
      ParentOf(h, leaves, i);
      AuditPathFolds(h, next, i / 2);
      FoldFromFront(h, leaves[i], NodeFor(leaves, i), AuditPath(h, next, i / 2));
    }
  }

  // ------------------------------------------------------------------ the class

  lemma {:induction false} LastLayerIsRoot(h: HashFn, leaves: seq<Buffer>)
    requires |leaves| > 0
    ensures var ls := Layers(h, leaves); ls[|ls| - 1] == [Root(h, leaves)]
    decreases |leaves|
  {
    if |leaves| > 1 { LastLayerIsRoot(h, NextLayer(h, leaves)); }
  }

  lemma SingleLayer(h: HashFn, leaves: seq<Buffer>)
    requires |leaves| > 0
    ensures |Layers(h, leaves)| == 1 <==> |leaves| == 1
  {
  }

  /** Moving one layer up along a path. */
  lemma PathStep(h: HashFn, layers: seq<seq<Buffer>>, level: nat, i: nat)
    requires level + 1 < |layers| && i < |layers[level]| && layers[level..] == Layers(h, layers[level])
    ensures |layers[level]| > 1 && |layers[level + 1]| > 0 && i / 2 < |layers[level + 1]|
    ensures layers[level + 1..] == Layers(h, layers[level + 1])
    ensures AuditPath(h, layers[level], i)
            == [NodeFor(layers[level], i)] + AuditPath(h, layers[level + 1], i / 2)
  {
    SingleLayer(h, layers[level]);
    assert layers[level + 1] == layers[level..][1];
    assert layers[level + 1..] == layers[level..][1..];
  }

  lemma AppendNode(proof: seq<ProofNode>, node: ProofNode, rest: seq<ProofNode>)
    ensures proof + ([node] + rest) == (proof + [node]) + rest
  {
  }

  /** Pushing the parents of the last layer keeps what the stored and the missing layers add up to. */
  lemma LayerPushed(h: HashFn, layers: seq<seq<Buffer>>, next: seq<Buffer>)
    requires |layers| > 0 && |layers[|layers| - 1]| > 1 && next == NextLayer(h, layers[|layers| - 1])
    ensures (layers + [next])[..|layers|] + Layers(h, next)
            == layers[..|layers| - 1] + Layers(h, layers[|layers| - 1])
  {
    var before, current := layers[..|layers| - 1], layers[|layers| - 1];
    assert (layers + [next])[..|layers|] == before + [current];
    assert before + [current] + Layers(h, next) == before + ([current] + Layers(h, next));
  }

  class MerkleTree {
    const h: HashFn
    var leaves: seq<Buffer>
    var layers: seq<seq<Buffer>>

    ghost predicate Valid()
      reads this
    {
      |leaves| > 0 && layers == Layers(h, leaves)
    }

    /** The constructor's throw on an empty leaf list is `Create`'s error. */
    constructor (h: HashFn, leaves: seq<Buffer>)
      requires |leaves| > 0
      ensures Valid() && this.h == h && this.leaves == leaves
    {
      this.h := h;
      this.leaves := leaves;
      this.layers := [leaves];
      new;
      BuildTree();
    }

    static method Create(h: HashFn, leaves: seq<Buffer>) returns (r: Outcome<MerkleTree>)
      ensures r.Ok? <==> |leaves| > 0
      ensures r.Ok? ==> fresh(r.value) && r.value.Valid() && r.value.h == h && r.value.leaves == leaves
      ensures r.Err? ==> r.error == NoLeaves
    {
      if |leaves| == 0 {
        return Err(NoLeaves);
      }
      var t := new MerkleTree(h, leaves);
      r := Ok(t);
    }

    /** One pass of `buildTree`'s inner loop: the parents of a layer, an odd last node paired with itself. */
    static method HashLayer(h: HashFn, current: seq<Buffer>) returns (next: seq<Buffer>)
      requires |current| > 0
      ensures next == NextLayer(h, current)
    {
      next := [];
      var i := 0;
      while i < |current|
        invariant 0 <= i <= |current| + 1 && i % 2 == 0 && |next| == i / 2
        invariant forall j :: 0 <= j < |next| ==> next[j] == Parent(h, current, j)
      {
        var right := if i + 1 < |current| then current[i + 1] else current[i];
        next := next + [HashPair(h, current[i], right)];
        i := i + 2;
      }
    }

    /** `buildTree`: layers are pushed until one node remains. */
    method BuildTree()
      requires |leaves| > 0 && layers == [leaves]
      modifies this`layers
      ensures layers == Layers(h, leaves)
    {
      var current := layers[0];
      while |current| > 1
        invariant |layers| > 0 && layers[|layers| - 1] == current && |current| > 0
        invariant layers[..|layers| - 1] + Layers(h, current) == Layers(h, leaves)
        decreases |current|
      {
        var next := HashLayer(h, current);
        LayerPushed(h, layers, next);
        layers := layers + [next];
        current := next;
      }
      assert layers == layers[..|layers| - 1] + [current];
    }

    method GetRoot() returns (root: Buffer)
      requires Valid()
      ensures root == Root(h, leaves)
    {
      LastLayerIsRoot(h, leaves);
      root := layers[|layers| - 1][0];
    }

    /** `getProof`. */
    method GetProof(index: int) returns (r: Outcome<seq<ProofNode>>)
      requires Valid()
      ensures r.Ok? <==> 0 <= index < |leaves|
      ensures r.Ok? ==> r.value == AuditPath(h, leaves, index)
      ensures r.Err? ==> r.error == IndexOutOfBounds(index)
    {
      if index < 0 || index >= |leaves| {
        return Err(IndexOutOfBounds(index));
      }
      var proof: seq<ProofNode> := [];
      var current, level := index, 0;
      ghost var path := AuditPath(h, leaves, index);
      while level < |layers| - 1
        invariant 0 <= level < |layers|
        invariant |layers[level]| > 0 && layers[level..] == Layers(h, layers[level])
        invariant 0 <= current < |layers[level]|
        invariant proof + AuditPath(h, layers[level], current) == path
      {
        PathStep(h, layers, level, current);
        ghost var rest := AuditPath(h, layers[level + 1], current / 2);
        var layer := layers[level];
        var isRight := current % 2 == 0;
        var sibling := if isRight then (if current + 1 < |layer| then layer[current + 1] else layer[current])
                       else layer[current - 1];
        var node := ProofNode(Hex(sibling), isRight);
        assert node == NodeFor(layer, current);
        AppendNode(proof, node, rest);
        proof := proof + [node];
        current := current / 2;
        level := level + 1;
      }
      SingleLayer(h, layers[level]);
      assert proof + [] == proof;
      r := Ok(proof);
    }

    /** `getAllProofs`. */
    method GetAllProofs() returns (proofs: seq<seq<ProofNode>>)
      requires Valid()
      ensures |proofs| == |leaves|
      ensures forall i :: 0 <= i < |leaves| ==> proofs[i] == AuditPath(h, leaves, i)
    {
      proofs := [];
      for i := 0 to |leaves|
        invariant |proofs| == i
        invariant forall j :: 0 <= j < i ==> proofs[j] == AuditPath(h, leaves, j)
      {
        var p := GetProof(i);
        proofs := proofs + [p.value];
      }
    }

    /** `verify`: the running digest is folded with the bytes of each sibling in turn. */
    static method Verify(h: HashFn, leaf: Buffer, proof: seq<ProofNode>, expectedRoot: Buffer) returns (ok: bool)
      ensures ok <==> FoldPath(h, leaf, proof) == expectedRoot
    {
      var current := leaf;
      for i := 0 to |proof|
        invariant current == FoldPath(h, leaf, proof[..i])
      {
        assert proof[..i + 1][..i] == proof[..i];
        var sibling := HexBytes(proof[i].sibling);
        if proof[i].isRight {
          current := HashPair(h, current, sibling);
        } else {
          current := HashPair(h, sibling, current);
        }
      }
      assert proof[..|proof|] == proof;
      ok := current == expectedRoot;
    }

    /** `computeRootFromLeaves`. */
    static method ComputeRootFromLeaves(h: HashFn, leaves: seq<Buffer>) returns (r: Outcome<Buffer>)
      ensures r.Ok? <==> |leaves| > 0
      ensures r.Ok? ==> r.value == Root(h, leaves)
      ensures r.Err? ==> r.error == NoLeaves
    {
      var tree := Create(h, leaves);
      if tree.Err? {
        return Err(tree.error);
      }
      var root := tree.value.GetRoot();
      r := Ok(root);
    }
  }

  // ------------------------------------------------------------------ soundness

  ghost predicate CollisionFree(h: HashFn, inputs: set<Buffer>) {
    forall x, y :: x in inputs && y in inputs && h(x) == h(y) ==> x == y
  }

  /** A layer hashes its nodes in pairs, left before right; an odd last node is paired with itself. */
  lemma LayerRule(h: HashFn, layer: seq<Buffer>, i: nat)
    requires 2 * i < |layer|
    ensures |NextLayer(h, layer)| == if |layer| % 2 == 0 then |layer| / 2 else |layer| / 2 + 1
    ensures NextLayer(h, layer)[i] == h(layer[2 * i] + layer[if 2 * i + 1 < |layer| then 2 * i + 1 else 2 * i])
  {
  }

  /** Everything hashed while computing the root from the leaves. */
  function TreeInputs(h: HashFn, leaves: seq<Buffer>): set<Buffer>
    decreases |leaves|
  {
    if |leaves| <= 1 then {}
    else (set i: int | 0 <= i < (|leaves| + 1) / 2 :: PairBytes(leaves, i)) + TreeInputs(h, NextLayer(h, leaves))
  }

  const LEAF_WIDTH: nat := 92

  /**
   The preimages met going down and left from `d`: inner nodes hash 64 bytes, and the
   walk ends at a hashed leaf payload.
   */
  ghost predicate LeftSpine(h: HashFn, inputs: set<Buffer>, spine: seq<Buffer>, d: Buffer)
    decreases |spine|
  {
    && |spine| > 0 && spine[0] in inputs && h(spine[0]) == d
    && (if |spine| == 1 then |spine[0]| == LEAF_WIDTH
        else |spine[0]| == 64 && LeftSpine(h, inputs, spine[1..], spine[0][..32]))
  }

  /** `d` is a node `k` layers above hashed leaf payloads. */
  ghost predicate NodeAt(h: HashFn, inputs: set<Buffer>, k: nat, d: Buffer) {
    exists spine :: |spine| == k + 1 && LeftSpine(h, inputs, spine, d)
  }

  lemma {:induction false} SpineUnique(h: HashFn, inputs: set<Buffer>, s: seq<Buffer>, t: seq<Buffer>, d: Buffer)
    requires CollisionFree(h, inputs) && LeftSpine(h, inputs, s, d) && LeftSpine(h, inputs, t, d)
    ensures |s| == |t|
    decreases |s|
  {
    assert s[0] == t[0];
    if |s| > 1 && |t| > 1 { SpineUnique(h, inputs, s[1..], t[1..], s[0][..32]); }
  }

  /** Preimage widths separate leaves from inner nodes, so a node has one height. */
  lemma HeightUnique(h: HashFn, inputs: set<Buffer>, j: nat, k: nat, d: Buffer)
    requires CollisionFree(h, inputs) && NodeAt(h, inputs, j, d) && NodeAt(h, inputs, k, d)
    ensures j == k
  {
    var s :| |s| == j + 1 && LeftSpine(h, inputs, s, d);
    var t :| |t| == k + 1 && LeftSpine(h, inputs, t, d);
    SpineUnique(h, inputs, s, t, d);
  }

  lemma ExtendSpine(h: HashFn, inputs: set<Buffer>, k: nat, p: Buffer)
    requires p in inputs && |p| == 64 && NodeAt(h, inputs, k, p[..32])
    ensures NodeAt(h, inputs, k + 1, h(p))
  {
    var s :| |s| == k + 1 && LeftSpine(h, inputs, s, p[..32]);
    assert ([p] + s)[1..] == s;
    assert LeftSpine(h, inputs, [p] + s, h(p));
  }

  ghost predicate AllNodesAt(h: HashFn, inputs: set<Buffer>, k: nat, layer: seq<Digest>) {
    forall i :: 0 <= i < |layer| ==> NodeAt(h, inputs, k, layer[i])
  }

  lemma PairHashed(h: HashFn, layer: seq<Digest>, i: nat)
    requires |layer| > 1 && 2 * i < |layer|
    ensures PairBytes(layer, i) in TreeInputs(h, layer)
    ensures |PairBytes(layer, i)| == 64
    ensures PairBytes(layer, i)[..32] == layer[2 * i] && PairBytes(layer, i)[32..] == Partner(layer, 2 * i)
  {
  }

  lemma NextLayerHeight(h: HashFn, inputs: set<Buffer>, k: nat, layer: seq<Digest>)
    requires |layer| > 1 && AllNodesAt(h, inputs, k, layer) && TreeInputs(h, layer) <= inputs
    ensures AllNodesAt(h, inputs, k + 1, NextLayer(h, layer))
  {
    var next := NextLayer(h, layer);
    forall i | 0 <= i < |next| ensures NodeAt(h, inputs, k + 1, next[i]) {
      PairHashed(h, layer, i);
      assert next[i] == Parent(h, layer, i);
      assert NodeAt(h, inputs, k, layer[2 * i]);
      ExtendSpine(h, inputs, k, PairBytes(layer, i));
    }
  }

  lemma {:induction false} RootHeight(h: HashFn, inputs: set<Buffer>, k: nat, layer: seq<Digest>) returns (top: nat)
    requires |layer| > 0 && AllNodesAt(h, inputs, k, layer) && TreeInputs(h, layer) <= inputs
    ensures NodeAt(h, inputs, top, Root(h, layer))
    ensures k <= top && (k == top <==> |layer| == 1)
    decreases |layer|
  {
    if |layer| == 1 {
      assert NodeAt(h, inputs, k, layer[0]);
      top := k;
    } else {
      NextLayerHeight(h, inputs, k, layer);
      top := RootHeight(h, inputs, k + 1, NextLayer(h, layer));
    }
  }

  ghost predicate Distinct(s: seq<Digest>) {
    forall i, j :: 0 <= i < j < |s| ==> s[i] != s[j]
  }

  /** Equal parents hash equal pairs. */
  lemma ParentsEqual(h: HashFn, inputs: set<Buffer>, a: seq<Digest>, i: nat, b: seq<Digest>, j: nat)
    requires |a| > 1 && |b| > 1 && 2 * i < |a| && 2 * j < |b|
    requires TreeInputs(h, a) <= inputs && TreeInputs(h, b) <= inputs && CollisionFree(h, inputs)
    requires Parent(h, a, i) == Parent(h, b, j)
    ensures a[2 * i] == b[2 * j] && Partner(a, 2 * i) == Partner(b, 2 * j)
  {
    PairHashed(h, a, i);
    PairHashed(h, b, j);
  }

  lemma NextLayerDistinct(h: HashFn, inputs: set<Buffer>, layer: seq<Digest>)
    requires |layer| > 1 && Distinct(layer) && TreeInputs(h, layer) <= inputs && CollisionFree(h, inputs)
    ensures Distinct(NextLayer(h, layer))
  {
    var next := NextLayer(h, layer);
    forall i, j | 0 <= i < j < |next| ensures next[i] != next[j] {
      if Parent(h, layer, i) == Parent(h, layer, j) {
        ParentsEqual(h, inputs, layer, i, layer, j);
      }
    }
  }

  /** Equal pairs throughout mean equal lists: distinctness rules out a duplicated odd end. */
  lemma PairsDetermine(a: seq<Digest>, b: seq<Digest>)
    requires |a| > 0 && |b| > 0 && (|a| + 1) / 2 == (|b| + 1) / 2 && Distinct(a) && Distinct(b)
    requires forall i :: 0 <= i < (|a| + 1) / 2 ==> a[2 * i] == b[2 * i] && Partner(a, 2 * i) == Partner(b, 2 * i)
    ensures a == b
  {
    var last := (|a| + 1) / 2 - 1;
    assert a[2 * last] == b[2 * last] && Partner(a, 2 * last) == Partner(b, 2 * last);
    forall i | 0 <= i < |a| ensures a[i] == b[i] {
      var e := i / 2;
      assert a[2 * e] == b[2 * e] && Partner(a, 2 * e) == Partner(b, 2 * e);
    }
  }

  lemma ChildrenEqual(h: HashFn, inputs: set<Buffer>, a: seq<Digest>, b: seq<Digest>)
    requires |a| > 1 && |b| > 1 && Distinct(a) && Distinct(b)
    requires TreeInputs(h, a) <= inputs && TreeInputs(h, b) <= inputs && CollisionFree(h, inputs)
    requires NextLayer(h, a) == NextLayer(h, b)
    ensures a == b
  {
    var n := |NextLayer(h, a)|;
    forall i | 0 <= i < n ensures a[2 * i] == b[2 * i] && Partner(a, 2 * i) == Partner(b, 2 * i) {
      assert NextLayer(h, a)[i] == Parent(h, a, i) && NextLayer(h, b)[i] == Parent(h, b, i);
      ParentsEqual(h, inputs, a, i, b, i);
    }
    PairsDetermine(a, b);
  }

  /**
   A root determines its leaves: two lists of distinct nodes at one height with the same
   root are the same list, whatever their lengths.
   */
  lemma {:induction false} RootBindsLeaves(h: HashFn, inputs: set<Buffer>, k: nat, a: seq<Digest>, b: seq<Digest>)
    requires |a| > 0 && |b| > 0 && Distinct(a) && Distinct(b)
    requires AllNodesAt(h, inputs, k, a) && AllNodesAt(h, inputs, k, b)
    requires TreeInputs(h, a) <= inputs && TreeInputs(h, b) <= inputs && CollisionFree(h, inputs)
    requires Root(h, a) == Root(h, b)
    ensures a == b
    decreases |a|
  {
    SameHeight(h, inputs, k, a, b);
    if |a| > 1 {
      NextLayerHeight(h, inputs, k, a);
      NextLayerHeight(h, inputs, k, b);
      NextLayerDistinct(h, inputs, a);
      NextLayerDistinct(h, inputs, b);
      RootBindsLeaves(h, inputs, k + 1, NextLayer(h, a), NextLayer(h, b));
      ChildrenEqual(h, inputs, a, b);
    }
  }

  lemma SameHeight(h: HashFn, inputs: set<Buffer>, k: nat, a: seq<Digest>, b: seq<Digest>)
    requires |a| > 0 && |b| > 0 && AllNodesAt(h, inputs, k, a) && AllNodesAt(h, inputs, k, b)
    requires TreeInputs(h, a) <= inputs && TreeInputs(h, b) <= inputs && CollisionFree(h, inputs)
    requires Root(h, a) == Root(h, b)
    ensures |a| > 1 <==> |b| > 1
  {
    var i := RootHeight(h, inputs, k, a);
    var j := RootHeight(h, inputs, k, b);
    HeightUnique(h, inputs, i, j, Root(h, a));
  }

  // ----------------------------------------------------------------- membership

  /** The siblings on a path are as long as digests. */
  predicate DigestSiblings(proof: seq<ProofNode>) {
    forall i :: 0 <= i < |proof| ==> |HexBytes(proof[i].sibling)| == 32
  }

  /** The bytes hashed last on a non-empty path. */
  function LastInput(h: HashFn, leaf: Digest, proof: seq<ProofNode>): Buffer
    requires |proof| > 0
  {
    var node, current := proof[|proof| - 1], FoldPath(h, leaf, proof[..|proof| - 1]);
    if node.isRight then current + HexBytes(node.sibling) else HexBytes(node.sibling) + current
  }

  /** Everything hashed while folding a path. */
  function PathInputs(h: HashFn, leaf: Digest, proof: seq<ProofNode>): set<Buffer> {
    if proof == [] then {}
    else PathInputs(h, leaf, proof[..|proof| - 1]) + {LastInput(h, leaf, proof)}
  }

  lemma {:induction false} PathInputsPrefix(h: HashFn, leaf: Digest, proof: seq<ProofNode>, j: nat)
    requires j <= |proof|
    ensures PathInputs(h, leaf, proof[..j]) <= PathInputs(h, leaf, proof)
  {
    if j < |proof| {
      var front := proof[..|proof| - 1];
      PathInputsPrefix(h, leaf, front, j);
      assert front[..j] == proof[..j];
      assert PathInputs(h, leaf, proof) == PathInputs(h, leaf, front) + {LastInput(h, leaf, proof)};
    } else {
      assert proof[..j] == proof;
    }
  }

  /** They are a digest and the node below it, in one order or the other. */
  lemma LastPathInput(h: HashFn, leaf: Digest, proof: seq<ProofNode>) returns (p: Buffer)
    requires |proof| > 0 && DigestSiblings(proof)
    ensures p in PathInputs(h, leaf, proof) && |p| == 64 && h(p) == FoldPath(h, leaf, proof)
    ensures var below := FoldPath(h, leaf, proof[..|proof| - 1]);
            p[..32] == below || p[32..] == below
  {
    p := LastInput(h, leaf, proof);
  }

  /** A path reaching a parent has a last step, taken from one of the parent's children. */
  lemma StepDown(h: HashFn, inputs: set<Buffer>, payload: Buffer, proof: seq<ProofNode>, layer: seq<Digest>)
    requires |layer| > 1 && CollisionFree(h, inputs) && payload in inputs && |payload| != 64
    requires TreeInputs(h, layer) <= inputs && PathInputs(h, h(payload), proof) <= inputs && DigestSiblings(proof)
    requires FoldPath(h, h(payload), proof) in NextLayer(h, layer)
    ensures |proof| > 0 && FoldPath(h, h(payload), proof[..|proof| - 1]) in layer
  {
    var next := NextLayer(h, layer);
    var i :| 0 <= i < |next| && next[i] == FoldPath(h, h(payload), proof);
    assert next[i] == Parent(h, layer, i);
    PairHashed(h, layer, i);
    if |proof| > 0 {
      var p := LastPathInput(h, h(payload), proof);
      assert p == PairBytes(layer, i);
    }
  }

  lemma StepDownAt(h: HashFn, inputs: set<Buffer>, payload: Buffer, proof: seq<ProofNode>, k: nat, layer: seq<Digest>)
    requires |layer| > 1 && CollisionFree(h, inputs) && payload in inputs && |payload| != 64 && k <= |proof|
    requires TreeInputs(h, layer) <= inputs
    requires PathInputs(h, h(payload), proof) <= inputs && DigestSiblings(proof)
    requires FoldPath(h, h(payload), proof[..k]) in NextLayer(h, layer)
    ensures k > 0 && FoldPath(h, h(payload), proof[..k - 1]) in layer
  {
    var front := proof[..k];
    PathInputsPrefix(h, h(payload), proof, k);
    StepDown(h, inputs, payload, front, layer);
    assert front[..|front| - 1] == proof[..k - 1];
  }

  /** A path that folds to the root passes through a node of every layer. */
  lemma {:induction false} PathMeetsLayer(h: HashFn, inputs: set<Buffer>, payload: Buffer, proof: seq<ProofNode>,
                                          layer: seq<Digest>)
    returns (j: nat)
    requires |layer| > 0 && CollisionFree(h, inputs) && payload in inputs && |payload| != 64
    requires TreeInputs(h, layer) <= inputs && PathInputs(h, h(payload), proof) <= inputs && DigestSiblings(proof)
    requires FoldPath(h, h(payload), proof) == Root(h, layer)
    ensures j <= |proof| && FoldPath(h, h(payload), proof[..j]) in layer
    decreases |layer|
  {
    if |layer| == 1 {
      j := |proof|;
      assert proof[..j] == proof;
    } else {
      var k := PathMeetsLayer(h, inputs, payload, proof, NextLayer(h, layer));
      StepDownAt(h, inputs, payload, proof, k, layer);
      j := k - 1;
    }
  }

  /** A leaf payload whose path folds to the root of hashed leaf payloads is one of them. */
  lemma PathStartsAtLeaf(h: HashFn, inputs: set<Buffer>, payload: Buffer, proof: seq<ProofNode>, leaves: seq<Digest>)
    requires |leaves| > 0 && CollisionFree(h, inputs) && payload in inputs && |payload| == LEAF_WIDTH
    requires forall i :: 0 <= i < |leaves| ==> exists p :: p in inputs && |p| == LEAF_WIDTH && h(p) == leaves[i]
    requires TreeInputs(h, leaves) <= inputs && PathInputs(h, h(payload), proof) <= inputs && DigestSiblings(proof)
    requires FoldPath(h, h(payload), proof) == Root(h, leaves)
    ensures h(payload) in leaves
  {
    var j := PathMeetsLayer(h, inputs, payload, proof, leaves);
    PathInputsPrefix(h, h(payload), proof, j);
    LeafIsNoParent(h, inputs, payload, proof[..j], leaves);
  }

  lemma SameInput(h: HashFn, inputs: set<Buffer>, p: Buffer, q: Buffer)
    requires CollisionFree(h, inputs) && p in inputs && q in inputs && h(p) == h(q)
    ensures p == q
  {
  }

  /** Only the empty path ends in a hashed leaf payload. */
  lemma LeafIsNoParent(h: HashFn, inputs: set<Buffer>, payload: Buffer, proof: seq<ProofNode>, leaves: seq<Digest>)
    requires CollisionFree(h, inputs) && PathInputs(h, h(payload), proof) <= inputs && DigestSiblings(proof)
    requires forall i :: 0 <= i < |leaves| ==> exists p :: p in inputs && |p| == LEAF_WIDTH && h(p) == leaves[i]
    requires FoldPath(h, h(payload), proof) in leaves
    ensures proof == []
  {
    var i :| 0 <= i < |leaves| && leaves[i] == FoldPath(h, h(payload), proof);
    var q :| q in inputs && |q| == LEAF_WIDTH && h(q) == leaves[i];
    if |proof| > 0 {
      var p := LastPathInput(h, h(payload), proof);
      SameInput(h, inputs, p, q);
    }
  }
}
