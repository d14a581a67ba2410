/**
 Why the header binds a batch only when its texts are whole: accepted batches about different
 addresses that share a header hash, without a collision, one pair with a short bucket list
 field and one pair with short leaf fields.
 */
module HeaderMisbinding {
  import opened Integers
  import opened Wrappers
  import opened Bytes
  import opened HexFields
  import opened Encoder
  import opened MerkleTrees
  import opened StateProofs
  import opened HeaderBinding

  // --------------------------------------------------- everything a verifier hashes

  function NodeBytes(current: Buffer, node: ProofNode): Buffer {
    if node.isRight then current + HexBytes(node.sibling) else HexBytes(node.sibling) + current
  }

  /** The inputs hashed while a path is folded. */
  ghost function PathInputs(h: HashFn, leaf: Buffer, proof: seq<ProofNode>): set<Buffer> {
    if proof == [] then {}
    else
      var front, last := proof[..|proof| - 1], proof[|proof| - 1];
      PathInputs(h, leaf, front) + {NodeBytes(FoldPath(h, leaf, front), last)}
  }

  /** The inputs hashed for one entry beside its leaf payload: both paths and the aggregation leaf. */
  ghost function EntryInputs(h: HashFn, codec: AddressCodec, b: BatchProof, i: u64): set<Buffer>
    requires i < |b.entries| && Decodable(codec, b)
  {
    var e := b.entries[i];
    var leaf := ComputedLeaf(h, codec, b, i);
    var q := AggregationPayload(i, codec(e.stellarAddress).value, leaf, e.scoreData.score, e.scoreData.sourceLedgerSeq);
    PathInputs(h, leaf, e.merkleProof) + {q, h(q)} + PathInputs(h, h(h(q)), e.aggregationProof)
  }

  ghost function AllInputs(h: HashFn, codec: AddressCodec, b: BatchProof): set<Buffer>
    requires |b.entries| > 0 && Decodable(codec, b)
  {
    BatchInputs(h, codec, b) + PathsInputs(h, codec, b)
  }

  ghost function PathsInputs(h: HashFn, codec: AddressCodec, b: BatchProof): set<Buffer>
    requires Decodable(codec, b)
  {
    set i: u64, p | i < |b.entries| && p in EntryInputs(h, codec, b, i) :: p
  }

  /** No two of the inputs collide, and their digests begin with at most `x`. */
  ghost predicate Separated(h: HashFn, inputs: set<Buffer>, x: int) {
    CollisionFree(h, inputs) && forall p :: p in inputs ==> h(p)[0] <= x
  }

  /** An input whose digest begins higher collides with none of them. */
  lemma OneMore(h: HashFn, inputs: set<Buffer>, x: int, p: Buffer)
    requires Separated(h, inputs, x) && h(p)[0] > x
    ensures Separated(h, inputs + {p}, h(p)[0])
  {
  }

  lemma SevenMore(h: HashFn, inputs: set<Buffer>, x: int, a: Buffer, b: Buffer, c: Buffer, d: Buffer, e: Buffer,
                  f: Buffer, g: Buffer)
    requires Separated(h, inputs, x)
    requires x < h(a)[0] < h(b)[0] < h(c)[0] < h(d)[0] < h(e)[0] < h(f)[0] < h(g)[0]
    ensures Separated(h, inputs + {a, b, c, d, e, f, g}, h(g)[0])
  {
    var i := inputs + {a};
    OneMore(h, inputs, x, a);
    var j := i + {b};
    OneMore(h, i, h(a)[0], b);
    var k := j + {c};
    OneMore(h, j, h(b)[0], c);
    var l := k + {d};
    OneMore(h, k, h(c)[0], d);
    var m := l + {e};
    OneMore(h, l, h(d)[0], e);
    var n := m + {f};
    OneMore(h, m, h(e)[0], f);
    OneMore(h, n, h(f)[0], g);
    assert inputs + {a, b, c, d, e, f, g} == n + {g};
  }

  // ----------------------------------------------------------- a short bucket list field

  const SCORE: ScoreData := ScoreData(50, 0, 0, 0, 0, 1)

  /** The batch of one entry, which is its own tree, under a header with the given bucket list field. */
  function OneEntry(h: HashFn, codec: AddressCodec, address: string, bucket: string): BatchProof
    requires codec("").Some? && codec(address).Some?
  {
    var leaf := LeafHash(h, codec("").value, codec(address).value, SCORE);
    var aggLeaf := AggregationLeaf(h, 0, codec(address).value, leaf, SCORE);
    var header := HeaderProof(Hex(ZEROS), Hex(ZEROS), bucket, 21);
    BatchProof(BATCH_PROOF_VERSION, "", 1, Hex(HeaderHash(h, 1, header)), Hex(leaf), "", Hex(aggLeaf), header,
               [BatchEntry(0, address, SCORE, Hex(leaf), [], [])])
  }

  lemma OneEntryAccepted(h: HashFn, codec: AddressCodec, address: string, bucket: string)
    requires codec("").Some? && codec(address).Some?
    requires Same(AsText, bucket, Hex(LeafHash(h, codec("").value, codec(address).value, SCORE)))
    ensures var b := OneEntry(h, codec, address, bucket); Accepts(h, codec, b, b.ledgerHeaderHash)
  {
    var b := OneEntry(h, codec, address, bucket);
    var leaf := LeafHash(h, codec("").value, codec(address).value, SCORE);
    var aggLeaf := AggregationLeaf(h, 0, codec(address).value, leaf, SCORE);
    HexRoundTrip(leaf);
    HexRoundTrip(aggLeaf);
    HexComparesAsDigits(leaf);
    HexComparesAsDigits(HeaderHash(h, 1, b.headerProof));
    assert LeafBytes(b.entries) == [leaf];
    assert EntryProved(h, codec, b, 0);
  }

  lemma {:induction false} ToHexIsLower(b: Buffer)
    ensures Lower(ToHex(b)) == ToHex(b)
  {
    if b != [] {
      ToHexIsLower(b[1..]);
      LowerTail(ToHex(b));
      assert ToHex(b)[2..] == ToHex(b[1..]);
    }
  }

  /** The text of all but a leading zero byte compares equal to the whole. */
  lemma LeadingZeroDropped(d: Digest)
    requires d[0] == 0
    ensures Same(AsText, Hex(d[1..]), Hex(d)) && Carried(Hex(d[1..])) == d[1..] + [0]
    ensures ShortField(Hex(d[1..]))
  {
    var tail: Buffer := d[1..];
    HexRoundTrip(d);
    HexRoundTrip(tail);
    ToHexIsLower(d);
    ToHexIsLower(tail);
    assert Digit(0) == '0';
    assert ToHex(d) == ['0', '0'] + ToHex(tail);
    assert seq(2, _ => '0') == ['0', '0'];
    LowerPads(Hex(tail));
    NormalizedDigits(Hex(d));
  }

  function Fill(x: byte): Digest {
    seq(32, _ => x)
  }

  /**
   A hash under which the leaves of two addresses differ by a shift; aggregation payloads,
   their digests and headers get digests that begin otherwise.
   */
  function ShiftHash(p: Buffer): Digest {
    if |p| == LEAF_WIDTH then if p[63] == 1 then [0] + seq(31, _ => 1) else seq(31, _ => 1) + [0]
    else if |p| == 84 then Fill(if p[39] == 1 then 3 else 4)
    else if |p| == 32 then Fill(if p[0] == 3 then 5 else 6)
    else Fill(2)
  }

  function PlainCodec(s: string): Option<Digest> {
    if s == "alice" then Some(seq(31, _ => 0) + [1]) else Some(ZEROS)
  }

  lemma ShiftHashOfLeaf(s: string)
    ensures var leaf := LeafHash(ShiftHash, PlainCodec("").value, PlainCodec(s).value, SCORE);
            leaf == if s == "alice" then [0] + seq(31, _ => 1) else seq(31, _ => 1) + [0]
  {
    var a := PlainCodec(s).value;
    LeafFields(ZEROS, a, SCORE);
    var p := LeafPayload(ZEROS, a, SCORE);
    assert p[63] == p[32..64][31];
  }

  /**
   Without the condition the header binds nothing: there is a hash without a collision on
   what is hashed, and two batches accepted under one trusted header hash, about different
   addresses. One has a bucket list field of 62 digits, and its header does not carry its root.
   */
  lemma ShortFieldMisbinds() returns (h: HashFn, codec: AddressCodec, a: BatchProof, b: BatchProof, trusted: string)
    ensures Accepts(h, codec, a, trusted) && Accepts(h, codec, b, trusted)
    ensures CollisionFree(h, AllInputs(h, codec, a) + AllInputs(h, codec, b))
    ensures WholeTexts(b) && WholeLeaves(a) && |Strip(a.headerProof.bucketListHash)| == 62
    ensures Carried(a.headerProof.bucketListHash) != HexBytes(a.stateRootHash)
    ensures codec(a.entries[0].stellarAddress) != codec(b.entries[0].stellarAddress)
  {
    h, codec := ShiftHash, PlainCodec;
    ShiftHashOfLeaf("alice");
    ShiftHashOfLeaf("bob");
    var x: Digest := [0] + seq(31, _ => 1);
    var y: Digest := seq(31, _ => 1) + [0];
    assert x[1..] + [0] == y && x[0] != y[0];
    a, b := OneEntry(h, codec, "alice", Hex(x[1..])), OneEntry(h, codec, "bob", Hex(y));
    trusted := b.ledgerHeaderHash;
    OneHeaderTwoRoots(h, codec, "alice", x, "bob", y);
    ShiftInputs(a, b, Hex(x[1..]), Hex(y));
    assert (seq(31, _ => 0) + [1])[31] != ZEROS[31];
  }

  /** Two addresses whose leaves differ by a shift of one zero byte share an accepted header. */
  lemma OneHeaderTwoRoots(h: HashFn, codec: AddressCodec, s: string, x: Digest, t: string, y: Digest)
    requires codec("").Some? && codec(s).Some? && codec(t).Some?
    requires x == LeafHash(h, codec("").value, codec(s).value, SCORE)
    requires y == LeafHash(h, codec("").value, codec(t).value, SCORE)
    requires x[0] == 0 && x[1..] + [0] == y && x != y
    ensures var a, b := OneEntry(h, codec, s, Hex(x[1..])), OneEntry(h, codec, t, Hex(y));
            && Accepts(h, codec, a, b.ledgerHeaderHash) && Accepts(h, codec, b, b.ledgerHeaderHash)
            && HeaderPayload(1, a.headerProof) == HeaderPayload(1, b.headerProof)
            && WholeTexts(b) && WholeLeaves(a) && |Strip(a.headerProof.bucketListHash)| == 62
            && Carried(a.headerProof.bucketListHash) != HexBytes(a.stateRootHash)
  {
    var a, b := OneEntry(h, codec, s, Hex(x[1..])), OneEntry(h, codec, t, Hex(y));
    LeadingZeroDropped(x);
    HexRoundTrip(x);
    HexRoundTrip(y);
    HexRoundTrip(x[1..]);
    assert Carried(Hex(y)) == y;
    assert HeaderPayload(1, a.headerProof) == HeaderPayload(1, b.headerProof);
    OneEntryAccepted(h, codec, s, Hex(x[1..]));
    OneEntryAccepted(h, codec, t, Hex(y));
  }

  /** What the verification of one entry that is its own tree hashes. */
  lemma OneEntryInputs(h: HashFn, codec: AddressCodec, address: string, bucket: string)
    requires codec("").Some? && codec(address).Some?
    ensures var b := OneEntry(h, codec, address, bucket);
            var p := LeafPayload(codec("").value, codec(address).value, SCORE);
            var q := AggregationPayload(0, codec(address).value, h(p), 50, 1);
            Decodable(codec, b)
            && AllInputs(h, codec, b) == {p, HeaderPayload(b.ledgerSeq, b.headerProof), q, h(q)}
  {
    var b := OneEntry(h, codec, address, bucket);
    var leaf := ComputedLeaf(h, codec, b, 0);
    var q := AggregationPayload(0, codec(address).value, leaf, 50, 1);
    assert PathInputs(h, leaf, []) == {} && PathInputs(h, h(h(q)), []) == {};
    assert EntryInputs(h, codec, b, 0) == {q, h(q)};
    assert PathsInputs(h, codec, b) == EntryInputs(h, codec, b, 0);
    assert (set i: int | 0 <= i < |b.entries| :: EntryPayload(codec, b, i)) == {EntryPayload(codec, b, 0)};
    assert TreeInputs(h, LeafBytes(b.entries)) == {};
  }

  lemma ShiftSeparates(p: Buffer, q: Buffer, header: Buffer, m: Buffer, n: Buffer)
    requires |p| == |q| == LEAF_WIDTH && p[63] == 1 && q[63] != 1 && |header| == 104
    requires |m| == |n| == 84 && m[39] == 1 && n[39] != 1
    ensures CollisionFree(ShiftHash, {p, header, m, ShiftHash(m)} + {q, header, n, ShiftHash(n)})
  {
    SevenMore(ShiftHash, {}, -1, p, q, header, m, n, ShiftHash(m), ShiftHash(n));
    assert {p, header, m, ShiftHash(m)} + {q, header, n, ShiftHash(n)}
           == {} + {p, q, header, m, n, ShiftHash(m), ShiftHash(n)};
  }

  lemma AddressByte(c: Digest, a: Digest, s: ScoreData, i: u64, leaf: Digest, sc: u32, src: u64)
    ensures LeafPayload(c, a, s)[63] == a[31] == AggregationPayload(i, a, leaf, sc, src)[39]
  {
    LeafFields(c, a, s);
    AggregationFields(i, a, leaf, sc, src);
    assert LeafPayload(c, a, s)[63] == LeafPayload(c, a, s)[32..64][31];
    assert AggregationPayload(i, a, leaf, sc, src)[39] == AggregationPayload(i, a, leaf, sc, src)[8..40][31];
  }

  lemma ShiftInputs(a: BatchProof, b: BatchProof, bucketA: string, bucketB: string)
    requires a == OneEntry(ShiftHash, PlainCodec, "alice", bucketA)
    requires b == OneEntry(ShiftHash, PlainCodec, "bob", bucketB)
    requires Decodable(PlainCodec, a) && Decodable(PlainCodec, b)
    requires HeaderPayload(a.ledgerSeq, a.headerProof) == HeaderPayload(b.ledgerSeq, b.headerProof)
    ensures CollisionFree(ShiftHash, AllInputs(ShiftHash, PlainCodec, a) + AllInputs(ShiftHash, PlainCodec, b))
  {
    var x, y := PlainCodec("alice").value, PlainCodec("bob").value;
    var p, q := LeafPayload(ZEROS, x, SCORE), LeafPayload(ZEROS, y, SCORE);
    OneEntryInputs(ShiftHash, PlainCodec, "alice", bucketA);
    OneEntryInputs(ShiftHash, PlainCodec, "bob", bucketB);
    AddressByte(ZEROS, x, SCORE, 0, ShiftHash(p), 50, 1);
    AddressByte(ZEROS, y, SCORE, 0, ShiftHash(q), 50, 1);
    ShiftSeparates(p, q, HeaderPayload(a.ledgerSeq, a.headerProof), AggregationPayload(0, x, ShiftHash(p), 50, 1),
                   AggregationPayload(0, y, ShiftHash(q), 50, 1));
  }

  // ------------------------------------------------------------ short leaf fields

  /** A hash and a codec under which the root is rebuilt from a stem of 31 bytes and Carol's leaf. */
  datatype Setting = Setting(h: HashFn, codec: AddressCodec, stem: Buffer, carol: Digest, root: Digest) {
    predicate Decodes(address: string) {
      codec("").Some? && codec(address).Some? && codec("carol").Some?
    }

    /** The leaf the verifier computes for an address. */
    function Leaf(address: string): Digest
      requires codec("").Some? && codec(address).Some?
    {
      LeafHash(h, codec("").value, codec(address).value, SCORE)
    }

    ghost predicate Fits() {
      && |stem| == 31 && codec("").Some? && codec("carol").Some? && Leaf("carol") == carol && h(stem + carol) == root
    }

    /** What two leaves hash to side by side when they fold on to the root together with the rest of Carol's leaf. */
    function Pair(): Digest
      requires |stem| == 31
    {
      stem + [carol[0]]
    }

    function Path(other: Digest, otherOnRight: bool): seq<ProofNode> {
      [ProofNode(Hex(other), otherOnRight), ProofNode(Hex(carol[1..]), true)]
    }

    function Aggregation(i: u64, address: string): Buffer
      requires codec("").Some? && codec(address).Some?
    {
      AggregationPayload(i, codec(address).value, Leaf(address), SCORE.score, SCORE.sourceLedgerSeq)
    }

    /** The two aggregation leaves side by side. */
    function Aggregated(address: string): Buffer
      requires Decodes(address)
    {
      h(h(Aggregation(0, address))) + h(h(Aggregation(1, "carol")))
    }

    function Entries(address: string, leafText: string, other: Digest, otherOnRight: bool): seq<BatchEntry>
      requires Decodes(address)
    {
      var both := Aggregated(address);
      [BatchEntry(0, address, SCORE, leafText, Path(other, otherOnRight), [ProofNode(Hex(both[32..]), true)]),
       BatchEntry(1, "carol", SCORE, Hex(carol), [ProofNode(Hex(stem), false)], [ProofNode(Hex(both[..32]), false)])]
    }

    /** An entry for the address beside Carol's. */
    function Batch(address: string, leafText: string, other: Digest, otherOnRight: bool): BatchProof
      requires Decodes(address)
    {
      var header := HeaderProof(Hex(root), Hex(root), Hex(root), 21);
      BatchProof(BATCH_PROOF_VERSION, "", 1, Hex(HeaderHash(h, 1, header)), Hex(root), "", Hex(h(Aggregated(address))),
                 header, Entries(address, leafText, other, otherOnRight))
    }
  }

  lemma FoldOne(h: HashFn, leaf: Buffer, x: ProofNode)
    ensures FoldPath(h, leaf, [x]) == h(NodeBytes(leaf, x)) && PathInputs(h, leaf, [x]) == {NodeBytes(leaf, x)}
  {
    assert [x][..0] == [];
    assert FoldPath(h, leaf, []) == leaf && PathInputs(h, leaf, []) == {};
  }

  lemma FoldTwo(h: HashFn, leaf: Buffer, x: ProofNode, y: ProofNode)
    ensures var first := h(NodeBytes(leaf, x));
            && FoldPath(h, leaf, [x, y]) == h(NodeBytes(first, y))
            && PathInputs(h, leaf, [x, y]) == {NodeBytes(leaf, x), NodeBytes(first, y)}
  {
    FoldOne(h, leaf, x);
    assert [x, y][..1] == [x];
  }

  function Beside(leaf: Digest, other: Digest, otherOnRight: bool): Buffer {
    if otherOnRight then leaf + other else other + leaf
  }

  /** A first leaf beside the other one reaches the root. */
  lemma FirstFolds(g: Setting, leaf: Digest, other: Digest, otherOnRight: bool)
    requires g.Fits() && g.h(Beside(leaf, other, otherOnRight)) == g.Pair()
    ensures FoldPath(g.h, leaf, g.Path(other, otherOnRight)) == g.root
    ensures PathInputs(g.h, leaf, g.Path(other, otherOnRight)) == {Beside(leaf, other, otherOnRight), g.stem + g.carol}
  {
    var rest: Buffer := g.carol[1..];
    HexRoundTrip(other);
    HexRoundTrip(rest);
    FoldTwo(g.h, leaf, ProofNode(Hex(other), otherOnRight), ProofNode(Hex(rest), true));
    PairThenRest(g.stem, g.carol);
  }

  lemma PairThenRest(stem: Buffer, carol: Digest)
    ensures (stem + [carol[0]]) + carol[1..] == stem + carol
  {
    assert carol == [carol[0]] + carol[1..];
  }

  lemma LastFolds(g: Setting)
    requires g.Fits()
    ensures var path := [ProofNode(Hex(g.stem), false)];
            FoldPath(g.h, g.carol, path) == g.root && PathInputs(g.h, g.carol, path) == {g.stem + g.carol}
  {
    HexRoundTrip(g.stem);
    FoldOne(g.h, g.carol, ProofNode(Hex(g.stem), false));
  }

  /** Each aggregation leaf reaches the root over both. */
  lemma Aggregates(h: HashFn, x: Digest, y: Digest)
    ensures var left, right := [ProofNode(Hex((x + y)[32..]), true)], [ProofNode(Hex((x + y)[..32]), false)];
            && FoldPath(h, x, left) == FoldPath(h, y, right) == HexBytes(Hex(h(x + y)))
            && PathInputs(h, x, left) == PathInputs(h, y, right) == {x + y}
  {
    assert (x + y)[32..] == y && (x + y)[..32] == x;
    HexRoundTrip(x);
    HexRoundTrip(y);
    HexRoundTrip(h(x + y));
    FoldOne(h, x, ProofNode(Hex(y), true));
    FoldOne(h, y, ProofNode(Hex(x), false));
  }

  lemma FirstProved(g: Setting, address: string, leafText: string, other: Digest, otherOnRight: bool,
                    b: BatchProof)
    requires g.Fits() && g.Decodes(address) && Same(AsText, ToHex(g.Leaf(address)), leafText)
    requires g.h(Beside(g.Leaf(address), other, otherOnRight)) == g.Pair()
    requires b == g.Batch(address, leafText, other, otherOnRight)
    ensures EntryProved(g.h, g.codec, b, 0)
  {
    HexRoundTrip(g.root);
    FirstFolds(g, g.Leaf(address), other, otherOnRight);
    Aggregates(g.h, g.h(g.h(g.Aggregation(0, address))), g.h(g.h(g.Aggregation(1, "carol"))));
  }

  lemma FirstHashes(g: Setting, address: string, leafText: string, other: Digest, otherOnRight: bool,
                    b: BatchProof)
    requires g.Fits() && g.Decodes(address) && b == g.Batch(address, leafText, other, otherOnRight)
    requires Decodable(g.codec, b)
    requires g.h(Beside(g.Leaf(address), other, otherOnRight)) == g.Pair()
    ensures EntryInputs(g.h, g.codec, b, 0)
            == {Beside(g.Leaf(address), other, otherOnRight), g.stem + g.carol}
               + {g.Aggregation(0, address), g.h(g.Aggregation(0, address)), g.Aggregated(address)}
  {
    FirstFolds(g, g.Leaf(address), other, otherOnRight);
    Aggregates(g.h, g.h(g.h(g.Aggregation(0, address))), g.h(g.h(g.Aggregation(1, "carol"))));
  }

  lemma LastProved(g: Setting, address: string, leafText: string, other: Digest, otherOnRight: bool,
                   b: BatchProof)
    requires g.Fits() && g.Decodes(address)
    requires b == g.Batch(address, leafText, other, otherOnRight)
    ensures EntryProved(g.h, g.codec, b, 1)
  {
    HexRoundTrip(g.root);
    HexComparesAsDigits(g.carol);
    LastFolds(g);
    Aggregates(g.h, g.h(g.h(g.Aggregation(0, address))), g.h(g.h(g.Aggregation(1, "carol"))));
  }

  lemma LastHashes(g: Setting, address: string, leafText: string, other: Digest, otherOnRight: bool,
                   b: BatchProof)
    requires g.Fits() && g.Decodes(address) && b == g.Batch(address, leafText, other, otherOnRight)
    requires Decodable(g.codec, b)
    ensures EntryInputs(g.h, g.codec, b, 1)
            == {g.stem + g.carol}
               + {g.Aggregation(1, "carol"), g.h(g.Aggregation(1, "carol")), g.Aggregated(address)}
  {
    LastFolds(g);
    Aggregates(g.h, g.h(g.h(g.Aggregation(0, address))), g.h(g.h(g.Aggregation(1, "carol"))));
  }

  /** The root is rebuilt from the stem and Carol's leaf. */
  lemma Rebuilds(g: Setting, address: string, leafText: string, other: Digest, otherOnRight: bool)
    requires g.Fits() && g.Decodes(address) && HexBytes(leafText) == g.stem
    ensures var entries := g.Entries(address, leafText, other, otherOnRight);
            Root(g.h, LeafBytes(entries)) == g.root && TreeInputs(g.h, LeafBytes(entries)) == {g.stem + g.carol}
  {
    HexRoundTrip(g.carol);
    var entries := g.Entries(address, leafText, other, otherOnRight);
    assert LeafBytes(entries)[1] == HexBytes(entries[1].leafHash);
    assert LeafBytes(entries) == [g.stem, g.carol];
    TreeOfTwo(g.h, g.stem, g.carol);
  }

  lemma TreeOfTwo(h: HashFn, x: Buffer, y: Buffer)
    ensures Root(h, [x, y]) == h(x + y) && TreeInputs(h, [x, y]) == {x + y}
  {
    var leaves := [x, y];
    assert PairBytes(leaves, 0) == x + y;
    assert NextLayer(h, leaves) == [Parent(h, leaves, 0)];
    assert (set i: int | 0 <= i < 1 :: PairBytes(leaves, i)) == {PairBytes(leaves, 0)};
    assert TreeInputs(h, NextLayer(h, leaves)) == {};
  }

  lemma BatchAccepted(g: Setting, address: string, leafText: string, other: Digest, otherOnRight: bool)
    requires g.Fits() && g.Decodes(address) && Same(AsText, ToHex(g.Leaf(address)), leafText)
    requires g.h(Beside(g.Leaf(address), other, otherOnRight)) == g.Pair()
    requires HexBytes(leafText) == g.stem && Compare(g.codec(address).value, g.codec("carol").value) < 0
    ensures var b := g.Batch(address, leafText, other, otherOnRight);
            Accepts(g.h, g.codec, b, b.ledgerHeaderHash) && |Strip(b.headerProof.bucketListHash)| == 64
  {
    var b := g.Batch(address, leafText, other, otherOnRight);
    FirstProved(g, address, leafText, other, otherOnRight, b);
    LastProved(g, address, leafText, other, otherOnRight, b);
    BatchRebuilt(g, address, leafText, other, otherOnRight, b);
    HeaderMatches(g, b);
    BothEntries(g, b);
  }

  lemma BothEntries(g: Setting, b: BatchProof)
    requires b.version == BATCH_PROOF_VERSION && |b.entries| == 2 && b.ledgerHeaderHash != ""
    requires Decodable(g.codec, b) && StrictlySorted(g.codec, b.entries)
    requires Root(g.h, LeafBytes(b.entries)) == HexBytes(b.stateRootHash)
    requires Same(AsText, b.headerProof.bucketListHash, b.stateRootHash)
    requires Same(AsText, ToHex(HeaderHash(g.h, b.ledgerSeq, b.headerProof)), b.ledgerHeaderHash)
    requires EntryProved(g.h, g.codec, b, 0) && EntryProved(g.h, g.codec, b, 1)
    ensures Accepts(g.h, g.codec, b, b.ledgerHeaderHash)
  {
    forall i | 0 <= i < |b.entries| ensures EntryProved(g.h, g.codec, b, i) {
      assert i == 0 || i == 1;
    }
    AcceptsIffOrderedAndCarried(g.h, g.codec, b, b.ledgerHeaderHash);
  }

  lemma BatchRebuilt(g: Setting, address: string, leafText: string, other: Digest, otherOnRight: bool, b: BatchProof)
    requires g.Fits() && g.Decodes(address) && b == g.Batch(address, leafText, other, otherOnRight)
    requires HexBytes(leafText) == g.stem && Compare(g.codec(address).value, g.codec("carol").value) < 0
    ensures Decodable(g.codec, b) && StrictlySorted(g.codec, b.entries) && Root(g.h, LeafBytes(b.entries)) == g.root
  {
    Rebuilds(g, address, leafText, other, otherOnRight);
    TwoSorted(g.codec, b.entries);
  }

  lemma HeaderMatches(g: Setting, b: BatchProof)
    requires b.headerProof.bucketListHash == b.stateRootHash == Hex(g.root)
    requires b.ledgerHeaderHash == Hex(HeaderHash(g.h, b.ledgerSeq, b.headerProof))
    ensures HexBytes(b.stateRootHash) == g.root && Same(AsText, b.headerProof.bucketListHash, b.stateRootHash)
    ensures Same(AsText, ToHex(HeaderHash(g.h, b.ledgerSeq, b.headerProof)), b.ledgerHeaderHash)
    ensures |Strip(b.headerProof.bucketListHash)| == 64 && b.ledgerHeaderHash != ""
  {
    HexRoundTrip(g.root);
    HexComparesAsDigits(g.root);
    HexComparesAsDigits(HeaderHash(g.h, b.ledgerSeq, b.headerProof));
  }

  lemma TwoSorted(codec: AddressCodec, entries: seq<BatchEntry>)
    requires |entries| == 2 && Before(codec, entries[0], entries[1])
    ensures StrictlySorted(codec, entries)
  {
  }

  /** What is hashed for a batch: leaves, rebuilt root, header, the first path's inner node and the aggregation. */
  ghost function Inputs(g: Setting, address: string, pair: Buffer): set<Buffer>
    requires g.Decodes(address)
  {
    var c, q, r := g.codec("").value, g.Aggregation(0, address), g.Aggregation(1, "carol");
    {LeafPayload(c, g.codec(address).value, SCORE), LeafPayload(c, g.codec("carol").value, SCORE), g.stem + g.carol,
     HeaderPayload(1, HeaderProof(Hex(g.root), Hex(g.root), Hex(g.root), 21)), pair}
    + {q, g.h(q), r, g.h(r), g.Aggregated(address)}
  }

  lemma BatchHashes(g: Setting, address: string, leafText: string, other: Digest, otherOnRight: bool)
    requires g.Fits() && g.Decodes(address) && HexBytes(leafText) == g.stem
    requires g.h(Beside(g.Leaf(address), other, otherOnRight)) == g.Pair()
    ensures var b := g.Batch(address, leafText, other, otherOnRight);
            && Decodable(g.codec, b)
            && AllInputs(g.h, g.codec, b) == Inputs(g, address, Beside(g.Leaf(address), other, otherOnRight))
  {
    var b := g.Batch(address, leafText, other, otherOnRight);
    FirstHashes(g, address, leafText, other, otherOnRight, b);
    LastHashes(g, address, leafText, other, otherOnRight, b);
    Rebuilds(g, address, leafText, other, otherOnRight);
    TwoPayloads(g.codec, b);
    TwoPaths(g.h, g.codec, b);
    Collected(EntryPayload(g.codec, b, 0), EntryPayload(g.codec, b, 1), g.stem + g.carol,
              HeaderPayload(b.ledgerSeq, b.headerProof), Beside(g.Leaf(address), other, otherOnRight),
              g.Aggregation(0, address), g.h(g.Aggregation(0, address)),
              g.Aggregation(1, "carol"), g.h(g.Aggregation(1, "carol")), g.Aggregated(address));
  }

  lemma Collected<T>(a: T, c: T, top: T, header: T, pair: T, q: T, u: T, s: T, v: T, x: T)
    ensures {a, c} + {top} + {header} + ({pair, top} + {q, u, x} + ({top} + {s, v, x}))
            == {a, c, top, header, pair} + {q, u, s, v, x}
  {
  }

  lemma TwoPayloads(codec: AddressCodec, b: BatchProof)
    requires |b.entries| == 2 && Decodable(codec, b)
    ensures (set i: int | 0 <= i < |b.entries| :: EntryPayload(codec, b, i))
            == {EntryPayload(codec, b, 0), EntryPayload(codec, b, 1)}
  {
  }

  lemma TwoPaths(h: HashFn, codec: AddressCodec, b: BatchProof)
    requires |b.entries| == 2 && Decodable(codec, b)
    ensures PathsInputs(h, codec, b) == EntryInputs(h, codec, b, 0) + EntryInputs(h, codec, b, 1)
  {
    forall p | p in PathsInputs(h, codec, b)
      ensures p in EntryInputs(h, codec, b, 0) || p in EntryInputs(h, codec, b, 1) {
      var i: u64 :| i < |b.entries| && p in EntryInputs(h, codec, b, i);
      assert i == 0 || i == 1;
    }
  }

  // ------------------------------------------------------------- such a setting

  function Ones(n: nat): string {
    seq(n, _ => '1')
  }

  lemma {:induction false} OnesDecode(n: nat)
    ensures FromHex(Ones(n)) == seq(n / 2, _ => 0x11) && Lower(Ones(n)) == Ones(n) && AllHex(Ones(n))
    ensures Strip(Ones(n)) == Ones(n)
  {
    if n >= 2 {
      OnesDecode(n - 2);
      assert Ones(n)[2..] == Ones(n - 2);
    }
  }

  lemma {:induction false} OnesEncode(n: nat)
    ensures ToHex(seq(n, _ => 0x11)) == Ones(2 * n)
  {
    if n > 0 {
      OnesEncode(n - 1);
      var b: Buffer := seq(n, _ => 0x11);
      assert b[1..] == seq(n - 1, _ => 0x11);
      assert Digit(1) == '1';
      assert Ones(2 * n) == ['1', '1'] + Ones(2 * (n - 1));
    }
  }

  /** The bytes that both shortened texts decode to. */
  function Stem(): Buffer {
    seq(31, _ => 0x11)
  }

  /** Alice's leaf reads `00` and 62 ones, Bob's `0` and 63 ones. */
  function LedBy(x: byte): Digest {
    [x] + Stem()
  }

  /** Leaves, inner nodes, the root, headers and every step of the aggregation get digests that begin differently. */
  function StemHash(p: Buffer): Digest {
    if |p| == LEAF_WIDTH then if p[63] <= 1 then LedBy(p[63]) else Fill(0x33)
    else if |p| == 84 then Fill(if p[39] == 0 then 0x60 else if p[39] == 1 then 0x61 else 0x62)
    else if |p| == 32 then Fill(if p[0] == 0x60 then 0x70 else if p[0] == 0x61 then 0x71 else 0x72)
    else if |p| == 64 then if p[0] == 0x70 then Fill(0x80) else if p[0] == 0x71 then Fill(0x81) else Stem() + [0x33]
    else if |p| == 63 then Fill(0x44)
    else Fill(0x55)
  }

  function LastByte(x: byte): Digest {
    seq(31, _ => 0) + [x]
  }

  function ThreeCodec(s: string): Option<Digest> {
    Some(LastByte(if s == "alice" then 0 else if s == "bob" then 1 else 2))
  }

  function Stems(): Setting {
    Setting(StemHash, ThreeCodec, Stem(), Fill(0x33), Fill(0x44))
  }

  lemma LeafOf(c: Digest, x: byte)
    ensures LeafHash(StemHash, c, LastByte(x), SCORE) == if x <= 1 then LedBy(x) else Fill(0x33)
  {
    LeafFields(c, LastByte(x), SCORE);
    var p := LeafPayload(c, LastByte(x), SCORE);
    assert p[63] == p[32..64][31];
  }

  lemma StemsFit()
    ensures Stems().Fits()
  {
    LeafOf(ThreeCodec("").value, 2);
    assert |Stem() + Fill(0x33)| == 63;
  }

  lemma StemsPair()
    ensures StemHash(LedBy(0) + LedBy(1)) == Stems().Pair()
  {
    assert |LedBy(0) + LedBy(1)| == 64 && (LedBy(0) + LedBy(1))[0] == 0 && Fill(0x33)[0] == 0x33;
  }

  /** A text of ones, padded, is the text of a leaf. */
  lemma ComparesPadded(d: Digest, n: nat)
    requires n < 64 && ToHex(d) == seq(64 - n, _ => '0') + Ones(n)
    ensures Same(AsText, ToHex(d), Ones(n))
  {
    OnesDecode(n);
    HexRoundTrip(d);
    ToHexIsLower(d);
    NormalizedDigits(ToHex(d));
    LowerPads(Ones(n));
  }

  lemma LedByText(x: byte, n: nat)
    requires n == 31
    ensures ToHex(LedBy(x)) == [Digit(x / 16), Digit(x % 16)] + Ones(2 * n)
  {
    OnesEncode(n);
    assert LedBy(x)[1..] == Stem();
  }

  lemma PaddedOnes(x: byte, c: char, d: char, n: nat, m: nat)
    requires x <= 1 && n == 62 + x && m == 62 && c == '0' && d == if x == 0 then '0' else '1'
    ensures [c, d] + Ones(m) == seq(64 - n, _ => '0') + Ones(n)
  {
  }

  /** Alice's leaf is the text of 62 ones, Bob's of 63, and both texts decode to the stem. */
  lemma OnesText(x: byte, n: nat)
    requires x <= 1 && n == 62 + x
    ensures Same(AsText, ToHex(LedBy(x)), Ones(n)) && HexBytes(Ones(n)) == Stem()
  {
    OnesDecode(n);
    LedByText(x, 31);
    PaddedOnes(x, Digit(x / 16), Digit(x % 16), n, 2 * 31);
    ComparesPadded(LedBy(x), n);
  }

  lemma {:induction false} LessByLast(a: Buffer, x: byte, y: byte)
    requires x < y
    ensures Compare(a + [x], a + [y]) < 0
  {
    if a != [] {
      assert (a + [x])[1..] == a[1..] + [x] && (a + [y])[1..] == a[1..] + [y];
      LessByLast(a[1..], x, y);
    }
  }

  lemma StemSeparates(a: Buffer, b: Buffer, c: Buffer, pair: Buffer, top: Buffer, header: Buffer,
                      q: Buffer, r: Buffer, s: Buffer, x: Buffer, y: Buffer)
    requires |a| == |b| == |c| == LEAF_WIDTH && a[63] == 0 && b[63] == 1 && c[63] == 2
    requires |pair| == 64 && pair[0] == 0 && |top| == 63 && |header| == 104
    requires |q| == |r| == |s| == 84 && q[39] == 0 && r[39] == 1 && s[39] == 2
    requires |x| == |y| == 64 && x[0] == 0x70 && y[0] == 0x71
    ensures CollisionFree(StemHash,
                          ({a, c, top, header, pair} + {q, StemHash(q), s, StemHash(s), x})
                          + ({b, c, top, header, pair} + {r, StemHash(r), s, StemHash(s), y}))
  {
    LowSeparates(a, b, c, pair, top, header, q);
    HighSeparates({a, b, pair, c, top, header, q}, q, r, s, x, y);
    BothCollected(a, b, c, top, header, pair, q, StemHash(q), r, StemHash(r), s, StemHash(s), x, y);
  }

  lemma LowSeparates(a: Buffer, b: Buffer, c: Buffer, pair: Buffer, top: Buffer, header: Buffer, q: Buffer)
    requires |a| == |b| == |c| == LEAF_WIDTH && a[63] == 0 && b[63] == 1 && c[63] == 2
    requires |pair| == 64 && pair[0] == 0 && |top| == 63 && |header| == 104 && |q| == 84 && q[39] == 0
    ensures Separated(StemHash, {a, b, pair, c, top, header, q}, 0x60)
  {
    SevenMore(StemHash, {}, -1, a, b, pair, c, top, header, q);
    assert {} + {a, b, pair, c, top, header, q} == {a, b, pair, c, top, header, q};
  }

  lemma HighSeparates(low: set<Buffer>, q: Buffer, r: Buffer, s: Buffer, x: Buffer, y: Buffer)
    requires Separated(StemHash, low, 0x60)
    requires |q| == |r| == |s| == 84 && q[39] == 0 && r[39] == 1 && s[39] == 2
    requires |x| == |y| == 64 && x[0] == 0x70 && y[0] == 0x71
    ensures Separated(StemHash, low + {r, s, StemHash(q), StemHash(r), StemHash(s), x, y}, 0x81)
  {
    SevenMore(StemHash, low, 0x60, r, s, StemHash(q), StemHash(r), StemHash(s), x, y);
  }

  lemma BothCollected<T>(a: T, b: T, c: T, top: T, header: T, pair: T, q: T, u: T, r: T, w: T, s: T, v: T, x: T, y: T)
    ensures ({a, c, top, header, pair} + {q, u, s, v, x}) + ({b, c, top, header, pair} + {r, w, s, v, y})
            == {a, b, pair, c, top, header, q} + {r, s, u, w, v, x, y}
  {
  }

  function AliceBatch(): BatchProof {
    Stems().Batch("alice", Ones(62), LedBy(1), true)
  }

  function BobBatch(): BatchProof {
    Stems().Batch("bob", Ones(63), LedBy(0), false)
  }

  lemma AliceAccepted()
    ensures var b := AliceBatch();
            Accepts(StemHash, ThreeCodec, b, b.ledgerHeaderHash) && |Strip(b.headerProof.bucketListHash)| == 64
    ensures AllInputs(StemHash, ThreeCodec, AliceBatch()) == Inputs(Stems(), "alice", LedBy(0) + LedBy(1))
  {
    StemsFit();
    OnesText(0, 62);
    LeafOf(ThreeCodec("").value, 0);
    StemsPair();
    LessByLast(seq(31, _ => 0), 0, 2);
    BatchAccepted(Stems(), "alice", Ones(62), LedBy(1), true);
    BatchHashes(Stems(), "alice", Ones(62), LedBy(1), true);
  }

  lemma BobAccepted()
    ensures var b := BobBatch();
            Accepts(StemHash, ThreeCodec, b, b.ledgerHeaderHash) && |Strip(b.headerProof.bucketListHash)| == 64
    ensures AllInputs(StemHash, ThreeCodec, BobBatch()) == Inputs(Stems(), "bob", LedBy(0) + LedBy(1))
  {
    StemsFit();
    OnesText(1, 63);
    LeafOf(ThreeCodec("").value, 1);
    StemsPair();
    LessByLast(seq(31, _ => 0), 1, 2);
    BatchAccepted(Stems(), "bob", Ones(63), LedBy(0), false);
    BatchHashes(Stems(), "bob", Ones(63), LedBy(0), false);
  }

  /**
   Nor may a leaf field be short: two batches with a whole bucket list field are accepted under
   one header hash, without a collision on anything hashed, one about Alice and one about Bob,
   because the root is rebuilt from texts of 62 and 63 digits that decode alike.
   */
  lemma ShortLeavesMisbind() returns (h: HashFn, codec: AddressCodec, a: BatchProof, b: BatchProof, trusted: string)
    ensures Accepts(h, codec, a, trusted) && Accepts(h, codec, b, trusted)
    ensures CollisionFree(h, AllInputs(h, codec, a) + AllInputs(h, codec, b))
    ensures |Strip(a.headerProof.bucketListHash)| == |Strip(b.headerProof.bucketListHash)| == 64
    ensures codec(a.entries[0].stellarAddress) != codec(b.entries[0].stellarAddress)
  {
    h, codec, a, b := StemHash, ThreeCodec, AliceBatch(), BobBatch();
    trusted := a.ledgerHeaderHash;
    AliceAccepted();
    BobAccepted();
    StemsTogether();
    assert LastByte(0)[31] != LastByte(1)[31];
  }

  lemma StemsTogether()
    ensures var pair := LedBy(0) + LedBy(1);
            CollisionFree(StemHash, Inputs(Stems(), "alice", pair) + Inputs(Stems(), "bob", pair))
  {
    TogetherCollisionFree(Stems(), LedBy(0) + LedBy(1));
  }

  /** The leaf and the aggregation of an entry whose address ends in `x`. */
  lemma EndsInByte(g: Setting, i: u64, s: string, x: byte)
    requires g.h == StemHash && g.codec("").Some? && g.codec(s).Some? && g.codec(s).value[31] == x <= 2
    ensures LeafPayload(g.codec("").value, g.codec(s).value, SCORE)[63] == x
    ensures var q := g.Aggregation(i, s); |q| == 84 && q[39] == x && g.h(g.h(q)) == Fill(0x70 + x)
  {
    AddressByte(g.codec("").value, g.codec(s).value, SCORE, i, g.Leaf(s), SCORE.score, SCORE.sourceLedgerSeq);
  }

  lemma TogetherCollisionFree(g: Setting, pair: Buffer)
    requires g.h == StemHash && |g.stem| == 31 && g.Decodes("alice") && g.Decodes("bob")
    requires g.codec("alice").value[31] == 0 && g.codec("bob").value[31] == 1 && g.codec("carol").value[31] == 2
    requires |pair| == 64 && pair[0] == 0
    ensures CollisionFree(g.h, Inputs(g, "alice", pair) + Inputs(g, "bob", pair))
  {
    var c := g.codec("").value;
    EndsInByte(g, 0, "alice", 0);
    EndsInByte(g, 0, "bob", 1);
    EndsInByte(g, 1, "carol", 2);
    StemSeparates(LeafPayload(c, g.codec("alice").value, SCORE), LeafPayload(c, g.codec("bob").value, SCORE),
                  LeafPayload(c, g.codec("carol").value, SCORE), pair, g.stem + g.carol,
                  HeaderPayload(1, HeaderProof(Hex(g.root), Hex(g.root), Hex(g.root), 21)),
                  g.Aggregation(0, "alice"), g.Aggregation(0, "bob"), g.Aggregation(1, "carol"),
                  g.Aggregated("alice"), g.Aggregated("bob"));
  }
}
