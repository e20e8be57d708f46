/**
 The Merkle tree of `merkle.rs`, after sections 2.1 and 2.1.1 of RFC 6962 with BLAKE3 as the hash:
 roots, audit paths, the verifier that folds a path, and what its acceptance proves.
 */
module Merkle {
  import opened Bytes
  import opened Wrappers

  const LEAF_PREFIX: byte := 0
  const NODE_PREFIX: byte := 1

  function LeafInput(data: seq<byte>): seq<byte> {
    [LEAF_PREFIX] + data
  }

  function NodeInput(left: Digest, right: Digest): seq<byte> {
    [NODE_PREFIX] + left + right
  }

  lemma NodeInputInjective(l: Digest, r: Digest, l': Digest, r': Digest)
    requires NodeInput(l, r) == NodeInput(l', r')
    ensures l == l' && r == r'
  {
    assert NodeInput(l, r)[1..33] == l && NodeInput(l', r')[1..33] == l';
    assert NodeInput(l, r)[33..] == r && NodeInput(l', r')[33..] == r';
  }

  // ---------- Splitting ----------

  function Pow2(e: nat): nat {
    if e == 0 then 1 else 2 * Pow2(e - 1)
  }

  /** The exponent of the largest power of two strictly below `n`. */
  function SplitExponent(n: nat): nat
    requires n >= 2
  {
    if n == 2 then 0 else 1 + SplitExponent((n + 1) / 2)
  }

  function Split(n: nat): (k: nat)
    requires n >= 2
    ensures 0 < k < n <= 2 * k
  {
    SplitIsTight(n);
    Pow2(SplitExponent(n))
  }

  lemma {:induction false} SplitIsTight(n: nat)
    requires n >= 2
    ensures 0 < Pow2(SplitExponent(n)) < n <= 2 * Pow2(SplitExponent(n))
  {
    if n > 2 {
      SplitIsTight((n + 1) / 2);
    }
  }

  lemma {:induction false} Pow2Monotone(d: nat, e: nat)
    requires d <= e
    ensures 0 < Pow2(d) <= Pow2(e)
    decreases e
  {
    if d < e {
      Pow2Monotone(d, e - 1);
    } else if e > 0 {
      Pow2Monotone(d - 1, e - 1);
    }
  }

  /** Only one power of two `k` has `k < n <= 2k`. */
  lemma SplitIsUnique(n: nat, e: nat)
    requires n >= 2 && Pow2(e) < n <= 2 * Pow2(e)
    ensures Pow2(e) == Split(n)
  {
    var s := SplitExponent(n);
    if e < s {
      Pow2Monotone(e + 1, s);
    } else if s < e {
      Pow2Monotone(s + 1, e);
    }
  }

  const MAX_LEAVES: int := 0x8000_0000_0000_0000

  /** The shift is a shift of a 64-bit word; up to 2^63 leaves it never loses a bit. */
  method SplitPoint(n: u64) returns (k: u64)
    requires 2 <= n <= MAX_LEAVES
    ensures k == Split(n)
    ensures exists e: nat :: k == Pow2(e)
    ensures k < n <= 2 * k
  {
    k := 1;
    ghost var e: nat := 0;
    while (k * 2) % U64_LIMIT < n
      invariant k == Pow2(e) && 1 <= k < n
      decreases n - k
    {
      k := (k * 2) % U64_LIMIT;
      e := e + 1;
    }
    SplitIsUnique(n, e);
  }

  // ---------- Roots and paths ----------

  function Mth(h: HashFn, leaves: seq<seq<byte>>): Digest
    decreases |leaves|
  {
    if |leaves| == 0 then h([])
    else if |leaves| == 1 then h(LeafInput(leaves[0]))
    else
      var k := Split(|leaves|);
      h(NodeInput(Mth(h, leaves[..k]), Mth(h, leaves[k..])))
  }

  datatype Step = Step(sibling: Digest, right: bool)

  function Path(h: HashFn, leaves: seq<seq<byte>>, m: nat): seq<Step>
    requires m < |leaves|
    decreases |leaves|
  {
    if |leaves| == 1 then []
    else
      var k := Split(|leaves|);
      if m < k then Path(h, leaves[..k], m) + [Step(Mth(h, leaves[k..]), true)]
      else Path(h, leaves[k..], m - k) + [Step(Mth(h, leaves[..k]), false)]
  }

  /** Section 2.1 of RFC 6962, byte by byte. */
  lemma RootSpelled(h: HashFn, leaves: seq<seq<byte>>)
    ensures |leaves| == 0 ==> Mth(h, leaves) == h([])
    ensures |leaves| == 1 ==> Mth(h, leaves) == h([0] + leaves[0])
    ensures forall e: nat :: Pow2(e) < |leaves| <= 2 * Pow2(e) ==>
              Mth(h, leaves) == h([1] + Mth(h, leaves[..Pow2(e)]) + Mth(h, leaves[Pow2(e)..]))
  {
    forall e: nat | Pow2(e) < |leaves| <= 2 * Pow2(e)
      ensures Mth(h, leaves) == h([1] + Mth(h, leaves[..Pow2(e)]) + Mth(h, leaves[Pow2(e)..]))
    {
      Pow2Monotone(0, e);
      SplitIsUnique(|leaves|, e);
    }
  }

  method ComputeMth(h: HashFn, leaves: seq<seq<byte>>) returns (root: Digest)
    requires |leaves| <= MAX_LEAVES
    ensures root == Mth(h, leaves)
    ensures |leaves| == 0 ==> root == h([])
    ensures |leaves| == 1 ==> root == h([0] + leaves[0])
    ensures forall e: nat :: Pow2(e) < |leaves| <= 2 * Pow2(e) ==>
              root == h([1] + Mth(h, leaves[..Pow2(e)]) + Mth(h, leaves[Pow2(e)..]))
    decreases |leaves|
  {
    RootSpelled(h, leaves);
    if |leaves| == 0 {
      root := h([]);
    } else if |leaves| == 1 {
      root := h(LeafInput(leaves[0]));
    } else {
      var k := SplitPoint(|leaves|);
      var left := ComputeMth(h, leaves[..k]);
      var right := ComputeMth(h, leaves[k..]);
      root := h(NodeInput(left, right));
    }
  }

  /** The vector that the recursion of `path` pushes onto. */
  class StepBuffer {
    var steps: seq<Step>

    constructor ()
      ensures steps == []
    {
      steps := [];
    }

    method Push(step: Step)
      modifies this
      ensures steps == old(steps) + [step]
    {
      steps := steps + [step];
    }
  }

  lemma PathEnds(h: HashFn, leaves: seq<seq<byte>>, m: nat)
    requires m < |leaves|
    ensures |leaves| == 1 ==> Path(h, leaves, m) == []
    ensures |leaves| > 1 ==>
              var k, path := Split(|leaves|), Path(h, leaves, m);
              var n := |path| - 1;
              && path != [] && path == path[..n] + [path[n]]
              && if m < k then path[..n] == Path(h, leaves[..k], m) && path[n] == Step(Mth(h, leaves[k..]), true)
                 else path[..n] == Path(h, leaves[k..], m - k) && path[n] == Step(Mth(h, leaves[..k]), false)
  {
    hide Mth;
  }

  method BuildPath(h: HashFn, leaves: seq<seq<byte>>, m: nat, out: StepBuffer)
    requires m < |leaves| <= MAX_LEAVES
    modifies out
    ensures out.steps == old(out.steps) + Path(h, leaves, m)
    decreases |leaves|
  {
    hide Path, Mth;
    PathEnds(h, leaves, m);
    if |leaves| <= 1 {
      return;
    }
    var k := SplitPoint(|leaves|);
    if m < k {
      BuildPath(h, leaves[..k], m, out);
      var sibling := ComputeMth(h, leaves[k..]);
      out.Push(Step(sibling, true));
    } else {
      BuildPath(h, leaves[k..], m - k, out);
      var sibling := ComputeMth(h, leaves[..k]);
      out.Push(Step(sibling, false));
    }
  }

  // ---------- Proofs on the wire ----------

  datatype ProofStep = ProofStep(hash: Str, right: bool)

  datatype MerkleProof = MerkleProof(leafIndex: nat, leafCount: nat, path: seq<ProofStep>)

  function Print(step: Step): ProofStep {
    ProofStep(ToHex(step.sibling), step.right)
  }

  function PrintPath(steps: seq<Step>): (path: seq<ProofStep>)
    ensures |path| == |steps|
  {
    seq(|steps|, i requires 0 <= i < |steps| => Print(steps[i]))
  }

  /** The steps that a proof's text stands for: hexadecimal digits of either case. */
  function ReadPath(path: seq<ProofStep>): Result<seq<Step>> {
    if path == [] then Ok([])
    else
      var n := |path| - 1;
      match ReadPath(path[..n])
      case Err(e) => Err(e)
      case Ok(steps) =>
        match FromHex(path[n].hash)
        case Err(e) => Err(e)
        case Ok(sibling) => Ok(steps + [Step(sibling, path[n].right)])
  }

  /** Reading fails exactly if some step is not 64 hexadecimal digits. */
  lemma {:induction false} ReadFailsExactly(path: seq<ProofStep>)
    ensures ReadPath(path).Err? <==> exists i :: 0 <= i < |path| && !IsHex(path[i].hash)
    ensures ReadPath(path).Err? ==> ReadPath(path).error == Crypto
  {
    hide IsHex;
    if path != [] {
      var n := |path| - 1;
      ReadFailsExactly(path[..n]);
      if i :| 0 <= i < n && !IsHex(path[..n][i].hash) {
        assert path[i] == path[..n][i];
      }
    }
  }

  lemma {:induction false} ReadOfPrint(steps: seq<Step>)
    ensures ReadPath(PrintPath(steps)) == Ok(steps)
  {
    if steps != [] {
      var n := |steps| - 1;
      ReadOfPrint(steps[..n]);
      assert PrintPath(steps)[..n] == PrintPath(steps[..n]);
      HexRoundTrip(steps[n].sibling);
      assert steps[..n] + [steps[n]] == steps;
    }
  }

  function MerkleRoot(h: HashFn, leaves: seq<seq<byte>>): Str {
    ToHex(Mth(h, leaves))
  }

  method BuildProof(h: HashFn, leaves: seq<seq<byte>>, index: nat) returns (proof: Option<MerkleProof>)
    requires |leaves| <= MAX_LEAVES
    ensures proof.None? <==> index >= |leaves|
    ensures proof.Some? ==>
      && proof.value.leafIndex == index && proof.value.leafCount == |leaves|
      && ReadPath(proof.value.path) == Ok(Path(h, leaves, index))
      && Verdict(h, leaves[index], proof.value, MerkleRoot(h, leaves)) == Ok(true)
  {
    if index >= |leaves| {
      return None;
    }
    hide ReadPath, PrintPath, Path, Fold, MerkleRoot;
    var raw := new StepBuffer();
    BuildPath(h, leaves, index, raw);
    proof := Some(MerkleProof(index, |leaves|, PrintPath(raw.steps)));
    assert raw.steps == Path(h, leaves, index);
    ReadOfPrint(raw.steps);
    AcceptsOwnPath(h, leaves, index, proof.value);
  }

  // ---------- The verifier ----------

  function Combine(h: HashFn, node: Digest, step: Step): Digest {
    h(if step.right then NodeInput(node, step.sibling) else NodeInput(step.sibling, node))
  }

  function Fold(h: HashFn, leaf: seq<byte>, steps: seq<Step>): Digest {
    if steps == [] then h(LeafInput(leaf))
    else Combine(h, Fold(h, leaf, steps[..|steps| - 1]), steps[|steps| - 1])
  }

  lemma FoldInParts(h: HashFn, leaf: seq<byte>, steps: seq<Step>)
    ensures Fold(h, leaf, steps) ==
            if steps == [] then h(LeafInput(leaf))
            else Combine(h, Fold(h, leaf, steps[..|steps| - 1]), steps[|steps| - 1])
  {
  }

  function Verdict(h: HashFn, leaf: seq<byte>, proof: MerkleProof, root: Str): Result<bool> {
    match ReadPath(proof.path)
    case Err(e) => Err(e)
    case Ok(steps) => Ok(ToHex(Fold(h, leaf, steps)) == root)
  }

  /** The nodes that a proof passes, from the leaf's own hash upwards, byte by byte. */
  ghost predicate Climbs(h: HashFn, leaf: seq<byte>, path: seq<ProofStep>, nodes: seq<Digest>) {
    && |nodes| == |path| + 1
    && nodes[0] == h([0] + leaf)
    && forall i :: 0 <= i < |path| ==> Climb(h, nodes[i], path[i], nodes[i + 1])
  }

  ghost predicate Climb(h: HashFn, node: Digest, step: ProofStep, above: Digest) {
    match FromHex(step.hash)
    case Err(_) => false
    case Ok(sibling) => above == if step.right then h([1] + node + sibling) else h([1] + sibling + node)
  }

  lemma ClimbsOneMore(h: HashFn, leaf: seq<byte>, path: seq<ProofStep>, i: nat, nodes: seq<Digest>, above: Digest)
    requires i < |path| && Climbs(h, leaf, path[..i], nodes) && Climb(h, nodes[i], path[i], above)
    ensures Climbs(h, leaf, path[..i + 1], nodes + [above])
  {
    hide Climb;
    assert forall k :: 0 <= k < i ==> path[..i + 1][k] == path[..i][k];
  }

  method VerifyMerkleProof(h: HashFn, leaf: seq<byte>, proof: MerkleProof, root: Str) returns (verdict: Result<bool>)
    ensures verdict == Verdict(h, leaf, proof, root)
    ensures verdict.Err? <==> exists i :: 0 <= i < |proof.path| && !IsHex(proof.path[i].hash)
    ensures verdict.Ok? ==>
              exists nodes :: Climbs(h, leaf, proof.path, nodes)
                              && verdict.value == (ToHex(nodes[|proof.path|]) == root)
  {
    hide IsHex, FromHex, ToHex, ReadPath, Fold, Climbs;
    ReadFailsExactly(proof.path);
    FoldInParts(h, leaf, []);
    ReadNext(proof.path, 0);
    var node := h(LeafInput(leaf));
    ghost var steps: seq<Step> := [];
    ghost var nodes: seq<Digest> := [node];
    ClimbsFromLeaf(h, leaf);
    for i := 0 to |proof.path|
      invariant ReadPath(proof.path[..i]) == Ok(steps)
      invariant node == Fold(h, leaf, steps)
      invariant |nodes| == i + 1 && nodes[i] == node && Climbs(h, leaf, proof.path[..i], nodes)
    {
      ReadNext(proof.path, i);
      var step := proof.path[i];
      var sibling := FromHex(step.hash);
      if sibling.Err? {
        ReadFailsEarly(proof.path, i + 1);
        return Err(sibling.error);
      }
      node := if step.right then h(NodeInput(node, sibling.value)) else h(NodeInput(sibling.value, node));
      ClimbsOneMore(h, leaf, proof.path, i, nodes, node);
      nodes := nodes + [node];
      ghost var longer := steps + [Step(sibling.value, step.right)];
      FoldInParts(h, leaf, longer);
      assert longer[..|longer| - 1] == steps;
      steps := longer;
    }
    assert proof.path[..|proof.path|] == proof.path;
    verdict := Ok(ToHex(node) == root);
  }

  lemma ClimbsFromLeaf(h: HashFn, leaf: seq<byte>)
    ensures forall path: seq<ProofStep> :: Climbs(h, leaf, path[..0], [h(LeafInput(leaf))])
  {
  }

  lemma ReadNext(path: seq<ProofStep>, i: nat)
    requires i <= |path|
    ensures ReadPath(path[..0]) == Ok([])
    ensures i < |path| && ReadPath(path[..i]).Ok? ==>
              ReadPath(path[..i + 1]) ==
              match FromHex(path[i].hash)
              case Err(e) => Err(e)
              case Ok(sibling) => Ok(ReadPath(path[..i]).value + [Step(sibling, path[i].right)])
  {
    hide FromHex;
    if i < |path| {
      assert path[..i + 1][..i] == path[..i];
    }
  }

  lemma {:induction false} ReadFailsEarly(path: seq<ProofStep>, k: nat)
    requires k <= |path| && ReadPath(path[..k]).Err?
    ensures ReadPath(path) == ReadPath(path[..k])
  {
    if k == |path| {
      assert path[..k] == path;
    } else {
      var n := |path| - 1;
      assert path[..n][..k] == path[..k];
      ReadFailsEarly(path[..n], k);
    }
  }

  // ---------- Completeness ----------

  lemma MthInParts(h: HashFn, leaves: seq<seq<byte>>)
    requires leaves != []
    ensures Mth(h, leaves) ==
            if |leaves| == 1 then h(LeafInput(leaves[0]))
            else
              var k := Split(|leaves|);
              h(NodeInput(Mth(h, leaves[..k]), Mth(h, leaves[k..])))
  {
  }

  /** Every leaf's own path folds to the root. */
  lemma {:induction false} PathLeadsToRoot(h: HashFn, leaves: seq<seq<byte>>, m: nat)
    requires m < |leaves|
    ensures Fold(h, leaves[m], Path(h, leaves, m)) == Mth(h, leaves)
    decreases |leaves|
  {
    hide Fold, Mth, Path;
    PathEnds(h, leaves, m);
    MthInParts(h, leaves);
    FoldInParts(h, leaves[m], Path(h, leaves, m));
    if |leaves| > 1 {
      var k := Split(|leaves|);
      if m < k {
        PathLeadsToRoot(h, leaves[..k], m);
      } else {
        PathLeadsToRoot(h, leaves[k..], m - k);
      }
    }
  }

  lemma AcceptsOwnPath(h: HashFn, leaves: seq<seq<byte>>, m: nat, proof: MerkleProof)
    requires m < |leaves| && ReadPath(proof.path) == Ok(Path(h, leaves, m))
    ensures Verdict(h, leaves[m], proof, MerkleRoot(h, leaves)) == Ok(true)
  {
    hide ReadPath, Path, Fold, Mth;
    PathLeadsToRoot(h, leaves, m);
  }

  // ---------- Soundness ----------

  /** The byte strings hashed while computing a root. */
  function RootInputs(h: HashFn, leaves: seq<seq<byte>>): set<seq<byte>>
    decreases |leaves|
  {
    if |leaves| == 0 then {[]}
    else if |leaves| == 1 then {LeafInput(leaves[0])}
    else
      var k := Split(|leaves|);
      RootInputs(h, leaves[..k]) + RootInputs(h, leaves[k..]) +
      {NodeInput(Mth(h, leaves[..k]), Mth(h, leaves[k..]))}
  }

  /** The byte strings hashed while folding a path. */
  function FoldInputs(h: HashFn, leaf: seq<byte>, steps: seq<Step>): set<seq<byte>> {
    if steps == [] then {LeafInput(leaf)}
    else
      var n := |steps| - 1;
      FoldInputs(h, leaf, steps[..n]) + {LastInput(h, leaf, steps)}
  }

  /** The last string hashed by a fold. */
  function LastInput(h: HashFn, leaf: seq<byte>, steps: seq<Step>): seq<byte> {
    if steps == [] then LeafInput(leaf)
    else
      var n := |steps| - 1;
      var node := Fold(h, leaf, steps[..n]);
      if steps[n].right then NodeInput(node, steps[n].sibling) else NodeInput(steps[n].sibling, node)
  }

  /** The last string hashed for a root. */
  function RootInput(h: HashFn, leaves: seq<seq<byte>>): seq<byte> {
    if |leaves| == 0 then []
    else if |leaves| == 1 then LeafInput(leaves[0])
    else
      var k := Split(|leaves|);
      NodeInput(Mth(h, leaves[..k]), Mth(h, leaves[k..]))
  }

  /** The three kinds of input, empty, leaf and node, are told apart by their first byte. */
  lemma LastFoldInput(h: HashFn, leaf: seq<byte>, steps: seq<Step>)
    ensures LastInput(h, leaf, steps) in FoldInputs(h, leaf, steps)
    ensures Fold(h, leaf, steps) == h(LastInput(h, leaf, steps))
    ensures |LastInput(h, leaf, steps)| > 0
    ensures LastInput(h, leaf, steps)[0] == if steps == [] then LEAF_PREFIX else NODE_PREFIX
    ensures steps == [] ==> LastInput(h, leaf, steps)[1..] == leaf
  {
  }

  lemma LastRootInput(h: HashFn, leaves: seq<seq<byte>>)
    ensures RootInput(h, leaves) in RootInputs(h, leaves)
    ensures Mth(h, leaves) == h(RootInput(h, leaves))
    ensures leaves == [] <==> RootInput(h, leaves) == []
    ensures leaves != [] ==> RootInput(h, leaves)[0] == if |leaves| == 1 then LEAF_PREFIX else NODE_PREFIX
    ensures |leaves| == 1 ==> RootInput(h, leaves)[1..] == leaves[0]
  {
  }

  /** When the last two inputs agree over at least two leaves, the last step is the root's own. */
  lemma LastStepOfRoot(h: HashFn, leaves: seq<seq<byte>>, leaf: seq<byte>, steps: seq<Step>)
    requires |leaves| > 1 && LastInput(h, leaf, steps) == RootInput(h, leaves)
    ensures steps != []
    ensures var n, k := |steps| - 1, Split(|leaves|);
            var node, left, right := Fold(h, leaf, steps[..n]), Mth(h, leaves[..k]), Mth(h, leaves[k..]);
            if steps[n].right then node == left && steps[n].sibling == right
            else node == right && steps[n].sibling == left
  {
    hide Fold, Mth;
    LastFoldInput(h, leaf, steps);
    LastRootInput(h, leaves);
    var n, k := |steps| - 1, Split(|leaves|);
    var node, left, right := Fold(h, leaf, steps[..n]), Mth(h, leaves[..k]), Mth(h, leaves[k..]);
    if steps[n].right {
      NodeInputInjective(node, steps[n].sibling, left, right);
    } else {
      NodeInputInjective(steps[n].sibling, node, left, right);
    }
  }

  lemma PathFromSubtree(h: HashFn, leaves: seq<seq<byte>>, steps: seq<Step>, i: nat)
    requires |leaves| > 1 && steps != []
    requires var n, k := |steps| - 1, Split(|leaves|);
             if steps[n].right then
               i < k && steps[..n] == Path(h, leaves[..k], i) && steps[n].sibling == Mth(h, leaves[k..])
             else
               k <= i < |leaves| && steps[..n] == Path(h, leaves[k..], i - k) && steps[n].sibling == Mth(h, leaves[..k])
    ensures steps == Path(h, leaves, i)
  {
    hide Mth;
    var n := |steps| - 1;
    assert steps == steps[..n] + [steps[n]];
  }

  lemma InputsOfSubtrees(h: HashFn, leaves: seq<seq<byte>>)
    requires |leaves| > 1
    ensures RootInputs(h, leaves[..Split(|leaves|)]) <= RootInputs(h, leaves)
    ensures RootInputs(h, leaves[Split(|leaves|)..]) <= RootInputs(h, leaves)
  {
    hide Mth;
  }

  lemma InputsOfShorterFold(h: HashFn, leaf: seq<byte>, steps: seq<Step>)
    requires steps != []
    ensures FoldInputs(h, leaf, steps[..|steps| - 1]) <= FoldInputs(h, leaf, steps)
  {
    hide LastInput;
  }

  datatype Extracted = Member(index: nat) | Broken(collision: Collision)

  /** The leaf is in the list and this is its path, or here are two of the hashed strings that collide. */
  predicate Explains(h: HashFn, leaves: seq<seq<byte>>, leaf: seq<byte>, steps: seq<Step>, found: Extracted) {
    match found
    case Member(i) =>
      i < |leaves| && leaf == leaves[i] && steps == Path(h, leaves, i)
    case Broken(c) =>
      Collides(h, c) && c.x in FoldInputs(h, leaf, steps) && c.y in RootInputs(h, leaves)
  }

  /** The half of the leaves that a last step with this direction comes from. */
  function Half(leaves: seq<seq<byte>>, left: bool): (half: seq<seq<byte>>)
    requires |leaves| > 1
    ensures 0 < |half| < |leaves|
  {
    if left then leaves[..Split(|leaves|)] else leaves[Split(|leaves|)..]
  }

  /** An explanation for a half is an explanation for the whole, its index shifted. */
  function Lift(leaves: seq<seq<byte>>, left: bool, found: Extracted): Extracted
    requires |leaves| > 1
  {
    match found
    case Member(i) => Member(if left then i else Split(|leaves|) + i)
    case Broken(c) => Broken(c)
  }

  lemma LiftExplains(h: HashFn, leaves: seq<seq<byte>>, leaf: seq<byte>, steps: seq<Step>, found: Extracted)
    requires |leaves| > 1 && LastInput(h, leaf, steps) == RootInput(h, leaves) && steps != []
    requires var n := |steps| - 1; Explains(h, Half(leaves, steps[n].right), leaf, steps[..n], found)
    ensures Explains(h, leaves, leaf, steps, Lift(leaves, steps[|steps| - 1].right, found))
  {
    hide Fold, Mth, FoldInputs, RootInputs, LastInput, RootInput, Collides;
    LastStepOfRoot(h, leaves, leaf, steps);
    InputsOfSubtrees(h, leaves);
    InputsOfShorterFold(h, leaf, steps);
    if found.Member? {
      PathFromSubtree(h, leaves, steps, Lift(leaves, steps[|steps| - 1].right, found).index);
    }
  }

  /**
   Soundness against any path. From an accepted leaf and path, whoever made them, this computes
   the position of the leaf, whose own path it must be, or two of the strings just hashed that
   differ and have one hash. With no leaves at all it is always the second.
   */
  function ExtractMember(h: HashFn, leaves: seq<seq<byte>>, leaf: seq<byte>, steps: seq<Step>): (found: Extracted)
    requires Fold(h, leaf, steps) == Mth(h, leaves)
    ensures Explains(h, leaves, leaf, steps, found)
    ensures leaves == [] ==> found.Broken?
    decreases |leaves|
  {
    LastFoldInput(h, leaf, steps);
    LastRootInput(h, leaves);
    hide Fold, Mth, FoldInputs, RootInputs, LastInput, RootInput;
    var x, y := LastInput(h, leaf, steps), RootInput(h, leaves);
    if x != y then Broken(Collision(x, y))
    else if |leaves| <= 1 then Member(0)
    else
      LastStepOfRoot(h, leaves, leaf, steps);
      var n := |steps| - 1;
      var found := ExtractMember(h, Half(leaves, steps[n].right), leaf, steps[..n]);
      LiftExplains(h, leaves, leaf, steps, found);
      hide Explains;
      Lift(leaves, steps[n].right, found)
  }

  lemma SubtreesOfEqualInputs(h: HashFn, xs: seq<seq<byte>>, ys: seq<seq<byte>>)
    requires |xs| > 1 && RootInput(h, xs) == RootInput(h, ys)
    ensures |ys| > 1
    ensures Mth(h, xs[..Split(|xs|)]) == Mth(h, ys[..Split(|ys|)])
    ensures Mth(h, xs[Split(|xs|)..]) == Mth(h, ys[Split(|ys|)..])
  {
    hide Mth;
    LastRootInput(h, xs);
    LastRootInput(h, ys);
    var j, k := Split(|xs|), Split(|ys|);
    NodeInputInjective(Mth(h, xs[..j]), Mth(h, xs[j..]), Mth(h, ys[..k]), Mth(h, ys[k..]));
  }

  lemma Rejoin<T>(xs: seq<T>, ys: seq<T>, j: nat, k: nat)
    requires j <= |xs| && k <= |ys|
    requires xs[..j] == ys[..k] && xs[j..] == ys[k..]
    ensures xs == ys
  {
    assert xs == xs[..j] + xs[j..];
    assert ys == ys[..k] + ys[k..];
  }

  /**
   A root binds its list without the size being known: from two lists with one root, either
   the lists are equal, shape and all, or two of the strings hashed for them collide.
   */
  function ExtractDifference(h: HashFn, xs: seq<seq<byte>>, ys: seq<seq<byte>>): (found: Option<Collision>)
    requires Mth(h, xs) == Mth(h, ys)
    ensures found.None? ==> xs == ys
    ensures found.Some? ==>
      && Collides(h, found.value)
      && found.value.x in RootInputs(h, xs) && found.value.y in RootInputs(h, ys)
    decreases |xs|
  {
    hide Mth, RootInputs, RootInput;
    LastRootInput(h, xs);
    LastRootInput(h, ys);
    var x, y := RootInput(h, xs), RootInput(h, ys);
    if x != y then Some(Collision(x, y))
    else if |xs| <= 1 then None
    else
      SubtreesOfEqualInputs(h, xs, ys);
      InputsOfSubtrees(h, xs);
      InputsOfSubtrees(h, ys);
      var j, k := Split(|xs|), Split(|ys|);
      match ExtractDifference(h, xs[..j], ys[..k])
      case Some(c) => Some(c)
      case None =>
        match ExtractDifference(h, xs[j..], ys[k..])
        case Some(c) => Some(c)
        case None => Rejoin(xs, ys, j, k); None
  }

  /**
   While the hash keeps apart the strings hashed for the root and for the check, the accepted
   proofs are exactly the honest ones: the leaf is in the list and the text spells its own path.
   */
  lemma OnlyHonestProofsPass(h: HashFn, leaves: seq<seq<byte>>, leaf: seq<byte>, proof: MerkleProof)
    requires ReadPath(proof.path).Ok?
    requires InjectiveOn(h, FoldInputs(h, leaf, ReadPath(proof.path).value) + RootInputs(h, leaves))
    ensures Verdict(h, leaf, proof, MerkleRoot(h, leaves)) == Ok(true) <==>
            exists j: nat :: j < |leaves| && leaf == leaves[j] && ReadPath(proof.path) == Ok(Path(h, leaves, j))
  {
    hide ReadPath, FoldInputs, RootInputs, Fold, Mth, Path;
    var steps := ReadPath(proof.path).value;
    if Verdict(h, leaf, proof, MerkleRoot(h, leaves)) == Ok(true) {
      ToHexInjective(Fold(h, leaf, steps), Mth(h, leaves));
      var found := ExtractMember(h, leaves, leaf, steps);
      assert found.Member?;
    }
    if j: nat :| j < |leaves| && leaf == leaves[j] && ReadPath(proof.path) == Ok(Path(h, leaves, j)) {
      PathLeadsToRoot(h, leaves, j);
    }
  }

  // ---------- The shape of paths ----------

  lemma SplitOfPow2(e: nat)
    requires e > 0
    ensures Pow2(e) >= 2 && Split(Pow2(e)) == Pow2(e - 1)
  {
    Pow2Monotone(0, e - 1);
    SplitIsUnique(Pow2(e), e - 1);
  }

  /** A path is never longer than the logarithm of the number of leaves, rounded up. */
  lemma {:induction false} PathIsShort(h: HashFn, leaves: seq<seq<byte>>, m: nat, e: nat)
    requires m < |leaves| <= Pow2(e)
    ensures |Path(h, leaves, m)| <= e
    decreases |leaves|
  {
    hide Mth;
    if |leaves| > 1 {
      var k := Split(|leaves|);
      assert k <= Pow2(e - 1) by {
        var s := SplitExponent(|leaves|);
        if e <= s {
          Pow2Monotone(e, s);
        } else {
          Pow2Monotone(s, e - 1);
        }
      }
      if m < k {
        PathIsShort(h, leaves[..k], m, e - 1);
      } else {
        PathIsShort(h, leaves[k..], m - k, e - 1);
      }
    }
  }

  lemma {:induction false} FirstPathOfFullTree(h: HashFn, leaves: seq<seq<byte>>, e: nat)
    requires |leaves| == Pow2(e) && leaves != []
    ensures |Path(h, leaves, 0)| == e
  {
    hide Mth;
    if e > 0 {
      SplitOfPow2(e);
      FirstPathOfFullTree(h, leaves[..Pow2(e - 1)], e - 1);
    }
  }

  /** The bound is reached at the first leaf: its path is exactly that logarithm. */
  lemma FirstPathIsLongest(h: HashFn, leaves: seq<seq<byte>>)
    requires leaves != []
    ensures var e := |Path(h, leaves, 0)|; |leaves| <= Pow2(e) && (e > 0 ==> Pow2(e - 1) < |leaves|)
  {
    hide Mth;
    if |leaves| > 1 {
      var e := SplitExponent(|leaves|);
      SplitIsTight(|leaves|);
      FirstPathOfFullTree(h, leaves[..Pow2(e)], e);
    }
  }

  function Directions(steps: seq<Step>): seq<bool> {
    seq(|steps|, i requires 0 <= i < |steps| => steps[i].right)
  }

  /** The side bits alone tell the position: no two leaves of a tree share them. */
  lemma {:induction false} DirectionsTellIndex(h: HashFn, leaves: seq<seq<byte>>, i: nat, j: nat)
    requires i < j < |leaves|
    ensures Directions(Path(h, leaves, i)) != Directions(Path(h, leaves, j))
    decreases |leaves|
  {
    hide Mth, Path;
    var k := Split(|leaves|);
    var p, q := Path(h, leaves, i), Path(h, leaves, j);
    PathEnds(h, leaves, i);
    PathEnds(h, leaves, j);
    if i < k <= j {
      assert Directions(p)[|p| - 1] != Directions(q)[|q| - 1];
    } else {
      var half := if j < k then leaves[..k] else leaves[k..];
      var x, y := if j < k then i else i - k, if j < k then j else j - k;
      DirectionsTellIndex(h, half, x, y);
      assert Directions(p)[..|p| - 1] == Directions(Path(h, half, x));
      assert Directions(q)[..|q| - 1] == Directions(Path(h, half, y));
    }
  }
}
