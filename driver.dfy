/** `generate_root(items_len, target_pos)`: push leaves 0, 1, … one at a time
    and, at the first push whose position is `target_pos` and passes
    `is_leaf`, return the root and the proof for that position as hex. */
module Driver {
  import opened Types
  import opened Position
  import opened Hex
  import opened ProofEncoding
  import opened Mmr

  const NodeProofsNotSupported: string := "Node proofs not supported"

  /** `MMRResult`: the root and the comma-separated proof items, as hex. */
  datatype MmrResult = MmrResult(root: string, proof: string)

  /** The leaf pushed at iteration `i`: 32 bytes, byte 0 is `i as u8`. */
  function Payload(i: nat): (tx: Bytes32)
  {
    seq(32, k requires 0 <= k < 32 => if k == 0 then (i % 256) as u8 else 0)
  }

  /** The payload is 32 bytes, `i mod 256` first and zeros after. */
  lemma PayloadBytes(i: nat)
    ensures |Payload(i)| == 32 && Payload(i)[0] as int == i % 256
    ensures forall k :: 1 <= k < 32 ==> Payload(i)[k] == 0
  {
  }

  /** Leaves are determined by byte 0 only: iterations 256 apart push equal leaves. */
  lemma PayloadEqualIff(i: nat, j: nat)
    ensures Payload(i) == Payload(j) <==> i % 256 == j % 256
  {
    if Payload(i) == Payload(j) {
      assert Payload(i)[0] == Payload(j)[0];
    }
  }

  /** The leaves pushed by the first `n` iterations. */
  function Leaves(n: nat): seq<Bytes32>
  {
    seq(n, k requires 0 <= k < n => Payload(k))
  }

  lemma LeavesSnoc(n: nat)
    ensures Leaves(n + 1) == Leaves(n) + [Payload(n)]
  {
  }

  /** What the push of iteration `i` returns, all earlier pushes having succeeded. */
  function PushAt(lib: Library, i: nat): Result<u64>
  {
    lib.push(Leaves(i), Payload(i))
  }

  /** What get_root returns after the push of iteration `i`. */
  function RootAt(lib: Library, i: nat): Result<Bytes32>
  {
    lib.getRoot(Leaves(i + 1))
  }

  /** Iteration `i` ends without returning. */
  predicate Continues(lib: Library, target: u64, i: nat)
  {
    && PushAt(lib, i).Ok?
    && RootAt(lib, i).Ok?
    && !(IsLeaf(PushAt(lib, i).value) && PushAt(lib, i).value == target)
  }

  /** Iterations `0 .. i` all end without returning. */
  predicate ContinuesUpTo(lib: Library, target: u64, i: nat)
  {
    forall j :: 0 <= j < i ==> Continues(lib, target, j)
  }

  /** Iteration `i` selects `target`: its push returned it and it passes `is_leaf`. */
  predicate SelectsAt(lib: Library, target: u64, i: nat)
  {
    PushAt(lib, i) == Ok(target) && IsLeaf(target) && RootAt(lib, i).Ok?
  }

  /** Proof generation, verification and encoding for position `pos` of a
      range holding `leaves`, whose root is `root`, pushed with `leaf`. */
  function Finish(lib: Library, leaves: seq<Bytes32>, pos: u64, root: Bytes32, leaf: Bytes32): Result<MmrResult>
  {
    match lib.genProof(leaves, [pos])
    case Err(e) => Err(e)
    case Ok(proof) =>
      match lib.verify(proof, root, [(pos, leaf)])
      case Err(e) => Err(e)
      case Ok(_) => Ok(MmrResult(BytesToHex(root), HexProof(proof.items)))
  }

  /** Finish, once iteration `i` has selected its pushed position. */
  function FinishAt(lib: Library, i: nat): Result<MmrResult>
  {
    match PushAt(lib, i)
    case Err(e) => Err(e)
    case Ok(pos) =>
      match RootAt(lib, i)
      case Err(e) => Err(e)
      case Ok(root) => Finish(lib, Leaves(i + 1), pos, root, Payload(i))
  }

  /** Reference definition of the loop from iteration `i` on. */
  function Run(lib: Library, itemsLen: nat, target: u64, i: nat): Result<MmrResult>
    requires i <= itemsLen
    decreases itemsLen - i
  {
    if i == itemsLen then Err(NodeProofsNotSupported)
    else
      match PushAt(lib, i)
      case Err(e) => Err(e)
      case Ok(pos) =>
        match RootAt(lib, i)
        case Err(e) => Err(e)
        case Ok(_) =>
          if IsLeaf(pos) && pos == target then FinishAt(lib, i) else Run(lib, itemsLen, target, i + 1)
  }

  /** The `tx` array of iteration `i`: zeroed, then byte 0 set to `i as u8`. */
  method MakeLeaf(i: u64) returns (leaf: Bytes32)
    ensures leaf == Payload(i as nat)
  {
    var tx := new u8[32](_ => 0);
    tx[0] := (i % 256) as u8;
    leaf := tx[..];
  }

  /** The body of the selecting iteration: generate the proof for `pos`,
      verify it against `root` with `leaf`, and encode root and proof. */
  method ProveLeaf(mmr: MerkleMountainRange, pos: u64, root: Bytes32, leaf: Bytes32)
    returns (r: Result<MmrResult>)
    ensures r == Finish(mmr.lib, mmr.leaves, pos, root, leaf)
  {
    var proofResult := mmr.GenProof([pos]);
    if proofResult.Err? {
      return Err(proofResult.message);
    }
    var proof := proofResult.value;
    var verified := mmr.lib.verify(proof, root, [(pos, leaf)]);
    if verified.Err? {
      return Err(verified.message);
    }
    var rootHex := BytesToHex(root);
    var proofHex := BytesToHexProof(proof.items);
    r := Ok(MmrResult(rootHex, proofHex));
  }

  /** `generate_root`. The ghost `pushed` is the leaves the range holds when
      it returns. */
  method GenerateRoot(lib: Library, itemsLen: u64, targetPos: u64)
    returns (r: Result<MmrResult>, ghost pushed: seq<Bytes32>)
    ensures r == Run(lib, itemsLen as nat, targetPos, 0)
    ensures |pushed| <= itemsLen as nat && pushed == Leaves(|pushed|)
    ensures r.Ok? ==> 1 <= |pushed| && ContinuesUpTo(lib, targetPos, |pushed| - 1)
                      && SelectsAt(lib, targetPos, |pushed| - 1)
    ensures r.Ok? ==> IsLeaf(targetPos) && forall j :: 0 <= j < |pushed| - 1 ==>
                        PushAt(lib, j).Ok? && PushAt(lib, j).value != targetPos
    ensures ContinuesUpTo(lib, targetPos, itemsLen as nat) ==>
              r == Err(NodeProofsNotSupported) && |pushed| == itemsLen as nat
  {
    var mmr := new MerkleMountainRange(lib);
    var leafData: map<u64, Bytes32> := map[];
    var i: u64 := 0;
    while i < itemsLen
      invariant i <= itemsLen
      invariant mmr.lib == lib && mmr.leaves == Leaves(i as nat)
      invariant ContinuesUpTo(lib, targetPos, i as nat)
    {
      var leaf := MakeLeaf(i);
      RunSkipsPrefix(lib, itemsLen as nat, targetPos, i as nat);

      var pushResult := mmr.Push(leaf);
      if pushResult.Err? {
        assert PushAt(lib, i as nat) == pushResult && !Continues(lib, targetPos, i as nat);
        r, pushed := Err(pushResult.message), mmr.leaves;
        return;
      }
      var pos := pushResult.value;
      leafData := leafData[pos := leaf];
      LeavesSnoc(i as nat);

      var rootResult := mmr.GetRoot();
      if rootResult.Err? {
        assert RootAt(lib, i as nat) == rootResult && !Continues(lib, targetPos, i as nat);
        r, pushed := Err(rootResult.message), mmr.leaves;
        return;
      }
      var root := rootResult.value;

      if IsLeaf(pos) && pos == targetPos {
        assert SelectsAt(lib, targetPos, i as nat) && !Continues(lib, targetPos, i as nat);
        FirstPushOfTarget(lib, targetPos, i as nat);
        r := ProveLeaf(mmr, pos, root, leafData[pos]);
        pushed := mmr.leaves;
        return;
      }
      i := i + 1;
    }
    RunSkipsPrefix(lib, itemsLen as nat, targetPos, itemsLen as nat);
    r, pushed := Err(NodeProofsNotSupported), mmr.leaves;
  }

  // ---- properties of generate_root ----

  /** Iterations that continue can be skipped. */
  lemma {:induction false} RunSkipsPrefix(lib: Library, itemsLen: nat, target: u64, i: nat)
    requires i <= itemsLen
    requires ContinuesUpTo(lib, target, i)
    ensures Run(lib, itemsLen, target, 0) == Run(lib, itemsLen, target, i)
    decreases i
  {
    if i > 0 {
      RunSkipsPrefix(lib, itemsLen, target, i - 1);
      assert Continues(lib, target, i - 1);
    }
  }

  /** The iteration at which the loop stops, counting from `i`: the first one
      that does not continue, or `itemsLen` if every one does. */
  ghost function StopFrom(lib: Library, itemsLen: nat, target: u64, i: nat): (k: nat)
    requires i <= itemsLen
    ensures i <= k <= itemsLen
    ensures forall j :: i <= j < k ==> Continues(lib, target, j)
    ensures k < itemsLen ==> !Continues(lib, target, k)
    decreases itemsLen - i
  {
    if i == itemsLen || !Continues(lib, target, i) then i else StopFrom(lib, itemsLen, target, i + 1)
  }

  /** What the loop returns when it stops at iteration `k`. */
  function StopResult(lib: Library, k: nat): Result<MmrResult>
  {
    match PushAt(lib, k)
    case Err(e) => Err(e)
    case Ok(_) =>
      match RootAt(lib, k)
      case Err(e) => Err(e)
      case Ok(_) => FinishAt(lib, k)
  }

  lemma {:induction false} RunStops(lib: Library, itemsLen: nat, target: u64, i: nat)
    requires i <= itemsLen
    ensures var k := StopFrom(lib, itemsLen, target, i);
            Run(lib, itemsLen, target, i) == if k == itemsLen then Err(NodeProofsNotSupported) else StopResult(lib, k)
    decreases itemsLen - i
  {
    if i < itemsLen && Continues(lib, target, i) {
      RunStops(lib, itemsLen, target, i + 1);
    }
  }

  /** `generate_root` is decided by the first iteration that does not
      continue: a library error there is returned, a selection there finishes
      with that iteration's proof; if there is none, the fixed error. */
  lemma RunIsFirstStop(lib: Library, itemsLen: nat, target: u64)
    ensures var k := StopFrom(lib, itemsLen, target, 0);
            ContinuesUpTo(lib, target, k)
            && Run(lib, itemsLen, target, 0) == if k == itemsLen then Err(NodeProofsNotSupported) else StopResult(lib, k)
  {
    RunStops(lib, itemsLen, target, 0);
  }

  /** The selecting iteration is the first whose push returned `target`. */
  lemma FirstPushOfTarget(lib: Library, target: u64, k: nat)
    requires ContinuesUpTo(lib, target, k) && SelectsAt(lib, target, k)
    ensures forall j :: 0 <= j < k ==> PushAt(lib, j).Ok? && PushAt(lib, j).value != target
  {
    forall j | 0 <= j < k ensures PushAt(lib, j).Ok? && PushAt(lib, j).value != target {
      assert Continues(lib, target, j);
    }
  }

  /** `generate_root` succeeds exactly when some iteration is the first to
      select `target_pos` and proof generation and verification succeed
      there; the result is that iteration's. */
  lemma RunOkIff(lib: Library, itemsLen: nat, target: u64)
    ensures Run(lib, itemsLen, target, 0).Ok? <==>
              exists k :: 0 <= k < itemsLen && ContinuesUpTo(lib, target, k) && SelectsAt(lib, target, k)
                          && FinishAt(lib, k).Ok?
    ensures Run(lib, itemsLen, target, 0).Ok? ==>
              var k := StopFrom(lib, itemsLen, target, 0);
              k < itemsLen && SelectsAt(lib, target, k) && Run(lib, itemsLen, target, 0) == FinishAt(lib, k)
  {
    RunIsFirstStop(lib, itemsLen, target);
    var stop := StopFrom(lib, itemsLen, target, 0);
    if exists k :: 0 <= k < itemsLen && ContinuesUpTo(lib, target, k) && SelectsAt(lib, target, k)
                   && FinishAt(lib, k).Ok? {
      var k :| 0 <= k < itemsLen && ContinuesUpTo(lib, target, k) && SelectsAt(lib, target, k)
               && FinishAt(lib, k).Ok?;
      assert !Continues(lib, target, k);
      assert stop == k;
    }
  }

  /** No `Ok` when the target fails `is_leaf` or no leaf is pushed. */
  lemma RunRejects(lib: Library, itemsLen: nat, target: u64)
    requires !IsLeaf(target) || itemsLen == 0
    ensures !Run(lib, itemsLen, target, 0).Ok?
  {
    RunOkIff(lib, itemsLen, target);
  }

  /** When every iteration continues, the loop runs out with the fixed error. */
  lemma RunExhausted(lib: Library, itemsLen: nat, target: u64)
    requires ContinuesUpTo(lib, target, itemsLen)
    ensures Run(lib, itemsLen, target, 0) == Err(NodeProofsNotSupported)
  {
    RunSkipsPrefix(lib, itemsLen, target, itemsLen);
  }

  /** A successful Finish decodes to the root and the generated proof's items. */
  lemma FinishDecodes(lib: Library, leaves: seq<Bytes32>, pos: u64, root: Bytes32, leaf: Bytes32)
    requires Finish(lib, leaves, pos, root, leaf).Ok?
    ensures lib.genProof(leaves, [pos]).Ok?
    ensures HexToBytes(Finish(lib, leaves, pos, root, leaf).value.root) == Some(root)
    ensures ParseProof(Finish(lib, leaves, pos, root, leaf).value.proof) == Some(lib.genProof(leaves, [pos]).value.items)
  {
    HexRoundTrip(root);
    HexProofRoundTrip(lib.genProof(leaves, [pos]).value.items);
  }

  /** What a successful `generate_root` returns decodes to the root and the
      proof items the library produced at the selecting iteration. */
  lemma RunResultDecodes(lib: Library, itemsLen: nat, target: u64)
    requires Run(lib, itemsLen, target, 0).Ok?
    ensures var k := StopFrom(lib, itemsLen, target, 0);
            && k < itemsLen && SelectsAt(lib, target, k)
            && lib.genProof(Leaves(k + 1), [target]).Ok?
            && HexToBytes(Run(lib, itemsLen, target, 0).value.root) == Some(RootAt(lib, k).value)
            && ParseProof(Run(lib, itemsLen, target, 0).value.proof)
               == Some(lib.genProof(Leaves(k + 1), [target]).value.items)
  {
    RunOkIff(lib, itemsLen, target);
    var k := StopFrom(lib, itemsLen, target, 0);
    var root := RootAt(lib, k).value;
    assert FinishAt(lib, k) == Finish(lib, Leaves(k + 1), target, root, Payload(k));
    FinishDecodes(lib, Leaves(k + 1), target, root, Payload(k));
  }
}
