/** PolicyTree and the digest accumulator as the objects they are in TpmPolicy.cpp. */
module PolicyTrees {
  import opened Bytes
  import opened CryptoModel
  import opened Wrappers
  import opened PolicyModel
  import opened PolicyPaths
  import opened PolicyTheorems

  datatype PolicyError = RepeatedTag | EmptyBranchId | BranchNotFound | CommandRejected

  /** TPMT_HA: a digest that is extended in place. */
  class TpmHash {
    const c: Crypto
    const hashAlg: nat
    var digest: ByteVec

    constructor (c: Crypto, alg: nat)
      ensures this.c == c && hashAlg == alg && digest == c.Zero(alg)
    {
      this.c, hashAlg, digest := c, alg, Zeros(c.hashLen(alg));
    }

    method Extend(x: ByteVec)
      modifies this
      ensures digest == c.Extend(hashAlg, old(digest), x)
    {
      var t := digest + x;
      digest := c.hash(hashAlg, t);
    }

    /** Overwrites every byte of the digest with zero. */
    method Reset()
      modifies this
      ensures digest == Zeros(|old(digest)|)
    {
      var i := 0;
      while i < |digest|
        invariant i <= |digest| == |old(digest)|
        invariant forall k | 0 <= k < i :: digest[k] == 0
      {
        digest := digest[i := 0];
        i := i + 1;
      }
    }
  }

  /** The parts of AUTH_SESSION that executing a policy changes. */
  class PolicySession {
    const hashAlg: nat
    var needsHmac: bool
    var needsPassword: bool

    constructor (alg: nat)
      ensures hashAlg == alg && !needsHmac && !needsPassword
    {
      hashAlg, needsHmac, needsPassword := alg, false, false;
    }
  }

  /** The TPM's side of one policy session. */
  class PolicyDevice {
    const c: Crypto
    const alg: nat
    const env: Env
    var digest: ByteVec
    var accepted: seq<Command>
    var rejected: Option<Command>

    constructor (c: Crypto, alg: nat, env: Env)
      ensures this.c == c && this.alg == alg && this.env == env
      ensures digest == c.Zero(alg) && accepted == [] && rejected == None
    {
      this.c, this.alg, this.env := c, alg, env;
      digest, accepted, rejected := c.Zero(alg), [], None;
    }

    /** The run so far, started from digest `d0` with `acc0` commands already accepted. */
    ghost predicate Ran(d0: ByteVec, acc0: seq<Command>, cmds: seq<Command>)
      reads this
    {
      var r := RunAll(c, alg, env, d0, cmds);
      digest == r.digest && accepted == acc0 + r.accepted && rejected == r.rejected
    }

    method Send(cmd: Command) returns (ok: bool)
      requires rejected.None?
      modifies this
      ensures Ran(old(digest), old(accepted), [cmd]) && ok == rejected.None?
    {
      assert [cmd][1..] == [];
      ok := TpmAccepts(env, digest, cmd);
      if ok {
        digest, accepted := TpmUpdate(c, alg, env, digest, cmd), accepted + [cmd];
      } else {
        rejected := Some(cmd);
      }
    }
  }

  /** UpdatePolicyDigest of the assertions, each filling a buffer and extending the accumulator. */
  method UpdateSingle(a: Assertion, acc: TpmHash)
    modifies acc
    ensures acc.digest == SoftUpdate(acc.c, acc.hashAlg, old(acc.digest), a)
  {
    match a {
      case Locality(l) => ExtendWith(acc, CC_POLICY_LOCALITY, [l]);
      case PhysicalPresence => acc.Extend(BigEndian(CC_POLICY_PHYSICAL_PRESENCE, 4));
      case Pcr(values, pcrs) => UpdatePcr(acc, values, pcrs);
      case CommandCode(cc) => ExtendWith(acc, CC_POLICY_COMMAND_CODE, BigEndian(cc, 4));
      case CpHash(h) => ExtendWith(acc, CC_POLICY_CP_HASH, h);
      case CounterTimer(b, off, op) =>
        ExtendWith(acc, CC_POLICY_COUNTER_TIMER, OpDigest(acc.c, acc.hashAlg, b, off, op));
      case NameHash(h) => ExtendWith(acc, CC_POLICY_NAME_HASH, h);
      case AuthValue => acc.Extend(BigEndian(CC_POLICY_AUTH_VALUE, 4));
      case Password => acc.Extend(BigEndian(CC_POLICY_AUTH_VALUE, 4));
      case NV(b, off, op, _, _, name) =>
        var buf := BigEndian(CC_POLICY_NV, 4) + OpDigest(acc.c, acc.hashAlg, b, off, op);
        buf := buf + name;
        acc.Extend(buf);
      case Signed(pub, _, ref, _) => UpdateTwice(acc, CC_POLICY_SIGNED, GetName(acc.c, pub), ref);
      case Authorize(_, ref, key) =>
        acc.Reset();
        UpdateTwice(acc, CC_POLICY_AUTHORIZE, GetName(acc.c, key), ref);
      case Secret(_, name, _, ref, _) => UpdateTwice(acc, CC_POLICY_SECRET, name, ref);
      case DuplicationSelect(obj, parent, inc) => UpdateDuplicationSelect(acc, obj, parent, inc);
    }
  }

  /** A command code and one argument. */
  method ExtendWith(acc: TpmHash, cc: nat, arg: ByteVec)
    modifies acc
    ensures acc.digest == acc.c.Extend(acc.hashAlg, old(acc.digest), BigEndian(cc, 4) + arg)
  {
    var buf := BigEndian(cc, 4);
    buf := buf + arg;
    acc.Extend(buf);
  }

  method MarshalPcrs(pcrs: seq<PcrSelection>) returns (buf: ByteVec)
    ensures buf == MarshalSelections(pcrs)
  {
    buf := [];
    var i := 0;
    while i < |pcrs|
      invariant i <= |pcrs| && buf == MarshalSelections(pcrs[..i])
    {
      assert pcrs[..i + 1] == pcrs[..i] + [pcrs[i]];
      MarshalSelectionsSnoc(pcrs[..i], pcrs[i]);
      buf := buf + MarshalSelection(pcrs[i]);
      i := i + 1;
    }
    assert pcrs[..i] == pcrs;
  }

  method UpdatePcr(acc: TpmHash, values: seq<ByteVec>, pcrs: seq<PcrSelection>)
    modifies acc
    ensures acc.digest == SoftUpdate(acc.c, acc.hashAlg, old(acc.digest), Pcr(values, pcrs))
  {
    var buf := BigEndian(CC_POLICY_PCR, 4) + BigEndian(|pcrs|, 4);
    var selections := MarshalPcrs(pcrs);
    buf := buf + selections;
    var pcrDigest := HashPcrs(acc.c, acc.hashAlg, values);
    buf := buf + pcrDigest;
    acc.Extend(buf);
  }

  method UpdateDuplicationSelect(acc: TpmHash, obj: ByteVec, parent: ByteVec, inc: bool)
    modifies acc
    ensures acc.digest == SoftUpdate(acc.c, acc.hashAlg, old(acc.digest), DuplicationSelect(obj, parent, inc))
  {
    var buf := BigEndian(CC_POLICY_DUPLICATION_SELECT, 4);
    buf := buf + (if inc then obj else []);
    buf := buf + parent;
    buf := buf + [if inc then 1 else 0];
    acc.Extend(buf);
  }

  /** PABase::PolicyUpdate. */
  method UpdateTwice(acc: TpmHash, cc: nat, arg2: ByteVec, arg3: ByteVec)
    modifies acc
    ensures acc.digest == PolicyUpdate(acc.c, acc.hashAlg, old(acc.digest), cc, arg2, arg3)
  {
    var buf := BigEndian(cc, 4);
    buf := buf + arg2;
    acc.Extend(buf);
    acc.Extend(arg3);
  }

  /** Helpers::HashPcrs. */
  method HashPcrs(c: Crypto, alg: nat, values: seq<ByteVec>) returns (h: ByteVec)
    ensures h == c.hash(alg, Concat(values))
  {
    var pcrDigests := [];
    var i := 0;
    while i < |values|
      invariant i <= |values| && pcrDigests == Concat(values[..i])
    {
      assert values[..i + 1] == values[..i] + [values[i]];
      ConcatSnoc(values[..i], values[i]);
      pcrDigests := pcrDigests + values[i];
      i := i + 1;
    }
    assert values[..i] == values;
    h := c.hash(alg, pcrDigests);
  }

  method UpdatePolicyDigest(node: Node, acc: TpmHash)
    modifies acc
    ensures acc.digest == NodeDigest(acc.c, acc.hashAlg, node, old(acc.digest))
    decreases node, 1
  {
    match node {
      case Single(_, a) =>
        UpdateSingle(a, acc);
      case Or(_, branches) =>
        var buf := BigEndian(CC_POLICY_OR, 4);
        var digests := GetBranchDigests(acc.c, branches, acc.hashAlg);
        var k := 0;
        while k < |digests|
          invariant k <= |digests| && acc.digest == old(acc.digest)
          invariant buf == BigEndian(CC_POLICY_OR, 4) + Concat(digests[..k])
        {
          assert digests[..k + 1] == digests[..k] + [digests[k]];
          ConcatSnoc(digests[..k], digests[k]);
          buf := buf + digests[k];
          k := k + 1;
        }
        assert digests[..k] == digests;
        acc.Reset();
        acc.Extend(buf);
    }
  }

  /** The digests of the branches of a PolicyOr, in order. */
  method GetBranchDigests(c: Crypto, branches: seq<Chain>, alg: nat) returns (ds: seq<ByteVec>)
    ensures ds == BranchDigests(c, alg, branches)
    decreases branches
  {
    ds := [];
    var k := 0;
    while k < |branches|
      invariant k <= |branches| && ds == BranchDigests(c, alg, branches[..k])
    {
      var h := GetPolicyDigest(c, branches[k], alg);
      assert branches[..k + 1] == branches[..k] + [branches[k]];
      BranchDigestsSnoc(c, alg, branches[..k], branches[k]);
      ds := ds + [h.digest];
      k := k + 1;
    }
    assert branches[..k] == branches;
  }

  /** PolicyTree::GetPolicyDigest over a chain: works backwards from the last element. */
  method GetPolicyDigest(c: Crypto, chain: Chain, alg: nat) returns (h: TpmHash)
    ensures fresh(h) && h.c == c && h.hashAlg == alg && h.digest == ChainDigest(c, alg, chain)
    decreases chain, 0
  {
    h := new TpmHash(c, alg);
    var j := |chain.nodes|;
    assert chain.nodes[..j] == chain.nodes;
    while j > 0
      invariant 0 <= j <= |chain.nodes| && h.c == c && h.hashAlg == alg && fresh(h)
      invariant FoldBack(c, alg, chain.nodes[..j], h.digest) == ChainDigest(c, alg, chain)
    {
      j := j - 1;
      assert chain.nodes[..j + 1][..j] == chain.nodes[..j];
      UpdatePolicyDigest(chain.nodes[j], h);
    }
  }

  /** The vector and the map that the tag scan passes down by reference. */
  class TagScan {
    var branchIds: seq<string>
    var allIds: set<string>

    constructor ()
      ensures branchIds == [] && allIds == {}
    {
      branchIds, allIds := [], {};
    }

    /** PolicyTree::GetBranchIdsInternal. The test for a PolicyOr that is not terminal compares a
        pointer type with a class type and never holds as compiled, so it is absent here. */
    method GetBranchIdsInternal(chain: Chain) returns (r: Outcome<PolicyError>)
      requires NonEmpty(chain)
      modifies this
      ensures r.Pass? <==> ScanPasses(old(allIds), ScanTags(chain))
      ensures r.Fail? ==> r.error == RepeatedTag
      ensures r.Pass? ==> allIds == AddTags(old(allIds), ScanTags(chain))
      ensures r.Pass? ==> branchIds == old(branchIds) + LeafTags(chain)
      decreases chain, 0
    {
      ghost var own := NodeTags(chain.nodes);
      var j := 0;
      assert chain.nodes[0..] == chain.nodes;
      while j < |chain.nodes|
        invariant j <= |chain.nodes| && branchIds == old(branchIds)
        invariant ScanPasses(old(allIds), own) <==> ScanPasses(allIds, NodeTags(chain.nodes[j..]))
        invariant AddTags(old(allIds), own) == AddTags(allIds, NodeTags(chain.nodes[j..]))
      {
        var id := chain.nodes[j].tag;
        assert chain.nodes[j..][1..] == chain.nodes[j + 1..];
        assert NodeTags(chain.nodes[j..]) == [id] + NodeTags(chain.nodes[j + 1..]);
        if id != "" {
          if id in allIds {
            assert !ScanPasses(old(allIds), own);
            ScanAppendScanTags(old(allIds), chain);
            return Fail(RepeatedTag);
          }
          allIds := allIds + {id};
        }
        j := j + 1;
      }
      ScanAppendScanTags(old(allIds), chain);
      var last := chain.nodes[|chain.nodes| - 1];
      assert NonEmptyNode(last);
      if last.Or? {
        r := ScanBranchList(last.branches);
      } else {
        branchIds := branchIds + [last.tag];
        r := Pass;
      }
    }

    /** The loop over the branches of a terminal PolicyOr. */
    method ScanBranchList(branches: seq<Chain>) returns (r: Outcome<PolicyError>)
      requires forall k | 0 <= k < |branches| :: NonEmpty(branches[k])
      modifies this
      ensures r.Pass? <==> ScanPasses(old(allIds), ScanBranches(branches))
      ensures r.Fail? ==> r.error == RepeatedTag
      ensures r.Pass? ==> allIds == AddTags(old(allIds), ScanBranches(branches))
      ensures r.Pass? ==> branchIds == old(branchIds) + LeafBranches(branches)
      decreases branches
    {
      var k := 0;
      while k < |branches|
        invariant k <= |branches|
        invariant ScanPasses(old(allIds), ScanBranches(branches)) <==> ScanPasses(allIds, ScanBranches(branches[k..]))
        invariant AddTags(old(allIds), ScanBranches(branches)) == AddTags(allIds, ScanBranches(branches[k..]))
        invariant old(branchIds) + LeafBranches(branches) == branchIds + LeafBranches(branches[k..])
      {
        var rest := branches[k..];
        assert rest[1..] == branches[k + 1..];
        ScanAppend(allIds, ScanTags(branches[k]), ScanBranches(branches[k + 1..]));
        var ids := branchIds;
        r := GetBranchIdsInternal(branches[k]);
        if r.Fail? {
          return;
        }
        assert ids + (LeafTags(branches[k]) + LeafBranches(branches[k + 1..]))
            == branchIds + LeafBranches(branches[k + 1..]);
        k := k + 1;
      }
      r := Pass;
    }
  }

  lemma ScanAppendScanTags(seen: set<string>, chain: Chain)
    requires |chain.nodes| > 0
    ensures var own := NodeTags(chain.nodes);
            var below := if Last(chain).Or? then ScanBranches(Last(chain).branches) else [];
            && (ScanPasses(seen, ScanTags(chain)) <==> ScanPasses(seen, own) && ScanPasses(AddTags(seen, own), below))
            && AddTags(seen, ScanTags(chain)) == AddTags(AddTags(seen, own), below)
  {
    ScanAppend(seen, NodeTags(chain.nodes), if Last(chain).Or? then ScanBranches(Last(chain).branches) else []);
  }

  /** PolicyTree::ChainContainsBranch. `descend` is false for the code as compiled. */
  method ChainContainsBranch(descend: bool, chain: Chain, branchId: string) returns (b: bool)
    requires NonEmpty(chain)
    ensures b == Contains(descend, chain, branchId)
    decreases chain
  {
    if branchId == chain.nodes[|chain.nodes| - 1].tag {
      return true;
    }
    var lastOne := chain.nodes[|chain.nodes| - 1];
    assert NonEmptyNode(lastOne);
    if descend && lastOne.Or? {
      var k := 0;
      while k < |lastOne.branches|
        invariant k <= |lastOne.branches|
        invariant AnyContains(descend, lastOne.branches, branchId) <==> AnyContains(descend, lastOne.branches[k..], branchId)
      {
        assert lastOne.branches[k..][1..] == lastOne.branches[k + 1..];
        var found := ChainContainsBranch(descend, lastOne.branches[k], branchId);
        if found {
          return true;
        }
        k := k + 1;
      }
    }
    b := false;
  }

  /** vector<PABase*> with the session it is executed in. */
  class PolicyTree {
    var policy: Chain
    var session: PolicySession?

    constructor ()
      ensures policy == Chain([]) && session == null
    {
      policy, session := Chain([]), null;
    }

    /** PolicyTree::SetTree: scans, then copies, then tags an untagged last assertion. */
    method SetTree(policyBranch: Chain) returns (r: Outcome<PolicyError>)
      requires NonEmpty(policyBranch)
      modifies this`policy
      ensures r.Fail? <==> !ScanPasses({}, ScanTags(policyBranch))
      ensures policy == if r.Fail? then old(policy) else WithLeafTag(policyBranch)
    {
      var scan := new TagScan();
      r := scan.GetBranchIdsInternal(policyBranch);
      if r.Fail? {
        return;
      }
      policy := policyBranch;
      var n := |policy.nodes| - 1;
      var lastOne := policy.nodes[n];
      if !lastOne.Or? && lastOne.tag == "" {
        policy := Chain(policy.nodes[n := Single("leaf", lastOne.assertion)]);
      }
    }

    /** PolicyTree::Execute: the checks, then the chain from its end. */
    method Execute(dev: PolicyDevice, s: PolicySession, branchId: string, descend: bool)
      returns (r: Outcome<PolicyError>)
      requires NonEmpty(policy)
      requires dev.rejected.None?
      modifies this`session, dev, s
      ensures session == s
      ensures r == Fail(RepeatedTag) <==> !ScanPasses({}, ScanTags(policy))
      ensures r == Fail(EmptyBranchId) <==> ScanPasses({}, ScanTags(policy)) && branchId == ""
      ensures r == Fail(BranchNotFound)
         <==> ScanPasses({}, ScanTags(policy)) && branchId != "" && branchId !in LeafTags(policy)
      ensures r.Pass? || r == Fail(CommandRejected) ==>
                dev.Ran(old(dev.digest), old(dev.accepted), Issue(descend, dev.c, dev.alg, policy, branchId))
                && r.Pass? == dev.rejected.None?
      ensures r.Fail? && r.error != CommandRejected ==>
                dev.digest == old(dev.digest) && dev.accepted == old(dev.accepted) && dev.rejected.None?
    {
      session := s;
      var scan := new TagScan();
      r := scan.GetBranchIdsInternal(policy);
      if r.Fail? {
        return;
      }
      assert scan.branchIds == [] + LeafTags(policy) == LeafTags(policy);
      if branchId == "" {
        return Fail(EmptyBranchId);
      }
      if branchId !in scan.branchIds {
        return Fail(BranchNotFound);
      }
      var ok := ExecuteChain(dev, s, policy, branchId, descend);
      r := if ok then Pass else Fail(CommandRejected);
    }
  }

  function WithLeafTag(chain: Chain): Chain
    requires |chain.nodes| > 0
  {
    var n := |chain.nodes| - 1;
    if chain.nodes[n].Single? && chain.nodes[n].tag == "" then
      Chain(chain.nodes[n := Single("leaf", chain.nodes[n].assertion)])
    else
      chain
  }

  /** The recursive PolicyTree::Execute over one chain, from its last element to its first. */
  method ExecuteChain(dev: PolicyDevice, s: PolicySession, chain: Chain, branchId: string, descend: bool)
    returns (ok: bool)
    requires NonEmpty(chain)
    requires dev.rejected.None?
    modifies dev, s
    ensures dev.Ran(old(dev.digest), old(dev.accepted), Issue(descend, dev.c, dev.alg, chain, branchId))
    ensures ok == dev.rejected.None?
    decreases chain, 0
  {
    hide RunAll, IssueNode, NonEmptyNode;
    ghost var d0, acc0 := dev.digest, dev.accepted;
    ghost var issued: seq<Command> := [];
    RunNothing(dev.c, dev.alg, dev.env, d0);
    var nodes := chain.nodes;
    var j := |nodes|;
    assert nodes[..j] == nodes;
    while j > 0
      invariant 0 <= j <= |nodes| && dev.rejected.None? && dev.Ran(d0, acc0, issued)
      invariant issued + IssueNodes(descend, dev.c, dev.alg, nodes[..j], branchId)
             == Issue(descend, dev.c, dev.alg, chain, branchId)
    {
      j := j - 1;
      ghost var front := nodes[..j + 1];
      assert front[..j] == nodes[..j] && front[j] == nodes[j];
      ghost var own := IssueNode(descend, dev.c, dev.alg, nodes[j], branchId);
      ghost var rest := IssueNodes(descend, dev.c, dev.alg, nodes[..j], branchId);
      assert issued + (own + rest) == (issued + own) + rest;
      assert NonEmptyNode(nodes[j]);
      ok := ExecuteNode(dev, s, nodes[j], branchId, descend);
      RunThen(dev.c, dev.alg, dev.env, d0, acc0, issued, own);
      issued := issued + own;
      if !ok {
        RunAppend(dev.c, dev.alg, dev.env, d0, issued, rest);
        return;
      }
    }
    assert issued + [] == issued;
    ok := true;
  }

  /** One iteration of that loop: the branches that contain the identifier, then the node itself. */
  method ExecuteNode(dev: PolicyDevice, s: PolicySession, node: Node, branchId: string, descend: bool)
    returns (ok: bool)
    requires NonEmptyNode(node)
    requires dev.rejected.None?
    modifies dev, s
    ensures dev.Ran(old(dev.digest), old(dev.accepted), IssueNode(descend, dev.c, dev.alg, node, branchId))
    ensures ok == dev.rejected.None?
    decreases node, 1
  {
    ghost var d0, acc0 := dev.digest, dev.accepted;
    ghost var below := if node.Or? then IssueBranches(descend, dev.c, dev.alg, node.branches, branchId) else [];
    if node.Or? {
      ok := ExecuteBranches(dev, s, node.branches, branchId, descend);
      if !ok {
        RunAppend(dev.c, dev.alg, dev.env, d0, below, [NodeCommand(dev.c, dev.alg, node)]);
        return;
      }
    }
    ok := ExecuteSelf(dev, s, node);
    RunThen(dev.c, dev.alg, dev.env, d0, acc0, below, [NodeCommand(dev.c, dev.alg, node)]);
  }

  method ExecuteBranches(
    dev: PolicyDevice, s: PolicySession, branches: seq<Chain>, branchId: string, descend: bool)
    returns (ok: bool)
    requires forall k | 0 <= k < |branches| :: NonEmpty(branches[k])
    requires dev.rejected.None?
    modifies dev, s
    ensures dev.Ran(old(dev.digest), old(dev.accepted), IssueBranches(descend, dev.c, dev.alg, branches, branchId))
    ensures ok == dev.rejected.None?
    decreases branches
  {
    hide RunAll, Issue, Contains, IssueBranches;
    ghost var d0, acc0 := dev.digest, dev.accepted;
    ghost var issued: seq<Command> := [];
    RunNothing(dev.c, dev.alg, dev.env, d0);
    var k := 0;
    assert branches[0..] == branches;
    while k < |branches|
      invariant k <= |branches| && dev.rejected.None? && dev.Ran(d0, acc0, issued)
      invariant issued + IssueBranches(descend, dev.c, dev.alg, branches[k..], branchId)
             == IssueBranches(descend, dev.c, dev.alg, branches, branchId)
    {
      NextBranch(descend, dev.c, dev.alg, branches, k, branchId);
      ghost var rest := IssueBranches(descend, dev.c, dev.alg, branches[k + 1..], branchId);
      var inside := ChainContainsBranch(descend, branches[k], branchId);
      if inside {
        ghost var own := Issue(descend, dev.c, dev.alg, branches[k], branchId);
        assert issued + (own + rest) == (issued + own) + rest;
        ok := ExecuteChain(dev, s, branches[k], branchId, descend);
        RunThen(dev.c, dev.alg, dev.env, d0, acc0, issued, own);
        issued := issued + own;
        if !ok {
          RunAppend(dev.c, dev.alg, dev.env, d0, issued, rest);
          return;
        }
      } else {
        assert [] + rest == rest;
      }
      k := k + 1;
    }
    NoMoreBranches(descend, dev.c, dev.alg, branches[k..], branchId);
    assert issued + [] == issued;
    ok := true;
  }

  lemma NextBranch(descend: bool, c: Crypto, alg: nat, branches: seq<Chain>, k: nat, id: string)
    requires k < |branches|
    ensures IssueBranches(descend, c, alg, branches[k..], id)
         == (if Contains(descend, branches[k], id) then Issue(descend, c, alg, branches[k], id) else [])
            + IssueBranches(descend, c, alg, branches[k + 1..], id)
  {
    hide Issue, Contains;
    assert branches[k..][1..] == branches[k + 1..];
  }

  lemma NoMoreBranches(descend: bool, c: Crypto, alg: nat, branches: seq<Chain>, id: string)
    requires branches == []
    ensures IssueBranches(descend, c, alg, branches, id) == []
  {}

  /** The virtual Execute of one assertion: session flags first, then the command. */
  method ExecuteSelf(dev: PolicyDevice, s: PolicySession, node: Node) returns (ok: bool)
    requires dev.rejected.None?
    modifies dev, s
    ensures dev.Ran(old(dev.digest), old(dev.accepted), [NodeCommand(dev.c, dev.alg, node)])
    ensures ok == dev.rejected.None?
    ensures s.needsHmac == (old(s.needsHmac) || (node.Single? && node.assertion.AuthValue?))
    ensures s.needsPassword == (old(s.needsPassword) || (node.Single? && node.assertion.Password?))
  {
    if node.Or? {
      var hashList := GetBranchDigests(dev.c, node.branches, dev.alg);
      ok := dev.Send(CmdOr(hashList));
    } else {
      if node.assertion.AuthValue? {
        s.needsHmac := true;
      } else if node.assertion.Password? {
        s.needsPassword := true;
      }
      ok := dev.Send(CommandOf(dev.c, dev.alg, node.assertion));
    }
  }

  lemma RunNothing(c: Crypto, alg: nat, env: Env, d: ByteVec)
    ensures RunAll(c, alg, env, d, []) == Run(d, [], None)
  {}

  /** Two consecutive stretches of one run. */
  lemma RunThen(c: Crypto, alg: nat, env: Env, d0: ByteVec, acc0: seq<Command>, a: seq<Command>, b: seq<Command>)
    requires RunAll(c, alg, env, d0, a).rejected.None?
    ensures var ra, r := RunAll(c, alg, env, d0, a), RunAll(c, alg, env, d0, a + b);
            var rb := RunAll(c, alg, env, ra.digest, b);
            && r.digest == rb.digest && r.rejected == rb.rejected
            && acc0 + r.accepted == (acc0 + ra.accepted) + rb.accepted
  {
    hide RunAll, TpmAccepts, TpmUpdate;
    RunAppend(c, alg, env, d0, a, b);
    var ra := RunAll(c, alg, env, d0, a);
    var rb := RunAll(c, alg, env, ra.digest, b);
    assert acc0 + ra.accepted + rb.accepted == acc0 + (ra.accepted + rb.accepted);
  }

  /** GetPolicyDigest of a tree and the session left by executing one of its branches, the two halves
      of the class run one after the other on a fresh session. With the promised descent they agree
      for every leaf; as compiled they agree exactly for the leaves that CompiledFits. */
  method ExecuteMatchesDigest(
    c: Crypto, alg: nat, env: Env, tree: PolicyTree, s: PolicySession, branchId: string, descend: bool, ghost path: seq<nat>)
    returns (r: Outcome<PolicyError>, softDigest: ByteVec, sessionDigest: ByteVec, rejected: Option<Command>)
    requires c.Valid()
    requires NonEmpty(tree.policy) && TerminalOrs(tree.policy) && OrSizes(tree.policy)
    requires ChainNames(env, tree.policy)
    requires Distinct(ScanTags(tree.policy)) && branchId != "" && IsLeafPath(tree.policy, path, branchId)
    modifies tree`session, s
    ensures softDigest == ChainDigest(c, alg, tree.policy)
    ensures r.Pass? || (r == Fail(CommandRejected) && rejected.Some?)
    ensures if descend || CompiledFits(c, alg, tree.policy, path) then
              (r.Pass? ==> sessionDigest == softDigest) && (r.Fail? ==> !rejected.value.CmdOr?)
            else r.Fail? && rejected.value.CmdOr?
  {
    hide Issue, ChainDigest, TerminalOrs, OrSizes, ChainNames, NonEmpty, RunAll, BranchDigests, CompiledFits, LeafTags, IsLeafPath;
    ScanPassesIff({}, ScanTags(tree.policy));
    BranchIdsArePaths(tree.policy, branchId);
    if descend {
      ExecuteReachesPolicyDigest(c, alg, env, tree.policy, branchId);
    } else {
      LeafPathNonEmpty(tree.policy, path, branchId);
      CompiledReachesPolicyDigestIff(c, alg, env, tree.policy, path, branchId);
    }
    var h := GetPolicyDigest(c, tree.policy, alg);
    softDigest := h.digest;
    var dev := new PolicyDevice(c, alg, env);
    r := tree.Execute(dev, s, branchId, descend);
    sessionDigest, rejected := dev.digest, dev.rejected;
  }

  lemma LeafPathNonEmpty(chain: Chain, path: seq<nat>, id: string)
    requires IsLeafPath(chain, path, id)
    ensures |chain.nodes| > 0
  {}

  /** SetTree adds the tag "leaf" after its own check, so a tree that already uses that tag
      elsewhere in the chain passes SetTree and is then refused by Execute. */
  lemma LeafTagClash(chain: Chain)
    requires |chain.nodes| > 0 && Last(chain).Single? && Last(chain).tag == ""
    ensures ScanPasses({}, ScanTags(WithLeafTag(chain)))
       <==> ScanPasses({}, ScanTags(chain)) && "leaf" !in ScanTags(chain)
  {
    var n := |chain.nodes| - 1;
    var front := NodeTags(chain.nodes[..n]);
    NodeTagsSnoc(chain.nodes[..n], chain.nodes[n]);
    assert chain.nodes == chain.nodes[..n] + [chain.nodes[n]];
    var tagged := WithLeafTag(chain);
    NodeTagsSnoc(chain.nodes[..n], tagged.nodes[n]);
    assert tagged.nodes == chain.nodes[..n] + [tagged.nodes[n]];
    assert ScanTags(chain) == front + [""] && ScanTags(tagged) == front + ["leaf"];
    ScanAppend({}, front, [""]);
    ScanAppend({}, front, ["leaf"]);
    assert [""][1..] == [] && ["leaf"][1..] == [];
    AddTagsMembers({}, front);
  }

  /** Such a tree: SetTree takes it, Execute refuses it. */
  method LeafTagRefused(dev: PolicyDevice, s: PolicySession, branchId: string)
    returns (stored: Outcome<PolicyError>, r: Outcome<PolicyError>)
    requires dev.rejected.None?
    modifies dev, s
    ensures stored.Pass? && r == Fail(RepeatedTag)
  {
    var chain := Chain([Single("leaf", PhysicalPresence), Single("", AuthValue)]);
    LeafTagClashes();
    var tree := new PolicyTree();
    stored := tree.SetTree(chain);
    r := tree.Execute(dev, s, branchId, false);
  }

  lemma LeafTagClashes()
    ensures var chain := Chain([Single("leaf", PhysicalPresence), Single("", AuthValue)]);
            && NonEmpty(chain) && NonEmpty(WithLeafTag(chain))
            && ScanPasses({}, ScanTags(chain)) && !ScanPasses({}, ScanTags(WithLeafTag(chain)))
  {
    var chain := Chain([Single("leaf", PhysicalPresence), Single("", AuthValue)]);
    LeafTagClash(chain);
    assert chain.nodes[1..] == [chain.nodes[1]] && chain.nodes[1..][1..] == [];
    assert ScanTags(chain) == ["leaf", ""];
    assert ["leaf", ""][1..] == [""] && [""][1..] == [];
  }

  /** A PolicyOr in mid-chain is let through, and what is below it does not matter to the scan: with any
      other branches in its place the same tags and the same leaf tags are met. */
  lemma MidChainOrUnscanned(chain: Chain, i: nat, branches: seq<Chain>)
    requires i < |chain.nodes| - 1 && chain.nodes[i].Or?
    ensures var other := Chain(chain.nodes[i := Or(chain.nodes[i].tag, branches)]);
            ScanTags(other) == ScanTags(chain) && LeafTags(other) == LeafTags(chain)
  {
    SameNodeTags(chain.nodes, chain.nodes[i := Or(chain.nodes[i].tag, branches)]);
  }

  lemma {:induction false} SameNodeTags(nodes: seq<Node>, nodes': seq<Node>)
    requires |nodes'| == |nodes| && forall i | 0 <= i < |nodes| :: nodes'[i].tag == nodes[i].tag
    ensures NodeTags(nodes') == NodeTags(nodes)
  {
    if nodes != [] {
      SameNodeTags(nodes[1..], nodes'[1..]);
    }
  }

  /** A chain with a PolicyOr before its end, below which a tag occurs twice. */
  function MidChainOr(): Chain {
    var x := Chain([Single("x", PhysicalPresence)]);
    Chain([Or("", [x, x]), Single("end", AuthValue)])
  }

  /** SetTree takes that chain. Execute then does not know the tag below the PolicyOr; for the tag at the
      end it sends the two commands of the chain itself, PolicyOR without any of its branches. */
  method MidChainOrTaken(dev: PolicyDevice, s: PolicySession, descend: bool)
    returns (stored: Outcome<PolicyError>, below: Outcome<PolicyError>, end: Outcome<PolicyError>)
    requires dev.rejected.None?
    modifies dev, s
    ensures stored.Pass? && below == Fail(BranchNotFound)
    ensures end.Pass? || end == Fail(CommandRejected)
    ensures dev.Ran(old(dev.digest), old(dev.accepted), [CmdAuthValue, CmdOr(BranchDigests(dev.c, dev.alg, MidChainOr().nodes[0].branches))])
  {
    hide RunAll, BranchDigests, TpmAccepts, TpmUpdate;
    MidChainOrTags();
    MidChainOrIssue(descend, dev.c, dev.alg);
    var tree := new PolicyTree();
    stored := tree.SetTree(MidChainOr());
    below := tree.Execute(dev, s, "x", descend);
    end := tree.Execute(dev, s, "end", descend);
  }

  lemma MidChainOrTags()
    ensures NonEmpty(MidChainOr()) && WithLeafTag(MidChainOr()) == MidChainOr()
    ensures ScanTags(MidChainOr()) == ["", "end"] && LeafTags(MidChainOr()) == ["end"] && ScanPasses({}, ["", "end"])
  {
    var nodes := MidChainOr().nodes;
    assert nodes[1..] == [nodes[1]] && nodes[1..][1..] == [];
    assert ["", "end"][1..] == ["end"] && ["end"][1..] == [];
  }

  lemma MidChainOrIssue(descend: bool, c: Crypto, alg: nat)
    ensures Issue(descend, c, alg, MidChainOr(), "end")
         == [CmdAuthValue, CmdOr(BranchDigests(c, alg, MidChainOr().nodes[0].branches))]
  {
    hide BranchDigests, Contains;
    var nodes := MidChainOr().nodes;
    var branches := nodes[0].branches;
    assert !Contains(descend, branches[0], "end") && !Contains(descend, branches[1], "end") by {
      OtherTag(descend);
    }
    NoBranchIssues(descend, c, alg, branches, "end");
    assert nodes[..1] == [nodes[0]] && nodes[..1][..0] == [];
    assert IssueNode(descend, c, alg, nodes[1], "end") == [CmdAuthValue];
    assert IssueNode(descend, c, alg, nodes[0], "end") == [CmdOr(BranchDigests(c, alg, branches))];
    assert IssueNodes(descend, c, alg, [nodes[0]], "end") == [CmdOr(BranchDigests(c, alg, branches))];
  }

  lemma OtherTag(descend: bool)
    ensures !Contains(descend, Chain([Single("x", PhysicalPresence)]), "end")
  {}

  lemma {:induction false} NodeTagsSnoc(nodes: seq<Node>, node: Node)
    ensures NodeTags(nodes + [node]) == NodeTags(nodes) + [node.tag]
  {
    if nodes == [] {
      assert nodes + [node] == [node] && [node][1..] == [];
    } else {
      assert (nodes + [node])[1..] == nodes[1..] + [node];
      NodeTagsSnoc(nodes[1..], node);
    }
  }

  lemma {:induction false} AddTagsMembers(seen: set<string>, tags: seq<string>)
    ensures forall id :: id in AddTags(seen, tags) <==> id in seen || (id != "" && id in tags)
    decreases |tags|
  {
    if tags != [] {
      AddTagsMembers(AddTag(seen, tags[0]), tags[1..]);
      assert tags == [tags[0]] + tags[1..];
    }
  }
}
