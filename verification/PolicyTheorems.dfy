/** The policy results: executing a branch drives the TPM session to the digest computed in
    software, and the tag scan rejects exactly the trees with a repeated tag. */
module PolicyTheorems {
  import opened Bytes
  import opened CryptoModel
  import opened Wrappers
  import opened PolicyModel
  import opened PolicyPaths

  // ---------- runs ----------

  /** Running `a` and then `b`. */
  lemma {:induction false} RunAppend(c: Crypto, alg: nat, env: Env, d: ByteVec, a: seq<Command>, b: seq<Command>)
    ensures var ra := RunAll(c, alg, env, d, a);
            RunAll(c, alg, env, d, a + b)
            == if ra.rejected.Some? then ra
               else
                 var rb := RunAll(c, alg, env, ra.digest, b);
                 Run(rb.digest, ra.accepted + rb.accepted, rb.rejected)
    decreases |a|
  {
    hide TpmUpdate, TpmAccepts;
    if a == [] {
      assert a + b == b;
      assert [] + RunAll(c, alg, env, d, b).accepted == RunAll(c, alg, env, d, b).accepted;
    } else if TpmAccepts(env, d, a[0]) {
      assert (a + b)[1..] == a[1..] + b;
      var d' := TpmUpdate(c, alg, env, d, a[0]);
      RunAppend(c, alg, env, d', a[1..], b);
      var r1 := RunAll(c, alg, env, d', a[1..]);
      var r2 := RunAll(c, alg, env, r1.digest, b);
      assert [a[0]] + (r1.accepted + r2.accepted) == ([a[0]] + r1.accepted) + r2.accepted;
    }
  }

  /** A run that is not rejected has accepted every command, in order. */
  lemma {:induction false} RunComplete(c: Crypto, alg: nat, env: Env, d: ByteVec, cmds: seq<Command>)
    ensures var r := RunAll(c, alg, env, d, cmds);
            && r.accepted <= cmds
            && (r.rejected.None? <==> r.accepted == cmds)
            && (r.rejected.Some? ==> |r.accepted| < |cmds| && r.rejected.value == cmds[|r.accepted|])
    decreases |cmds|
  {
    hide TpmUpdate, TpmAccepts;
    if cmds != [] && TpmAccepts(env, d, cmds[0]) {
      RunComplete(c, alg, env, TpmUpdate(c, alg, env, d, cmds[0]), cmds[1..]);
      assert cmds == [cmds[0]] + cmds[1..];
    }
  }

  /** The outcome the policy results promise: no PolicyOR is ever the rejected command, and a
      run without rejection ends at `target`. */
  predicate Reaches(r: Run, target: ByteVec) {
    match r.rejected
    case None => r.digest == target
    case Some(cmd) => !cmd.CmdOr?
  }

  lemma {:induction false} RunSingles(c: Crypto, alg: nat, env: Env, d: ByteVec, nodes: seq<Node>)
    requires c.Valid() && |d| == c.hashLen(alg)
    requires forall i | 0 <= i < |nodes| :: nodes[i].Single? && NodeNames(env, nodes[i])
    ensures Reaches(RunAll(c, alg, env, d, BackCommands(c, alg, nodes)), FoldBack(c, alg, nodes, d))
    decreases |nodes|
  {
    if nodes != [] {
      var n := nodes[|nodes| - 1];
      var front := nodes[..|nodes| - 1];
      var cmds := BackCommands(c, alg, nodes);
      assert cmds[1..] == BackCommands(c, alg, front);
      AssertionRefines(c, alg, env, d, n.assertion);
      if TpmAccepts(env, d, cmds[0]) {
        RunSingles(c, alg, env, SoftUpdate(c, alg, d, n.assertion), front);
      }
    }
  }

  /** PolicyOR after one of its branches: accepted, and the digest becomes that of the node. */
  lemma OrAccepted(c: Crypto, alg: nat, env: Env, node: Node, k: nat)
    requires c.Valid() && node.Or? && k < |node.branches| && 2 <= |node.branches| <= 8
    ensures var d := ChainDigest(c, alg, node.branches[k]);
            TpmAccepts(env, d, NodeCommand(c, alg, node))
    ensures forall d: ByteVec | |d| == c.hashLen(alg) ::
              TpmUpdate(c, alg, env, d, NodeCommand(c, alg, node)) == NodeDigest(c, alg, node, d)
  {
    BranchDigestAt(c, alg, node.branches, k);
  }

  lemma SoftUpdateLength(c: Crypto, alg: nat, d: ByteVec, a: Assertion)
    requires c.Valid()
    ensures |SoftUpdate(c, alg, d, a)| == c.hashLen(alg)
  {
    hide BigEndian, MarshalSelections, Concat;
  }

  lemma {:induction false} FoldBackLength(c: Crypto, alg: nat, nodes: seq<Node>, d: ByteVec)
    requires c.Valid() && |d| == c.hashLen(alg)
    ensures |FoldBack(c, alg, nodes, d)| == c.hashLen(alg)
    decreases |nodes|
  {
    hide SoftUpdate;
    if nodes != [] {
      if nodes[|nodes| - 1].Single? {
        SoftUpdateLength(c, alg, d, nodes[|nodes| - 1].assertion);
      }
      FoldBackLength(c, alg, nodes[..|nodes| - 1], NodeDigest(c, alg, nodes[|nodes| - 1], d));
    }
  }

  lemma BackCommandsSplit(c: Crypto, alg: nat, nodes: seq<Node>)
    requires nodes != []
    ensures BackCommands(c, alg, nodes)
         == [NodeCommand(c, alg, nodes[|nodes| - 1])] + BackCommands(c, alg, nodes[..|nodes| - 1])
  {}

  /** Whichever branch is chosen, running its assertions from a fresh session ends at the digest
      of the whole tree, and no PolicyOR on the way is rejected. */
  lemma {:induction false} PathReachesDigest(
    c: Crypto, alg: nat, env: Env, chain: Chain, path: seq<nat>, id: string)
    requires c.Valid()
    requires TerminalOrs(chain) && OrSizes(chain) && ChainNames(env, chain)
    requires IsLeafPath(chain, path, id)
    ensures Reaches(RunAll(c, alg, env, c.Zero(alg), PathCommands(c, alg, chain, path, id)), ChainDigest(c, alg, chain))
    decreases |path|
  {
    if path == [] {
      assert [] + BackCommands(c, alg, chain.nodes) == BackCommands(c, alg, chain.nodes);
      RunSingles(c, alg, env, c.Zero(alg), chain.nodes);
    } else {
      var node := Last(chain);
      var branch := node.branches[path[0]];
      assert NodeNames(env, node);
      PathReachesDigest(c, alg, env, branch, path[1..], id);
      var below := PathCommands(c, alg, branch, path[1..], id);
      RunAppend(c, alg, env, c.Zero(alg), below, BackCommands(c, alg, chain.nodes));
      if RunAll(c, alg, env, c.Zero(alg), below).rejected.None? {
        OrThenSingles(c, alg, env, chain, path[0]);
      }
    }
  }

  /** The rest of a chain once the session digest equals that of the branch taken. */
  lemma OrThenSingles(c: Crypto, alg: nat, env: Env, chain: Chain, k: nat)
    requires c.Valid() && TerminalOrs(chain) && OrSizes(chain) && ChainNames(env, chain)
    requires |chain.nodes| > 0 && Last(chain).Or? && k < |Last(chain).branches|
    ensures Reaches(
              RunAll(c, alg, env, ChainDigest(c, alg, Last(chain).branches[k]), BackCommands(c, alg, chain.nodes)),
              ChainDigest(c, alg, chain))
  {
    var node := Last(chain);
    var front := chain.nodes[..|chain.nodes| - 1];
    var d := ChainDigest(c, alg, node.branches[k]);
    FoldBackLength(c, alg, node.branches[k].nodes, c.Zero(alg));
    OrAccepted(c, alg, env, node, k);
    BackCommandsSplit(c, alg, chain.nodes);
    var d' := NodeDigest(c, alg, node, d);
    assert d' == NodeDigest(c, alg, node, c.Zero(alg));
    RunSingles(c, alg, env, d', front);
    var cmds := BackCommands(c, alg, chain.nodes);
    assert cmds[0] == NodeCommand(c, alg, node) && cmds[1..] == BackCommands(c, alg, front);
  }

  // ---------- what is issued ----------

  lemma {:induction false} SinglesIssue(descend: bool, c: Crypto, alg: nat, nodes: seq<Node>, id: string)
    requires forall i | 0 <= i < |nodes| :: nodes[i].Single?
    ensures IssueNodes(descend, c, alg, nodes, id) == BackCommands(c, alg, nodes)
    decreases |nodes|
  {
    if nodes != [] {
      SinglesIssue(descend, c, alg, nodes[..|nodes| - 1], id);
    }
  }

  lemma IssueOfTerminal(descend: bool, c: Crypto, alg: nat, chain: Chain, id: string)
    requires TerminalOrs(chain) && |chain.nodes| > 0
    ensures Issue(descend, c, alg, chain, id)
         == (if Last(chain).Or? then IssueBranches(descend, c, alg, Last(chain).branches, id) else [])
            + BackCommands(c, alg, chain.nodes)
  {
    hide IssueBranches, BackCommands;
    var nodes := chain.nodes;
    SinglesIssue(descend, c, alg, nodes[..|nodes| - 1], id);
    var below := if Last(chain).Or? then IssueBranches(descend, c, alg, Last(chain).branches, id) else [];
    var own := NodeCommand(c, alg, Last(chain));
    var rest := BackCommands(c, alg, nodes[..|nodes| - 1]);
    BackCommandsSplit(c, alg, nodes);
    assert IssueNode(descend, c, alg, Last(chain), id) == below + [own];
    assert below + [own] + rest == below + ([own] + rest);
  }

  lemma {:induction false} NoBranchIssues(descend: bool, c: Crypto, alg: nat, branches: seq<Chain>, id: string)
    requires forall j | 0 <= j < |branches| :: !Contains(descend, branches[j], id)
    ensures IssueBranches(descend, c, alg, branches, id) == []
    decreases |branches|
  {
    if branches != [] {
      assert !Contains(descend, branches[0], id);
      NoBranchIssues(descend, c, alg, branches[1..], id);
    }
  }

  lemma {:induction false} OneBranchIssues(
    descend: bool, c: Crypto, alg: nat, branches: seq<Chain>, k: nat, id: string)
    requires k < |branches| && Contains(descend, branches[k], id)
    requires forall j | 0 <= j < |branches| && j != k :: !Contains(descend, branches[j], id)
    ensures IssueBranches(descend, c, alg, branches, id) == Issue(descend, c, alg, branches[k], id)
    decreases k
  {
    var rest := branches[1..];
    if k == 0 {
      assert forall j | 0 <= j < |rest| :: rest[j] == branches[j + 1];
      NoBranchIssues(descend, c, alg, rest, id);
      assert Issue(descend, c, alg, branches[0], id) + [] == Issue(descend, c, alg, branches[0], id);
    } else {
      assert !Contains(descend, branches[0], id);
      assert forall j | 0 <= j < |rest| :: rest[j] == branches[j + 1];
      OneBranchIssues(descend, c, alg, rest, k - 1, id);
    }
  }

  /** A chain that is taken to contain an identifier carries it as a tag. */
  lemma {:induction false} ContainsIsTagged(descend: bool, chain: Chain, id: string)
    requires Contains(descend, chain, id)
    ensures id in ScanTags(chain)
    decreases chain
  {
    if id == Last(chain).tag {
      NodeTagIn(chain.nodes, |chain.nodes| - 1);
    } else {
      AnyContainsIsTagged(descend, Last(chain).branches, id);
    }
  }

  lemma {:induction false} AnyContainsIsTagged(descend: bool, branches: seq<Chain>, id: string)
    requires AnyContains(descend, branches, id)
    ensures id in ScanBranches(branches)
    decreases branches
  {
    if Contains(descend, branches[0], id) {
      ContainsIsTagged(descend, branches[0], id);
    } else {
      AnyContainsIsTagged(descend, branches[1..], id);
    }
  }

  /** With the descent, every chain on a leaf path contains the leaf's identifier. */
  lemma {:induction false} PathContains(chain: Chain, path: seq<nat>, id: string)
    requires IsLeafPath(chain, path, id)
    ensures Contains(true, chain, id)
    decreases |path|
  {
    if path != [] {
      PathContains(Last(chain).branches[path[0]], path[1..], id);
      ContainsInAny(Last(chain).branches, path[0], id);
    }
  }

  lemma {:induction false} ContainsInAny(branches: seq<Chain>, k: nat, id: string)
    requires k < |branches| && Contains(true, branches[k], id)
    ensures AnyContains(true, branches, id)
    decreases k
  {
    if k > 0 {
      ContainsInAny(branches[1..], k - 1, id);
    }
  }

  lemma OnlyBranchContaining(descend: bool, chain: Chain, k: nat, id: string)
    requires |chain.nodes| > 0 && Last(chain).Or? && k < |Last(chain).branches|
    requires id != "" && Count(chain, id) <= 1
    requires id in ScanTags(Last(chain).branches[k])
    ensures forall j | 0 <= j < |Last(chain).branches| && j != k :: !Contains(descend, Last(chain).branches[j], id)
  {
    TagInOneBranch(chain, k, id);
    forall j | 0 <= j < |Last(chain).branches| && j != k
      ensures !Contains(descend, Last(chain).branches[j], id)
    {
      if Contains(descend, Last(chain).branches[j], id) {
        ContainsIsTagged(descend, Last(chain).branches[j], id);
      }
    }
  }

  /** With the descent and unique tags, executing a branch identifier issues exactly the
      assertions on its path from the leaf to the root, each once and in order. */
  lemma {:induction false} IssueIsPath(c: Crypto, alg: nat, chain: Chain, path: seq<nat>, id: string)
    requires TerminalOrs(chain) && IsLeafPath(chain, path, id)
    requires id != "" && Count(chain, id) <= 1
    ensures Issue(true, c, alg, chain, id) == PathCommands(c, alg, chain, path, id)
    decreases |path|
  {
    IssueOfTerminal(true, c, alg, chain, id);
    if path != [] {
      var branches := Last(chain).branches;
      var k := path[0];
      LeafPathTagged(branches[k], path[1..], id);
      TagInOneBranch(chain, k, id);
      OnlyBranchContaining(true, chain, k, id);
      PathContains(branches[k], path[1..], id);
      OneBranchIssues(true, c, alg, branches, k, id);
      IssueIsPath(c, alg, branches[k], path[1..], id);
    }
  }

  /** As compiled, the assertions on the path are issued exactly when the path passes at most one
      PolicyOr; below a second one no branch is entered at all. */
  lemma CompiledIssue(c: Crypto, alg: nat, chain: Chain, path: seq<nat>, id: string)
    requires TerminalOrs(chain) && IsLeafPath(chain, path, id)
    requires id != "" && Count(chain, id) <= 1
    ensures Issue(false, c, alg, chain, id) == PathCommands(c, alg, chain, path, id) <==> |path| <= 1
    ensures |path| > 1 ==> Issue(false, c, alg, chain, id) == BackCommands(c, alg, chain.nodes)
  {
    IssueOfTerminal(false, c, alg, chain, id);
    if path != [] {
      var branches := Last(chain).branches;
      var k := path[0];
      LeafPathTagged(branches[k], path[1..], id);
      OnlyBranchContaining(false, chain, k, id);
      if |path| == 1 {
        OneBranchIssues(false, c, alg, branches, k, id);
        IssueOfTerminal(false, c, alg, branches[k], id);
      } else {
        TagInOneBranch(chain, k, id);
        NestedLeafTagElsewhere(branches[k], path[1..], id);
        NoBranchIssues(false, c, alg, branches, id);
        assert PathCommands(c, alg, branches[k], path[1..], id) != [];
      }
    }
  }

  /** The PolicyOr above a leaf does not itself carry the leaf's tag. */
  lemma NestedLeafTagElsewhere(chain: Chain, path: seq<nat>, id: string)
    requires IsLeafPath(chain, path, id) && path != []
    requires id != "" && Count(chain, id) <= 1
    ensures Last(chain).tag != id
  {
    LeafPathTagged(Last(chain).branches[path[0]], path[1..], id);
    TagInOneBranch(chain, path[0], id);
    NodeTagIn(chain.nodes, |chain.nodes| - 1);
  }

  /** The policy result for the promised descent, at any nesting depth: the run of what Execute
      issues ends at GetPolicyDigest of the whole tree, and no PolicyOR is rejected. */
  lemma ExecuteReachesPolicyDigest(c: Crypto, alg: nat, env: Env, chain: Chain, id: string)
    requires c.Valid()
    requires TerminalOrs(chain) && OrSizes(chain) && ChainNames(env, chain)
    requires id != "" && Distinct(ScanTags(chain)) && id in LeafTags(chain)
    ensures Reaches(RunAll(c, alg, env, c.Zero(alg), Issue(true, c, alg, chain, id)), ChainDigest(c, alg, chain))
  {
    BranchIdsArePaths(chain, id);
    var path :| IsLeafPath(chain, path, id);
    IssueIsPath(c, alg, chain, path, id);
    PathReachesDigest(c, alg, env, chain, path, id);
  }

  /** The leaf lies under at most one PolicyOr, or some branch of the root PolicyOr has the all-zero
      digest that a session starts with. */
  predicate CompiledFits(c: Crypto, alg: nat, chain: Chain, path: seq<nat>)
    requires |chain.nodes| > 0
  {
    |path| <= 1 || (Last(chain).Or? && c.Zero(alg) in BranchDigests(c, alg, Last(chain).branches))
  }

  /** The policy result for the code as compiled: the run reaches the policy digest if and only if
      CompiledFits. Otherwise the TPM refuses the root's PolicyOR, the first command it gets. */
  lemma CompiledReachesPolicyDigestIff(
    c: Crypto, alg: nat, env: Env, chain: Chain, path: seq<nat>, id: string)
    requires c.Valid()
    requires TerminalOrs(chain) && OrSizes(chain) && ChainNames(env, chain)
    requires IsLeafPath(chain, path, id) && id != "" && Distinct(ScanTags(chain))
    ensures var r := RunAll(c, alg, env, c.Zero(alg), Issue(false, c, alg, chain, id));
            && (Reaches(r, ChainDigest(c, alg, chain)) <==> CompiledFits(c, alg, chain, path))
            && (!CompiledFits(c, alg, chain, path) ==>
                  r.accepted == [] && r.rejected == Some(CmdOr(BranchDigests(c, alg, Last(chain).branches))))
  {
    hide TerminalOrs, OrSizes, ChainNames, Issue, PathCommands, BackCommands, BranchDigests, ChainDigest, Reaches, RunAll, Count,
      ScanTags;
    OneTag(chain, id);
    CompiledIssue(c, alg, chain, path, id);
    if |path| <= 1 {
      PathReachesDigest(c, alg, env, chain, path, id);
    } else if c.Zero(alg) in BranchDigests(c, alg, Last(chain).branches) {
      var k :| 0 <= k < |Last(chain).branches| && BranchDigests(c, alg, Last(chain).branches)[k] == c.Zero(alg);
      BranchDigestAt(c, alg, Last(chain).branches, k);
      OrThenSingles(c, alg, env, chain, k);
    } else {
      RootOrRefused(c, alg, env, chain);
    }
  }

  lemma OneTag(chain: Chain, id: string)
    requires id != "" && Distinct(ScanTags(chain))
    ensures Count(chain, id) <= 1
  {}

  /** A fresh session has none of the branch digests. */
  lemma RootOrRefused(c: Crypto, alg: nat, env: Env, chain: Chain)
    requires |chain.nodes| > 0 && Last(chain).Or? && c.Zero(alg) !in BranchDigests(c, alg, Last(chain).branches)
    ensures var cmd := CmdOr(BranchDigests(c, alg, Last(chain).branches));
            var r := RunAll(c, alg, env, c.Zero(alg), BackCommands(c, alg, chain.nodes));
            r.accepted == [] && r.rejected == Some(cmd) && !Reaches(r, ChainDigest(c, alg, chain))
  {
    BackCommandsSplit(c, alg, chain.nodes);
    var cmds := BackCommands(c, alg, chain.nodes);
    assert cmds[0] == CmdOr(BranchDigests(c, alg, Last(chain).branches));
  }

  /** A PolicyOr below a branch of a PolicyOr. */
  function InnerOr(): Node {
    Or("", [Chain([Single("x", PhysicalPresence)]), Chain([Single("y", AuthValue)])])
  }

  function NestedExample(): Chain {
    Chain([Or("", [Chain([InnerOr()]), Chain([Single("z", Password)])])])
  }

  lemma NestedExampleTags()
    ensures ScanTags(NestedExample()) == ["", "", "x", "y", "z"]
  {
    var outer := Last(NestedExample());
    InnerOrTags();
    assert outer.branches[1..] == [Chain([Single("z", Password)])];
    assert ScanBranches(outer.branches[1..]) == ["z"];
    assert ScanBranches(outer.branches) == ["", "x", "y", "z"];
    assert NodeTags(NestedExample().nodes) == [""];
  }

  lemma InnerOrTags()
    ensures ScanTags(Chain([InnerOr()])) == ["", "x", "y"]
  {
    var bs := InnerOr().branches;
    assert ScanTags(bs[0]) == ["x"] && ScanTags(bs[1]) == ["y"];
    assert bs[1..] == [bs[1]] && ScanBranches(bs[1..]) == ["y"];
    assert ScanBranches(bs) == ["x", "y"];
    assert NodeTags(Chain([InnerOr()]).nodes) == [""];
  }

  lemma NestedExamplePath()
    ensures IsLeafPath(NestedExample(), [0, 0], "x")
  {
    assert [0, 0][1..] == [0] && [0][1..] == [];
    assert IsLeafPath(InnerOr().branches[0], [], "x");
    assert IsLeafPath(Chain([InnerOr()]), [0], "x");
  }

  /** As compiled, executing the leaf "x" of that tree sends nothing but the outer PolicyOR. */
  lemma NestedOrIssuesNoBranch(c: Crypto, alg: nat)
    ensures IsLeafPath(NestedExample(), [0, 0], "x") && Count(NestedExample(), "x") == 1
    ensures Issue(false, c, alg, NestedExample(), "x")
         == [CmdOr(BranchDigests(c, alg, Last(NestedExample()).branches))]
  {
    NestedExamplePath();
    NestedExampleTags();
    NestedExampleShape();
    hide IsLeafPath, TerminalOrs, PathCommands, Issue, ScanTags;
    CompiledIssue(c, alg, NestedExample(), [0, 0], "x");
    BackCommandsSplit(c, alg, NestedExample().nodes);
    assert NestedExample().nodes[..0] == [];
  }

  lemma NestedExampleShape()
    ensures TerminalOrs(NestedExample())
  {
    assert TerminalOrs(Chain([InnerOr()]));
  }

  // ---------- the tag scan ----------

  /** The left-to-right scan with an accumulated set of tags. */
  predicate ScanPasses(seen: set<string>, tags: seq<string>)
    decreases |tags|
  {
    tags == [] || ((tags[0] == "" || tags[0] !in seen) && ScanPasses(AddTag(seen, tags[0]), tags[1..]))
  }

  function AddTag(seen: set<string>, tag: string): set<string> {
    if tag == "" then seen else seen + {tag}
  }

  function AddTags(seen: set<string>, tags: seq<string>): set<string>
    decreases |tags|
  {
    if tags == [] then seen else AddTags(AddTag(seen, tags[0]), tags[1..])
  }

  lemma {:induction false} ScanAppend(seen: set<string>, a: seq<string>, b: seq<string>)
    ensures ScanPasses(seen, a + b) <==> ScanPasses(seen, a) && ScanPasses(AddTags(seen, a), b)
    ensures AddTags(seen, a + b) == AddTags(AddTags(seen, a), b)
    decreases |a|
  {
    if a == [] {
      assert a + b == b;
    } else {
      assert (a + b)[1..] == a[1..] + b;
      ScanAppend(AddTag(seen, a[0]), a[1..], b);
    }
  }

  lemma {:induction false} ScanPassesIff(seen: set<string>, tags: seq<string>)
    ensures ScanPasses(seen, tags) <==> Distinct(tags) && forall id :: id != "" && id in tags ==> id !in seen
    decreases |tags|
  {
    if tags != [] {
      var t := tags[0];
      assert tags == [t] + tags[1..];
      ScanPassesIff(AddTag(seen, t), tags[1..]);
      assert forall id :: multiset(tags)[id] == multiset(tags[1..])[id] + (if id == t then 1 else 0);
      if Distinct(tags) {
        assert Distinct(tags[1..]);
        assert t != "" ==> multiset(tags)[t] <= 1;
        assert t != "" ==> t !in tags[1..];
      }
    }
  }

  /** The accumulator-passing scan rejects a tree if and only if some non-empty tag occurs twice
      anywhere in it. */
  lemma ScanRejectsIffRepeated(chain: Chain)
    requires TerminalOrs(chain)
    ensures !ScanPasses({}, ScanTags(chain)) <==> exists id :: id != "" && multiset(AllTags(chain))[id] >= 2
  {
    ScanPassesIff({}, ScanTags(chain));
    ScanMeetsAllTags(chain);
  }
}
