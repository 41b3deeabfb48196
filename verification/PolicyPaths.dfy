/** Tags, branch identifiers and leaf paths of a policy tree, and the commands that
    PolicyTree::Execute issues for one branch identifier. */
module PolicyPaths {
  import opened Bytes
  import opened CryptoModel
  import opened PolicyModel

  // ---------- shape of a policy ----------

  /** Every chain has an element: the code takes chain.back() without a check. */
  predicate NonEmpty(chain: Chain)
    decreases chain
  {
    |chain.nodes| > 0 && forall i | 0 <= i < |chain.nodes| :: NonEmptyNode(chain.nodes[i])
  }

  predicate NonEmptyNode(node: Node)
    decreases node
  {
    node.Or? ==> forall k | 0 <= k < |node.branches| :: NonEmpty(node.branches[k])
  }

  function Last(chain: Chain): Node
    requires |chain.nodes| > 0
  {
    chain.nodes[|chain.nodes| - 1]
  }

  /** PolicyOr occurs only as the last element of a chain, at every level. */
  predicate TerminalOrs(chain: Chain)
    decreases chain
  {
    && (forall i | 0 <= i < |chain.nodes| - 1 :: chain.nodes[i].Single?)
    && (|chain.nodes| > 0 && Last(chain).Or? ==>
          forall k | 0 <= k < |Last(chain).branches| :: TerminalOrs(Last(chain).branches[k]))
  }

  /** Every PolicyOr has two to eight branches, as the PolicyOR command demands. */
  predicate OrSizes(chain: Chain)
    decreases chain
  {
    |chain.nodes| > 0 && Last(chain).Or? ==>
      && 2 <= |Last(chain).branches| <= 8
      && forall k | 0 <= k < |Last(chain).branches| :: OrSizes(Last(chain).branches[k])
  }

  /** The entity names recorded anywhere in the chain are the TPM's. */
  predicate ChainNames(env: Env, chain: Chain)
    decreases chain
  {
    forall i | 0 <= i < |chain.nodes| :: NodeNames(env, chain.nodes[i])
  }

  predicate NodeNames(env: Env, node: Node)
    decreases node
  {
    match node
    case Single(_, a) => NamesAgree(env, a)
    case Or(_, branches) => forall k | 0 <= k < |branches| :: ChainNames(env, branches[k])
  }

  // ---------- tags ----------

  function NodeTags(nodes: seq<Node>): seq<string> {
    if nodes == [] then [] else [nodes[0].tag] + NodeTags(nodes[1..])
  }

  /** The tags in the order the scan meets them: a chain's own, then those of its last PolicyOr. */
  function ScanTags(chain: Chain): seq<string>
    decreases chain
  {
    if chain.nodes == [] then []
    else NodeTags(chain.nodes) + (if Last(chain).Or? then ScanBranches(Last(chain).branches) else [])
  }

  function ScanBranches(branches: seq<Chain>): seq<string>
    decreases branches
  {
    if branches == [] then [] else ScanTags(branches[0]) + ScanBranches(branches[1..])
  }

  /** The tags of every node anywhere in the tree, in depth-first order. */
  function AllTags(chain: Chain): seq<string>
    decreases chain
  {
    AllNodeTags(chain.nodes)
  }

  function AllNodeTags(nodes: seq<Node>): seq<string>
    decreases nodes
  {
    if nodes == [] then []
    else [nodes[0].tag] + (if nodes[0].Or? then AllBranchTags(nodes[0].branches) else []) + AllNodeTags(nodes[1..])
  }

  function AllBranchTags(branches: seq<Chain>): seq<string>
    decreases branches
  {
    if branches == [] then [] else AllTags(branches[0]) + AllBranchTags(branches[1..])
  }

  /** The branch identifiers: the tags of the leaves, left to right. */
  function LeafTags(chain: Chain): seq<string>
    decreases chain
  {
    if chain.nodes == [] then []
    else if Last(chain).Or? then LeafBranches(Last(chain).branches)
    else [Last(chain).tag]
  }

  function LeafBranches(branches: seq<Chain>): seq<string>
    decreases branches
  {
    if branches == [] then [] else LeafTags(branches[0]) + LeafBranches(branches[1..])
  }

  /** No non-empty tag occurs twice. */
  ghost predicate Distinct(tags: seq<string>) {
    forall id :: id != "" ==> multiset(tags)[id] <= 1
  }

  /** In a tree whose PolicyOrs are terminal the scan meets exactly the tags of all nodes. */
  lemma {:induction false} ScanMeetsAllTags(chain: Chain)
    requires TerminalOrs(chain)
    ensures multiset(ScanTags(chain)) == multiset(AllTags(chain))
    decreases chain
  {
    if chain.nodes != [] {
      var n := |chain.nodes|;
      var last := Last(chain);
      SinglesThenLast(chain.nodes);
      if last.Or? {
        ScanBranchesMeetAll(last.branches);
      }
    }
  }

  lemma {:induction false} ScanBranchesMeetAll(branches: seq<Chain>)
    requires forall k | 0 <= k < |branches| :: TerminalOrs(branches[k])
    ensures multiset(ScanBranches(branches)) == multiset(AllBranchTags(branches))
    decreases branches
  {
    if branches != [] {
      ScanMeetsAllTags(branches[0]);
      ScanBranchesMeetAll(branches[1..]);
    }
  }

  lemma {:induction false} SinglesThenLast(nodes: seq<Node>)
    requires |nodes| > 0
    requires forall i | 0 <= i < |nodes| - 1 :: nodes[i].Single?
    ensures var last := nodes[|nodes| - 1];
            multiset(AllNodeTags(nodes))
            == multiset(NodeTags(nodes)) + multiset(if last.Or? then AllBranchTags(last.branches) else [])
  {
    hide AllBranchTags, AllNodeTags, NodeTags;
    var first, rest, last := nodes[0], nodes[1..], nodes[|nodes| - 1];
    var below := if last.Or? then AllBranchTags(last.branches) else [];
    AllNodeTagsStep(nodes);
    NodeTagsStep(nodes);
    if rest == [] {
      NoNodeTags();
      Regroup(multiset([first.tag]), multiset{}, multiset(below));
    } else {
      SinglesThenLast(rest);
      Regroup(multiset([first.tag]), multiset(NodeTags(rest)), multiset(below));
    }
  }

  lemma NoNodeTags()
    ensures AllNodeTags([]) == NodeTags([]) == []
  {}

  lemma AllNodeTagsStep(nodes: seq<Node>)
    requires nodes != []
    ensures var below := if nodes[0].Or? then AllBranchTags(nodes[0].branches) else [];
            multiset(AllNodeTags(nodes)) == multiset([nodes[0].tag]) + multiset(below) + multiset(AllNodeTags(nodes[1..]))
  {
    hide AllBranchTags;
  }

  lemma NodeTagsStep(nodes: seq<Node>)
    requires nodes != []
    ensures multiset(NodeTags(nodes)) == multiset([nodes[0].tag]) + multiset(NodeTags(nodes[1..]))
  {}

  lemma Regroup(a: multiset<string>, b: multiset<string>, c: multiset<string>)
    ensures a + multiset{} + (b + c) == (a + b) + c && a + c + b == (a + b) + c
  {}

  // ---------- leaf paths ----------

  /** `path` picks one branch of each PolicyOr on the way down to the leaf tagged `id`. */
  predicate IsLeafPath(chain: Chain, path: seq<nat>, id: string)
    decreases |path|
  {
    && |chain.nodes| > 0
    && if path == [] then Last(chain).Single? && Last(chain).tag == id
       else
         && Last(chain).Or?
         && path[0] < |Last(chain).branches|
         && IsLeafPath(Last(chain).branches[path[0]], path[1..], id)
  }

  lemma {:induction false} NodeTagIn(nodes: seq<Node>, i: nat)
    requires i < |nodes|
    ensures nodes[i].tag in NodeTags(nodes)
  {
    if i > 0 {
      NodeTagIn(nodes[1..], i - 1);
    }
  }

  /** How often a tag occurs among the scanned tags. */
  ghost function Count(chain: Chain, id: string): nat {
    multiset(ScanTags(chain))[id]
  }

  ghost function CountIn(branches: seq<Chain>, id: string): nat {
    multiset(ScanBranches(branches))[id]
  }

  lemma CountInSplit(branches: seq<Chain>, id: string)
    requires branches != []
    ensures CountIn(branches, id) == Count(branches[0], id) + CountIn(branches[1..], id)
  {
    hide ScanTags;
    assert multiset(ScanBranches(branches)) == multiset(ScanTags(branches[0])) + multiset(ScanBranches(branches[1..]));
  }

  lemma {:induction false} BranchTagsIn(branches: seq<Chain>, k: nat, id: string)
    requires k < |branches|
    ensures CountIn(branches, id) >= Count(branches[k], id)
    decreases k
  {
    hide Count, CountIn;
    CountInSplit(branches, id);
    if k > 0 {
      BranchTagsIn(branches[1..], k - 1, id);
    }
  }

  lemma {:induction false} TwoBranchesCount(branches: seq<Chain>, j: nat, k: nat, bj: Chain, bk: Chain, id: string)
    requires j < k < |branches| && branches[j] == bj && branches[k] == bk
    ensures CountIn(branches, id) >= Count(bj, id) + Count(bk, id)
    decreases j
  {
    hide Count, CountIn;
    CountInSplit(branches, id);
    if j > 0 {
      TwoBranchesCount(branches[1..], j - 1, k - 1, bj, bk, id);
    } else {
      BranchTagsIn(branches[1..], k - 1, id);
    }
  }

  lemma {:induction false} LeafPathTagged(chain: Chain, path: seq<nat>, id: string)
    requires IsLeafPath(chain, path, id)
    ensures id in ScanTags(chain)
    decreases |path|
  {
    if path == [] {
      NodeTagIn(chain.nodes, |chain.nodes| - 1);
    } else {
      var branches := Last(chain).branches;
      LeafPathTagged(branches[path[0]], path[1..], id);
      BranchTagsIn(branches, path[0], id);
      assert Count(branches[path[0]], id) > 0;
    }
  }

  /** A tag found in one branch is found neither in the chain itself nor in another branch. */
  lemma TagInOneBranch(chain: Chain, k: nat, id: string)
    requires |chain.nodes| > 0 && Last(chain).Or? && k < |Last(chain).branches|
    requires id != "" && Count(chain, id) <= 1
    requires id in ScanTags(Last(chain).branches[k])
    ensures id !in NodeTags(chain.nodes)
    ensures forall j | 0 <= j < |Last(chain).branches| && j != k :: id !in ScanTags(Last(chain).branches[j])
    ensures Count(Last(chain).branches[k], id) <= 1
  {
    var branches := Last(chain).branches;
    BranchTagsIn(branches, k, id);
    assert Count(chain, id) == multiset(NodeTags(chain.nodes))[id] + CountIn(branches, id);
    assert Count(branches[k], id) > 0;
    forall j | 0 <= j < |branches| && j != k
      ensures id !in ScanTags(branches[j])
    {
      if j < k {
        TwoBranchesCount(branches, j, k, branches[j], branches[k], id);
      } else {
        TwoBranchesCount(branches, k, j, branches[k], branches[j], id);
      }
      assert Count(branches[j], id) == 0;
    }
  }

  /** With unique tags a branch identifier names one leaf: one branch of each PolicyOr on its way. */
  lemma {:induction false} LeafPathUnique(chain: Chain, p: seq<nat>, q: seq<nat>, id: string)
    requires id != "" && Count(chain, id) <= 1
    requires IsLeafPath(chain, p, id) && IsLeafPath(chain, q, id)
    ensures p == q
    decreases |p|
  {
    hide Count, ScanTags, NodeTags;
    if p != [] {
      var branches := Last(chain).branches;
      LeafPathTagged(branches[p[0]], p[1..], id);
      LeafPathTagged(branches[q[0]], q[1..], id);
      TagInOneBranch(chain, p[0], id);
      assert p[0] == q[0];
      LeafPathUnique(branches[p[0]], p[1..], q[1..], id);
      assert p == [p[0]] + p[1..] && q == [q[0]] + q[1..];
    }
  }

  /** A leaf path ends in a leaf. */
  lemma {:induction false} PathEndsInLeaf(chain: Chain, path: seq<nat>, id: string)
    requires IsLeafPath(chain, path, id)
    ensures id in LeafTags(chain)
    decreases |path|
  {
    if path != [] {
      var branches := Last(chain).branches;
      PathEndsInLeaf(branches[path[0]], path[1..], id);
      LeafOfBranch(branches, path[0], id);
    }
  }

  lemma {:induction false} LeafOfBranch(branches: seq<Chain>, k: nat, id: string)
    requires k < |branches| && id in LeafTags(branches[k])
    ensures id in LeafBranches(branches)
    decreases k
  {
    hide LeafTags;
    if k > 0 {
      LeafOfBranch(branches[1..], k - 1, id);
    }
  }

  /** A path to a leaf. */
  lemma {:induction false} LeafHasPath(chain: Chain, id: string) returns (path: seq<nat>)
    requires id in LeafTags(chain)
    ensures IsLeafPath(chain, path, id)
    decreases chain
  {
    path := [];
    if Last(chain).Or? {
      var k := BranchOfLeaf(Last(chain).branches, id);
      var p := LeafHasPath(Last(chain).branches[k], id);
      path := [k] + p;
      assert path[1..] == p;
    }
  }

  lemma {:induction false} BranchOfLeaf(branches: seq<Chain>, id: string) returns (k: nat)
    requires id in LeafBranches(branches)
    ensures k < |branches| && id in LeafTags(branches[k])
    decreases |branches|
  {
    hide LeafTags;
    k := 0;
    if id !in LeafTags(branches[0]) {
      var rest := BranchOfLeaf(branches[1..], id);
      k := rest + 1;
    }
  }

  /** The branch identifiers are exactly the tags that some leaf path ends in. */
  lemma BranchIdsArePaths(chain: Chain, id: string)
    ensures id in LeafTags(chain) <==> exists path :: IsLeafPath(chain, path, id)
  {
    hide LeafTags, IsLeafPath;
    if id in LeafTags(chain) {
      var path := LeafHasPath(chain, id);
      assert IsLeafPath(chain, path, id);
    }
    forall path | IsLeafPath(chain, path, id)
      ensures id in LeafTags(chain)
    {
      PathEndsInLeaf(chain, path, id);
    }
  }

  // ---------- issued commands ----------

  /** PolicyTree::ChainContainsBranch. As compiled the type test compares pointer types and never
      holds, so the descent into a PolicyOr is dead (`descend` false); with the descent that the
      comment above it announces, `descend` is true. */
  predicate Contains(descend: bool, chain: Chain, id: string)
    decreases chain
  {
    && |chain.nodes| > 0
    && (id == Last(chain).tag
        || (descend && Last(chain).Or? && AnyContains(descend, Last(chain).branches, id)))
  }

  predicate AnyContains(descend: bool, branches: seq<Chain>, id: string)
    decreases branches
  {
    branches != [] && (Contains(descend, branches[0], id) || AnyContains(descend, branches[1..], id))
  }

  /** The commands PolicyTree::Execute sends for a chain if the TPM rejects none of them. */
  function Issue(descend: bool, c: Crypto, alg: nat, chain: Chain, id: string): seq<Command>
    decreases chain
  {
    IssueNodes(descend, c, alg, chain.nodes, id)
  }

  function IssueNodes(descend: bool, c: Crypto, alg: nat, nodes: seq<Node>, id: string): seq<Command>
    decreases nodes
  {
    if nodes == [] then []
    else IssueNode(descend, c, alg, nodes[|nodes| - 1], id) + IssueNodes(descend, c, alg, nodes[..|nodes| - 1], id)
  }

  function IssueNode(descend: bool, c: Crypto, alg: nat, node: Node, id: string): seq<Command>
    decreases node, 0
  {
    (if node.Or? then IssueBranches(descend, c, alg, node.branches, id) else []) + [NodeCommand(c, alg, node)]
  }

  function IssueBranches(descend: bool, c: Crypto, alg: nat, branches: seq<Chain>, id: string): seq<Command>
    decreases branches
  {
    if branches == [] then [] else
    var first := if Contains(descend, branches[0], id) then Issue(descend, c, alg, branches[0], id) else [];
    first + IssueBranches(descend, c, alg, branches[1..], id)
  }

  /** The single command that executing a node itself sends. */
  function NodeCommand(c: Crypto, alg: nat, node: Node): Command {
    match node
    case Single(_, a) => CommandOf(c, alg, a)
    case Or(_, branches) => CmdOr(BranchDigests(c, alg, branches))
  }

  /** The commands of a chain's own nodes, last to first. */
  function BackCommands(c: Crypto, alg: nat, nodes: seq<Node>): seq<Command> {
    if nodes == [] then []
    else [NodeCommand(c, alg, nodes[|nodes| - 1])] + BackCommands(c, alg, nodes[..|nodes| - 1])
  }

  /** The assertions on a leaf path from the leaf up to the root, each once. */
  function PathCommands(c: Crypto, alg: nat, chain: Chain, path: seq<nat>, id: string): seq<Command>
    requires IsLeafPath(chain, path, id)
    decreases |path|
  {
    (if path == [] then [] else PathCommands(c, alg, Last(chain).branches[path[0]], path[1..], id))
      + BackCommands(c, alg, chain.nodes)
  }
}
