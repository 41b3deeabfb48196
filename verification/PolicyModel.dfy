/** Policy assertions, policy chains and what each one adds to a policy digest: the software
    computation of TpmPolicy.cpp next to the policyDigest updates of the TPM commands
    (TPM 2.0 Library, Part 3, section 23). */
module PolicyModel {
  import opened Bytes
  import opened CryptoModel
  import opened Wrappers

  const CC_POLICY_NV := 0x149
  const CC_POLICY_SECRET := 0x151
  const CC_POLICY_SIGNED := 0x160
  const CC_POLICY_AUTHORIZE := 0x16A
  const CC_POLICY_AUTH_VALUE := 0x16B
  const CC_POLICY_COMMAND_CODE := 0x16C
  const CC_POLICY_COUNTER_TIMER := 0x16D
  const CC_POLICY_CP_HASH := 0x163
  const CC_POLICY_LOCALITY := 0x16F
  const CC_POLICY_NAME_HASH := 0x170
  const CC_POLICY_OR := 0x171
  const CC_POLICY_PCR := 0x17F
  const CC_POLICY_PHYSICAL_PRESENCE := 0x187
  const CC_POLICY_DUPLICATION_SELECT := 0x188

  /** TPMS_PCR_SELECTION. */
  datatype PcrSelection = PcrSelection(hash: nat, pcrSelect: ByteVec)

  /** A public area: its name algorithm and its marshaled form. */
  datatype Public = Public(nameAlg: nat, marshaled: ByteVec)

  /** The policy assertions other than PolicyOr, with the fields that reach a digest or a command. */
  datatype Assertion =
    | Locality(locality: byte)
    | PhysicalPresence
    | Pcr(pcrValues: seq<ByteVec>, pcrs: seq<PcrSelection>)
    | CommandCode(commandCode: nat)
    | CpHash(cpHash: ByteVec)
    | CounterTimer(operandB: ByteVec, offset: nat, operation: nat)
    | NameHash(nameHash: ByteVec)
    | AuthValue
    | Password
    | NV(nvOperandB: ByteVec, nvOffset: nat, nvOperation: nat, authHandle: nat, nvIndex: nat, nvIndexName: ByteVec)
    | Signed(publicKey: Public, cpHashA: ByteVec, policyRef: ByteVec, expiration: nat)
    | Authorize(approvedPolicy: ByteVec, authorizeRef: ByteVec, authorizingKey: Public)
    | Secret(authObject: nat, authObjectName: ByteVec, secretCpHash: ByteVec, secretRef: ByteVec, secretExpiration: nat)
    | DuplicationSelect(objectName: ByteVec, newParentName: ByteVec, includeObjectName: bool)

  /** vector<PABase*>: assertions run from the last element to the first. */
  datatype Chain = Chain(nodes: seq<Node>)

  datatype Node =
    | Single(tag: string, assertion: Assertion)
    | Or(tag: string, branches: seq<Chain>)

  /** TPM2_Policy* commands, with the parameters the TPM sees. */
  datatype Command =
    | CmdLocality(locality: byte)
    | CmdPhysicalPresence
    | CmdPcr(pcrDigest: ByteVec, pcrs: seq<PcrSelection>)
    | CmdCommandCode(commandCode: nat)
    | CmdCpHash(cpHash: ByteVec)
    | CmdCounterTimer(operandB: ByteVec, offset: nat, operation: nat)
    | CmdNameHash(nameHash: ByteVec)
    | CmdAuthValue
    | CmdPassword
    | CmdNV(authHandle: nat, nvIndex: nat, nvOperandB: ByteVec, nvOffset: nat, nvOperation: nat)
    | CmdSigned(authKey: Public, cpHashA: ByteVec, policyRef: ByteVec, expiration: nat)
    | CmdAuthorize(approvedPolicy: ByteVec, authorizeRef: ByteVec, keySign: ByteVec)
    | CmdSecret(authObject: nat, secretCpHash: ByteVec, secretRef: ByteVec, secretExpiration: nat)
    | CmdDuplicationSelect(objectName: ByteVec, newParentName: ByteVec, includeObject: byte)
    | CmdOr(hashList: seq<ByteVec>)

  // ---------- helpers shared by both sides ----------

  /** TPMT_PUBLIC::GetName: the algorithm identifier followed by the digest of the public area. */
  function GetName(c: Crypto, pub: Public): ByteVec {
    BigEndian(pub.nameAlg, 2) + c.hash(pub.nameAlg, pub.marshaled)
  }

  function MarshalSelection(s: PcrSelection): ByteVec {
    BigEndian(s.hash, 2) + BigEndian(|s.pcrSelect|, 1) + s.pcrSelect
  }

  function MarshalSelections(ss: seq<PcrSelection>): ByteVec {
    if ss == [] then [] else MarshalSelection(ss[0]) + MarshalSelections(ss[1..])
  }

  lemma {:induction false} MarshalSelectionsSnoc(ss: seq<PcrSelection>, s: PcrSelection)
    ensures MarshalSelections(ss + [s]) == MarshalSelections(ss) + MarshalSelection(s)
  {
    if ss == [] {
      assert [s][1..] == [];
      assert ss + [s] == [s];
    } else {
      assert (ss + [s])[1..] == ss[1..] + [s];
      MarshalSelectionsSnoc(ss[1..], s);
    }
  }

  // ---------- the digest computed in software ----------

  /** PABase::PolicyUpdate: two extends, the second with the policy reference. */
  function PolicyUpdate(c: Crypto, alg: nat, d: ByteVec, cc: nat, arg2: ByteVec, arg3: ByteVec): ByteVec {
    c.Extend(alg, c.Extend(alg, d, BigEndian(cc, 4) + arg2), arg3)
  }

  function OpDigest(c: Crypto, alg: nat, operandB: ByteVec, offset: nat, operation: nat): ByteVec {
    c.hash(alg, operandB + BigEndian(offset, 2) + BigEndian(operation, 2))
  }

  /** UpdatePolicyDigest of every assertion except PolicyOr. */
  function SoftUpdate(c: Crypto, alg: nat, d: ByteVec, a: Assertion): ByteVec {
    match a
    case Locality(l) => c.Extend(alg, d, BigEndian(CC_POLICY_LOCALITY, 4) + [l])
    case PhysicalPresence => c.Extend(alg, d, BigEndian(CC_POLICY_PHYSICAL_PRESENCE, 4))
    case Pcr(values, pcrs) =>
      c.Extend(alg, d, BigEndian(CC_POLICY_PCR, 4) + BigEndian(|pcrs|, 4) + MarshalSelections(pcrs)
        + c.hash(alg, Concat(values)))
    case CommandCode(cc) => c.Extend(alg, d, BigEndian(CC_POLICY_COMMAND_CODE, 4) + BigEndian(cc, 4))
    case CpHash(h) => c.Extend(alg, d, BigEndian(CC_POLICY_CP_HASH, 4) + h)
    case CounterTimer(b, off, op) =>
      c.Extend(alg, d, BigEndian(CC_POLICY_COUNTER_TIMER, 4) + OpDigest(c, alg, b, off, op))
    case NameHash(h) => c.Extend(alg, d, BigEndian(CC_POLICY_NAME_HASH, 4) + h)
    case AuthValue => c.Extend(alg, d, BigEndian(CC_POLICY_AUTH_VALUE, 4))
    case Password => c.Extend(alg, d, BigEndian(CC_POLICY_AUTH_VALUE, 4))
    case NV(b, off, op, _, _, name) =>
      c.Extend(alg, d, BigEndian(CC_POLICY_NV, 4) + OpDigest(c, alg, b, off, op) + name)
    case Signed(pub, _, ref, _) => PolicyUpdate(c, alg, d, CC_POLICY_SIGNED, GetName(c, pub), ref)
    case Authorize(_, ref, key) =>
      PolicyUpdate(c, alg, Zeros(|d|), CC_POLICY_AUTHORIZE, GetName(c, key), ref)
    case Secret(_, name, _, ref, _) => PolicyUpdate(c, alg, d, CC_POLICY_SECRET, name, ref)
    case DuplicationSelect(obj, parent, inc) =>
      c.Extend(alg, d, BigEndian(CC_POLICY_DUPLICATION_SELECT, 4) + (if inc then obj else []) + parent
        + [if inc then 1 else 0])
  }

  /** PolicyTree::GetPolicyDigest: the chain folded from its last node to its first. */
  function ChainDigest(c: Crypto, alg: nat, chain: Chain): ByteVec
    decreases chain
  {
    FoldBack(c, alg, chain.nodes, c.Zero(alg))
  }

  function FoldBack(c: Crypto, alg: nat, nodes: seq<Node>, d: ByteVec): ByteVec
    decreases nodes
  {
    if nodes == [] then d
    else FoldBack(c, alg, nodes[..|nodes| - 1], NodeDigest(c, alg, nodes[|nodes| - 1], d))
  }

  function NodeDigest(c: Crypto, alg: nat, node: Node, d: ByteVec): ByteVec
    decreases node
  {
    match node
    case Single(_, a) => SoftUpdate(c, alg, d, a)
    case Or(_, branches) =>
      c.Extend(alg, Zeros(|d|), BigEndian(CC_POLICY_OR, 4) + Concat(BranchDigests(c, alg, branches)))
  }

  function BranchDigests(c: Crypto, alg: nat, branches: seq<Chain>): (ds: seq<ByteVec>)
    ensures |ds| == |branches|
    decreases branches
  {
    if branches == [] then []
    else [ChainDigest(c, alg, branches[0])] + BranchDigests(c, alg, branches[1..])
  }

  lemma {:induction false} BranchDigestAt(c: Crypto, alg: nat, branches: seq<Chain>, k: nat)
    requires k < |branches|
    ensures BranchDigests(c, alg, branches)[k] == ChainDigest(c, alg, branches[k])
  {
    if k > 0 {
      BranchDigestAt(c, alg, branches[1..], k - 1);
    }
  }

  lemma {:induction false} BranchDigestsSnoc(c: Crypto, alg: nat, branches: seq<Chain>, b: Chain)
    ensures BranchDigests(c, alg, branches + [b]) == BranchDigests(c, alg, branches) + [ChainDigest(c, alg, b)]
  {
    if branches == [] {
      assert branches + [b] == [b] && [b][1..] == [];
    } else {
      assert (branches + [b])[1..] == branches[1..] + [b];
      BranchDigestsSnoc(c, alg, branches[1..], b);
    }
  }

  // ---------- the commands the assertions send ----------

  function CommandOf(c: Crypto, alg: nat, a: Assertion): Command {
    match a
    case Locality(l) => CmdLocality(l)
    case PhysicalPresence => CmdPhysicalPresence
    case Pcr(values, pcrs) => CmdPcr(c.hash(alg, Concat(values)), pcrs)
    case CommandCode(cc) => CmdCommandCode(cc)
    case CpHash(h) => CmdCpHash(h)
    case CounterTimer(b, off, op) => CmdCounterTimer(b, off, op)
    case NameHash(h) => CmdNameHash(h)
    case AuthValue => CmdAuthValue
    case Password => CmdPassword
    case NV(b, off, op, auth, nv, _) => CmdNV(auth, nv, b, off, op)
    case Signed(pub, cp, ref, exp) => CmdSigned(pub, cp, ref, exp)
    case Authorize(approved, ref, key) => CmdAuthorize(approved, ref, GetName(c, key))
    case Secret(obj, _, cp, ref, exp) => CmdSecret(obj, cp, ref, exp)
    case DuplicationSelect(obj, parent, inc) => CmdDuplicationSelect(obj, parent, if inc then 1 else 0)
  }

  // ---------- the TPM ----------

  /** What the TPM knows besides the session digest: the names of the entities it holds, and
      whether it accepts a command in a given session state. */
  datatype Env = Env(nameOf: nat -> ByteVec, accepts: (ByteVec, Command) -> bool)

  /** TPML_PCR_SELECTION behind its count: for each bank the algorithm in two bytes, the size of the
      bitmap in one, and the bitmap (sections 10.6 and 10.9 of Part 2). */
  function PcrBanks(pcrs: seq<PcrSelection>): ByteVec {
    if pcrs == [] then [] else
    var bank := pcrs[0];
    [(bank.hash / 0x100 % 0x100) as byte, (bank.hash % 0x100) as byte, (|bank.pcrSelect| % 0x100) as byte]
      + (bank.pcrSelect + PcrBanks(pcrs[1..]))
  }

  /** The policyDigest after a command that was accepted (Part 3, sections 23.3 to 23.17). */
  function TpmUpdate(c: Crypto, alg: nat, env: Env, d: ByteVec, cmd: Command): ByteVec {
    match cmd
    case CmdLocality(l) => c.hash(alg, d + (BigEndian(CC_POLICY_LOCALITY, 4) + [l]))
    case CmdPhysicalPresence => c.hash(alg, d + BigEndian(CC_POLICY_PHYSICAL_PRESENCE, 4))
    case CmdPcr(digest, pcrs) =>
      c.hash(alg, d + (BigEndian(CC_POLICY_PCR, 4) + BigEndian(|pcrs|, 4) + PcrBanks(pcrs) + digest))
    case CmdCommandCode(cc) => c.hash(alg, d + (BigEndian(CC_POLICY_COMMAND_CODE, 4) + BigEndian(cc, 4)))
    case CmdCpHash(h) => c.hash(alg, d + (BigEndian(CC_POLICY_CP_HASH, 4) + h))
    case CmdCounterTimer(b, off, op) =>
      var args := c.hash(alg, b + (BigEndian(off, 2) + BigEndian(op, 2)));
      c.hash(alg, d + (BigEndian(CC_POLICY_COUNTER_TIMER, 4) + args))
    case CmdNameHash(h) => c.hash(alg, d + (BigEndian(CC_POLICY_NAME_HASH, 4) + h))
    case CmdAuthValue => c.hash(alg, d + BigEndian(CC_POLICY_AUTH_VALUE, 4))
    case CmdPassword => c.hash(alg, d + BigEndian(CC_POLICY_AUTH_VALUE, 4))
    case CmdNV(_, nv, b, off, op) =>
      var args := c.hash(alg, b + (BigEndian(off, 2) + BigEndian(op, 2)));
      c.hash(alg, d + (BigEndian(CC_POLICY_NV, 4) + args + env.nameOf(nv)))
    case CmdSigned(key, _, ref, _) =>
      var name := BigEndian(key.nameAlg, 2) + c.hash(key.nameAlg, key.marshaled);
      c.hash(alg, c.hash(alg, d + (BigEndian(CC_POLICY_SIGNED, 4) + name)) + ref)
    case CmdAuthorize(_, ref, key) =>
      c.hash(alg, c.hash(alg, c.Zero(alg) + (BigEndian(CC_POLICY_AUTHORIZE, 4) + key)) + ref)
    case CmdSecret(obj, _, ref, _) =>
      c.hash(alg, c.hash(alg, d + (BigEndian(CC_POLICY_SECRET, 4) + env.nameOf(obj))) + ref)
    case CmdDuplicationSelect(obj, parent, inc) =>
      c.hash(alg, d + (BigEndian(CC_POLICY_DUPLICATION_SELECT, 4)
        + (if inc == 1 then obj + parent else parent) + [inc]))
    case CmdOr(hashList) => c.hash(alg, c.Zero(alg) + (BigEndian(CC_POLICY_OR, 4) + Concat(hashList)))
  }

  /** Whether the TPM accepts a command. PolicyOR takes two to eight digests and succeeds only
      if the session digest is one of them (Part 3, section 23.6). */
  predicate TpmAccepts(env: Env, d: ByteVec, cmd: Command) {
    match cmd
    case CmdOr(hashList) => 2 <= |hashList| <= 8 && d in hashList
    case _ => env.accepts(d, cmd)
  }

  /** A command sequence stops at the first command the TPM rejects. */
  datatype Run = Run(digest: ByteVec, accepted: seq<Command>, rejected: Option<Command>)

  function RunAll(c: Crypto, alg: nat, env: Env, d: ByteVec, cmds: seq<Command>): Run
    decreases |cmds|
  {
    if cmds == [] then Run(d, [], None)
    else if !TpmAccepts(env, d, cmds[0]) then Run(d, [], Some(cmds[0]))
    else
      var rest := RunAll(c, alg, env, TpmUpdate(c, alg, env, d, cmds[0]), cmds[1..]);
      Run(rest.digest, [cmds[0]] + rest.accepted, rest.rejected)
  }

  /** The entity names recorded in an assertion are the ones the TPM has. */
  predicate NamesAgree(env: Env, a: Assertion) {
    match a
    case NV(_, _, _, _, nv, name) => name == env.nameOf(nv)
    case Secret(obj, name, _, _, _) => name == env.nameOf(obj)
    case _ => true
  }

  /** One assertion: the software update is what the TPM does on the command it sends. */
  lemma AssertionRefines(c: Crypto, alg: nat, env: Env, d: ByteVec, a: Assertion)
    requires c.Valid() && |d| == c.hashLen(alg) && NamesAgree(env, a)
    ensures TpmUpdate(c, alg, env, d, CommandOf(c, alg, a)) == SoftUpdate(c, alg, d, a)
    ensures |SoftUpdate(c, alg, d, a)| == c.hashLen(alg)
  {
    hide BigEndian, PcrBanks, MarshalSelections;
    match a
    case DuplicationSelect(obj, parent, inc) =>
      DuplicationTexts(BigEndian(CC_POLICY_DUPLICATION_SELECT, 4), obj, parent);
    case Pcr(_, pcrs) =>
      BanksAreSelections(pcrs);
    case CounterTimer(b, off, op) =>
      assert b + (BigEndian(off, 2) + BigEndian(op, 2)) == b + BigEndian(off, 2) + BigEndian(op, 2);
    case NV(b, off, op, _, _, _) =>
      assert b + (BigEndian(off, 2) + BigEndian(op, 2)) == b + BigEndian(off, 2) + BigEndian(op, 2);
    case _ =>
  }

  lemma {:induction false} BanksAreSelections(pcrs: seq<PcrSelection>)
    ensures PcrBanks(pcrs) == MarshalSelections(pcrs)
  {
    if pcrs != [] {
      BanksAreSelections(pcrs[1..]);
      BankIsSelection(pcrs[0]);
      var bank := pcrs[0];
      var head := BigEndian(bank.hash, 2) + BigEndian(|bank.pcrSelect|, 1);
      assert head + (bank.pcrSelect + MarshalSelections(pcrs[1..])) == head + bank.pcrSelect + MarshalSelections(pcrs[1..]);
    }
  }

  lemma BankIsSelection(bank: PcrSelection)
    ensures BigEndian(bank.hash, 2) + BigEndian(|bank.pcrSelect|, 1)
         == [(bank.hash / 0x100 % 0x100) as byte, (bank.hash % 0x100) as byte, (|bank.pcrSelect| % 0x100) as byte]
  {
    assert BigEndian(bank.hash / 0x100 / 0x100, 0) == [];
    assert BigEndian(bank.hash / 0x100, 1) == [(bank.hash / 0x100 % 0x100) as byte];
    assert BigEndian(|bank.pcrSelect| / 0x100, 0) == [];
  }

  /** The parameters that reach no digest are the assertion's as well. */
  lemma CommandCarries(c: Crypto, alg: nat, a: Assertion)
    ensures match (a, CommandOf(c, alg, a))
            case (NV(_, _, _, auth, _, _), CmdNV(authHandle, _, _, _, _)) => authHandle == auth
            case (Signed(_, cp, _, exp), CmdSigned(_, cpHashA, _, expiration)) => cpHashA == cp && expiration == exp
            case (Authorize(approved, _, key), CmdAuthorize(approvedPolicy, _, keySign)) =>
              approvedPolicy == approved && keySign == BigEndian(key.nameAlg, 2) + c.hash(key.nameAlg, key.marshaled)
            case (Secret(_, _, cp, _, exp), CmdSecret(_, secretCpHash, _, secretExpiration)) =>
              secretCpHash == cp && secretExpiration == exp
            case (Password, cmd) => cmd == CmdPassword
            case (AuthValue, cmd) => cmd == CmdAuthValue
            case (_, cmd) => !cmd.CmdNV? && !cmd.CmdSigned? && !cmd.CmdAuthorize? && !cmd.CmdSecret? && !cmd.CmdPassword? && !cmd.CmdAuthValue?
  {}

  lemma DuplicationTexts(head: ByteVec, obj: ByteVec, parent: ByteVec)
    ensures head + (obj + parent) + [1] == head + obj + parent + [1]
    ensures head + parent + [0] == head + [] + parent + [0]
  {}
}
