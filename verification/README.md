# Models and proofs for TSS.CPP and PCPTool

This Dafny project models five linked parts of the TPM software stack TSS.CPP and of PCPTool, and
proves what they are for. Hash, HMAC, KDFa and the block cipher are uninterpreted functions
(`CryptoModel.dfy`). Of the cipher it is used that decryption undoes encryption and that both keep the
length; of the hashes only their lengths.

1. **Policy trees** (`Policy*.dfy`). The software digest of a policy (`GetPolicyDigest`) and the
   session digest left by executing one of its branches agree. The TPM is a step model: a session
   digest starts at zero, every policy command extends it, and PolicyOR succeeds only if the current
   digest is in its list (section 23.6 of Part 3 of the TPM 2.0 Library). `PolicyTree.dfy` has the
   classes and loops, `PolicyModel.dfy` the specification, `PolicyPaths.dfy` and `PolicyTheorems.dfy`
   the proofs.
2. **Command dispatch and sessions** (`Command*.dfy`, `Session*.dfy`, `AuthSessions.dfy`,
   `Dispatch*.dfy`, `ResponseCodes.dfy`, `HonestTpm.dfy`, `Tpm2.dfy`). `DispatchSpec.dfy` describes the two phases of a
   dispatch as steps on values; the class `Tpm2` in `Tpm2.dfy`, with its buffers patched in place and
   its session pointers, is proved to make exactly these steps. Against an honest TPM that follows
   sections 19.6 and 21 of Part 1 of the TPM 2.0 Library, whole runs stay in step (`SessionRuns.dfy`);
   where the code does not, the exact condition is proved (`SessionEncryption.dfy`,
   `SessionLimits.dfy`), with concrete failures in `SessionWitnesses.dfy`. `DispatchHistory.dfy` and
   `LeftoverSession.dfy` are about arbitrary responses: the mirrored hierarchy auth values, the
   command audit digest, and the session that EncSession still points to.
3. **Text serializers** (`TextSerializer.dfy`, `Json*.dfy`, `PlainText*.dfy`, `HexText.dfy`,
   `Enum*.dfy`). The stateful printers and parsers undo each other. `JsonText.dfy` and
   `PlainText.dfy` are the specification, the `*Serializer.dfy` files the classes, the
   `*RoundTrip.dfy` files the proofs.
4. **Wire marshalling** (`TpmBuffer.dfy`, `Wire*.dfy`). The position-carrying buffer with
   back-patched sizes, and round trips for nested values.
5. **Measured-boot log** (`Wbcl*.dfy`, `SipaWalk.dfy`, `SoftPcr*.dfy`). The iterator over a
   crypto-agile log (section 10.2.2 of the TCG PC Client Platform Firmware Profile 1.05)
   or one in the SHA-1 format before it, the recursive walk over TLV records, and the replay into
   software PCRs. `PcrSelection.dfy` has the PCR bitmaps.

`dafny verify dfyconfig.toml` checks the whole project.

## Where the code does not do what its documentation says

- `ChainContainsBranch` and the terminal-PolicyOr test apply `typeid` to pointers
  (TpmPolicy.cpp:117, 143), so neither test ever fires. The comment at line 114 promises a descent.
  Members that depend on it take a flag `descend`: true is the promise, false the code as compiled.
  The results as compiled are `CompiledIssue` and `CompiledReachesPolicyDigestIff`.
  A PolicyOr before the end of a chain is let through and not scanned (`MidChainOrUnscanned`,
  `MidChainOrTaken`).
- `SetTree` adds the tag "leaf" after its check, so `Execute` can refuse a tree that `SetTree`
  accepted (`LeafTagClash`, `LeafTagRefused`).
- The response HMAC uses the first handle of the command even if that handle needs no authorization
  (Tpm2.cpp:203 against 135), does not notice that TPM2_Clear emptied the auth value that authorized
  it, and treats an entity as bound after its auth value changed. `ResponseKeysAgreeIff` and
  `ResponseVerdict` give the exact condition; `HandleWithoutAuthorization`, `ClearByLockout` and
  `BoundAuthChanged` are instances.
- UpdateRequestHandles overwrites the auth value of the handle in the request that is sent again after
  RETRY (Tpm2.cpp:516-522). For NV_ChangeAuth the TPM then refuses the next attempt, unless the auth
  value does not change or the session is bound to the index (`RetryVerdict`, `NvRetryRefused`).
- A command that succeeds although an error was demanded or expected leaves the session one nonce
  behind (`UnexpectedSuccessDesyncs`).
- Parameter encryption leaves the auth value of the authorized entity out of its key, and always asks
  KDFa for 256 bits, which is right for 128-bit keys only (TpmAuthSessions.cpp:169); the mask test on
  the key size lets 0 and 384 bits through (line 161). `XcryptKeysAgreeIff` gives the exact condition
  under which both sides have the same key, `NewAuthGarbled` a concrete failure.
- Encrypting a request clears EncSession, so a session with both attributes does not decrypt the
  response (Tpm2.cpp:774, `BothDirectionsDelivered`, `ResponseNotDecrypted`).
- The comment at Tpm2.cpp:727 puts the nonces of further encrypting sessions into the HMAC of the first
  session; the code puts them into that of every session (line 148, `EntryText`).
- A policy session whose policy asks for neither HMAC nor password repeats the hmac field of the entry
  before it, because the structure is declared outside the loop (Tpm2.cpp:112, `PolicyEntry`).
- EncSession is not cleared by a captured command, an error or an exception, nor by a command without
  sessions (Tpm2.cpp:277-302). Such a command can then have its plain response "decrypted"
  (`StepLeaves`, `HandedOverUnchangedIff`, `PlainResponseGarbled`).
- `WbclGetDigestSize` returns 20 for an algorithm that is not in the table; its comment says 0.
- After the end of the log `WbclApiMoveToNextElement` returns S_FALSE once and S_OK from then on
  (`EndIsSticky`).
- The element size of the log is a 32-bit sum; when it wraps, the data of an accepted element reach
  beyond the element (`DataEndsElement`, `WrappedElement`).
- A plain-text line that is already over the limit is never broken, because the difference is
  unsigned (`OverlongLineStays`).

## Model

| member | source | states |
|---|---|---|
| `PolicyModel.AssertionRefines` | TSS.CPP/Src/TpmPolicy.cpp:239-250 | For every assertion kind, the software update of the digest is what the TPM does to its session digest on the command the assertion sends, with its own encoding of PCR selections, operands and key names (Parts 2 and 3 of the TPM 2.0 Library), as long as the entity names recorded in the assertion are the TPM's. |
| `PolicyModel.CommandCarries` | TSS.CPP/Src/TpmPolicy.cpp:416-560 | The parameters of a policy command that reach no digest are the assertion's: cpHash, expiration, approved policy, authorizing handle and the name of the signing key. |
| `PolicyModel.BranchDigestAt` | TSS.CPP/Src/TpmPolicy.cpp:268-289 | The digest list that PolicyOr hashes and the one it sends hold, at each index, the digest of that branch. |
| `PolicyPaths.ScanMeetsAllTags` | TSS.CPP/Src/TpmPolicy.cpp:135-166 | In a tree with terminal PolicyOrs the tag scan meets exactly the tags of all nodes, each as often as it occurs. |
| `PolicyPaths.TagInOneBranch` | TSS.CPP/Src/TpmPolicy.cpp:204-221 | With unique tags a tag found in one branch of a PolicyOr is neither on the chain itself nor in any other branch. |
| `PolicyPaths.LeafPathUnique` | TSS.CPP/Src/TpmPolicy.cpp:206-221 | With unique tags a branch id names exactly one leaf: one branch at each PolicyOr on the way. |
| `PolicyPaths.BranchIdsArePaths` | TSS.CPP/Src/TpmPolicy.cpp:127-166 | The collected branch ids are exactly the tags in which some path through the PolicyOrs ends. |
| `PolicyTheorems.PathReachesDigest` | TSS.CPP/Src/TpmPolicy.cpp:173-224 | Running the assertions of any one path from leaf to root on a fresh session either stops at a non-OR command the TPM refused, or every PolicyOR was accepted and the session digest is the digest of the whole tree. |
| `PolicyTheorems.OrAccepted` | TSS.CPP/Src/TpmPolicy.cpp:268-289 | With 2 to 8 branches, PolicyOR is accepted after any one of its branches, and whatever the accumulator held, the TPM's result is the software digest of the node. |
| `PolicyTheorems.IssueIsPath` | TSS.CPP/Src/TpmPolicy.cpp:204-224 | With the promised descent and unique tags, Execute issues exactly the assertions on the path of the branch id, from leaf to root, each once and in order. |
| `PolicyTheorems.CompiledIssue` | TSS.CPP/Src/TpmPolicy.cpp:109-125 | As compiled (the typeid test on a pointer never fires) that holds if and only if the leaf lies under at most one PolicyOr; otherwise no branch is entered at all. |
| `PolicyTheorems.ExecuteReachesPolicyDigest` | TSS.CPP/Src/TpmPolicy.cpp:168-224 | For every tree with terminal PolicyOrs of 2 to 8 branches and unique tags, and every leaf id, what Execute issues ends at GetPolicyDigest of the whole tree with no PolicyOR refused, whichever branch is chosen. |
| `PolicyTheorems.CompiledReachesPolicyDigestIff` | TSS.CPP/Src/TpmPolicy.cpp:109-224 | For the code as compiled the run reaches the policy digest if and only if the leaf lies under at most one PolicyOr or some branch of the root's PolicyOr has the all-zero digest; otherwise the TPM refuses the root's PolicyOR, the first command it gets. |
| `PolicyTheorems.NestedOrIssuesNoBranch` | TSS.CPP/Src/TpmPolicy.cpp:109-125 | A concrete tree with nested PolicyOrs for which the compiled code sends nothing but the outer PolicyOR. |
| `PolicyTheorems.ScanPassesIff` | TSS.CPP/Src/TpmPolicy.cpp:141-153 | The scan with an accumulator passes if and only if the non-empty tags are distinct and none was seen before. |
| `PolicyTheorems.ScanRejectsIffRepeated` | TSS.CPP/Src/TpmPolicy.cpp:135-166 | The scan rejects a tree if and only if some non-empty tag occurs at least twice anywhere in it. |
| `PolicyTrees.TpmHash.constructor` | TSS.CPP/Src/TpmTypeExtensions.cpp:466-472 | A new accumulator holds as many zero bytes as the hash is long. |
| `PolicyTrees.TpmHash.Extend` | TSS.CPP/Src/TpmTypeExtensions.cpp:496-502 | The digest becomes the hash of itself followed by the argument. |
| `PolicyTrees.TpmHash.Reset` | TSS.CPP/Src/TpmTypeExtensions.cpp:512-517 | All bytes become zero and the length stays. |
| `PolicyTrees.PolicyDevice.Send` | TSS.CPP/Src/TpmPolicy.cpp:222-222 | The device runs one more command as the step model of the TPM says, and remembers a refusal. |
| `PolicyTrees.UpdateSingle` | TSS.CPP/Src/TpmPolicy.cpp:239-263 | Every buffer-filling UpdatePolicyDigest leaves the specified software digest in the accumulator. |
| `PolicyTrees.ExtendWith` | TSS.CPP/Src/TpmPolicy.cpp:333-339 | One extend by command code and argument. |
| `PolicyTrees.UpdateTwice` | TSS.CPP/Src/TpmPolicy.cpp:226-234 | PolicyUpdate extends twice: by command code and first argument, then by the second. |
| `PolicyTrees.UpdatePcr` | TSS.CPP/Src/TpmPolicy.cpp:312-323 | The PCR assertion hashes count, selections and the hash of the PCR values. |
| `PolicyTrees.UpdateDuplicationSelect` | TSS.CPP/Src/TpmPolicy.cpp:565-574 | The object name takes part only if it is included. |
| `PolicyTrees.HashPcrs` | TSS.CPP/Src/TpmHelpers.cpp:177-184 | The hash of the PCR values one after another. |
| `PolicyTrees.UpdatePolicyDigest` | TSS.CPP/Src/TpmPolicy.cpp:268-277 | Updating the accumulator by any node, PolicyOrs over nested trees included, leaves that node's digest. |
| `PolicyTrees.GetBranchDigests` | TSS.CPP/Src/TpmPolicy.cpp:279-289 | The digests of all branches, in order. |
| `PolicyTrees.GetPolicyDigest` | TSS.CPP/Src/TpmPolicy.cpp:173-181 | The backward loop computes the digest of the chain. |
| `PolicyTrees.TagScan.GetBranchIdsInternal` | TSS.CPP/Src/TpmPolicy.cpp:135-166 | Throws exactly when a tag repeats with respect to what was seen before; otherwise adds the scanned tags and appends the leaf tags in order. |
| `PolicyTrees.ChainContainsBranch` | TSS.CPP/Src/TpmPolicy.cpp:109-125 | Finds an id in the chain's end or, when it descends, below it. |
| `PolicyTrees.PolicyTree.SetTree` | TSS.CPP/Src/TpmPolicy.cpp:12-32 | Refuses exactly the trees with a repeated tag and then keeps the old policy; otherwise takes the tree, with the tag "leaf" on an untagged last assertion. |
| `PolicyTrees.PolicyTree.Execute` | TSS.CPP/Src/TpmPolicy.cpp:183-202 | Which of the checks fails and when; no command is sent unless all pass, and then exactly the issued sequence up to the first refusal. |
| `PolicyTrees.ExecuteChain` | TSS.CPP/Src/TpmPolicy.cpp:204-224 | The recursive backward loop runs exactly the specified command sequence on the device. |
| `PolicyTrees.ExecuteSelf` | TSS.CPP/Src/TpmPolicy.cpp:411-434 | An assertion sends its one command; PolicyAuthValue and PolicyPassword mark the session. |
| `PolicyTrees.ExecuteMatchesDigest` | TSS.CPP/Src/TpmPolicy.cpp:168-224 | Running both halves of the class on one tree: with the promised descent, or as compiled on a leaf that CompiledFits admits (at most one PolicyOr above it, or an all-zero branch digest at the root), session digest and software digest are equal unless the TPM refuses a command other than PolicyOR; as compiled on any other leaf Execute fails at a PolicyOR. |
| `PolicyTrees.LeafTagClash` | TSS.CPP/Src/TpmPolicy.cpp:26-31 | The added tag "leaf" makes Execute refuse a tree that SetTree accepted exactly when the tree already uses that tag. |
| `PolicyTrees.LeafTagRefused` | TSS.CPP/Src/TpmPolicy.cpp:12-202 | A concrete tree that SetTree takes and Execute then refuses for a repeated tag. |
| `PolicyTrees.MidChainOrUnscanned` | TSS.CPP/Src/TpmPolicy.cpp:141-166 | A PolicyOr before the end of a chain is let through, and the scan meets the same tags and leaf tags whatever is below it. |
| `PolicyTrees.MidChainOrTaken` | TSS.CPP/Src/TpmPolicy.cpp:12-224 | A concrete chain with a PolicyOr before its end and a repeated tag below that: SetTree takes it, Execute does not find the tag, and for the leaf it sends PolicyOR without any of the branches. |
| `TpmBuffers.TpmBuffer.CheckLen` | TSS.CPP/include/TpmMarshal.h:50-60 | Succeeds exactly if the bytes fit; otherwise the buffer is out of bounds at its end. |
| `TpmBuffers.TpmBuffer.Int64ToTpm` | TSS.CPP/include/Helpers.h:72-87 | The shifts write the big-endian bytes of the number, for widths 1, 2, 4 and 8, and nothing else changes. |
| `TpmBuffers.TpmBuffer.Int64FromTpm` | TSS.CPP/include/Helpers.h:94-111 | The shifts read the big-endian number at the position. |
| `TpmBuffers.TpmBuffer.WriteNum` | TSS.CPP/include/TpmMarshal.h:103-108 | A number is spliced in at the position if and only if it fits. |
| `TpmBuffers.TpmBuffer.ReadNum` | TSS.CPP/include/TpmMarshal.h:110-115 | The number at the position, if it lies in the buffer. |
| `TpmBuffers.TpmBuffer.WriteNumAtPos` | TSS.CPP/include/TpmMarshal.h:117-123 | Back-patching overwrites the number at an earlier place and returns to the current position. |
| `TpmBuffers.TpmBuffer.WriteByteBuf` | TSS.CPP/include/TpmMarshal.h:179-185 | Bytes are spliced in if and only if they fit. |
| `TpmBuffers.TpmBuffer.ReadByteBuf` | TSS.CPP/include/TpmMarshal.h:191-199 | The bytes at the position. |
| `TpmBuffers.TpmBuffer.WriteSizedByteBuf` | TSS.CPP/include/TpmMarshal.h:205-209 | Length and bytes; a failure may leave the length behind. |
| `TpmBuffers.TpmBuffer.ReadSizedByteBuf` | TSS.CPP/include/TpmMarshal.h:215-221 | Reads a length and that many bytes, with the bounds the code does not check stated as an error. |
| `Bytes.BigEndianRoundTrip` | TSS.CPP/include/Helpers.h:72-111 | Reading a big-endian number back gives the number, for every width. |
| `WireCode.WriteVal` | TSS.CPP/include/TpmMarshal.h:231-307 | Writing any nested value splices in its encoding if and only if it fits, and otherwise ends out of bounds. |
| `WireCode.WriteSizedObj` | TSS.CPP/include/TpmMarshal.h:231-251 | The object goes behind two reserved bytes which are then overwritten by its length modulo 2^16. |
| `WireCode.WriteObjArr` | TSS.CPP/include/TpmMarshal.h:266-277 | A count and the encodings of the elements. |
| `WireCode.WriteValArr` | TSS.CPP/include/TpmMarshal.h:296-307 | A count and the numbers. |
| `WireCode.ReadVal` | TSS.CPP/include/TpmMarshal.h:253-324 | Reading in place agrees with the reading function on every input, errors included, and keeps the stack of open structures. |
| `WireCode.ReadSizedObj` | TSS.CPP/include/TpmMarshal.h:253-264 | A zero length leaves the defaults; otherwise the frame is pushed, the object read, the frame popped. |
| `WireCode.ReadObjArr` | TSS.CPP/include/TpmMarshal.h:279-294 | As many elements as the count says. |
| `WireCode.RoundTrip` | TSS.CPP/include/TpmMarshal.h:91-324 | Writing any nested value succeeds exactly if it fits the capacity; reading the trimmed buffer then gives the same value at the same final position with the structure stack balanced. |
| `WireFormat.ReadBack` | TSS.CPP/include/TpmMarshal.h:103-324 | Reading undoes writing wherever the bytes stand and whatever follows, for every nested value whose sizes survive their prefixes: integers of 1, 2, 4 and 8 bytes, sized buffers, sized objects, object and value arrays, and rest-of-structure fields. |
| `WireFormat.SizedReadsBackIff` | TSS.CPP/include/TpmMarshal.h:231-264 | Exactly which sized objects come back: those under 64 KiB, and longer ones only if the truncated length is non-zero and no field depends on it. |
| `WireFormat.LeafReadsBackIff` | TSS.CPP/include/TpmMarshal.h:205-324 | Exactly which sized buffers and value arrays come back: buffers whose length fits the prefix, arrays of fewer than 2^32 elements below 2^32. |
| `WireFormat.EmptyBodyIsDefault` | TSS.CPP/include/TpmMarshal.h:256-259 | Only a value whose fields are all defaults encodes to nothing, so skipping a zero-length object loses nothing. |
| `WireFormat.ZeroLengthReadsZeros` | TSS.CPP/include/TpmMarshal.h:253-264 | A sized object of zero length is read as zeros and empty fields. |
| `WireFormat.RestEndsAtFrame` | TSS.CPP/include/TpmMarshal.h:97-101 | A rest-of-structure field ends where the enclosing frame says. |
| `CommandFrames.ParseOfEncode` | TSS.CPP/Src/Tpm2.cpp:244-308 | Every framed command parses back to its tag, code, handles, session list and parameters, for any number of each; the total size is the buffer length and the session size is that of the session area. |
| `CommandFrames.EncodeOfParse` | TSS.CPP/Src/Tpm2.cpp:244-308 | Conversely, a buffer that parses is the one framing of what it parses to. |
| `CommandWriting.MarshalAuth` | TSS.CPP/Src/Tpm2.cpp:113-156 | A session entry is appended: handle, nonce, attributes, HMAC. |
| `CommandWriting.Patch` | TSS.CPP/Src/Tpm2.cpp:301-308 | Filling in a size overwrites four bytes written before and leaves the position. |
| `SessionModel.Trim` | TSS.CPP/Src/TpmHelpers.cpp:166-175 | The longest prefix that does not end in zero; only zeros are cut. |
| `SessionModel.TrimUnique` | TSS.CPP/Src/TpmHelpers.cpp:166-175 | There is only one such prefix. |
| `SessionModel.TrimTrailingZeros` | TSS.CPP/Src/TpmHelpers.cpp:166-175 | The loop computes it. |
| `SessionModel.Concatenate` | TSS.CPP/Src/TpmHelpers.cpp:150-164 | Copying the buffers into one of the total size gives their concatenation. |
| `AuthSessions.AuthSession.constructor` | TSS.CPP/Src/TpmAuthSessions.cpp:62-78 | A started session with the bound entity's auth value and its session key. |
| `AuthSessions.AuthSession.CalcSessionKey` | TSS.CPP/Src/TpmAuthSessions.cpp:132-145 | No key for an unbound, unsalted session; otherwise KDFa of trimmed bind auth and salt. |
| `AuthSessions.AuthSession.GetAuthHmac` | TSS.CPP/Src/TpmAuthSessions.cpp:85-130 | The HMAC in both directions, with the rule which auth value enters the key. |
| `SessionModel.AuthHmacIs` | TSS.CPP/Src/TpmAuthSessions.cpp:85-130 | In both directions: which auth value is in the key, and that cpHash or rpHash, newer nonce, older nonce, the nonces of further sessions and the attributes are authenticated in this order. |
| `AuthSessions.AuthSession.ParamXcrypt` | TSS.CPP/Src/TpmAuthSessions.cpp:147-174 | Key and initial value from KDFa over the session key alone; other ciphers are refused. |
| `SessionModel.ParamXcryptLength` | TSS.CPP/Src/TpmAuthSessions.cpp:147-174 | Encryption of a parameter keeps its length. |
| `Tpm2Objects.Tpm2.constructor` | TSS.CPP/Src/Tpm2.cpp:25-42 | The state Init leaves. |
| `Tpm2Objects.Tpm2.ClearInvocationState` | TSS.CPP/Src/Tpm2.cpp:44-52 | All one-shot settings are off and no command is pending. |
| `Tpm2Objects.Tpm2.RollNonces` | TSS.CPP/Src/Tpm2.cpp:54-64 | Every session but the password ones gets a new caller nonce, and nothing else changes. |
| `Tpm2Objects.Tpm2.GetCpHashData` | TSS.CPP/Src/Tpm2.cpp:84-92 | Command code, handle names and parameters, or the error of a handle without a name. |
| `Tpm2Objects.Tpm2.ProcessAuthSessions` | TSS.CPP/Src/Tpm2.cpp:94-158 | The loop over sessions appends exactly the specified authorization entries, updates the sessions' auth values and the handles, and returns what is hashed. |
| `Tpm2Objects.Tpm2.GetRpHash` | TSS.CPP/Src/Tpm2.cpp:160-175 | On a first or a repeated call, with or without a returned handle, the result is the hash of success, command code and parameters; no byte before the eight overwritten ones and none from the parameters on changes. |
| `Tpm2Objects.Tpm2.ProcessRespSessions` | TSS.CPP/Src/Tpm2.cpp:177-227 | Accepts exactly the responses whose entries all have the expected HMACs and fill the response, takes over their nonces and attributes, and leaves the parameter area intact. |
| `Tpm2Objects.Tpm2.ReadAuthResponse` | TSS.CPP/Src/Tpm2.cpp:183-188 | One response entry, or the marshalling error. |
| `Tpm2Objects.Tpm2.PrepareParmEncryptionSessions` | TSS.CPP/Src/Tpm2.cpp:711-740 | The last session with the decrypt or encrypt attribute, and its nonce unless it is the first session or already counted. |
| `Tpm2Objects.Tpm2.DoParmEncryption` | TSS.CPP/Src/Tpm2.cpp:742-775 | Only the first parameter's bytes change, in place; a missing session leaves the buffer alone, a structure without such a parameter fails, and after use both session pointers are cleared. |
| `Tpm2Objects.PointerTests` | TSS.CPP/Src/Tpm2.cpp:711-740 | Comparing session pointers is comparing places in the session list. |
| `Tpm2Objects.Tpm2.BuildAuthArea` | TSS.CPP/Src/Tpm2.cpp:277-302 | The session area with its size patched in is the encoding of the authorization entries. |
| `Tpm2Objects.Tpm2.BuildCommand` | TSS.CPP/Src/Tpm2.cpp:244-308 | The buffer with both sizes patched in is exactly the framing of the prepared command. |
| `Tpm2Objects.Tpm2.Capture` | TSS.CPP/Src/Tpm2.cpp:310-321 | The caller gets the cpHash, the command is dropped and the one-shot settings are cleared. |
| `Tpm2Objects.Tpm2.Transmit` | TSS.CPP/Src/Tpm2.cpp:322-334 | Remembers buffer, code, audit hash and the auth value to mirror; without a device nothing becomes pending. |
| `Tpm2Objects.Tpm2.DispatchOut` | TSS.CPP/Src/Tpm2.cpp:244-335 | The whole method does what the specified first phase does, in any state: thrown with or without the command on the device, captured or sent, with the entire new state of object, sessions and request, including the session an earlier dispatch left in EncSession. |
| `Tpm2Objects.Tpm2.UpdateRequestHandles` | TSS.CPP/Src/Tpm2.cpp:482-564 | Which entity's name and new auth value are remembered for which command, and how the request is overwritten. |
| `Tpm2Objects.Tpm2.CompleteUpdateRequestHandles` | TSS.CPP/Src/Tpm2.cpp:566-633 | After success the mirrored auth values are those after the command. |
| `Tpm2Objects.Tpm2.OpenResponse` | TSS.CPP/Src/Tpm2.cpp:424-457 | Handle, parameter area and sessions of a successful response, or the error. |
| `Tpm2Objects.Tpm2.AuditResponse` | TSS.CPP/Src/Tpm2.cpp:459-463 | The audit digest is extended by cpHash and rpHash although the buffer was patched for the hash. |
| `Tpm2Objects.Tpm2.React` | TSS.CPP/Src/Tpm2.cpp:373-480 | What happens for each response code and each combination of the error settings. |
| `Tpm2Objects.Tpm2.DispatchIn` | TSS.CPP/Src/Tpm2.cpp:338-480 | The whole method does what the specified second phase does: retry, exception, reported error or completion, with the entire new state; EncSession is cleared exactly if the response is handed over. |
| `SessionProtocol.KeysAgreeIff` | TSS.CPP/Src/TpmAuthSessions.cpp:109-119 | For the request both sides put the same auth value into the HMAC key if and only if the first handle carries the right one, or needs none: the session authorizes nothing or is bound to it. |
| `SessionProtocol.NoForeignNonces` | TSS.CPP/Src/Tpm2.cpp:711-740 | With the one session in slot 0 no decrypt or encrypt nonce enters any HMAC. |
| `SessionProtocol.SameNames` | TSS.CPP/Src/TpmTypeExtensions.cpp:34-43 | The name of a PCR, session or permanent handle is its four big-endian bytes as it is for the TPM (section 16 of Part 1); that of an object or NV index is the one given. |
| `SessionProtocol.RpHashAgrees` | TSS.CPP/Src/Tpm2.cpp:160-175 | What is hashed of a successful response is what the TPM hashes. |
| `SeveralSessions.LastWithIsLast` | TSS.CPP/Src/Tpm2.cpp:711-740 | Of several sessions the last one with the attribute encrypts. |
| `SeveralSessions.EntryText` | TSS.CPP/Src/Tpm2.cpp:94-158 | What an HMAC session authenticates among several: the nonces of the encrypting sessions stand in the text of every one, which is the text with them in the first session alone if and only if this is the first or there are none. |
| `SeveralSessions.PolicyEntry` | TSS.CPP/Src/Tpm2.cpp:109-156 | What a policy session sends: an HMAC, the password, or, if its policy asks for neither, what the entry before it has sent, so nothing if and only if that sent nothing. |
| `SessionProtocol.CpHashAgrees` | TSS.CPP/Src/Tpm2.cpp:84-92 | What the TSS hashes for the command is what the TPM hashes. |
| `SessionProtocol.CommandVerdict` | TSS.CPP/Src/Tpm2.cpp:94-158 | A TPM that holds the session in slot 0 accepts the authorizations of a command if and only if the HMACs over the same data under the key of the TSS and under its own are equal. |
| `SessionProtocol.CommandAuthorized` | TSS.CPP/Src/Tpm2.cpp:94-158 | The command with one HMAC session in slot 0 and password sessions for the other handles passes every authorization check of a TPM that holds the session, if the auth values that are needed are known. |
| `SessionEncryption.XcryptKeysAgreeIff` | TSS.CPP/Src/TpmAuthSessions.cpp:147-174 | TSS and TPM (section 21 of Part 1) feed the same into KDFa, for the request as for the response, if and only if the key has 128 bits and the session authorizes no handle or one with an empty auth value. |
| `SessionEncryption.FitsBeforeCall` | TSS.CPP/Src/TpmAuthSessions.cpp:147-174 | That condition in terms of the request and the mirrored auth values, before the call. |
| `SessionEncryption.RequestRecovered` | TSS.CPP/Src/Tpm2.cpp:742-775 | The TPM decrypts the encrypted request to parameters of the same layout, and under that condition to the parameters that the caller gave. |
| `SessionEncryption.ResponseRecovered` | TSS.CPP/Src/Tpm2.cpp:742-775 | Under that condition the TSS decrypts the response to the parameters that the TPM encrypted. |
| `SessionEncryption.NewAuthGarbled` | TSS.CPP/Src/TpmAuthSessions.cpp:161-169 | A concrete change of the owner auth value over a decrypt session: with an old auth value, or with a 256-bit key, the TPM reads another new auth value; with a 128-bit key and no auth value it reads the right one. |
| `SessionProtocol.ResponseKeysAgreeIff` | TSS.CPP/Src/Tpm2.cpp:201-221 | Both sides use the same key for the response if and only if a stated condition on command, first handle, binding and new auth value holds. |
| `SessionProtocol.BindKept` | TSS.CPP/Src/TpmAuthSessions.cpp:112-117 | A command that meets that condition leaves the session's binding usable for the next command. |
| `SessionProtocol.SuccessLayout` | TSS.CPP/Src/Tpm2.cpp:338-445 | Where handle, parameter size, parameters and sessions of an honest response stand. |
| `SessionProtocol.SuccessAccepted` | TSS.CPP/Src/Tpm2.cpp:406-480 | On any successful response with sessions DispatchIn throws or goes on exactly as the HMAC of slot 0 decides, and finds the parameters where the TPM put them. |
| `SessionRuns.SentInSync` | TSS.CPP/Src/Tpm2.cpp:244-335 | DispatchOut disturbs nothing on which TSS and TPM agree. |
| `SessionRuns.SentVerdict` | TSS.CPP/Src/Tpm2.cpp:244-335 | The TPM parses every sent command to the prepared one and finds it authorized if and only if the HMACs under the two keys are equal; the keys are equal if and only if the auth value of the first handle is known or not needed. |
| `SessionRuns.SentAuthorized` | TSS.CPP/Src/Tpm2.cpp:244-335 | Whatever the TPM then decides, it finds every sent command authorized whose auth values are known. |
| `SessionRuns.SeenInCommand` | TSS.CPP/Src/Tpm2.cpp:277-302 | From every sent command the TPM can read parameters, and a new auth value where there is one; unencrypted, or with agreeing keys, they are those of the request. |
| `SessionRuns.HonestAnswer` | TSS.CPP/Src/Tpm2.cpp:244-335 | An honest TPM authorizes the bytes that were sent, decrypts the parameters, and answers with success; if it can read the request, it acted on the caller's parameters. |
| `SessionRuns.RetryVerdict` | TSS.CPP/Src/Tpm2.cpp:231-242 | The TPM finds the command that is sent again after RETRY authorized if and only if the HMACs over the same data under the two keys are equal, and the keys are equal if and only if the command is not NV_ChangeAuth, the session is bound to the index, or the new auth value is the old one. |
| `SessionWitnesses.NvRetryRefused` | TSS.CPP/Src/Tpm2.cpp:516-522 | A concrete NV_ChangeAuth over an unbound session: the TPM refuses the second attempt, and the dispatch ends with its error. |
| `SessionWitnesses.BoundRetryAccepted` | TSS.CPP/Src/TpmAuthSessions.cpp:112-117 | The same index with the session bound to it: the second attempt is authorized and the dispatch completes. |
| `SessionRuns.FinishDecrypts` | TSS.CPP/Src/Tpm2.cpp:465-479 | The response parameters handed over are those received, or, if the session encrypts responses only, those after DoParmEncryption. |
| `SessionRuns.PlainDelivered` | TSS.CPP/Src/Tpm2.cpp:465-479 | For a session that does not encrypt, or that encrypts responses only and agrees with the TPM on the key, those are the plain parameters that the TPM put into the response. |
| `SessionRuns.BothDirectionsIff` | TSS.CPP/Src/Tpm2.cpp:742-775 | With a session that has both attributes, decrypt and encrypt, the response parameters are handed over as received, because encrypting the request clears EncSession; they are the TPM's plaintext if and only if encryption leaves that alone. |
| `SessionRuns.SuccessInSync` | TSS.CPP/Src/Tpm2.cpp:338-480 | A dispatch that succeeds passes the HMAC check, delivers the TPM's handle and, unless the two sides have different encryption keys, the TPM's plain parameters, after the TPM acted on the caller's; nonce, key and hierarchies stay in step. |
| `ResponseCodes.BareIsNumber` | TSS.CPP/Src/Tpm2.cpp:15-23 | Of a response code with any handle, session or parameter number and any bits above those of the TPM, the error itself is kept. |
| `ResponseCodes.ErrorOutcome` | TSS.CPP/Src/Tpm2.cpp:366-422 | DispatchIn on any response with an error records its number, and reports it if the caller demanded or allowed errors or expected this one; otherwise it throws it. |
| `SessionRuns.RefusalOutcome` | TSS.CPP/Src/Tpm2.cpp:231-422 | A dispatch that the TPM refuses reports the error if and only if errors were demanded or allowed or this one was expected, whatever number the TPM adds to it; otherwise it throws that error. |
| `SessionRuns.DispatchInSync` | TSS.CPP/Src/Tpm2.cpp:231-480 | After any number of retries a dispatch ends as the TPM chose, or fails before anything is sent; both sides are in step before each attempt and afterwards, and the TPM finds every attempt authorized, those it retries or refuses included. |
| `SessionRuns.RunStaysInSync` | TSS.CPP/Src/Tpm2.cpp:231-480 | Safety over whole runs of successes, TPM errors and retries on one HMAC session: before each attempt of each command the nonces and mirrored auth values agree, every sent command is authorized, every honest response is accepted. |
| `SessionLimits.StartInSync` | TSS.CPP/Src/TpmAuthSessions.cpp:15-78 | A freshly started session, salted or bound or neither, is in step. |
| `SessionLimits.ResponseVerdict` | TSS.CPP/Src/Tpm2.cpp:177-227 | For every successful command, DispatchIn accepts the honest response if and only if the HMACs over the same data under the key of the TSS and that of the TPM are equal, and the keys are equal if and only if the condition holds. |
| `SessionLimits.ClearByLockout` | TSS.CPP/Src/Tpm2.cpp:566-633 | TPM2_Clear under a non-empty lockout auth value does not meet the condition; with an all-zero one, or under the platform hierarchy, it does. |
| `SessionLimits.HandleWithoutAuthorization` | TSS.CPP/Src/Tpm2.cpp:201-221 | Nor does a session on a command whose first handle needs no authorization but has an auth value. |
| `SessionLimits.BoundAuthChanged` | TSS.CPP/Src/TpmAuthSessions.cpp:112-117 | Nor does a change of the owner auth value over a session bound to the owner, unless the new value is empty or differs in trailing zeros only. |
| `SessionLimits.BothDirectionsDelivered` | TSS.CPP/Src/Tpm2.cpp:742-775 | For every successful dispatch over a session with both attributes the caller gets the first response parameter encrypted, equal to the TPM's if and only if encryption does not change it; without both attributes SuccessInSync gives the TPM's. |
| `SessionWitnesses.ResponseNotDecrypted` | TSS.CPP/Src/Tpm2.cpp:742-775 | A concrete TPM2_Hash over such a session (attributes 0x61) whose response the caller gets different from what the TPM put into it. |
| `SessionLimits.UnexpectedSuccessThrows` | TSS.CPP/Src/Tpm2.cpp:380-416 | A success where an error was demanded or expected throws after the auth values were mirrored. |
| `SessionLimits.UnexpectedSuccessDesyncs` | TSS.CPP/Src/Tpm2.cpp:380-416 | In that case the session stays in step only if the TPM repeated its nonce, while the hierarchies stay mirrored. |
| `DispatchHistory.StepMirrors` | TSS.CPP/Src/Tpm2.cpp:380-422 | One exchange mirrors the hierarchy auth values exactly if the TPM carried the command out. |
| `DispatchHistory.CapturedKeeps` | TSS.CPP/Src/Tpm2.cpp:310-321 | A captured cpHash changes neither auth values nor audit digest. |
| `DispatchHistory.HierarchiesMirrored` | TSS.CPP/Src/Tpm2.cpp:482-633 | Over any history of successes, errors, retries, exceptions and captures, with any session left in EncSession, the auth values behind the _Admin handles are the TPM's up to trailing zeros. |
| `DispatchHistory.AuditedHash` | TSS.CPP/Src/Tpm2.cpp:310-323 | An audited command that was sent is remembered by the hash of its cpHash data. |
| `DispatchHistory.CapturedIsCpHash` | TSS.CPP/Src/Tpm2.cpp:310-321 | A captured command gives the hash of command code, names and parameters. |
| `DispatchHistory.SettingsAreOneShot` | TSS.CPP/Src/Tpm2.cpp:44-52 | All settings of a dispatch are off after it was captured or answered, unless the TPM asks for a repetition. |
| `DispatchHistory.RememberedObject` | TSS.CPP/Src/Tpm2.cpp:482-564 | Which name and auth value are remembered, by command code. |
| `DispatchHistory.EvictKeepsHandles` | TSS.CPP/Src/Tpm2.cpp:482-633 | TPM2_EvictControl leaves the auth values and names of its handles as they are. |
| `DispatchHistory.StepAudits` | TSS.CPP/Src/Tpm2.cpp:406-463 | One exchange extends the audit digest exactly if it was audited and completed, by its cpHash and rpHash. |
| `DispatchHistory.AuditDigestIsFold` | TSS.CPP/Src/Tpm2.cpp:406-463 | Over any run the audit digest is the fold of extend over exactly the audited commands that succeeded, in order. |
| `LeftoverSession.EncSessionIn` | TSS.CPP/Src/Tpm2.cpp:338-480 | DispatchIn clears EncSession if it hands over a response, and otherwise leaves it where it was. |
| `LeftoverSession.StepLeaves` | TSS.CPP/Src/Tpm2.cpp:244-480 | A dispatch that is captured or whose response is not handed over leaves EncSession at the session that was to decrypt the response. |
| `LeftoverSession.XcryptLeavesAloneIff` | TSS.CPP/Src/Tpm2.cpp:742-775 | Decrypting gives the same bytes if and only if the session can decrypt the first parameter and the cipher does not change it. |
| `LeftoverSession.HandedOverUnchangedIff` | TSS.CPP/Src/Tpm2.cpp:465-479 | In every state, a successful response without sessions is handed over as it came if and only if no session was left behind or the cipher leaves those bytes alone; otherwise the caller gets them decrypted, or an exception. |
| `LeftoverSession.SessionlessDispatch` | TSS.CPP/Src/Tpm2.cpp:244-480 | The same for a whole dispatch without sessions, in terms of the state before the call. |
| `LeftoverSession.PlainResponseGarbled` | TSS.CPP/Src/Tpm2.cpp:465-479 | A concrete plain response that a session left behind turns into other bytes. |
| `WbclLog.MoveIsSafe` | PCPTool.v11/dll/PCPWbcl.cpp:789-890 | Each move strictly advances to an element inside the log, or ends the iteration. |
| `WbclLog.EndIsSticky` | PCPTool.v11/dll/PCPWbcl.cpp:808-823 | After the end the state does not change; the first call reports S_FALSE and later ones S_OK. |
| `WbclLog.DataEndsElement` | PCPTool.v11/dll/PCPWbcl.cpp:251-396 | The data of an element end exactly where the element ends if and only if the 32-bit sum of its sizes did not wrap. |
| `WbclLog.DigestInsideArea` | PCPTool.v11/dll/PCPWbcl.cpp:138-507 | The digest look-up and the size walk agree: a digest that is found lies wholly inside the measured digest area and the log. |
| `WbclLog.InitIsSafe` | PCPTool.v11/dll/PCPWbcl.cpp:513-710 | Init on any bytes reports an error or stands on an element inside the log. |
| `WbclLog.EveryElementInside` | PCPTool.v11/dll/PCPWbcl.cpp:712-890 | Whatever the bytes, every element a caller sees lies inside the log and starts where the one before it ends. |
| `WbclRoundTrip.EventIs` | PCPTool.v11/dll/PCPWbcl.cpp:138-507 | On an encoded event the walkers find its size, PCR index, type, selected digest and data. |
| `WbclRoundTrip.MoveOnto` | PCPTool.v11/dll/PCPWbcl.cpp:789-890 | Moving from an element onto an encoded event behind it stands on that event. |
| `WbclRoundTrip.WalkEvents` | PCPTool.v11/dll/PCPWbcl.cpp:712-890 | From its first event on, the iterator yields all events, and ends behind them if and only if no further element stands there. |
| `WbclRoundTrip.InitOntoFirst` | PCPTool.v11/dll/PCPWbcl.cpp:513-710 | Init on a well-formed log recognizes the crypto-agile format and the preferred algorithm and stands on the first event. |
| `WbclRoundTrip.NotSupportedIff` | PCPTool.v11/dll/PCPWbcl.cpp:601-690 | Init refuses a log with a descriptor as not supported if and only if its version is before 1.2 or it lists neither SHA-256 nor SHA-1. |
| `WbclRoundTrip.LogReadsBack` | PCPTool.v11/dll/PCPWbcl.cpp:513-890 | For every well-formed log, Init and moving until the end yield exactly the encoded events, in order, each with PCR index, type, selected digest and data, if and only if what follows the log in its area is no further element; a remainder too short for one is passed over. |
| `WbclSha1Log.Sha1LogReadsBack` | PCPTool.v11/dll/PCPWbcl.cpp:513-890 | A log whose first event is no descriptor is read in the SHA-1 format: Init and moving until the end yield exactly the encoded events if and only if no further element follows. |
| `WbclRoundTrip.WrappedElement` | PCPTool.v11/dll/PCPWbcl.cpp:298-348 | A concrete log whose 32-bit sum wraps and which the iterator accepts. |
| `WbclIterators.WbclIterator.InitIterator` | PCPTool.v11/dll/PCPWbcl.cpp:513-710 | The method computes the specified Init on any bytes and any earlier state. |
| `WbclIterators.WbclIterator.MoveToNextElement` | PCPTool.v11/dll/PCPWbcl.cpp:789-890 | The method computes the specified move. |
| `WbclIterators.WbclIterator.GetCurrentElement` | PCPTool.v11/dll/PCPWbcl.cpp:712-787 | PCR index, type, digest, data size and data of the current element, or an error at the end. |
| `WbclIterators.WbclIterator.GetCurrentElementDigestSize` | PCPTool.v11/dll/PCPWbcl.cpp:138-249 | The loop measures the digest area, or fails as specified. |
| `WbclIterators.WbclIterator.GetCurrentElementSize` | PCPTool.v11/dll/PCPWbcl.cpp:298-348 | The 32-bit element size, or an error. |
| `WbclIterators.WbclIterator.GetCurrentElementDataSize` | PCPTool.v11/dll/PCPWbcl.cpp:251-296 | The size of the data. |
| `WbclIterators.WbclIterator.GetCurrentElementData` | PCPTool.v11/dll/PCPWbcl.cpp:350-396 | Where the data stand. |
| `WbclIterators.WbclIterator.GetCurrentElementDigest` | PCPTool.v11/dll/PCPWbcl.cpp:398-507 | The loop finds the digest of the selected algorithm. |
| `WbclIterators.WbclIterator.GetDigestSize` | PCPTool.v11/dll/PCPWbcl.cpp:88-134 | The digest size the descriptor gives for an algorithm, and 20 bytes for one it does not list. |
| `SipaWalks.DisplaySipa` | PCPTool.v11/exe/Support.cpp:459-805 | The pointer loop with its recursion terminates on every byte string and makes the visits of the walk. |
| `SipaWalks.WalkOfEncoded` | PCPTool.v11/exe/Support.cpp:473-479 | On the encoding of any forest the walk succeeds and visits all records but those an empty last record hides. |
| `SipaWalks.VisitsPreorderIff` | PCPTool.v11/exe/Support.cpp:459-805 | The walk visits the forest in preorder if and only if no level ends with an empty record, which the loop guard skips. |
| `SoftPcrs.PcrBank.constructor` | PCPTool.v11/exe/Support.cpp:815-826 | PCRs 17 to 22 start with 0xFF bytes, the others with zeros. |
| `SoftPcrs.PcrBank.Extend` | PCPTool.v11/exe/Support.cpp:1010-1034 | In-place extend of one row below 24; other indices change nothing. |
| `SoftPcrs.ReplayLog` | PCPTool.v11/exe/Support.cpp:864-1040 | The event loop computes the specified replay on any bytes in which digests are found. |
| `SoftPcrs.DisplayLog` | PCPTool.v11/exe/Support.cpp:808-1040 | Parameter check, Init and replay from the initial table. |
| `SoftPcrTheorems.ReplayPerPcr` | PCPTool.v11/exe/Support.cpp:1010-1034 | After a replay each PCR is the fold of extend over that PCR's digests alone, and is marked used exactly if there was one. |
| `SoftPcrTheorems.ReorderingIsInvisible` | PCPTool.v11/exe/Support.cpp:864-1035 | Any reordering that keeps each PCR's own digests in order gives the same table and used flags. |
| `SoftPcrTheorems.LogReplays` | PCPTool.v11/exe/Support.cpp:808-1040 | From the bytes of any well-formed log: the display succeeds exactly if the TLV data decode, and then each PCR is the fold over the digests of the events logged for it. |
| `TextSerializers.TextSerializer.Write` | TSS.CPP/Src/Serialize.cpp:61-69 | Indentation at the start of a line, no second line break in a row, and the line state. |
| `TextSerializers.TextSerializer.SkipSpaces` | TSS.CPP/Src/Serialize.cpp:76-82 | Moves to the next visible character or fails at the end. |
| `TextSerializers.TextSerializer.NextToken` | TSS.CPP/Src/Serialize.cpp:93-100 | Takes a character behind white space, or fails with its position. |
| `TextSerializers.TextSerializer.FindToken` | TSS.CPP/Src/Serialize.cpp:84-91 | Moves to the next occurrence of a character. |
| `TextSerializers.TextSerializer.BeginWriteObj` | TSS.CPP/Src/Serialize.cpp:128-136 | Separator, brace, line break and indentation. |
| `TextSerializers.TextSerializer.EndWriteArr` | TSS.CPP/Src/Serialize.cpp:181-190 | Closing bracket, on its own line if the array was indented. |
| `JsonRoundTrip.StoullOfDecimal` | TSS.CPP/Src/Serialize.cpp:351-368 | Decimal text of a 64-bit number reads back as the number. |
| `JsonRoundTrip.NameAt` | TSS.CPP/Src/Serialize.cpp:319-349 | A written name entry, with or without a comma before it, is read up to the value. |
| `JsonRoundTrip.NumAt` | TSS.CPP/Src/Serialize.cpp:351-368 | A written number is read back, with the comma state in step. |
| `JsonRoundTrip.ObjAt` | TSS.CPP/Src/Serialize.cpp:380-392 | A written object with any fields is read back and reading ends behind its brace. |
| `JsonRoundTrip.BracesLaidOut` | TSS.CPP/Src/Serialize.cpp:128-160 | Braces of an object: separator, line breaks and indentation by four blanks. |
| `JsonRoundTrip.BracketsLaidOut` | TSS.CPP/Src/Serialize.cpp:162-190 | Brackets of an array, indented or not. |
| `JsonRoundTrip.DeserializedIsSerialized` | TSS.CPP/Src/Serialize.cpp:319-415 | Deserialization undoes serialization for every value of named numbers, sized buffers, nested objects and arrays of objects, to any depth and width, wherever the text stands, ending behind the closing brace. |
| `JsonSerializers.JsonSerializer.Serialize` | TSS.CPP/Src/Serialize.cpp:250-254 | Appends exactly the specified text of the value. |
| `JsonSerializers.JsonSerializer.WriteObj` | TSS.CPP/Src/Serialize.cpp:380-385 | An object's text and layout state. |
| `JsonSerializers.JsonSerializer.WriteObjArr` | TSS.CPP/Src/Serialize.cpp:262-270 | Size entry, name, brackets and the objects. |
| `JsonSerializers.JsonSerializer.WriteSizedByteBuf` | TSS.CPP/Src/Serialize.cpp:395-403 | Size entry, name, brackets and the numbers. |
| `JsonSerializers.JsonSerializer.Deserialize` | TSS.CPP/Src/Serialize.cpp:256-260 | Reads or fails exactly as the reading function says; the text is not changed. |
| `JsonSerializers.JsonSerializer.ReadObj` | TSS.CPP/Src/Serialize.cpp:387-392 | An object and the position behind it. |
| `JsonSerializers.JsonSerializer.ReadObjArr` | TSS.CPP/Src/Serialize.cpp:272-284 | The objects; the line break it writes in between leaves the text alone. |
| `JsonSerializers.JsonSerializer.ReadSizedByteBuf` | TSS.CPP/Src/Serialize.cpp:405-415 | As many numbers as the size says, cut to bytes. |
| `JsonSerializers.JsonSerializer.RoundTrip` | TSS.CPP/Src/Serialize.cpp:319-415 | Writing and reading in one object gives the value back and leaves the text as written. |
| `PlainTextRoundTrip.PairReadsBack` | TSS.CPP/Src/Serialize.cpp:686-694 | The two hexadecimal digits of a byte read back as the byte. |
| `PlainTextRoundTrip.FragmentAt` | TSS.CPP/Src/Serialize.cpp:599-616 | A fragment of any length, with blanks between full words only, reads back byte for byte. |
| `PlainTextRoundTrip.RowsAt` | TSS.CPP/Src/Serialize.cpp:650-661 | So do rows of 32 bytes, on one line or each on its own with any indentation. |
| `PlainTextRoundTrip.NumberAt` | TSS.CPP/Src/Serialize.cpp:520-541 | A number with its hexadecimal copy reads back and the copy is found to match. |
| `PlainTextRoundTrip.NamedAt` | TSS.CPP/Src/Serialize.cpp:474-518 | Type and name of an entry are recognized, with comma, line break or nothing before them. |
| `PlainTextRoundTrip.BufAt` | TSS.CPP/Src/Serialize.cpp:618-697 | A buffer written in any layout the writer picks reads back behind its closing bracket: identical, or all zeros if it was abbreviated. |
| `PlainTextRoundTrip.BufReadsBackIff` | TSS.CPP/Src/Serialize.cpp:618-697 | It reads back identical if and only if it is all zeros or was not abbreviated, which is: the mode is precise, it has at most 32 bytes, or its one-line text of 2n + n/4 + 1 characters fits the current line or a line of its own; in precise mode always, for every buffer, line limit, indentation and text before it. |
| `PlainTextRoundTrip.FormIs` | TSS.CPP/Src/Serialize.cpp:624-641 | The layout of a buffer, on the same line, on a line of its own, in rows or abbreviated, in numbers of the call. |
| `PlainTextRoundTrip.LineLenIs` | TSS.CPP/Src/Serialize.cpp:591-597 | The current line is what follows the last line break, the break included. |
| `PlainTextRoundTrip.PreciseBufsReadBack` | TSS.CPP/Src/Serialize.cpp:618-697 | In precise mode any number of buffers written one after another reads back in order, with the comma state in step. |
| `PlainTextRoundTrip.SameLineFits` | TSS.CPP/Src/Serialize.cpp:623-641 | A buffer put on a line within the limit leaves the line within the limit. |
| `PlainTextRoundTrip.FormLimits` | TSS.CPP/Src/Serialize.cpp:628-631 | As long as nothing wraps, the unsigned test keeps a buffer on its line exactly if the estimated size stays below the limit. |
| `PlainTextRoundTrip.OverlongLineStays` | TSS.CPP/Src/Serialize.cpp:626-631 | A line already over the limit is never broken, because the unsigned difference wraps. |
| `PlainTextSerializers.PlainTextSerializer.WriteByteBufFrag` | TSS.CPP/Src/Serialize.cpp:599-616 | The two loops write the specified fragment. |
| `PlainTextSerializers.PlainTextSerializer.WriteRows` | TSS.CPP/Src/Serialize.cpp:650-661 | The row loop writes the specified rows. |
| `PlainTextSerializers.PlainTextSerializer.WriteSizedByteBuf` | TSS.CPP/Src/Serialize.cpp:618-666 | Appends exactly the specified text, with the form chosen from the line so far (see FormIs), and restores the indentation. |
| `PlainTextSerializers.PlainTextSerializer.WriteNum` | TSS.CPP/Src/Serialize.cpp:520-526 | Decimal and hexadecimal copy. |
| `PlainTextSerializers.PlainTextSerializer.ReadNum` | TSS.CPP/Src/Serialize.cpp:528-541 | A number, or the error of the first part that is missing or does not match. |
| `PlainTextSerializers.PlainTextSerializer.BeginReadNamedEntry` | TSS.CPP/Src/Serialize.cpp:490-518 | Type and name as given, or the error. |
| `PlainTextSerializers.PlainTextSerializer.ReadSizedByteBuf` | TSS.CPP/Src/Serialize.cpp:668-697 | Reads or fails exactly as the reading function says. |
| `PlainTextSerializers.PlainTextSerializer.RoundTrip` | TSS.CPP/Src/Serialize.cpp:618-697 | Writing any buffer in precise mode and reading the text gives it back. |
| `HexText.HexString` | TSS.CPP/Src/TpmHelpers.cpp:80-97 | The masking loop prints the hexadecimal digits, padded to an even number and to the width. |
| `HexText.ParseHex` | TSS.CPP/Src/TpmHelpers.cpp:104-110 | The shifting loop, modulo 2^64. |
| `HexText.HexRoundTrip` | TSS.CPP/Src/TpmHelpers.cpp:80-110 | Any 64-bit number printed with any width parses back. |
| `EnumText.EnumMaps.EnumToStr` | TSS.CPP/Src/TpmHelpers.cpp:15-35 | The bit loop ends within 32 steps with the names of the set bits in order, and leaves an empty name in the table for every unnamed one. |
| `EnumText.EnumMaps.StrToEnum` | TSS.CPP/Src/TpmHelpers.cpp:37-72 | Whole text first, then the components between bars, or the first component without a value. |
| `EnumRoundTrip.TextReadsBack` | TSS.CPP/Src/TpmHelpers.cpp:15-72 | What the text of an unnamed value reads back as, for every value. |
| `EnumRoundTrip.NothingBetweenBars` | TSS.CPP/Src/TpmHelpers.cpp:37-72 | Two adjacent bars are an error that names the empty component. |
| `EnumRoundTrip.RoundTripIff` | TSS.CPP/Src/TpmHelpers.cpp:15-72 | A value reads back if and only if it is named, or non-zero with all set bits named. |
| `EnumRoundTrip.RoundTripAfterCallsIff` | TSS.CPP/Src/TpmHelpers.cpp:15-72 | The same after any history of EnumToStr calls: the empty names they leave in the table change no text. |
| `PcrSelections.PcrSelection.Single` | TSS.CPP/Src/TpmTypeExtensions.cpp:394-404 | The bitmap selects exactly the one PCR and has at least three bytes. |
| `PcrSelections.PcrSelection.FromList` | TSS.CPP/Src/TpmTypeExtensions.cpp:406-422 | The bitmap selects exactly the listed PCRs and is as long as the highest needs, at least three bytes. |
| `PcrSelections.PcrSelection.ToArray` | TSS.CPP/Src/TpmTypeExtensions.cpp:424-434 | The selected PCRs in increasing order, as far as the number of bits fits an int. |
| `PcrSelections.SameSelection` | TSS.CPP/Src/TpmTypeExtensions.cpp:394-422 | A bitmap is determined by its length and the PCRs it selects. |
| `PcrSelections.SortedUnique` | TSS.CPP/Src/TpmTypeExtensions.cpp:424-434 | There is one increasing list of given PCRs. |
| `PcrSelections.SingleIsSingleton` | TSS.CPP/Src/TpmTypeExtensions.cpp:394-422 | The single-PCR constructor builds the bitmap that the list constructor builds from a singleton. |
| `PcrSelections.ListComesBackSorted` | TSS.CPP/Src/TpmTypeExtensions.cpp:406-434 | ToArray of a selection built from any list of 32-bit PCR numbers is that list sorted without duplicates if all are below 0x7FFFFFF8, and empty otherwise. |

## Left out

Policies:
- PolicyTicket, the signing and authorization callbacks and signature checks. PolicyAuthorize and
  PolicySigned are modelled by their digest and their command, which the TPM accepts or refuses.
- The 4096-byte capacity of the buffers that policy digests are assembled in.
- Object ownership: trees are values, so copying by `Clone` and freeing do not show.

Dispatch and sessions:
- More than one HMAC or policy session in the run theorems. The class and its step specification are
  for any list of sessions.
- SessionRuns.RunStaysInSync: leaves out the cases that `ResponseVerdict`, `RetryVerdict` and, for an
  encrypted new auth value, `XcryptKeysAgreeIff` show to fail.
- Ciphers other than AES in CFB mode on the side of the TPM.
- The loop and the pause in `Dispatch`: repeated attempts are a recursion over the supplied nonces.
- Tpm2Objects.Tpm2.DispatchOut: after an exception only what later commands depend on is specified.
- DispatchHistory.HierarchiesMirrored: the TPM takes the new auth value that the request names; what
  an encrypted one is read as is the subject of `SeenInCommand` and `NewAuthGarbled`.
- Tpm2Objects.Tpm2.DispatchIn: hands over the raw response parameters. The typed unmarshalling of the
  generated structures, the check of its final position and UpdateRespHandle are not modelled.
- Hierarchies reset by TPM2_ChangeEPS, TPM2_ChangePPS or TPM2_Startup; response callbacks; message texts.
- Requests with more than three handles or two authorized handles: no TPM command has them.
- Transport to the TPM. The device is a relation from command to response bytes.

Wire format:
- The generated TPM structures. A shape describes what their toTpm and initFromTpm methods do in order.
- TpmBuffers.TpmBuffer.ReadSizedByteBuf: the code does not check the length it read; a length that
  leaves the buffer is an error in the model.

Text:
- Enumerations inside serialized structures, and arrays of them: reading an array passes a null
  pointer twice (Serialize.h:174) and never reads the elements.
- Plain-text objects: whether a type name is written depends on comparing C string pointers.
- Plain-text entries read without a given name, which overwrite the text they read.
- PlainTextSerializers.PlainTextSerializer.ReadSizedByteBuf: a text that ends inside a byte always
  fails; which exception it is does not follow the library. Debug assertions on the text are left out.
- EnumText.EnumMaps.StrToEnum: when the text starts with blanks and a bar, the backward scan would
  leave the string; the model stops at its start.
- Name and type arguments of the JSON serializer beyond the names; it ignores types.
- Lengths of the text buffer beyond 64 bits, and memory exhaustion.

Log and PCRs:
- Which TLV types are containers is a parameter: the flags come from the Windows SDK, which is not part
  of this model. The size of TCG_PCClientPCREventStruct (33 bytes, packed) comes from there as well.
- Algorithm ids above SHA-512 in a descriptor index past the code's table; the value read there is the
  parameter `beyond`.
- SipaWalks.DisplaySipa: sums with sizeof are 64 bits wide; in a 32-bit build the bounds check can wrap.
- SoftPcrs.DisplayLog: requires that every element visited carries a digest of the selected algorithm;
  the code dereferences a null pointer otherwise (Support.cpp:910). Hash failures and the printed output are left out.
- Bytes behind the log are arbitrary, because some reads are not checked against its end.

Elsewhere:
- KDFa internals, RSA, CFB, sockets, TBS, files, the generated types, samples and the command-line tool.
