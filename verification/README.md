# Devnet toolkit: a verified model

A Dafny model of the logic inside the devnet command-line toolkit: the allowlist
Merkle tree, the validator key lifecycle, the lazy artifact initialiser, the
command execution wrapper, and the smaller algorithms behind Slack receivers,
node ports, consensus endpoints, stand expressions and the sticky network name.
`dafny verify dfyconfig.toml` checks all of it.

| file | what it holds |
|---|---|
| `Merkle.dfy`, `MerkleSecurity.dfy`, `SetGateTree.dfy`, `TreeBytes.dfy` | the tree, its verifier, what a published root promises, the array algorithm of the command, and the result byte by byte |
| `Credentials.dfy`, `State.dfy`, `Keys.dfy`, `KeySafety.dfy`, `AddKeys.dfy` | withdrawal credentials, the JSON store, key generation and allocation, safety over every run, batching |
| `Artifact.dfy` | `ensure()` as steps between awaits, any number of callers, and the directory it fills |
| `Command.dfy` | command trees, the depth counter, try/catch/finally |
| `Receivers.dfy`, `NodePorts.dfy`, `RoundRobin.dfy` | unique receiver names, port selection, endpoint choice |
| `Expressions.dfy` | `${{ path }}` tokens, dotted paths, nested values |
| `EnvFile.dfy`, `NetworkName.dfy` | writing the `DEVNET_NAME` line and loading it back; name resolution over processes |
| `Bytes.dfy`, `Seqs.dfy`, `Strings.dfy`, `Wrappers.dfy` | byte order, sequence and string facts, `Option` and `Result` |

How the pieces fit:

- **Imperative code stays imperative.** `buildTree` fills an array of optional
  entries, so every read is proved to follow a write; the key commands run over
  heap-allocated records shared by two lists, so that marking through the
  filtered list changes the full one; the picker, the receiver builder, the
  artifact, the stores and the environment are classes. Each method is tied to a
  function of the old state, and the lemmas are about that function.
- **Hashing is a parameter.** Security statements assume no collision *between
  the finite sets of inputs the builder and the verifier hash*; injectivity of
  the hash is never assumed, since no function from byte strings to 32 bytes has
  it.
- **Histories are ghost.** The key world records every dump and every index
  interval; the artifact records callers, activations and commands.

Where the code is not what one might expect, the exact condition is proved:

- An ensured artifact stands over a partial directory exactly when the directory
  was partial from the start or some attempt failed after making it; no retry
  repairs it (`Artifact.EnsuredOverPartial`, `Artifact.NeverRepaired`).
- With a `kurtosis/validators.json` next to an empty store, generations derive
  different indices exactly when a successful use comes first, or there is only
  one, or the file lists no key, or at least as many as all of them derive
  (`KeySafety.FallbackReusesIndices`).
- A dump is still in the file of its name exactly when no later successful use
  had that name (`KeySafety.DumpSurvives`).
- `add-keys` hands out the vault's left-over unused 0x02 keys with its first
  batch, so it adds exactly the requested number of keys only when there were
  none (`AddKeys.AddKeysExact`).
- The command wrapper is invisible to the handlers of a command tree exactly when
  every nested execution ends in a return or a truthy throw
  (`Command.InvisibleExactly`).
- The code compares ports as text. When exactly a chosen port is a port of
  another service, as a number, is stated for both protocols; one way is a
  request such as `32355.0`, which equals no decimal text
  (`NodePorts.ClashExactly`).
- Persisting a name keeps the file intact around it exactly when there was no
  `DEVNET_NAME` line to replace or the name holds no `$`-pattern of
  `String.replace` (`EnvFile.PersistedContent`).
- Every command line is a process of its own that loads the `.env` file, here read
  line by line (see "Left out"). Later calls run under a root deploy's name exactly
  when that name arrives in the file and survives every later process that writes
  it; the last writer decides. A writer is a root deploy that finds no name in
  force, such as one started with the variable set to blank text
  (`NetworkName.StickyName`, `NetworkName.BlankShellReplaces`). For a name that
  replaces no line by a `$`-pattern, arriving means that no later line assigns
  another name and that it is one line that loads as itself
  (`NetworkName.PlainDeployIsKept`).

## Model

| member | source | states |
|---|---|---|
| Bytes.CompareOrders | src/commands/cmv2/set-gate-tree.ts:32 | Buffer.compare is zero exactly on equal strings and antisymmetric |
| Bytes.CompareTransitive | src/commands/cmv2/set-gate-tree.ts:32 | and transitive, so sorting by it is meaningful |
| Bytes.CompareIsBelow | src/commands/cmv2/set-gate-tree.ts:32 | in bytes: negative if and only if the first differing byte is smaller in the first string, or that is a proper prefix |
| Bytes.SmallerByteDecides | src/commands/cmv2/set-gate-tree.ts:32 | whatever bytes come before and after, the smaller byte decides |
| Merkle.SortLeaves | src/commands/cmv2/set-gate-tree.ts:42 | the leaves in ascending hash order, none lost or added |
| Merkle.SortedPairCommutes | src/commands/cmv2/set-gate-tree.ts:55-58 | the pair hashed for a node does not depend on the order of its children |
| Merkle.SortedPairInjective | src/commands/cmv2/set-gate-tree.ts:55-58 | and determines the two children up to order |
| Merkle.SiblingInRange | src/commands/cmv2/set-gate-tree.ts:70-73 | every sibling index is inside the heap, and index and sibling are the two children of the parent index |
| Merkle.PathAt | src/commands/cmv2/set-gate-tree.ts:68-74 | element k of a proof is the sibling of the k-th ancestor; the proof ends where the ancestors reach the root |
| Merkle.PathClimbs | src/commands/cmv2/set-gate-tree.ts:55-74 | folding a node over the first k proof elements gives its k-th ancestor, and the root after all of them |
| Merkle.LeafPathLengths | src/commands/cmv2/set-gate-tree.ts:66-74 | a leaf proof has length L with 2^L <= 2n-1 and n < 2^(L+1); two proofs differ in length by at most one |
| Merkle.TreeLeavesOf | src/commands/cmv2/set-gate-tree.ts:36-44 | the sorted leaves are one per address, each with that address's double hash |
| TreeBytes.LeavesAscend | src/commands/cmv2/set-gate-tree.ts:42 | the leaves ascend by the first differing byte of their hashes |
| TreeBytes.LeafHashInBytes | src/commands/cmv2/set-gate-tree.ts:36-40 | a leaf is the hash of the hash of twelve zero bytes and the address |
| TreeBytes.NodeHashInBytes | src/commands/cmv2/set-gate-tree.ts:55-58 | a node is the hash of its children's 64 bytes, the smaller first |
| SetGateTree.FillHeap | src/commands/cmv2/set-gate-tree.ts:49-64 | the array holds at every index the value of the heap-shaped tree; children are written before they are read |
| SetGateTree.CollectProof | src/commands/cmv2/set-gate-tree.ts:68-74 | the walk ends and returns the sibling path of its index |
| SetGateTree.CollectProofs | src/commands/cmv2/set-gate-tree.ts:66-77 | the table maps each leaf's address to its path, later leaves overwriting |
| SetGateTree.ProofTableAt | src/commands/cmv2/set-gate-tree.ts:66-77 | the table has exactly the leaves' addresses, each with the proof of a leaf that holds it |
| SetGateTree.BuildTree | src/commands/cmv2/set-gate-tree.ts:34-80 | an error exactly on the empty list, otherwise the root, proofs, heap and sorted leaves of the specification |
| TreeBytes.TreeInBytes | src/commands/cmv2/set-gate-tree.ts:49-64 | the published heap holds the sorted leaf hashes in reverse at its end and, everywhere else, the hash of the two children's bytes, the smaller first |
| TreeBytes.SingleLeaf | src/commands/cmv2/set-gate-tree.ts:36-64 | the root of one address is its leaf |
| TreeBytes.TwoLeaves | src/commands/cmv2/set-gate-tree.ts:42-79 | for two addresses in either order, leaves, heap and root, byte for byte |
| SetGateTree.EveryAddressIsProved | src/commands/cmv2/set-gate-tree.ts:49-77 | completeness: exactly the listed addresses have a proof, and it folds to the root |
| MerkleSecurity.Membership | src/commands/cmv2/set-gate-tree.ts:55-77 | soundness: absent a collision, an address with any proof that folds to the root is listed |
| SetGateTree.OnlyEmittedProofsVerify | src/commands/cmv2/set-gate-tree.ts:49-77 | absent a collision, a proof verifies for an address if and only if the table has the address and it is the very proof emitted for it |
| MerkleSecurity.PathInputs | src/commands/cmv2/set-gate-tree.ts:60-74 | checking an emitted proof hashes nothing the builder did not hash |
| MerkleSecurity.CanonicalHeap | src/commands/cmv2/set-gate-tree.ts:42-64 | the heap depends only on which addresses are listed, not on their order |
| MerkleSecurity.RootCommitsToSet | src/commands/cmv2/set-gate-tree.ts:42-79 | absent a collision, two repetition-free lists have one root if and only if they list the same addresses |
| SetGateTree.Dedup | src/commands/cmv2/set-gate-tree.ts:124-130 | no repeats, and the same addresses |
| SetGateTree.DedupInOrder | src/commands/cmv2/set-gate-tree.ts:124-130 | and they stand in the order of their first appearance |
| SetGateTree.Unique | src/commands/cmv2/set-gate-tree.ts:124-130 | the de-duplicated addresses in order of first appearance, or failure at any invalid one |
| SetGateTree.SetGateTree | src/commands/cmv2/set-gate-tree.ts:122-131 | an invalid address or an empty input is an error; otherwise the tree of the de-duplicated addresses |
| SetGateTree.SameLeaves | src/commands/cmv2/set-gate-tree.ts:36-44 | with distinct leaf hashes, the sorted leaves depend only on the set of addresses |
| SetGateTree.SameSetSameTree | src/commands/cmv2/set-gate-tree.ts:122-131 | two inputs that name the same set of addresses, whatever order, spelling and repeats, publish the same root and heap, and with distinct leaf hashes the same everything |
| SetGateTree.PublishedRootCommits | src/commands/cmv2/set-gate-tree.ts:122-131 | absent a collision, equal roots mean the same set of addresses, and the same everything |
| Credentials.DecodeEncode | packages/keygen/src/index.ts:189-191 | decoding the hex of bytes gives the bytes back |
| Credentials.EncodeDecode | packages/keygen/src/index.ts:189-226 | decoding and re-encoding hex text only lower-cases it |
| Credentials.CredentialsAgree | packages/keygen/src/index.ts:162-192 | the hex of the 32 generated bytes is exactly the string the use command filters on |
| Credentials.CredentialLayout | packages/keygen/src/index.ts:186-192 | the 32 bytes one by one: type, eleven zeros, the address's twenty, the high digit first |
| Credentials.FilterText | src/commands/lido-core/keys/use.ts:25-26 | the filter is the type's two digits, 22 zeros and the lower-case address |
| Strings.LowerLetters | src/commands/lido-core/keys/use.ts:23-26 | lower-casing goes letter by letter down the alphabet and leaves the rest |
| Credentials.AddressForm | packages/keygen/src/index.ts:162 | an address is 0x and forty hexadecimal digits |
| Credentials.CredentialsDiscriminate | src/commands/lido-core/keys/use.ts:23-28 | two filters are equal if and only if type and address bytes agree |
| State.JsonDb.Read | packages/state/src/json-db/index.ts:25-38 | the stored object, the empty one when the file is missing |
| State.JsonDb.Write | packages/state/src/json-db/index.ts:45-48 | the file is the given object |
| State.JsonDb.Update | packages/state/src/json-db/index.ts:40-43 | shallow merge: new keys win, every other key is kept |
| State.State.GetDepositData | packages/state/src/index.ts:67-81 | the stored list, else the fallback file's |
| State.State.UpdateDepositData | packages/state/src/index.ts:179-186 | replaces the deposit list and keeps the keystores |
| State.State.UpdateValidatorsData | packages/state/src/index.ts:190-203 | appends to both stored lists in step, without merging the fallback file |
| Keys.GenerateDepositData | packages/keygen/src/index.ts:128-239 | the six input errors in order; otherwise one entry per index of the interval, in order |
| Keys.InputErrors | packages/keygen/src/index.ts:140-169 | which error each bad input gives, and in which order they are looked at |
| Keys.DevNet.GenerateKeys | src/commands/validator/keys/generate.ts:29-60 | starts at the current number of keys, appends the entries, changes nothing on error |
| KeySafety.GeneratedRecords | packages/keygen/src/index.ts:176-236 | for both types and any letter case, over any store or fallback: what was stored stays, and the i-th index after the visible records gets an unused record of its key and the credentials of the requested type and address, and a keystore at its path |
| KeySafety.GenerateErrors | packages/keygen/src/index.ts:148-169 | when a generation fails, and with what; then nothing changes |
| AddKeys.GeneratedAreUnused | src/commands/validator/keys/generate.ts:29-60 | a generation of either type adds exactly its keys to the unused ones |
| AddKeys.UseAfterGenerate | src/commands/lido-core/keys/use.ts:19-50 | a use of the same type and address, in any letter case, then dumps exactly the left-overs and those keys |
| Keys.FilterByCredentials | src/commands/lido-core/keys/use.ts:28 | the same record objects, exactly those with the credentials, in order |
| Keys.FilterUnused | src/commands/lido-core/keys/use.ts:30 | the deposits of the records not yet used, in order |
| Keys.MarkAll | src/commands/lido-core/keys/use.ts:46-48 | marking through the filtered list marks exactly the matching records of the full list |
| Keys.Allocate | src/commands/lido-core/keys/use.ts:28-50 | the dump is what was unused before marking; the rewritten list has every matching key used |
| Keys.DevNet.UseKeys | src/commands/lido-core/keys/use.ts:16-51 | the three errors, each changing nothing; otherwise the dump and the rewritten store |
| KeySafety.MarkingConserves | src/commands/lido-core/keys/use.ts:28-50 | marking moves exactly the dumped keys from unused to used, counting repeats |
| KeySafety.MarkingExhausts | src/commands/lido-core/keys/use.ts:46-48 | after marking, no key with those credentials is unused |
| KeySafety.UseEffect | src/commands/lido-core/keys/use.ts:16-51 | a successful use empties its pool, dumps exactly what was unused and changes nothing but used flags |
| KeySafety.UseErrors | src/commands/lido-core/keys/use.ts:19-32 | when a use fails, and with what; then nothing changes |
| KeySafety.UnusedFirst | src/commands/lido-core/keys/use.ts:28-30 | what a use dumps, record by record and in store order |
| KeySafety.RunKeepsInv | packages/state/src/index.ts:179-203 | every sequence of generations, uses and foreign appends keeps conservation, alignment and ordered index intervals |
| KeySafety.KeysConserved | src/commands/lido-core/keys/use.ts:19-50 | in every run from an empty store, the keys of all dumps ever written are exactly the keys marked used, counting repeats |
| KeySafety.AllocationSafety | src/commands/lido-core/keys/use.ts:19-50 | with injective derivation, and foreign deposits distinct and outside it, a key is used if and only if some dump was written with it, and no two dumps share a key |
| KeySafety.FilesHoldLastDumps | src/commands/lido-core/keys/use.ts:34-44 | in every run, there is a file for exactly the names ever dumped, holding the last dump of its name |
| KeySafety.DumpSurvives | src/commands/lido-core/keys/use.ts:34-44 | a dump is still in its file if and only if no later successful use had its name |
| KeySafety.DepositsDistinct | packages/keygen/src/index.ts:176-236 | in every run, injective derivation, and foreign deposits distinct and outside it, make all stored deposits distinct |
| KeySafety.IndicesNeverReused | src/commands/validator/keys/generate.ts:29-60 | index intervals never overlap, keys sit at their own index, the two lists stay equally long and aligned |
| KeySafety.FallbackReusesIndices | packages/state/src/index.ts:67-81 | over any generations and uses next to a fallback file, failing ones included, the index intervals are pairwise disjoint if and only if a successful use writes the store first, or there is at most one, or the file is empty, or it lists at least as many keys as all derive |
| AddKeys.SplitBatches | src/commands/cmv2/add-keys.ts:44-49 | the batches of the specification, with the batch size raised to at least one |
| AddKeys.BatchesExact | src/commands/cmv2/add-keys.ts:44-49 | batches lie between 1 and the size, all but the last are full, and they sum to the total |
| AddKeys.AddCMv2Keys | src/commands/cmv2/add-keys.ts:56-82 | generate and use per batch, stopping at the first failure |
| AddKeys.AddKeysExact | src/commands/cmv2/add-keys.ts:44-82 | the command succeeds; a single dump has the given name and several are numbered from zero, so all are in their files at the end; they have the batch sizes, left-over keys going out with the first; together they hold the left-overs and exactly the next derived keys |
| AddKeys.AddKeysDisjoint | src/commands/cmv2/add-keys.ts:56-82 | with nothing left over, no key is in two of the new dumps |
| AddKeys.AddKeysOtherwise | src/commands/cmv2/add-keys.ts:46-66 | without keys to add, or with an invalid vault, nothing changes; the latter is an error |
| Artifact.RunKeepsInv | packages/services/src/devnet-service-artifact.ts:92-171 | the protocol invariant holds along every interleaving |
| Artifact.SingleFlightAlways | packages/services/src/devnet-service-artifact.ts:92-98 | an activation is live if and only if it is the one in ensurePromise; the hook runner is called at most once; commands pushed are those handed over followed by those still emitted, and are the install command once per probe that found no directory |
| Artifact.EnsuredTurnsOnce | packages/services/src/devnet-service-artifact.ts:152-160 | the flag turns true only after a materialise that returned normally, and no step turns it back |
| Artifact.EnsuredStays | packages/services/src/devnet-service-artifact.ts:152-160 | once true, it is true after every run |
| Artifact.ProbePushes | packages/services/src/devnet-service-artifact.ts:120-128 | a probe that finds no directory pushes the install command behind what is emitted; one that finds it pushes nothing |
| Artifact.HandsOverAll | packages/services/src/devnet-service-artifact.ts:152-167 | in every run, an activation whose materialise returned marks ensured; with commands and a runner, the only runner call of the run gets every command ever pushed and nothing is left; otherwise the commands stay and the callers settle |
| Artifact.HookDecides | packages/services/src/devnet-service-artifact.ts:165-170 | a failing hook settles the callers that wait for it as failed, a successful one as successful, and nobody else |
| Artifact.FailureDecides | packages/services/src/devnet-service-artifact.ts:62-134 | so does a failing clone or copy, which leaves the directory behind if it was made |
| Artifact.FreshInstall | packages/services/src/devnet-service-artifact.ts:92-171 | from nothing, one undisturbed call fills the directory, hands over the install command once and returns |
| Artifact.HookCallNeverWaits | packages/services/src/devnet-service-artifact.ts:155-166 | a call from inside the install hook settles at once, successfully |
| Artifact.StepRank | packages/services/src/devnet-service-artifact.ts:120-171 | resuming an activation brings it closer to its end; nothing else moves it, and an ended one never changes |
| Artifact.ParkedSettles | packages/services/src/devnet-service-artifact.ts:92-98 | every parked caller settles, with its activation's outcome, after at most five resumptions of that activation |
| Artifact.EnsuredOverPartial | packages/services/src/devnet-service-artifact.ts:120-160 | in every run from any directory, an ensured artifact has a partial directory if and only if it was partial from the start or some attempt failed after making it; otherwise the directory is complete if there is anything to fill it with |
| Artifact.NeverRepaired | packages/services/src/devnet-service-artifact.ts:120-135 | a directory left partial, by an attempt or before the first, is partial after any run |
| Artifact.RetryTrustsLeftovers | packages/services/src/devnet-service-artifact.ts:120-157 | any attempt that finds a directory, whatever its state, pushes no command, skips cloning and copying, and marks the artifact ensured |
| Artifact.ClonesCanLeavePartial | packages/services/src/devnet-service-artifact.ts:100-118 | a clone that fails after making the directory is such a failure |
| Artifact.DevnetServiceArtifact.Ensure | packages/services/src/devnet-service-artifact.ts:92-98 | returns at once, joins the live activation, or starts one |
| Artifact.DevnetServiceArtifact.AfterProbe | packages/services/src/devnet-service-artifact.ts:120-130 | an existing path ends materialise; otherwise the install command is pushed before cloning |
| Artifact.DevnetServiceArtifact.FillDirectory | packages/services/src/devnet-service-artifact.ts:62-118 | a step that fails before or after making the directory ends the activation; one that succeeds fills it |
| Artifact.DevnetServiceArtifact.AfterClone | packages/services/src/devnet-service-artifact.ts:130-134 | without a repository nothing happens; otherwise the clone fills the directory, up to the workspace copy, if any |
| Artifact.DevnetServiceArtifact.AfterCopy | packages/services/src/devnet-service-artifact.ts:132-134 | the copy completes the directory, or its failure ends the activation |
| Artifact.DevnetServiceArtifact.AfterMaterialize | packages/services/src/devnet-service-artifact.ts:154-167 | marks ensured, then hands the emitted commands to the runner if there are any and one is set |
| Artifact.DevnetServiceArtifact.AfterHook | packages/services/src/devnet-service-artifact.ts:165-170 | the hook's outcome ends the activation |
| Artifact.DevnetServiceArtifact.Finally | packages/services/src/devnet-service-artifact.ts:168-170 | clears the promise and settles every caller of the activation |
| Command.Runtime.ExecuteCommandWithLogging | packages/command/src/command.ts:123-208 | restores the depth on every exit, returns nothing from the root, and yields the outcome, notifications and depths of the interpreter |
| Command.Runtime.RunHandler | packages/command/src/command.ts:148-152 | likewise for a handler with nested commands |
| Command.HandlerMeaning | packages/command/src/command.ts:123-208 | a handler all of whose nested executions pass (return, or throw a truthy value) runs as it would without the wrapper |
| Command.CommandMeaning | packages/command/src/command.ts:123-208 | when everything run inside a command passes: nested, it yields its handler's value or error if and only if that passes, and exactly what otherwise; notifications are those of the executions in post-order; every handler starts at its nesting level |
| Command.SentExactly | packages/command/src/command.ts:144-199 | one notification for each execution that stands for an event, in post-order with the command last: its name and event; succeeded without error exactly when it returned, failed with its error's text exactly when it threw |
| Command.CommandDepths | packages/command/src/command.ts:148-203 | whatever happens, handlers start one deeper than their command was called, level by level |
| Command.EventOfName | packages/command/src/command.ts:70-118 | the event of every command, by its name, its last word, the root and whether the chain is deployed |
| Command.ActionOfWord | packages/command/src/command.ts:31-43 | the last word decides the action |
| Command.ServiceOfName | packages/command/src/command.ts:45-68 | the service is what precedes the last word, with the stem of one in -up or -down; of a single word, the name |
| Command.InvisibleExactly | packages/command/src/command.ts:123-208 | handlers throughout a tree observe exactly what they would without the wrapper if and only if every nested execution passes |
| Command.TruthyTreesPass | packages/command/src/command.ts:153-206 | in trees that throw only truthy values, Error objects in particular, everything passes |
| Receivers.SanitizedIsClean | src/commands/ehw/up.ts:75-79 | a sanitised name is never empty, holds only lower-case letters, digits and dashes, and has no edge dash |
| Receivers.SanitizeFixpoints | src/commands/ehw/up.ts:75-79 | sanitising fixes a name if and only if it is clean |
| Receivers.SanitizeIdempotent | src/commands/ehw/up.ts:75-79 | hence sanitising twice is sanitising once |
| Receivers.SanitizeMeaning | src/commands/ehw/up.ts:75-79 | a sanitised name is the dashed text without the dashes at its ends, or slack-default when nothing else is left |
| Receivers.PlainIsCopied | src/commands/ehw/up.ts:75-79 | in the dashed text letters, digits and dashes are copied |
| Receivers.RunIsOneDash | src/commands/ehw/up.ts:75-79 | and a run of anything else is one dash |
| Receivers.CandidatesDiffer | src/commands/ehw/up.ts:161-166 | the candidates of one base name are pairwise different |
| Receivers.TakenBound | src/commands/ehw/up.ts:161-166 | pigeonhole: a used set cannot hold more first candidates than it has members |
| Receivers.FreeIndex | src/commands/ehw/up.ts:161-166 | the first candidate that is not used; all before it are |
| Receivers.Builder.UniqueName | src/commands/ehw/up.ts:160-166 | the search ends at that candidate |
| Receivers.FreeNameExactly | src/commands/ehw/up.ts:160-166 | the base name unless taken, else the base with the first free number from two on |
| Receivers.EligibleExactly | src/commands/ehw/up.ts:148-158 | a route registers if and only if it is not disabled and its own variable, or the default one, is set and not blank; that value, trimmed, is its secret |
| Receivers.MatchersExactly | src/commands/ehw/up.ts:178-180 | its matchers are trimmed, in order, blank ones dropped |
| Receivers.RegisterExactly | src/commands/ehw/up.ts:148-187 | what one route adds, under a fresh name made of its own id or the fallback |
| Receivers.RegisterAllNext | src/commands/ehw/up.ts:189-191 | routes register in order, the k-th with the fallback id numbered k |
| Receivers.Builder.RegisterRoute | src/commands/ehw/up.ts:148-187 | a disabled route or one without webhook changes nothing; otherwise one receiver, route, secret and used name |
| Receivers.Builder.RegisterRoutes | src/commands/ehw/up.ts:189-191 | the routes in order, each with its own fallback name |
| Receivers.Builder.BuildAlertmanagerSlackConfig | src/commands/ehw/up.ts:140-217 | configured routes, or one default route; an error exactly when Slack is enabled and nothing resolved |
| Receivers.ReceiversMatchRoutes | src/commands/ehw/up.ts:143-191 | names are pairwise different; receivers, routes and secrets match one to one and are those of the eligible routes in order |
| Receivers.BuildIsConsistent | src/commands/ehw/up.ts:140-217 | a build fails exactly when Slack is enabled and nothing is registered; otherwise all of this holds of its eligible routes, or of the default route |
| Receivers.DefaultBuild | src/commands/ehw/up.ts:192-204 | without configured routes the default variable makes exactly the receiver, route and secret named default |
| NodePorts.PickFreeNodePort | src/commands/kubo-k8s/up.ts:88-102 | the next free port upwards, else from the bottom of the range |
| NodePorts.PickIsFirstCyclic | src/commands/kubo-k8s/up.ts:88-102 | that is the first free port in cyclic order, and there is none if and only if the whole range is used |
| NodePorts.PickFromDefault | src/commands/kubo-k8s/up.ts:88-102 | from 32355 up to 32767, then from 30000 |
| NodePorts.KeepPort | src/commands/kubo-k8s/up.ts:147-158 | a request another service occupies is dropped, then the release's own port is taken |
| NodePorts.SelectPorts | src/commands/kubo-k8s/up.ts:140-177 | the two ports of the specification, also when the cluster cannot be read |
| NodePorts.KeptExactly | src/commands/kubo-k8s/up.ts:147-158 | a request that is not blank is honoured unless another service has its text; otherwise the release's own port is kept |
| NodePorts.OwnPortFirst | src/commands/kubo-k8s/up.ts:44-61 | the own port is that of the first own service |
| NodePorts.NamedPortFirst | src/commands/kubo-k8s/up.ts:54-60 | its first port of the name, unless unset or zero |
| NodePorts.UsedExactly | src/commands/kubo-k8s/up.ts:63-70 | the used ports are the non-zero ports of all services |
| NodePorts.PortTextMeaning | src/commands/kubo-k8s/up.ts:82-85 | the text a port is compared by |
| NodePorts.SelectExactly | src/commands/kubo-k8s/up.ts:140-177 | what is not kept gets one free port for both protocols; without any, TCP gets 32355 and UDP follows TCP |
| NodePorts.OccupiedExactly | src/commands/kubo-k8s/up.ts:72-86 | on the decimal text of a number, the textual comparison says whether another service has that port |
| NodePorts.FreePortIsUnheld | src/commands/kubo-k8s/up.ts:63-86 | a port outside the used set is held by no other service |
| NodePorts.ClashExactly | src/commands/kubo-k8s/up.ts:140-177 | for each protocol, when exactly the number of the chosen text is a port of another service: a request in a text that is not its decimal, a shared own port, or a full range with the default taken |
| NodePorts.NoClash | src/commands/kubo-k8s/up.ts:140-177 | with requests in decimal text, a free port left and own ports not shared, no other service holds either chosen port |
| NodePorts.RerunIsStable | src/commands/kubo-k8s/up.ts:140-177 | re-running after applying the numbers of the chosen texts picks the same numbers |
| RoundRobin.PoolExactly | src/commands/oracles-k8s/up.ts:188-193 | the pool is the parts between commas that are not blank, trimmed, in order; without any, the private endpoint |
| RoundRobin.ConsensusPicker.Next | src/commands/oracles-k8s/up.ts:196-200 | the pool entry of the turn, and one turn consumed |
| RoundRobin.AssignEndpoints | src/commands/oracles-k8s/up.ts:443-455 | skipped releases get none, the collector the performance endpoint, every other release the entry of its own turn |
| RoundRobin.EndpointExactly | src/commands/oracles-k8s/up.ts:443-455 | which releases are skipped, which takes the performance endpoint, and that only the others use up a turn |
| RoundRobin.PicksAreFair | src/commands/oracles-k8s/up.ts:188-201 | after m turns every position of a pool of l was picked floor(m/l) times, the first m mod l once more |
| RoundRobin.AssignmentsAreFair | src/commands/oracles-k8s/up.ts:443-455 | so the releases that take a turn are spread evenly, whatever is skipped in between |
| RoundRobin.AssignedCounts | src/commands/oracles-k8s/up.ts:443-455 | what is spread evenly is the number of releases whose turn falls on a pool position |
| RoundRobin.AssignedEndpoint | src/commands/oracles-k8s/up.ts:453-455 | and those are the releases a fresh picker sends there |
| Expressions.TokenAtMeaning | packages/command/src/expressions.ts:17 | a string starts with a token if and only if it starts with the braces around a non-empty, brace-free body |
| Expressions.RegexIsTokenAt | packages/command/src/expressions.ts:17-29 | however the regular expression's groups split a match, it is that token and the trimmed expression is the same |
| Expressions.TokenAtIsRegex | packages/command/src/expressions.ts:17 | and every such token is a match |
| Expressions.ScanIsLeftmost | packages/command/src/expressions.ts:27-34 | every string has a leftmost segmentation that rejoins to it |
| Expressions.LeftmostUnique | packages/command/src/expressions.ts:27-34 | and only one |
| Expressions.ResolveStringMeaning | packages/command/src/expressions.ts:27-34 | fails exactly when some token does not resolve, naming the first; otherwise the literals joined with the resolved texts, never rescanned |
| Expressions.ResolveAllConcat | packages/command/src/expressions.ts:41-52 | strings are resolved independently of one another, failing at the first failure |
| Expressions.ResolveValueAgrees | packages/command/src/expressions.ts:36-55 | resolving a nested value resolves its strings in order and keeps its shape |
| Expressions.ResolveValueMeaning | packages/command/src/expressions.ts:36-55 | for any resolver of paths: fails if and only if some token is unresolved, naming the first in order; otherwise list lengths, keys and non-string leaves are kept |
| Expressions.PathResolves | packages/command/src/expressions.ts:19-25 | a path resolves if and only if every step finds its key in an object or array and the last value is neither null nor undefined; to that value's text |
| Expressions.ResolveExpressionsMeaning | packages/command/src/expressions.ts:17-55 | against a context: fails exactly when some token's path stands for nothing; otherwise only strings change, each to its resolution |
| Expressions.TokenResolves | packages/command/src/expressions.ts:27-34 | a token, with white space around its path, is replaced by the text of the value its path leads to |
| Expressions.LiteralIsKept | packages/command/src/expressions.ts:27-34 | text outside tokens is kept |
| Strings.SplitExact | packages/command/src/expressions.ts:20 | the parts of a path hold no dot and rejoin to it |
| Strings.TrimParts | packages/command/src/expressions.ts:29 | trimming takes away white space at the ends and nothing else |
| EnvFile.FindIsLeftmost | packages/command/src/network-name.ts:116-117 | the line found is the first one starting with the key; none is found only when there is none |
| EnvFile.FindReplaced | packages/command/src/network-name.ts:116-117 | replacing the found line leaves the same place to be found next time |
| EnvFile.PatternChanges | packages/command/src/network-name.ts:117 | a replacement that holds a `$`-pattern never expands to itself |
| EnvFile.PersistedContent | packages/command/src/network-name.ts:110-130 | the file is its old text with the line in place, if and only if there was no such line or the name holds no `$`-pattern |
| EnvFile.PersistedHit | packages/command/src/network-name.ts:110-130 | the new line is then the first one starting with the key |
| EnvFile.NewLineOnTop | packages/command/src/network-name.ts:124-128 | a file without the line gets it on top; a missing file is just the line |
| EnvFile.PatternsExactly | packages/command/src/network-name.ts:117 | what each of the four patterns is replaced by, in any surroundings |
| EnvFile.LastPersistWins | packages/command/src/network-name.ts:110-130 | persisting a then b is persisting b |
| EnvFile.DollarNameIsMangled | packages/command/src/network-name.ts:117 | the name `$&` splices the old line into the new one |
| EnvFile.PatternNameByAccident | packages/command/src/network-name.ts:117 | a name with a `$`-pattern that is mangled in the file and yet loads back whole |
| EnvFile.LoadedSlot | bin/run.js:4-5 | of several assigning lines the last wins: those after a slot, then the slot, then those before it |
| EnvFile.LoadsAsItself | bin/run.js:4-5 | a trimmed name comes back through the loader if and only if it holds no hash sign, is not in quotes, and is not an escape after a double quote |
| EnvFile.PersistedLoads | packages/command/src/network-name.ts:110-130 | for any file and any two names: after persisting one, the next process reads the other if and only if what follows the slot assigns it, or assigns nothing and the written text does |
| EnvFile.PlainArrives | packages/command/src/network-name.ts:110-130 | for a name that replaces no line by a pattern: it arrives as itself if and only if nothing later in the file assigns another, and, if that leaves it to the line, it is one loadable line |
| EnvFile.OneLineArrives | packages/command/src/network-name.ts:110-130 | and a one-line name arrives as what the loader makes of it |
| NetworkName.Process.constructor | bin/run.js:4-7 | start-up loads the file unless the shell sets the variable, even to blank text |
| NetworkName.BootMeaning | bin/run.js:4-7 | the name in force is the shell's variable if set, else what the file loads |
| NetworkName.Process.PersistDevnetName | packages/command/src/network-name.ts:110-130 | the file becomes that content, unreadable files included |
| NetworkName.Process.ResolveCliNetworkName | packages/command/src/network-name.ts:132-182 | result, environment and file of the specification, branch by branch |
| NetworkName.ResolveMeaning | packages/command/src/network-name.ts:132-182 | for every world and request: the flag with a value wins over a name in force, and that over the rest; persisted exactly by a root deploy that finds no name in force, generated exactly when besides no flag gives one |
| NetworkName.FlagForms | packages/command/src/network-name.ts:84-85 | the two forms of the flag |
| NetworkName.DeployNames | packages/command/src/network-name.ts:87-88 | the root deploy commands |
| NetworkName.FreshEnvFile | packages/command/src/network-name.ts:127-128 | the file made where there is none |
| NetworkName.ProcessCarries | packages/command/src/network-name.ts:132-182 | exactly when the file carries a name after a process: if the process writes, the name it writes must arrive as that name; if not, the file must have carried it |
| NetworkName.OneLineWriterCarries | packages/command/src/network-name.ts:132-182 | for a writer of a one-line name that is no pattern replacement, what follows the slot, or what the loader makes of the name, must be it |
| NetworkName.SequenceCarries | packages/command/src/network-name.ts:132-182 | over any sequence of processes, exactly when the file carries a name at the end: the last writer decides, and without one the file |
| NetworkName.NamedFileIsFixed | packages/command/src/network-name.ts:150-164 | once the file names a devnet, no sequence of processes changes it, unless one is a root deploy started with the variable set to blank text |
| NetworkName.FollowersAgree | packages/command/src/command.ts:230-242 | every process without the variable and the flag runs under a name if and only if the file carries it |
| NetworkName.StickyName | packages/command/src/network-name.ts:132-182 | for every root deploy and any processes after it: right after, all calls without the variable and the flag run under its name if and only if the name is kept; later, if and only if it survives what ran in between, which it does if all of that is quiet |
| NetworkName.PlainDeployIsKept | packages/command/src/network-name.ts:132-182 | for a deploy that is no pattern replacement: kept if and only if the file already carried the name, or nothing later assigns another and it is one loadable line |
| NetworkName.BlankShellReplaces | packages/command/src/network-name.ts:132-182 | a root deploy started with the variable blank puts its own name over the one in the file |
| NetworkName.LaterLineWins | packages/command/src/network-name.ts:116-117 | with a second, blank DEVNET_NAME line the name is not carried |

## Left out

- Merkle.SortLeaves: a value, where the source sorts the array in place.
- SetGateTree.SetGateTree: reading the CSV or JSON file, writing the output files and the contract calls are not modelled; address parsing is a parameter, and proof-table keys are address bytes instead of lower-case text.
- AddKeys.AddCMv2Keys: the transaction that sends each dump to the operator is not modelled.
- Keys.GenerateDepositData: amounts, signatures, roots and keystore encryption are left out; public keys are a function of the index, for the one mnemonic in use.
- Keys.DevNet.UseKeys: the two copies of a dump that the command writes are one named file.
- Credentials.CredentialsAgree: lower-casing is that of ASCII text, which is all a valid address holds.
- State.JsonDb.Update: malformed JSON and file-system errors are not modelled, nor is the path reader of the store, which is a lookup.
- Artifact.RunKeepsInv: file-system and git effects are the answers of a step and the state of the directory; `clean`, and what the install hook does to the directory, are left out.
- Command.CommandMeaning: root commands running in parallel share the depth counter in the source; only sequential nesting is modelled, and a handler branches finitely often after each nested command. Logging, durations and network names in notifications are left out.
- Receivers.Builder.RegisterRoute: lower-casing is a parameter; user names, icons, intervals and the resolved flag, which are copied, are left out.
- NodePorts.SelectPorts: the external host and the Kubernetes calls are left out; which number the chart takes a text for is a parameter that reads decimal texts as themselves (`workspaces/kubo/Makefile:61`).
- RoundRobin.AssignEndpoints: the routing that computes the pool text and the performance endpoint is a parameter.
- Expressions.ResolveExpressionsMeaning: text conversion of resolved values is a parameter, and inherited properties of context objects are not modelled.
- NetworkName.StickyName: the generator's random choice is a parameter, non-empty and trimmed.
- EnvFile.LoadedSlot: the loader is modelled line by line, with the line breaks of the replacing pattern. The dotenv library breaks lines at line feeds and carriage returns only, so text with U+2028 or U+2029 loads differently there; and quoted values that span lines, or hold escaped quotes, are not modelled in full.
- Kubernetes, Helm, Docker, git, HTTP, Slack and contract calls, Keccak, BLS and SSZ: effects and primitives outside the model.
- Stand scripts, embedded service configurations and state extensions: they hold no logic of their own.
