# A verified model of the MPC wallet

The repository is a wallet whose keys are split between nodes. A TSS service runs key generation and
signing between the nodes, and a backend turns threshold signatures into Ethereum transactions, serves
asset data through a cache, rotates login tokens, pages transactions and meters API use. This project
models those parts in Dafny 4.11 and proves what they promise, over every input, every run or every
reachable state. `dafny verify dfyconfig.toml` checks all of it.

Code that only computes is modelled by functions. Code that changes things step by step is modelled by
methods and classes, each proved against a function or a predicate, and the promises are lemmas about
those. Messages between nodes are a step relation over all nodes, whose node-level steps are the
functions that the server and party classes are proved against. Libraries (the elliptic curve, AES-GCM, Base64,
JSON, JWT, UUID parsing, SHA-256) are parameters with the law they must satisfy.

| file | component |
|---|---|
| `Basics`, `Sequences`, `Digits`, `Decimal`, `Modular` | shared types, permutations, positional notation, `%d`, arithmetic modulo a prime |
| `HashTruncation`, `Signature` | from a digest to a scalar, and from a DER signature to 65 recoverable bytes |
| `NodeTable`, `Selection`, `NodeSelector` | the table of nodes as a value, the selections as specifications, and the class |
| `PartyIds` | party identities, sorting and indices |
| `Session`, `SessionProofs`, `SessionIsolation`, `MpcServer` | the session layer as a step relation, its invariants, who is named as a sender, and the classes |
| `ShareStore` | encrypted shares in the shared database |
| `Assets`, `AssetCache`, `AssetService`, `AssetRuns` | the uncached asset queries, what the cache holds, the read-through cache, and calls that interleave |
| `Tokens`, `Quota`, `Paging` | refresh-token rotation, the API quota, transaction pages |

## Where the code does something else than expected

Each of these is proved with the exact condition under which the expected behaviour holds.

- The conversion returns a low S for every s in 1..N-1, but not for every DER integer that it accepts:
  the output is low exactly for s between -⌊N/2⌋ and N + ⌊N/2⌋ (`Signature.LowSExactly`). The negated form of
  a valid signature with a high s converts and keeps the high S (`Signature.HighSReturned`,
  `Signature.HighSInput`). The conversion panics exactly on numbers wider than 32 bytes
  (`Signature.PanicsExactly`).
- Round-robin looks at the table only to count it. When enough nodes are registered, it returns only
  registered nodes, or only online ones, for every session exactly when the ids from 1 to
  min(n, 255 + threshold) are registered, or online, because it starts at one hash byte
  (`NodeSelector.RegisteredExactly`, `NodeSelector.UnregisteredChosen`). Its ids
  repeat exactly when the threshold exceeds the number of nodes (`Selection.WindowDistinct`), and over the 256
  values of the byte all ids are chosen equally often exactly when n divides 256 or all nodes are chosen
  (`Selection.FairExactly`). The selections of two sessions always share a node exactly when the threshold is
  more than half the nodes or more than 255 (`Selection.SelectionsMeetExactly`).
- A sender is named by the low 16 bits of its id. Between two nodes or more, and as soon as some message
  parses, messages are attributed to their sender in every run exactly when each id is below 65536, or has
  low bits 65535, which receivers refuse (`SessionIsolation.IsolationExactly`,
  `SessionIsolation.Misattributed`).
- `OnMsg` does not look at the session's party list, and its check of the claimed sender never fails, because
  the parsed sender is the one passed in. The queued senders are parties in every run exactly when every node
  that takes part in the session, is not refused and has another node to talk to is one
  (`SessionIsolation.MembersExactly`, `SessionIsolation.OutsiderQueued`).
- Nodes other than 2 and 3 report success after key generation and keep no share
  (`ShareStore.StoredIsLoadableExactly`).
- Session ids that are spellings of one UUID share a row. A peer loads only shares stored under its own
  session id, in every run over some ids, exactly when no other of them denotes the same UUID
  (`ShareStore.OwnSessionExactly`, `ShareStore.OtherSpelling`).
- Token dates are whole seconds: a refresh token that was replaced still verifies exactly while the
  replacement carries the same dates (`Tokens.ReplacedVerifiesExactly`, `Tokens.SameSecondSurvives`).
- Tokens carry no type, and only refresh verification reads the store: a refresh token, replaced or revoked or
  not, passes as an access token exactly until it expires (`Tokens.PassesAsAccessExactly`).
- The offset of a page is cut to 32 bits. A page behind the end is empty exactly when its offset modulo 2^32
  lies between the length and 2^31; before that it shows rows again, and after that the query fails
  (`Paging.LaterPageExactly`, `Paging.WrappedPage`, `Paging.FailingPage`).
- The monthly count begins at a midnight in UTC but takes the day of the month from local time. With one
  offset from UTC all year, an organization is admitted at most max - 1 times in a local month, plus once for
  each request in flight or without a row, in every run exactly when the offset is zero
  (`Quota.QuotaExactly`). Elsewhere it can be admitted max times more (`Quota.UncoveredRun`). In any zone the
  same holds exactly when every window of the count, which compares local clock readings, holds the local month
  up to its end (`Quota.WindowExactly`).
- Concurrent requests can exceed the quota even in UTC, by up to the number in flight less one
  (`Quota.OvershootBound`, `Quota.OvershootReached`).

## Model

| member | source | states |
|---|---|---|
| HashTruncation.HashToInt | tss/party/party.go:375-388 | cutting to whole bytes and shifting gives bits2int of RFC 6979, section 2.3.2, for every digest and order: the digest's value divided by 2 to its bits beyond the order's, and the whole value for 32 bytes and an order of 256 bits |
| HashTruncation.BitLenExactly | tss/party/party.go:376 | the bits of the order are the exponent of the next power of two above it |
| HashTruncation.CutThenShift | tss/party/party.go:378-386 | the two-step truncation equals taking the leftmost bits in one step |
| HashTruncation.BitsValue | tss/party/party.go:382 | reading bytes and reading their bit string give the same number |
| HashTruncation.Bits2IntShort | tss/party/party.go:383-387 | a digest no longer than the order is taken whole |
| Signature.ConvertDERToEthSignature | backend/pkg/utils/conversion.go:21-50 | the flip, the padding and the search over v compute the specified conversion, with its decoding error, its failure and its panic |
| Signature.ConvertsExactly | backend/pkg/utils/conversion.go:21-50 | for all decoded integers, success happens exactly when the fields are in range, the digest has 32 bytes and some key with the expected address made the signature |
| Signature.InRangeConvertsExactly | backend/pkg/utils/conversion.go:27-50 | for r and s in 1..N-1 the condition is about the signature before any flip |
| Signature.SignatureConverts | backend/pkg/utils/conversion.go:27-47 | a valid threshold signature always converts, flipped or not; without a second key at the address the result recovers the signer, and v is the nonce's parity inverted by a flip |
| Signature.SignedDigestConverts | tss/party/party.go:238-239 | a signature that the parties make on the truncated transaction digest converts in the backend, which recovers from the digest itself |
| Signature.ConvertedIsSound | backend/pkg/utils/conversion.go:38-47 | whatever is returned recovers a key with the expected address under which (r, S) verifies (section 4.1.4 of SEC 1) |
| Signature.EqualFoldExactly | backend/pkg/utils/conversion.go:44 | addresses match exactly when they differ in the case of ASCII letters only |
| Signature.ConvertedAddress | backend/pkg/utils/conversion.go:38-47 | whatever converts recovers a key whose address is the expected one up to letter case, and id 1 is returned only when id 0 does not |
| Signature.CaseVariantConverts | backend/pkg/utils/conversion.go:38-47 | a valid signature converts for every spelling of its signer's address in upper and lower case |
| Signature.ErrorsExactly | backend/pkg/utils/conversion.go:21-50 | which error or panic each failure gives |
| Signature.RecoverSigner | backend/pkg/utils/conversion.go:40-43 | recovery with the nonce's parity gives back the signing key (section 4.1.6 of SEC 1) |
| Signature.RecoverSound | backend/pkg/utils/conversion.go:40-43 | a recovered key signed the digest with some nonce |
| Signature.OtherParity | backend/pkg/utils/conversion.go:38-40 | the other recovery id never recovers the signer |
| Signature.FlipSigned | backend/pkg/utils/conversion.go:27-30 | (r, N-s) signs the same digest with the same key and the opposite nonce |
| Signature.LowSCanonical | backend/pkg/utils/conversion.go:16-30 | the low form is the only member of 1..⌊N/2⌋ congruent to s or -s, is shared by s and N-s, and is idempotent (EIP-2) |
| Signature.LowSExactly | backend/pkg/utils/conversion.go:27-35 | for which decoded integers the returned S is low |
| Signature.HighSReturned | backend/pkg/utils/conversion.go:27-47 | a valid signature with a high s, decoded with -s in its place, converts with that high S |
| Signature.HighSInput | backend/pkg/utils/conversion.go:27-47 | an input on which it does |
| Signature.CandidateFields | backend/pkg/utils/conversion.go:32-39 | the two 32-byte fields decode to the absolute values of r and of the low form of s |
| Signature.PadTo32 | backend/pkg/utils/conversion.go:52-56 | padding keeps the number and gives its 32-byte form; more than 32 bytes panic |
| Signature.PanicsExactly | backend/pkg/utils/conversion.go:32-34 | the conversion panics exactly when a number needs more than 32 bytes |
| NodeSelector.Selector.RegisterNode | tss/server/node_selection.go:44-55 | the table changes as by a registration: a fresh online node without load or tasks under its id |
| NodeSelector.Selector.UpdateNodeStatus | tss/server/node_selection.go:58-67 | the table changes as by an update of load, status and time; an unknown id changes nothing |
| NodeSelector.Selector.MarkNodeBusy | tss/server/node_selection.go:223-230 | the table changes as by one more task |
| NodeSelector.Selector.MarkNodeIdle | tss/server/node_selection.go:233-240 | the table changes as by one task less, never below zero |
| NodeSelector.Selector.GetNodeInfo | tss/server/node_selection.go:194-200 | the stored node itself, present exactly for registered ids |
| NodeSelector.Selector.GetAllNodes | tss/server/node_selection.go:203-220 | fresh copies of all nodes |
| NodeTable.ActiveTasksClosedForm | tss/server/node_selection.go:44-55 | after any trace a node's active tasks are the largest suffix balance of busy minus idle calls since its last registration |
| NodeTable.InTableExactly | tss/server/node_selection.go:48-54 | a node is stored exactly when some call registered it |
| NodeTable.FieldsExactly | tss/server/node_selection.go:44-67 | after any trace a node has its last registration's address, and load, status and time from the last update since, or is online without load |
| NodeTable.RunKeyed | tss/server/node_selection.go:30-34 | in every run each key is the id stored under it and no counter is negative |
| NodeSelector.Selector.SelectNodes | tss/server/node_selection.go:70-90 | too few registered nodes fail, and each strategy keeps its promise |
| NodeSelector.Selector.AvailableNodes | tss/server/node_selection.go:111-116 | the online nodes, each once, in whatever order the map yields |
| NodeSelector.Selector.SelectNodesByLoad | tss/server/node_selection.go:108-134 | the chosen nodes are a lightest choice by load, or fewer than the threshold are online |
| NodeSelector.Selector.SelectNodesByAvailability | tss/server/node_selection.go:137-163 | the same by active tasks |
| NodeTable.AscendingPrefixIsLightest | tss/server/node_selection.go:123-131 | the first entries of any ascending order of the online nodes have the least total among all choices of that size, however ties fall |
| NodeTable.LightestByLoad | tss/server/node_selection.go:123-131 | the nodes chosen by load are different online nodes, and no online node left out has less load |
| NodeTable.LightestByTasks | tss/server/node_selection.go:152-160 | the same by active tasks |
| NodeTable.ChoiceExistsExactly | tss/server/node_selection.go:118-120 | a choice of that size exists exactly when as many nodes are online |
| NodeSelector.Selector.SelectNodesRoundRobin | tss/server/node_selection.go:93-105 | the cyclic window from the session's first hash byte; zero nodes or a negative threshold panic |
| Selection.WindowDistinct | tss/server/node_selection.go:98-102 | a window repeats no id exactly when it is no longer than the cycle |
| Selection.WindowFairness | tss/server/node_selection.go:98-102 | every id is in the windows of exactly threshold of the start offsets |
| Selection.FairExactly | tss/server/node_selection.go:95-102 | over the first byte values (256 in the code) all ids are chosen equally often exactly when the values make whole cycles or all nodes are chosen |
| Selection.ChoicesOfCycles | tss/server/node_selection.go:95-102 | every whole cycle of byte values chooses each id threshold times |
| Selection.ReachesExactly | tss/server/node_selection.go:95-102 | the 256 windows stay in a set of ids exactly when the ids from 1 to min(n, 255 + threshold) are in it |
| NodeSelector.SelectedFromExactly | tss/server/node_selection.go:70-105 | for any table, sizes and set of ids, round-robin stays in the set for every session exactly when it returns no ids or those first ids are in the set |
| NodeSelector.RegisteredExactly | tss/server/node_selection.go:70-105 | so it returns only registered, or only online, nodes exactly when too few are registered for the threshold, it returns none, or those ids are registered, or online |
| NodeSelector.UnregisteredChosen | tss/server/node_selection.go:70-105 | with node 7 alone registered, node 1 is chosen |
| Selection.WindowsIntersect | tss/server/node_selection.go:98-102 | two windows of more than half the nodes share a node, wherever they start |
| Selection.SelectionsMeetExactly | tss/server/node_selection.go:95-102 | the selections of any two sessions share a node exactly when they are more than half the nodes or longer than 255 |
| NodeSelector.Selector.SelectNodesRandom | tss/server/node_selection.go:166-191 | the result is what some sequence of draws takes out of the online nodes |
| NodeSelector.Drain | tss/server/node_selection.go:184-188 | for every sequence of random indices the loop chooses and keeps what the draws say, and ends with threshold nodes |
| NodeSelector.ShiftLeft | tss/server/node_selection.go:187 | the in-place removal loses only the entry at the index |
| Selection.SampleConserves | tss/server/node_selection.go:184-188 | after every draw chosen and remaining nodes are a permutation of the online nodes |
| Selection.SampleDistinct | tss/server/node_selection.go:184-190 | the chosen nodes are different online nodes |
| Selection.DrawsFor | tss/server/node_selection.go:185-187 | every list of different nodes is chosen by some draws |
| Selection.SampleInjective | tss/server/node_selection.go:185-187 | different draws choose different lists, so sampling is unbiased |
| PartyIds.PartyIDsFromNumbers | tss/party/party.go:218-225 | the sorted identities of a party list |
| PartyIds.SortedNumbersSpec | tss/party/party.go:218-225 | sorting permutes the numbers into ascending order |
| PartyIds.LocatePartyIndex | tss/party/party.go:119-127 | the first position with the key, or -1 |
| PartyIds.IndexIsRank | tss/party/party.go:119-127 | the index is the number of smaller parties, and -1 exactly for outsiders |
| PartyIds.IndexAgreement | tss/party/party.go:208-213 | nodes given the parties in different orders compute the same index for everyone |
| PartyIds.IndexBijection | tss/party/party.go:208-213 | for different numbers the index is a bijection onto 0..n-1 |
| PartyIds.NumericIDs | tss/party/party.go:80-87 | decodes each key to its low 16 bits |
| PartyIds.NumericIDsAreSorted | tss/party/party.go:80-87 | decoding the identities of a party list gives its numbers in ascending order |
| PartyIds.ConvertToUint16 | tss/utils/conversion.go:9-15 | keeps the low 16 bits of every id |
| PartyIds.ConvertToUint32 | tss/utils/conversion.go:17-23 | keeps every id |
| MpcServer.Party.Init | tss/party/party.go:208-216 | the party's index is its rank among the session's parties, and it sends through the session's closure |
| MpcServer.Party.SendMessages | tss/party/party.go:352-372 | the loop takes messages in order and makes exactly their calls, up to where it is stopped |
| MpcServer.Party.CallsForMessage | tss/party/party.go:358-369 | one call for a broadcast, one per addressee otherwise, none without wire bytes |
| SessionProofs.FinishedIsMade | tss/party/party.go:352-372 | every message that is taken and done has its calls made: a broadcast one, any other message one to every addressee |
| MpcServer.Party.OnMsg | tss/party/party.go:145-167 | queues what parses and does not come from 65535, in order; a full queue blocks |
| MpcServer.Server.GetOrCreateParty | tss/server/helper.go:33-45 | the session's party, created with the low 16 bits of the node id when absent; no two sessions share a party |
| MpcServer.Server.RemoveParty | tss/server/helper.go:47-51 | only this session's entry goes |
| MpcServer.Server.SendMessage | tss/server/helper.go:128-155 | starts the copies of the fan-out, each once |
| MpcServer.Server.AddPeer | tss/server/server.go:154-159 | one peer entry changes |
| MpcServer.Server.Dispatch | tss/server/server.go:169-176 | one round: only the session's party sees a message, and no party means no effect |
| MpcServer.Server.StreamMessages | tss/server/server.go:162-178 | the loop delivers the messages of a stream in order, up to its end or to the first that a full inbox keeps waiting |
| MpcServer.StreamAppends | tss/server/server.go:162-178 | a stream appends to each session's inbox exactly the session's admissible messages, in order |
| MpcServer.AdmissibleExactly | tss/server/server.go:162-178 | those are the messages of the session that parse and do not come from 65535, at their places of the stream and in its order |
| Session.FanoutExactly | tss/server/helper.go:138-153 | a broadcast starts one copy per peer and none for its sender; a unicast at most one, for its addressee |
| SessionProofs.Conservation | tss/server/server.go:162-178 | in every run the calls for produced messages are made, to be made or waiting, in order, and every finished message has a call to each addressee; copies created are in flight, lost, dropped, held, rejected or accepted; rejected are exactly those that do not parse or come from 65535; accepted are queued or consumed; neither channel exceeds 1000 |
| SessionProofs.AdvanceOrdered | tss/party/party.go:352-372 | no step of the sending half loses, repeats or reorders a call |
| SessionProofs.LoopSteps | tss/party/party.go:352-372 | rounds of the sending loop are steps of the session layer with the same calls |
| SessionProofs.RunAccounted | tss/server/helper.go:128-155 | the accounting invariant and the wiring of peers and sessions hold in every reachable state |
| SessionProofs.RunGenuine | tss/party/party.go:145-167 | every copy and every queued message in a reachable state was produced at the node it names, in its session, for its receiver |
| SessionProofs.ReceiveGenuine | tss/server/server.go:126-146 | a copy reaches the node it was made for |
| SessionIsolation.IsolationExactly | tss/server/server.go:177 | with distinct addresses, session and sender isolation holds in every run exactly when node ids survive the cut to 16 bits or are refused |
| SessionIsolation.Misattributed | tss/server/server.go:177 | a run in which an id that does not survive the cut is taken for another node |
| SessionIsolation.MembersExactly | tss/party/party.go:145-167 | the senders queued in a session are its parties in every run exactly when the nodes that take part and can be heard are |
| SessionIsolation.OutsiderQueued | tss/party/party.go:145-167 | a run in which a node outside the parties is queued like any other |
| MpcServer.InitializeServers | tss/main.go:30-37 | consecutive ids and ports; a negative number panics |
| MpcServer.CreatePeerMap | tss/main.go:42-48 | the last address stored for each id |
| MpcServer.PeerMapLast | tss/main.go:42-48 | an id has the address of the last server with the id |
| MpcServer.PeerMapExactly | tss/main.go:42-48 | with different ids every server keeps its own address and no entry is lost |
| MpcServer.SetupPeerConnections | tss/main.go:71-81 | the peers are all other servers |
| MpcServer.ServersDistinct | tss/main.go:31-36 | ids and printed addresses of two servers differ |
| MpcServer.StartedIsIsolating | tss/main.go:94-114 | start-up with ids below 65536 meets what isolation needs |
| MpcServer.FullMeshBroadcast | tss/main.go:71-81 | after start-up a broadcast starts one copy for every other server |
| ShareStore.EncryptAESGCM | tss/utils/crypto.go:21-40 | the nonce followed by the sealed plaintext, or an error for a key of another size or too few random bytes |
| ShareStore.EncryptExactly | tss/utils/crypto.go:21-40 | the frame starts with the 12 random bytes drawn, which are the nonce, for keys of 16, 24 or 32 bytes |
| ShareStore.DecryptUndoesEncrypt | tss/utils/crypto.go:43-66 | decryption splits the frame where encryption joined it and gives the plaintext back |
| ShareStore.Database.HandleKeygen | tss/server/keygen.go:84-117 | stores the encrypted share in the node's own table, or fails and stores nothing, also when the insert fails |
| ShareStore.Database.GetDecryptedShareData | tss/server/helper.go:99-125 | the provided share, or else the node's row, decrypted |
| ShareStore.OwnShare | tss/server/sign.go:33-42 | in every run a peer 2 or 3 signs with the share that the same node last stored for the session's UUID, and fails exactly when it stored none |
| ShareStore.OwnSessionExactly | tss/server/helper.go:106-124 | it loads only what was stored under its own session id exactly when no other id of the run denotes that UUID |
| ShareStore.OtherSpelling | tss/server/helper.go:106-124 | one keygen under another spelling of the UUID is loaded |
| ShareStore.InitiatorShare | backend/pkg/tss/tss.go:90-106 | the share that keygen publishes is, through the client's decoding, the share that the initiator signs with, and peers get none |
| ShareStore.StoredIsLoadableExactly | tss/server/keygen.go:98-116 | a successfully handled share can be loaded later exactly on nodes 2 and 3 |
| AssetService.Service.GetChains | backend/internal/service/asset.go:31-42 | the uncached answer for rows at most one lifetime old, and on a fixed database the uncached answer, whatever other calls do in between |
| AssetService.Service.GetChainByChainID | backend/internal/service/asset.go:82-95 | the same for one chain |
| AssetService.Service.GetTokensByChainID | backend/internal/service/asset.go:45-60 | the uncached answer for token rows at most one lifetime old and a chain row at most two, and on a fixed database the uncached answer |
| AssetService.Service.GetTokenBySymbol | backend/internal/service/asset.go:63-79 | the same for one token |
| AssetService.Service.Get | backend/pkg/cache/cache.go:26-34 | a hit is the document of a live entry |
| AssetService.Service.Set | backend/pkg/cache/cache.go:37-45 | storing an answer under its key, or failing to, keeps every entry truthful |
| AssetService.Service.Evict | backend/pkg/cache/cache.go:48-51 | losing entries at any time keeps the others truthful |
| AssetRuns.EveryAnswerTrue | backend/pkg/cache/helper.go:8-31 | however the lookups, reads and stores of all calls interleave, every finished call gave the uncached answer for rows of those ages, and on a fixed database the uncached answer |
| AssetRuns.OldestChainRow | backend/internal/service/asset.go:45-60 | a run whose answer for tokens uses a chain row of the greatest age that the bound allows |
| AssetRuns.InvariantStep | backend/pkg/cache/helper.go:8-31 | every step of every call keeps the cache truthful and what each unfinished call holds true |
| AssetCache.OwnKeyAnswers | backend/internal/service/asset.go:32-83 | an entry under the key of a question can only answer that question |
| AssetCache.HitAnswers | backend/pkg/cache/helper.go:16-20 | a live entry decodes to the uncached answer from its rows |
| Assets.KeysInjective | backend/internal/service/asset.go:46-83 | printed keys of one kind are different for different arguments |
| Assets.KeysDisjoint | backend/internal/service/asset.go:32-83 | printed keys of different kinds are different for all arguments |
| Assets.ChainByIDExactly | backend/internal/db/queries/chain.sql:4-5 | a chain is answered exactly from the first row with the id cut to 32 bits, unless that row's own id is nil |
| Assets.TokenOfChainExactly | backend/internal/db/queries/token.sql:4-5 | a token is answered exactly from the first row with the chain and the symbol, unless its own id is nil |
| Assets.TokensOfChainExactly | backend/internal/db/queries/token.sql:1-2 | the tokens of a chain are in order the rows with the chain, and none is an error |
| Assets.ChainsExactly | backend/internal/service/asset.go:31-42 | all chains are in order all rows, and none is an error |
| Assets.FieldsCopied | backend/pkg/utils/mappers.go:9-31 | every field of a response is the field of its row |
| Decimal.ItoaInjective | backend/internal/service/asset.go:46 | different integers print differently |
| Decimal.ItoaDenotes | backend/internal/service/asset.go:46 | the digits printed denote the number, without a leading zero |
| Tokens.TokenManager.GenerateToken | backend/pkg/token/token.go:44-83 | deletes, signs and stores as one step, with the error of each failing command |
| Tokens.TokenManager.VerifyToken | backend/pkg/token/token.go:86-116 | accepts as specified, against the store for refresh verification only, where a failing read rejects |
| Tokens.TokenManager.GenerateTokenPair | backend/pkg/token/token.go:119-134 | the returned refresh token is the stored one |
| Tokens.TokenManager.RevokeToken | backend/pkg/token/token.go:137-147 | removes the stored refresh token; other types change nothing |
| Tokens.RefreshVerifiesExactly | backend/pkg/token/token.go:86-116 | in every run a refresh token verifies exactly when it is the user's last stored, unrevoked and unexpired one |
| Tokens.VerifyExactly | backend/pkg/token/token.go:86-116 | verification by the claims and, for a refresh, the user's live entry |
| Tokens.AccessVerifiesExactly | backend/pkg/token/token.go:44-83 | an issued access token lets its user in, whatever is stored, exactly for twelve hours up to the second |
| Tokens.RotatedNeverVerifies | backend/pkg/token/token.go:51-55 | a token replaced by one issued in a later second never passes a refresh verification again |
| Tokens.PassesAsAccessExactly | backend/internal/api/middleware/auth.go:27 | whatever is stored, a refresh token passes an access verification exactly until it expires |
| Tokens.ReplacedVerifiesExactly | backend/pkg/token/token.go:60-65 | when a replaced token still verifies |
| Tokens.SameSecondSurvives | backend/pkg/token/token.go:60-65 | two issues in one second leave the older token valid |
| Tokens.AccessIsNotRefresh | backend/pkg/token/token.go:103-113 | an access token never verifies as a refresh token |
| Quota.Service.CheckRateLimit | backend/internal/service/organization.go:166-187 | passes exactly when both queries are answered and the rows between the start computed from the first two looks at the clock and the third look are below the limit |
| Quota.Service.CountUsage | backend/internal/repository/organization.go:161-171 | how many rows of the table are the organization's and have a clock reading between those of the two instants, both included |
| Quota.Service.RecordAPIUsage | backend/internal/service/organization.go:190-208 | the organization's state changes as by a record, which writes one row or fails; no other organization's does |
| Quota.Service.APIKeyAuth | backend/internal/api/middleware/api_key.go:35-101 | a request that passes the earlier checks changes its organization's state as by a look at the clock and a decision, which decides; any other request changes nothing |
| Quota.OvershootBound | backend/internal/api/middleware/api_key.go:79-99 | when every window covers the local month, at most max - 1 + p are admitted in it, and once more for each row that was lost, if at most p are ever between their look at the clock and their row |
| Quota.KeptStep | backend/internal/api/middleware/api_key.go:79-99 | no step of a request makes those of its month up to it exceed what its window counts by more than p and the lost ones, before it is admitted, or the bound, after it |
| Quota.OvershootReached | backend/internal/api/middleware/api_key.go:79-99 | that many are admitted in some run, in any zone |
| Quota.WindowExactly | backend/internal/service/organization.go:166-187 | the bound holds in every run exactly when every window counts the local month up to its end |
| Quota.UncoveredRun | backend/internal/service/organization.go:168 | when a window leaves out an earlier instant of the month, max more are admitted |
| Quota.QuotaExactly | backend/internal/service/organization.go:166-187 | with one offset from UTC all year the bound holds in every run exactly when the offset is zero |
| Quota.FixedCountsExactly | backend/internal/service/organization.go:166-169 | with one offset, which rows a check counts |
| Quota.UtcCountsExactly | backend/internal/service/organization.go:166-169 | in UTC a check counts exactly the rows from the first day of the month to its last look at the clock |
| Paging.ValidatePagination | backend/pkg/utils/pagination.go:9-21 | page and size are in range and unchanged when they already were; the defaults are page 1 and size 10, and sizes above 100 become 100 |
| Paging.GetTransactions | backend/internal/service/transaction.go:48-97 | the rows of the page, the total and the number of pages, or the error of the first lookup or query that fails |
| Paging.PagesPartition | backend/internal/service/transaction.go:72-88 | the pages concatenate to the list and all but the last are full |
| Paging.TotalPagesCover | backend/internal/service/transaction.go:87-88 | the number of pages is the least that covers the list |
| Paging.LaterPageEmpty | backend/internal/service/transaction.go:72-79 | a later page whose offset fits 32 bits is empty |
| Paging.LaterPageExactly | backend/internal/repository/transaction.go:39-45 | where the offset falls modulo 2^32 decides whether a page has rows, is empty or fails |
| Paging.WrappedPage | backend/internal/repository/transaction.go:40-45 | a page far behind the end shows the first page again |
| Paging.FailingPage | backend/internal/repository/transaction.go:40-45 | another one fails |

## Left out

- The rounds of the threshold protocol, safe primes, AES-GCM, Keccak, SHA-256, DER, JSON and JWT: library
  code, present only as parameters with the law needed.
- Recovery ids 2 and 3: the code never tries them; `Signature.Curve.Recover` takes ids 0 and 1 only.
- Liveness of key generation and signing: messages for a session without a party are dropped.
- The moment between creating a party and initialising it, and overlapping runs of one session on one
  node: opening a party is one step, and isolation is by session id.
- Sending to a peer is one step that delivers a copy at most once; dialling, streams and the retry after
  a failed send are not modelled.
- A receiver that waits for a full queue holds one message here; that its stream then stalls for other
  messages is covered only as copies that stay in flight.
- MpcServer.Server.StreamMessages: handles a finite stream while no inbox is drained and no party comes or
  goes; in the session layer those steps come in any order.
- MpcServer.Party.SendMessages: stops after a given number of messages; the choice between a message and the
  closing of the party is the steps `Take` and `Stop` of the session layer.
- MpcServer.InitializeServers: takes the parsed base port; splitting and parsing the address of the
  configuration is left out.
- NodeSelector.SortSlice: stands for `sort.Slice`; only its contract is used, so ties may fall any way.
- Ids and offsets are unbounded integers except where a conversion is named; a round-robin over more than
  2^32 nodes would wrap its ids.
- `Party.Sign` compares the signed message with the requested one before it returns; that check and the
  receive loops of `Sign` and `KeyGen` are left out with the protocol rounds.
- Node loads are real numbers, so a load that is not a number is left out.
- AssetService.Service.GetTokensByChainID: the closure passed to `FetchOrStore` is written out in each
  getter; ages are exact up to the duration of a call, which is a parameter.
- AssetService.Service.Others: its body lets time pass and entries go; what other calls may do to the cache
  between two steps of a getter is its contract, which the steps of `AssetRuns` are proved to keep.
- Tokens.TokenManager.GenerateToken: is atomic here; two concurrent refreshes are not interleaved.
- `RevokeAllUserTokens`: the pattern it deletes by does not match the stored keys.
- Quota.Service.CheckRateLimit: an organization's limit does not change. How a zone turns a clock reading into
  an instant is a parameter of `Quota.WindowExactly`; `Quota.QuotaExactly` is about zones with one offset all
  year, so which zones with summer time cover their months is not worked out.
- Quota.Service.APIKeyAuth: one call runs alone; the looks at the clock, decisions and records of different
  requests interleave in the runs of `Quota.Exec`.
- Quota.Service.RecordAPIUsage: is about a request that was admitted, since the middleware is its only caller.
- Paging.GetTransactions: works on one fixed ordered result; rows with equal creation times may be ordered
  differently by two queries, and a query for the total may see newer rows.
- HTTP handlers, configuration, Redis and SQL drivers, the block scanner, currency formatting, user and
  wallet services and the client interface would add only easy members.
