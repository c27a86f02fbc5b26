# A model of the RKE2 supervisor shim, and proofs about it

The shim answers the RKE2 supervisor protocol in front of a Talos control plane. This project models
the parts of it that keep state, race, parse or decide, in Dafny, and proves what they promise. Verify
it with `dafny verify dfyconfig.toml` (Dafny 4.11).

## How the model is organised

| file | what it holds |
|---|---|
| `FrameLimiter.dfy`, `Frames.dfy` | the WebSocket frame limiter: a byte-at-a-time reference parser, the program that takes arbitrary pieces and skips payload in bulk, and RFC 6455 frames and messages (sections 5.2 and 5.4) as a sender writes them |
| `Sessions.dfy` | tunnel authorization and the per-node session cap, under every interleaving of handlers |
| `Base64.dfy`, `HashFormat.dfy`, `Scrypt.dfy`, `ScryptSlots.dfy` | the stored password hash: unpadded base64, printer, lenient scanner, re-print check, parameter bounds, and the slots that bound concurrent key derivations |
| `NodePasswords.dfy`, `SecretStore.dfy` | trust on first use as a protocol with one step per API call, and `CheckAndSet` as the program whose executions are runs of it |
| `Addresses.dfy`, `Ranges.dfy`, `ServingSans.dfy`, `Discovery.dfy` | addresses and host:port text, what a network range holds, which addresses a serving certificate may carry, and which endpoints are advertised |
| `Pki.dfy`, `Issuance.dfy`, `CertEndpoint.dfy`, `EndpointRuns.dfy` | what is signed, the certificate endpoints under every interleaving of handlers, `handleCert` as a program, and that program as a run of those interleavings |
| `Expiry.dfy`, `ExpiryConcurrency.dfy` | the expiry tracker alone and with any number of goroutines |
| `Rotation.dfy`, `LogLimiter.dfy` | rotation of the shim's own certificate, and the warning limiter |
| `Text.dfy`, `Prelude.dfy` | string functions and shared types |

Objects the program updates in place (`frameLimitConn`, the tunnel `handler`, `SecretStore` over the
cluster, `Server`, `Discoverer`, `Tracker`, `Manager`, `logLimiter`) are classes whose methods follow
the source statement by statement. Where many goroutines or replicas share state, a machine over values
has one event per atomic step, and the class methods use the same step functions.

Library code enters as function-valued parameters, and theorems say what they need of it:

- `Scrypt.KeyFunction` is `scrypt.Key`; only the length of its result is ever needed.
- `HashFormat.IsScanner` is all that is asked of `fmt.Sscanf`: it reads back what was printed from ASCII.
  `HashFormat.Sscanf`, a model of it with its slack, is proved to meet that whatever reading in runes makes
  of bytes beyond ASCII. `Scrypt.ReprintPinsFields` asks nothing of the scanner at all.
- `Addresses.Faithful` says that printing an IP address and parsing it gives it back, without brackets.
- `Pki.CsrLibrary` holds CSR parsing, signature and key checks; `Expiry.TimeText` holds RFC 3339 text.

A string is a sequence of bytes, one per `char`. Times are integers, in seconds where a constant matters.

## Where the code and its comments differ

- The comment at `internal/nodepassword/scrypt.go:38-39` speaks of about 64 MiB per verification. The
  bounds it introduces allow 128 * 2^16 * 16 bytes, 128 MiB; `Scrypt.VerificationIsBounded` proves that.
  The same bounds admit N = 2^16 with r = 1, the one combination outside section 2 of RFC 7914. Accepted
  hashes reach both (`Scrypt.BoundsAreReached`).
- The continuation test of the limiter adds two `int64` values. It decides what it means to decide exactly
  for limits up to 2^62 - 1 (`FrameLimiter.SumOverflows`); the shim's limit is 16 KiB.
- The re-print check compares text, and base64 decoding ignores trailing bits, so an accepted hash is the
  only text that is evaluated as it is if and only if the length of its key is a multiple of three
  (`Scrypt.SecondTextIff`). A 64-byte key, the kind the shim writes, has sixteen (`Scrypt.SixteenTexts`).
- "A name that is already a Node is not enrolled" is decided by the request's own Node lookup, not by what
  is true at the Create. Whoever enrols has looked and found no Node (`NodePasswords.EnrolledAfterLookup`),
  and a lookup can be followed by enrolment, although the Node registers in between, if and only if it
  works, finds no Node and the Secret is still missing (`NodePasswords.LookupDecides`).
- The tracker's gauge and its map can part: a key can stay recorded but not exported
  (`ExpiryConcurrency.RecordedMayBeUnexported`). It takes a pruner that deletes the key while a setter has
  it pending, and any such step can lead there (`RaceIff`); the next scan that runs alone mends it
  (`QuietScanMends`). The converse, which pruning depends on, always holds.
- How many failed issuances in a row are harmless depends on where the ticks fall in the certificate's
  life: exactly those k for which k + 1 intervals fit into the worst life left (`Rotation.HarmlessIff`).
  That is sixty for the default lifetime, and fifty-nine for every lifetime from the renewal window on.
- A header entry is refused as "a control-plane endpoint" for advertised addresses only. Those are the first
  usable internal addresses of Ready control-plane Nodes (`Discovery.AdvertisedIff`); a second address of
  such a Node, or any of one that is not Ready, is not refused on that ground.

## Model

| member | source | states |
|---|---|---|
| FrameLimiter.HeaderLen | internal/tunnel/tunnel.go:229-244 | known once two bytes are, and between 2 and 14 |
| FrameLimiter.PayloadLen | internal/tunnel/tunnel.go:246-255 | every announced length fits 64 bits |
| FrameLimiter.FrameLimitConn.constructor | internal/tunnel/tunnel.go:155 | a fresh connection stands at a frame boundary with nothing delivered |
| FrameLimiter.FrameLimitConn.Inspect | internal/tunnel/tunnel.go:190-225 | however a piece is cut, bulk skipping included, it ends where the byte-at-a-time parser ends, or rejects where that does; no 64-bit operation overflows |
| FrameLimiter.FrameLimitConn.TakeHeaderByte | internal/tunnel/tunnel.go:198-222 | one header byte does what one step of the reference does |
| FrameLimiter.FrameLimitConn.SkipPayload | internal/tunnel/tunnel.go:192-197 | skips as much of the payload as there is in the piece |
| FrameLimiter.FrameLimitConn.Read | internal/tunnel/tunnel.go:177-188 | hands on the whole piece and the source's error, or nothing and the size error, which then sticks |
| FrameLimiter.ScanKeepsWellFormed | internal/tunnel/tunnel.go:166-175 | in every state msg <= max, fewer than 14 header bytes pend, and a pending header excludes pending payload |
| FrameLimiter.BulkSkip | internal/tunnel/tunnel.go:192-197 | skipping k payload bytes at once equals passing them one by one |
| FrameLimiter.CutIndependence | internal/tunnel/tunnel.go:190-225 | two ways of cutting one stream end in the same state or both in rejection |
| FrameLimiter.DeliveredIsAcceptedPrefix | internal/tunnel/tunnel.go:177-188 | over every run of reads the bytes delivered are an accepted prefix of the stream, all of it unless it is rejected |
| FrameLimiter.FailureIsSticky | internal/tunnel/tunnel.go:178-180 | after a failure no later read delivers or changes anything |
| FrameLimiter.SumOverflows | internal/tunnel/tunnel.go:212 | the int64 sum decides correctly for all operands iff max <= 2^62 - 1 |
| Frames.HeaderDecodes | internal/tunnel/tunnel.go:200-205 | the header of any frame, in any length form, masked or not, decodes to its length, opcode and payload length, and no proper prefix looks complete |
| Frames.AccountsForFrame | internal/tunnel/tunnel.go:207-222 | a whole header leads to the new message total or to rejection |
| Frames.QuietStream | internal/tunnel/tunnel.go:208-222 | between frames, in whatever order they come, the limiter's total is what opcodes alone make it |
| Frames.TotalIsOpenMessage | internal/tunnel/tunnel.go:208-222 | in a well-ordered stream that is the size of the open message, although the limiter never looks at FIN |
| Frames.OverflowsIff | internal/tunnel/tunnel.go:208-222 | a frame overflows iff it brings some data frame and the continuations after it, by opcode alone, past the limit |
| Frames.RejectionPoint | internal/tunnel/tunnel.go:207-221 | for frames in any order, rejection comes at the last header byte of the first that overflows and at no earlier byte |
| Frames.LimiterIsExact | internal/tunnel/tunnel.go:163-165 | a well-ordered stream, control frames anywhere, is rejected iff some message's total payload exceeds max |
| Frames.FramesFrom | internal/tunnel/tunnel.go:190-255 | any bytes whatever continue a stream of frames as the beginning of further frames |
| Frames.AnyStream | internal/tunnel/tunnel.go:190-225 | any byte string begins a stream of frames, and is rejected iff it reaches the end of the header of one that brings a data frame and its continuations past the limit |
| Frames.BoundariesAreExact | internal/tunnel/tunnel.go:190-225 | on any stream of frames that is let through, the limiter is at a frame boundary at exactly the offsets where a frame ends |
| Frames.NoRejectedPayloadDelivered | internal/tunnel/tunnel.go:182-186 | for every cutting into reads, no byte from the last header byte of the first overflowing frame on is delivered |
| Sessions.AuthorizeNode | internal/tunnel/tunnel.go:55-70 | yields n iff n is not empty, CN is system:node:n and O contains system:nodes |
| Sessions.Handler.Acquire | internal/tunnel/tunnel.go:115-123 | takes a slot unless two are taken, and changes nothing when it refuses |
| Sessions.Handler.Release | internal/tunnel/tunnel.go:125-131 | gives one slot back and forgets a node that has none |
| Sessions.CounterIsLiveSessions | internal/tunnel/tunnel.go:95-131 | in every interleaving the counter of n is the number of its live sessions, at most 2, and the map holds exactly the nodes that have one |
| Sessions.RefusedIffFull | internal/tunnel/tunnel.go:101-107 | an arrival of n is refused iff exactly two sessions of n are live, and is otherwise served as n |
| Sessions.EndFreesASlot | internal/tunnel/tunnel.go:107 | once a session has ended the next arrival of its node is served |
| Base64.Alphabet | internal/nodepassword/scrypt.go:101 | the characters are those of RFC 4648 section 4, in its order |
| Base64.PackIsBigEndian | internal/nodepassword/scrypt.go:101 | three bytes and four characters are digits of the same number |
| Base64.RoundTrip | internal/nodepassword/scrypt.go:101 | decoding undoes encoding for every byte string |
| Base64.LineBreaksDoNotCount | internal/nodepassword/scrypt.go:128 | carriage returns and line feeds are ignored wherever they stand |
| Base64.CanonicalIff | internal/nodepassword/scrypt.go:128 | encoding undoes decoding iff there is no line break and the unused trailing bits are zero |
| Base64.AlikeIff | internal/nodepassword/scrypt.go:128 | two texts decode alike iff they differ in line breaks and unused trailing bits only |
| Base64.TextsOfOneKey | internal/nodepassword/scrypt.go:125-128 | a key has one, sixteen or four texts without line breaks, as its length leaves 0, 1 or 2 modulo 3 |
| HashFormat.PrintInjective | internal/nodepassword/scrypt.go:28 | one text is the print of at most one set of fields, whatever they hold |
| HashFormat.PrintLayout | internal/nodepassword/scrypt.go:28 | the fields stand in order, joined by colons after a dollar sign |
| HashFormat.HexDigits | internal/nodepassword/scrypt.go:28 | a byte is two lower-case hex digits, the high one first |
| HashFormat.SscanfReadsPrint | internal/nodepassword/scrypt.go:117 | the scanner reads back what the printer wrote from ASCII, whatever it does with other bytes |
| HashFormat.SscanfIgnoresTheRest | internal/nodepassword/scrypt.go:123-125 | it reads the fields of many texts that are not their print |
| HashFormat.SscanfIsScanner | internal/nodepassword/scrypt.go:110-119 | the lenient scanner meets the requirement put on scanners, however it reads words beyond ASCII |
| Scrypt.ReprintPinsFields | internal/nodepassword/scrypt.go:123-127 | with any scanners at all, whatever is evaluated is canonical text and is evaluated with the same fields |
| Scrypt.EvaluatedIffCanonical | internal/nodepassword/scrypt.go:110-146 | the hashes evaluated are exactly the prints of version-1 fields within bounds whose key text decodes |
| Scrypt.TextsOfOneDecision | internal/nodepassword/scrypt.go:123-146 | the accepted texts evaluated just as a given one are one, sixteen or four, by the length of the key |
| Scrypt.SecondTextIff | internal/nodepassword/scrypt.go:123-128 | an accepted hash has a second accepted text with the same decision iff the length of its key is no multiple of three |
| Scrypt.SixteenTexts | internal/nodepassword/scrypt.go:34 | a hash of a 64-byte key is one of sixteen texts that verify the same passwords |
| Scrypt.CreatedHashIsEvaluated | internal/nodepassword/scrypt.go:92-103 | a created hash is evaluated with the salt and parameters it was made with, against the key it was made from |
| Scrypt.CreatedText | internal/nodepassword/scrypt.go:92-103 | its text, with version 1, N = 2^15, r = 8, p = 1 and a 64-byte key |
| Scrypt.VerifyCreated | internal/nodepassword/scrypt.go:92-155 | a password verifies against its own hash for every salt and 64-byte key; another one iff the key function maps both alike |
| Scrypt.VerdictIff | internal/nodepassword/scrypt.go:110-155 | a canonical hash matches iff the key derived with the parameters it records is its own, whatever they are; any other text is malformed or of another version |
| Scrypt.VerificationIsBounded | internal/nodepassword/scrypt.go:137-147 | a verification that runs has N a power of two above 1 and 128*N*r <= 2^27, and meets RFC 7914 section 2 iff it is not N = 2^16, r = 1 |
| Scrypt.ReachableIff | internal/nodepassword/scrypt.go:137-147 | a stored hash can ask for exactly the non-empty salts, powers of two, r, p and key lengths within the bounds |
| Scrypt.BoundsAreReached | internal/nodepassword/scrypt.go:37-47 | some accepted hash costs 2^27 bytes and some is outside the RFC |
| Scrypt.CreationIsBounded | internal/nodepassword/scrypt.go:30-35 | so does a creation, without the exception |
| ScryptSlots.SlotsAreBalanced | internal/nodepassword/scrypt.go:65-75 | in every interleaving derivations under way fit the slots and their bounds; sends are derivations begun, receives those finished, cancelled waits neither |
| ScryptSlots.MemoryIsBounded | internal/nodepassword/scrypt.go:60-64 | in every interleaving the derivations under way together take at most 2^27 bytes a slot |
| ScryptSlots.NoStuckSlot | internal/nodepassword/scrypt.go:68-73 | a derivation can always return its slot, and a waiter can take one whenever one is free |
| NodePasswords.SecretNameInjective | internal/nodepassword/store.go:36 | different nodes have different Secrets |
| NodePasswords.ScryptLibraryIsSound | internal/nodepassword/store.go:62-88 | a password verifies against the hash enrolled for it |
| NodePasswords.StepKeepsOneHash | internal/nodepassword/store.go:54-110 | every step but a deletion keeps: one hash, one enroller, accepted passwords verify |
| NodePasswords.TrustOnFirstUse | internal/nodepassword/store.go:42-111 | over every interleaving without a deletion of its Secret: the hash never changes, at most one request enrols it, every accepted request's password verifies against it |
| NodePasswords.AcceptedWasOnRecord | internal/nodepassword/store.go:42-111 | over every interleaving, deletions included: an accepted request's password verifies against a hash that was on record for its node at some moment of its own execution |
| NodePasswords.OutcomeExplained | internal/nodepassword/store.go:50-111 | over every interleaving: a request fails iff a call of its own failed, reports an existing Node or a missing hash iff its own lookup found that, and a wrong password or bad hash only after comparing with a hash that was on record |
| NodePasswords.EnrolledAfterLookup | internal/nodepassword/store.go:70-106 | over every interleaving: a request that enrols, or is on its way to, made its own Node lookup and found none |
| NodePasswords.LookupDecides | internal/nodepassword/store.go:77-106 | a lookup is followed by enrolment, by its own calls and a registration of the Node, iff it works, finds no Node and there is no Secret |
| NodePasswords.FailedCreateMayEnrol | internal/nodepassword/store.go:88-106 | a Create that reports an error may have taken effect |
| NodePasswords.ExistingNodeIsNeverEnrolled | internal/nodepassword/store.go:70-106 | in particular a name that is a Node throughout, without a Secret and given none by others, never gets one and never has a request accepted |
| NodePasswords.LateNodeIsEnrolled | internal/nodepassword/store.go:77-106 | from any state with neither Node nor Secret, a Node can register after the lookup and be enrolled |
| NodePasswords.RetriesAreBounded | internal/nodepassword/store.go:99-104 | AlreadyExists retries are at most one more than the deletions meanwhile, and the request is done after four turns per round |
| SecretStore.Store.CheckAndSet | internal/nodepassword/store.go:50-111 | every execution is the run made of its own calls and of what others do between them, and ends in its outcome, with at most four calls a round; it fails iff one of these calls does; undisturbed, with any salts, it accepts iff the stored hash verifies, or there is neither Secret nor Node |
| SecretStore.Store.Enrol | internal/nodepassword/store.go:70-87 | without a Secret: refused if the Node exists, enrolled otherwise; nothing happens but its calls and the script's events |
| SecretStore.Store.Publish | internal/nodepassword/store.go:88-106 | the Create and the retry, which ends once interference does; nothing happens but its calls and the script's events |
| SecretStore.EnrolledThenRecognised | internal/nodepassword/store.go:42-48 | an enrolled password is recognised afterwards, another one iff the key function maps both alike, for every salt |
| SecretStore.ExecutionIsARun | internal/nodepassword/store.go:50-111 | the state after an execution is that of the protocol run its script describes |
| SecretStore.PlayedEvents | internal/nodepassword/store.go:50-111 | that run holds its own calls and the script's events and nothing else |
| SecretStore.ExecutionIsTrusted | internal/nodepassword/store.go:50-111 | amid any interference short of deleting the Secret, an execution keeps the hash and is accepted only if its password verifies against it |
| SecretStore.ExecutionKeepsShut | internal/nodepassword/store.go:70-106 | an execution for a Node without a Secret is never accepted and leaves it without one, unless others remove or create |
| SecretStore.ExecutionIsExplained | internal/nodepassword/store.go:50-111 | amid any interference, the outcome of an execution says what happened to it |
| SecretStore.CallsAreBounded | internal/nodepassword/store.go:99-104 | an execution makes at most four calls for each deletion meanwhile and eight more |
| Addresses.RoutableIpv4 | internal/supervisor/supervisor.go:518-520 | an IPv4 address, mapped or not, is routable iff outside 127/8, 0.0.0.0, 169.254/16 and 224/4 |
| Addresses.RoutableIpv6 | internal/supervisor/supervisor.go:518-520 | an IPv6 address is routable iff it is not ::, not ::1, and outside fe80::/10 and ff00::/8 |
| Addresses.RangesRespectFamilies | internal/supervisor/supervisor.go:522-526 | a range holds addresses of its own family only, and one address if its mask is full |
| Ranges.ContainsIff | internal/supervisor/supervisor.go:522-526 | a CIDR of k bits, of either family, holds exactly the addresses of its family whose quotient by 2^(w-k), as integers, is that of its number |
| ServingSans.RangeIsRefused | internal/supervisor/supervisor.go:522-526 | a header naming an address in that block of a service range is refused |
| Addresses.JoinSplit | internal/supervisor/supervisor.go:545-548 | host and port survive being joined and split, with or without colons in the host |
| Addresses.HostWithoutPort | internal/supervisor/supervisor.go:545-548 | an endpoint without a port is all host |
| ServingSans.Server.SetApiServers | internal/supervisor/supervisor.go:118-128 | an empty list is ignored, any other replaces the advertised one |
| ServingSans.Server.ApiServerIps | internal/supervisor/supervisor.go:538-554 | exactly the addresses the advertised endpoints name |
| ServingSans.Server.ServingSanIps | internal/supervisor/supervisor.go:499-535 | all or nothing: blank gives none; otherwise the parsed entries in order iff at most 8 and each parses, is routable, lies in no service range and is not advertised; an error names the first bad entry |
| ServingSans.Server.JudgeEntry | internal/supervisor/supervisor.go:512-532 | gives an entry's address iff it is acceptable |
| ServingSans.AcceptedIff | internal/supervisor/supervisor.go:499-535 | a header is accepted iff it is blank, or has at most eight entries, each of them acceptable |
| ServingSans.EntryIsTrimmed | internal/supervisor/supervisor.go:513 | what is parsed of an entry is the entry without the blanks around it |
| Text.TrimIsExact | internal/supervisor/supervisor.go:513 | trimming takes blanks off both ends and leaves a text that neither starts nor ends with one |
| Text.WideBlankIff | internal/supervisor/supervisor.go:513 | blanks beyond ASCII are the UTF-8 encodings of the Unicode white space code points |
| Discovery.SortedIsUnique | internal/apiservers/discovery.go:76 | sorting leaves one arrangement |
| Discovery.LeIff | internal/apiservers/discovery.go:76 | one string comes no later than another iff it is a prefix of it or smaller at the first byte in which they differ |
| Discovery.EndpointNames | internal/apiservers/discovery.go:72 | an endpoint is its address and port, the address in brackets iff it has colons |
| Discovery.Discoverer.IsReady | internal/apiservers/discovery.go:83-90 | the loop finds what the first Ready condition says |
| Discovery.Discoverer.List | internal/apiservers/discovery.go:48-81 | the sorted permutation of the first usable InternalIP endpoint of each Ready node; an error iff the API fails or there is none |
| Discovery.Discoverer.Run | internal/apiservers/discovery.go:95-118 | after any answers the server advertises the listing of the last one that succeeded, or what it had |
| Discovery.NeverEmptied | internal/apiservers/discovery.go:92-104 | once something is advertised, something is ever after |
| Discovery.ListingIsStable | internal/apiservers/discovery.go:46-47 | the listing does not depend on the order in which Nodes are returned |
| Discovery.ReadyIff | internal/apiservers/discovery.go:83-90 | Ready iff the first condition of that type is true |
| Discovery.FirstUsableIff | internal/apiservers/discovery.go:63-74 | the first internal address that parses and is neither loopback nor unspecified |
| Discovery.ListedIff | internal/apiservers/discovery.go:56-76 | an endpoint is listed iff it is that of some Ready node's first usable address |
| Discovery.AdvertisedIff | internal/supervisor/supervisor.go:537-554 | the addresses kept out of serving certificates are exactly the first usable ones of Ready nodes |
| Discovery.ListedAddressIsRefused | internal/supervisor/supervisor.go:527-554 | every discovered address survives join, split and parse, so a header naming it in any form is refused |
| LogLimiter.Limiter.AllowNow | internal/supervisor/supervisor.go:466-476 | does what the step function of the histories does |
| LogLimiter.Conservation | internal/supervisor/supervisor.go:464-475 | allowed + reported + pending = calls |
| LogLimiter.LetThroughIff | internal/supervisor/supervisor.go:456 | a call is let through iff none was, or the last one was at least an interval ago |
| LogLimiter.PendingIsSinceLast | internal/supervisor/supervisor.go:464-475 | what is pending is exactly the calls since the last one let through, and all held back before that have been reported |
| LogLimiter.KthIsLate | internal/supervisor/supervisor.go:469-474 | the k-th allowed time is at least the first plus k intervals, counting from zero, in whatever order the clock is read |
| LogLimiter.WindowBound | internal/supervisor/supervisor.go:469-474 | n allowed calls within a stretch w satisfy (n-1)*every <= w |
| Pki.NotAfter | internal/pki/pki.go:168-174 | the earlier of the requested end and the CA's |
| Pki.Sign | internal/pki/pki.go:180-220 | a bad CSR iff CheckCSR says so; the certificate starts five minutes ago, ends with MaxTTL or the CA, whichever is first, and carries the identity asked for, the CSR's key and the signing CA |
| Issuance.ValidNodeNameCharacters | internal/supervisor/supervisor.go:444-454 | a valid name is not empty, not reserved and made of a-z, 0-9, dash and dot |
| Issuance.ValidNodeNameIff | internal/supervisor/supervisor.go:444-454 | a name is valid iff it has 1 to 253 such characters, with a letter or digit at either end and beside every dot, and is not reserved |
| Issuance.KindIs | internal/supervisor/supervisor.go:309 | the kind is the last path component without ".crt" |
| Issuance.KindAsItStands | internal/supervisor/supervisor.go:309 | and a component without ".crt" at its end is the kind as it stands |
| Issuance.AdmissionIff | internal/supervisor/supervisor.go:281-411 | exactly when a request is answered 405, 400, 501 or 500 before the password store, and when it needs no password |
| Issuance.AdmittedIffPassed | internal/supervisor/supervisor.go:281-363 | a request reaches the password store iff every check passes, whatever their order, and with the addresses of its header |
| Issuance.TunnelAcceptsKubeletClients | internal/supervisor/supervisor.go:388-406 | of all issued subjects the tunnel accepts exactly the client-kubelet ones, each as its own node |
| Issuance.ServingCertificateScope | internal/supervisor/supervisor.go:388-393 | a serving certificate names its node, loopback and the header's addresses, none of them in the service range or advertised |
| Issuance.StoreChangesOnlyAfterChecks | internal/supervisor/supervisor.go:300-364 | in every interleaving the store changes only by others' doing or through a request that had passed every check |
| Issuance.SigningNeverFindsABadCsr | internal/supervisor/supervisor.go:418-428 | after admission signing never reports a bad CSR |
| Issuance.IssuedCertificates | internal/supervisor/supervisor.go:364-434 | every node-scoped certificate follows its own request's accepted password check, whose password verifies against a hash on record during it, the one still on record while that is not deleted; each of the four kinds has its own subject, names, addresses and usage and its own CA, and of the CSR only the key; the tunnel takes it for a node iff it is that node's client certificate |
| Issuance.ClusterRuns | internal/supervisor/supervisor.go:364 | whatever handlers do, the cluster goes through a run of the password protocol |
| CertEndpoint.Endpoint.NodeChecks | internal/supervisor/supervisor.go:313-363 | in the order of the source, with its status codes, the checks decide what admission says |
| CertEndpoint.Endpoint.Judge | internal/supervisor/supervisor.go:280-363 | so do all checks before the store |
| CertEndpoint.Endpoint.HandleCert | internal/supervisor/supervisor.go:280-435 | a refused request leaves the store alone; an admitted one puts it through its own CheckAndSet and nothing else but the script's events, and is answered by that and by signing |
| CertEndpoint.StatusIff | internal/supervisor/supervisor.go:364-428 | an admitted request is answered 409 iff the password was wrong or the Node exists, 500 iff the store or signing failed, and with a certificate otherwise |
| CertEndpoint.CheckedIsExplained | internal/supervisor/supervisor.go:364-387 | and the outcome it is answered by says what happened to its CheckAndSet |
| CertEndpoint.PemMatches | internal/supervisor/supervisor.go:388-434 | every certificate in an answer, node-scoped or not, has the subject, names, addresses, usage and CA of its kind |
| CertEndpoint.CertificateIff | internal/supervisor/supervisor.go:280-435 | a node-scoped request gets a certificate iff it passed every check, its own CheckAndSet was accepted and signing works; its password then verifies against a hash on record during that, and against the one on record now if that was not deleted |
| EndpointRuns.CallsAreAnExecution | internal/supervisor/supervisor.go:364 | the calls of one CheckAndSet amid other handlers' events are an execution of the store amid what those events are to the cluster |
| EndpointRuns.HandleCertIsARun | internal/supervisor/supervisor.go:280-435 | what the program answers and leaves in the store, amid any doings of other handlers, is what the machine of interleaved handlers comes to |
| Expiry.Tracker.SetSeries | internal/expiry/tracker.go:88-93 | sets both maps at one key |
| Expiry.Tracker.PruneSeries | internal/expiry/tracker.go:98-108 | removes from both maps exactly what was neither seen nor set since the scan began |
| Expiry.Tracker.RecordIssued | internal/expiry/tracker.go:113-139 | counts every issuance; exports and patches only those with a node; keeps exported within recorded, and equal if they were |
| Expiry.Tracker.Scan | internal/expiry/tracker.go:156-194 | leaves the listed keys and those set since it began, with the last value for each; counts the entries with at most 120 days left, each by its own clock reading; if nothing was set since it began, exactly the listed ones in both maps; keeps exported within recorded, and equal if they were |
| Expiry.NoneDueIff | internal/expiry/tracker.go:184-192 | that count is 0 iff every entry has more than 120 days left |
| Expiry.EntriesAreRecords | internal/expiry/tracker.go:171-183 | the entries of a scan are the listed annotations that record an expiry, in order and each once |
| Expiry.ValuesIff | internal/expiry/tracker.go:182 | the value of a key is that of the last entry for it |
| Expiry.QuietScanIsExact | internal/expiry/tracker.go:156-194 | with nothing concurrent both maps hold exactly the parseable annotations of the listed Secrets, even if a race had left them apart |
| Expiry.RecordedIsFound | internal/expiry/tracker.go:123-134 | a recorded expiry is read back by a scan of its Secret |
| ExpiryConcurrency.ExportedIsTracked | internal/expiry/tracker.go:88-108 | in every interleaving an exported key is recorded or belongs to a setter in flight |
| ExpiryConcurrency.PrunerSeesEverything | internal/expiry/tracker.go:98-101 | a pruner that takes the lock with no setter in flight examines every exported key |
| ExpiryConcurrency.NothingStaleSurvivesAScan | internal/expiry/tracker.go:95-108 | when a scan has pruned, each exported key was listed by it, recorded since it began, or is being set |
| ExpiryConcurrency.RecordedIsExported | internal/expiry/tracker.go:88-108 | in every run in which no pruner deletes a key that a setter has pending, that key, if recorded, is exported or being deleted from both |
| ExpiryConcurrency.RaceIff | internal/expiry/tracker.go:88-108 | a step is such a deletion iff a continuation without another one ends with the key recorded and not exported |
| ExpiryConcurrency.QuietScanMends | internal/expiry/tracker.go:156-194 | from whatever any interleaving left, a scan that runs alone ends with exactly the listed keys exported and recorded |
| ExpiryConcurrency.RecordedMayBeUnexported | internal/expiry/tracker.go:88-93 | such runs exist: a key recorded, not exported, and nobody in flight |
| Rotation.Manager.constructor | internal/certs/serving.go:45-94 | the first certificate expires after the effective lifetime or with the CA |
| Rotation.Manager.Issue | internal/certs/serving.go:96-114 | certificate and recorded expiry change together, or neither does |
| Rotation.Manager.Run | internal/certs/serving.go:130-148 | the loop follows the tick function whose runs are described below |
| Rotation.RemainingLife | internal/certs/serving.go:25-31 | at every instant at least min(renewBefore, ttl, the CA's life at the last good tick) - (k+1)*checkEvery remains after k failures, and the CA is not outlived |
| Rotation.NeverExpired | internal/certs/serving.go:25-31 | with any lifetime from the renewal window on, the default being one, and a lasting CA, fifty-nine failures never let it expire |
| Rotation.LifeAtLastGood | internal/certs/serving.go:129-148 | the life left at the last good tick is the lifetime less whole intervals, and if any less then more than the renewal window |
| Rotation.WorstRun | internal/certs/serving.go:129-148 | a certificate left alone for as long as it can be and then k failures has the worst life less k intervals |
| Rotation.HarmlessIff | internal/certs/serving.go:25-31 | for every lifetime: k failures in a row never let a certificate that no CA cuts expire before the next tick iff k + 1 intervals fit into the worst life left |
| Rotation.DefaultLifetimeIff | internal/certs/serving.go:25-31 | for the default lifetime, iff k <= 60 |
| Rotation.EveryLifetimeIff | internal/certs/serving.go:25-31 | for all lifetimes from the renewal window on, iff k <= 59 |

## Left out

- FrameLimiter.FrameLimitConn.constructor: limits that are negative or above 2^62 - 1 are not modelled; the only limit the program sets is 16 KiB.
- FrameLimiter.FrameLimitConn.Read: closing the connection, writes, and the replay of bytes net/http had buffered; the replay is one more way of cutting the stream.
- SecretStore.Store.CheckAndSet: the ten-second timeout appears as a call that fails, before or after taking effect, at any step; annotations and labels on the Secret are not part of it.
- NodePasswords: other writers create and delete Secrets; one that overwrites a hash in place counts as a deletion followed by a creation.
- ScryptSlots.SlotsAreBalanced: the number of slots is a parameter; GOMAXPROCS is not part of this model.
- HashFormat.Sscanf: blanks beyond ASCII before a field are not skipped here; the theorems about accepted hashes hold for every scanner meeting IsScanner.
- ServingSans.Server.ServingSanIps: error texts are reduced to their kind and the index of the entry.
- Addresses: the text of IP addresses and of CIDRs is library code; an address is its sixteen bytes and a range its number and mask.
- Discovery.Discoverer.Run: the ticker and the label selector; answers are what the API returns for control-plane Nodes.
- Issuance: Basic authentication, routing, read deadlines, log lines, response bodies and the call that records an issuance.
- Issuance.IssuedCertificates: for the two cluster-wide kinds nothing is said about the node header, which the program does not validate.
- Pki.Sign: serial numbers, DER and PEM, key usages that never vary, and checkPublicKey's list of key kinds.
- Expiry.Tracker.Scan: Event objects and their names are not modelled.
- ExpiryConcurrency: values of the gauge, since only its keys are pruned; that a scan comes to an end.
- Rotation.Manager.Run: a tick reads the clock once, ticks are exactly twelve hours apart, and SAN collection in NewManager is not modelled.
- LogLimiter: calls at the zero time, which time.Now does not return.
- LoadCA, buildAgentConfig, handleConfig, handleCA, handleReadyz, cmd/shim and hack/loadgen: wiring and independent checks that one reading settles.
