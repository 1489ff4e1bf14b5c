# PQVPN verification model

PQVPN is a WireGuard VPN whose preshared keys are negotiated with ML-KEM-768. This project models
the parts of it that keep state in step, and proves what they promise.

- **The peer registry of the server.** `Ipv4.dfy` and `Peers.dfy` are the address allocator and the
  SQLite peer table, `Wireguard.dfy` the kernel's peer table, `Handlers.dfy` the connect and
  disconnect handlers. A handler is given once, as steps over the two tables (`Handlers.Advance`):
  the methods of class `Handler` are proved to do those steps one after the other, `Sequential.dfy`
  proves what whole runs of lone requests keep, and `Registry.dfy` interleaves the same steps of any
  number of requests. `Agreement.dfy` says exactly when the two tables agree, in every interleaving
  with any failures; `Overlap.dfy` what that comes to when connects by distinct keys all succeed.
- **The UDP-over-TCP relay of the client.** `Framing.dfy` is the length-prefixed codec, `Relay.dfy`
  the two loops, `Interleaving.dfy` the two tasks sharing the learnt client address.
- **The PSK negotiation.** `Psk.dfy` is the key derivation of both ends, `Negotiation.dfy` the two
  ends of the newline-delimited JSON exchange, `PskAgreement.dfy` many of them at once against one
  kernel table, `ReadLine.dfy` the read loops.
- **The rate limiter.** `LimiterCache.dfy` is the double-checked cache under its reader/writer lock,
  `RateLimit.dfy` the token bucket, `Hosts.dfy` what keying it by host and port means for a host.
- **Smaller parts.** `Dump.dfy` parses `wg show dump`, `Conf.dfy` prints the client configuration,
  `Monitor.dfy` is the three-strikes tunnel monitor.

## How to read the model

Outside calls become parameters. A `bool` such as `execOk` or `runOk` says whether a database
statement or a `wg` command succeeds; a failed one changes nothing. ML-KEM, HKDF, SHA-256, base64 and
the JSON codecs are function-valued parameters (`Psk.Crypto`, `Negotiation.Wire`, `hash`), used only
through the laws `Psk.Lawful` and `Negotiation.Faithful`: decapsulation inverts encapsulation under a
generated pair (sections 7.2 and 7.3 of FIPS 203), decoders invert encoders, and the text of a message
holds no newline. For agreement, HKDF (sections 2.2 and 2.3 of RFC 5869) need only be a function of its
inputs; what a PSK says about its inputs rests on the sizes in `Psk.Sized` and on 32-byte HKDF outputs
not colliding, `Psk.Separates`, an idealisation that `Psk.LawsCanHold` shows to be free of
contradiction. Giving an address to one kernel peer takes it from any other, as cryptokey routing does.

## What fails, and exactly when

- The kernel table can part from the store. Two connects can hold one address, because
  the allocator's lock is dropped before the row is written (`Overlap.OverlappingConnectsPartTheTables`,
  and `Agreement.RivalStripsTheClient`, where the rival gives up and cleans up). A connect can run
  between a disconnect's two removals (`Overlap.SameKeyRequestsPartTheTables`). A client can ask again
  before its first connect is through (`Agreement.RetryPartsTheTables`). And a clean-up whose error is
  ignored can fail.
- `Agreement.AgreeIffSameRequest` says exactly when, for all of these at once and at every moment of
  every run: the tables agree about a key if and only if no request has changed its kernel peer, or
  the last change removed it, or the peer is still as one request set it, its address not given to
  another key since, and that request was also the last to change the row. The one hypothesis is that
  two connects for one key that hold one address at once have PSKs that hash differently, as all do
  when no PSK hash repeats for a key (`Agreement.FreshPsksAreEnough`). `Agreement.AgreeIffSameRow` needs no hypothesis.
- When connects by distinct keys all succeed, that comes to this: the tables agree at the end if and
  only if no two connects ever held one address at once (`Overlap.AgreeIffNoSharedAddress`).
- A lone request parts the tables exactly when its clean-up fails: `Sequential.ConnectKeepsConsistent`
  and, over runs, `Sequential.RunKeepsConsistent`.
- files_extracted/provider.go gives every peer the same configured address, so only the peer programmed
  last has it: `PskAgreement.OnlyTheLastPeerHasTheAddress`. The agreement theorems there are about the PSK.
- The limiter's comment promises 100 requests an hour. An hour admits at most 100 if and only if it
  begins with less than one token in the bucket: `RateLimit.HourAdmitsHundredIff`, and for any window
  and any number `RateLimit.MostInWindow`. `RateLimit.TwoHundredInAnHour` admits 200, and
  `RateLimit.WindowBound` shows that this is the most there can be.
- The limiter's map is keyed by the whole remote address, port included, so the limit is one for a
  port. `Hosts.PortsMultiplyTheLimit`: m ports of one host get 100 * m requests in at one instant.
  `Hosts.HostMostInWindow`: a window of T seconds admits a host using at most m ports at most n requests
  if and only if m times 100 + T/36, rounded down, is at most n.
- The allocator's comment names 10.8.0.0/24; the code hands out 10.8.0.2 to 10.8.255.254, and the model
  follows the code. `Peers.AllocatesInFirst24IffFree`: the address is in 10.8.0.0/24 if and only if one
  of 10.8.0.2 to 10.8.0.254 has no row.
- A newline in a field can make two parameter sets print alike: `Conf.NewlinesCanHideAKey`. Among sets
  without one the printed text determines the set (`Conf.EqualTextsFromEqualParams`); but such a set is
  the only one at all with its text if and only if it has no preshared key (`Conf.OnlyOneWithItsText`).

## Model

| member | source | states |
|---|---|---|
| Ipv4.IncrementIP | server/internal/peers/store.go:180-199 | the address whose host part is the least one from base + offset on that ends in neither .0 nor .255, in a fresh slice; at most two further calls for any offset |
| Ipv4.CandidatesAreUsable | server/internal/peers/store.go:157-164 | over loop indices 0 to 65,532 the candidates never go back, never wrap, are all usable, and reach every usable address |
| Ipv4.DottedInjective | server/internal/peers/store.go:160-161 | two host parts print as the same dotted-decimal text only when equal, so looking addresses up by their text is sound |
| Ipv4.AddressText | server/internal/peers/store.go:160-163 | an address prints as its last four bytes in order, each as a decimal numeral without leading zeros, with dots between them |
| Ipv4.FullSetIsLarge | server/internal/peers/store.go:156-166 | the search can fail only if at least 65,023 addresses are taken |
| Peers.SQLiteStore.AddPeer | server/internal/peers/store.go:57-68 | the table after INSERT OR REPLACE, or the old table and an error |
| Peers.SQLiteStore.RemovePeer | server/internal/peers/store.go:71-81 | deletes the row; an error when the statement fails or there was no row |
| Peers.SQLiteStore.GetPeer | server/internal/peers/store.go:84-102 | finds exactly the row with the key, an error otherwise |
| Peers.SQLiteStore.AllocateIP | server/internal/peers/store.go:132-167 | the scan and the bounded loop give the allocation function of the table, which reads only the table |
| Peers.AllocateIsLeast | server/internal/peers/store.go:155-164 | an address is the one allocated if and only if no row holds it and every smaller usable one is held |
| Peers.AllocatedAddressReads | server/internal/peers/store.go:155-164 | as text, without the printing functions: the allocated address is 10.8.h.l for the least usable 256 * h + l that no row's address reads as |
| Peers.AllocatesInFirst24IffFree | server/internal/peers/store.go:129-135 | the allocated address lies in 10.8.0.0/24 if and only if one of 10.8.0.2 to 10.8.0.254 has no row, so always with fewer than 253 rows |
| Peers.AllocateFailsOnlyWhenFull | server/internal/peers/store.go:158-166 | allocation fails exactly when all 65,023 addresses are held, so never with fewer than 65,023 rows |
| Peers.InsertKeepsTable | server/internal/peers/store.go:34-41 | the insert puts the row there, keeps every other row but one at its address, keeps keys and addresses unique, and changes the row count by -1, 0 or +1 |
| Wireguard.Manager.SetPeer | server/internal/wg/manager.go:28-48 | the kernel table after `wg set`, or the old one when the command fails |
| Wireguard.Manager.RemovePeer | server/internal/wg/manager.go:53-67 | the kernel table without the peer, or the old one when the command fails |
| Wireguard.WithPeerEffect | server/internal/wg/manager.go:24-36 | the peer has that PSK and address, an address stays with one peer, no other peer's PSK changes, and another peer loses its address exactly when that was the address given |
| Psk.BothEndsDeriveTheSame | server/internal/psk/provider.go:86-127 | for a generated key the server fails only for want of a salt; the client derives from ciphertext and salt the PSK the server derived, which is the HKDF output for the decapsulated secret, the salt and the info "pqvpn-psk-v1" |
| Psk.PskIdentifiesItsInputs | server/internal/psk/provider.go:118-127 | two negotiations with one salt derive one PSK if and only if their shared secrets are equal, two with one secret if and only if their salts are, and every PSK has 32 bytes |
| Psk.AnotherSecretAnotherPsk | client/src-tauri/src/pqc/psk_provider.rs:139-160 | whoever is sent the reply derives its PSK if and only if it decapsulates the ciphertext to the same secret |
| Handlers.Handler.HandleConnect | server/internal/api/handlers.go:43-123 | the tables and the reply are those of `ServeConnect`, of which the three lemmas below say what they are |
| Handlers.ConnectRefusesEarly | server/internal/api/handlers.go:45-73 | no body, an empty ek_b64 or wg_pubkey, or undecodable base64 gets its 400, a key that fails its check or a failed salt a 500, and both tables stay as they are |
| Handlers.ConnectAnswers | server/internal/api/handlers.go:75-122 | every other request is accepted, with the allocated address, if and only if an address is free and the query, `wg` and the insert succeed; the first that does not gets its 500 |
| Handlers.AcceptedMeans | server/internal/api/handlers.go:83-122 | an accepted connect has put its peer and its row in the tables and answers with the ciphertext, the salt, the address and the server's facts |
| Handlers.Handler.HandleDisconnect | server/internal/api/handlers.go:128-166 | the tables and the reply are those of `ServeDisconnect` |
| Handlers.DisconnectAnswers | server/internal/api/handlers.go:130-166 | 400 without a key and 404 without a row leave the tables alone; then the peer goes, and then the row, with a 500 for the one that fails |
| Handlers.ConnectUnfolds | server/internal/api/handlers.go:75-107 | a lone connect's steps come to its effect by the first failing call, clean-up included |
| Handlers.DisconnectUnfolds | server/internal/api/handlers.go:140-159 | a lone disconnect's steps come to its effect by the first failing call |
| Sequential.ConnectKeepsConsistent | server/internal/api/handlers.go:75-107 | from consistent tables a lone connect leaves them consistent if and only if its clean-up does not fail, and touches no other key |
| Sequential.OwnHelloAcceptedIff | server/internal/api/handlers.go:43-123 | a client that sends its own generated key under a non-empty key is accepted if and only if the salt is drawn, an address is free, and the query, `wg` and the insert succeed |
| Sequential.AcceptedClientHoldsThePsk | server/internal/api/handlers.go:83-122 | from the reply the client of an accepted connect derives the PSK the kernel holds for its key and whose hash is in its row, with the address of the reply, as a /32, in both; no row had it before |
| Sequential.DisconnectKeepsConsistent | server/internal/api/handlers.go:140-159 | a lone disconnect keeps the tables consistent whatever fails, and touches no other key |
| Sequential.DisconnectCanBeRetried | server/internal/api/handlers.go:147-159 | a disconnect succeeds exactly when its row is there and its calls succeed, and then the key is in neither table; a half-failed one sent again has a whole one's result |
| Sequential.DisconnectUndoesConnect | server/internal/api/handlers.go:75-159 | a connect and then a disconnect for its key leave both tables as before but without the key, which was in both in between |
| Sequential.RunKeepsConsistent | server/internal/api/handlers.go:85-107 | over a run of requests with any failures the tables are consistent after every request if and only if no clean-up failed |
| Sequential.KthPeerGetsKthAddress | server/internal/peers/store.go:155-164 | of up to 65,023 successive connects by distinct keys the k-th gets 10.8.((k+1)/254).(1+(k+1)%254), in both tables, and there is nothing else in them |
| Registry.EveryInterleavingAgrees | server/internal/api/handlers.go:75-107 | in every interleaving of any requests with any failures, under the three hypotheses, every kernel peer not being served has a row with its address and the hash of its PSK, and no step changes another key in either table |
| Registry.AcceptedClientKeepsService | server/internal/api/handlers.go:98-122 | under the same hypotheses a client whose row has been stored keeps its kernel peer, PSK, address and row in every later state until another request for its key arrives |
| Registry.RequestKeepsItsKey | server/internal/api/handlers.go:75-159 | in every interleaving a request is served for the key, and a connect with the PSK, it arrived with |
| Registry.FourCallsAtMost | server/internal/api/handlers.go:75-159 | no request makes more than four calls, and one that has made four is done |
| Registry.RestIsFinish | server/internal/api/handlers.go:75-159 | calls a request makes in a row amount to the lone request, and no other request changes |
| Registry.EveryStoreIsSound | server/internal/peers/store.go:34-41 | with no hypothesis: in every interleaving addresses stay distinct and usable, 10.8.0.1 is never stored, and a step changes the row count by at most one |
| Overlap.AgreeIffNoSharedAddress | server/internal/peers/store.go:129-135 | when any connects by distinct keys all succeed, the tables agree at the end if and only if no two ever held one address at once |
| Overlap.OverlappingConnectsPartTheTables | server/internal/api/handlers.go:76-100 | from any consistent tables with fewer than 65,023 rows, two connects by different keys that both allocate before either stores are both accepted with the one address on offer, and the tables end apart |
| Overlap.SameKeyRequestsPartTheTables | server/internal/api/handlers.go:141-159 | a connect that runs between a disconnect's two removals is accepted, the disconnect succeeds, and a kernel peer is left with no row |
| Agreement.AgreeIffSameRequest | server/internal/api/handlers.go:75-159 | in every interleaving with any failures and any shared keys and addresses, if connects for one key that hold one address at once have PSKs that hash differently: the tables agree about a key at any moment if and only if no request has changed its kernel peer, or the last change removed it, or the peer is still as one request set it and that request was the last to change the row |
| Agreement.AgreeIffSameRow | server/internal/wg/manager.go:28-67 | the same with no hypothesis, for the request or one with the same address and PSK hash |
| Agreement.FreshPsksAreEnough | server/internal/psk/provider.go:86-127 | the hypothesis holds at every moment if no two connects for one key bring PSKs that hash alike |
| Agreement.RivalStripsTheClient | server/internal/api/handlers.go:85-107 | an accepted client is left with no address in the kernel by a connect for another key that fails and cleans up |
| Agreement.RetryPartsTheTables | server/internal/api/handlers.go:76-100 | two connects for one key are both accepted with one address, and leave the PSK of one in the kernel and the hash of the other in the row |
| Framing.DecodeEncoded | client/src-tauri/src/tunnel.rs:49-51 | decoding encoded datagrams followed by any bytes gives those datagrams, in order, then what the bytes decode to |
| Framing.FrameOnTheWire | client/src-tauri/src/tunnel.rs:49-51 | a frame is the length modulo 2^16, low byte first, followed by the datagram |
| Framing.CastIsLosslessIffFits | client/src-tauri/src/tunnel.rs:44-50 | the 16-bit length is right exactly for datagrams that fit the 65,535-byte buffer |
| Framing.EncodeDecoded | client/src-tauri/src/tunnel.rs:23-33 | re-encoding the decoded frames and appending the rest gives the stream back |
| Framing.SplitIsUnique | client/src-tauri/src/tunnel.rs:23-33 | a stream is frames and an unfinished rest in exactly one way, the decoder's |
| Framing.TruncationYieldsPrefix | client/src-tauri/src/tunnel.rs:25-33 | a stream cut anywhere yields a prefix of the frames, never part of one |
| Relay.TcpReader.ReadExact | client/src-tauri/src/tunnel.rs:25-33 | reads the next n bytes across any segments, and fails exactly when the stream ends first |
| Relay.TcpToUdp | client/src-tauri/src/tunnel.rs:22-40 | sends the decoded frames whose lookup found an address, whatever the segments |
| Relay.ForwardedIsFound | client/src-tauri/src/tunnel.rs:34-39 | exactly those frames, each once, in order, whole, to the address found for it |
| Relay.UdpToTcp | client/src-tauri/src/tunnel.rs:43-60 | what it writes is the frames before the first failing write and what gets out of that one; the last sender is recorded |
| Relay.WrittenDecodes | client/src-tauri/src/tunnel.rs:43-60 | what it writes decodes to a prefix of the datagrams that misses none before the write that fails, and to all of them when none does |
| Interleaving.EveryInterleavingForwards | client/src-tauri/src/tunnel.rs:22-60 | in every interleaving the datagrams sent are the decoded frames, in order, whose lookup came after some datagram was recorded, each to the sender recorded last before the lookup |
| Interleaving.ClientStaysKnown | client/src-tauri/src/tunnel.rs:47 | once learnt, the client's address is never unset |
| Interleaving.LatestRecordedIs | client/src-tauri/src/tunnel.rs:34-47 | a lookup finds the sender of the last datagram received before the last recording |
| Interleaving.EveryInterleavingWrites | client/src-tauri/src/tunnel.rs:43-60 | in every interleaving the bytes written decode to the datagrams received, in order, missing at most the last, and that only while it is still to be written or when its write has failed |
| Interleaving.Task1CanFinish | client/src-tauri/src/tunnel.rs:22-40 | from every reachable state task 1 by its own moves can come to having sent every whole frame that has arrived |
| Interleaving.Task2CanFinish | client/src-tauri/src/tunnel.rs:43-60 | unless it has ended, task 2 by its own moves can come to having written every datagram received |
| ReadLine.ReadResponse | client/src-tauri/src/pqc/psk_provider.rs:121-133 | gives exactly the bytes before the first newline, and fails exactly when the stream ends first |
| ReadLine.ReadCapped | files_extracted/psk_provider.rs:122-136 | succeeds exactly when a newline comes at offset 2^20 or before, and tells a long line from a closed stream |
| Negotiation.HandleConn | files_extracted/provider.go:66-127 | refusals change nothing; otherwise the peer is programmed whether or not the reply gets out, and the reply is the one for the PSK programmed |
| Negotiation.OwnHelloAnsweredIff | files_extracted/provider.go:79-106 | a client's own hello is answered if and only if there is no token check or it accepts that token for that key, and the salt is drawn |
| Negotiation.AnsweredIff | files_extracted/provider.go:70-106 | any other bytes are answered if and only if they parse, the check accepts, the key decodes and passes its own check, and the salt is drawn |
| Negotiation.ClientNegotiate | client/src-tauri/src/pqc/psk_provider.rs:78-166 | sends the hello for its own key pair and returns the PSK, the server key and the endpoint that the first response line gives under it |
| Negotiation.NegotiatesFromIff | client/src-tauri/src/pqc/psk_provider.rs:135-153 | the client accepts a line if and only if it parses and its ciphertext and salt can be derived from |
| Negotiation.ReplyCarriesThePsk | files_extracted/provider.go:94-126 | a whole reply to a client's hello gives it the PSK programmed for its key and the server's own key and endpoint; a reply cut short gives it nothing |
| PskAgreement.JustFinishedClientAgrees | files_extracted/provider.go:109-126 | with at most one live negotiation a key, a client that has just finished holds the PSK installed for its key, and its own negotiation was the last to program it |
| PskAgreement.UndisturbedNegotiation | files_extracted/provider.go:66-127 | beside any others, a negotiation whose moves follow each other leaves its client with the PSK in the kernel if the token is accepted and the salt drawn, and otherwise with nothing and the kernel as it was |
| PskAgreement.EveryPeerIsLetIn | files_extracted/provider.go:60-83 | in every interleaving from a kernel without peers, every peer in it is one a client asked for with a token the check accepts |
| PskAgreement.OpenedConnIsThere | files_extracted/provider.go:66-83 | each connection keeps the seed, key and token it was opened with |
| PskAgreement.FinishedClientsAgree | client/src-tauri/src/pqc/psk_provider.rs:139-165 | it goes on holding it while no later connection programs the key and, where no two negotiations derived one PSK, exactly that long |
| PskAgreement.FinishedHoldsInstalledIff | files_extracted/provider.go:111-113 | with any number of live negotiations a key: a finished client holds the installed PSK if its own negotiation was the last to program its key and, where no two negotiations for one key derived one PSK, only then |
| PskAgreement.OnlyTheLastPeerHasTheAddress | files_extracted/provider.go:57 | every peer is set with the one configured address, so in every interleaving exactly the peer programmed last of all has it |
| PskAgreement.InstalledIsLastProgrammed | files_extracted/provider.go:140-158 | the installed PSK is the one the last `wg set` for the key derived, whatever else is interleaved |
| LimiterCache.OneLimiterPerKey | server/internal/api/middleware.go:30-46 | in every interleaving two calls return one limiter if and only if they were called with one key, each limiter was created for the key of the calls it is returned to, and none is created twice for one |
| LimiterCache.EntriesAreKept | server/internal/api/middleware.go:37-39 | no entry of the map is ever replaced |
| LimiterCache.SomeoneCanAlwaysMove | server/internal/api/middleware.go:31-41 | while a call is unfinished some unfinished call can move |
| LimiterCache.NineMovesAtMost | server/internal/api/middleware.go:30-46 | no call makes more than nine moves, and one that has made nine has returned |
| LimiterCache.WhoWaitsForWhom | server/internal/api/middleware.go:31-36 | readers share the lock, and wait only for a writer announced or inside |
| RateLimit.IPRateLimiter.GetLimiter | server/internal/api/middleware.go:30-46 | a known key's own limiter, or a fresh full one added under a new key, all other entries kept, and no two keys sharing one |
| RateLimit.IPRateLimiter.Admit | server/internal/api/middleware.go:50-60 | a request passes exactly when its own key's bucket admits it, and no other key's bucket changes |
| RateLimit.KeysAreIndependent | server/internal/api/middleware.go:50-60 | however the requests of different keys are mixed, those of one key are decided by that key's requests alone |
| RateLimit.Limiter.Allow | server/internal/api/middleware.go:55 | the bucket's step: admitted exactly when it holds a whole token |
| RateLimit.EarlierClockGainsNothing | server/internal/api/middleware.go:55 | a request dated before the last one admitted finds the tokens left then, no more and no fewer |
| RateLimit.WindowBound | server/internal/api/middleware.go:48-60 | any window of T seconds admits at most 100 + T/36 requests for one key |
| RateLimit.MostInWindow | server/internal/api/middleware.go:48-60 | for any bucket, window and n: every schedule within the window is admitted at most n times if and only if the level at its start plus T/36 is below n + 1 |
| RateLimit.HourAdmitsHundredIff | server/internal/api/middleware.go:48 | an hour admits at most 100 requests, whenever they come, if and only if it begins with less than one token |
| RateLimit.TwoHundredInAnHour | server/internal/api/middleware.go:48 | 200 requests can be admitted within one hour |
| Hosts.RemoteAddrInjective | server/internal/api/middleware.go:52-54 | two requests share a limiter exactly when they have the same host and the same port |
| Hosts.HostWindowBound | server/internal/api/middleware.go:50-60 | in any window of T seconds, whatever came before, a host is admitted at most 100 + T/36 requests, rounded down, for each of its ports used there |
| Hosts.HostMostInWindow | server/internal/api/middleware.go:50-60 | a window admits a host using at most m ports at most n requests, whatever anyone asks before and in it, if and only if m times 100 + T/36, rounded down, is at most n |
| Hosts.PortsMultiplyTheLimit | server/internal/api/middleware.go:50-60 | m ports of one host are admitted 100 * m requests at one instant |
| Dump.ParseDump | server/internal/wg/manager.go:100-122 | the loop gives the selection of peer lines of the trimmed text |
| Dump.SelectedLines | server/internal/wg/manager.go:104-119 | on any text the selection is exactly the lines after the first with at least seven tab fields, each once and in order |
| Dump.SixTabs | server/internal/wg/manager.go:107-110 | a line is a peer's if and only if it has at least six tabs |
| Dump.TrimSpaceIs | server/internal/wg/manager.go:101-104 | trimming takes white space off both ends, and all of it |
| Dump.PrintThenParse | server/internal/wg/manager.go:95-122 | printing an interface line and any peers with non-empty, whitespace-free fields, then parsing, gives exactly those peers |
| Conf.FieldsAreNamed | client/src-tauri/src/wireguard/windows.rs:34-60 | of parameters without newlines each stands on its own line, after its own name, in its own section, with no further lines but the keepalive |
| Conf.EqualTextsFromEqualParams | client/src-tauri/src/wireguard/windows.rs:34-60 | two parameter sets without newlines print alike only when equal, the presence of a preshared key included |
| Conf.OnlyOneWithItsText | client/src-tauri/src/wireguard/windows.rs:35-38 | a parameter set without newlines is the only set at all that prints its text if and only if it has no preshared key |
| Conf.NewlinesCanHideAKey | client/src-tauri/src/wireguard/windows.rs:35-38 | with a newline in a field, a configuration without a preshared key prints like one with it |
| Monitor.Start | client/src-tauri/src/wireguard/manager.rs:20-44 | stops at the first poll that ends three down polls in a row, and goes on exactly while there is none |
| Monitor.NeverInTheFirst105Seconds | client/src-tauri/src/wireguard/manager.rs:20-33 | three down polls cannot end before 105 s |
| Monitor.NinetySecondsDownTriggers | client/src-tauri/src/wireguard/manager.rs:17-33 | with polls on time, 90 s of downtime after the initial delay contains such a triple |
| Monitor.ShortOutageNeverTriggers | client/src-tauri/src/wireguard/manager.rs:31-33 | an outage of less than 60 s contains none |

## Left out

- Timestamps (connected_at, last_seen), UpdateLastSeen, ListPeers and the status handler: they would only add easy members.
- ML-KEM, HKDF, SHA-256, base64, TLS, JSON, SQLite, the `wg` binary and the kernel themselves: only the laws and table effects above are used. Lengths of salts and keys play no part.
- HTTP: a request is its decoded body, a response its status and body; the text of a nested error is dropped from the message of a 400 response.
- Ipv4.IncrementIP: does not model Go's 64-bit overflow of an offset near the integer limits; the allocator's offsets stay below 65,533.
- RateLimit.Limiter.Allow: uses real numbers for tokens and seconds; the library's rounding is not modelled.
- The server accepting connections in `Serve`, and the client's TLS set-up: wiring. A hello that breaks off is the one `ServerDrops` action.
- Monitor.NinetySecondsDownTriggers: takes polls exactly 30 s apart; the time a poll itself takes is not modelled.
- The user interface, configuration files, DNS, kill switch and tunnel service commands.
- Plans without code: PSK rotation, token verification, reconnect backoff.
