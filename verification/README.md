# HonoWarden: verified models

This project models the parts of HonoWarden, a vault-sync server on Workers, whose correctness rests
on an algorithm or a protocol in its own code, and proves what those parts are for. It is written in
Dafny 4.11; `dafny verify dfyconfig.toml` checks all of it.

Each file is one module, after one source file or one shared subject.

| file | subject |
|---|---|
| `EncString.dfy`, `Base64.dfy`, `Base64Url.dfy`, `Bits.dfy` | wrapper fingerprints, the permissive base64 loop, strict and loose base64url, all against RFC 4648 read as a regrouping of one bit string |
| `PolicyBody.dfy`, `UniqueJson.dfy`, `Json.dfy`, `JsonSpelling.dfy` | the duplicate-key scans over raw JSON text, of the top level and of every level, against a lexer and parser of RFC 8259, and all the ways in which a JSON text may be written |
| `MailEnvelope.dfy`, `MailConsumer.dfy` | sealed account mails and the queue consumer that opens, sends and settles them |
| `NotificationHub.dfy`, `NotificationHubObject.dfy` | the hub's transitions and their runs; the class that performs them |
| `AttachmentUpload.dfy`, `AttachmentUploadRoute.dfy` | concurrent uploads as a protocol over two stores; the route in its own statement order |
| `TxtRecord.dfy`, `TrustCache.dfy` | DNS TXT text, and the issuer resolver with its bounded cache |
| `Company.dfy`, `CompanyBatch.dfy`, `InitialSetup.dfy` | settings updates, test mails and the one-shot account: what each batch does, its runs, and the batches statement by statement |
| `AttachmentDownload.dfy` | download tickets and key rotation |
| `JsonText.dfy`, `JsonNames.dfy`, `Utf8.dfy`, `Text.dfy`, `Sets.dfy`, `Sequences.dfy`, `Options.dfy` | JSON escaping and printing, UTF-8, joining and splitting, and facts about collections |
| `Platforms.dfy` | functions that keep the laws assumed of dates, the cipher and the tickets' platform, so that what is proved under them is not empty |

Functions specify, methods perform. Where the source changes things step by step, a method follows
its statements and is proved equal to the specification function; the lemmas are then about that
function and about runs of any length. Texts that come from JSON are sequences of UTF-16 code units;
raw JSON texts and tokens are sequences of Unicode characters. Times are integer milliseconds
(seconds for tickets, reals in the trust cache, where a DNS lifetime may be fractional).

Six promises turned out to hold only under a condition, and the condition is proved exact:

- A sealed mail opens to what was sealed exactly when the sealing time is not before the year 0. An
  earlier time is written with 27 characters, which the opener refuses (`MailEnvelope.OpenSealed`,
  `MailEnvelope.SealBeforeYearZero`).
- Every registered socket has a heartbeat after an event exactly when the event is not an accepted
  handshake whose greeting or first ping fails to send: such a socket stays registered without one
  (`NotificationHub.HeartbeatIff`, `NotificationHub.HeartbeatMissing`); and so throughout a run
  (`NotificationHub.HeartbeatsThroughout`).
- The storage limit holds throughout a run exactly when every mark of it fits: the statement that
  turns a pending row into an uploaded one looks at neither the lease nor the limit, so a transfer
  that outlasts its 24-hour lease can bring twice the limit into store
  (`AttachmentUpload.LimitIff`, `AttachmentUpload.LimitExceeded`).
- A deliver mail leaves the queue only when it is sent or expired, as long as that happens within its
  retries: every queue is configured with three of them and a dead-letter queue, so four refused
  sends take a mail out unsent and unexpired (`MailConsumer.DeliverLeaves`,
  `MailConsumer.FourRefusals`).
- A revoked stamp stays barred from the hub exactly as long as the object lives: the generation is
  kept in memory only, so after a restart the newest one must be brought again
  (`NotificationHub.Revoked`, `NotificationHub.RestartForgets`).
- Test mails keep their distance exactly when no claim comes within the cooldown of one whose audit
  row, which is the only claim there is, the cleanup of year-old rows has deleted. No clock can do that
  unless it falls about a year behind the clock of an earlier cleanup (`Company.SpacingIff`,
  `Company.SpacedForever`, `Company.ClockFellBack`).

## Model

| member | source | states |
|---|---|---|
| `EncString.FingerprintIff` | src/domain/account-credentials.ts:93-138 | two wrappers share a fingerprint input exactly when they are the same text, or both parse as EncStrings with the same type and the same decoded part bytes |
| `EncString.WrapperIff` | src/domain/account-credentials.ts:101-138 | a text is an EncString of a type and byte parts exactly when it spells them: a known type with its number of parts, named and dotted or, for types 0 and 1, left out, and each part in standard base64 however padded |
| `EncString.FingerprintOf` | src/domain/account-credentials.ts:93-138 | every spelling of a wrapper of any byte strings has one fingerprint input, that of its type and bytes |
| `EncString.FingerprintsAgreeIff` | src/domain/account-credentials.ts:93-138 | two texts share a fingerprint input exactly when they are the same text or spell one wrapper |
| `EncString.UntypedForms` | src/domain/account-credentials.ts:105-113 | an untyped text of two or three parts means what the same parts mean under type 0 or 1 |
| `EncString.TypedForm` | src/domain/account-credentials.ts:114-131 | a typed text is an EncString exactly when the type is known, has that many parts, and every part decodes |
| `EncString.TypedFingerprintIff` | src/domain/account-credentials.ts:93-174 | for typed wrappers of decodable parts, equal fingerprints mean equal types and parts that agree on every bit the decoder uses |
| `EncString.CanonicalInjective` | src/domain/account-credentials.ts:135-138 | the length-prefixed canonical text determines type and parts |
| `EncString.CanonicalIs` | src/domain/account-credentials.ts:135-138 | the canonical text is the type, then each part's length and bytes in hexadecimal, between colons |
| `EncString.DecodeAllIff` | src/domain/account-credentials.ts:130-133 | encoded parts decode together to some byte parts exactly when each spells its own |
| `Text.HexInjective` | src/domain/account-credentials.ts:176-178 | different byte strings have different hexadecimal texts |
| `Text.HexAt` | src/domain/account-credentials.ts:176-178 | byte i is written as its two digits in lower case |
| `Base64.DecodeEncStringBase64` | src/domain/account-credentials.ts:141-167 | the accumulator loop returns bytes exactly for the texts that spell them, and null for texts that spell none, filling the array and writing every index once, in order |
| `Base64.DecodedIff` | src/domain/account-credentials.ts:141-167 | the accepted texts are exactly the sextets of a possible length in the standard alphabet followed by any padding, and they decode to the RFC 4648 bytes of those sextets |
| `Base64.EncodingSpells` | src/domain/account-credentials.ts:141-167 | every byte string is decoded from its standard encoding, with any amount of padding or none |
| `Base64.Alphabet` | src/domain/account-credentials.ts:169-174 | the alphabet is that of RFC 4648, letter by letter |
| `Base64.ShiftSextet` | src/domain/account-credentials.ts:158-160 | shifting a sextet into the 32-bit accumulator is multiplying by 64 and adding |
| `Base64.TakeByte` | src/domain/account-credentials.ts:163-165 | shift and mask take the top byte off and leave the low bits, below 2 to the bit count |
| `Base64.AbsorbWritten` | src/domain/account-credentials.ts:156-165 | a pass that completes a byte keeps bytes written plus pending bits equal to the bits read |
| `Base64.DecodeEqualIff` | src/domain/account-credentials.ts:140-167 | two accepted inputs decode equally exactly when they have equal length and agree on all sextets apart from the unused low bits of the last |
| `Base64.DecodeEncode` | src/account-lifecycle-mail-envelope.ts:238-254 | regrouping bytes to sextets and back is the identity |
| `Base64.EncodeDecode` | src/domain/attachment-download.ts:140-148 | sextets survive decoding and encoding exactly when the last one has no stray unused bits |
| `Base64Url.EncodeIs` | src/domain/attachment-download.ts:133-138 | btoa with its replacements is the url alphabet over the RFC's sextets, unpadded |
| `Base64Url.StrictIff` | src/domain/attachment-download.ts:133-148 | the strict decoder accepts a text, and returns bytes for it, exactly when they are non-empty and encode to that text |
| `Base64Url.LooseOfEncode` | src/account-lifecycle-mail-envelope.ts:238-254 | the padding decoder of the mail codec undoes the encoder |
| `Base64Url.TokenPatternIff` | src/account-lifecycle-mail-envelope.ts:24 | the token pattern matches exactly the encodings of 32-byte values, so every minted token passes and the re-encoding of a matched key is the key |
| `Json.ParseIff` | src/organization-policy-routes.ts:204 | a text parses to a tree exactly when its tokens are the tree's tokens |
| `JsonSpelling.JsonIff` | src/organization-policy-routes.ts:206 | a text parses to a tree exactly when it writes that tree: its tokens with any of the four blanks between them, strings in plain characters, two-character escapes and four-digit codes, numbers as sign, integer, fraction and exponent |
| `JsonSpelling.LexWritten` | src/organization-policy-routes.ts:206 | however tokens are spelled and spaced, they are read back |
| `JsonSpelling.BodyIff` | src/organization-policy-routes.ts:206 | a string body is valid exactly when it is written in such pieces |
| `JsonSpelling.UnescapePieces` | src/organization-policy-routes.ts:219 | a string stands for its pieces: characters, control characters by letter, UTF-16 units by code |
| `JsonSpelling.WordValues` | src/domain/email-verification.ts:442 | true, false and null mean themselves, and any other scalar a number |
| `JsonSpelling.ItemValues` | src/domain/email-verification.ts:442 | the i-th value of an array is that of its i-th item |
| `JsonSpelling.FieldNames` | src/domain/email-verification.ts:442 | an object has exactly the names of its members |
| `JsonSpelling.FieldValues` | src/domain/email-verification.ts:442 | of members with one name the last gives the value |
| `PolicyBody.MatchesLex` | src/organization-policy-routes.ts:205 | on every JSON text the regular expression finds exactly the strings and structural characters of its tokens |
| `PolicyBody.ScanText` | src/organization-policy-routes.ts:205-221 | on every JSON text the depth scan finds exactly the top-level member names, in order, and reads each to its unescaped value |
| `PolicyBody.HasDuplicateKey` | src/organization-policy-routes.ts:205-221 | the scan loop reports a duplicate exactly when two top-level member names are equal after unescaping and lower-casing |
| `PolicyBody.ReadPolicyBody` | src/organization-policy-routes.ts:174-230 | a tree is returned exactly when the body is present, of at most 4096 bytes by header and by count, UTF-8 with or without a byte order mark, of a text that writes this tree as JSON, and free of duplicate top-level names |
| `UniqueJson.ScanIff` | src/domain/email-verification.ts:443-457 | on every JSON text the stack scan refuses exactly when some object, at any depth, has two members of equal unescaped name |
| `UniqueJson.PassValue` | src/domain/email-verification.ts:443-457 | a value in any context is passed exactly when it is unique at every depth, and leaves the stack as it found it |
| `UniqueJson.ParseUniqueJson` | src/domain/email-verification.ts:440-461 | the value of the tree that the text writes is returned when no object of it repeats a name, and null when there is no such tree |
| `JsonText.UnescapeEscape` | src/account-lifecycle-mail-envelope.ts:53-55 | JSON string escaping, surrogates included, is undone by unescaping |
| `JsonText.ParseStringify` | src/account-lifecycle-mail-envelope.ts:53-55 | a printed tree parses back to itself |
| `Utf8.DecodeEncode` | src/account-lifecycle-mail-envelope.ts:112-116 | strict UTF-8 decoding undoes encoding |
| `Utf8.DecodeIff` | src/account-lifecycle-mail-envelope.ts:112-116 | strict UTF-8 decoding accepts exactly the encodings of texts |
| `Utf8.TextIff` | src/organization-policy-routes.ts:190 | a decoded text is exactly one whose bytes stand there, after a byte order mark or as they are |
| `MailEnvelope.ParseSerialized` | src/account-lifecycle-mail-envelope.ts:145-180 | a valid delivery written as JSON is parsed to the same delivery |
| `MailEnvelope.DeliveryIff` | src/account-lifecycle-mail-envelope.ts:145-180 | a value is read as a delivery exactly when it has the six fields of that delivery, no other, and they are valid |
| `MailEnvelope.ValidIff` | src/account-lifecycle-mail-envelope.ts:156-188 | the valid texts, one by one: two plain parts around an @ in at most 256 units and 254 bytes, the encoding of 32 bytes, an id of at most 128 url characters, and the text of a time with a four-digit year |
| `MailEnvelope.SealIff` | src/account-lifecycle-mail-envelope.ts:37-52 | a request is sealed exactly when it is a valid delivery that expires after now and at most its lifetime after it, a day for verifying an address and 15 minutes otherwise |
| `MailEnvelope.MintedIsSealed` | src/domain/account-lifecycle.ts:65-85 | a delivery minted with the expiry of its purpose is sealed at every time from then until it expires, and at no other |
| `MailEnvelope.SizeGuardUnreachable` | src/account-lifecycle-mail-envelope.ts:53-57 | a valid delivery's payload has at most 2046 bytes, even with every character of the address escaped |
| `MailEnvelope.Block` | src/account-lifecycle-mail-envelope.ts:58-60 | the padded block always has 2048 bytes |
| `MailEnvelope.Seal` | src/account-lifecycle-mail-envelope.ts:37-78 | the buffer-filling sealer returns the specified envelope, and fails exactly on refused requests |
| `MailEnvelope.OpenSealedBlock` | src/account-lifecycle-mail-envelope.ts:79-107 | the envelope's own fields pass every shape check of the opener and decrypt to the sealed block |
| `MailEnvelope.OpenSealed` | src/account-lifecycle-mail-envelope.ts:37-141 | every accepted request is sealed, and a sealed mail opens under any key set still holding its key to the same delivery and sealing time, exactly when that time is not before the year 0 |
| `MailEnvelope.EnvelopeIff` | src/account-lifecycle-mail-envelope.ts:80-91 | the shape checks pass exactly what sealing writes for some key id, 12 bytes and 2064 bytes |
| `MailEnvelope.OpenIff` | src/account-lifecycle-mail-envelope.ts:79-141 | an envelope opens to a delivery and a time exactly when a key it names is held and decrypts it to a block whose counted JSON payload is that delivery, valid and within its lifetime of that time |
| `MailEnvelope.OpenWithoutKey` | src/account-lifecycle-mail-envelope.ts:92 | an opener without the key id finds an unknown key |
| `MailEnvelope.SealBeforeYearZero` | src/account-lifecycle-mail-envelope.ts:182-189 | a mail sealed a millisecond before the year 0 is sealed and then refused |
| `MailEnvelope.ReadKeys` | src/account-lifecycle-mail-envelope.ts:202-237 | a key configuration is accepted exactly when its shape is right; the keys are the decoded 32-byte values, and the re-encoding guard never fires |
| `MailConsumer.ConsumeAccountLifecycleMail` | src/account-lifecycle-mail-consumer.ts:19-79 | a batch of more than ten settles nothing; otherwise each message gets exactly one settlement, and the reports and sends are those of the messages in order |
| `MailConsumer.ConsumeOne` | src/account-lifecycle-mail-consumer.ts:31-78 | a message is acknowledged when it is malformed, or read under a usable clock and suppressed, expired or accepted, and retried after 60 seconds otherwise |
| `MailConsumer.FateIff` | src/account-lifecycle-mail-consumer.ts:31-78 | whatever its deliveries find, a message is acknowledged exactly when one within its retries settles it, and dead-lettered exactly when they are used up without that |
| `MailConsumer.NeverReadable` | src/account-lifecycle-mail-consumer.ts:37-41 | a message that is never readable is retried and then dead-lettered, never acknowledged |
| `MailConsumer.ReportsAre` | src/account-lifecycle-mail-consumer.ts:31-78 | each report has its one cause |
| `MailConsumer.DeliverLeaves` | src/account-lifecycle-mail-consumer.ts:35-78 | over its redeliveries, readable or not, a deliver message is acknowledged exactly when, within its retries, it is read under a usable clock and is expired or has its send accepted, and dead-lettered exactly when they are used up without that |
| `MailConsumer.FourRefusals` | wrangler.account-mailer.jsonc:24-33 | with the three configured retries, a mail whose send is refused four times is dead-lettered, unsent and unexpired |
| `MailConsumer.AcceptedOnce` | src/account-lifecycle-mail-consumer.ts:73-77 | over any redeliveries at most one send is accepted, and the message is acknowledged then |
| `MailConsumer.LastAttempt` | src/account-lifecycle-mail-consumer.ts:35-78 | a message is delivered until its first acknowledgement or, that failing, once and its retries more, and never after that |
| `MailConsumer.SentAreDue` | src/account-lifecycle-mail-consumer.ts:33-78 | of a batch exactly the mails that decode, are not suppressed, are not future-dated and have not expired, under a finite clock, are handed to the sender, each once and in order |
| `MailConsumer.SealedMailIsDelivered` | src/account-lifecycle-mail-consumer.ts:19-79 | while its key is held, or not there yet, a sealed deliver mail is acknowledged exactly when an attempt within its retries reads it and finds it expired or has its send accepted, and dead-lettered exactly when they are used up without that; a suppressed one is never handed to the sender |
| `NotificationHub.RunInvariant` | src/notification-hub.ts:98-156 | in every reachable state each registered socket with a generation carries the active stamp, and running timers belong one-to-one to registered sockets |
| `NotificationHub.StepInvariant` | src/notification-hub.ts:74-246 | every event keeps that bookkeeping |
| `NotificationHub.HeartbeatIff` | src/notification-hub.ts:98-113 | an event leaves every registered socket with a heartbeat exactly when it is not an accepted handshake with a failing send |
| `NotificationHub.HeartbeatsThroughout` | src/notification-hub.ts:98-113 | registered sockets have heartbeats throughout a run exactly when none of its accepted handshakes has a failing send |
| `NotificationHub.HeartbeatMissing` | src/notification-hub.ts:98-113 | a socket whose greeting fails is registered without a heartbeat |
| `NotificationHub.NotifyAccounting` | src/notification-hub.ts:121-157 | sockets before an accepted notification are the invalidated, pruned, failed and delivered ones, and those delivered are what remains |
| `NotificationHub.ClosedIsGone` | src/notification-hub.ts:115-116 | a closed socket is gone with its heartbeat and interval, and nothing else is |
| `NotificationHub.AcceptedIff` | src/notification-hub.ts:210-223 | a generation is accepted exactly when none is active, its stamp is the active one, however old it is, or it is strictly newer |
| `NotificationHub.AdvanceIs` | src/notification-hub.ts:210-240 | an accepted generation is active with the newest time known for its stamp, and a new stamp keeps exactly the sockets that carry it |
| `NotificationHub.ConnectIff` | src/notification-hub.ts:81-119 | a connect is remembered exactly when its generation is accepted, and a refused one changes nothing |
| `NotificationHub.HandshakeIs` | src/notification-hub.ts:94-113 | a handshake registers its socket, with a heartbeat exactly when its sends succeed, or removes it when its generation is accepted no longer |
| `NotificationHub.ActiveIsNewest` | src/notification-hub.ts:210-240 | after any offers the active generation is one of them and none is newer |
| `NotificationHub.ConvergesIff` | src/notification-hub.ts:210-240 | the final stamp and time are independent of order and repetition exactly when all the newest offers are for one stamp |
| `NotificationHub.RunsConverge` | src/notification-hub.ts:74-246 | runs of any events that bring the same generations since their last restarts end with the same stamp and time |
| `NotificationHub.ChainIncreases` | src/domain/account-credentials.ts:400-411 | credential revisions dated one from another strictly increase, whatever the clock |
| `NotificationHub.Revoked` | src/notification-hub.ts:86-113 | the newest generation of a chain of credential changes is active exactly when it has reached the hub since the last restart, and then no socket of another stamp is registered and no connect or late handshake registers one |
| `NotificationHub.RestartForgets` | src/notification-hub.ts:48-58 | after a restart a socket of a stamp revoked before can be registered again |
| `NotificationHubObject.HubObject.AdvanceGeneration` | src/notification-hub.ts:210-240 | the method's answer, count and new state are those of the advance |
| `NotificationHubObject.HubObject.CloseStale` | src/notification-hub.ts:225-237 | the closing loop removes exactly the sockets that do not carry the stamp, with their timers, and counts them |
| `NotificationHubObject.HubObject.ConnectSocket` | src/notification-hub.ts:74-119 | a connect answers 426, 400, 401 or 101, and only an accepted one is remembered |
| `NotificationHubObject.HubObject.HandshakeMessage` | src/notification-hub.ts:94-113 | a handshake registers the socket or removes it, and a throwing send skips the timer |
| `NotificationHubObject.HubObject.SocketClosed` | src/notification-hub.ts:115-116 | a close or an error removes the socket and its timer |
| `NotificationHubObject.HubObject.NotifyAll` | src/notification-hub.ts:121-157 | a notification answers 400, 409 or its three counts, and leaves the state of the notify event |
| `NotificationHubObject.HubObject.DeliverToAll` | src/notification-hub.ts:140-154 | the delivery loop drops closed and failing sockets and counts the rest |
| `NotificationHubObject.HubObject.InvalidateSessions` | src/notification-hub.ts:159-174 | an invalidation answers 400, 409 or the number of sockets closed |
| `AttachmentUpload.UploadsAreDurable` | src/app.ts:10619-10790 | in every interleaving an uploaded row has its object of the allocated size, at most one request reports creation, and a 204 or a reported creation is backed by an uploaded row |
| `AttachmentUpload.SettledForGood` | src/app.ts:10727-10763 | uploaded rows stay uploaded and missing rows stay missing for the rest of the run, which makes the compensating delete safe |
| `AttachmentUpload.ObjectIff` | src/app.ts:10712-10753 | an object is there exactly when a put wrote it and no compensating delete has taken effect since |
| `AttachmentUpload.OrphanCause` | src/app.ts:10712-10760 | an object without an uploaded row was put by a request that is unfinished, or whose put, settling read or delete failed, or whose settling read found the row still pending |
| `AttachmentUpload.UploadCompletes` | src/app.ts:10619-10790 | an upload left alone, answered throughout and within its lease and the limit stores the object, marks the row and reports the creation |
| `AttachmentUpload.LookedIff` | src/app.ts:10638-10661 | the lookup goes on exactly for an uploaded row or a live lease, and answers 404 or 503 otherwise |
| `AttachmentUpload.ReceivedIff` | src/app.ts:10663-10688 | a body goes on exactly when it has the allocated size within the limit, and is answered 413 or 400 otherwise |
| `AttachmentUpload.AnswersIff` | src/app.ts:10696-10760 | after the calls that succeed, a missing row is answered 404, a refused lease 413, and an object written again or a recorded creation 204 |
| `AttachmentUpload.FailedCall` | src/app.ts:10735-10790 | a call that fails ends the request with 503, except the mark, whose outcome the settling read decides |
| `AttachmentUpload.StepInvariant` | src/app.ts:10686-10763 | every statement of every request keeps what the other requests rely on |
| `AttachmentUpload.CreationIsFirst` | src/repositories/attachment-repository.ts:401-436 | a request starts reporting creation only when the row was still pending |
| `AttachmentUpload.StepWithin` | src/repositories/attachment-repository.ts:401-489 | a step keeps the storage limit exactly when it is not a mark that no longer fits |
| `AttachmentUpload.AllocateWithin` | src/repositories/attachment-repository.ts:166-247 | an allocation that its statement admits keeps the limit, however late the statement runs |
| `AttachmentUpload.AllocateIff` | src/repositories/attachment-repository.ts:166-247 | an allocation is admitted exactly when the limit holds with its row in the table |
| `AttachmentUpload.ReserveIff` | src/repositories/attachment-repository.ts:438-489 | a live lease is renewed exactly when the limit holds with the row at its new date |
| `AttachmentUpload.ReserveWithin` | src/repositories/attachment-repository.ts:438-489 | so does a renewed lease |
| `AttachmentUpload.MarkHeld` | src/repositories/attachment-repository.ts:401-436 | marking adds the row's bytes exactly when its lease had run out |
| `AttachmentUpload.LimitIff` | src/repositories/attachment-repository.ts:166-489 | the limit holds throughout a run exactly when every mark of it fits |
| `AttachmentUpload.LimitExceeded` | src/repositories/attachment-repository.ts:401-436 | a transfer that outlasts its lease ends with twice the limit in store |
| `AttachmentUploadRoute.Deployment.Upload` | src/app.ts:10619-10790 | the route, with everything else running at each await, is a run of the protocol that ends with its answer; 204 or creation means uploaded and stored, each delete that takes effect removes the object, and an object left without an uploaded row has one of the causes above |
| `AttachmentUploadRoute.Deployment.Reserve` | src/app.ts:10684-10710 | the reservation and the second lookup end the request or lead to the put |
| `AttachmentUploadRoute.Deployment.Transition` | src/app.ts:10718-10781 | the mark, its flags and the settling read take the protocol's steps; creation is a mark that is answered on a pending row, and when the settling read finds no row and the delete takes effect the object is gone |
| `TxtRecord.ReadIff` | src/email-verification.ts:393-426 | a text is read as t exactly when it writes a record of at least one quoted chunk, blank-separated, that means t |
| `TxtRecord.ReadPrinted` | src/email-verification.ts:393-426 | reading undoes printing for every split into chunks and escapes |
| `TxtRecord.ReadTxtChunks` | src/email-verification.ts:393-426 | the cursor loops return that reading, with a cursor that strictly advances |
| `TxtRecord.ReadChunk` | src/email-verification.ts:404-420 | the character loop of one chunk returns its text and ends after its closing quote, or fails exactly when there is no such reading |
| `TrustCache.HitIsFresh` | src/email-verification.ts:196-260 | in any interleaving a hit returns what the latest resolution of the same entry worth keeping found, on documents that vouched for it, strictly before its DNS lifetime and the cap run out |
| `TrustCache.Provenance` | src/email-verification.ts:247-258 | what the cache holds for an entry is the outcome of its latest kept resolution |
| `TrustCache.Retained` | src/email-verification.ts:196-258 | from the time it is placed a key stays as long as each look for it comes before the expiry of what was kept last and fewer than 16 outcomes have been stored since |
| `TrustCache.KeptIsHit` | src/email-verification.ts:196-258 | until then a look hits exactly before both lifetimes of the latest kept outcome run out, and finds its trust |
| `TrustCache.RunBounded` | src/email-verification.ts:253-258 | the cache holds at most 16 entries, its keys in insertion order, each once |
| `TrustCache.EvictsOldest` | src/email-verification.ts:252-258 | storing an outcome drops at most the oldest entry, only when the cache is full, and leaves every other as it was |
| `TrustCache.KeyIff` | src/email-verification.ts:200 | two entries share a cache key exactly when they are equal |
| `TrustCache.Resolver.Resolve` | src/email-verification.ts:193-260 | a resolution returns a hit, or the uncached outcome, and leaves the cache of its two moments with everything else in between |
| `TrustCache.UncachedIff` | src/email-verification.ts:206-251 | the resolver finds a resolution exactly when, with every fetch inside the deadline, the owner's DNS text delegated to the issuer's host, the metadata named the entry's key address and usable keys were there, for as long as the answer lasts from its arrival |
| `TrustCache.DelegationIff` | src/email-verification.ts:354-389 | a delegation is read exactly from the one answer to the one question whose text, however cut into chunks and escaped, is `iss=` and a public host |
| `Company.NoLostUpdates` | src/company-settings.ts:124-235 | an organization's successful updates form one chain of revisions, none produced twice, and row, revision and name are those of the last |
| `Company.ConsumedOnce` | src/company-settings.ts:135-158 | no revision is consumed by two updates |
| `Company.UpdateIff` | src/company-settings.ts:135-158 | an update succeeds, saving its fresh revision, exactly for an owner of an existing organization who has seen its latest settings, and otherwise changes nothing |
| `Company.AuditsAreSuccesses` | src/company-settings.ts:174-190 | the audit rows ever recorded for an organization's updates are those of the start and one for each success |
| `Company.RetentionTakesOldRows` | src/repositories/audit-event-repository.ts:62-83 | the table holds every row ever recorded except some dated before the cutoff of a cleanup |
| `Company.AuditNamesItsUpdate` | src/company-settings.ts:174-190 | each success is recorded with its own revision, actor, time and request |
| `Company.FailuresLeaveNoTrace` | src/company-settings.ts:135-222 | leaving its failing updates and claims out of a run leaves the same tables behind |
| `Company.MembersAreDated` | src/company-settings.ts:159-215 | a success dates the organization just past its old date and the clock, and every member just past the last of their old date, the clock, their vault and all their organizations, and dates nobody and nothing else |
| `Company.SpacingIff` | src/company-test-mail.ts:38-70 | over all test mails ever sent, those sharing an organization or an actor are 300000 ms apart in recorded time exactly when no claim comes within that of a mail whose row was cleaned away |
| `Company.ClaimIff` | src/company-test-mail.ts:38-70 | a claim inserts its audit row exactly for an owner who has seen the latest settings, with a recipient, when every test mail of the actor and the organization is at least 300000 ms old, and otherwise changes nothing |
| `Company.SpacedForever` | src/company-test-mail.ts:38-70 | they are so in every run in which no claim's clock falls behind an earlier cleanup's cutoff and cooldown, however clocks jump otherwise |
| `Company.ClockFellBack` | src/repositories/audit-event-repository.ts:62-83 | that bound on the clocks is exact: below it, for every cutoff and time, there is a run with two mails too close |
| `Company.RunSpaced` | src/company-test-mail.ts:38-70 | the rows in the table are spaced, whatever clocks and cleanups do |
| `Company.WindowBound` | src/company-test-mail.ts:38-70 | in a window of W ms an organization, or an actor, has at most W / 300000 + 1 rows of test mails, and is sent at most as many if clocks keep up |
| `Company.ClaimedRecipient` | src/company-test-mail.ts:44-54 | a claim names the recipient saved with the revision it was asked for: by the last successful update, or before the run if there was none |
| `CompanyBatch.Tables.SettingsBatch` | src/company-settings.ts:134-222 | the six statements, which follow the fresh revision, amount to the whole update or to nothing, and the mandatory-write check never aborts |
| `CompanyBatch.Tables.UpdateCompanySettings` | src/company-settings.ts:124-235 | success, conflict and not-found are answered for a winning update, a stale one of an owner, and anyone else |
| `CompanyBatch.Tables.RequestCompanyTestMail` | src/company-test-mail.ts:20-120 | a mail leaves only for the caller's own claim, to the saved recipient; each refusal follows from the settings read back |
| `CompanyBatch.Tables.Claim` | src/company-test-mail.ts:38-70 | the claim inserts its audit row and returns the saved recipient, or does neither |
| `CompanyBatch.RefusalsAreExact` | src/company-test-mail.ts:71-77 | when nothing changes in between, each of the four refusals has exactly its one cause |
| `CompanyBatch.ConflictIff` | src/company-settings.ts:233-234 | a refused update is a conflict exactly for an owner of an existing organization |
| `InitialSetup.CreatesOnce` | src/initial-setup.ts:22-70 | in any run at most one setup creates an account, even when every account is removed again |
| `InitialSetup.SetupIff` | src/initial-setup.ts:22-70 | receipt, account and audit row are written exactly when there is neither an account nor a receipt |
| `InitialSetup.OpensIff` | src/initial-setup.ts:22-29 | setup is open exactly while there is no account and no setup has ever created one |
| `InitialSetup.Tables.CreateInitialAccount` | src/initial-setup.ts:22-70 | the batch writes receipt, account and audit together or nothing, and reports which |
| `AttachmentDownload.VerifyIff` | src/domain/attachment-download.ts:25-92 | a signed ticket verifies, to its own scope, exactly when it is short enough, its fields are acceptable, the time is in [t, t + 120), and a usable key for its key id yields its MAC |
| `AttachmentDownload.TokenIff` | src/domain/attachment-download.ts:43-92 | of every token there is, exactly the genuine ones verify: of at most 8192 units, a payload that writes the ticket, a dot and the encoding of the MAC that an accepted key yields for that very payload, within the ticket's two minutes |
| `AttachmentDownload.PayloadIff` | src/domain/attachment-download.ts:55-66 | a payload parses to a ticket exactly when it is the encoding of JSON that presents it |
| `AttachmentDownload.PresentsIff` | src/domain/attachment-download.ts:94-117 | the shape check accepts a value, as a ticket, exactly when it has that ticket's eleven fields, texts of 1 to 512 units and integers |
| `AttachmentDownload.ScopeNamed` | src/domain/attachment-download.ts:94-113 | the eight texts of a scope stand under their own names |
| `AttachmentDownload.SignsIff` | src/domain/attachment-download.ts:68-87 | the keys tried are those of the ticket's key id, active before previous, or the bare secrets for a ticket without one |
| `AttachmentDownload.RotationKeepsTickets` | src/domain/attachment-download.ts:68-75 | while its key is active or previous a ticket verifies at every time of its life and at no other |
| `AttachmentDownload.RetiredKeyRefused` | src/domain/attachment-download.ts:68-75 | once its key id has left the ring, or where its kind of signer is not accepted, no ticket verifies at any time |
| `AttachmentDownload.DomainSeparated` | src/domain/attachment-download.ts:129-131 | what a ticket's MAC covers is never the header and payload text that an access token's MAC covers |
| `AttachmentDownload.PayloadRead` | src/domain/attachment-download.ts:55-66 | the payload is read back to the ticket exactly when its fields are acceptable |
| `AttachmentDownload.TicketRead` | src/domain/attachment-download.ts:94-117 | the shape check accepts a written ticket exactly when its texts have 1 to 512 units and its times are safe integers |
| `AttachmentDownload.SomeVerifiesIff` | src/domain/attachment-download.ts:76-87 | the candidate loop succeeds exactly for the encoding of a MAC that some candidate yields with none before it unusable |

## Left out

- HTTP routing, headers, CORS, response bodies, logging, timers and abort signals: plumbing. A timed-out fetch or send is one of its outcomes.
- Cryptography: AES-GCM is an encrypt and decrypt pair that adds 16 bytes and is undone by its key; HMAC is a function of secret and message; random bytes are parameters; SHA-256 of the fingerprint input is not modelled.
- Unicode lower-casing is a parameter of the duplicate-key scan, about which nothing is assumed.
- Calendar text: `toISOString` and `Date.parse` are a pair with their usual laws on the range of JavaScript dates; fractional times are not modelled.
- JSON numbers keep their text; a ticket's times are read by a function that knows the text of every safe integer, and the envelope's version is the text `1`.
- EncString: a wrapper with a lone surrogate is not modelled, because plain texts are sequences of Unicode characters.
- PolicyBody.ReadPolicyBody: the streaming decoder is decoding of the concatenated chunks, and a failed read counts as an absent body.
- MailEnvelope.Seal: wiping the plaintext and payload buffers after use is not observable here.
- MailConsumer.ConsumeOne: the subject and text of the mail are not modelled, because they are settled by reading one function.
- NotificationHub: the text of a revision date, the frame formats, and the parsers of headers, notifications and handshakes are not modelled; a parsed value, or that there is none, is given.
- AttachmentUpload: the deleting routes, which remove the object before the row on purpose, and the older one-step upload, whose id nobody else knows, are not modelled. Rows and objects are those of one user, and identifiers are never reused.
- AttachmentUpload: a call that takes effect does so before its request learns how it went; a put that lands after its request has given up is not modelled.
- AttachmentUploadRoute.Deployment.Upload: a ghost method, because SQL's SUM over a table has no executable counterpart here.
- MailConsumer: how long the queue service keeps a message, and what becomes of a dead-lettered one, are not modelled.
- TrustCache: the tests of hostnames, origins and algorithm names are parameters, and the fetched documents are given as values; the parser that reads them is in `UniqueJson.dfy`.
- Company: that the caller is a confirmed owner is given with each request; the field-by-field request parsers are not modelled. A cleanup may delete any of the rows before its cutoff, not just the oldest hundred.
- Company.NoLostUpdates: does not say when an organization's row was last written or revised, because policies, groups, memberships and collections date it too.
- Company: organizations are neither founded nor deleted within a run.
- AttachmentUpload.LimitIff: the limit is measured by the furthest that any clock has been read; clocks may lag behind it by any amount.
- Company.MembersAreDated: SQLite's text dates are milliseconds, and adding 0.001 seconds adds one.
- InitialSetup: the account's fields other than its id are not modelled.
- The comparison of account keys in src/domain/account-keys.ts, whose loop is settled by reading it.
- Request quotas, token refresh, memberships, purges and everything else decided in the repositories, except the attachment statements cited above.
- The administration pages and their client.
