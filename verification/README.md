# BoundSeal: verified model of the wire, session and accounting cores

This project models the parts of BoundSeal that decide what may be sent, what was received and what is
remembered, and proves what those parts promise over all inputs and whole runs.

- **HTTP/1.1 wire layer** (`nxb-http1`): the incremental response parser, the request serializer, and the write
  and read loops over a byte stream. Parser loops are methods proved equal to recursive functions on octet
  sequences; the theorems are about those functions.
- **Cookie jar** (`nxb-cookie-jar`): Set-Cookie parsing and the transaction that stages secrets in a vault, revokes
  old ones, commits records and advances the generation.
- **Scope gateway** (`nxb-gateway`, `nxb-budget`, `nxb-dns`, `nxb-audit`): a token bucket, a DNS pin set and a
  hash-chained log, composed into one state machine.
- **Adapter sessions and certification** (`nxb-adapter-boundary`), the **canonical request target**
  (`nxb-channel-contracts`) and the **finding deduplicator** (`nxb-knowledge-reporting`).

Conventions. Octets are `Bytes.u8`; text is octets. Error messages become constructors of error datatypes. SHA-256 over
serialised material, HTTP dates, IP literals, UTF-8 validation and the policy's URL and address predicates are function
parameters about which nothing is assumed; where a result needs the hash not to collide, it says so for the logs
compared. Token counts are `real`, other integers are unbounded, and 64-bit saturation is written out. Objects that
the source updates in place are classes; each is proved against a function of its old state.

| file | content |
|---|---|
| `Wrappers.dfy`, `Bytes.dfy` | options and results; octets, ASCII classes, numerals, splitting and byte order |
| `Http1Model.dfy`, `Http1Lines.dfy` | limits, messages and faults; CRLF lines, blocks and white space |
| `Http1Head.dfy`, `Http1Chunked.dfy`, `Http1Response.dfy` | heads and framing; the chunked coding and its grammar; whole responses |
| `Http1Grammar.dfy` | which octets are read as which response |
| `Http1Codec.dfy`, `Http1Request.dfy` | the write and read loops; the printed request |
| `CookieSyntax.dfy`, `CookieStaging.dfy`, `CookieJar.dfy` | one Set-Cookie header; batches, scope, vault and staging; the jar |
| `AuditChain.dfy`, `RequestBudget.dfy`, `DnsPins.dfy`, `Gateway.dfy` | log, token bucket, pins and their composition |
| `RequestTarget.dfy`, `Findings.dfy`, `Adapter.dfy` | canonical targets; clusters of findings; sessions and certificates |

## Results that differ from a first expectation

- **Octets after a response.** Whether the read loop accepts a wire with octets after the response depends on how the
  wire was cut: it succeeds exactly when the response ends where a piece ends (`Http1Codec.SucceedsAtBoundary`). Every
  complete response followed by anything is read when it is cut there and rejected when it is not
  (`Http1Codec.TrailingOctetsDiffer`). For a wire that is one response the result does not depend on the pieces.
- **Order of findings.** Of the findings that share an id only the first to arrive is kept, so clusters can depend on
  arrival order. They do not if and only if no two keys share the 24-character cluster prefix, findings with one id fall
  into one cluster, and in each cluster the greatest severity, the greatest confidence, a validation if there is one,
  and each evidence are those of all findings of some id (`Findings.OrderIndependentIff`). With unique ids only the
  first condition remains.
- **Two records with one handle.** A commit or a purge of such records gives up half-way: some old handles are gone from
  the vault, though every new secret is taken back. It happens exactly then, and no jar filled by responses, seeding
  and purges is in that state (`CookieJar.Jar.ApplyResponse`, `CookieJar.SeedKeepsInvariant`).
- **Purging a jar with a dead handle.** A purge empties the jar before it revokes. It fails if and only if a handle is
  dead or shared; then the jar stays empty, its generation does not advance, and handles not yet revoked stay live
  (`CookieJar.Jar.Purge`).
- **Deletion by Max-Age.** A header deletes its cookie exactly when the expiry is not in the future, except for a positive
  Max-Age when the clock shows the last representable second (`CookieSyntax.ExpiryDecidesDeletion`).

## Model

| member | source | states |
|---|---|---|
| `Http1Response.VerdictStable` | crates/nxb-http1/src/parser.rs:13-153 | A response that is complete before the end of the stream stays the same response with the same consumed length for every continuation and either end flag; an error stays an error. |
| `Http1Response.VerdictLocal` | crates/nxb-http1/src/parser.rs:13-153 | A complete response is fixed by the octets it consumed alone; only a response closed by the connection needs the end of the stream, and it consumes everything. |
| `Http1Response.DecidedAtEof` | crates/nxb-http1/src/parser.rs:13-153 | At the end of the stream every buffer is a complete response or an error. |
| `Http1Response.ProperPrefixIncomplete` | crates/nxb-http1/src/parser.rs:13-153 | No proper prefix of an exactly framed wire completes or fails. |
| `Http1Response.CompleteIsGuaranteed` | crates/nxb-http1/src/parser.rs:58-151 | Section 6.3 of RFC 9112: every complete response has the one framing its head justifies, a body of that framing's length, and body, header, trailer and interim counts within the limits; no prohibited trailer appears. |
| `Http1Grammar.ResponseDecidesGrammar` | crates/nxb-http1/src/parser.rs:13-153 | The parser returns a response and a consumed length if and only if the consumed octets are interim heads, a final head and a body that write exactly that response under the framing its head justifies, within the limits; a body closed by the connection is the rest of an ended stream. |
| `Http1Grammar.GrammarUnambiguous` | crates/nxb-http1/src/parser.rs:13-153 | No buffer begins with the writings of two different responses. |
| `Http1Grammar.WrittenIsRead` | crates/nxb-http1/src/parser.rs:13-153 | Every written response is read back as what it writes, and no octet after it is consumed. |
| `Http1Grammar.ReadWasWritten` | crates/nxb-http1/src/parser.rs:13-153 | From every response that is read the interim heads, the final head and the payload can be produced. |
| `Http1Grammar.StatusLineExact` | crates/nxb-http1/src/parser.rs:161-207 | A status line is read if and only if it is a known version, a space, three digits of 100 to 999 and, after another space, a reason without control characters. |
| `Http1Grammar.HeaderLineExact` | crates/nxb-http1/src/parser.rs:221-289 | A header line is read as a name and a value if and only if it is a token name with that lower-case form, a colon, and the value inside optional white space, within the limits. |
| `Http1Grammar.BodyExact` | crates/nxb-http1/src/parser.rs:82-151 | A body is framed if and only if its text under the framing begins the buffer. |
| `Http1Grammar.NoContentCompletes` | crates/nxb-http1/src/parser.rs:13-153 | A concrete wire, a 204 head without headers, is a whole response. |
| `Http1Response.ParseResponse` | crates/nxb-http1/src/parser.rs:13-153 | The loop over interim and final heads computes the recursive reading about which the lemmas above are proved. |
| `Http1Response.ReadHead` | crates/nxb-http1/src/parser.rs:22-57 | One pass of the loop finds, bounds and parses the next head. |
| `Http1Response.ReadBody` | crates/nxb-http1/src/parser.rs:82-151 | The body is cut as the framing says, or is pending, or is rejected. |
| `Http1Response.ChooseFraming` | crates/nxb-http1/src/parser.rs:291-323 | The branch order of the code chooses the framing that the justification below singles out. |
| `Http1Head.FramingExact` | crates/nxb-http1/src/parser.rs:291-323 | A framing is chosen if and only if status, method, version and headers justify it. |
| `Http1Head.FramingUnambiguous` | crates/nxb-http1/src/parser.rs:291-323 | At most one framing is justified for any message. |
| `Http1Head.ContentLengthExact` | crates/nxb-http1/src/parser.rs:325-356 | A length is accepted if and only if every comma-separated component of every Content-Length denotes it in 64 bits; absence is reported if and only if no such header exists. |
| `Http1Head.CollectContentLength` | crates/nxb-http1/src/parser.rs:325-356 | The nested loops over headers and components compute the length of `ContentLengthExact`. |
| `Http1Head.TransferEncodingExact` | crates/nxb-http1/src/parser.rs:358-385 | Chunked is recognised if and only if it is the single coding named across all Transfer-Encoding headers. |
| `Http1Head.CollectTransferEncoding` | crates/nxb-http1/src/parser.rs:358-385 | The nested loops compute the answer of `TransferEncodingExact`. |
| `Http1Head.AcceptedTrailersPermitted` | crates/nxb-http1/src/parser.rs:221-289 | No accepted trailer carries a name that could change framing or routing. |
| `Http1Head.ParseHeaders` | crates/nxb-http1/src/parser.rs:221-289 | The loop over header lines stops at the first bad line, exactly as the line-by-line reading does. |
| `Http1Chunked.ChunkedDecidesGrammar` | crates/nxb-http1/src/parser.rs:387-520 | The decoder returns a body, trailers and a consumed length if and only if the consumed octets are an encoding, in the extension-free grammar of section 7.1 of RFC 9112 and within the limits, of exactly that body and those trailers. |
| `Http1Chunked.Complete` | crates/nxb-http1/src/parser.rs:387-520 | Every encoding within the limits, with sizes of 1 to 16 hexadecimal digits, decodes to its payload and consumes exactly itself, whatever follows. |
| `Http1Chunked.Sound` | crates/nxb-http1/src/parser.rs:387-520 | From every decoded body the chunks and ending that encode it can be produced, and they are a prefix of the input. |
| `Http1Chunked.FramedDependsOnPrefix` | crates/nxb-http1/src/parser.rs:387-520 | A decoded body depends only on the octets it consumed. |
| `Http1Chunked.ErrorStable` | crates/nxb-http1/src/parser.rs:387-520 | An error found before the end of the stream stays an error for every continuation. |
| `Http1Chunked.NeverPendingAtEof` | crates/nxb-http1/src/parser.rs:387-520 | At the end of the stream a chunked body is decoded or rejected. |
| `Http1Chunked.FramedWithinLimits` | crates/nxb-http1/src/parser.rs:432-506 | A decoded body and its trailers respect the body and trailer limits, and no trailer is prohibited. |
| `Http1Chunked.ParseChunked` | crates/nxb-http1/src/parser.rs:387-520 | The cursor loop computes the recursive decoder, including the error found first. |
| `Http1Chunked.ParseTrailers` | crates/nxb-http1/src/parser.rs:430-480 | The trailer section after the last chunk is read as the decoder's ending. |
| `Http1Lines.SplitLines` | crates/nxb-http1/src/parser.rs:548-563 | The splitting loop computes the function that joining undoes. |
| `Http1Lines.JoinOfSplit` | crates/nxb-http1/src/parser.rs:548-563 | Joining the lines of any block with CRLF gives the block back. |
| `Http1Lines.SplitOfJoin` | crates/nxb-http1/src/parser.rs:548-563 | Splitting lines that hold no CR or LF, joined with CRLF, gives the lines back. |
| `Http1Lines.BlockEndsAtDoubleCrlf` | crates/nxb-http1/src/parser.rs:522-527 | A block of non-empty clean lines ends at the first CRLFCRLF, whatever octets follow. |
| `Http1Lines.CheckCrlfBlock` | crates/nxb-http1/src/parser.rs:533-546 | A block passes if and only if every CR is followed by LF and every LF preceded by CR. |
| `Http1Lines.SplitOfPairedIsClean` | crates/nxb-http1/src/parser.rs:533-563 | Lines cut from a block that passed hold neither CR nor LF. |
| `Http1Lines.TrimOwsUnique` | crates/nxb-http1/src/parser.rs:565-573 | Trimming returns the core of any text that is white space around a core without outer white space. |
| `Http1Lines.TrimWhiteSpace` | crates/nxb-http1/src/parser.rs:565-573 | The two-index loop computes the trimming that `TrimOwsUnique` characterises. |
| `Http1Codec.ReadExact` | crates/nxb-http1/src/codec.rs:211-269 | On an orderly stream the loop returns a response and a wire if and only if the delivered octets parse to that response at the end of the stream, it ends where a piece ends, and the wire is what it consumed, within the limit. |
| `Http1Codec.FragmentationIndependent` | crates/nxb-http1/src/codec.rs:211-269 | A wire within the limit that is exactly one response is returned whole, however it was cut into pieces and interleaved with permitted backpressure. |
| `Http1Codec.NoResponseIsReturned` | crates/nxb-http1/src/codec.rs:211-269 | A wire that no complete response begins is rejected, however it was cut. |
| `Http1Codec.SucceedsAtBoundary` | crates/nxb-http1/src/codec.rs:223-227 | With octets after the response, success holds if and only if the response ends where a piece ends. |
| `Http1Codec.TrailingOctetsDependOnPieces` | crates/nxb-http1/src/codec.rs:223-227 | Two deliveries of one wire agree on success if and only if they agree on cutting at the end of the response. |
| `Http1Codec.TrailingOctetsDiffer` | crates/nxb-http1/src/codec.rs:223-227 | For every complete response and every non-empty continuation, the delivery cut after the response succeeds and the uncut one fails. |
| `Http1Codec.NoContentThenMore` | crates/nxb-http1/src/codec.rs:223-227 | The same for one concrete response under the default limits. |
| `Http1Codec.ReadSound` | crates/nxb-http1/src/codec.rs:211-269 | On any stream, orderly or not, a returned response is the exact parse of the returned wire and meets the framing guarantees and the limits. |
| `Http1Codec.Codec.ReadResponse` | crates/nxb-http1/src/codec.rs:211-269 | The loop over wire, end flag and backpressure count computes the reading of the stream's events. |
| `Http1Codec.Codec.WriteAll` | crates/nxb-http1/src/codec.rs:179-209 | The write succeeds if and only if the first answers of the stream take over all octets, each within what was offered and with no run of refusals beyond the budget; the peer then has all octets, and otherwise exactly what the recursive write sent. |
| `Http1Codec.WriteExact` | crates/nxb-http1/src/codec.rs:179-209 | The recursive write succeeds if and only if some first answers take over exactly the octets, for every start of the backpressure count. |
| `Http1Codec.WriteSendsPrefix` | crates/nxb-http1/src/codec.rs:179-209 | What the peer receives is a prefix of the octets, and all of them if and only if the write succeeds. |
| `Http1Request.WireSplitsBack` | crates/nxb-http1/src/codec.rs:280-377 | In the wire of an accepted request the first CRLFCRLF lands at the body, and splitting the head gives the request line, one Host, the caller's headers in order, one Content-Length and one Connection. |
| `Http1Request.CallerHeadersReadBack` | crates/nxb-http1/src/codec.rs:395-461 | The response-side reader reads the caller's lines back as lower-case names and trimmed values, in order. |
| `Http1Request.HeadReadsBack` | crates/nxb-http1/src/codec.rs:330-377 | A reader whose limits admit the head reads every printed header line back, in order. |
| `Http1Request.PrintedFramingUnambiguous` | crates/nxb-http1/src/codec.rs:330-377 | The printed head declares exactly the length of the body and names no transfer coding. |
| `Http1Request.WireInjective` | crates/nxb-http1/src/codec.rs:280-461 | Two accepted requests with the same wire agree on authority, method, target, body and headers, save for the letter case of header names. |
| `Http1Request.SerializeRequest` | crates/nxb-http1/src/codec.rs:280-377 | The two buffers hold the printed request, or the first fault is reported and nothing is printed. |
| `CookieSyntax.DomainMatchesExact` | crates/nxb-cookie-jar/src/lib.rs:1118-1123 | Section 5.1.3 of RFC 6265: a host matches a domain if and only if it is the domain or ends in a dot and the domain. |
| `CookieSyntax.DefaultPathIsDirectory` | crates/nxb-cookie-jar/src/lib.rs:1107-1116 | Section 5.1.4 of RFC 6265: the default path is the request path up to its last slash, or the root, and is absolute. |
| `CookieSyntax.NormalizedIsSettled` | crates/nxb-cookie-jar/src/lib.rs:1042-1056 | Normalising a host name twice is normalising it once. |
| `CookieSyntax.ExpiryDecidesDeletion` | crates/nxb-cookie-jar/src/lib.rs:840-851 | A header deletes its cookie if and only if the expiry is not in the future, with the one exception at the end of the clock; Max-Age outranks Expires and is capped at 400 days. |
| `CookieSyntax.AcceptedIsScoped` | crates/nxb-cookie-jar/src/lib.rs:683-866 | An accepted cookie domain-matches its origin, is Secure only over https and when SameSite=None, meets the `__Secure-` and `__Host-` rules, is not set for a public suffix or an address, and has an absolute path and a domain that normalisation leaves alone. |
| `CookieSyntax.ParseHeader` | crates/nxb-cookie-jar/src/lib.rs:683-866 | The loop over attribute segments computes the parse about which `AcceptedIsScoped` speaks, including the first error. |
| `CookieStaging.Vault.Insert` | crates/nxb-vault/src/lib.rs:537-587 | An accepted secret gets a handle never issued before and becomes live; a refused one changes nothing. |
| `CookieStaging.Vault.Revoke` | crates/nxb-vault/src/lib.rs:775-794 | Revocation succeeds if and only if the handle is live, and removes it alone. |
| `CookieStaging.ParseBatch` | crates/nxb-cookie-jar/src/lib.rs:349-360 | One mutation per key, the last header's, and superseded headers plus keys make up the header count; the first bad header rejects the batch. |
| `CookieStaging.BatchRefinesFold` | crates/nxb-cookie-jar/src/lib.rs:349-360 | Applying the last mutation of each key has the effect of applying all headers one after another. |
| `CookieStaging.ScopeHoldsOrigin` | crates/nxb-cookie-jar/src/lib.rs:900-919 | The hosts and schemes of a new secret are a part of the binding that contains the origin, so never empty; every host domain-matches the cookie and Secure leaves https alone. |
| `CookieStaging.NewSecretWellScoped` | crates/nxb-cookie-jar/src/lib.rs:402-440 | Every new secret can be sent only where its cookie belongs, `__Host-` records are secure, host-only and at the root, and seeding a jar with the secret would file it under the same key. |
| `CookieStaging.Rollback` | crates/nxb-cookie-jar/src/lib.rs:921-931 | Rolling back staged records restores the vault, and no revocation in it can fail. |
| `CookieStaging.Stage` | crates/nxb-cookie-jar/src/lib.rs:396-455 | Staging adds one new secret for each stored cookie if and only if the vault accepts them all; otherwise the vault is as before. |
| `CookieJar.CountsPartition` | crates/nxb-cookie-jar/src/lib.rs:468-514 | Every mutation is counted as exactly one of inserted, replaced, deleted and ignored. |
| `CookieJar.AppliedSize` | crates/nxb-cookie-jar/src/lib.rs:362-381 | The number of records after the commit is the count computed before it. |
| `CookieJar.AppliedIsFold` | crates/nxb-cookie-jar/src/lib.rs:475-514 | The committed records are those of applying the headers one after another. |
| `CookieJar.Fault` | crates/nxb-cookie-jar/src/lib.rs:337-466 | The reasons for which a call is refused never include the empty-scope and rollback errors, and include the commit-invariant error only when two records share a handle. |
| `CookieJar.RevokeOld` | crates/nxb-cookie-jar/src/lib.rs:457-466 | Revoking succeeds if and only if the handles are live and pairwise different, and then removes exactly those; on a failure only some of them are gone. |
| `CookieJar.Jar.CommitBatch` | crates/nxb-cookie-jar/src/lib.rs:468-521 | In whatever order mutations are visited: the counts, the rotation verdict and the records are the same; the generation advances if and only if a known key was deleted, a replaced value changed or a new key has a rotation name; one generation is left. |
| `CookieJar.InvariantKept` | crates/nxb-cookie-jar/src/lib.rs:383-521 | A commit keeps one generation, distinct live handles, and secrets that fit their records. |
| `CookieJar.VaultIsCommitted` | crates/nxb-cookie-jar/src/lib.rs:396-466 | After a commit the vault lost exactly the old handles of mutated keys and gained exactly one new secret for each stored cookie. |
| `CookieJar.Jar.ApplyResponse` | crates/nxb-cookie-jar/src/lib.rs:328-557 | A response is one transaction: for every jar it succeeds if and only if there is no reason to refuse it, and a refusal changes neither records, generation nor vault unless two records share a handle, when only old handles of the jar can be gone; a success is the fold of the headers, counts each header once, keeps the record limit and the invariant, and the generation never decreases. |
| `CookieJar.Jar.Purge` | crates/nxb-cookie-jar/src/lib.rs:559-613 | A purge empties the jar; it succeeds if and only if every handle is live and owned once, and then removes exactly those handles and advances the generation when there was one; on a failure the vault lost only handles of the jar and the generation stays. |
| `CookieJar.Jar.SeedFromVault` | crates/nxb-cookie-jar/src/lib.rs:287-326 | Seeding files the cookies among the handles up to the first that cannot be filed, reports that fault or an exceeded record limit or success, and keeps the invariant, distinct handles included, even when it fails. |
| `CookieJar.SeedSucceedsIff` | crates/nxb-cookie-jar/src/lib.rs:292-321 | No handle is at fault if and only if the vault knows every handle and every cookie among them has a host and a path that can be filed. |
| `CookieJar.LastSeedWins` | crates/nxb-cookie-jar/src/lib.rs:292-321 | Under each key the record is that of the last handle filed there. |
| `CookieJar.SeedKeepsOthers` | crates/nxb-cookie-jar/src/lib.rs:292-321 | A key that no handle is filed under keeps its record. |
| `CookieJar.SeedKeepsInvariant` | crates/nxb-cookie-jar/src/lib.rs:287-326 | Because a handle fixes its secret and a secret its normalised key, seeding never files one handle under two keys. |
| `AuditChain.AppendKeepsVerified` | crates/nxb-audit/src/lib.rs:87-104 | Every log built by appending verifies. |
| `AuditChain.TailDeterminesRecords` | crates/nxb-audit/src/lib.rs:122-153 | When the hash does not collide on the two logs, verified logs with equal tails are equal. |
| `AuditChain.AlterationDetected` | crates/nxb-audit/src/lib.rs:122-153 | Under the same condition, altering any record in place is detected. |
| `AuditChain.Chain.Append` | crates/nxb-audit/src/lib.rs:87-104 | Appending adds one linked record, moves the tail and keeps a verified log verified. |
| `AuditChain.Chain.Verify` | crates/nxb-audit/src/lib.rs:122-153 | Verification passes if and only if the log is linked throughout; otherwise it names the first bad record and its fault, or the tail. |
| `RequestBudget.StepAccounting` | crates/nxb-budget/src/lib.rs:62-106 | Each step keeps tokens within the capacity, never spends more than the refill pays for, even if the clock regresses, and spends one request per start. |
| `RequestBudget.RunAccounting` | crates/nxb-budget/src/lib.rs:62-106 | Over any run, tokens plus starts stay within the first tokens plus the refill, and remaining plus starts is constant. |
| `RequestBudget.RateBound` | crates/nxb-budget/src/lib.rs:62-106 | Between any two points of any run, starts are at most the capacity plus the rate times the growth of the refill time. |
| `RequestBudget.RetryAfterExact` | crates/nxb-budget/src/lib.rs:62-83 | The delay named by a refusal is exactly the least one: a later attempt succeeds if and only if it comes that late. |
| `RequestBudget.Budget.Create` | crates/nxb-budget/src/lib.rs:29-60 | A budget exists exactly for acceptable configurations and starts full. |
| `RequestBudget.Budget.Begin` | crates/nxb-budget/src/lib.rs:62-83 | The object's start is the step of the run theorems and keeps its state valid. |
| `RequestBudget.Budget.Release` | crates/nxb-budget/src/lib.rs:85-87 | Finishing frees one slot, never below zero. |
| `RequestBudget.Budget.FillTo` | crates/nxb-budget/src/lib.rs:97-106 | Refilling follows the clock forwards only and stops at the capacity. |
| `DnsPins.AcceptedIsPinned` | crates/nxb-dns/src/lib.rs:113-164 | An accepted observation is what its key is pinned to afterwards, and agreed with any earlier pin in addresses, resolver and time. |
| `DnsPins.PinSurvivesObservation` | crates/nxb-dns/src/lib.rs:113-164 | No observation, accepted or not, changes the addresses or resolver of a pin or moves it back in time. |
| `DnsPins.PinSurvivesRelease` | crates/nxb-dns/src/lib.rs:171-177 | Releasing one context keeps the pins of every other. |
| `DnsPins.PinSet.Observe` | crates/nxb-dns/src/lib.rs:113-164 | The in-place update is the transition of the lemmas above. |
| `DnsPins.PinSet.Release` | crates/nxb-dns/src/lib.rs:171-177 | The pins of the context are removed, and the number removed is reported. |
| `Gateway.EvaluateAccounting` | crates/nxb-gateway/src/lib.rs:275-370 | A denied request costs neither budget nor slot; an allowed one costs exactly one of each. |
| `Gateway.AuthorizeKeepsInvariant` | crates/nxb-gateway/src/lib.rs:228-245 | Each authorization appends exactly one record holding its decision, and keeps budget and log in agreement. |
| `Gateway.RunKeepsInvariant` | crates/nxb-gateway/src/lib.rs:228-253 | Agreement of budget and log holds after any run, with one record per request. |
| `Gateway.ReachableConserves` | crates/nxb-gateway/src/lib.rs:228-370 | In every state reachable from a new gateway: remaining budget plus recorded allows is the policy's total, slots in use are at most the concurrency and at most the allows, and the log verifies. |
| `Gateway.RunKeepsPin` | crates/nxb-gateway/src/lib.rs:228-253 | A pin survives any run that does not release its context. |
| `Gateway.AllowIsPinned` | crates/nxb-gateway/src/lib.rs:303-346 | An allow means a known host, a non-empty all-public address list, and an observation that the pins accepted. |
| `Gateway.PinnedForTheContext` | crates/nxb-gateway/src/lib.rs:303-346 | Any two allows for the same normalised context and host with no release between them carry the same public addresses, the same resolver and non-decreasing times. |
| `Gateway.ScopeGateway.Create` | crates/nxb-gateway/src/lib.rs:207-226 | A gateway exists exactly for a positive redirect limit and an acceptable budget, and starts in the state the run theorems begin with. |
| `Gateway.ScopeGateway.Decide` | crates/nxb-gateway/src/lib.rs:275-370 | The checks, the pin update and the budget update happen in the order of the evaluated verdict, and decision ids count up. |
| `Gateway.ScopeGateway.AuthorizeRequest` | crates/nxb-gateway/src/lib.rs:228-245 | Authorization on the object is the step of the run theorems. |
| `Gateway.ScopeGateway.Complete` | crates/nxb-gateway/src/lib.rs:247-249 | Completion on the object is the step of the run theorems. |
| `Gateway.ScopeGateway.ReleaseContext` | crates/nxb-gateway/src/lib.rs:251-253 | Release on the object is the step of the run theorems. |
| `RequestTarget.DecodeOfEncode` | crates/nxb-channel-contracts/src/part6.rs:171-182 | Percent-encoding is undone by decoding, for every text. |
| `RequestTarget.NoSeparators` | crates/nxb-channel-contracts/src/part6.rs:171-182 | Encoded text never holds the separators of a query. |
| `RequestTarget.EncodeText` | crates/nxb-channel-contracts/src/part6.rs:171-182 | The pushing loop computes the encoding that decoding undoes. |
| `RequestTarget.SortSorts` | crates/nxb-channel-contracts/src/part2.rs:165-186 | Sorting orders the query pairs and keeps their multiset. |
| `RequestTarget.SortedUnique` | crates/nxb-channel-contracts/src/part2.rs:165-186 | A multiset of pairs has one sorted listing. |
| `RequestTarget.TargetCanonical` | crates/nxb-channel-contracts/src/part2.rs:165-186 | Two accepted inputs give the same target if and only if their paths are equal and their query pairs are permutations of each other. |
| `RequestTarget.NewTarget` | crates/nxb-channel-contracts/src/part2.rs:165-186 | The constructor computes the target of `TargetCanonical` or the first fault. |
| `Findings.ClustersDescribe` | crates/nxb-knowledge-reporting/src/part4.rs:124-157 | For every list: the first finding of each id lies in exactly one cluster, agreeing with the id index; a cluster's canonical id is the least, its severity and confidence the greatest, and it is validated if any of them is. With unique ids these are all findings. |
| `Findings.DescriptionUnique` | crates/nxb-knowledge-reporting/src/part4.rs:124-157 | Without prefix collisions a set of findings has one description. |
| `Findings.OrderIndependentIff` | crates/nxb-knowledge-reporting/src/part4.rs:95-157 | For every list, repeated ids included: every order gives the same clusters if and only if no two keys share the cluster prefix, each id falls into one cluster, and each cluster has its greatest severity and confidence, its validation and each of its evidences from all findings of some id. |
| `Findings.UniqueIdsOrderIndependent` | crates/nxb-knowledge-reporting/src/part4.rs:95-157 | With unique ids, every order gives the same clusters if and only if no two different keys share the cluster prefix. |
| `Findings.SteadyDescribes` | crates/nxb-knowledge-reporting/src/part4.rs:124-157 | Under that condition the clusters summarise all findings, whichever finding of each id was kept. |
| `Findings.EveryFindingCounts` | crates/nxb-knowledge-reporting/src/part4.rs:124-157 | When the order does not matter, every finding has left its mark on its cluster. |
| `Findings.SharedIdPairIff` | crates/nxb-knowledge-reporting/src/part4.rs:124-157 | Two findings that share an id can be exchanged if and only if they agree on key, evidence, severity, confidence and validation. |
| `Findings.FirstFixesKey` | crates/nxb-knowledge-reporting/src/part4.rs:124-157 | The finding that arrives first fixes the key recorded for its cluster, which is what a collision makes visible. |
| `Findings.SharedIdDependsOnOrder` | crates/nxb-knowledge-reporting/src/part4.rs:124-157 | Two findings of different clusters that share an id give different clusters in the two orders. |
| `Findings.Deduplicator.Add` | crates/nxb-knowledge-reporting/src/part4.rs:124-157 | The in-place insertion is the transition of the lemmas above and returns the cluster the index names. |
| `Adapter.Session.OpenSession` | crates/nxb-adapter-boundary/src/part4.rs:114-179 | A session opens if and only if the grant is unspent, in its window and names this manifest and profile within the manifest's actions; then the grant is spent. |
| `Adapter.Session.Execute` | crates/nxb-adapter-boundary/src/part4.rs:181-300 | A message is accepted if and only if it is admissible; counters stay the sums over accepted messages and within limits; only expiry and quota faults fail the session, every other refusal changes nothing, and a session that is not open refuses everything. |
| `Adapter.Session.Accept` | crates/nxb-adapter-boundary/src/part4.rs:230-300 | Accepting extends the history by one message in sequence, completes the session exactly on Finalize, and the receipt states the new counters. |
| `Adapter.Session.FailClosed` | crates/nxb-adapter-boundary/src/part4.rs:342-353 | Failing closed leaves a failed session with exactly one violation and one more log record. |
| `Adapter.Session.RequestCancel` | crates/nxb-adapter-boundary/src/part4.rs:302-308 | Cancellation starts if and only if the session is open; otherwise nothing changes. |
| `Adapter.Session.AcknowledgeCancel` | crates/nxb-adapter-boundary/src/part4.rs:310-316 | Cancellation ends if and only if it was started; otherwise nothing changes. |
| `Adapter.Session.EmergencyStop` | crates/nxb-adapter-boundary/src/part4.rs:318-324 | A stop takes effect if and only if the state is not terminal; terminal states absorb. |
| `Adapter.OrderAppend` | crates/nxb-adapter-boundary/src/part4.rs:181-300 | Sequence numbers count from one, every action was granted, and Finalize can only come last. |
| `Adapter.Registry.Register` | crates/nxb-adapter-boundary/src/part3.rs:149-173 | A profile is registered if and only if it has the registry's policy and a new id, and is then found exactly. |
| `Adapter.CompletedIsSafe` | crates/nxb-adapter-boundary/src/part5.rs:23-67 | A completed, untampered session meets every condition its certificate is verified for. |
| `Adapter.Authority.Certify` | crates/nxb-adapter-boundary/src/part5.rs:94-172 | For an untampered session the inner verification cannot fail: a certificate is issued if and only if the session is completed under the authority's policy with a registered profile, and it states the verified log's tail. |

## Left out

- CookieStaging.Vault.Insert: secret ids are unbounded, so the reuse of an id after the 64-bit counter saturates is not modelled; what the vault accepts is a parameter, and leases, the vault's second normalisation of a binding and its own log are not part of this model.
- CookieStaging.Vault.Revoke: that leases holding the handle are marked revoked is not modelled, because leases are not.
- Http1Codec.Codec.ReadResponse: the stream is a list of events, so time and concurrency between reads are not modelled.
- Http1Request.SerializeRequest: requests that carry secret headers from a vault lease are not part of this model.
- RequestBudget.RetryAfterExact: over real numbers; floating-point and nanosecond rounding, and the truncation of the delay to milliseconds in gateway decisions, are not modelled.
- The cookie jar's own audit records, its transaction names and the range checks of its configuration; the chain that every crate repeats is modelled once, in `AuditChain`.
- SHA-256, AES-GCM, Ed25519, JSON serialisation, HTTP dates, URL parsing and UTF-8 validation are foreign code.
- Text is octets: trimming and case folding of text outside ASCII are not modelled.
- Command-line, file and process code, the evidence sealer and its key providers: mostly input, output and field comparisons.
- Lifecycle governance, events, live adapters and redirects would only add easy members.
