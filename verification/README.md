# airgap: a Dafny model of its hard parts

airgap runs a program in a namespace where secret files are served redacted and
where outgoing HTTPS is intercepted. This project models four parts of it and
proves what they promise.

**The byte bridge.** The netstack loop (`src/mitm/stack.rs`) and the proxy's
stream (`src/mitm/stream.rs`) share two bounded channels. `Bridge` is a step
system in which every channel operation of either thread is one step, with any
interleaving, any short send and any socket event. `BridgeLaws` proves byte
conservation, FIN order and EOF order over all its runs, and `BridgePass` what
each complete pass of the loop over a connection gets done. `BridgeConn` is the code
as an object with fields and loops; each object records the steps it takes and
its invariant says they form a legal run, so the theorems hold of the object.
`Netstack` is the loop over all sockets, with socket numbers reused freely.

**Redacted files.** `Npmrc` and `NpmrcLaws` treat `redact_npmrc` and
`merge_npmrc` as a view and an update, down to UTF-8 bytes (`Utf8`, `Text`).
`Credentials` says which lines hold a credential and which keys are the same in
terms of characters alone, proves that the code agrees, and restates the main
laws in those terms.
`Overlay` is the handle state machine of `src/fs.rs` for any handler that obeys
the update law; `OverlayLaws` proves that replies depend only on redacted views,
that a handle is an ordinary file between persists, and that real files are a
fold of merges. `OverlayFs` is the same as an object with short reads and writes;
`NpmrcOverlay` puts the `.npmrc` handler in.

**Wire codecs.** `StubDns` (the stub resolver's response builder), `HttpHead`
(the head-reading loop) and `HeadRewrite` (the head rewriter), each judged by an
independent reader of the format: sections 4.1.1 to 4.1.4 of RFC 1035 and
section 2 of RFC 3596 for DNS, sections 3 and 5 of RFC 9112 for HTTP.

**Paths.** `Gate` (the decision cache), `Targets` (outermost directories),
`Inodes` (the two-way inode table) and `LexicalPath` (resolving `..` lexically).

`Wrappers`, `Sequences`, `TextLaws` and `Paths` hold what several modules share. `Unfold` in
`Wrappers` is always true; a definition guarded by it is opened only where a
proof says so, which keeps proofs cheap.

Where the code does less than one might expect, the model follows the code:

- A key with two different values in one `.npmrc` does not survive an unchanged
  rewrite: both lines come back with the last value (`TwoValuesAreLost`);
  `RoundTrip` gives the exact condition.
- An empty write beyond the end of a redacted handle extends it with zeros, which
  an ordinary file does not do (`EmptyWriteExtends`); `WriteIntoIsPlain` and
  `HandleIsPlainFile` give the exact conditions.
- A truncation of a redacted file that names no open handle is acknowledged with
  the old size and ignored (`PathTruncationIgnored`, as at src/fs.rs:616).
  `TruncateAnswer` says exactly when a truncation is answered with the new size
  and what then holds it; `TruncateNotShown` and `TruncateThenFlush` say when new
  readers see it.
- Creating over an existing `.npmrc` without O_TRUNC and closing it unwritten
  empties it (src/fs.rs:757-765); `CreateEmptiesFile` gives the exact condition.
- A request head longer than 64 KiB by 2 to 4096 bytes, and only such a head, is
  accepted or refused depending on how it arrived in reads
  (`LongHeadDependsOnReads`).
- A denied path can become allowed when an ancestor is asked about and approved
  later (`DenialLifted`); `DenyIsPermanentUnlessAncestorApproved` gives the exact
  condition.

## Model

| member | source | states |
|---|---|---|
| `BridgeLaws.StepKeepsInv` | src/mitm/stack.rs:266-341 | every step of either thread keeps conservation both ways, the channel bounds, FIN order and EOF order |
| `BridgeLaws.RunKeepsInv` | src/mitm/stack.rs:266-341 | under every interleaving, short send and socket event the invariant holds from promotion on |
| `BridgeLaws.ProxyToStack` | src/mitm/stack.rs:278-291 | while the connection is live, bytes accepted by `poll_write` == bytes the socket took ++ `pending_out` ++ queued chunks, in order |
| `BridgeLaws.StackToProxy` | src/mitm/stack.rs:297-323 | while the proxy holds its stream, bytes taken from the socket == delivered ++ unread remainder ++ queued, at most (16 + 1) * 2048 undelivered; all arrived bytes are pulled or still in the socket |
| `BridgeLaws.FinAtMostOnce` | src/mitm/stack.rs:292-295 | `close` at most once per connection, and then everything accepted is in the socket |
| `BridgeLaws.FinIsFinal` | src/mitm/stack.rs:292-295 | at the moment of `close` the socket already has every byte accepted in the whole run |
| `BridgePass.FinNotForgotten` | src/mitm/stack.rs:282-295 | a pass that begins after shutdown ends with the FIN sent or with bytes the socket would not take |
| `BridgeLaws.ReadyMeansBytesOrEof` | src/mitm/stream.rs:68-91 | a ready read with room returns at least one byte or is end of stream |
| `BridgeLaws.EofAfterAllBytes` | src/mitm/stack.rs:330-334 | end of stream only after everything pulled was delivered and, while the socket is not Closed, only after establishment and the peer's FIN with every arrived byte delivered |
| `BridgeLaws.EofIsFinal` | src/mitm/stream.rs:84-88 | once at end of stream, whatever both threads do, nothing more is delivered and every later read returns end of stream |
| `BridgePass.EofNotForgotten` | src/mitm/stack.rs:330-334 | a pass over an established connection whose peer finished and whose socket is empty closes the proxy's read side |
| `BridgePass.PassSends` | src/mitm/stack.rs:278-291 | after a pass every byte accepted before it is in the socket, unless a remainder is stashed |
| `BridgePass.StashOnlyIfDeclined` | src/mitm/stack.rs:345-355 | a remainder is stashed after a pass only if the socket declined part of what it was offered |
| `BridgePass.PassPulls` | src/mitm/stack.rs:297-323 | after a pass the socket is read dry, unless the channel was full, the socket gave nothing, or the read side is closed |
| `BridgePass.AbandonedIsReaped` | src/mitm/stack.rs:318-339 | a pass over a connection with bytes for a proxy that dropped its stream aborts and reaps it |
| `BridgePass.LiveIsNotReaped` | src/mitm/stack.rs:324-339 | a pass never ends a connection that is up and whose stream is held |
| `BridgePass.LaterPassAchieves` | src/mitm/stack.rs:266-341 | all of these for a complete pass anywhere in a run, with the histories of the whole run |
| `BridgeLaws.ReadOutcome` | src/mitm/stream.rs:68-91 | in every reachable state a read with room gets a non-empty front part of what waits; with nothing waiting it waits while the stack holds its end and is end of stream otherwise |
| `BridgeLaws.WriteOutcome` | src/mitm/stream.rs:95-113 | a write is accepted whole iff neither side has given the channel up and fewer than 16 are queued, and broken iff one has |
| `BridgeLaws.ShutdownIsFinal` | src/mitm/stream.rs:119-124 | after a shutdown every write is refused, for good |
| `BridgeLaws.EstablishedIff` | src/mitm/stack.rs:274-276 | a connection counts as established iff some pass began with the socket able to send |
| `BridgeLaws.ReadSkips` | src/mitm/stream.rs:84-86 | popping the first queued chunk, empty or not, leaves the outcome of the read |
| `BridgeConn.Conn.constructor` | src/mitm/stream.rs:38-52 | a promoted connection starts a legal run: empty channels with both ends open, no flags set |
| `BridgeConn.Conn.PollRead` | src/mitm/stream.rs:68-91 | takes exactly the read step of the bridge and returns its bytes, end of stream or pending |
| `BridgeConn.Conn.Refill` | src/mitm/stream.rs:84-89 | the receive loop reaches a chunk or an empty channel without changing what the read will return |
| `BridgeConn.Conn.CopyOut` | src/mitm/stream.rs:75-83 | hands out as many bytes as fit and keeps exactly the rest |
| `BridgeConn.Conn.PollWrite` | src/mitm/stream.rs:95-113 | takes exactly the write step: all bytes queued, pending when full, broken pipe after shutdown or reap |
| `BridgeConn.Conn.PollShutdown` | src/mitm/stream.rs:119-124 | takes exactly the shutdown step |
| `BridgeConn.Conn.PushOut` | src/mitm/stack.rs:345-355 | the socket takes a front part, or nothing, and exactly the rest is stashed |
| `BridgeConn.Conn.FlushStash` | src/mitm/stack.rs:278-281 | flushing the stashed remainder is a legal step |
| `BridgeConn.Conn.DrainLoop` | src/mitm/stack.rs:282-291 | the loop over `from_app`, with the proxy running in between, is a legal run and ends |
| `BridgeConn.Conn.MaybeFin` | src/mitm/stack.rs:292-295 | closing the socket is a legal step |
| `BridgeConn.Conn.PullLoop` | src/mitm/stack.rs:297-328 | the loop over the socket's bytes, with the proxy running in between, is a legal run and ends |
| `BridgeConn.Conn.MaybeEof` | src/mitm/stack.rs:330-334 | surfacing end of stream is a legal step |
| `BridgeConn.Conn.MaybeReap` | src/mitm/stack.rs:336-339 | reaps exactly a Closed socket |
| `BridgeConn.Conn.Service` | src/mitm/stack.rs:266-341 | one connection's turn is one complete pass of legal bridge steps with everything such a pass gets done: accepted bytes in the socket or a declined remainder stashed, FIN, socket read dry, end of stream, abort; reaped exactly when Closed |
| `BridgeConn.Conn.ValidIsInv` | src/mitm/stack.rs:266-341 | the bridge invariant holds of the object's own fields and the history of its calls, and the socket took exactly the bytes the history says |
| `Netstack.Stack.constructor` | src/mitm/stack.rs:166-180 | a new stack has no TCP sockets and its books are in order |
| `Netstack.Stack.EnsureListeners` | src/mitm/stack.rs:223-238 | every wanted port that can be listened on has exactly LISTEN_BACKLOG listeners, other ports keep theirs, existing listeners stay in place, partition kept |
| `Netstack.Stack.PromoteListeners` | src/mitm/stack.rs:242-262 | waiting listeners stay in order; each accepted one becomes a connection on its own socket, announced once, in order, under its port; closed ones go; partition kept |
| `Netstack.Stack.ServiceConns` | src/mitm/stack.rs:266-341 | every connection has one complete pass with everything such a pass gets done, its accepted bytes in its socket among it; exactly the closed ones are removed with their sockets; no freed number is looked up |
| `Netstack.ConsistentAdd` | src/mitm/stack.rs:232-235 | a new socket under any unused number, also one used before, keeps partition, links, announcements and backlog |
| `Netstack.ConsistentPromote` | src/mitm/stack.rs:251-260 | moving a listener to the connections keeps them too and announces a connection not announced before |
| `Netstack.ConsistentReap` | src/mitm/stack.rs:336-339 | removing a connection and its socket keeps them |
| `Netstack.Accept` | src/mitm/stack.rs:191-197 | after the first half of an iteration no listener has accepted or closed without being promoted or dropped |
| `Netstack.Serve` | src/mitm/stack.rs:198-219 | every connection left after the second half had a complete pass in it, and every wanted port has its backlog |
| `Netstack.RunLoop` | src/mitm/stack.rs:186-220 | after any number of iterations the TCP sockets are the disjoint union of listeners and connections, no port has more than its backlog, each connection was announced once under its port, and each live connection took a legal bridge run |
| `Netstack.LiveConnsConserve` | src/mitm/stack.rs:266-341 | the bridge invariant holds of every live connection of the stack, and its socket took exactly the bytes its history says |
| `Npmrc.RedactNpmrc` | src/redact.rs:222-240 | the loop computes the view whose laws are proved, failing exactly when the bytes are not UTF-8 |
| `Npmrc.CollectSecrets` | src/redact.rs:257-267 | the first loop of the merge computes the last-wins map |
| `Npmrc.MergeNpmrc` | src/redact.rs:250-296 | the loops compute the merge whose laws are proved, failing when either side is not UTF-8 |
| `NpmrcLaws.ClassifyAssignment` | src/redact.rs:203-215 | replacing a credential line's value keeps it a credential line with the same key, whatever the value |
| `NpmrcLaws.LinesOfMerge` | src/redact.rs:269-295 | restoring values neither splits nor joins lines |
| `NpmrcLaws.SecretsAreLastValues` | src/redact.rs:256-267 | a key is known exactly when some credential line has it, with the value of the last such line |
| `NpmrcLaws.UpdateLaw` | src/redact.rs:250-296 | merge succeeds iff both sides have a view, and then redact(merge(o, w)) == redact(w) |
| `NpmrcLaws.RedactIdempotent` | src/redact.rs:222-240 | redacting a view changes nothing |
| `NpmrcLaws.RoundTrip` | src/redact.rs:250-296 | merge(o, redact(o)) == o if and only if all credential lines of `o` with one normalised key carry one value |
| `NpmrcLaws.TwoValuesAreLost` | src/redact.rs:256-267 | a family of files that does not survive the round trip |
| `NpmrcLaws.MergeStable` | src/redact.rs:250-296 | merge(o, merge(o, w)) == merge(o, w) |
| `NpmrcLaws.MergeRestoresLastValue` | src/redact.rs:278-291 | line by line: only credential lines holding the placeholder change, each to the last value `o` had under that key, or not at all when there is none |
| `NpmrcLaws.ViewHidesExactlyValues` | src/redact.rs:222-240 | two files have one view if and only if their lines agree up to the values of credential lines |
| `Credentials.ClassifyIff` | src/redact.rs:201-215 | the code takes a line for a credential line iff it is no comment and the text before its first `=` ends in `_authToken`, `_auth` or `_password` in any case, then only white space |
| `Credentials.NormKeyIff` | src/redact.rs:264-264 | two keys are the same iff they agree up to surrounding white space and ASCII case |
| `Credentials.ServedLines` | src/redact.rs:222-240 | the view has the file's lines: of every credential line the text up to `=` and then `<redacted value>`, every other line verbatim |
| `Credentials.EveryCredentialIsOne` | src/redact.rs:208-215 | every uncommented `...name...=value` with such a name, any text before it and white space after it is a credential line |
| `Credentials.StoredLines` | src/redact.rs:250-296 | a merge restores, on credential lines holding the placeholder, the last value the original had under the same key, and stores every other line as written |
| `Credentials.FileSurvives` | src/redact.rs:250-296 | writing the view back reproduces the file iff no key has two values |
| `Credentials.ServedAlike` | src/redact.rs:222-240 | two files are served alike iff they differ in nothing but the values of credential lines |
| `Text.WhitespaceTable` | src/redact.rs:204-213 | the code points trimming removes |
| `Utf8.DecodeEncode` | src/redact.rs:223-224 | decoding encoded text gives the text |
| `Utf8.EncodeDecode` | src/redact.rs:223-224 | bytes that decode are the encoding of what they decode to |
| `Overlay.StepKeepsValid` | src/fs.rs:143-157 | handle numbers stay below the next one and open handles keep their file |
| `OverlayLaws.StepIndependent` | src/fs.rs:554-890 | on two overlays with equal views and handles every request gets one reply, and views and handles stay equal |
| `OverlayLaws.RunsIndependent` | src/fs.rs:554-890 | so does every list of requests |
| `OverlayLaws.ProgramsIndependent` | src/fs.rs:554-890 | so does every program that chooses each request from the replies so far |
| `OverlayLaws.WriteIntoIsPlain` | src/fs.rs:828-836 | a write into the pending buffer is that of an ordinary zero-filled file if and only if it is not empty beyond the end |
| `OverlayLaws.EmptyWriteExtends` | src/fs.rs:830-833 | a concrete empty write that differs |
| `OverlayLaws.ResizeIsPlain` | src/fs.rs:582-582 | truncation of the pending buffer is that of an ordinary file |
| `OverlayLaws.SliceIsPlain` | src/fs.rs:793-798 | a read is that of an ordinary file |
| `OverlayLaws.HandleIsPlainFile` | src/fs.rs:793-836 | between persists, under any requests on any handles, the handle holds at every point what an ordinary file would, if and only if no request is an empty write beyond its end |
| `OverlayLaws.RepliesArePlain` | src/fs.rs:579-595 | and its replies to reads, writes and truncations are that file's |
| `OverlayLaws.OpenStartsPlainFile` | src/fs.rs:683-694 | an opened handle starts from the view, or empty under O_TRUNC, and touches no file |
| `OverlayLaws.SizeIsWhatIsRead` | src/fs.rs:357-371 | the size reported for a file is the length of what a handle opened next holds and of what reading it whole returns; 0 without a view, ENOENT without a file |
| `OverlayLaws.CreatedSize` | src/fs.rs:767-770 | a creation reports the size then reported for the file, and so does a setattr without a size |
| `OverlayLaws.WhenRequestsFail` | src/fs.rs:554-890 | exactly when each request fails and with which error |
| `OverlayLaws.FailedHandle` | src/fs.rs:703-703 | a file without a view opens, but the handle gives nothing away, takes nothing in and leaves the file alone |
| `OverlayLaws.CreateStartsEmpty` | src/fs.rs:729-766 | a created handle starts with an empty buffer to persist, also over an existing file that was kept |
| `OverlayLaws.TruncateAnswer` | src/fs.rs:579-634 | a truncation is answered with the new size if and only if it names an open redacted handle or changes nothing; the named handle then holds the truncated bytes and nothing else changes; naming none changes nothing |
| `OverlayLaws.TruncateNotShown` | src/fs.rs:579-595 | a reader opening after a truncation still sees the whole view, so `n` bytes if and only if there were `n` |
| `OverlayLaws.TruncateThenFlush` | src/fs.rs:576-595 | flushing the truncated handle succeeds if and only if the truncated bytes have a view; then it and every new reader hold that view, otherwise the file is untouched |
| `OverlayLaws.CreateThenRelease` | src/fs.rs:757-766 | create and release without a write stores the merge of nothing into what the file held |
| `OverlayLaws.FilesAreFoldOfMerges` | src/fs.rs:376-393 | after any run the real files are the initial ones with the successfully persisted buffers merged in, in order, and nothing else |
| `OverlayLaws.PersistOutcome` | src/fs.rs:843-890 | flush, fsync and release fail exactly when buffer or file has no view, and then change no file; otherwise the file is the merge, and it and the handle show the buffer's view; release closes the handle either way |
| `OverlayLaws.NothingToPersist` | src/fs.rs:378-384 | with nothing to persist they answer success and change nothing |
| `OverlayLaws.FlushTwice` | src/fs.rs:382-384 | a second flush changes nothing, whether the first succeeded or failed |
| `OverlayLaws.EditorRoundTrip` | src/fs.rs:376-393 | open, read all, write back, release stores the merge of the file's own view and leaves the rest of the state as it was |
| `NpmrcOverlay.NpmrcIsLawful` | src/redact.rs:250-296 | the `.npmrc` handler obeys the law the overlay theorems need |
| `NpmrcOverlay.CredentialsStayHidden` | src/redact.rs:217-240 | no program gets a different reply when the values of `_authToken`, `_auth` and `_password` lines in any text files, or the bytes of files that are not text, are changed |
| `NpmrcOverlay.EditorKeepsFile` | src/fs.rs:872-890 | that editor session leaves the real files byte-identical if and only if no key in the file, up to white space and case, has two values |
| `NpmrcOverlay.CreateEmptiesFile` | src/fs.rs:742-765 | a `.npmrc` created and closed unwritten ends empty if and only if it was new, O_TRUNC was given or its old content is text; it is unchanged if and only if it was empty, or was kept and is not text |
| `NpmrcOverlay.PathTruncationIgnored` | src/fs.rs:616-634 | a concrete `.npmrc` truncated to 0 without a handle: the reply is the old size, nothing changes, a new reader gets every byte |
| `OverlayFs.OverlayFs.ReadAll` | src/fs.rs:417-430 | returns the whole file for arbitrary non-zero short reads |
| `OverlayFs.OverlayFs.Overwrite` | src/fs.rs:389-390 | the file holds exactly the data for arbitrary non-zero short writes |
| `OverlayFs.OverlayFs.InsertHandle` | src/fs.rs:151-156 | the handle goes under the next number |
| `OverlayFs.OverlayFs.DoGetattr` | src/fs.rs:543-552 | refines the attribute step of the state machine |
| `OverlayFs.OverlayFs.DoSetattr` | src/fs.rs:554-635 | refines the truncation step |
| `OverlayFs.OverlayFs.DoOpen` | src/fs.rs:648-707 | refines the open step |
| `OverlayFs.OverlayFs.DoCreate` | src/fs.rs:709-771 | refines the create step |
| `OverlayFs.OverlayFs.DoRead` | src/fs.rs:773-807 | refines the read step |
| `OverlayFs.OverlayFs.DoWrite` | src/fs.rs:809-841 | refines the write step |
| `OverlayFs.OverlayFs.DoPersist` | src/fs.rs:376-393 | refines the persist step, reading and overwriting through short transfers |
| `OverlayFs.OverlayFs.DoRelease` | src/fs.rs:872-890 | refines the release step |
| `OverlayFs.OverlayFs.ServeAll` | src/fs.rs:554-890 | serving a list of requests is a run of the state machine, so the theorems about runs hold of the object |
| `StubDns.BuildResponse` | src/mitm/dns.rs:54-106 | the loop and the appends compute the response whose properties are proved; the walk ends in bounds |
| `StubDns.WalkEncoded` | src/mitm/dns.rs:62-75 | the walk accepts every encoded name of labels of 1 to 63 bytes and ends just after it |
| `StubDns.WalkedIsEncoded` | src/mitm/dns.rs:62-75 | and accepts nothing else |
| `StubDns.ResponseIffQuery` | src/mitm/dns.rs:54-77 | a response exists if and only if there is a header, a non-zero question count, an uncompressed name, a type and a class |
| `StubDns.ResponseReadsBack` | src/mitm/dns.rs:80-105 | read as a DNS message the response has the query's ID, RD bit and question, and under the queried name 10.0.0.1 for A/IN, fd00::1 for AAAA/IN, each for 60 seconds, or no answer; at most 28 bytes longer than the query |
| `HttpHead.FindIsFirst` | src/mitm/proxy.rs:94-96 | finds exactly the first blank line |
| `HttpHead.FindInPrefix` | src/mitm/proxy.rs:51-54 | reading on neither moves the end found nor reveals an earlier one |
| `HttpHead.ReadHead` | src/mitm/proxy.rs:44-59 | for every split into reads of 1 to 4096 bytes: the cut is at the stream's first blank line, the buffer is all bytes read and within one read of 64 KiB, every head of up to 64 KiB + 1 is taken; and exactly when it is refused |
| `HttpHead.ReadSoFarIsUnique` | src/mitm/proxy.rs:51-54 | the bytes read when a head is accepted are determined by the reads |
| `HttpHead.LongHeadDependsOnReads` | src/mitm/proxy.rs:55-57 | for every stream with a first head end `e`, body or not: every split is accepted if and only if e <= 64 KiB + 1, none if and only if e > 64 KiB + 4096, and some are and some are not exactly in between |
| `HeadRewrite.RewriteHead` | src/mitm/proxy.rs:101-179 | the two loops compute the rewritten head whose properties are proved; unparseable and unmatched heads are unchanged, a missing method or path is an error |
| `HeadRewrite.RewrittenHeaders` | src/mitm/proxy.rs:149-178 | read as a request: the client's method and path; its headers at increasing positions, position `i` among them iff its name is, up to case, none of the rule's, not connection and not keep-alive; the rule's headers; then `Connection: close` unless the rule sets Connection |
| `HeadRewrite.KeptPositions` | src/mitm/proxy.rs:155-164 | the same of any parse, also one with empty header slots, which are skipped |
| `HeadRewrite.RewriteOutcome` | src/mitm/proxy.rs:106-137 | an unparseable or unmatched head is unchanged; an error iff a matched one lacks method or path |
| `HeadRewrite.HostIs` | src/mitm/proxy.rs:111-119 | the host is that of the first Host header, in lower case, without white space around it and without the part from its last colon on |
| `HeadRewrite.NoHostNamed` | src/mitm/proxy.rs:112-118 | without a Host header, or with one that is not text, the host is empty |
| `HeadRewrite.WireTexts` | src/mitm/proxy.rs:147-175 | the byte constants spell the texts they stand for |
| `HeadRewrite.KeptAgain` | src/mitm/proxy.rs:155-164 | of a rewritten head's headers the ones kept next time are those kept before |
| `HeadRewrite.SameHost` | src/mitm/proxy.rs:112-119 | a rewritten head names the same host unless the rule sets Host |
| `HeadRewrite.RewriteAgain` | src/mitm/proxy.rs:101-179 | rewriting a rewritten head changes nothing when its host falls under the same rule or none |
| `HeadRewrite.RewriteTwice` | src/mitm/proxy.rs:101-179 | in particular whenever the rule does not set Host |
| `HeadRewrite.ForwardHead` | src/mitm/proxy.rs:44-79 | the bytes sent upstream are the rewritten head and the leftover; for an unparseable head or with no matching rule exactly the bytes of all reads made |
| `Gate.DirGate.Allow` | src/profiles/npm.rs:137-162 | the scans and pushes are one step of the gate; asks exactly when no decision covers the path |
| `Gate.ListsCover` | src/profiles/npm.rs:103-111 | after any run the lists cover exactly the pre-approved and the asked-and-answered paths with everything under them |
| `Gate.EveryDecision` | src/profiles/npm.rs:137-162 | at every step of every run: asked iff nothing pre-approved or answered covers the path; allowed iff something pre-approved or approved does, or nothing refused does and the user says yes |
| `Gate.NeverAskedUnderAsked` | src/profiles/npm.rs:143-155 | no path is asked about twice, nor under one asked about earlier |
| `Gate.PreapprovedNeverAsks` | src/profiles/npm.rs:113-133 | pre-approved paths and all below pass without asking |
| `Gate.AllowIsPermanent` | src/profiles/npm.rs:143-151 | an allow is permanent, for everything under the path too |
| `Gate.DenyIsPermanentUnlessAncestorApproved` | src/profiles/npm.rs:152-160 | a denied path is allowed later if and only if a proper ancestor was asked about and approved in between |
| `Gate.DenialLifted` | src/profiles/npm.rs:143-158 | a concrete run in which a refused file is allowed once its directory was approved |
| `Gate.DecisionsAreConstant` | src/profiles/npm.rs:137-162 | decisions are constant when no requested path is an ancestor of another |
| `Targets.DedupTargets` | src/main.rs:302-314 | the loop with `retain` returns the outermost candidates, each once, in order of first appearance |
| `Targets.SurvivorsAreOutermost` | src/main.rs:299-301 | as a set the result is exactly the candidates with no proper ancestor in the list |
| `Targets.OrderDoesNotMatter` | src/main.rs:299-301 | as a set it does not depend on the input order |
| `Targets.SurvivorsCover` | src/main.rs:299-301 | every candidate lies under a result |
| `Targets.SurvivorsInOrder` | src/main.rs:299-301 | results stand in the order of first appearance |
| `Targets.SurvivorsAreApart` | src/main.rs:299-301 | no result lies under another or repeats |
| `Inodes.InodeTable.Intern` | src/fs.rs:111-120 | the object takes exactly the intern step |
| `Inodes.InodeTable.ForgetPath` | src/fs.rs:122-126 | the object takes exactly the forget step |
| `Inodes.InodeTable.Rename` | src/fs.rs:128-134 | the object takes exactly the rename step |
| `Inodes.RunKeepsValid` | src/fs.rs:98-135 | over every run off the root, each path entry points to a number that maps back to it, and the root mapping is fixed |
| `Inodes.InternPairs` | src/fs.rs:111-120 | the number returned maps to the path and back, is the known one or else new, and nothing else changes |
| `Inodes.ForgetRemoves` | src/fs.rs:122-126 | removes the path and its number and nothing else |
| `Inodes.ForgottenForGood` | src/fs.rs:115-126 | a forgotten path's number is not given out again, to any path, after any run |
| `Inodes.NumbersNeverReused` | src/fs.rs:111-120 | a number once gone never comes back |
| `Inodes.NumberFollowsFile` | src/fs.rs:128-134 | a number follows its file through renames until it is removed or overwritten |
| `Inodes.OrphansAreDisplaced` | src/fs.rs:128-134 | the numbers no path points to are exactly those displaced as rename targets |
| `LexicalPath.LexicallyNormalize` | src/fs.rs:399-414 | the loop computes the normal form whose properties are proved |
| `LexicalPath.NormIsNormal` | src/fs.rs:396-398 | the result has no `.` or `..` and normalising is idempotent |
| `LexicalPath.NormJoin` | src/fs.rs:399-414 | norm(p/q) == norm(norm(p)/q) |
| `LexicalPath.NormKeepsMeaning` | src/fs.rs:399-414 | wherever walking an absolute path in a symlink-free tree leads, walking its normal form leads too |
| `LexicalPath.NormalPathUnique` | src/fs.rs:399-414 | a node has only one normal path |
| `LexicalPath.WithinIffPrefix` | src/fs.rs:276-276 | a path leads into a directory if and only if its normal form starts with the directory's |
| `LexicalPath.UnreadableEscapes` | src/fs.rs:258-264 | an unreadable link counts as leaving the overlay |
| `LexicalPath.TargetWithinIsRight` | src/fs.rs:261-277 | the overlay test on a link answers whether following it ends at or below the mount root |

## Left out

- Handlers for `.env`, `mitm.yaml` and private keys, and their detection: they rest on the quoting rules of other libraries or are short classifications.
- Passthrough and key handles, directories, unlink, rename, link and symlink presentation in the overlay: a redacted handle keeps its file for its life.
- The access gate inside open and create, inode lookup by number, permissions and times in attributes: only sizes are modelled.
- Failing system calls, and a `pwrite` that returns 0: transfers succeed with any non-zero short count.
- 64-bit overflow of offsets, inode numbers and handle numbers: numbers are unbounded.
- smoltcp: `NetMay`, `OutcomeMay` and `Socket` state what the bridge relies on (a send takes any front part, `may_recv` holds while the receive buffer is not empty, a closed socket stays closed, one that sent its FIN sends no more, received bytes stay until taken).
- tokio: a channel is a bounded FIFO that reports disconnection only when empty; wake-ups and scheduling are not modelled. Reserving a slot and sending are one step, and so is one `poll_read`.
- BridgeConn.Conn.DrainLoop: the proxy acts finitely often within one pass, since a proxy that writes for ever keeps the source's loop going too.
- BridgeConn.Conn: one object holds both halves of a connection and both channels; ownership by two threads appears as interleaving of steps.
- BridgeLaws.EofAfterAllBytes: bytes still in a socket that reaches Closed are not promised, because the reap discards them.
- Streams the proxy still holds after their connection was reaped are covered by the bridge laws but not followed by `Netstack`.
- The DNS socket's service loop, the interface, the TUN device and `syn_dest_port`: the ports dialled are an input of each iteration.
- `Listens`: listening fails only on port 0.
- StubDns.ResponseIffQuery: a name longer than 255 bytes is accepted, as the source does not check it.
- httparse: what it makes of a head is an input (`Parse`); rule lookup by host is a function from host to headers.
- HeadRewrite.RewrittenHeaders: holds for header names and values without line breaks, for rule headers too; the source does not check the rule's.
- The user's answers are an input of `Gate.DirGate.Allow`; the terminal prompt is not modelled.
- The converse of the inode table's pairing, and paths below a renamed directory: the source keeps only the direction from path to number.
- TLS, certificates, upstream connections and splicing; namespaces, mounts, configuration and command line.
