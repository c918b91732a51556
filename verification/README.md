# Verified model of devcroft's core

devcroft brings up per-project sandboxes: a *keeper* process per sandbox runs sessions for clients over a local
socket and over SSH, a compiled policy says which paths a sandbox may touch, and several small text and arithmetic
routines stand between the user's files and all of that. This project states what those parts promise and proves it,
for every input and every interleaving.

| file | what it models |
|---|---|
| `Frames.dfy` | the keeper's wire protocol, byte for byte, and its two loops |
| `Relays.dfy`, `Pumps.dfy`, `Client.dfy` | a child's output and exit on their way to a client: pumps, reaper, queue, writer, and the receiving loop |
| `Progress.dfy` | the end of a relay: what is left to do once the child is done, and that it gets done |
| `SessionRegistry.dfy`, `Sessions.dfy`, `ReaderLoop.dfy` | any number of connections over one registry: what a client sends reaches the child, and how a session is seen off |
| `EofGate.dfy` | the stream wrapper that sends the exit status before it lets an end of file through |
| `Lifecycle.dfy`, `LifecyclePaths.dfy`, `Terminate.dfy` | concurrent `up`, `up --recreate`, `down` and `rm` over a lock, a pidfile and reused pids |
| `Policy.dfy`, `Paths.dfy` | path regions, manifest checks, the compiled plan, the overlap check and `why` |
| `Jsonc.dfy`, `JsoncScan.dfy`, `JsoncRender.dfy` | the comment and trailing-comma stripper for `devbox.json` |
| `SshConfig.dfy` | the managed section of the user's ssh configuration |
| `EditDistance.dfy`, `Fingerprint.dfy`, `Slug.dfy`, `Civil.dfy` | suggestions, change detection, names, dates |
| `ProxyRequest.dfy`, `ProxyTarget.dfy` | the egress proxy's request reader, and what it reads in terms of the request's own text |
| `Wrappers.dfy`, `Sequences.dfy`, `Characters.dfy` | shapes shared by the others |

Loops and objects of the source are methods and classes here, each proved against a function; threads and processes
that interleave are steps of a state machine, and the promises are proved of every list of steps. Nothing is assumed
about scheduling. `dafny verify dfyconfig.toml` checks everything.

## Where the code and its promises differ

Each of these is proved as an exact condition, with the code kept as it is.

- `write_managed_section` is documented as idempotent. It is last-writer-wins exactly when the file has no marker or
  its first begin marker precedes its first end marker *and* the first identity holds no end marker
  (`LastWriterWins`, `WriteIsIdempotent`); otherwise a second write appends again, or cuts back to a stray marker. A
  file of one stray end marker fails for every two identities (`StrayEndKeepsFirstWriter`), an end marker as identity
  even in a new file (`MarkerAsIdentityIsLeftOver`).
- It is also documented as never touching text outside the markers. A file with a section keeps every byte outside it
  exactly when a newline follows the end marker; otherwise one is put there (`OutsideIsKept`, and
  `SectionAtEndGetsNewline` for a file that ends in its end marker), though never behind a section that an earlier
  write left (`LaterWritesKeepOutside`). A file without a section is kept as it is, with its last line closed and a
  blank line before the appended block (`OutsideIsKept`).
- `why` and the enforced grants agree exactly when no grant lies strictly inside a deny (`WhyAgreesEverywhere`). An
  accepted manifest that allows one file of `~/.ssh` passes the overlap check and is granted that file, while `why`
  reports it denied (`WhyDeniesAllowedSshConfig`).
- "At most one live keeper": in a run the keeper is at some moment not unique, or not the one the pidfile records,
  exactly if some command, refused by the keeper it checks, goes on to clear or overwrite that keeper's record while
  the keeper still stands (`LostKeeperIff`). What the runs without a refused check of a standing keeper keep, and no
  others (`OneKeeperIff`), is that the keeper is unique, recorded, and not there while a command replaces it; the
  states in which that holds are exactly the ones that are safe (`KeptIsSafe`). A refused check is enough: the
  command's own next two steps start a second keeper (`RefusedCheckDoubles`, `RefusedKeeperIsDoubled`).
- The exit status of the gated stream goes out before the end of the stream exactly when it is polled with an empty
  buffer while bytes wait (`StartsEarlyIff`, `EmptyBufferStartsEarly`); a reader that always leaves room never sees it
  (`RoomIsEnough`).
- The fingerprint's byte stream identifies its parts exactly when no part holds the separator byte, or there is at
  most one part (`StreamNamesPartsExactly`), though the comment says that parts never run together.
- A printed `host:port` is split back into both exactly when the host is neither empty nor opened by a bracket
  (`HostPortIsRecovered`), and a bracketed one exactly when the host holds no closing bracket.
- Bare frames are read with any payload, so of the frames that carry no JSON, writing undoes reading exactly for raw
  ones and for bare ones without a payload (`OnlyBareLosesPayload`).

## Model

| member | source | states |
|---|---|---|
| `Civil.CivilIsValidInverse` | samples/devbox-citytime-sample/src/main.rs:99-110 | every day number, of either sign, becomes a valid proleptic Gregorian date whose day number it is |
| `Civil.CivilOfDayNumber` | samples/devbox-citytime-sample/src/main.rs:99-110 | every valid date is what its day number becomes: the conversion is onto and inverse both ways |
| `Civil.CivilSuccessor` | samples/devbox-citytime-sample/src/main.rs:99-110 | the next day number becomes the calendar's next day, over leap days, centuries and eras; day 0 is 1970-01-01 |
| `Civil.DayNumberOrders` | samples/devbox-citytime-sample/src/main.rs:99-110 | the day number used as reference is strictly increasing in calendar order, so no two dates share one |
| `Civil.NextDayNumber` | samples/devbox-citytime-sample/src/main.rs:99-110 | the reference day number counts calendar successors one by one |
| `Civil.LocalClockRecovers` | samples/devbox-citytime-sample/src/main.rs:79-88 | the split into date and clock has every part in range and adds up to the local seconds, before the epoch too |
| `EditDistance.Compute` | src/config/validate.rs:101-116 | the two-row loop computes the recursive distance |
| `EditDistance.DistanceIsShortest` | src/config/validate.rs:101-116 | a script of inserts, deletes and substitutes of that cost turns one string into the other, and none is cheaper |
| `EditDistance.DistanceIsMetric` | src/config/validate.rs:101-116 | zero only for equal strings, symmetric, and the triangle inequality |
| `EditDistance.InverseTurnsBack` | src/config/validate.rs:101-116 | every script can be undone by one of equal cost |
| `EditDistance.ComposeTurns` | src/config/validate.rs:101-116 | two scripts compose to one that costs no more than both |
| `EditDistance.ClosestIsNearest` | src/config/validate.rs:88-99 | a suggestion is the earliest candidate within reach that none beats, and there is none only when all are out of reach: three edits at most, and of more than one no more than half the bytes of the key |
| `EditDistance.Utf8LengthOf` | src/config/validate.rs:88-99 | the length that bounds the reach is that of the text in bytes: its characters exactly for ASCII text, and at most four times as many |
| `EditDistance.ClosestOfKnownKey` | src/config/validate.rs:88-99 | a key that is known is its own suggestion |
| `Fingerprint.Compute` | src/provider/capture.rs:140-153 | the nested loops compute the hash of the separated byte stream, as 16 hex digits |
| `Fingerprint.StepIsInjective` | src/provider/capture.rs:144-151 | one step loses neither the state nor the byte: the multiplier is invertible modulo 2^64 |
| `Fingerprint.OneByteChangesFingerprint` | src/provider/capture.rs:140-153 | changing exactly one byte of any part always changes the printed fingerprint |
| `Fingerprint.AbsentIsNotEmpty` | src/provider/capture.rs:124-134 | an absent lockfile and an empty one never have one fingerprint, whatever stands around them |
| `Fingerprint.FileByteChangesFingerprint` | src/provider/capture.rs:124-134 | changing any one byte of a lockfile changes the fingerprint, whatever stands around it |
| `Fingerprint.StreamNamesPartsExactly` | src/provider/capture.rs:136-153 | no other list of that length has the stream, if and only if no part holds the separator or there is at most one |
| `Fingerprint.BoundaryMoves` | src/provider/capture.rs:144-151 | a separator inside a part can be read as a boundary, which gives the aliases |
| `Fingerprint.HexIsInjective` | src/provider/capture.rs:152 | the zero-padded hex form is injective |
| `Fingerprint.HexSpells` | src/provider/capture.rs:152 | the printed digits are lower-case hexadecimal for exactly the hash |
| `Fingerprint.XorIsBitwise` | src/provider/capture.rs:144-151 | the exclusive or of a step is one of every bit |
| `Fingerprint.KnownHashes` | src/provider/capture.rs:140-153 | the hash gives the published FNV-1a values of the empty string and of "a" |
| `Slug.NameRule` | src/config/slug.rs:1-18 | a valid name is a small letter or digit and then at most 31 small letters, digits and dashes |
| `Slug.Slugify` | src/config/slug.rs:22-44 | the loop that pushes, collapses, truncates and trims computes the slug |
| `Slug.SlugOfWords` | src/config/slug.rs:22-44 | the slug is the text's runs of letters and digits in order and in lower case, with one dash for each gap between two of them, cut to 32 characters without a dash at the end |
| `Slug.EveryTextHasWords` | src/config/slug.rs:22-44 | every text is such runs and gaps |
| `Slug.SlugIsCanonical` | src/config/slug.rs:22-44 | every string's slug is a valid name without leading, trailing or double dashes |
| `Slug.SlugFixedPoints` | src/config/slug.rs:5-44 | the slug is accepted as a name, and is the string itself exactly for canonical names |
| `Slug.SlugIsIdempotent` | src/config/slug.rs:22-44 | slugging twice is slugging once |
| `Slug.DisambiguatedIsValid` | src/bin/devcroft.rs:404-426 | cutting, trimming and suffixing a valid name leaves a valid one, and a canonical one canonical |
| `Slug.DisambiguatedKeeps` | src/bin/devcroft.rs:404-426 | the name is as much of the taken one as fits before a dash and six digits, and only dashes are left out before the cut |
| `Slug.DisambiguatedDiffers` | src/bin/devcroft.rs:404-426 | two hashes never give one name |
| `Jsonc.StripComments` | src/provider/devbox.rs:177-227 | the index loop computes the first scan |
| `Jsonc.StripTrailingCommas` | src/provider/devbox.rs:229-270 | the index loop with its lookahead computes the second scan |
| `JsoncScan.CommentFixedPoints` | src/provider/devbox.rs:177-227 | the output has no comment opener outside a string, and a text is unchanged exactly when it has none |
| `JsoncScan.OutputIsOpenerFree` | src/provider/devbox.rs:177-227 | the same from whatever state the scanner is in |
| `JsoncScan.StripCommentsIsIdempotent` | src/provider/devbox.rs:177-227 | stripping comments twice is stripping them once |
| `JsoncScan.LinesAreKept` | src/provider/devbox.rs:172-270 | every surviving character is one of the user's, in order, with as many newlines before it; none is lost in all |
| `JsoncRender.CommentsBecomeNewlines` | src/provider/devbox.rs:177-227 | any sequence of tokens, whitespace and comments keeps its tokens and whitespace, and of comments only the newlines |
| `JsoncRender.LookaheadIsNextPiece` | src/provider/devbox.rs:256-264 | the lookahead sees a closer exactly when the document's next token is one |
| `JsoncRender.TrailingCommasDisappear` | src/provider/devbox.rs:229-270 | exactly the commas in trailing position disappear, none inside a string |
| `JsoncRender.StripJsoncYieldsStrict` | src/provider/devbox.rs:172-270 | a document with comments and trailing commas anywhere comes back as its strict text |
| `JsoncRender.StripJsoncYieldsStrictAtEnd` | src/provider/devbox.rs:172-270 | so does one that ends in a line comment without a newline |
| `JsoncRender.StripIsIdentityOnStrict` | src/provider/devbox.rs:172-175 | strict JSON is left as it is, strings with openers, commas and escaped quotes included |
| `SshConfig.ConfigFile.WriteManagedSection` | src/ssh/config.rs:34-70 | the file afterwards is its old text with the block in place of the section, or at the end |
| `SshConfig.LastWriterWins` | src/ssh/config.rs:34-70 | writing a and then b is writing b, if and only if the file is well formed and a holds no end marker |
| `SshConfig.WriteIsIdempotent` | src/ssh/config.rs:28-70 | a repeated write changes nothing under exactly that condition |
| `SshConfig.StrayEndKeepsFirstWriter` | src/ssh/config.rs:49-62 | in a file of one stray end marker both of two writes append, so the first one's block stays, whatever the two identities |
| `SshConfig.MarkerAsIdentityIsLeftOver` | src/ssh/config.rs:34-63 | after an identity that is an end marker no second write leaves what it alone would leave, even in a new file |
| `SshConfig.OutsideIsKept` | src/ssh/config.rs:38-63 | with a section, the bytes outside it come back unchanged if and only if a newline follows the end marker, and otherwise with one newline more there; without one the text is kept, closed, and set off by a blank line |
| `SshConfig.SectionAtEndGetsNewline` | src/ssh/config.rs:45-51 | a file whose end marker is its last byte gets a newline behind it |
| `SshConfig.LaterWritesKeepOutside` | src/ssh/config.rs:28-63 | in a well-formed file a write leaves every byte outside the section of an earlier write as it is, unless the identity of that one held an end marker |
| `SshConfig.BlockIsBlock` | src/ssh/config.rs:9-36 | a block begins with its begin marker, and its first end marker is its last line unless the identity holds one |
| `SshConfig.LastBlockWins` | src/ssh/config.rs:38-63 | the same equivalence for any two markers that stay on one line, and any block |
| `Paths.WithinIsOrder` | src/paths.rs:64-70 | being within is reflexive and transitive, and strictness composes |
| `Paths.WithinIsForest` | src/paths.rs:64-70 | two regions that cover one path are nested |
| `Paths.WithinIsJoining` | src/paths.rs:26-70 | a path is within a region exactly when joining something to the region gives its components |
| `Paths.JoinedComponents` | src/paths.rs:26-42 | joining with a slash appends components, with dots and empty parts dropped |
| `Paths.WrittenPath` | src/paths.rs:26-42 | a path written from the home directory, the root or the project names that root and exactly the components it lists |
| `Paths.TraversalIff` | src/paths.rs:44-62 | a path has a traversal exactly when two dots stand between slashes somewhere in its text |
| `Policy.CheckFilesystem` | src/config/validate.rs:48-68 | the read-only loops reject the first invalid path, and then the first deny that nothing grants |
| `Policy.AcceptedIff` | src/config/validate.rs:48-68 | a manifest is accepted exactly when no entry is empty, holds a NUL or a traversal, and every deny lies within a grant |
| `Policy.RefusalNamesFirst` | src/config/validate.rs:48-68 | a refusal names the first such entry, field by field, or then the first deny within no grant |
| `Policy.Compile` | src/policy/mod.rs:273-357 | the pushing loops compile the manifest with its system grants and conditional credential denials |
| `Policy.CompiledMeaning` | src/policy/mod.rs:273-357 | a rule is in a list of the compiled policy exactly when the manifest or the platform puts it there, under that origin; a credential directory exactly when no grant covers it |
| `Policy.PlanOfManifest` | src/policy/mod.rs:273-380 | the enforced lists, entry by entry and in order |
| `Policy.ExtraGrantsAreNamed` | src/policy/mod.rs:373-380 | the keeper's grant is added as baseline and a provider's under its name, to the read list only |
| `Policy.CheckNoDenyOverlapsAllow` | src/policy/capability_set.rs:252-264 | the nested loop finds the first overlap |
| `Policy.OverlapMeaning` | src/policy/capability_set.rs:252-264 | the check passes exactly when no deny is covered by a grant |
| `Policy.OverlapNamesFirst` | src/policy/capability_set.rs:252-264 | the overlap reported is the first deny any grant covers, with the first grant that covers it |
| `Policy.WhyIsRules` | src/policy/why.rs:39-65 | a path is allowed exactly when no deny covers it and a grant for the operation does, with an origin for either |
| `Policy.WhyNamesFirst` | src/policy/why.rs:39-65 | the origin named is that of the first deny covering the path, and otherwise of the first grant for the operation, read-write before read-only |
| `Policy.WhyVersusGrants` | src/policy/why.rs:39-65 | after the overlap check `why` and the additive grants differ exactly on paths covered by a grant strictly inside a deny |
| `Policy.WhyAgreesEverywhere` | src/policy/why.rs:39-65 | they agree on every path and operation exactly when there is no such grant |
| `Policy.AcceptedManifestIsEnforceable` | src/policy/mod.rs:273-357 | an accepted manifest passes the overlap check exactly when it denies nothing, grants no cover of the data dir, and no extra grant covers a baseline denial |
| `Policy.AbsoluteGrantsNeverTrip` | src/policy/mod.rs:373-380 | on Linux and macOS, absolute system, provider and keeper grants can never trip it |
| `Policy.WhyDeniesNestedGrant` | src/policy/why.rs:39-47 | every allow strictly inside a baseline denial is granted and reported denied |
| `Policy.WhyDeniesAllowedSshConfig` | src/policy/why.rs:39-47 | a concrete manifest on which that happens |
| `ProxyRequest.Reader.ReadCappedLine` | src/proxy/server.rs:445-468 | one budgeted line: its bytes leave the stream and the budget, or it is refused |
| `ProxyRequest.CappedLineExactly` | src/proxy/server.rs:445-468 | a line is read exactly when it is text and fits: at the budget only with its newline |
| `ProxyRequest.ReadHeaders` | src/proxy/server.rs:335-350 | the header loop ends, takes exactly the bytes it gathers from the stream, and notes the header fields |
| `ProxyRequest.HeadersExactly` | src/proxy/server.rs:335-350 | headers are read exactly when every line is text and the head fits; what is consumed is the head |
| `ProxyTarget.LastHeaderCounts` | src/proxy/server.rs:342-349 | of several Host or Proxy-Authorization lines the last one counts: its name in any case, its value without the whitespace around it |
| `ProxyTarget.LastValueIsOnlyOne` | src/proxy/server.rs:342-349 | a list of header lines gives each of the two at most one value in that sense |
| `ProxyTarget.FieldsExist` | src/proxy/server.rs:342-349 | and every request's header lines give each of the two a value or none |
| `ProxyRequest.ReadTarget` | src/proxy/server.rs:313-384 | the whole reader, tied to its specification and to what is left in the stream |
| `ProxyRequest.TargetCarriesTheHead` | src/proxy/server.rs:313-384 | a read request carries exactly the stream's head, at most 65536 bytes; nothing is read exactly from an empty stream |
| `ProxyRequest.RequestTargetExactly` | src/proxy/server.rs:326-333 | a request line is split into exactly its first two words, with or without a version; a single word is refused |
| `ProxyRequest.ThreeWords` | src/proxy/server.rs:326-333 | the usual line of method, target and version, with whatever whitespace ends it, is one of those |
| `ProxyRequest.RequestIsRead` | src/proxy/server.rs:313-384 | every request of two words or more with a head that is text and fits is read as its method, target, header lines and whole head say |
| `ProxyTarget.TunnelIsRead` | src/proxy/server.rs:313-361 | from bytes: a readable CONNECT is read as the host and port its line prints, with the whole head and the last credentials, if and only if the host is neither empty nor opened by a bracket |
| `ProxyTarget.AbsoluteIsRead` | src/proxy/server.rs:313-383 | from bytes: the same for an absolute target of either scheme, whatever Host lines there are |
| `ProxyTarget.OriginIsRead` | src/proxy/server.rs:313-383 | from bytes: any other target goes where the last Host line says, under the same condition, and is refused without one |
| `ProxyTarget.RequestGoesWhereItSays` | src/proxy/server.rs:313-384 | every readable request of the three forms goes to the host its line or its last Host line says, on the port printed there, or on 443 for a tunnel and 80 otherwise |
| `ProxyTarget.OrdinaryRequestIsRead` | src/proxy/server.rs:313-384 | from the bytes of a request line, any header lines and a blank line, 64 KiB at most, whatever follows: target, head and credentials are what those bytes say |
| `ProxyTarget.OnlyRequestsAreRead` | src/proxy/server.rs:313-384 | nothing else is read as a request |
| `ProxyRequest.ConnectResolves` | src/proxy/server.rs:352-361 | a tunnel request gets the printed host and port exactly when they can be told apart |
| `ProxyRequest.AbsoluteResolves` | src/proxy/server.rs:363-383 | an absolute target's own authority decides, whatever Host says and whatever path or query follows |
| `ProxyRequest.OriginResolves` | src/proxy/server.rs:363-383 | any other target goes where Host says, exactly when its host is neither empty nor opened by a bracket, and is refused without one |
| `ProxyRequest.BareHostGetsDefault` | src/proxy/server.rs:427-443 | a host without a port, bare or bracketed, gets the default one |
| `ProxyRequest.PortIsRecovered` | src/proxy/server.rs:427-443 | a printed number is parsed back exactly when it fits 16 bits |
| `ProxyTarget.ParsePortExactly` | src/proxy/server.rs:427-443 | a port is read from exactly the texts that write a 16-bit number, with any zeros and one plus sign in front |
| `ProxyTarget.SplitHostPortExactly` | src/proxy/server.rs:427-443 | a text gives a host and a port exactly when it splits as them, in brackets, without a colon, or at its last one; everything else is refused |
| `ProxyRequest.HostPortIsRecovered` | src/proxy/server.rs:427-443 | a printed host and port are recovered exactly when the host is neither empty nor opened by a bracket |
| `ProxyRequest.BracketedHostIsRecovered` | src/proxy/server.rs:427-436 | a bracketed host is recovered exactly when it holds no closing bracket |
| `Frames.ReadHalf.ReadFrame` | src/keeper/protocol.rs:143-180 | reading in exact pieces is decoding the front of the stream, and leaves what is behind it |
| `Frames.WriteHalf.WriteRaw` | src/keeper/protocol.rs:221-235 | tag, length and payload are appended, or nothing when the payload is too long |
| `Frames.WriteHalf.WriteFrame` | src/keeper/protocol.rs:182-235 | writing appends the encoding, or refuses and writes nothing |
| `Frames.RawFramesOnTheWire` | src/keeper/protocol.rs:182-235 | raw and bare frames byte for byte: tag, length with the highest byte first, payload |
| `Frames.StructuredFramesOnTheWire` | src/keeper/protocol.rs:182-235 | the other frames carry their JSON in the same layout, each kind under its own tag |
| `Frames.FrameRoundTrips` | src/keeper/protocol.rs:143-235 | a written frame is read back, and what follows it is left alone |
| `Frames.StreamRoundTrips` | src/keeper/protocol.rs:143-235 | a stream of frames is read back as exactly those frames, and reading stops at its end |
| `Frames.CutStreamIsPrefix` | src/keeper/protocol.rs:143-180 | a stream cut at any byte is read as a prefix of its frames, and ends truncated |
| `Frames.PrefixIsTruncated` | src/keeper/protocol.rs:143-156 | every proper prefix of one frame fails as truncated |
| `Frames.WriteRefusesWhatReadRefuses` | src/keeper/protocol.rs:147-154 | writing refuses exactly the payloads whose length reading refuses |
| `Frames.OnlyBareLosesPayload` | src/keeper/protocol.rs:158-209 | of the frames without JSON, exactly the raw ones and the bare ones without a payload are written back as they were read |
| `Frames.StreamsAreInjective` | src/keeper/protocol.rs:182-235 | different lists of frames are different streams |
| `Relays.ActKeepsLane` | src/keeper/connection.rs:221-238 | no step loses, invents or reorders a byte between the child and the queue |
| `Relays.ActKeepsOrder` | src/keeper/connection.rs:117-169 | every step keeps the greeting first, Exit last and single, and the reaper behind both pumps and the child |
| `Relays.ActKeepsExit` | src/keeper/connection.rs:144-169 | once Exit is queued, every byte the child wrote is queued and its pipes are closed |
| `Relays.ActKeepsWire` | src/keeper/connection.rs:117-127 | the wire carries the frames taken, in order, and after a break no more than a cut of what was queued |
| `Relays.EveryRunKeeps` | src/keeper/connection.rs:117-169 | all of this holds after every list of steps of child, pumps, reaper and writer, over the socket and over SSH |
| `Relays.QueueIsBounded` | src/ssh/server.rs:183-241 | over SSH no more than 64 events ever wait |
| `Pumps.PumpStream` | src/keeper/connection.rs:221-238 | the pump loop sends what it reads in order, in chunks of at most 8192: all of it, or what came before sending failed |
| `Pumps.LoopIsPumped` | src/keeper/connection.rs:221-238 | what the loop queues is what reads and sends of the relay's pump queue, and either way the loop ends, a step of that pump ends it with nothing more queued |
| `Pumps.WriteFrames` | src/keeper/connection.rs:118-127 | the writer loop puts the frames on the wire in order and stops at one that cannot be written |
| `Client.StreamSession` | src/exec.rs:218-231 | the receive loop writes what the frames carry and returns the code of the first Exit, or 1 |
| `Client.RunSession` | src/exec.rs:176-183 | a session streams only after its greeting; anything else first is an error |
| `Client.BodyIsStreamed` | src/exec.rs:218-231 | ordered frames are streamed as the concatenated bytes of each stream and the code of their Exit |
| `Client.FirstExitDecides` | src/exec.rs:218-231 | of any frames at all, what comes before the first Exit is written stream by stream, other frames are ignored, and that Exit, or its absence, gives the code |
| `Client.SpawnErrorIsReported` | src/exec.rs:176-183 | a spawn error is reported with its message, whatever follows |
| `Client.NoGreetingIsAnError` | src/exec.rs:176-183 | any other first frame, or none, is a protocol error |
| `Client.EndToEnd` | src/keeper/connection.rs:117-219 | a client that stays gets exactly the child's bytes, in order on each stream, over every interleaving and split into reads, and exits with the child's own code, with 128 and its signal, or with 1 when it has neither |
| `Client.AnyCutIsHonest` | src/exec.rs:218-231 | cut off at any byte of any run, a client has prefixes of the child's bytes and code 1, or the whole output and its code |
| `Client.RelayEvents` | src/ssh/server.rs:219-237 | the draining task hands out data, extended data and exit statuses in order |
| `Client.SshEndToEnd` | src/ssh/server.rs:183-241 | an SSH client is sent the same bytes on each stream and one exit status, the same number in 32 bits unsigned, over every interleaving |
| `Progress.BlockedOnlyWhenIdle` | src/keeper/connection.rs:117-169 | once the child is done, pumps, reaper and writer have no step left exactly when the reaper has reported and the queue is empty or its writer gone |
| `Progress.OwnActDescends` | src/keeper/connection.rs:117-169 | each of their steps leaves less work, over the socket and over SSH, writer gone or not |
| `Progress.EveryScheduleEnds` | src/keeper/connection.rs:117-169 | so every schedule is at most as long as the work was, and can go on until that end |
| `Progress.ConnectedClientIsServed` | src/keeper/connection.rs:117-219 | from every reachable state with the child done and the client there, however the threads go on, they stop in bounded time, and then the client has the child's whole output and its code |
| `Progress.SshClientIsServed` | src/ssh/server.rs:183-241 | the same over the bounded SSH queue, which can hold pumps and reaper up but never for good |
| `Progress.EveryRelayCanEnd` | src/ssh/server.rs:183-241 | from each such state, of either kind, there is a schedule to that end |
| `SessionRegistry.Registry.Insert` | src/keeper/registry.rs:35-46 | the new id is the next one, was not listed, and is listed with its process group |
| `SessionRegistry.Registry.Remove` | src/keeper/registry.rs:48-50 | the removed entry is returned, at most once, and nothing else changes |
| `SessionRegistry.Registry.Snapshot` | src/keeper/registry.rs:64-71 | every listed session appears exactly once |
| `Sessions.FramesAreOrdered` | src/keeper/connection.rs:105-169 | the frames of every session are a prefix of SpawnOk (Stdout or Stderr)* Exit with its own id; Exit only after both pumps ended, the child was reaped with that status and the id left the registry |
| `Sessions.IdsAreNeverReused` | src/keeper/registry.rs:33-46 | no two sessions of a keeper's lifetime share an id, and the next one is new, though taking an id and listing it are two steps |
| `Sessions.RegistryIsExact` | src/keeper/connection.rs:105-167 | a session is listed exactly from its registration until its reaper removes it |
| `Sessions.EscalationIsChecked` | src/keeper/connection.rs:202-215 | nothing is sent unless the session was seen listed, and SIGKILL only after SIGTERM and a second look |
| `Sessions.GreetingCannotFail` | src/keeper/connection.rs:128-132 | sending the greeting never fails: that branch cannot be reached |
| `Sessions.FinishedSessionsAreReceived` | src/keeper/connection.rs:105-219 | every finished session whose client stayed has delivered everything, among any number of sessions |
| `Sessions.ConnectedSessionsComplete` | src/keeper/connection.rs:117-219 | among any number of sessions, one whose child is done and whose client stays takes boundedly many more relay steps, and when none is left has delivered the whole output and the code, whatever all threads do |
| `Sessions.EverySessionCanComplete` | src/keeper/connection.rs:117-219 | from every such state the system can go on, the client staying, until this session's relay has nothing left to do |
| `ReaderLoop.AllInputIsGiven` | src/keeper/connection.rs:172-200 | the input is open exactly while no end of input was received and no write failed part way; until then every byte received was written in order, and then no more than the part written |
| `ReaderLoop.WholeInputIsGiven` | src/keeper/connection.rs:172-200 | so a client whose writes succeed gives the child everything up to its first end of input |
| `ReaderLoop.AllSignalsArePassed` | src/keeper/connection.rs:190-192 | every signal received is sent to the child's process group, in order and once |
| `ReaderLoop.ReadingStops` | src/keeper/connection.rs:197-200 | after its session left the registry the main thread reads at most one more frame |
| `ReaderLoop.EscalationIsComplete` | src/keeper/connection.rs:202-219 | nothing is sent unless the client went away, nothing is read after it did, and the main thread goes on to wait only for a session off the registry or sent SIGKILL |
| `Sessions.NeverStuck` | src/keeper/connection.rs:144-219 | some step of the keeper's own threads, the client's excluded, can be taken for a session whose child is done exactly until everything is over for it |
| `EofGate.NotifyOnEof.PollRead` | src/ssh/server.rs:297-339 | one poll: the next state, the answer, and the buffer it only appends to |
| `EofGate.EveryRunHasShape` | src/ssh/server.rs:282-339 | every run is echoed polls, the end of file, one send during which the stream is not polled, its completion, and only then the end of file answered |
| `EofGate.WrapperIsTransparent` | src/ssh/server.rs:297-339 | before the end of file and after the send, every poll is answered as the wrapped stream alone would answer it |
| `EofGate.SendIsAwaited` | src/ssh/server.rs:304-313 | a send in flight is polled until it is done, not once more or less, and then the end of file is answered |
| `EofGate.EofComesThrough` | src/ssh/server.rs:304-339 | from the end of file on: the send starts, and after exactly as many polls as it takes the end of file is answered |
| `EofGate.BytesAreConserved` | src/ssh/server.rs:297-339 | what was delivered and what still waits are together what the stream had, in order |
| `EofGate.StartsEarlyIff` | src/ssh/server.rs:317-321 | the send starts before the stream's end exactly when a poll without room meets waiting bytes |
| `EofGate.RoomIsEnough` | src/ssh/server.rs:317-321 | it never does for a reader whose every poll leaves room |
| `EofGate.PollStartsSendIff` | src/ssh/server.rs:317-321 | one poll starts the send exactly when none was started and the stream puts nothing into the buffer |
| `EofGate.EmptyBufferStartsEarly` | src/ssh/server.rs:317-321 | a concrete stream on which that happens |
| `Lifecycle.OnlyKeepersAreSignalled` | src/lifecycle/state.rs:476-483 | over every run, no process but a keeper of the sandbox is signalled, whatever pids are used again |
| `Lifecycle.LockHolderIsUnique` | src/lifecycle/state.rs:180-205 | at most one command is past its lock, however many die and whenever |
| `Lifecycle.OneKeeperIff` | src/lifecycle/up.rs:140-170 | over every interleaving, crash and reuse, the keeper is unique, recorded and not there while replaced at every moment of a run exactly if no check of a standing keeper is refused in it |
| `Lifecycle.LostKeeperIff` | src/lifecycle/up.rs:158-167 | the keeper is at some moment of a run not unique or not the one recorded exactly if some command, refused by the keeper it checked, goes on to clear or overwrite its record while it still stands |
| `Lifecycle.KeptIsSafe` | src/lifecycle/up.rs:140-170 | the invariant is the safe states: it holds exactly where no continuation without a refused check of a standing keeper ends with a keeper that is not unique and recorded |
| `Lifecycle.StepKeepsKeeperIff` | src/lifecycle/up.rs:158-167 | of all steps, only the refused check of a standing recorded keeper breaks this |
| `Lifecycle.OneKeeper` | src/lifecycle/up.rs:140-170 | in particular at most one keeper stands, and the pidfile names it, after every run without such a check |
| `Lifecycle.ReplacedKeeperIsStopped` | src/lifecycle/terminate.rs:111-144 | after such a run a command about to clear state or spawn finds no keeper standing |
| `Lifecycle.RefusedCheckDoubles` | src/lifecycle/up.rs:158-167 | wherever such a check is refused, the command's own next two steps lead to two keepers |
| `Lifecycle.RefusedKeeperIsDoubled` | src/lifecycle/up.rs:164-167 | so from every state with a standing keeper and the lock free, one refused `up` leads to two |
| `Lifecycle.OneUpStands` | src/lifecycle/up.rs:650-688 | such a state is one `up` away from a fresh host |
| `Lifecycle.ExactlyOneStarts` | src/lifecycle/up.rs:140-170 | of any number of plain ups from nothing, with nothing crashing, exactly one returns Started and all others AlreadyUp |
| `LifecyclePaths.EveryCommandKeepsToItsPath` | src/lifecycle/up.rs:134-170 | over every run, the steps a command took itself are one of the few paths its kind can take to where it is |
| `LifecyclePaths.OutcomesAreEarned` | src/lifecycle/up.rs:134-170 | a command ends in an outcome of its own kind or fails, `down` and `rm` never start anything, a started keeper was spawned and answered, and `Stopped` was stopped and cleared |
| `LifecyclePaths.OutcomeIsWhatWasSeen` | src/lifecycle/up.rs:158-167 | `Started` found no pidfile, `AlreadyUp` found the recorded keeper alive and answering, `Recovered` found a record without such a keeper |
| `LifecyclePaths.UpSignalsNothing` | src/lifecycle/up.rs:158-167 | a plain `up` sends no signal |
| `LifecyclePaths.StoppedLeavesNothing` | src/lifecycle/terminate.rs:111-144 | after a `down` or `rm` has cleared, in a run without a refused check, no keeper stands and there is no pidfile and no lock |
| `LifecyclePaths.TermComesFirst` | src/lifecycle/state.rs:564-580 | no keeper is sent SIGKILL that was not sent SIGTERM |
| `Terminate.CheckIdentifies` | src/lifecycle/state.rs:476-483 | with later start times on reuse, the identity check passes exactly while the recorded process runs |
| `Terminate.TerminateAndWaitPid` | src/lifecycle/state.rs:564-580 | the escalation signals only the recorded process, sleeps one interval at a time and only on having seen it still there, within the grace period, and ends with it gone or sent SIGKILL |
| `Terminate.TerminateAndWait` | src/lifecycle/state.rs:550-580 | the same from a pidfile, over every history of processes; an absent pidfile is left alone |

## Left out

- Civil.CivilFromDays: integers are unbounded, so the overflow within a few hundred thousand days of the ends of `i64` is not modelled; the zero-padded formatting and the city table are not either.
- SessionRegistry.Registry.Insert: the counter is unbounded here, and sessions are given ids only up to the last 64-bit one, so its wrap after 2^64 sessions is not modelled; the start time of an entry is left out.
- Client.EndToEnd: assumes no read error on the child's pipes other than end of file and EIO, a `wait` that succeeds, and that the two JSON frames of a session fit a frame.
- ReaderLoop.AllSignalsArePassed: resizing the pty is left out with the system calls.
- Sessions.EscalationIsChecked: says what was seen and sent, not what a signal does; between the look and the signal the child may have been reaped, a window the code has too. The grace period has no duration here.
- Sessions.FramesAreOrdered: begins at the spawned child; the first frame's dispatch to `Query` or `SpawnErr`, and spawning itself, are straight-line code. Threads are steps on values rather than objects that share a heap.
- Lifecycle.OneKeeper: the identity check and the signal after it are one step, and so are spawning and writing the pidfile, since the code only narrows those windows. Commands are steps on values, not processes on a file system.
- Lifecycle.OnlyKeepersAreSignalled: uses the Linux branch, where a recorded start time is never 0; the macOS fallback promises no identity.
- Terminate.TerminateAndWait: a check and the signal right after it meet one process table; other time passes arbitrarily.
- ProxyRequest.ReadTarget: UTF-8 decoding is a parameter, and read errors and bytes the buffered reader took ahead are left out.
- Frames.FrameRoundTrips: the JSON library is a parameter that reads back what it writes; I/O errors other than the end of the stream are left out.
- Policy.WhyIsRules: the `detail` text, hosts and ports are left out; grants are lexical regions, so symlinks, missing files and the enforcement backend are not modelled.
- SshConfig.ConfigFile.WriteManagedSection: creating the parent directory and failing to write are left out; a file that cannot be read as text is an empty one, as in the code.
- EofGate.NotifyOnEof.PollRead: writing, flushing and shutdown pass straight through; how many polls a send takes is a parameter.
- `authorized`, `constant_time_eq`, `is_installed`, `changed_env`, `unset_env`, pidfile spelling: short single-branch members that follow from their bodies.
- Provider execution, the services, namespaces, ptys, resizing, and the proxy's dialing and splicing: system calls without logic of their own.
- The egress proxy's reuse by `up` and artifact cleanup after `rm`: outside the keeper's lifecycle.
