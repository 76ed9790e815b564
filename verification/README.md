# White Noise: verified models of the protocol and codec core

A Dafny model of the parts of the White Noise desktop application whose correctness does not show
from reading one function: its bech32 codec, the decoder processes and their transport, the sandbox's
path trust walk and rule table, the AppImage updater, the streaming preview, speech transcripts in
shared memory, memoised node transforms, WebSocket frames, archive listings, portal events, process
brokers and the release bundler. `dafny verify dfyconfig.toml` checks everything.

Code that updates variables and buffers in place is modelled by methods and classes with loops, each
proved against a specification function; what the code is for is then proved of that function.
Processes, threads and signal handlers are state machines over their atomic steps, and the theorems
range over every run. System calls, libraries and file contents are parameters.

| file | models |
|---|---|
| Radix, XorWords, BitRegroup, BitStream, Bech32Checksum, Bech32, Bech32Laws | `app/bech32.odin` |
| ChecksumCycle, ChecksumWords, Bech32Prefix, Bech32Example | what its checksum notices and what it misses |
| Wire, Reply, ReplyForms, Transfer | replies of the decoder helpers, `app/decoder_ipc.c` |
| ModelSession, Lockstep | the model session, from one side and as two processes |
| FbxWriter, FbxParts, FbxReader, FbxDecode | scene descriptions: the helper's serializer and the app's reader |
| NodeWorld | node transforms of the model helper |
| ArgvQuote | quoting a Windows command line |
| Paths, TrustWalk, TrustMeaning, SandboxRules | `app/main_sandbox.c` |
| Version, Update, UpdateStaging, UpdateAttempt, UpdateClient, UpdateClientStop | the AppImage updater and the app's side of it |
| Preview | the bounded streaming preview |
| IpcHeader, Transcribe, TranscribeProgress | shared memory and speech transcripts |
| Frames, Compact | the relay client |
| Archive | archive listings, both ends |
| Location | one location fix through the desktop portal |
| Broker | requests to the helper and tool brokers |
| Bundle | the bundler's dependency worklist |
| Utf8, Speech | proxy credentials, cutting text to speak |
| Options, Collections | shared small definitions |

## Where the code does not do what one would expect

- Burst detection holds up to letter case only. `Bech32Example.BurstMissed` is a string for which a
  change in a window of six goes unnoticed, and `Bech32Laws.BurstDetection` says exactly when.
- A wrong character in the prefix goes unnoticed when the prefix has 1022 characters, or 2045, and so on:
  the two halves of each character are then a full period of the checksum apart, and cancel if they are
  wrong by the same bits. The code sets no limit to the length. `Bech32Prefix.PrefixErrorMissed` is such a
  string, and `Bech32Prefix.PrefixErrorRefusedUnless` the exact condition.
- The trust walk by itself accepts a regular file named with one trailing slash, which POSIX resolution
  refuses. `TrustWalk.FileWithSlashAccepted` is the example, and
  `TrustWalk.TrustedResolvesUnlessFileWithSlash` the exact condition. In the program the `lstat` before
  the walk (`app/main_sandbox.c:248`) refuses such a path.
- A confirmed update may be installed although the app reported a failure:
  `UpdateClient.FailedRepeatStillReplaces` is a run in which a repeated apply cannot be sent and the
  image is replaced all the same. `UpdateClient.TakenBackIffRepeatFailed` says when the app withdraws a
  confirmation, and `UpdateClient.OrderlyExitInstallsIff` when the update is installed nevertheless.
- A staged file that changes between its signature check and the rename is installed unchecked, and one
  that changes behind its fsync is installed unflushed. `UpdateAttempt.UncheckedIsInstalled` is the
  example, and `UpdateStaging.InstalledIsStagedLast` says exactly what is installed.

## Model

| member | source | states |
|---|---|---|
| BitRegroup.ConvertBits | app/bech32.odin:38-67 | the accumulator loop, with its 32-bit shifts and wrap-around, gives exactly the digits of the input number in the new base: padded with zero bits, or refused when a whole digit or a non-zero bit is left over |
| BitRegroup.RegroupRoundTrip | app/bech32.odin:38-67 | bytes survive the trip through padded 5-bit symbols |
| BitRegroup.RegroupRoundTripBack | app/bech32.odin:38-67 | symbols accepted by the unpadded direction are the padded form of the bytes they give |
| BitStream.RegroupKeepsBits | app/bech32.odin:38-67 | the digits that come out spell the same bits as those that went in, first bit first, followed by zero bits only; as many digits as it takes with padding, as many as the bits fill without |
| BitStream.RegroupRefuses | app/bech32.odin:38-67 | without padding a text is refused exactly when a whole digit or a set bit would be left over |
| Bech32Checksum.Polymod | app/bech32.odin:10-23 | the nested loop over generators computes the fold whose laws follow |
| Bech32Checksum.StepLinear | app/bech32.odin:10-23 | one step of the checksum is XOR-linear in the word and the symbol |
| Bech32Checksum.StepBelow | app/bech32.odin:10-23 | a step keeps the word below 2^30 |
| Bech32Checksum.StepInjective | app/bech32.odin:10-23 | a step never maps two words below 2^30 to one (the zero-input step has a trivial kernel) |
| Bech32Checksum.FoldSuperposition | app/bech32.odin:10-23 | the fold is the XOR of what the start word and the values contribute on their own |
| Bech32Checksum.FoldPacks | app/bech32.odin:10-23 | up to six symbols are packed into the word without feedback |
| Bech32Checksum.FoldInjective | app/bech32.odin:10-23 | equal tails of any length cannot make two different words equal again |
| Bech32Checksum.WindowInjective | app/bech32.odin:10-23 | from one word, two windows of six symbols reach the same word only if they are equal |
| Bech32Checksum.BurstChangesFold | app/bech32.odin:10-23 | a burst confined to six consecutive symbols changes the checksum word, whatever precedes and however much follows it |
| ChecksumCycle.ComesRoundIff | app/bech32.odin:10-23 | one symbol in the word and n zero symbols behind it leave one symbol again exactly when n is a multiple of 1023, and then it is the same one |
| ChecksumWords.FoldComesRound | app/bech32.odin:10-23 | the same of the fold over numbers, to which the bit-vector computation is tied |
| Bech32Checksum.ChecksumUnique | app/bech32.odin:69-90 | exactly one six-symbol tail brings the word to 1, and it is the one the encoder appends (BIP-173) |
| Bech32.HrpExpandInto | app/bech32.odin:26-35 | the two loops append, for each character, a high and a low part that together spell it, the low one below 32, with a zero between the parts |
| Bech32.ExpansionSpells | app/bech32.odin:26-35 | in the expansion of a prefix the high and the low part of each character spell it, and a zero stands between the parts |
| Bech32.ChecksumChars | app/bech32.odin:77-89 | shifting and masking the word yields its six base-32 digits as charset characters |
| Bech32.Bech32Encode | app/bech32.odin:69-90 | the encoder gives prefix, separator, regrouped payload and the unique checksum |
| Bech32.CharsetValues | app/bech32.odin:101-110 | the lookup loop gives the charset positions, or fails on the first foreign character |
| Bech32.Bech32Decode | app/bech32.odin:92-119 | the decoder, branch for branch: case, last separator, lengths, charset, checksum, leftover bits |
| Bech32Laws.DecodeOfEncode | app/bech32.odin:69-119 | decode(encode(hrp, data)) gives hrp and data back exactly for the non-empty lower-case ASCII prefixes, for every byte string |
| Bech32Laws.EncodeOfDecode | app/bech32.odin:69-119 | every ASCII string that decodes is, lower-cased, the encoding of what it decodes to |
| Bech32Laws.OneCaseIff | app/bech32.odin:92-96 | the comparison with both foldings refuses exactly the strings with a lower-case and an upper-case letter |
| Bech32Laws.CasesAgree | app/bech32.odin:92-98 | folding to one case forgets exactly what folding to the other does |
| Bech32Laws.BurstDetection | app/bech32.odin:92-119 | after replacing characters in a six-wide window of the data part by charset characters, a valid string still decodes if and only if nothing changed beyond letter case and the case is not mixed |
| Bech32Laws.LowerCaseBurstRejected | app/bech32.odin:92-119 | for lower-case strings every real change in such a window is rejected |
| Bech32Laws.CaseOnlyBurstAccepted | app/bech32.odin:92-119 | the family that slips through: an upper-case string whose letters all lie in the window, lower-cased |
| Bech32Example.BurstMissed | app/bech32.odin:92-119 | a member of that family: 01X0H488 and 01x0h488 both decode, to prefix 0 and no data |
| Bech32Prefix.PrefixErrorRefusedUnless | app/bech32.odin:92-119 | a string that decodes and then has one character of its prefix replaced by another lower-case one is refused, unless the length of the prefix is one less than a multiple of 1023 and both halves of the character are wrong by the same bits; and then it decodes |
| Bech32Prefix.ShortPrefixErrorRefused | app/bech32.odin:92-119 | with a prefix of fewer than 1022 characters every such replacement is refused |
| Bech32Prefix.WrongLetterRefused | app/bech32.odin:92-119 | a letter in place of another is refused whatever the length |
| Bech32Prefix.PrefixErrorMissed | app/bech32.odin:92-119 | a replacement that is accepted: a prefix of 1022 characters @, the first of which becomes a |
| Reply.ImageReply.Buffer | app/decoder_ipc.c:70-94 | every offered write range lies inside its allocation or the caller's capacity, is not empty while bytes are missing, and moves to the stage the fields say |
| Reply.ImageReply.DecoderHeader | app/decoder_ipc.c:95-141 | the header is accepted exactly when the one-shot reading of it is valid for the expected kind |
| Reply.ImageReply.Received | app/decoder_ipc.c:143-161 | counting in received bytes keeps header, page count and payload equal to the stream so far, and refuses exactly when no continuation can be valid |
| Reply.ImageReply.CompleteIsValidReply | app/decoder_ipc.c:163-167 | complete means: the stream is a valid header and exactly the declared payload |
| Reply.NotViableIsFinal | app/decoder_ipc.c:143-161 | a stream the assembler gives up on has no valid continuation |
| Reply.ReceiveAll | app/decoder_ipc.c:69-167 | for every way of cutting the stream into reads the assembler accepts exactly the valid replies, and then its buffer holds exactly the payload |
| ReplyForms.WrittenIsTaken | app/decoder_ipc.c:95-167 | whatever a helper writes as an answer to the question, field by field, is a valid reply whose payload is the data of the answer |
| ReplyForms.ValidIffWritten | app/decoder_ipc.c:95-167 | and nothing else is one: a stream is valid exactly when it is the magic, the two numbers, the size, a page count for a document, and data of an answer that meets the question |
| Reply.ExactArea | app/decoder_ipc.c:121-136 | the 64-bit product of width and height in the header check does not wrap for the dimensions callers allow |
| Transfer.DecoderTransfer | app/decoder_ipc.c:649-749 | success means: nothing was pending beforehand, the whole request went out in order and once, one valid reply and nothing more came back, no turn before the end was late or failed, and the helper ended properly or has nothing pending; it comes whenever the helper sends a valid reply, memory suffices, and the turns let every byte through in time. Bytes that are pending beforehand make it fail before a byte is sent |
| ModelSession.Session.Exchange | app/decoder_ipc.c:955-995 | against any peer: what is sent is, as far as it goes, magic, operation, size, next number and data, and nothing when a guard refuses or bytes are pending; an accepted k-th reply answers that request with its operation and number k, and fits the caller's buffer; one failure ends the session for good; and a reply to the next request is accepted whenever it has room and arrives in time |
| ModelSession.HeaderAsks | app/decoder_ipc.c:971-976 | magic, operation, size and number stand at bytes 0, 4, 8 and 12 of the request, and the data behind them |
| Lockstep.SessionLockstep | app/decoder_ipc.c:955-995 | over every run of client and helper over byte channels: the counters differ by at most the request in flight, the first exchange is OPEN and no other, and each payload was computed from its own request |
| Lockstep.StepKeeps | app/fbx_helper.c:157-253 | each step of either process, with reads and writes of any size, keeps the session invariant |
| Lockstep.BeginsIff | app/decoder_ipc.c:955-976 | a request is put in flight exactly when the guard lets it through and nothing is left over, and then its bytes ask for it under the next number; otherwise the session ends |
| Lockstep.OpenOnceThenPose | app/fbx_helper.c:185-253 | an answered log is one OPEN followed by POSEs on the model it opened |
| Lockstep.NoExchangeAfterFailure | app/decoder_ipc.c:955-995 | after a failure the log of accepted exchanges never grows again |
| Lockstep.LogOnlyGrows | app/decoder_ipc.c:955-995 | accepted exchanges are never lost or changed |
| Lockstep.ExchangeGoesThrough | app/fbx_helper.c:157-253 | a request the helper can answer has a run in which exactly its answer is accepted |
| ArgvQuote.DecoderQuote | app/decoder_ipc.c:256-278 | the in-place quoter writes exactly the quoted form, within 2n+2 characters |
| ArgvQuote.EscapeBound | app/decoder_ipc.c:256-278 | the quoted form of n characters never exceeds 2n+2 |
| ArgvQuote.QuotedReadsBack | app/decoder_ipc.c:256-278 | by the Microsoft C runtime's backslash and quote rules the quoted form of any string parses as one argument equal to it |
| ArgvQuote.BuildCommand | app/decoder_ipc.c:332-352 | the allocated command line always has room for program, argument and terminator |
| ArgvQuote.CommandReadsBack | app/decoder_ipc.c:332-352 | the whole command line parses back into the program path and the argument |
| Paths.ComponentsJoin | app/main_sandbox.c:44-49 | joining texts with a slash joins their components |
| TrustWalk.WalkFollowsResolve | app/main_sandbox.c:125-200 | splicing link targets into the pending text agrees with nested path resolution, one prefix at a time |
| TrustWalk.WalkIsTrustedResolution | app/main_sandbox.c:125-200 | the walk accepts exactly the paths that resolve within 40 expansions over entries that are all trusted, link entries included |
| TrustWalk.ParentText | app/main_sandbox.c:159-167 | cutting the text at its last slash is exact for .. on the resolved prefix |
| TrustWalk.SplicedText | app/main_sandbox.c:175-193 | splicing a target before the rest splices the components and carries the demand for a directory |
| TrustWalk.WalkText | app/main_sandbox.c:143-200 | the loop over the pending text terminates and answers whether the walk goes through; it gives up exactly when a text on the way outgrows PATH_MAX |
| TrustWalk.TrustedAncestors | app/main_sandbox.c:125-200 | the loop terminates; it gives up exactly on a missing working directory or a text that does not fit PATH_MAX, and otherwise its answer is exactly whether the route is trusted |
| TrustWalk.ShortPathsAreAnswered | app/main_sandbox.c:125-200 | a path that leaves room for forty of the longest link texts within PATH_MAX never makes it give up |
| TrustWalk.TrustedResolvesUnlessFileWithSlash | app/main_sandbox.c:125-200 | an accepted path resolves by POSIX rules (section 4.13 of the Base Definitions) if and only if it is not a regular file named with a trailing slash |
| TrustWalk.FileWithSlashAccepted | app/main_sandbox.c:125-200 | such a path exists and the walk by itself accepts it: /f/ for a root-owned file f |
| TrustMeaning.TrustedRouteStays | app/main_sandbox.c:125-200 | a trusted route is out of reach: whatever other users make of the tree by changing what they own, what they may write and everything below, the path leads to the same place over the same entries and is still trusted |
| TrustMeaning.RefusedRouteIsOpen | app/main_sandbox.c:125-200 | a path that resolves is refused only if the root, or an entry on its way, can be changed by others or is neither directory, file nor link |
| Paths.AbsoluteIff | app/main_sandbox.c:131-142 | a text is absolute when it starts with a slash |
| SandboxRules.WithinIsPrefix | app/main_sandbox.c:51-55 | on canonical paths the textual test is the prefix order on components |
| SandboxRules.CoversOverlap | app/main_sandbox.c:51-55 | two directories that cover one path cover each other one way: covers form a chain |
| SandboxRules.RuleTable.Add | app/main_sandbox.c:91-120 | add succeeds exactly when the rule is present already, or fits, is canonical and conflicts with none; otherwise the table is unchanged |
| SandboxRules.AuthorityIsWellDefined | app/main_sandbox.c:91-120 | in a table built by add, two rules that cover a path agree on whether it is writable |
| SandboxRules.AddKeepsAuthority | app/main_sandbox.c:91-120 | adding a rule never changes the authority over a path that was covered |
| SandboxRules.ConflictIff | app/main_sandbox.c:91-120 | two rules conflict when some place lies below both and they disagree on writing to it |
| SandboxRules.NewPathIsAddedIff | app/main_sandbox.c:91-120 | a new path is taken exactly when fewer than 128 rules are there and all rules that share a place with it agree on writing |
| Version.ReadNumber | app/appimage_update_policy.h:12-25 | the digit loop gives the number, or stops before it leaves 64 bits |
| Version.ParseVersion | app/appimage_update_policy.h:7-44 | the field loop accepts exactly the release version grammar with its ranges |
| Version.ParseFieldByField | app/appimage_update_policy.h:7-44 | reading field by field and the grammar agree |
| Version.WrittenParses | app/appimage_update_policy.h:7-44 | a version that is written from a year, month, day and build, with any zeros in front, parses to these four numbers |
| Version.AppImageNewer | app/appimage_update_policy.h:46-58 | answers whether both are release versions and the second is larger at the first field that differs |
| Version.NewerByFirstDifference | app/appimage_update_policy.h:46-58 | newer means: both parse, and there is a field up to which they agree and at which the new version is larger |
| Version.NewerIsStrictOrder | app/appimage_update_policy.h:46-58 | newer is irreflexive, asymmetric, transitive, and total up to equal fields |
| Update.StepKeeps | app/appimage_update.cpp:141-338 | every step of every helper, from its first look at the path to its last fsync, a staged file that changes at any time, a death at any point and a power loss keep the update invariant |
| Update.AcceptableIff | app/appimage_update.cpp:249-264 | a candidate passes when it is signed by the key of the installed image, its version takes fewer than 128 bytes, and the order on versions puts it above the running one |
| Update.StagedMayChange | app/appimage_update.cpp:256-320 | the model lets a staged file change from its download to its rename, and at no other time |
| Update.OneUpdaterAtATime | app/appimage_update.cpp:196-199 | the file locks let at most one helper be between its last look at the path and its rename |
| Update.RenameRecord | app/appimage_update.cpp:307-320 | a rename never happens under another helper that still trusts the replaced image |
| Update.ReplacementIsGuarded | app/appimage_update.cpp:297-320 | the installed path changes only by a rename after the parent exited, over exactly the image the staged file was checked against, whose rollback link is already durable; or by a power loss that forgets the latest rename |
| Update.ChainIncreases | app/appimage_update.cpp:249-264 | along any chain of updates whose images are those that were checked versions strictly increase |
| Update.UpdateSafety | app/appimage_update.cpp:141-338 | after any run of any number of helpers, live and after a power loss: everything that was ever replaced, the original included, has a durable rollback link; an image carries its predecessor's signature unless it was touched behind its signature check or one of the two was ruined; and versions increase along every stretch that was neither touched nor ruined |
| UpdateStaging.InstalledIsWhole | app/appimage_update.cpp:263-265 | while no staged file changes behind its fsync, no power loss at any time ruins a file that the path, live or durable, or a rollback link names |
| UpdateStaging.InstalledIsStagedLast | app/appimage_update.cpp:309-320 | what a helper installs is what was put into its staged file last: the checked image exactly when nothing else was put there between the check and the rename, and then it follows the image it replaces |
| UpdateStaging.UndisturbedUpdates | app/appimage_update.cpp:249-320 | while no staged file changes behind its fsync, everything before the installed image is older and durably linked, and the image carries its predecessor's signature |
| Update.RestartKeeps | app/appimage_update.cpp:314-320 | whatever subset of unsynced directory changes a power loss keeps, and whatever it leaves of unsynced contents, the invariant holds |
| UpdateAttempt.UpdateSucceedsIff | app/appimage_update.cpp:196-320 | a helper left alone replaces the image exactly when the candidate is signed and strictly newer; otherwise it leaves everything as it was |
| UpdateAttempt.UncheckedIsInstalled | app/appimage_update.cpp:309-320 | any image put into the staged file behind the last check of an accepted update is installed |
| UpdateClient.StepKeeps | app/appimage_update_client.c:245-299 | every step of the interface thread, the worker and the helper keeps the client invariant |
| UpdateClient.HelperActsOnlyWhenAsked | app/appimage_update_client.c:355-421 | in every run: the image is replaced only after the app exited and a confirmation was delivered; after wn_appimage_stop a helper that lives has been asked, has acknowledged it and waits |
| UpdateClient.ConfirmedIsNotLost | app/appimage_update_client.c:355-421 | a confirmation that stands is not lost: unless the helper fails by itself it waits for the app to exit, and then replaces the image |
| UpdateClient.TakenBackIffRepeatFailed | app/appimage_update_client.c:396-421 | in every run a delivered confirmation is withdrawn exactly when an apply that repeats it could not be sent |
| UpdateClient.InstalledIsStoodBy | app/appimage_update_client.c:396-421 | without such a repeat only an update the app stands by is installed |
| UpdateClient.AfterFailedRepeat | app/appimage_update_client.c:355-365 | behind such a repeat, whatever happens but a failure of the helper itself: the helper lives on to replace the image when the worker had read its answer, and an app that leaves in good order has killed it when not |
| UpdateClient.OrderlyExitInstallsIff | app/appimage_update_client.c:274-299 | after an orderly exit, unless the helper fails by itself, the update is installed if and only if the app stands by it, or a repeat failed after the worker had read the answer |
| UpdateClient.FailedRepeatStillReplaces | app/appimage_update_client.c:396-407 | such a run: a repeated apply fails to be sent and is reported as a failure, yet the image is replaced on exit |
| UpdateClientStop.StopKillsAtOnce | app/appimage_update_client.c:245-299 | stopping without a standing confirmation: the very next turn of the worker kills the helper and lets the app go on |
| UpdateClientStop.StopEnds | app/appimage_update_client.c:355-365 | stopping never waits in vain: after any run, turns of the helper and the worker alone bring the worker to its end |
| Preview.TrimIsLongest | app/agent_streams.odin:65-73 | the kept text is the longest suffix that fits 256 KiB and starts on a character |
| Preview.TrimFillsTheRoom | app/agent_streams.odin:65-73 | for UTF-8 at most three bytes of the room stay unused |
| Preview.TrimKeepsText | app/agent_streams.odin:65-73 | trimming the encoding of any characters leaves the encoding of characters, cut to within three bytes of the room |
| Preview.TrimAppend | app/agent_streams.odin:65-73 | trimming early and again equals trimming once |
| Preview.AgentPreview.SetText | app/agent_streams.odin:65-73 | the loop over continuation bytes finds that suffix |
| Preview.AgentPreview.Apply | app/agent_streams.odin:76-127 | every update changes the fields as specified |
| Preview.PreviewIsTrimmedTranscript | app/agent_streams.odin:76-127 | for any run of updates the preview equals trimming the last checkpoint and later chunks at once; progress text shows only while there is no answer text, and is trimmed on its own |
| Preview.StoppedIsFrozen | app/agent_streams.odin:76-79 | once final, failed or cancelled the text never changes again |
| Preview.ChangeIsMarked | app/agent_streams.odin:65-143 | whatever changes the text or makes the stream fail marks the preview for redrawing, and a worker that ends leaves it final or failed |
| Preview.FinishedShows | app/agent_streams.odin:115-120 | a finished stream shows the checkpointed answer with its later chunks, or else the text that came with the end |
| IpcHeader.Mapping.Read | app/helper_ipc.c:155-166 | copies exactly the range, or refuses one outside the mapping |
| IpcHeader.Mapping.Store | app/helper_ipc.c:167-185 | writes exactly the range and nothing else, or refuses |
| IpcHeader.CallsAreAtomic | app/helper_ipc.c:170-181 | under every interleaving the header word is the result of the committed writes one after the other |
| IpcHeader.ChangeMeansProgress | app/helper_ipc.c:174-181 | a compare-and-swap that finds a changed word has been overtaken by a commit |
| IpcHeader.ByteIsLastWritten | app/helper_ipc.c:170-181 | each byte has the value of the last committed write covering it: no update is lost |
| IpcHeader.FieldIsNotTorn | app/helper_ipc.c:170-181 | a field every write covers entirely or not at all holds the bytes of a single write |
| IpcHeader.SpeechHeaderIsWhole | app/helper_ipc.c:170-181 | with the writers there are, of a status, a status and length, or a command, under every interleaving: the length is one that a single update wrote, and the command is the last one given |
| Transcribe.Windows | app/stt.c:81-95 | the windows tile the samples, none exceeds 29 seconds, and there are as few as possible |
| Transcribe.LeastWindows | app/stt.c:88-90 | no tiling by windows that fit uses fewer |
| Transcribe.StepKeeps | app/stt.c:113-124 | copying, committing, commands and reading in any interleaving keep the publication invariant |
| Transcribe.PatchCommand | app/stt.c:200-213 | a stop command in the same word never touches status or length |
| Transcribe.ReaderSeesWholeSegments | app/stt.c:113-124 | a reader that copies the announced number of bytes, at any speed, has the transcript up to the end of a segment, and all of it when the header says T |
| Transcribe.LaterLooksExtend | app/stt.odin:412-425 | transcript and announced length only grow, so a later look extends an earlier one |
| Transcribe.LengthOrder | app/stt.c:113-118 | the announced length is the low half of a little-endian number, low byte first |
| Transcribe.WritesAreSpeech | app/stt.c:113-124 | status, length and command are written in the three ways that the theorem about the header asks for |
| TranscribeProgress.JoinIsSpaced | app/stt.c:98-107 | the transcript is the segments with one space between each and the next, when none is empty |
| TranscribeProgress.SegmentGoesThrough | app/stt.c:112-120 | a segment that fits can be published from every reachable state in which one is awaited, without touching a command |
| TranscribeProgress.CommandGoesThrough | app/stt.odin:316-324 | a command that nobody overtakes is in the word after a load and an exchange, and nothing else has changed |
| TranscribeProgress.TranscriptGoesThrough | app/stt.c:81-131 | whatever texts are recognised, if they fit there is a run in which the app reads all of them under a header that says so |
| NodeWorld.CycleHasNoEnd | app/fbx_shim.c:461-464 | a node that is its own ancestor has no chain to a root |
| NodeWorld.Scene.NodeWorld | app/fbx_shim.c:456-474 | terminates on every parent graph; for a node whose chain ends it gives the product along the chain, whatever was asked before, and finished entries never change |
| NodeWorld.Scene.Evaluate | app/fbx_shim.c:505-524 | the matrices of all clusters and triangles on acyclic nodes are those of the plain recursion, whatever the order of questions |
| NodeWorld.WorldCarries | app/fbx_shim.c:466-471 | when matrices act on points, a world transform moves a point by its node, then by the parent, and so on up to the root |
| NodeWorld.SkinCarries | app/fbx_shim.c:510-518 | the matrix of a cluster takes a point into the space of its bone first, and then up the chain of the bone |
| NodeWorld.StaticCarries | app/fbx_shim.c:520-523 | the matrix of a triangle without weights takes it into the space of its node first, and then up the chain |
| FbxWriter.Writer.Bytes | app/fbx_helper.c:26-35 | appends within the buffer and the largest reply, or fails and stays failed |
| FbxWriter.MeasureCounts | app/fbx_helper.c:202-206 | the measuring run counts exactly the bytes of the description, or fails when it has none |
| FbxWriter.EmitFills | app/fbx_helper.c:207-214 | the second run fills a buffer of that size with the description, and fails exactly when a float is not finite |
| FbxWriter.Metadata | app/fbx_helper.c:85-137 | both runs write the same pieces in the documented order |
| FbxWriter.Describe | app/fbx_helper.c:202-214 | the reply to OPEN is the whole description in a buffer of exactly its size, or nothing when the scene cannot be described |
| FbxWriter.FiniteIff | app/fbx_helper.c:43-62 | finite means: the exponent of a float is below 255, that of a double below 2047 |
| FbxDecode.DecodeMetadata | app/fbx.odin:134-221 | the app's decoder, with its loops and its checks for room, gives exactly the scene that the payload can be read as, or nothing |
| FbxReader.ReadsIff | app/fbx.odin:134-221 | a payload is read as a scene if and only if the scene has its counts, lengths, finite numbers, indices, names and references in order and the payload is the helper's description of it |
| FbxReader.SceneArrives | app/fbx_helper.c:85-137 | from the helper to the app: what the helper describes of such a scene is read back as the scene, and it can describe it if there is room |
| Frames.EncodeReads | app/ws_shim.c:139-165 | every frame, masked or not and in any length form, is read back wherever it lies in the stream |
| Frames.ReadsEncode | app/ws_shim.c:139-165 | whatever is read as a frame is the encoding of the result |
| Frames.MessageReads | app/ws_shim.c:135-196 | a stream that starts with the frames of a message yields it and stops on the frame boundary |
| Frames.MessageWasFrames | app/ws_shim.c:135-196 | on any stream, a message that comes out used up whole frames with FIN on the last only, none of them a close |
| Frames.FragmentsArriveWhole | app/ws_shim.c:166-193 | text and continuation fragments within the cap arrive concatenated (sections 5.2 to 5.4 of RFC 6455) |
| Frames.SentTextReads | app/ws_shim.c:97-131 | what send_text emits reads back unchanged |
| Frames.MaskBits | app/ws_shim.c:171-177 | a bit of a masked byte is set exactly when the bits of byte and key differ, and no other byte has these bits |
| Frames.TextOnTheWire | app/ws_shim.c:97-131 | what is sent for a text is exactly what section 5.2 of RFC 6455 demands of its first two bytes, length, key and every bit behind them |
| Frames.WireTextArrives | app/ws_shim.c:135-196 | anything of that form is received as the text, wherever it lies in the stream |
| Frames.Connection.RecvMessage | app/ws_shim.c:135-196 | the loop computes that result on every byte stream, with the bits of masked bytes turned back by their mask key, writes within the cap, and returns -1 exactly when there is no message |
| Frames.Connection.SendText | app/ws_shim.c:97-131 | writes exactly one final text frame with the mask bit, the shortest length form, the mask key, and bytes whose every bit is that of the text, turned where the bit of the key is set |
| Compact.CompactJson | app/ws_shim.c:223-242 | the in-place loop keeps exactly the bytes inside strings and the non-blank bytes outside |
| Compact.CompactKeepsContent | app/ws_shim.c:223-242 | compacting changes neither strings nor structure, and doing it twice changes nothing |
| Compact.CompactIsOneLine | app/ws_shim.c:221-242 | when no string holds a raw line break the result is one line |
| Compact.CompactDropsBlanks | app/ws_shim.c:221-242 | of a message made of strings, white space and other bytes, exactly the white space between strings is taken away, whatever the strings hold |
| Compact.EveryMessage | app/ws_shim.c:221-242 | every message is made of these, up to a string that does not end |
| Archive.ArcOutput.Reserve | app/archive.c:57-76 | growth doubles up to the limit without overflow, keeps the contents, and succeeds when room and memory allow |
| Archive.ArcOutput.Record | app/archive.c:83-107 | appends exactly one record, or changes nothing; both directions of the condition |
| Archive.RecordLayout | app/archive.c:83-107 | a record is position, name length, the size as 64 bits in two's complement lowest byte first, and the name |
| Archive.ArcOutput.ReadList | app/archive.c:138-159 | lists every regular file in order, and succeeds exactly when the archive fits |
| Archive.ArcOutput.Extract | app/archive.c:109-136 | collects the entry whatever the sizes of reads, within 64 MiB and in agreement with a declared size |
| Archive.ParseEntries | app/archive.odin:59-103 | the loop refuses the whole listing on any fault |
| Archive.ParsesExactlyListings | app/archive.odin:59-103 | the parser accepts exactly the serializations of well-formed listings, each as itself |
| Archive.ListedIsOrderly | app/archive.odin:73-99 | well-formed means: increasing positions below 65536, sizes of -1 or more, and names of 1 to 4096 bytes that are valid and hold no zero |
| Archive.ListingWasWritten | app/archive.odin:59-103 | any accepted payload is the serialization of what was returned |
| Archive.RecordsTakeRoom | app/decoder_ipc.c:112-115 | each record takes the 17 bytes the transport check asks for |
| Archive.ListingArrives | app/archive.c:138-202 | what arc_read lists passes the transport header check and parses into exactly the regular entries with their names, 64-bit sizes and indices |
| Location.Request.Receive | app/location.c:38-187 | each callback changes the record as specified |
| Location.PublishedIsJustified | app/location.c:55-69 | over every run: a fix is published only if Start returned, the Response for the returned handle is 0 and the fix was reported for the session that was created |
| Location.PublishedArrived | app/location.c:55-124 | after a success the session, the handle, a grant for it and a signal with exactly the published coordinates, on the globe and for this session, have all arrived |
| Location.FixGetsPublished | app/location.c:55-165 | once the session is there, a grant for the handle and a usable report get the fix published, in whatever order they arrive among other signals |
| Location.OutcomeIgnoresOrder | app/location.c:71-124 | with one answer for the handle, fewer than eight other handles and no closing event the outcome depends only on which events arrived |
| Location.InterleavingsAgree | app/location.c:71-165 | two interleavings of the same events end alike, with the same coordinates |
| Broker.SplitOfFlat | app/helper_broker.c:438-475 | unpacking gives back every vector that was packed |
| Broker.FlatOfSplit | app/helper_broker.c:438-475 | nothing but the packing of a vector unpacks to it |
| Broker.FlatZeros | app/helper_broker.c:767-801 | packed strings hold one zero for each string, the last byte among them |
| Broker.PackHelper | app/helper_broker.c:767-801 | packs path and arguments exactly when number and bytes are within the limits |
| Broker.UnpackHelper | app/helper_broker.c:438-475 | the broker's loop reads the request, or refuses it |
| Broker.PackTool | app/tool_broker.c:499-521 | the same for the tool broker's own limits |
| Broker.UnpackTool | app/tool_broker.c:245-259 | the tool broker's loop reads the request, or refuses it |
| Broker.RoundTrip | app/helper_broker.c:438-475 | in both brokers the broker sees the vector the caller packed |
| Broker.ReceiveChannel | app/helper_broker.c:216-279 | every received descriptor is closed exactly once, and every duplicate is handed on or closed |
| Broker.Launcher.Serve | app/helper_broker.c:576-628 | one turn reaps what exited and serves a request exactly when a slot is free: never more than 128 children |
| Broker.Launcher.Stop | app/helper_broker.c:629-640 | on leaving, every remaining child is waited for exactly once |
| Bundle.JoinSplits | scripts/cross-bundle.js:77-96 | a library copied under its base name is found under it again |
| Bundle.Scan | scripts/cross-bundle.js:82-105 | one file: its dependencies are staged, copied or reported missing, and its search path covers them |
| Bundle.Bundle | scripts/cross-bundle.js:77-114 | the worklist terminates; it succeeds exactly when everything reachable is resolvable; then the bundle is exactly what is reachable, every non-system dependency is in it and on its user's search path |
| Utf8.CredentialValid | app/proxy_credentials.h:9-55 | accepts exactly 1 to 255 bytes of the UTF-8 grammar of section 4 of RFC 3629 |
| Utf8.CharIsEncoding | app/proxy_credentials.h:19-52 | every alternative of the grammar spells a character number up to 10FFFF that is no surrogate, in its shortest form |
| Utf8.EncodingIsChar | app/proxy_credentials.h:19-52 | and the encoding of every such number is one of the alternatives |
| Utf8.CharactersIffText | app/proxy_credentials.h:9-55 | so the bytes that are accepted are the encodings of sequences of characters |
| Utf8.CutHere | app/tts.c:49-53 | cutting before a byte that is no tail cuts between characters |
| Speech.ChunkLength | app/tts.c:34-60 | a piece is the first sentence that ends within 240 bytes; else all that is left when it fits; else the most whole characters that fit, back to the last white space among them |
| Speech.Speak | app/tts.c:164-184 | the pieces cover the text in order; only white space between them is skipped |
| Speech.StopsAre | app/tts.c:36-45 | which characters end a sentence and which are white space, the wide ones by their character numbers |
| Wire.PutGet | app/decoder_ipc.h:38-47 | a little-endian integer that is written is read back |
| Wire.GetPut | app/decoder_ipc.h:38-47 | and reading then writing restores the bytes |
| Wire.PutBits | app/decoder_ipc.h:42-47 | bit j of byte k of a written integer is its bit 8k + j |

## Left out

- Strings in bech32 other than ASCII: the code truncates runes to bytes before the charset lookup.
- Real time: a deadline is a run that stops; process creation, signals, `pledge`, `unveil` and limits are not modelled.
- Allocation failure is a flag or a bound in `Reply`, `ModelSession` and `Archive`, and does not occur elsewhere.
- The Windows transfer loop of `app/decoder_ipc.c`; only its quoting is modelled.
- The trust walk on a tree that changes during the walk; a leading `//` counts as `/`, as on Linux; `lstat` is modelled on prefixes that are real directories, which the walk keeps.
- TrustWalk.TrustedAncestors: says nothing about the route when it gives up, as the code does.
- `desktop_bus`, `downloads` and the other callers of the rule table.
- Staging the helper, the ownership checks of its directories, downloading and relaunching. Images, signatures and metadata are abstract, and inode numbers are not reused while a rollback link keeps an image.
- Update.Step: a power loss keeps or forgets each unsynced directory entry on its own, and leaves anything in place of contents that were not flushed. The checks of a fresh download are one step, since all of them are repeated before the rename; a file that is changed through an open descriptor after its rename is not modelled.
- UpdateClient.Step: lines, commands and the end of a process are single steps, and a send may fail at any time.
- `agent_collect`, `agent_scope` and `agent_reap`: the maps of previews around the one that is modelled.
- Memory ordering: shared memory is sequentially consistent, one byte or header word at a time.
- IpcHeader.Mapping.Store: describes one process alone; the compare-and-swap under interference is the state machine beside it.
- The recognisers, recording and model downloads of the speech helpers; a segment is any text.
- Matrices are abstract and nothing is claimed about nodes above which parents form a cycle, whose transforms depend on the order of questions. Skinning, `fbx_open` and floating point values beyond being finite are not modelled.
- FbxDecode.DecodeMetadata: takes the test for valid UTF-8 names as a parameter; the app's side of a pose, `fbx_apply_pose`, is not modelled.
- FbxWriter.Metadata: the single writes of a header or a texture are one run over a list of pieces.
- Frames.FragmentsArriveWhole: says nothing when control frames come between fragments or a fragment exceeds the cap, where the code returns a later fragment alone; `Frames.MessageReads` gives the exact result then.
- The HTTP upgrade, TLS and the accumulation of relay events in `ws_query`.
- libarchive is a list of headers; Archive.ParseEntries takes the test for valid UTF-8 names as a parameter.
- The choice of an entry by index when one is extracted.
- Portal cleanup calls, and a second fix: the first usable one counts.
- Starting helpers, their environment, proxies, output buffers of the tool broker and dialogs. Broker.UnpackHelper: the per-helper argument counts that follow the unpacking are not modelled.
- Bundle.Bundle: records the search path each file is given instead of rewriting the file; dependencies, file kinds and the system lists are parameters, and paths use `/`.
- Panes, animation, maps and drawing, cryptography and the codecs behind libraries.
