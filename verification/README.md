# Kidi: verified models of its streaming, reading and parsing code

Kidi is a local assistant: a desktop server and a browser exchange speech,
images and books over one WebSocket, a reader opens EPUB files and narrates
translations while they are produced, and a microcontroller accessory streams
camera and microphone packets. This project models the parts of it whose
correctness lies in how many small steps fit together, and proves what those
steps promise as a whole.

`dafny verify dfyconfig.toml` checks everything. Methods follow the source's
loops, branches and field updates; each is proved equal to a specification
function or to a stated property, and the laws are lemmas about those functions
and about whole runs. Many proofs begin with `hide`, which only keeps
definitions that a proof does not need out of the solver's sight.

## What is modelled

**Speech output.** A synthesizer delivers segments. `StreamingAudioJoiner`
trims each one, mixes its start into the tail held back before it and emits
samples; `SpeechSender` cuts them into numbered `KDA1` frames of PCM16; the
browser decodes the frames and checks their numbers. `OverlapAdd` says what the
result should be, without any streaming: the bodies laid out on one timeline.
`Playback.RunTts` connects the two ends.

**Dictation.** `Microphone.Recording` holds a pre-roll until the required run of
speech is complete and then streams. `AsrInput` is the server's side as a state
machine in which frames, the transcription loop, stop and cancellation
interleave freely. `AppSession.Session` is the object that holds the recording
and the upload tables, with the handlers that update them; its invariant is that of
the two state machines, and every handler keeps it.

**Uploads.** Images and books arrive as frames on announced streams, in any
interleaving, and a finishing request may have to wait for them.

**Admission and the voice-prompt cache.** A session gate and a process-wide gate
admit requests; every interleaving of any number of them is covered, and `Sessions`
joins the gates with the recordings they guard. The speech
backend reuses calibrated prompts that an idle reaper may drop at any moment.

**EPUB.** `XmlTags`, `Attributes`, `Entities`, `Utf8` and `Paths` are the hand-written
scanner, decoder and resolver; `Epub` reads manifest and spine with them;
`Documents` and `Books` are printers for documents and for whole books. The main
results are that a written book is read back, whatever else its documents hold, and
what a successful parse of any archive means. A `char` in these modules
stands for one byte.

**Live camera stream.** `LivePackets` checks a packet stream over a source that
returns any amount at a time; `Jpeg` finds an image's size.

**Incremental text.** Streaming Markdown, the reader's speech text, and the
narration of a translation whose blocks complete in any order.

**Two compact algorithms.** The rolling-row word edit distance, and the Q4
packing with its exact reference sum.

## Where the code and its promises part

- A body shorter than the tail held back before it drops the rest of that tail
  (`desktop/app.cpp:135-141`). `OverlapAdd.SampleHeardIff` says of each sample when
  the finished stream depends on it, `OverlapAdd.EverySampleHeardIff` when it does on
  all of them, and `OverlapAdd.ShortBodyDropsTail` shows a loss.
- `web/README-dev.md:146` speaks of a 500 ms pre-roll and the code holds the larger of
  500 ms and the configured speech threshold (`web/ui/app.js:2863`). As the worklet
  posts frames of 20 ms (`web/hosts/desktop/capture-worklet.js:7`), the run that
  confirms speech can be longer than that: `Microphone.WholeRunStreamedIff` has the
  condition on the setting, at most 500 ms or less than 1/16 ms below a whole number of
  frames, and `Microphone.LongThresholdCutsOnset` an example.
- After an input error an ASR request can still report a text if its final snapshot
  is already being transcribed (`desktop/app.cpp:1289-1317`):
  `AsrInput.TextAfterErrorIff` and `AsrInput.LateErrorIsOvertaken`.
- Any text may follow the run of a closing code fence, and backticks may follow an
  opening run of backticks (`web/ui/markdown.js:24-29`); section 4.5 of CommonMark 0.31
  allows neither. `Markdown.ScansAgreeIff` says when the two readings agree,
  `Markdown.ClosedByTextLine` and `Markdown.OpenedByInlineCode` show texts
  after which they do not.
- A reference of more than fifteen characters between '&' and ';' is copied, not
  decoded (`desktop/ebook.cpp:119`), though XML allows leading zeros:
  `Entities.ReferenceDecodedIff`.
- A CDATA section ends for the scanner at its first '>' (`desktop/ebook.cpp:57-62`):
  `Documents.CdataPassedIff` and `Documents.CdataTagReported`.
- Attribute names are compared by the part after the last colon
  (`desktop/ebook.cpp:170`), so a prefixed attribute can stand in for the plain one:
  `Attributes.PlainAnsweredIff` and `Attributes.PrefixedIsAnswered`.
- A name without '=' also consumes the character after it (`desktop/ebook.cpp:162`),
  which well-formed XML does not have: `Attributes.NextStepIff`.
- After a bad upload frame the counter still advances and later frames may be
  appended (`desktop/app.cpp:1440-1446`). Only the error kept with the entry makes
  the finish sound: `Uploads.ReplayExactly` and `Uploads.BadFrameIsFatal`.

## Model

| member | source | states |
|---|---|---|
| Wire.WriteU32 | desktop/app.cpp:862-865 | the four bytes written read back as the value, and no other byte changes |
| Wire.ReadU32 | desktop/app.cpp:867-872 | reads the little-endian value of the four bytes at the offset |
| Wire.U32AtInjective | desktop/app.cpp:862-872 | four bytes and the 32-bit value they stand for determine each other |
| Wire.HeaderLayoutUnique | desktop/README.md:170-180 | the first 24 bytes of a frame are determined by its header fields: there is one way to lay a header out |
| Wire.WriteHeader | web/ui/app.js:1561-1571 | the header written starts the frame with all its fields readable and the reserved bytes zero, leaving the payload alone |
| Wire.Int16RoundTrip | desktop/app.cpp:1416-1418 | two bytes decode to a PCM16 value exactly when they are its low and high byte |
| Wire.PcmRoundTrip | web/ui/app.js:2772-2774 | a byte string holds PCM16 values exactly when it decodes to them |
| Samples.QuantiseIsNearest | desktop/app.cpp:1414-1415 | the PCM16 level sent is a nearest one to the sample, ties going to the even level |
| Samples.QuantiseError | desktop/app.cpp:1414-1415 | a sample in [-1, 1] comes back within 1/32768 |
| Samples.QuantiseExact | desktop/app.cpp:1414-1415 | a sample that is a PCM16 level comes back exactly |
| OverlapAdd.LengthLaw | desktop/app.cpp:134-151 | the joined length is the sum of the body lengths minus the tails held back between them, with no condition on lengths |
| OverlapAdd.PrefixStable | desktop/app.cpp:115-147 | later segments never change what earlier ones gave |
| OverlapAdd.Timeline | desktop/app.cpp:134-146 | if no body is shorter than the tail before it, every output position holds one body's sample or its clamped sum with the next body's, and no third body reaches it |
| OverlapAdd.SampleHeardIff | desktop/app.cpp:134-146 | the finished stream depends on a sample exactly unless it lies in a held-back tail beyond the end of the next body |
| OverlapAdd.EverySampleHeardIff | desktop/app.cpp:134-146 | every sample of every body is heard exactly when no body is shorter than the tail pending before it |
| OverlapAdd.ShortBodyDropsTail | desktop/app.cpp:135-141 | a concrete stream in which a short body makes a sample disappear |
| SpeechOutput.ChunksKeepSound | desktop/app.cpp:1400-1401 | cutting into packets of at most 4096 samples loses, repeats and reorders nothing |
| SpeechOutput.BuildFrame | desktop/app.cpp:1402-1419 | the frame built is exactly the wire form of the packet: its header and its quantised samples |
| SpeechOutput.SpeechSender.SendPacket | desktop/app.cpp:1402-1420 | after each frame the sent frames are still the packets in order, numbered without a gap, also when the socket refuses one |
| SpeechOutput.SpeechSender.SendAudio | desktop/app.cpp:1397-1422 | all samples given are queued as packets after the earlier ones; what goes out is a prefix of them |
| SpeechOutput.SpeechSender.Emit | desktop/app.cpp:1370-1373 | the sound of all packets grows by exactly the emitted samples and the reported count stays their number |
| SpeechOutput.TrimKeepsSpeech | desktop/app.cpp:120-133 | one stretch of the segment is kept; what goes is the padding at both ends, whatever it holds, and otherwise only samples below the silence threshold, and between the paddings the margin around every louder one stays |
| SpeechOutput.StreamingAudioJoiner.ActiveRange | desktop/app.cpp:125-128 | finds the first and last sample that is not quiet within the search window |
| SpeechOutput.StreamingAudioJoiner.Trim | desktop/app.cpp:120-133 | keeps exactly the active range with its margin, or everything when nothing is active |
| SpeechOutput.StreamingAudioJoiner.EmitMixed | desktop/app.cpp:134-142 | emitted sound and remaining body together are the earlier sound with the body laid over its tail |
| SpeechOutput.StreamingAudioJoiner.HoldTail | desktop/app.cpp:143-146 | emitted sound and new tail together gain exactly the body, and the tail has at most a tenth of a second |
| SpeechOutput.StreamingAudioJoiner.Push | desktop/app.cpp:115-147 | refuses exactly a second sample rate, changing nothing; otherwise emitted sound plus tail stays the batch overlap-add of all trimmed segments |
| SpeechOutput.StreamingAudioJoiner.Finish | desktop/app.cpp:149-152 | the sound emitted in all is the batch overlap-add of all segments |
| Playback.HandleAudio | web/ui/app.js:2762-2779 | ignores foreign frames, rejects wrong lengths and decodes the rest to their stream, number, rate and samples |
| Playback.PlaybackStream.Receive | web/ui/app.js:2783-2790 | accepts a frame only if it is the next of its stream, and appends exactly its samples |
| Playback.FrameRoundTrip | web/ui/app.js:2762-2775 | the browser reads from a frame the packet the server built, after PCM16 quantisation |
| Playback.PlayerHearsPackets | web/ui/app.js:2783-2790 | any uninterrupted prefix of frames is accepted in full and heard as the quantised sound of its packets |
| Playback.Listen | web/ui/app.js:2783-2790 | a stream fed any frames has received what the frames say, and of a sender's frames exactly the quantised sound they carry, without failing |
| Playback.RunTts | desktop/app.cpp:1347-1395 | succeeds exactly when synthesis completes and all audible segments share one rate, and then reports the length of the joined speech; in every case what is sent plays back as a prefix of the speech of the segments joined: all of it on success, all but the tail held back on a failure, unless the stream is cut off |
| Playback.PlayedIsFaithful | desktop/app.cpp:1413-1418 | what is heard is within 1/32768 of the joiner's output on [-1, 1] and equal to it on PCM16 levels |
| AsrInput.AcceptedExactly | desktop/app.cpp:1465-1505 | a message leaves the recording without an error exactly when it belongs to an upload, or is the next well-formed frame of the stream and fits both limits; then exactly its samples are appended |
| AsrInput.RunKeepsInv | desktop/app.cpp:1277-1317 | the invariant of receive, snapshot, commit, stop and clean-up steps in every interleaving |
| AsrInput.BufferBounded | desktop/app.cpp:1481-1495 | processed <= samples <= min(480000, processed + queue limit) in every reachable state with a recording |
| AsrInput.ProcessedNeverDecreases | desktop/app.cpp:1298-1303 | within a request the processed count only grows and the buffer only extends |
| AsrInput.PartialsBounded | desktop/app.cpp:1276-1292 | a request emits at most 480000/interval, hence at most 60, partial transcriptions |
| AsrInput.ErrorWins | desktop/app.cpp:1290-1296 | an error outlives a stop: unless a final snapshot is already being transcribed when it arrives, no continuation reports a text |
| AsrInput.TextAfterErrorIff | desktop/app.cpp:1289-1317 | once there is an error, some continuation reports a text exactly when a final snapshot is being transcribed or its text is already the result |
| AsrInput.LateErrorIsOvertaken | desktop/app.cpp:1508-1515 | a concrete run in which a broken message arrives during the final transcription and the text is reported all the same |
| AsrInput.ErrorStays | desktop/app.cpp:1508-1515 | an error once set stays until the recording is dropped, and no step but those of a final transcription leads to a text |
| AsrInput.TextIsGapless | desktop/app.cpp:1293-1317 | a final text transcribes exactly the first frames of the recording, in order, without a gap, including every frame received before the stop |
| Microphone.BuildFrame | web/ui/app.js:2870-2873 | the frame sent is the wire form of the captured values |
| Microphone.Recording.Hold | web/ui/app.js:2887-2892 | after a frame the pre-roll is the longest run of latest frames that fits the limit |
| Microphone.Recording.SendHeld | web/ui/app.js:2897-2901 | the held frames go out in order from number zero: all of them, or as many as the socket takes before it is congested |
| Microphone.Recording.OnPendingFrame | web/ui/app.js:2886-2901 | speech is confirmed exactly when the unbroken run of active frames reaches the threshold; before that nothing is sent |
| Microphone.Recording.OnSpeechFrame | web/ui/app.js:2902-2910 | every later frame is sent next, and the recording ends exactly when the socket is congested |
| Microphone.Recording.OnFrame | web/ui/app.js:2876-2912 | the frames sent stay one contiguous in-order slice of those captured, from the retained frame up to where the socket is congested; the recording ends exactly on congestion or on the voice-mode silence limit |
| Microphone.TriggerUnique | web/ui/app.js:2893-2895 | there is at most one frame that completes the required run |
| Microphone.WholeRunHeldIff | web/ui/app.js:2887-2895 | the run that confirmed speech is held from its first frame on exactly when its samples fit the pre-roll limit |
| Microphone.WholeRunStreamedIff | web/ui/app.js:2855-2895 | with the worklet's frames the run is streamed from its first frame on exactly when the threshold setting is at most 500 ms or less than 1/16 ms below a whole number of frames |
| Microphone.ShortThresholdStreamsWholeRun | web/ui/app.js:2855-2863 | with any frames of at most 20 ms a threshold of at most 480 ms always keeps the whole run |
| Microphone.LongThresholdCutsOnset | web/ui/app.js:2863-2895 | a threshold of 510 ms loses the first frame of the run |
| Microphone.StreamDecodes | desktop/app.cpp:1497-1503 | any prefix of the sent frames decodes to the captured samples from the retained frame on |
| Microphone.MicrophoneToRecogniser | desktop/app.cpp:1475-1504 | if a prefix of what was sent has arrived and no error is set, the recogniser's buffer is exactly the captured samples from the retained frame on, whatever else interleaved |
| AppSession.Session.HandleBinary | desktop/app.cpp:1424-1506 | keeps the session's invariant and both buffer limits: a message advances the upload its header names or the recording, never both, and leaves the recording without an error exactly when it is acceptable, adding exactly its samples |
| AppSession.Session.AppendAudio | desktop/app.cpp:1475-1504 | within both limits before, within both after; and if the buffer was the decoding of all frames received, it still is with this one, or the error is set |
| AppSession.Session.StartImage | desktop/app.cpp:997-1018 | opens an entry exactly for an unused stream, an allowed type and size and an idle session |
| AppSession.Session.FinishImage | desktop/app.cpp:1020-1047 | succeeds exactly when the file could be written and the stream's frames are in order and carry the announced size, and then what is stored is what they carry |
| AppSession.Session.ClearUploadedImages | desktop/app.cpp:1517-1526 | forgets stored images and those under way, and nothing else |
| AppSession.Session.StartEbook | desktop/app.cpp:1049-1061 | opens an entry exactly for an unused stream and an allowed size |
| AppSession.Session.BeginFinishEbook | desktop/app.cpp:1063-1074 | waits exactly when the stream has an entry and nobody waits for it yet |
| AppSession.Session.EndFinishEbook | desktop/app.cpp:1075-1093 | the entry is gone in every case, and what its frames carry is delivered exactly when they are in order and carry the announced size |
| AppSession.Session.StartAudio | desktop/app.cpp:1256-1263 | a request with its lease starts with an empty recording without an error |
| AppSession.Session.ClearAudio | desktop/app.cpp:1265-1272 | a request that returns leaves no recording |
| AppSession.Session.StopAsr | desktop/app.cpp:1330-1345 | only the request named is stopped, keeping its samples, and from its first stop on its text owes every frame received so far |
| AppSession.Session.Snapshot | desktop/app.cpp:1277-1297 | a snapshot decodes all frames received, without a gap, and covers another interval unless it is final; the pass ends exactly on cancellation or an error, and waits only when there is less than an interval |
| AppSession.Session.CommitSnapshot | desktop/app.cpp:1300-1317 | the processed count grows to the snapshot's length and the limits still hold; the text of a final snapshot covers every frame received before the stop |
| AppSession.AppendUpload | desktop/app.cpp:1440-1447 | with one more frame the entry has failed exactly when its frames are out of order or carry too much, and otherwise holds what they carry |
| AppSession.DecodeSamples | desktop/app.cpp:1497-1503 | the loop yields the PCM16 samples of the payload as fractions of full scale |
| Uploads.ReplayExactly | desktop/app.cpp:1440-1462 | an entry has failed exactly when its frames are out of order or carry too much, and otherwise holds what they carry |
| Uploads.RunKeepsInv | desktop/app.cpp:1007-1092 | in every interleaving each entry is what its own frames make of it, and the streams waited for are those being finished |
| Uploads.StorageBounded | desktop/app.cpp:1440-1456 | stored bytes never exceed the announced size, nor that the limit |
| Uploads.EbookDeliveredExactly | desktop/app.cpp:1063-1093 | a waiting finish delivers exactly when its stream's frames are in order and carry the announced size, and then it delivers their payloads end to end |
| Uploads.ImageDeliveredExactly | desktop/app.cpp:1020-1047 | the same for images, which are then stored under their stream |
| Uploads.WaitingEntryStays | desktop/app.cpp:1068-1092 | no other step erases or replaces the entry that a finishing request waits for |
| Uploads.BadFrameIsFatal | desktop/app.cpp:1453-1460 | once a frame was bad, the stream stays failed and its finish refuses, whatever arrives later |
| Uploads.SendBlob | web/hosts/desktop/backend.js:158-171 | the client's frames are numbered without a gap and carry the blob |
| Uploads.BlobReassembles | web/hosts/desktop/backend.js:147-173 | when a blob is announced, its client's frames arrive in order among any other events and a finish is requested, the finish delivers the blob |
| Uploads.ImageReassembles | desktop/app.cpp:1436-1447 | when an image is announced, its client's frames arrive in order among any other events and images are not cleared, its finish delivers and stores the blob |
| Uploads.BadImageFrameIsFatal | desktop/app.cpp:1020-1032 | once a frame of an image was bad it stays failed whatever arrives later, and its finish refuses, drops the upload and stores nothing |
| Admission.ActivityGate.Acquire | tests/kidi/desktop/websocket_test.cpp:19-30 | succeeds exactly when the name is free, and the name is held afterwards |
| Admission.ActivityGate.Release | tests/kidi/desktop/websocket_test.cpp:24-30 | frees the name and no other |
| Admission.RunInference | desktop/app.cpp:1239-1244 | a request alone is refused exactly when a gate is taken, and both gates end as they were on every path |
| Admission.RunKeepsInv | desktop/app.cpp:914-929 | each gate name is held by exactly one request, in every interleaving of admission, work and release |
| Admission.MutualExclusion | desktop/app.cpp:1162-1167 | at most one request per kind works in the process and at most one per session is admitted |
| Admission.TurnedAwayIff | desktop/app.cpp:1239-1243 | a request is turned away exactly when another one holds what it needs |
| Admission.QuiescentIsFree | desktop/app.cpp:918-921 | when all requests are over, both gates are free and no recording is left |
| Admission.RecordingNeedsLease | desktop/app.cpp:1256-1272 | a recording exists only while the ASR request that made it holds both gates, and it is that request's |
| Sessions.BeginFindsNone | desktop/app.cpp:1239-1264 | in every interleaving of requests, gates and recordings, a request about to record finds no recording in its session |
| Sessions.EndDropsOwn | desktop/app.cpp:1265-1272 | a request that returns finds its own recording, and its clean-up by identifier drops exactly that, whatever identifiers clients choose |
| Sessions.RecordingIsLeased | desktop/app.cpp:1239-1272 | a session's recording belongs to a request that holds both gates, and none is left once the session's gate is free |
| Sessions.RunKeepsInv | desktop/app.cpp:1239-1345 | a session holds a recording exactly while one of its requests is live, with that request's identifier and the recording's own invariant |
| VoicePrompts.SpeechBackend.VoicePromptLocked | desktop/app.cpp:812-832 | the prompt is what calibrating the voice afresh gives, whatever language, steps and pace the request has; only a success is stored |
| VoicePrompts.SpeechBackend.Synthesize | desktop/app.cpp:727-742 | a request that succeeds sounds as it would without a cache, and cached prompts stay |
| VoicePrompts.SpeechBackend.WarmUp | desktop/app.cpp:749-756 | succeeds when calibration does, and then the voice's prompt is cached |
| VoicePrompts.SpeechBackend.Evict | desktop/app.cpp:538-545 | the reaper drops the prompts together with the synthesizer |
| VoicePrompts.Serve | desktop/app.cpp:727-756 | over any run of requests, warm-ups and evictions every successful sound is the uncached one |
| XmlTags.FindTag | desktop/ebook.cpp:47-88 | the tag returned is the first of its local name among all start tags from the position on, and the others follow its content; none is returned exactly when none is left |
| XmlTags.ScanToEnd | desktop/ebook.cpp:70-81 | the closing '>' is the first one outside quotes |
| Documents.AttrRead | desktop/ebook.cpp:151-169 | an attribute written with any white space and either quote is read as its name and raw value |
| Documents.AttrsRead | desktop/ebook.cpp:149-173 | from any printed attribute list all attributes are read, in order, and nothing else |
| Documents.DocumentTags | desktop/ebook.cpp:47-88 | scanning a printed document finds exactly its elements' start tags in order, not in comments or other markup, whatever '>' quoted values hold |
| Documents.DocumentPairs | desktop/ebook.cpp:47-88 | for any requested name, what is read of its elements is the attributes written in them |
| Documents.NextTokenIff | desktop/ebook.cpp:47-88 | on any text, what is passed over next is a comment, other markup or a stray '<' up to its own end, and what is reported next is a start tag with its whole name and its attributes up to the first '>' outside quotes |
| Documents.CdataPassedIff | desktop/ebook.cpp:57-62 | wherever it stands, a CDATA section is passed over whole exactly when it holds no '>' |
| Documents.CdataTagReported | desktop/ebook.cpp:57-62 | a tag inside a CDATA section that is reported all the same |
| Attributes.Attribute | desktop/ebook.cpp:149-173 | returns the decoded value of the first attribute of the local name that the text holds, or nothing |
| Attributes.NextStepIff | desktop/ebook.cpp:149-171 | on any text an attribute is read next exactly where a whole name, '=' and a value between equal quotes stand; otherwise what is passed over is a stray character, a name without '=' with the character after it, or a name and '=' without a quote |
| Attributes.PlainAnsweredIff | desktop/ebook.cpp:170-170 | whatever the values, the attribute of exactly the requested name is answered exactly when no prefixed one of that local name stands before it or alone |
| Attributes.PrefixedIsAnswered | desktop/ebook.cpp:170-170 | an attribute list in which a prefixed name is answered in place of the plain one |
| Entities.DecodeXml | desktop/ebook.cpp:110-147 | the loop computes the decoding of the text position by position |
| Entities.Expand | desktop/ebook.cpp:122-143 | a delimited entity becomes its character's UTF-8, or stays as written when it names no scalar value |
| Entities.DecodingUndoesEscaping | desktop/ebook.cpp:110-147 | decoding undoes every mixture of plain characters, predefined entities and numeric references |
| Entities.PredefinedRoundTrip | desktop/ebook.cpp:124-128 | any text escaped by the five predefined entities comes back |
| Entities.NumericRoundTrip | desktop/ebook.cpp:129-139 | any Unicode text written as decimal or hexadecimal references decodes to its UTF-8 |
| Entities.ReferenceDecodedIff | desktop/ebook.cpp:118-122 | a numeric reference of a scalar value is decoded exactly when it is at most fifteen characters long |
| Utf8.AppendUtf8 | desktop/ebook.cpp:90-108 | accepts exactly the Unicode scalar values and appends their encoding |
| Utf8.EncodePattern | desktop/ebook.cpp:92-106 | the encoding has the bit pattern of UTF-8 and its payload bits are the code point |
| Utf8.EncodeShortest | desktop/ebook.cpp:92-106 | the encoding is the unique shortest pattern of its code point (section 3 of RFC 3629) |
| Utf8.EncodingDecodes | desktop/ebook.cpp:90-108 | a concatenation of encodings decodes to its code points |
| Utf8.Characters | desktop/app.cpp:1192-1195 | counts the bytes that are not continuation bytes |
| Utf8.CharactersAreCodepoints | desktop/app.cpp:1192-1195 | on any encoded text that count is the number of code points |
| Paths.DecodePercents | desktop/ebook.cpp:233-245 | the loop decodes every '%' that two more characters follow, and fails when they are no hexadecimal digits |
| Paths.ResolvePath | desktop/ebook.cpp:230-252 | normalising and then testing the text for a leading ".." is the same as running the component stack and failing when it underflows |
| Paths.NormalDecides | desktop/ebook.cpp:248-251 | the normal form starts with ".." exactly when the stack underflows, and is otherwise the stack's path |
| Paths.ResolvesIff | desktop/ebook.cpp:230-252 | a reference resolves exactly when it decodes to acceptable relative text and no beginning of the path has more ".." than names |
| Paths.ResolvedIsNormal | desktop/ebook.cpp:248-251 | what a reference resolves to is a relative path in normal form without ".." |
| Paths.PercentRoundTrip | desktop/ebook.cpp:233-245 | decoding undoes every percent-encoding, whichever bytes it escapes (section 2.1 of RFC 3986) |
| Paths.EncodedResolves | desktop/ebook.cpp:231-247 | an encoded reference with any query or fragment resolves as the bytes it stands for |
| Paths.EveryFileReachable | desktop/ebook.cpp:230-252 | from any file of the archive, the encoded reference that climbs any number of its directories and descends to another file resolves to exactly that file |
| Epub.ReadManifest | desktop/ebook.cpp:301-311 | the loop over find_tag builds the manifest of exactly the item elements of the text, in order |
| Epub.ReadSpine | desktop/ebook.cpp:314-331 | the loop gives the chapters, or the first failure, of exactly the itemref elements in order |
| Epub.ParseEpub | desktop/ebook.cpp:275-332 | for any archive it succeeds with some chapters exactly when container and package are found, every spine reference is in the manifest, every selected file is present, at most 2048 are selected, and those chapters are all the selected references in spine order |
| Epub.ParseIff | desktop/ebook.cpp:301-332 | the same of the specification that fixes every failure, too |
| Epub.ManifestIsFirst | desktop/ebook.cpp:309-310 | the manifest holds an id exactly when an item declares it completely, and then the item of the first that does |
| Epub.SpineIff | desktop/ebook.cpp:316-331 | reading the spine succeeds exactly when every reference is in the manifest, every selected file is present and at most 2048 are selected; the chapters are all HTML references in spine order |
| Epub.PrintedIsRead | desktop/ebook.cpp:303-318 | from any printed package the elements of a name are read as written |
| Books.BookIsRead | desktop/ebook.cpp:275-332 | from any archive whose container and package tell a book, among any other text, elements and attributes, parsing returns the HTML items of its spine in order, with the paths their references climb and descend to |
| Books.BookRoundTrip | desktop/ebook.cpp:275-332 | a book written plainly, with escaped values, percent-encoded references relative to the package and further attributes, is read back |
| LivePackets.LiveSource.ReadExact | accessory/esp32/live.py:124-137 | delivers exactly the next bytes, exactly when there are so many and the replies carry them; it times out only after all replies and disconnects only on Wi-Fi on an empty read |
| LivePackets.CheckExactly | accessory/esp32/live.py:183-220 | the running checks accept a packet exactly when the list of packets with it follows the protocol |
| LivePackets.ReadPacket | accessory/esp32/live.py:178-182 | yields the packet the data has next; refuses a header only if it is invalid, and gives out only with too few bytes or useful replies for that packet |
| LivePackets.Packets | accessory/esp32/live.py:171-223 | what is yielded follows the protocol and re-serialises to the bytes consumed; a protocol error means the next header is invalid or no good stream goes on with the next packet; a complete stream at the start of the data is yielded in full however reads split it, given as many useful replies as bytes |
| LivePackets.HeaderRoundTrip | accessory/esp32/live.py:17-17 | the fields of an accepted header determine its bytes |
| LivePackets.StreamNumbering | accessory/esp32/live.py:195-206 | in every good prefix, complete or interrupted, a camera frame's number is the count of those before it, an audio packet's the count of 20 ms blocks before it and its time stamp 20000 times that |
| LivePackets.VideoNumbering | accessory/esp32/live.py:195-200 | in every good prefix the first camera frame has number 0 and each next one the number after |
| LivePackets.AudioAbuts | accessory/esp32/live.py:201-206 | in every good prefix the first audio packet begins at zero and each next one, in blocks and in microseconds, where the one before it ends |
| LivePackets.CountMedia | accessory/esp32/live.py:238-250 | the counting loop counts camera frames and audio samples of the list |
| LivePackets.SamplesMatchBlocks | accessory/esp32/live.py:190-206 | over every good prefix the samples counted are the blocks times a fiftieth of the rate |
| Jpeg.JpegDimensions | accessory/esp32/live.py:140-168 | terminates on every byte string with all accesses in bounds, computing the marker walk |
| Jpeg.PrintedDimensionsFound | accessory/esp32/live.py:140-168 | for any segments with any fill bytes, a frame header and any remainder ending in EOI, the size is found (sections B.1.1.2 and B.2.2 of ITU-T T.81) |
| Jpeg.WalkReadsGrammar | accessory/esp32/live.py:144-167 | whenever the walk finds a size, what it walked over is segments and a frame header of that size |
| Jpeg.DimensionsIff | accessory/esp32/live.py:140-168 | a size is reported exactly for the images such a printer writes |
| Markdown.FenceMarkIff | web/ui/markdown.js:24-24 | a line is a fence mark exactly when at most three spaces precede a run of at least three backticks or tildes |
| Markdown.OpenFence | web/ui/markdown.js:20-35 | the loop reports the fence open after the last line |
| Markdown.ReportedFenceIsOpen | web/ui/markdown.js:20-35 | the fence reported was opened by the line it names and no later line closes it |
| Markdown.ScansAgreeIff | web/ui/markdown.js:23-33 | fences are read line by line as CommonMark's rules on text after the run say, exactly when no line opens one with backticks after backticks or closes one with text after it |
| Markdown.TextAfterClosingFence | web/ui/markdown.js:24-29 | a line that closes a fence here but not in CommonMark |
| Markdown.BacktickAfterOpeningFence | web/ui/markdown.js:24-27 | a line that opens a fence here but not in CommonMark |
| Markdown.ClosedByTextLine | web/ui/markdown.js:20-35 | a whole text after which no fence is open here, but one is in CommonMark |
| Markdown.OpenedByInlineCode | web/ui/markdown.js:20-35 | a whole text after which a fence is open here, but none is in CommonMark |
| Markdown.StreamingElement.RenderStreamingMarkdown | web/ui/markdown.js:124-163 | whatever was shown before, the element shows this source's parts, and re-renders only when the stable part changed |
| Markdown.ScanSplit | web/ui/markdown.js:23-33 | scanning completed lines and then the rest is scanning the whole |
| Markdown.StablePartGrows | web/ui/markdown.js:136-145 | for every appended text the rendered part only grows |
| Markdown.PartsAreSource | web/ui/markdown.js:136-145 | rendered part, opening fence line and tail concatenate back to the source |
| ReaderText.NormalizeGivesNormal | web/ui/reader-position.js:3-5 | the result has single spaces between words and none around them |
| ReaderText.NormalizeKeepsNormal | web/ui/reader-position.js:3-5 | such a text is left alone |
| ReaderText.BlocksOfJoin | web/ui/reader-position.js:7-13 | a text joined from normal blocks splits into those blocks |
| ReaderText.SpeechTextIdempotent | web/ui/reader-position.js:7-13 | normalising a second time changes nothing |
| ReaderText.SnapToWord | web/ui/reader-position.js:20-22 | the two loops end at the start of the word around the offset, or of the next word from a separator |
| ReaderText.ReaderSpeechSlice | web/ui/reader-position.js:15-24 | speech is the normalised text from the start of the requested word on, with out-of-range and non-finite offsets clamped |
| Narration.ReaderTranslatedText | web/ui/app.js:364-373 | the text is all blocks of the contiguous rows from the anchor, joined |
| Narration.RowsJoin | web/ui/app.js:370-372 | joining the rows' own speech texts is joining all their blocks |
| Narration.TranslatedTextIsNormal | web/ui/app.js:364-373 | the text is its own speech form, so slicing shifts no offset |
| Narration.TranslatedTextGrows | web/ui/app.js:364-373 | in whatever order blocks complete, the text only grows at its end |
| Narration.TranslatedSpeech.constructor | web/ui/app.js:929-967 | narration starts with the text from a word start on |
| Narration.TranslatedSpeech.Sync | web/ui/app.js:653-671 | after every completed block the first speech and all additions together are the whole text so far from the start offset |
| EditDistance.NextRow | benchmarks/cuda/run.py:106-111 | the next row holds the distances of the longer prefix |
| EditDistance.WordErrors | benchmarks/cuda/run.py:105-112 | the last cell is the recursive edit distance of the two texts |
| EditDistance.DistanceAchieved | benchmarks/cuda/run.py:103-112 | some edit script of that cost turns the reference into the transcript |
| EditDistance.DistanceMinimal | benchmarks/cuda/run.py:103-112 | no edit script does it for less |
| EditDistance.DistanceBounds | benchmarks/cuda/run.py:112-112 | the distance lies between the length difference and the longer length |
| EditDistance.DistanceZeroIff | benchmarks/cuda/run.py:112-113 | it is zero exactly for equal texts |
| EditDistance.DistanceSymmetric | benchmarks/cuda/run.py:103-112 | it does not depend on which text is the reference |
| Q4.PackStep | benchmarks/android/vulkan_probe.cpp:163-164 | one step writes its own empty nibble and leaves all others alone |
| Q4.PackRow | benchmarks/android/vulkan_probe.cpp:161-166 | a row's nibbles are packed and its reference value is the exact sum |
| Q4.PackAndReference | benchmarks/android/vulkan_probe.cpp:154-167 | every nibble, sign-extended, is its weight for all rows and channels, and every reference value is exact under any rounding that keeps 24-bit multiples of 2^-9 |
| Q4.ComputedExact | benchmarks/android/vulkan_probe.cpp:165-165 | every partial sum of any grouping of additions is exact |
| Q4.AnyOrderGivesReference | benchmarks/android/vulkan_probe.cpp:157-167 | however additions are ordered and grouped, rounding after each gives the reference value |

## Left out

- Model inference, tokenizers and GPU code: the synthesizer is a deterministic function, transcription only succeeds or fails.
- HTTP, WebSocket and JSON shape checks: requests arrive with their fields already read, a JSON stream number already cut to 32 bits; a channel is the sequence of frames that arrived.
- ZIP reading and its limits: an archive is a map from path to text.
- Clocks: a deadline passes when a source has no more replies, the five-second wait may end at any step, and the idle reaper may evict at any moment between requests; when it does is not claimed.
- Rounding of float samples, NaN and infinities: samples are reals, and only the rounding to PCM16 and the rounding of the Q4 sums are modelled; `size_t` sums that cannot reach 2^64 are unbounded.
- SpeechOutput.SpeechSender.SendPacket: cancellation and a refusing socket are modelled as a number of frames after which they happen, chosen in advance.
- Playback.PlaybackStream.Receive: one stream; the completed flag, segments and playback buffering are not part of this model.
- Microphone.Recording.OnFrame: the activity decision per frame is an input; the energy sum and the worklet that cuts frames are not modelled, and congestion is a frame number after which the socket is full.
- AsrInput.TextIsGapless: the split of a partial result into stable and provisional text is not modelled; the stable part grows by at most one character per pass, so it promises nothing about the final text.
- AppSession.Session.FinishImage: temporary files are their bytes, and writing one may fail.
- AppSession.Session.EndFinishEbook: parsing the delivered archive is `Epub.ParseEpub`, not part of this step.
- VoicePrompts.SpeechBackend.VoicePromptLocked: voice attributes that are not strings, and progress and chunk callbacks, are not modelled.
- Paths.ResolvePath: `parent_path`, `operator/` and `lexically_normal` of std::filesystem are modelled for POSIX paths by their standard definition.
- Epub.ParseEpub: titles, author, language and the fingerprint of a book are not part of this model; they cannot fail.
- LivePackets.Packets: metadata text is understood by a given function; diagnostics are not printed and the end report is not modelled.
- Narration.TranslatedSpeech.Sync: one translation run with a fixed anchor; overlapping runs, which can update shared counters, are not modelled.
- ReaderText.ReaderSpeechSlice: characters are Unicode scalar values, so offsets inside surrogate pairs do not occur.
- Markdown.ScansAgreeIff: of CommonMark only the two rules on the text after a run are compared, not containers, indented code or HTML blocks.
- Markdown.StreamingElement.RenderStreamingMarkdown: rendering of the stable part, sanitising and the DOM are not modelled; the stable part is recorded as rendered.
- Q4.PackAndReference: GPU execution is not modelled; `scales` is the constant it is filled with.
- User interface, settings, Wi-Fi setup, pairing, USB serial, converters and benchmark drivers: plumbing, or members too easy to add anything.
