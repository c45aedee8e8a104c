# Verification models for the recorder and vsftpd

Dafny models of the substantial code in this repository, each proved against what the code is for.
`dafny verify dfyconfig.toml` checks them all.

| files | what they model |
|---|---|
| `Ebml`, `Matroska`, `MatroskaContext`, `MatroskaMux`, `MatroskaWriter`, `MatroskaHeader`, `MatroskaRecording` | the Matroska muxer: growable buffers, contexts, clusters, the duration patch; an independent parser; whole recordings parse back |
| `HashTable`, `Listener` | vsftpd's chained hash tables and the listener's books on its children |
| `Privops`, `PrivChannel` | privileged operations, and the two-process protocol as a state machine that refines the direct calls |
| `FtpSpec`, `FtpSession`, `FtpRules`, `FtpJobs` | the post-login command loop: what a client sees, the session record with its flags and internal checks that implements it, the rules it obeys setting by setting, and the privileged calls it makes |
| `Ascii` | ASCII translation in the transfer loops |
| `Filter` | the file name filter |
| `GlobalFifo` | the blocking FIFO driver as concurrent steps |
| `RtpPacketizer` | NAL units as RTP packets |
| `SignalDispatcher`, `BandwidthLimiter`, `LineReader` | smaller parts of vsftpd |
| `Basics` | shared types |

Code that updates things in place is a class or a method with loops, proved against functions on values;
laws are lemmas about those functions.  What the system answers (malloc, fwrite, fork, waitpid, bind,
accept, peeks, signals) is a parameter or a nondeterministic choice, ordinary failures included.

Where the code does not do what one might expect, the model follows the code and the exact condition is proved:

- Cluster timecodes are stored unsigned: the times of a recording are right exactly when no frame that opens a cluster is before zero (`Finished`, in `MatroskaRecording.Record`); negative frames inside a cluster are harmless (`NegativeInside`).
- A new child that is reaped while `close` is retried, before the pid table knows it, makes the listener hash an address at NULL (standalone.c:249-251, 275), before the bug check meant for it; no bug check fires in any run (`Listener.Run`, `Listener.RaceIsPossible`).
- `port_active` and `pasv_active` would call each other for ever if both were set, so their own check for that can never be reached (`PredicatesReturn`).
- Two ABORs during one transfer are acknowledged once, and that is the only way a command goes without its completion (`OneCompletionEach`); any aborted upload can end as complete, since the handler shuts the data socket down and the next read returns 0, and is then logged as a success but answered with 426 (`ReplyMatchesLog`); EPRT is still taken after EPSV ALL (`EpsvAllStays`).
- The filter never accepts a name that does not match, but loses some that do: without braces it is exact if and only if there is no star, or a star comes last and every piece between stars is a literal followed by single characters only (`Filter.GreedyExact`).  Its callers start the count at zero and it never exceeds the maximum; the clause of `Filter.Passes` on larger counts covers the function alone.
- `FIFO_CLEAR` wakes nobody: a writer is asleep in front of the emptied buffer if and only if it was asleep before (`ClearLosesWriters`); without clears there are no such writers (`NoClearNoLostTask`).
- With `port_promiscuous` a reserved port is granted and then ends the session (`ReservedPortKills`); without it no session can make the server connect to anything but a non-reserved port of the peer (`PortsAreSafe`).
- The rate limiter's bound needs a clock that moves (`StuckWithin`, `StuckAbove`, which give the condition).
- A short NAL unit with a type outside 1 to 23 is sent in a form receivers read otherwise (`SentIsReceived`).

## Model

| member | source | states |
|---|---|---|
| `Ebml.IdRoundTrip` | SimpleRecorder/matroska_ebml.c:125-136 | Every element ID the writer emits is read back as that ID, whatever follows it, and announces its own width |
| `Ebml.SizeRoundTrip` | SimpleRecorder/matroska_ebml.c:138-163 | Every 32-bit size is read back as that known size: in particular no size is ever coded as the reserved all-ones pattern |
| `Ebml.UnknownSizeReads` | SimpleRecorder/matroska_ebml.c:165-178 | The single 0xff byte written for the Segment reads as the reserved unknown size |
| `Ebml.UintRoundTrip` | SimpleRecorder/matroska_ebml.c:256-267 | An integer element has 1 to 8 octets and reads as the value modulo 2^64 |
| `Ebml.ParseSerialized` | SimpleRecorder/matroska_ebml.c:195-215 | Reader against writer for whole trees: serializing well-formed elements and parsing the bytes gives the same elements, so every size field is its body length |
| `Ebml.ParseUnknown` | SimpleRecorder/matroska_ebml.c:165-178 | An element of unknown size takes in everything that follows it |
| `Matroska.BlockRoundTrip` | SimpleRecorder/matroska_ebml.c:433-447 | The SimpleBlock payload reads back with its signed delta, both flags and its data (RFC 9559, section 10.2) |
| `Matroska.ClusterRoundTrip` | SimpleRecorder/matroska_ebml.c:421-449 | A cluster reads back as its frames, at its stored timecode plus each delta |
| `Matroska.HeaderSize` | SimpleRecorder/matroska_ebml.c:99-123 | Unless the caller's strings come within a thousand bytes of 2^31, no header buffer reaches that size |
| `Matroska.ReadBack` | SimpleRecorder/matroska_ebml.c:323-396 | Whole-file round trip: the bytes of a header and any clusters read back as exactly that header tree and exactly those frames in order |
| `Matroska.TimesExact` | SimpleRecorder/matroska_ebml.c:421-431 | For any clusters, readers see the times the encoder meant if and only if none starts before zero, since timecodes are stored unsigned |
| `Matroska.UntimedStored` | SimpleRecorder/matroska_ebml.c:421-449 | Whatever the timecodes, order, flags and payloads are as meant |
| `MatroskaContext.DoubleUntil` | SimpleRecorder/matroska_ebml.c:103-108 | For sizes up to 2^31 the doubling loop ends at a reachable capacity that is large enough, without 32-bit wrap-around |
| `MatroskaContext.DoublingEndsExactly` | SimpleRecorder/matroska_ebml.c:103-108 | From any reachable capacity the 32-bit doubling ends if and only if the size needed is at most 2^31, and then within 27 turns |
| `MatroskaContext.DoubleCapacity` | SimpleRecorder/matroska_ebml.c:106-108 | Below 2^31 a doubling stays within the sizes 16 doubled some number of times |
| `MatroskaContext.SkipZeros` | SimpleRecorder/matroska_ebml.c:262-263 | The index loop drops exactly the leading zero octets, and never the last octet |
| `MatroskaContext.IdBytes` | SimpleRecorder/matroska_ebml.c:125-136 | The byte casts and the choice of width give the coding whose round trip is proved |
| `MatroskaContext.SizeBytes` | SimpleRecorder/matroska_ebml.c:138-163 | The same for sizes: the marker bits land in clear bits |
| `MatroskaContext.HeadBytes` | SimpleRecorder/matroska_ebml.c:439-441 | Two byte casts of a signed delta are its 16-bit two's complement, then the flags |
| `MatroskaContext.MkContext.Grow` | SimpleRecorder/matroska_ebml.c:103-116 | A reallocation keeps the contents and makes room, or changes nothing; it succeeds when realloc does |
| `MatroskaContext.MkContext.Append` | SimpleRecorder/matroska_ebml.c:99-123 | The buffer gains exactly the bytes, or is unchanged; it succeeds when realloc does or is not needed |
| `MatroskaContext.MkContext.WriteUint` | SimpleRecorder/matroska_ebml.c:256-267 | The buffer goes from the first k elements of a list to the first k + 1, unless an allocation fails |
| `MatroskaContext.MkContext.WriteBin` | SimpleRecorder/matroska_ebml.c:238-254 | The same for strings, binary data and the four float bytes |
| `MatroskaContext.MkContext.WriteBlockLead` | SimpleRecorder/matroska_ebml.c:435-442 | Tag, track number, delta and flags of a block are appended, unless an allocation fails |
| `MatroskaContext.MkContext.FillEbml` | SimpleRecorder/matroska_ebml.c:341-347 | The buffer holds exactly the EBML element's children, unless an allocation fails |
| `MatroskaContext.MkContext.FillInfo` | SimpleRecorder/matroska_ebml.c:357-360 | The same for the Info children, a zero Duration last |
| `MatroskaContext.MkContext.FillTrack` | SimpleRecorder/matroska_ebml.c:368-376 | The same for the track entry's leaves, the two optional ones only when present |
| `MatroskaContext.MkContext.FillVideo` | SimpleRecorder/matroska_ebml.c:380-384 | The same for the Video children |
| `MatroskaContext.AddBlock` | SimpleRecorder/matroska_ebml.c:435-447 | Appending a block extends the serialized cluster body by exactly that block's element |
| `MatroskaMux.QuotientIsDivision` | SimpleRecorder/matroska_ebml.c:417 | The quotient used for timestamps is division: the remainder lies between zero and the divisor |
| `MatroskaMux.CloseTracks` | SimpleRecorder/matroska_ebml.c:398-406 | Closing a cluster extends the file by exactly its element and changes no frame |
| `MatroskaMux.ReadyTracks` | SimpleRecorder/matroska_ebml.c:417-431 | Whatever state the frames so far left, the cluster made ready is close enough for a 16-bit delta and no frame is lost |
| `MatroskaMux.BlockTracks` | SimpleRecorder/matroska_ebml.c:433-447 | A block adds exactly its frame at the end of what the state means; no cluster starts before zero exactly if none did and this one does not |
| `MatroskaMux.FlushTracks` | SimpleRecorder/matroska_ebml.c:408-455 | One flushed frame, across both reasons for a new cluster: the state means one more frame, the open cluster stays within CLSIZE, and some cluster starts before zero exactly if one did or this frame opened one at a negative time |
| `MatroskaMux.RunTracks` | SimpleRecorder/matroska_ebml.c:408-466 | Every run: the file and open cluster are well formed and mean exactly the frames of the run, each at timestamp / timescale; no cluster starts before zero exactly if no frame that opened one had a negative time |
| `MatroskaMux.TimedAt` | SimpleRecorder/matroska_ebml.c:417 | Frame by frame: own flags and data, and the timestamp divided by the scale toward zero |
| `MatroskaMux.SplitOnlyWhenNeeded` | SimpleRecorder/matroska_ebml.c:408-455 | A frame joins the open cluster if and only if one is open and its time is within 16 bits; a cluster is closed after a frame only beyond CLSIZE |
| `MatroskaMux.HeadApart` | SimpleRecorder/matroska_ebml.c:417-431 | Which frames open a cluster depends on the frames alone, not on the file |
| `MatroskaMux.NotNegativeUpright` | SimpleRecorder/matroska_ebml.c:417-431 | With no negative timestamp no cluster starts before zero |
| `MatroskaMux.NegativeInside` | SimpleRecorder/matroska_ebml.c:417-431 | That is not necessary: a frame at -1 inside a cluster that starts at 0 reads back right |
| `MatroskaMux.NegativeFirst` | SimpleRecorder/matroska_ebml.c:417-431 | A recording whose first frame is at -1 is one where the condition fails |
| `MatroskaMux.TrackedReadsBack` | SimpleRecorder/matroska_ebml.c:493-514 | With no open cluster the file reads back as the header and those frames; their times too if and only if no frame that opened a cluster had a negative time |
| `MatroskaWriter.MkWriter.CreateContext` | SimpleRecorder/matroska_ebml.c:69-97 | A context comes empty from the free list when there is one, which cannot fail, else from malloc, and goes on the active list |
| `MatroskaWriter.MkWriter.FlushRoot` | SimpleRecorder/matroska_ebml.c:180-193 | The root buffer goes to the file at the current position and is empty afterwards, unless fwrite fails |
| `MatroskaWriter.MkWriter.FlushToParent` | SimpleRecorder/matroska_ebml.c:180-193 | A child's bytes are appended to its parent and gone from the child, unless an allocation fails |
| `MatroskaWriter.MkWriter.FlushId` | SimpleRecorder/matroska_ebml.c:165-178 | The parent gains the ID and an unknown size, and the context loses its ID, unless an allocation fails |
| `MatroskaWriter.MkWriter.CloseContext` | SimpleRecorder/matroska_ebml.c:195-215 | Unless an allocation fails, the parent gains the tag with the exact body length, then the body; the offset reported is the parent length between the two; the context moves from the active to the free list |
| `MatroskaWriter.MkWriter.constructor` | SimpleRecorder/matroska_ebml.c:295-321 | A new writer is valid and has recorded nothing |
| `MatroskaWriter.MkWriter.EndElement` | SimpleRecorder/matroska_ebml.c:195-215 | A context that holds the body of an element leaves exactly that element in its parent, unless an allocation fails |
| `MatroskaWriter.MkWriter.WriteEbml` | SimpleRecorder/matroska_ebml.c:339-348 | The EBML element is appended, unless an allocation fails |
| `MatroskaWriter.MkWriter.WriteSegment` | SimpleRecorder/matroska_ebml.c:350-353 | The Segment tag of unknown size is appended, and nothing else, unless an allocation fails |
| `MatroskaWriter.MkWriter.WriteInfo` | SimpleRecorder/matroska_ebml.c:355-362 | The Info element is appended and duration_ptr is the offset of its Duration payload, unless an allocation fails |
| `MatroskaWriter.MkWriter.WriteVideo` | SimpleRecorder/matroska_ebml.c:378-385 | The Video element is appended to the track entry, unless an allocation fails |
| `MatroskaWriter.MkWriter.WriteTrackEntry` | SimpleRecorder/matroska_ebml.c:366-387 | The TrackEntry element with its Video element is appended, unless an allocation fails |
| `MatroskaWriter.MkWriter.WriteTracks` | SimpleRecorder/matroska_ebml.c:364-389 | The Tracks element is appended, unless an allocation fails |
| `MatroskaWriter.MkWriter.BuildHeader` | SimpleRecorder/matroska_ebml.c:339-389 | The root buffer holds exactly the header bytes, and duration_ptr their Duration offset, unless an allocation fails |
| `MatroskaWriter.MkWriter.WriteHeader` | SimpleRecorder/matroska_ebml.c:323-396 | The first call leaves a valid writer on that header unless an allocation or the write fails; a second call is refused |
| `MatroskaWriter.MkWriter.CloseCluster` | SimpleRecorder/matroska_ebml.c:398-406 | The open cluster becomes one element at the end of the file and its context is recycled, unless an allocation or a write fails |
| `MatroskaWriter.MkWriter.CreateTimed` | SimpleRecorder/matroska_ebml.c:424-428 | A cluster context that holds just its Timecode, on the active list, unless an allocation fails |
| `MatroskaWriter.MkWriter.OpenCluster` | SimpleRecorder/matroska_ebml.c:421-431 | A cluster with just its Timecode is open, unless an allocation fails |
| `MatroskaWriter.MkWriter.ReadyCluster` | SimpleRecorder/matroska_ebml.c:417-431 | A cluster is open and the delta to its timecode fits 16 bits, unless an allocation or a write fails |
| `MatroskaWriter.MkWriter.AppendBlock` | SimpleRecorder/matroska_ebml.c:433-449 | The pending frame is in the cluster and no longer pending, unless an allocation fails |
| `MatroskaWriter.MkWriter.FlushFrame` | SimpleRecorder/matroska_ebml.c:408-455 | The pending frame, if any, joins the recorded frames and the writer stays valid, unless an allocation or a write fails |
| `MatroskaWriter.MkWriter.StartFrame` | SimpleRecorder/matroska_ebml.c:457-466 | The previous frame is recorded and an empty one with cleared flags is pending, unless an allocation or a write fails |
| `MatroskaWriter.MkWriter.SetFrameFlags` | SimpleRecorder/matroska_ebml.c:468-479 | Time and flags of the pending frame are set and the maximum kept up; refused outside a frame |
| `MatroskaWriter.MkWriter.AddFrameData` | SimpleRecorder/matroska_ebml.c:481-491 | Inside a frame it gains exactly the bytes unless an allocation fails; refused outside a frame |
| `MatroskaWriter.MkWriter.CloseFrames` | SimpleRecorder/matroska_ebml.c:496 | Everything recorded is in the file, unless an allocation or a write fails |
| `MatroskaWriter.MkWriter.PatchDuration` | SimpleRecorder/matroska_ebml.c:498-508 | Four bytes at duration_ptr are overwritten through the empty root buffer, and nothing else, unless an allocation or a write fails |
| `MatroskaWriter.MkWriter.Close` | SimpleRecorder/matroska_ebml.c:493-514 | The file is a complete recording of the header with its final duration and of every frame, unless an allocation or a write fails |
| `MatroskaWriter.HeaderAround` | SimpleRecorder/matroska_ebml.c:355-362 | duration_ptr is the absolute file offset of the Duration payload |
| `MatroskaWriter.PatchedFile` | SimpleRecorder/matroska_ebml.c:493-514 | The patch turns the zero-duration file into the finished one and leaves the rest of the parsed file as it was |
| `MatroskaRecording.Step` | SimpleRecorder/matroska_ebml.c:457-491 | Any one client call moves the writer as the call semantics say, refused calls included, unless an allocation or a write fails |
| `MatroskaRecording.Play` | SimpleRecorder/matroska_ebml.c:457-491 | So does any sequence of client calls |
| `MatroskaRecording.Record` | SimpleRecorder/matroska_ebml.c:295-514 | Whole runs: header, any sequence of frame calls, close.  When no allocation or write fails the run succeeds, and whenever it succeeds the file reads back: under the IDs of the format the header holds the arguments and the fixed values (`MatroskaHeader.HeaderSays`), and then come exactly the frames the calls describe, at their own times if and only if no frame that opened a cluster had a negative time |
| `MatroskaHeader.HeaderRight` | SimpleRecorder/matroska_ebml.c:323-396 | A reader that searches the header tree by element ID finds there what the arguments ask for |
| `MatroskaHeader.EbmlRight` | SimpleRecorder/matroska_ebml.c:339-348 | EBML versions 1 and 1, ID length 4, size length 8, document type "matroska", versions 2 and 2 |
| `MatroskaHeader.InfoRight` | SimpleRecorder/matroska_ebml.c:355-362 | The muxing and writing applications, the timestamp scale and the duration are found under their IDs |
| `MatroskaHeader.TrackRight` | SimpleRecorder/matroska_ebml.c:364-376 | Track 1 of type 1 with its codec; CodecPrivate is there if and only if it is not empty, DefaultDuration if and only if it is not zero |
| `MatroskaHeader.VideoRight` | SimpleRecorder/matroska_ebml.c:378-385 | Width under 0xb0 and height under 0xba, display width, height and units under theirs |
| `MatroskaRecording.FrameIs` | SimpleRecorder/matroska_ebml.c:457-491 | A frame holds the data given since its start, with the timestamp and flags of the last flags call since, and the frames before it are done |
| `MatroskaRecording.FramesAreCalls` | SimpleRecorder/matroska_ebml.c:457-491 | There are as many frames as calls that start one, and together they hold all data given after the first start |
| `MatroskaRecording.StampIsLast` | SimpleRecorder/matroska_ebml.c:457-479 | A frame without a flags call keeps the timestamp set last |
| `MatroskaRecording.MaxIsLargest` | SimpleRecorder/matroska_ebml.c:468-479 | The duration is reckoned from the largest timestamp set in a frame, or from zero |
| `HashTable.Table.constructor` | vsftpd-2.3.4/hash.c:35-49 | A new table is the empty map |
| `HashTable.Table.Find` | vsftpd-2.3.4/hash.c:119-146 | The chain walk ends and finds the node of the key exactly when the key is in the map; the bad-bucket check fires exactly for an out-of-range hash |
| `HashTable.Table.Lookup` | vsftpd-2.3.4/hash.c:51-60 | The value of the key in the map, if any |
| `HashTable.Table.Add` | vsftpd-2.3.4/hash.c:62-90 | The map gains exactly that entry; the bug check fires exactly for a duplicate key or a bad bucket |
| `HashTable.Table.Free` | vsftpd-2.3.4/hash.c:92-118 | The map loses exactly that key, be its node first, middle or last; the bug check fires exactly for an absent key |
| `HashTable.Table.Store` | vsftpd-2.3.4/standalone.c:228 | A write through a looked-up pointer changes that key's value and no other |
| `HashTable.Table.InsertedValid` | vsftpd-2.3.4/hash.c:80-89 | Relinking at the head keeps prev and next inverse and every chain in order |
| `HashTable.Table.RemovedValid` | vsftpd-2.3.4/hash.c:103-115 | Joining the neighbours of a freed node keeps them so |
| `HashTable.Table.OneNodePerKey` | vsftpd-2.3.4/hash.c:62-146 | Following next from a bucket meets each key of that bucket once, and no other key |
| `Listener.HashIp` | vsftpd-2.3.4/standalone.c:266-283 | Every address hashes to an existing bucket |
| `Listener.HashPid` | vsftpd-2.3.4/standalone.c:285-290 | Every pid hashes to an existing bucket |
| `Listener.ChildrenFit` | vsftpd-2.3.4/standalone.c:149-153 | There are too few pids for any counter of children to wrap around |
| `Listener.ArrivalBalances` | vsftpd-2.3.4/standalone.c:292-310 | Counting a connection before its child exists keeps the counts exact up to that connection |
| `Listener.ForkBalances` | vsftpd-2.3.4/standalone.c:173-176 | Entering the child balances the books |
| `Listener.FailureBalances` | vsftpd-2.3.4/standalone.c:177-182 | So does undoing the count when fork fails |
| `Listener.ReapBalances` | vsftpd-2.3.4/standalone.c:235-255 | So does dropping a reaped child, whose address is always counted |
| `Listener.WithinForked` | vsftpd-2.3.4/prelogin.c:65-86 | A child that passes check_limits keeps both limits for the sessions that passed; one that does not is never among them |
| `Listener.LetInMeans` | vsftpd-2.3.4/prelogin.c:65-105 | Counted in itself, a connection passes check_limits if and only if it found a place left of each kind |
| `Listener.CloseRace` | vsftpd-2.3.4/standalone.c:169-176 | Reaping while close is retried hits an unknown pid exactly when the new child is among the reaped |
| `Listener.Listener.HandleIpCount` | vsftpd-2.3.4/standalone.c:292-310 | The address count goes up by one and is returned; no check fires |
| `Listener.Listener.DropIpCount` | vsftpd-2.3.4/standalone.c:212-233 | The count goes down by one and its entry goes at zero; a bug check fires exactly when the count is missing or zero; without an address NULL is read |
| `Listener.Listener.Forget` | vsftpd-2.3.4/standalone.c:248-252 | Both tables lose the child; for an unknown pid the NULL its lookup returns is hashed, and no bug check fires in any case |
| `Listener.Listener.ReapOne` | vsftpd-2.3.4/standalone.c:243-253 | One reaped child leaves balanced books; an unknown one ends in the NULL read |
| `Listener.Listener.HandleSigchld` | vsftpd-2.3.4/standalone.c:235-255 | Any number of reaped children leaves balanced books and the limits; it ends in the NULL read exactly when one is unknown |
| `Listener.Listener.Open` | vsftpd-2.3.4/standalone.c:149-153 | The launch record holds the exact number of children and of children at this address, the new one included |
| `Listener.Listener.Undo` | vsftpd-2.3.4/standalone.c:177-182 | After a failed fork the books are as before the connection; no check fires |
| `Listener.Listener.Enter` | vsftpd-2.3.4/standalone.c:173-176 | The child is in the pid table and the books balance; no check fires |
| `Listener.Listener.Settle` | vsftpd-2.3.4/standalone.c:168-183 | After fork and close: the books, and a session that is served if and only if TCP wrappers allow it and the launch record passes |
| `Listener.Listener.Serve` | vsftpd-2.3.4/standalone.c:149-183 | One connection: the NULL read exactly in the close race, else books and limits hold, and a new child is served if and only if it is allowed and fewer children than either limit were unreaped when the connection came |
| `Listener.Listener.Accept` | vsftpd-2.3.4/standalone.c:137-196 | One turn of the accept loop, reaping included; the sessions served are those served before, less the reaped, and the new one if it found room |
| `Listener.Listener.Ask` | vsftpd-2.3.4/standalone.c:149-153 | The counter and the entry of any address, read off balanced books |
| `Listener.Run` | vsftpd-2.3.4/standalone.c:137-196 | Over all runs: no bug check ever fires; an address at NULL is read if and only if some new child is reaped while close is retried; otherwise s_children is the number of unreaped children, each address has an entry exactly when it has children and that entry counts them; a child not yet reaped is served if and only if it is allowed and its own connection found fewer unreaped children than max_clients and, from its address, than max_per_ip; so both limits hold |
| `Listener.ServedExactly` | vsftpd-2.3.4/prelogin.c:65-105 | The same for each arrival of a run whose child has not been reaped since |
| `Listener.RaceIsPossible` | vsftpd-2.3.4/standalone.c:173-176 | After any possible run, any connection whose fork succeeds can be raced that way |
| `Privops.PortIsPeer` | vsftpd-2.3.4/postlogin.c:962-979 | With port_promiscuous off, the accepted address is the peer's own, so connecting to the peer is connecting where the client asked, exactly when both ends share family and scope; the port is not reserved |
| `Privops.PasvRange` | vsftpd-2.3.4/privops.c:121-142 | The configured port range is non-empty and above the reserved ports |
| `Privops.ScaledInRange` | vsftpd-2.3.4/privops.c:148-154 | Every random draw lands in the range |
| `Privops.ScaledOnto` | vsftpd-2.3.4/privops.c:148-154 | Every port of the range is drawn by some pair of bytes |
| `Privops.AttemptMeans` | vsftpd-2.3.4/privops.c:144-177 | The retry loop settles on the first try that is not an address in use, within nine tries, and dies in every other case |
| `Privops.Session.GetFtpPortSock` | vsftpd-2.3.4/privops.c:34-93 | Result and deaths of the active connect, its bind retry included |
| `Privops.Session.PasvCleanup` | vsftpd-2.3.4/privops.c:95-103 | Nothing listens afterwards |
| `Privops.Session.PasvListen` | vsftpd-2.3.4/privops.c:115-179 | A listening socket on a port of the configured range, or death, as the retries say |
| `Privops.Session.AcceptPasv` | vsftpd-2.3.4/privops.c:181-209 | Only a connection from the control connection's peer is handed out unless pasv_promiscuous is on; -1 and -2 otherwise |
| `Privops.Session.DoFileChown` | vsftpd-2.3.4/privops.c:211-237 | Exactly three cases: a file that already has the wanted owner is left alone; a regular file of the anonymous or guest user changes owner when one is configured; anything else is death |
| `PrivChannel.IntRoundTrip` | vsftpd-2.3.4/privsock.c:193-213 | A 32-bit int survives its four bytes |
| `PrivChannel.RequestTold` | vsftpd-2.3.4/postprivparent.c:45-79 | The parent understands a request when its last item arrives and not before, and hears of PORT only the port |
| `PrivChannel.ReplyTold` | vsftpd-2.3.4/twoprocess.c:207-280 | The child understands a reply when its last item arrives and not before, with the same value |
| `PrivChannel.DirectProper` | vsftpd-2.3.4/oneprocess.c:128-163 | Every operation returns a value its reply can carry |
| `PrivChannel.ChildKeeps` | vsftpd-2.3.4/twoprocess.c:207-280 | Every step of the child keeps what is under way intact and the end of the session unchanged |
| `PrivChannel.ParentKeeps` | vsftpd-2.3.4/postprivparent.c:45-173 | So does every step of the parent |
| `PrivChannel.NoDeadlock` | vsftpd-2.3.4/twoprocess.c:207-280 | Both processes are blocked exactly when all calls have returned or both have died |
| `PrivChannel.RunEnds` | vsftpd-2.3.4/twoprocess.c:207-280 | No schedule keeps the processes busy beyond a fixed number of steps |
| `PrivChannel.TwoProcessesAreOne` | vsftpd-2.3.4/oneprocess.c:128-163 | Refinement: under every interleaving the calls return what the direct calls return, the listening state and the deaths are the same, and both directions are empty between calls |
| `PrivChannel.CallsAnswerRight` | vsftpd-2.3.4/privops.c:34-237 | Direct calls from the start: PasvActive answers 1 exactly after a PasvListen that no PasvCleanup followed, PasvListen the port of the first good try, PasvAccept and the active connect a descriptor exactly when somebody allowed connects or the address answers; as many answers as calls unless one dies |
| `PrivChannel.TwoProcessesAnswerRight` | vsftpd-2.3.4/twoprocess.c:207-280 | So with the parent, under every interleaving and at every moment of it |
| `PrivChannel.AcceptedPortIsLegal` | vsftpd-2.3.4/postlogin.c:965-979 | What handle_port and handle_eprt accept makes the PORT call equivalent exactly when the connection's ends share family and scope |
| `FtpSpec.StaysExclusive` | vsftpd-2.3.4/postlogin.c:574-575 | Every command keeps PORT and PASV from both being set up |
| `FtpSpec.SetupIsUsedUp` | vsftpd-2.3.4/postlogin.c:1136-1138 | A data connection needs PORT or PASV, every attempt uses it up, refused ones included, and without it a transfer command gets 425 |
| `FtpSpec.OneCompletionEach` | vsftpd-2.3.4/postlogin.c:1428-1437 | Whole sessions, die() included: the completing replies are never more than the commands, out-of-band ones and the last one included, and as many if and only if no transfer is aborted twice |
| `FtpSpec.ExchangeCompletes` | vsftpd-2.3.4/postlogin.c:1428-1437 | One exchange: every command in it is completed once, except that all aborts of a transfer share one reply |
| `FtpSpec.ReplyMatchesLog` | vsftpd-2.3.4/postlogin.c:1113-1134 | 226 and a success line in the log go together, except for an upload the client aborted |
| `FtpSpec.OneShots` | vsftpd-2.3.4/postlogin.c:1235-1324 | A restart position serves one transfer command, a name from RNFR one rename; a rename succeeds only with such a name, and is what the log records |
| `FtpSpec.EpsvAllStays` | vsftpd-2.3.4/postlogin.c:561-565 | One command after EPSV ALL: PASV and PORT are refused, EPRT is answered as before |
| `FtpSpec.AlwaysExclusive` | vsftpd-2.3.4/postlogin.c:494-529 | In no session are PORT and PASV both set up |
| `FtpSpec.EveryTransferIsSetUp` | vsftpd-2.3.4/postlogin.c:1849-1856 | In every session each data connection has its own granted PORT or PASV, not taken down since by a transfer, a failed attempt or a refused address |
| `FtpSpec.ActiveExactly` | vsftpd-2.3.4/postlogin.c:494-529 | At every point of a session a data connection can be made if and only if the replies so far granted a setup and have not taken it down |
| `FtpSpec.DeathsExact` | vsftpd-2.3.4/privops.c:34-237 | A command ends the session in die() if and only if: PASV, and none of its nine tries gets a port before one fails otherwise; or a transfer command that gets as far, with a reserved PORT or no bind in two tries, or an upload whose owner may not be changed |
| `FtpSpec.PortsAreSafe` | vsftpd-2.3.4/postlogin.c:965-978 | Unless port_promiscuous is set, in every session the address set up by PORT or EPRT is the peer's and its port not reserved |
| `FtpSpec.DeathsWhenSafe` | vsftpd-2.3.4/privops.c:45-48 | Then the check for reserved ports never ends a session |
| `FtpSpec.ReservedPortKills` | vsftpd-2.3.4/privops.c:45-48 | With port_promiscuous a reserved port is granted with 200 and the next LIST ends the session with 500 |
| `FtpSpec.EpsvAllForGood` | vsftpd-2.3.4/postlogin.c:561-565 | Whole sessions: once EPSV ALL has been granted every later PASV and PORT gets 550 |
| `FtpSpec.EveryRenameIsNamed` | vsftpd-2.3.4/postlogin.c:1251-1324 | Whole sessions: each rename has its own granted RNFR, the last one before it |
| `FtpSpec.EveryRenameIsLogged` | vsftpd-2.3.4/postlogin.c:1284-1324 | Whole sessions: as many renames are logged as were made |
| `FtpSession.Session.constructor` | vsftpd-2.3.4/postlogin.c:83-112 | A fresh session is ready |
| `FtpSession.Session.Die` | vsftpd-2.3.4/utility.c:15-43 | The client is told 500 before the session ends |
| `FtpSession.Session.StartEntry` | vsftpd-2.3.4/logging.c:72-89 | A log entry is opened; the check fires exactly when one is open already |
| `FtpSession.Session.DoLog` | vsftpd-2.3.4/logging.c:114-120 | The open entry is logged and closed |
| `FtpSession.Session.PortActive` | vsftpd-2.3.4/postlogin.c:494-507 | Ends and says whether PORT is set up, given that not both are; its own check is unreachable |
| `FtpSession.Session.PasvActive` | vsftpd-2.3.4/postlogin.c:509-529 | The same for PASV |
| `FtpSession.Session.Cleanup` | vsftpd-2.3.4/postlogin.c:531-548 | Neither is set up afterwards |
| `FtpSession.Session.DataTransferChecksOk` | vsftpd-2.3.4/postlogin.c:1849-1866 | Refuses with 425 or 522 exactly when the specification bars the transfer |
| `FtpSession.Session.InitDataSock` | vsftpd-2.3.4/ftpdataio.c:215-234 | The descriptor and the I/O handler are in place; each check fires exactly when one was there already |
| `FtpSession.Session.DisposeTransferFd` | vsftpd-2.3.4/ftpdataio.c:55-95 | Both are gone; each check fires exactly when one was missing |
| `FtpSession.Session.HandleSigurg` | vsftpd-2.3.4/postlogin.c:1355-1396 | ABOR sets the flag, anything else gets 500, and without a data connection nothing happens |
| `FtpSession.Session.CheckAbor` | vsftpd-2.3.4/postlogin.c:1428-1437 | The flag is cleared and acknowledged once |
| `FtpSession.Session.GetRemoteTransferFd` | vsftpd-2.3.4/postlogin.c:1398-1426 | 150 and an open data connection, or 425, or death with its 500, as the specification says; the check fires exactly when nothing is set up |
| `FtpSession.Session.MoveData` | vsftpd-2.3.4/postlogin.c:731-768 | After the transfer: one log line on success, the final reply, the ABOR reply, and no trace of the connection |
| `FtpSession.Session.OpenToRead` | vsftpd-2.3.4/postlogin.c:653-697 | The file checks of RETR; a directory is refused without a log line |
| `FtpSession.Session.OpenToWrite` | vsftpd-2.3.4/postlogin.c:1015-1045 | The file checks of an upload |
| `FtpSession.Session.StoreData` | vsftpd-2.3.4/postlogin.c:1054-1143 | The upload once its file is open, the change of owner included |
| `FtpSession.Session.HandleRetr` | vsftpd-2.3.4/postlogin.c:631-770 | RETR does what the specification says |
| `FtpSession.Session.HandleStore` | vsftpd-2.3.4/postlogin.c:990-1144 | STOR, APPE and STOU do |
| `FtpSession.Session.HandleList` | vsftpd-2.3.4/postlogin.c:778-920 | LIST and NLST do |
| `FtpSession.Session.HandlePasv` | vsftpd-2.3.4/postlogin.c:550-629 | PASV does |
| `FtpSession.Session.HandleEpsv` | vsftpd-2.3.4/postlogin.c:557-574 | EPSV does |
| `FtpSession.Session.HandlePort` | vsftpd-2.3.4/postlogin.c:945-982 | PORT and EPRT do: a rejected address is not kept |
| `FtpSession.Session.HandleFile` | vsftpd-2.3.4/postlogin.c:1146-1233 | MKD, RMD, DELE and SITE CHMOD do |
| `FtpSession.Session.HandleRnfr` | vsftpd-2.3.4/postlogin.c:1251-1282 | RNFR does |
| `FtpSession.Session.HandleRnto` | vsftpd-2.3.4/postlogin.c:1284-1324 | RNTO does |
| `FtpSession.Session.Dispatch` | vsftpd-2.3.4/postlogin.c:177-441 | Every command does what the specification says, gating included |
| `FtpSession.Session.Execute` | vsftpd-2.3.4/postlogin.c:112-446 | One turn of the loop: whatever entry is left open is logged as a failure, and the session is ready again |
| `FtpSession.Serve` | vsftpd-2.3.4/postlogin.c:83-447 | Over all command sequences the client hears, die() included, and the log records exactly what the specification tells, and no internal check ever fires |
| `FtpRules.NoWriting` | vsftpd-2.3.4/postlogin.c:218-292 | Whole sessions with write_enable off: STOR, APPE, STOU, MKD, RMD, DELE, RNFR and RNTO get 550 and no log line, SITE CHMOD 500 or 550 |
| `FtpRules.AnonymousNeeds` | vsftpd-2.3.4/postlogin.c:218-292 | Without anon_upload no anonymous STOR or STOU, without anon_other_write no APPE, RMD, DELE, RNFR or RNTO, without anon_mkdir no MKD; never SITE CHMOD |
| `FtpRules.Switches` | vsftpd-2.3.4/postlogin.c:197-330 | RETR needs download_enable, LIST, NLST and STAT dirlist_enable, PASV and EPSV pasv_enable, PORT and EPRT port_enable, SITE CHMOD chmod_enable |
| `FtpRules.FileCommands` | vsftpd-2.3.4/postlogin.c:1146-1233 | With the setting on, MKD, RMD, DELE and SITE CHMOD get 257, 250, 250 and 200 with a success line when allowed and done, else 550 with a failure line |
| `FtpRules.PlainCommands` | vsftpd-2.3.4/postlogin.c:177-441 | TYPE and REST change their setting and nothing else; the other commands that only answer change nothing |
| `FtpRules.RenameCommands` | vsftpd-2.3.4/postlogin.c:1251-1324 | RNFR holds a name, an allowed RNTO uses it up and renames if the system does; with codes and log lines |
| `FtpRules.RenameInTwo` | vsftpd-2.3.4/postlogin.c:1251-1324 | In every session RNFR and RNTO in a row answer 350 and 250 and are logged as one rename |
| `FtpRules.PassiveCommands` | vsftpd-2.3.4/postlogin.c:550-629 | PASV and EPSV: 227 or 229 and a listening socket, unless refused or no try gets a port |
| `FtpRules.ActiveCommands` | vsftpd-2.3.4/postlogin.c:945-982 | PORT and EPRT: 200 and the address kept if and only if it is one the client may name; else 500; in both cases nothing listens |
| `FtpRules.OwnAddress` | vsftpd-2.3.4/postlogin.c:965-979 | A client may name its own address on a port from 1024 on, as IPv4, as IPv6, and as IPv4 on a mapped connection |
| `FtpRules.BarredTransfers` | vsftpd-2.3.4/postlogin.c:1849-1866 | Without a setup every transfer command gets 425, without needed encryption 522 |
| `FtpRules.Downloads` | vsftpd-2.3.4/postlogin.c:631-770 | RETR in all its cases: replies, log line, settings, and death |
| `FtpRules.Uploads` | vsftpd-2.3.4/postlogin.c:990-1144 | STOR, APPE and STOU in all their cases, the change of owner included |
| `FtpRules.Listings` | vsftpd-2.3.4/postlogin.c:778-920 | LIST and NLST in all their cases |
| `FtpRules.HeardIs` | vsftpd-2.3.4/postlogin.c:1355-1437 | The replies of an exchange line by line: 150, a 500 for each command not understood, the final code, and 226 once after ABORs |
| `FtpRules.StartsPlain` | vsftpd-2.3.4/postlogin.c:83-112 | A session starts with nothing set up, binary transfers from the beginning of files, and no name to rename |
| `FtpSession.PredicatesReturn` | vsftpd-2.3.4/postlogin.c:494-529 | port_active and pasv_active, which call each other, return if and only if not both are set up |
| `FtpJobs.JobsLegal` | vsftpd-2.3.4/postlogin.c:945-982 | Each privileged call of a command is one the parent carries out as asked, when the PORT address is as PORT leaves it |
| `FtpJobs.SessionsAreLegal` | vsftpd-2.3.4/twoprocess.c:207-280 | So is each one of a whole session, without port_promiscuous, when the ends of the control connection share family and scope |
| `FtpJobs.EndsTransfer` | vsftpd-2.3.4/postlogin.c:1398-1426 | The calls of a data connection leave the state the specification says, or die as it says |
| `FtpJobs.EndsSession` | vsftpd-2.3.4/oneprocess.c:128-163 | The direct calls of a session leave the privileged state it has, and one of them dies if and only if the session ends in die() |
| `FtpJobs.SessionsAreOne` | vsftpd-2.3.4/twoprocess.c:207-280 | Whole sessions with the privileged parent: under every interleaving the parent dies if and only if the session ends in die(), and otherwise both sides end where the specification says with nothing between them |
| `FtpJobs.AnswersFit` | vsftpd-2.3.4/twoprocess.c:207-280 | Under every interleaving each PasvActive answer of a command is 1 exactly when the settings listen, and the connect call brings a descriptor exactly when the command becomes a transfer |
| `FtpJobs.ListeningIsSetting` | vsftpd-2.3.4/oneprocess.c:140-144 | At the start of every command the privileged side listens on the socket the settings have |
| `Ascii.AsciiToBin` | vsftpd-2.3.4/ascii.c:12-54 | In place: the output is the settled part of carry and input, at most one byte longer than the input, and no unread byte is overwritten |
| `Ascii.SettledChunk` | vsftpd-2.3.4/ascii.c:12-54 | Decoding chunk by chunk with one held CR is decoding the whole |
| `Ascii.ReceiveChunk` | vsftpd-2.3.4/ftpdataio.c:595-630 | One turn of the receive loop |
| `Ascii.FileRecv` | vsftpd-2.3.4/ftpdataio.c:578-631 | For every split into chunks a complete upload is stored as the decoding of all of it, a final lone CR included.  When the network fails, all that has arrived is stored but for an unsettled CR; when the file is full it holds just what there is room for.  Which of the three happens, and the count, are exact |
| `Ascii.ChunkSize` | vsftpd-2.3.4/ftpdataio.c:633-647 | The chunk size is between 4096 and the buffer size |
| `Ascii.BinToAscii` | vsftpd-2.3.4/ascii.c:56-98 | The output is the encoding, within twice the input size |
| `Ascii.EncodeChunk` | vsftpd-2.3.4/ascii.c:56-98 | Encoding chunk by chunk with one carried bit is encoding the whole |
| `Ascii.EncodeTwice` | vsftpd-2.3.4/ascii.c:62-65 | Encoding is idempotent |
| `Ascii.DecodeEncode` | vsftpd-2.3.4/ascii.c:12-98 | Decoding after encoding is decoding alone, for every byte string |
| `Ascii.AsciiRoundTrip` | vsftpd-2.3.4/ascii.c:12-98 | A file sent and received in ASCII mode is unchanged if and only if it holds no CR LF |
| `Ascii.DecodeFirstPair` | vsftpd-2.3.4/ascii.c:12-54 | Up to the first CR LF decoding changes nothing, that becomes LF, and the rest is decoded on its own |
| `Ascii.EncodeFirstLf` | vsftpd-2.3.4/ascii.c:56-98 | Up to the first LF without a CR encoding changes nothing, that gets its CR, and the rest is encoded on its own |
| `Ascii.FileSend` | vsftpd-2.3.4/ftpdataio.c:453-521 | For every split into chunks a complete download is the encoding of the whole file, as it is when reading the file fails; when the network takes no more the peer has just what it took.  Which happens, and the count, are exact |
| `Filter.MatchesLiteral` | vsftpd-2.3.4/ls.c:251-295 | A literal prefix of a pattern matches exactly itself |
| `Filter.StarLiteral` | vsftpd-2.3.4/ls.c:280-295 | Taking the first place of a literal after a star is sound, and loses nothing when single characters and another star follow |
| `Filter.AlternativesMean` | vsftpd-2.3.4/ls.c:316-329 | A brace list matches when its first alternative or one of the others does |
| `Filter.Turn` | vsftpd-2.3.4/ls.c:251-348 | One turn of the loop is sound for every filter and loses nothing for those of the exact class |
| `Filter.GreedyMeans` | vsftpd-2.3.4/ls.c:251-360 | What the greedy loop accepts always matches, after a star or not, and is all that matches for the exact class |
| `Filter.GreedyExact` | vsftpd-2.3.4/ls.c:251-360 | Every filter without braces: each name is decided right if and only if there is no star, or a star comes last and every piece between stars is a literal followed by ?s only |
| `Filter.LostName` | vsftpd-2.3.4/ls.c:280-295 | For each filter without braces outside that class, a name that matches and is turned down |
| `Filter.LostToFirstPlace` | vsftpd-2.3.4/ls.c:280-295 | "*a" matches "aba" and does not accept it |
| `Filter.LostToEmptyAlternative` | vsftpd-2.3.4/ls.c:314-330 | "{,a}" matches "a" and does not accept it: the list is given up at its first empty alternative |
| `Filter.NextToken` | vsftpd-2.3.4/ls.c:254-273 | The text up to the next wildcard, the wildcard and the rest |
| `Filter.Locate` | vsftpd-2.3.4/str.c:459-484 | The first place of a text in a name, if any |
| `Filter.SplitChar` | vsftpd-2.3.4/str.c:344-408 | The text before and after the first such character |
| `Filter.TryAlternatives` | vsftpd-2.3.4/ls.c:313-330 | Accepts exactly when the greedy loop accepts some alternative before the first empty one and the budget lasts; spends no more turns than the sum over them |
| `Filter.TriesAre` | vsftpd-2.3.4/ls.c:313-330 | A list accepts a name if and only if the greedy loop accepts it for some alternative before the first empty one, the tail appended |
| `Filter.BracesAccept` | vsftpd-2.3.4/ls.c:300-331 | So does a filter that is a text, a list and a tail, whatever the alternatives |
| `Filter.Passes` | vsftpd-2.3.4/ls.c:221-368 | From every count up to the maximum: accepts only matching names, and exactly those the greedy loop accepts as long as the budget lasts; spends no more turns than Cost, a sum over the filter and its alternatives, so that with an exact filter whose Cost fits it accepts exactly the matching names; without braces the test whether Cost fits is exact; above the maximum accepts exactly the empty name |
| `Filter.CostCounts` | vsftpd-2.3.4/ls.c:251-258 | Without braces the cost is one turn for each wildcard and one for a text at the end |
| `GlobalFifo.TakenKeeps` | baohua_driver_study/globalfifo/globalfifo.c:128-136 | A read takes the oldest bytes and keeps the order of the rest |
| `GlobalFifo.AddedKeeps` | baohua_driver_study/globalfifo/globalfifo.c:182-189 | A write appends in order within the buffer |
| `GlobalFifo.ReadTakes` | baohua_driver_study/globalfifo/globalfifo.c:111-137 | The critical section of a read takes as many bytes as asked for, or all there are, from the front; on a fault or an empty buffer it takes nothing, and sleeps only before an empty buffer |
| `GlobalFifo.WriteAdds` | baohua_driver_study/globalfifo/globalfifo.c:165-190 | That of a write adds all of its data if there is room, else their beginning; on a fault or a full buffer nothing |
| `GlobalFifo.ClearEmpties` | baohua_driver_study/globalfifo/globalfifo.c:61-65 | A clear empties the buffer and fills it with zeros |
| `GlobalFifo.OnlyCheckingMovesData` | baohua_driver_study/globalfifo/globalfifo.c:54-209 | No other step touches the data |
| `GlobalFifo.WakesTheOthers` | baohua_driver_study/globalfifo/globalfifo.c:140-193 | After a read all queued writers are awake, after a write all queued readers, and nobody else is woken |
| `GlobalFifo.WokenTriesAgain` | baohua_driver_study/globalfifo/globalfifo.c:121-129 | A task that is woken goes back for the mutex, and gives up only on a signal |
| `GlobalFifo.StuckExactly` | baohua_driver_study/globalfifo/globalfifo.c:99-209 | A task is stuck exactly while it waits for the mutex or sleeps without a signal |
| `GlobalFifo.CheckingKeeps` | baohua_driver_study/globalfifo/globalfifo.c:111-142 | The critical section keeps the invariant: whoever ought to wake is about to be woken |
| `GlobalFifo.WakingKeeps` | baohua_driver_study/globalfifo/globalfifo.c:140-193 | Waking the other queue discharges that debt |
| `GlobalFifo.StepKeeps` | baohua_driver_study/globalfifo/globalfifo.c:54-209 | Every step of every task keeps the invariant |
| `GlobalFifo.Run` | baohua_driver_study/globalfifo/globalfifo.c:54-209 | Every reachable state satisfies the invariant |
| `GlobalFifo.EveryRun` | baohua_driver_study/globalfifo/globalfifo.c:99-209 | In every interleaving: bytes read and bytes buffered are the bytes written since the last clear, the buffer never overflows, one task is inside at most, no reader sleeps on data, and no writer sleeps on room unless a clear made it and no read followed |
| `GlobalFifo.ClearLosesWriters` | baohua_driver_study/globalfifo/globalfifo.c:54-72 | FIFO_CLEAR from any state with the mutex free, by any task outside the driver: afterwards the buffer is empty and the mutex free, and the writers asleep are exactly those asleep before |
| `GlobalFifo.LostWriter` | baohua_driver_study/globalfifo/globalfifo.c:54-209 | Such a state is reached: a run that ends with a writer asleep in front of an empty buffer |
| `GlobalFifo.NoClearNoLostTask` | baohua_driver_study/globalfifo/globalfifo.c:99-209 | In a run without clears, whenever the mutex is free every sleeper is blocked, writers included |
| `GlobalFifo.NeverStale` | baohua_driver_study/globalfifo/globalfifo.c:54-72 | Only a clear makes the guarantee for writers conditional |
| `RtpPacketizer.SendNalu` | ashwing-rtspserver/rtputils.c:212-335 | The packets sent are the specified ones, as many as sendto takes, with the sequence number moved on |
| `RtpPacketizer.SentIsReceived` | ashwing-rtspserver/rtputils.c:251-326 | The receiver of RFC 6184 gets the NAL unit back if and only if it is fragmented or its type is 1 to 23 |
| `RtpPacketizer.FragmentShape` | ashwing-rtspserver/rtputils.c:290-325 | Fragments have consecutive numbers, the start bit on the first only, end bit and marker on the last only, never both, the indicator and type of the unit, and 1400 bytes each but for the last, which has 1 to 1400 |
| `RtpPacketizer.PacketsNumbered` | ashwing-rtspserver/rtputils.c:251-325 | Fragmented or not, packets are numbered from the given one modulo 65536 and the last alone has the marker |
| `RtpPacketizer.AfterIsModulo` | ashwing-rtspserver/rtputils.c:294 | Sequence numbers count modulo 65536 |
| `SignalDispatcher.Dispatcher.Call` | vsftpd-2.3.4/sysutil.c:149-178 | Whatever a handler does and whatever arrives meanwhile, the same handlers are active afterwards, the marks of running handlers are not cleared, a signal that arrives while its own handler runs is pending when that returns, and marks still say exactly which signals are owed a call |
| `SignalDispatcher.Dispatcher.RunSignal` | vsftpd-2.3.4/sysutil.c:161-176 | The mark of the signal is cleared and its handler called, signals arriving between any two statements |
| `SignalDispatcher.Dispatcher.Interrupt` | vsftpd-2.3.4/sysutil.c:115-134 | Arrivals at any point set marks and nothing else |
| `SignalDispatcher.Dispatcher.CheckPendingActions` | vsftpd-2.3.4/sysutil.c:149-178 | Ends however handlers nest and whenever signals arrive; the I/O handler is called, before any other, when it is set, idle and asked for; every signal pending on entry whose handler is not running gets its call, and is pending afterwards only if it has arrived meanwhile |
| `SignalDispatcher.NoneLost` | vsftpd-2.3.4/sysutil.c:161-176 | In every history of the dispatcher each arrival is still marked, or its mark was cleared later and the handler called right then |
| `SignalDispatcher.NoneInvented` | vsftpd-2.3.4/sysutil.c:161-176 | Calls of a handler, with the mark that is set counted in, are no more than the arrivals of its signal |
| `SignalDispatcher.NestingBounded` | vsftpd-2.3.4/sysutil.c:136-148 | Handlers nest no deeper than the number of signals plus one, since every method keeps each from being active twice |
| `BandwidthLimiter.Limiter.HandleIo` | vsftpd-2.3.4/ftpdataio.c:236-281 | The pause asked for is none within the limit, else just long enough to bring the rate, truncated to whole bytes, down to it; while the clock moves and the rate fits the cast the bytes stay below (limit + 1) times the time since the window started |
| `BandwidthLimiter.WindowBound` | vsftpd-2.3.4/ftpdataio.c:258-281 | The same for any window that is paced as the code paces it |
| `BandwidthLimiter.RunBound` | vsftpd-2.3.4/ftpdataio.c:258-281 | So does any run of windows |
| `BandwidthLimiter.Transfer` | vsftpd-2.3.4/ftpdataio.c:236-281 | A whole transfer through handle_io, whatever its calls: the bytes are fewer than (limit + 1) times the time it took |
| `BandwidthLimiter.StuckWithin` | vsftpd-2.3.4/ftpdataio.c:264-274 | Within the limit the bound holds for a window if and only if the clock has moved |
| `BandwidthLimiter.StuckAbove` | vsftpd-2.3.4/ftpdataio.c:264-280 | Above the limit it holds for every sleep that lasts long enough if and only if the clock has moved, or a hundred times the bytes exceed limit (limit + 1) scaled by what the clock has lost |
| `BandwidthLimiter.StuckClock` | vsftpd-2.3.4/ftpdataio.c:264-267 | With a clock that stands still any number of bytes can pass in no time |
| `LineReader.AllocAltTerm` | vsftpd-2.3.4/str.c:92-103 | The text up to the first terminator |
| `LineReader.ExpectedMeans` | vsftpd-2.3.4/netstr.c:18-88 | A line is the text before the first terminator, used up with it; a line too long uses maxlen bytes without one; at the end of the stream there was none |
| `LineReader.ReadLine` | vsftpd-2.3.4/netstr.c:18-88 | Whatever each peek shows: the line and exactly the bytes through its terminator, or failure after exactly maxlen bytes without one, or death at the end of the stream |

## Left out

- Matroska context lists: the intrusive links and the order of the active and free lists, which no code looks at, are sets; freeing is not modelled.
- Matroska after a failure: a call that returns an error promises nothing about later calls; in particular the duration patch that mk_close still makes after a failed flush is not followed.
- Matroska arithmetic: the difference of two 64-bit tick counts is taken without overflow, and the float conversion of the duration is an uninterpreted function to four bytes.
- Matroska sizes: `Affordable` asks for frames of at most 2^31 - CLSIZE - 64 bytes, which fit whatever the cluster holds; a larger one may still fit, and when it does not the doubling never ends (`DoublingEndsExactly`).  Header strings within a thousand bytes of 2^31 are excluded by `HeaderFits`, and frames before the header are too.
- MatroskaWriter.MkWriter.Close: nothing is promised when the final flush fails.
- Listener: option reloading on SIGHUP, process titles and the sockets themselves; limits are fixed for a run.
- Login, SSL and its slave process, HTTP mode, PAM, utmp and sandboxing.
- FtpSession: timeouts, banners beyond their number of lines, texts of replies, path handling, umask; commands that send one reply and change nothing are one case, with the reply code, 200 or above, as a parameter.
- FtpSession uses the privileged operations by direct call; `FtpJobs.SessionsAreOne` is why the two-process variant behaves alike.  There a dying parent and the child it leaves behind may each write a 500 to the client, where one process writes one; and with `port_promiscuous`, where the code itself falls back to the direct call for PORT, nothing is claimed about two processes.
- An invalid `pasv_address`, which ends PASV in die(), and deaths of the session for other than the privileged operations.
- PrivChannel: the stubs and handlers are steps of a state machine rather than methods, so that every interleaving is covered; the login request and strings on the channel are not part of it.
- Privops: the double arithmetic of the port draw is done on reals, which is exact at these sizes; sleeping between bind retries is left out.
- Filter: texts are sequences of characters without the NUL that would end them in C; for filters with braces the exact class is sufficient, and the converse is stated only without braces.
- Transfer loops: sendfile, write_dir_list and the choice between them.
- GlobalFifo: poll, asynchronous notification and the overlapping memcpy, which is taken as a move; wake-ups are those of this driver and signals only.
- RtpPacketizer: timestamps, SSRC, header bit layout and sockets.
- BandwidthLimiter: double rounding; the guards that skip other descriptors and failed calls; a rate of 2^32 bytes per second or more, whose cast to unsigned C leaves undefined, gives no bound.
- LineReader: the return value, an index into the last chunk.
- SignalDispatcher: alarms, and changes of handlers while others run.
- Camera, encoder, preview, RTSP scheduling and the small study programs.
