# DIMEX: distributed mutual exclusion with snapshots, in Dafny

This project models the per-process coordination engine `DIMEX_Module` and
the offline snapshot checker that reads the files the engine writes.

The engine (`dimex.dfy`, with the wire texts in `wire.dfy`) is a class with
the module's fields: `st`, `lcl`, `reqTs`, `nbrResps`, the `waiting` array,
`idSnapShot`, `snapshots` and `activeSnapshot`. It combines four pieces:

- a Lamport logical clock;
- the Ricart-Agrawala state machine `noMX` / `wantMX` / `inMX` with its
  deferral vector and response counter;
- the `(timestamp, id)` priority order `before`;
- a Chandy-Lamport style marker handler that copies the live state into
  snapshot records and records intercepted messages.

Each handler is a method: one sequential step of the event loop. Sending
on the point-to-point link appends `(address, text)` to an `outbox`
sequence. The grant signal to the application increments a `grants` counter.

The wire texts `reqEntry:<id>:<ts>`, `respOK:<id>:<clock>` and
`TAKE_SNAPSHOT:<id>:<snapshotId>` are a tagged datatype with a formatter.
The model proves that every scanner the handlers use recovers the fields of
a formatted text, except `parseMessage` as written (see Findings), and that the event loop's substring routing sends each
text to the handler of its kind.

The checker (`analysis.dfy`) states the six snapshot invariants as the
source's loops compute them. Each has a lemma that says in closed form when
the check passes. `analysis.dfy` also holds the parser of the printed
`Waiting` vector, proved to read back what the engine prints. The
snapshot-file reader (`reader.dfy`) is the line loop as a function, with a
method that runs it as a loop. Its lemma says which records a file adds.

`text.dfy` holds the string helpers both sides use: substring search,
splitting, stripping (with Python's `str.isspace` set of whitespace), and
decimal rendering and parsing.

## Behaviour as written

These behaviours differ from the textbook algorithms. The model follows the
code in each case.

- A `reqEntry` that arrives while the process is `inMX` is answered at once,
  not deferred (DIMEX/DIMEX-Template.go:239-240). `Dimex.Defers` therefore
  holds only in `wantMX`.
- `handleSnapshot` computes whether the snapshot id is already known, then
  overwrites the result with `false` (DIMEX/DIMEX-Template.go:334). Every
  marker therefore takes the first-marker path: it re-records the state and
  re-forwards the marker.
- The completion test is overwritten with `true`
  (DIMEX/DIMEX-Template.go:368). Every marker therefore ends the snapshot,
  and `activeSnapshot` is false again when the handler returns.
  `Dimex.MarkerFlagsIncomplete` shows that the discarded test would have
  failed at that point.
- Consequently no snapshot is active between events: the constructor sets
  `activeSnapshot` false, `Step` cannot change it, and `Deliver` ensures
  `activeSnapshot ==> old(activeSnapshot)`. The interceptor
  (DIMEX/DIMEX-Template.go:301-309) therefore never records a message
  (`Dimex.InterceptQuiet`), and every snapshot record's messages stay empty.
- A snapshot record's channel-flag vector always has length 3
  (DIMEX/DIMEX-Template.go:384). The handler therefore needs the process id
  and the marker's sender id to be below 3.
- `parseMessage` (DIMEX/DIMEX-Template.go:274) is listed under Findings. The
  engine model uses the intended parse of the two integer fields.

## Model

| member | source | states |
|---|---|---|
| Text.ParseIntToString | DIMEX/DIMEX-Template.go:421-422 | parsing the decimal text `%d` renders gives back the same integer, for negative numbers too |
| Text.StripChars | analisa_snapshots.py:48 | the result is no longer than the input and neither starts nor ends with a stripped character |
| Text.StripCharsTrims | analisa_snapshots.py:48 | the result is a slice s[i..j] of the input, and every character cut off before i or after j is one of the stripped characters |
| Text.Find | DIMEX/DIMEX-Template.go:125-131 | a position is found exactly when the text contains the word, and it is the first occurrence |
| Wire.Format | DIMEX/DIMEX-Template.go:163 | the text `fmt.Sprintf("<tag>:%d:%d", …)` builds splits at ':' (as at :419) into exactly its tag, its sender and its second field |
| Wire.Scan | DIMEX/DIMEX-Template.go:210 | `Sscanf(text, "<tag>:%d:%d")`: both fields when the tag matches, each 0 once unreadable; its round trip is Wire.ScanFormat |
| Wire.ParseMessage | DIMEX/DIMEX-Template.go:271-276 | the intended parseMessage: the two integer fields after a non-empty kind; its round trip is Wire.ParseMessageFormat |
| Wire.GetTimestamp | DIMEX/DIMEX-Template.go:278-281 | the second field of the intended parse; Wire.ParseMessageFormat shows it is the stamp of any formatted message |
| Wire.ParseMarkerMessage | DIMEX/DIMEX-Template.go:417-431 | fields 1 and 2 of the split marker text, or (0, 0) when either is not an integer; needs three fields; its round trip is Wire.ParseMarkerFormat |
| Wire.Classify | DIMEX/DIMEX-Template.go:124-133 | a kind is chosen only if its tag occurs in the text; none is chosen exactly when no tag occurs; reqEntry only when "respOK" is absent, the marker only when both other tags are absent |
| Wire.ScanFormat | DIMEX/DIMEX-Template.go:233-235 | the handler's `Sscanf("<tag>:%d:%d")` recovers sender and stamp from the text the peer built |
| Wire.ParseMessageFormat | DIMEX/DIMEX-Template.go:271-281 | the intended parseMessage returns (sender, stamp) of any formatted message, and getTimestamp returns its stamp |
| Wire.GetTimestampAsWrittenDropsStamp | DIMEX/DIMEX-Template.go:274 | as written, getTimestamp of `respOK:s:t` with t != 0 is not t; the intended parse gives t |
| Wire.ParseMarkerFormat | DIMEX/DIMEX-Template.go:417-431 | a marker text has at least three fields, and parseMarkerMessage returns its sender and snapshot id |
| Wire.FormatInjective | DIMEX/DIMEX-Template.go:163 | distinct messages are sent as distinct texts |
| Wire.ClassifyReqEntry | DIMEX/DIMEX-Template.go:125-130 | a reqEntry text does not contain "respOK", so it reaches the reqEntry handler |
| Wire.ClassifyMarker | DIMEX/DIMEX-Template.go:125-132 | a marker text contains neither "respOK" nor "reqEntry", so it reaches the marker handler |
| Wire.MarkerLacksOtherTags | DIMEX/DIMEX-Template.go:125-131 | a marker text contains neither "respOK" nor "reqEntry" |
| Wire.ClassifyFormat | DIMEX/DIMEX-Template.go:124-133 | the event loop routes every formatted message to the handler of its own kind |
| Wire.ClassifyGarbage | DIMEX/DIMEX-Template.go:124-133 | the text `garbage` is classified as no kind; for any text naming no kind, Dimex.Module.Deliver states that nothing changes |
| Dimex.Max | DIMEX/DIMEX-Template.go:254-259 | the result is at least both arguments and equals one of them |
| Dimex.RespOkClockAsWritten | DIMEX/DIMEX-Template.go:212 | with the stamp as written, the new clock does not pass a sender clock greater than the local one; with the intended stamp it does |
| Dimex.Before | DIMEX/DIMEX-Template.go:261-269 | the priority test of two requests; its order properties are the four lemmas below |
| Dimex.BeforeIsLexicographic | DIMEX/DIMEX-Template.go:261-269 | `before` orders by timestamp, then by id |
| Dimex.BeforeIrreflexive | DIMEX/DIMEX-Template.go:261-269 | no request precedes itself |
| Dimex.BeforeTransitive | DIMEX/DIMEX-Template.go:261-269 | `before` is transitive |
| Dimex.BeforeTotal | DIMEX/DIMEX-Template.go:261-269 | of two distinct (id, ts) pairs exactly one precedes the other |
| Dimex.Defers | DIMEX/DIMEX-Template.go:239-246 | the branch that defers a request: only in wantMX, and only for a request without priority over ours; Dimex.ExactlyOneDefers and Dimex.Module.DeliverReqEntry state its effect |
| Dimex.ExactlyOneDefers | DIMEX/DIMEX-Template.go:242-246 | of two processes that both want the resource with distinct requests, exactly one defers the other |
| Dimex.Indices | DIMEX/DIMEX-Template.go:183-184 | every listed position is in range and holds true |
| Dimex.IndicesIncreasing | DIMEX/DIMEX-Template.go:183-184 | the true positions are listed in strictly increasing order, each once |
| Dimex.IndicesComplete | DIMEX/DIMEX-Template.go:183-184 | every true position is listed |
| Dimex.SendAllAt | DIMEX/DIMEX-Template.go:183-187 | the k-th message goes to the address of the k-th listed position |
| Dimex.Outgoing | DIMEX/DIMEX-Template.go:183-187 | a loop over a flag vector sends at most one message per position |
| Dimex.OutgoingIsSendAll | DIMEX/DIMEX-Template.go:183-187 | the exit loop sends exactly one message per true flag, in increasing position order, and no other |
| Dimex.BroadcastToPeers | DIMEX/DIMEX-Template.go:161-165 | the broadcast loop sends n-1 messages, one to each address except the sender's own, in index order |
| Dimex.MarkerFlags | DIMEX/DIMEX-Template.go:384-389 | a new record's three channel flags are true exactly at the own id and at the marker's sender |
| Dimex.MarkerFlagsIncomplete | DIMEX/DIMEX-Template.go:356-368 | after one marker, some channel flag is still false, so the overwritten completion test would have failed |
| Dimex.InterceptQuiet | DIMEX/DIMEX-Template.go:301-302 | with no snapshot active the interceptor leaves every record unchanged |
| Dimex.RecordInOpen | DIMEX/DIMEX-Template.go:303-307 | the text is appended to the messages of exactly the records whose flag for the sender is false; the others and the key set are unchanged |
| Dimex.Module.constructor | DIMEX/DIMEX-Template.go:71-100 | the initial state: noMX, clock and counters 0, no deferral, no snapshot, nothing sent |
| Dimex.Module.SendToLink | DIMEX/DIMEX-Template.go:283-288 | exactly one (address, text) pair is appended to the outbox |
| Dimex.Module.SendToPeers | DIMEX/DIMEX-Template.go:161-165 | the outbox grows by one message with the text to every address except the own one, in index order |
| Dimex.Module.RequestEntry | DIMEX/DIMEX-Template.go:157-166 | lcl grows by exactly 1, reqTs becomes the new lcl, nbrResps 0 and st wantMX; `reqEntry:id:reqTs` goes to every other address |
| Dimex.Module.RequestExit | DIMEX/DIMEX-Template.go:180-188 | st becomes noMX, nbrResps 0 and lcl is unchanged; `respOK:id:lcl` goes to exactly the addresses whose waiting flag was true, in order; afterwards no flag is true |
| Dimex.Module.Intercept | DIMEX/DIMEX-Template.go:301-309 | with a snapshot active, the text is appended to exactly the records whose flag for the sender is false; otherwise nothing changes |
| Dimex.Module.DeliverReqEntry | DIMEX/DIMEX-Template.go:233-247 | lcl becomes `max(lcl, t) + 1`, above both; the request is deferred (flag set, nothing sent) exactly when st is wantMX and the sender's request does not precede ours; otherwise `respOK:id:lcl` goes to the sender and the flags are unchanged |
| Dimex.Module.DeliverRespOk | DIMEX/DIMEX-Template.go:208-217 | lcl becomes `max(lcl, t) + 1`, above both; nbrResps grows by one; a grant is signalled and st becomes inMX exactly when nbrResps reaches the number of peers |
| Dimex.Module.StartSnapshot | DIMEX/DIMEX-Template.go:311-322 | nothing is sent while a snapshot is active; otherwise exactly one marker with id idSnapShot+1, sent to the process itself |
| Dimex.Module.RecordState | DIMEX/DIMEX-Template.go:379-391 | the record under the snapshot id becomes a copy of st, lcl, reqTs and nbrResps with only the own channel flag set and no messages; other records are untouched |
| Dimex.Module.HandleSnapshot | DIMEX/DIMEX-Template.go:324-377 | idSnapShot becomes k; snapshots[k] is replaced by a copy of the live state with flags true exactly at the own id and the sender; other records are kept; `TAKE_SNAPSHOT:id:k` goes to every other address; activeSnapshot ends false |
| Dimex.Module.Step | DIMEX/DIMEX-Template.go:111-122 | ENTER, EXIT and SNAPSHOT have the effects of RequestEntry, RequestExit and StartSnapshot: each fixes every field it may change, ENTER keeps the waiting flags, EXIT keeps reqTs, SNAPSHOT keeps reqTs and nbrResps, and none changes the snapshot state |
| Dimex.Module.Deliver | DIMEX/DIMEX-Template.go:124-133 | a peer text goes to the respOK, reqEntry or marker handler by the substrings it contains, in that order, and has that handler's whole effect: for respOK the clock rule, nbrResps+1, the grant and inMX exactly at the last response, nothing sent; for reqEntry the clock rule and either the deferral or the answer to the sender; for a marker the new record, the markers forwarded to every peer, and the snapshot ended; a respOK or reqEntry text is first recorded by the interceptor; any other text changes nothing |
| SnapshotAnalysis.CheckInvariant1 | analisa_snapshots.py:53-56 | check_invariant_1 as the source computes it; its closed form is SnapshotAnalysis.Invariant1Holds |
| SnapshotAnalysis.CheckInvariant2 | analisa_snapshots.py:58-66 | check_invariant_2 as the source computes it; its closed form is SnapshotAnalysis.Invariant2Holds |
| SnapshotAnalysis.CheckInvariant3 | analisa_snapshots.py:68-77 | check_invariant_3 as the source computes it; its closed form is SnapshotAnalysis.Invariant3Fails |
| SnapshotAnalysis.CheckInvariant4 | analisa_snapshots.py:79-95 | check_invariant_4 as the source computes it; its closed form is SnapshotAnalysis.Invariant4Holds |
| SnapshotAnalysis.CheckInvariant5 | analisa_snapshots.py:97-105 | check_invariant_5 as the source computes it; its closed form is SnapshotAnalysis.Invariant5Holds |
| SnapshotAnalysis.CheckInvariant6 | analisa_snapshots.py:107-114 | check_invariant_6 as the source computes it; its closed form is SnapshotAnalysis.Invariant6Holds |
| SnapshotAnalysis.CountInMXZero | analisa_snapshots.py:55 | the count is 0 exactly when no record is in state 2 |
| SnapshotAnalysis.CountInMXAtMostOne | analisa_snapshots.py:55-56 | the count is at most 1 exactly when no two records are in state 2 |
| SnapshotAnalysis.Invariant1Holds | analisa_snapshots.py:53-56 | invariant 1 holds iff no two records are in state 2 |
| SnapshotAnalysis.QuietFromAll | analisa_snapshots.py:62-65 | the loop passes iff no record has a true Waiting entry or a message |
| SnapshotAnalysis.Invariant2Holds | analisa_snapshots.py:58-66 | invariant 2 holds iff some record is not in state 0, or no record has a true Waiting entry or a message |
| SnapshotAnalysis.Invariant3FromNone | analisa_snapshots.py:70-77 | the loop fails iff some record has a true Waiting entry while its state is neither 1 nor 2 |
| SnapshotAnalysis.Invariant3Fails | analisa_snapshots.py:68-77 | invariant 3 fails iff some record defers a process while its state is neither 1 nor 2 |
| SnapshotAnalysis.CountFlagsForIsSize | analisa_snapshots.py:87-90 | the counter equals the number of other records whose Waiting flags the process |
| SnapshotAnalysis.Invariant4FromAll | analisa_snapshots.py:83-95 | the loop passes iff every record in state 1 accounts for N-1 |
| SnapshotAnalysis.Invariant4Holds | analisa_snapshots.py:79-95 | invariant 4 holds iff, for every record in state 1, NbrResps (0 if absent) plus its message count plus the number of other records flagging it equals N-1 = 2 |
| SnapshotAnalysis.NotFlaggedFromAll | analisa_snapshots.py:101-104 | the inner loop passes iff no other record flags the process in state 2 |
| SnapshotAnalysis.Invariant5FromAll | analisa_snapshots.py:99-105 | the outer loop passes iff no record in state 2 is flagged by another |
| SnapshotAnalysis.Invariant5Holds | analisa_snapshots.py:97-105 | invariant 5 holds iff no other record's Waiting flags the id of a record in state 2 |
| SnapshotAnalysis.AllIdleOlderFromAll | analisa_snapshots.py:111-113 | the inner loop passes iff no record in state 0 has a ReqTs at least the waiting record's |
| SnapshotAnalysis.Invariant6FromAll | analisa_snapshots.py:109-114 | the outer loop passes iff no state-1 record meets an idle record that is not older |
| SnapshotAnalysis.Invariant6Holds | analisa_snapshots.py:107-114 | invariant 6 holds iff every state-1 record's ReqTs is strictly greater than every state-0 record's ReqTs |
| SnapshotAnalysis.BoolName | analisa_snapshots.py:49 | the names "true" and "false" start and end with word characters |
| SnapshotAnalysis.JoinBoolsEnds | DIMEX/DIMEX-Template.go:407 | Go's `%v` of a bool slice is empty only for the empty slice and otherwise starts and ends with a word character |
| SnapshotAnalysis.StripBrackets | analisa_snapshots.py:48 | stripping '[' and ']' from the printed vector leaves its space-separated elements |
| SnapshotAnalysis.BoolWordAt | analisa_snapshots.py:49-50 | a whole word "true" or "false" yields one element, true exactly for "true", then the tokens after it |
| SnapshotAnalysis.BoolWordsSpace | analisa_snapshots.py:49 | a space yields no element |
| SnapshotAnalysis.NameIsWord | analisa_snapshots.py:49 | a boolean's name between a non-word character and a space (or the end) is matched as a whole word |
| SnapshotAnalysis.BoolWordsCons | analisa_snapshots.py:49-50 | a leading name followed by a space yields its boolean, then the tokens after the space |
| SnapshotAnalysis.BoolWordsLast | analisa_snapshots.py:49-50 | a trailing name yields exactly its boolean |
| SnapshotAnalysis.BoolWordsShort | analisa_snapshots.py:49-50 | the printed elements of a vector of length at most one read back as that vector |
| SnapshotAnalysis.BoolWordsJoin | analisa_snapshots.py:49-50 | the space-separated elements read back as the vector, one boolean per token in order |
| SnapshotAnalysis.ParseWaitingList | analisa_snapshots.py:47-51 | strip the brackets, then one boolean per whole word "true" or "false"; its round trip is SnapshotAnalysis.ParseWaitingListFormat |
| SnapshotAnalysis.ParseWaitingListFormat | analisa_snapshots.py:47-51 | parse_waiting_list reads back exactly the vector the engine printed with `%v` |
| SnapshotReader.Store | analisa_snapshots.py:24 | the record is stored under its snapshot and process id; the inner dictionary is created on first use; every other record is kept |
| SnapshotReader.ReadLine | analisa_snapshots.py:22-42 | one pass of the line loop: the effect of the first test the line passes, or None where the source raises |
| SnapshotReader.ReadFile | analisa_snapshots.py:21-44 | the line loop over a file from no current record, then the final store |
| SnapshotReader.FillRecord | analisa_snapshots.py:27-42 | a labelled line or a message line changes only its own field of the record; ids are kept and only a message line adds a message, its stripped text |
| SnapshotReader.ReadSnapshotFile | analisa_snapshots.py:19-44 | the imperative line loop computes exactly the reader function on the file's lines |
| SnapshotReader.HeaderIdListed | analisa_snapshots.py:22-25 | the id of every header line of the file is among the file's header ids |
| SnapshotReader.FlushSound | analisa_snapshots.py:23-24 | storing the current record keeps the reader's invariant |
| SnapshotReader.ReadLineSound | analisa_snapshots.py:22-42 | every line keeps the reader's invariant: records sit under their own ids, new ones belong to this process under a header id, and their messages are stripped lines of the file that contain "respOK" |
| SnapshotReader.ReadLinesSound | analisa_snapshots.py:21-42 | the whole loop keeps the reader's invariant |
| SnapshotReader.IdsOfStore | analisa_snapshots.py:24 | storing a record adds exactly its snapshot id to the ids holding a record of its process |
| SnapshotReader.ReadLineIds | analisa_snapshots.py:22-26 | a header line adds the previous record's id; other lines add none |
| SnapshotReader.ReadLinesIds | analisa_snapshots.py:21-44 | after the loop and the final store, the process has records under exactly its old ids plus the file's header ids |
| SnapshotReader.ReadLinesAppend | analisa_snapshots.py:21 | the loop over two runs of lines is the loop over the first, then over the second from where it stopped |
| SnapshotReader.BlockRecordSnoc | analisa_snapshots.py:27-42 | one more line in a block fills the block's record in exactly as the loop does |
| SnapshotReader.ReadBody | analisa_snapshots.py:27-42 | from a fresh record the lines of a block body give the block's record, or raise exactly when one of them is unreadable |
| SnapshotReader.ReadBlock | analisa_snapshots.py:22-42 | a header for snapshot k stores the record read so far and starts a fresh one, with no messages; its block then yields the record of the process under k whose messages are exactly the block's stripped "respOK" lines, in order, and whose fields are the values of the block's last line of each label |
| SnapshotReader.ReadWellFormedBlock | analisa_snapshots.py:22-42 | a well-formed block is read without raising into the record ReadBlock names |
| SnapshotReader.ReadLinesBlocks | analisa_snapshots.py:21-44 | a run of well-formed blocks is read without raising, and stores the record of each block in turn |
| SnapshotReader.ReadFileBlocks | analisa_snapshots.py:19-44 | a file made of well-formed blocks stores, in file order, the record of each block under its header's id, with the block's own messages and last labelled values |
| SnapshotReader.ReadFileSound | analisa_snapshots.py:21-44 | a read that does not raise stores a record of the process under every header id of the file and no other new id, keeps every other process's records unchanged, and each record is either one that was there before or a new record whose messages are stripped "respOK" lines of the file |

## Left out

- I/O and concurrency are not modelled. This covers the goroutine, `select` and Go channels of `Start`, the `sync.Mutex`, the `Ind` channel (now a grant counter), the PP2PLink transport (now an outbox), `outDbg`, every `fmt.Println`, and `writeSnapshotToFile`. `handleUponDeliverReqEntry` does not take the mutex. This has no effect, because every handler runs on the single goroutine `Start` launches (DIMEX/DIMEX-Template.go:106-135). The model's methods run one step at a time, which captures that.
- The host application `useDIMEX-f.go` is not part of this model.
- `markersReceived` is only ever reset, and `ChannelState` is created empty and never used; neither is a field of the model. `dbg` only gates output.
- Global safety and liveness across processes would need a network model. The code also does not guarantee them: it grants while `inMX` and re-forwards every marker.
- Integers are unbounded. Go's `int`/`int64` overflow of `lcl`, `reqTs` and snapshot ids is not modelled, nor is the range error of `strconv.ParseInt`.
- Text.ParseDecimal: accepts an optional sign and ASCII digits only. Python's `int()` also accepts `_` separators and non-ASCII digits; those forms never occur in the files the engine writes.
- SnapshotAnalysis.IsWordChar: takes the ASCII word characters of the regular expression `\b`, where Python's `re` on `str` also counts Unicode letters and digits.
- Wire.ScanFields: a field with leading blanks, or digits followed by other characters, counts as unreadable (0). Go's `Sscanf` skips blanks before each `%d` (so `respOK: 5:6` scans as (5, 6)) and keeps the leading digits of either field when other characters follow them: `reqEntry:1x:5` scans as (1, 0), and `reqEntry:1:5x` scans as (1, 5) because Sscanf does not check for leftover input, where the model gives (0, 0) and (1, 0). Formatted texts never contain such fields (`Wire.ScanFormat`), and `Wire.Scan` inherits this.
- Wire.ParseMarkerMessage: requires at least three ':'-separated fields. With fewer, the source indexes past the end of the split and panics.
- Dimex.Module.HandleSnapshot: requires at least three fields, a process id below 3 and a marker sender id from 0 to 2. Otherwise the source panics indexing the split or the three-entry flag vector.
- Dimex.Module.constructor: requires the process id to index the address list. Otherwise `NewDIMEX` panics indexing `_addresses[_id]` (DIMEX/DIMEX-Template.go:73). The host application passes an id from the command line without checking its range.
- Dimex.Module.DeliverReqEntry: requires the sender id to index the address list. Otherwise the source panics indexing `addresses` or `waiting`.
- Dimex.Module.Intercept, Dimex.Module.DeliverRespOk, Dimex.Module.DeliverReqEntry and Dimex.Module.Deliver: require, while a snapshot is active, that the sender id indexes every record's three-entry flag vector (`CanIntercept`). Otherwise the source panics indexing `Waiting[senderId]` (DIMEX/DIMEX-Template.go:303-307). Between events no snapshot is ever active (see "Behaviour as written"), so the requirement holds there for every sender.
- SnapshotAnalysis.CheckInvariant2 and SnapshotAnalysis.Invariant2Holds: requires a State in every record and a Waiting in every record when all are idle. The source stops reading at the first non-zero State (`all` short-circuits) or at its early return, so a key missing after that point would not raise there.
- SnapshotAnalysis.CheckInvariant3 and SnapshotAnalysis.Invariant3Fails: requires State and Waiting in every record. The source stops at its first violation.
- SnapshotAnalysis.CheckInvariant4 and SnapshotAnalysis.Invariant4Holds: requires a State in every record and a Waiting in every other record for each record in state 1. The source stops at the first record that does not add up.
- SnapshotAnalysis.CheckInvariant5 and SnapshotAnalysis.Invariant5Holds: requires the Waiting of every other record to be indexable at the id of each record in state 2. The source stops at its first violation.
- SnapshotAnalysis.CheckInvariant6 and SnapshotAnalysis.Invariant6Holds: requires a ReqTs for every state-1 and state-0 record whenever both states occur. The source reads a ReqTs only for a state-0 record, and stops at its first violation.
- The records of one snapshot are the values of a Python dictionary, taken in its iteration order as a sequence. The invariants do not depend on that order.
- `os.listdir`, the file-name pattern, file opening and `analyze_snapshots` with its report writing are I/O (analisa_snapshots.py:9-18, 116-139). The reader models the loop over the lines of one file.
- A reader line that raises in the source (a field line before any header, a missing `": "`, a value `int()` rejects) ends the read with no result. The partial dictionary is not modelled.

## Findings

| source | as written | input that shows it | evidently intended | confidence | as-written member | corrected member |
|---|---|---|---|---|---|---|
| DIMEX/DIMEX-Template.go:274 | `parseMessage` scans with the format `%[^:]:%d:%d`. Go's `fmt` has no `%[` scanset verb, so the scan stops before any field and `getTimestamp` returns 0 for every text. The respOK clock update at :212 then becomes `max(lcl, 0) + 1`. | `respOK:1:5` received with `lcl = 2`: the stamp read is 0, so the new clock is 3, not above the sender's 5 | skip the kind before the first ':' and read both integers, so `getTimestamp("respOK:1:5") == 5` and the new clock is 6 | not executed | Wire.GetTimestampAsWritten, Wire.GetTimestampAsWrittenDropsStamp, Dimex.RespOkClockAsWritten | Wire.GetTimestamp, Wire.ParseMessageFormat |
