# TAU trace tools: model and proofs

The trace utilities of TAU turn raw event streams into merged traces, profiles and other trace
formats, and the instrumentors decide what is measured in the first place. This project models the
stateful parts of those tools in Dafny, in the form the source has them (objects with fields that
methods update, loops over buffers, pure bit expressions), and proves what they are for.

| part | files | main result |
|---|---|---|
| trace merger | `TraceReader`, `MergeSpec`, `EventTable`, `OutputBuffer`, `TraceMerge`, `Meaning`, `Merger`, `MergeProgram` | `MergeProgram.MergeTraces`: the output is the one exact stable merge of all non-empty traces, and every record's global id means, in terms of the merged event file, what its local id meant in its own event file when it was looked up |
| event definition files | `Scan`, `EdfLine`, `EdfLoop`, `EdfFile`, `MergedFile` | `EdfLoop.LoopOutcome`: what parsing comes to, for every file; `EdfFile.RoundTrip`: printing and parsing the merged file is exact if and only if no state holds a quote and every parameter but the last brings its own line end |
| profiler | `CallTree`, `Profile`, `Snapshots`, `TraceProfile`, `UserEvents` | `Profile.RunRefinesForest`, `TraceProfile.BooksAreTraceProfile`, `Snapshots.PlayTrace`, `Snapshots.Conservation` |
| selective instrumentation | `Wildcard`, `Selective` | `Wildcard.WildcardCompare` decides a declarative glob relation with one backtrack point |
| converter kernel | `Layouts`, `MessageWord`, `Matching`, `EventHash`, `PvStacks` | `Matching.GetMatchingRecv`, `EventHash.Events.Valid`, `PvStacks.DoneIff`, `PvStacks.ExitRestores` |
| numbering | `Counting`, `Numbering` | VTF ids and groups, OTF offsets: bijections |
| instrumentor, profile viewer | `LoopTimers`, `RemoveRuns` | timers for exactly the loops that are not too deep, properly nested; in-place compaction |

Files are modelled as sequences of records or characters, other processes' changes to event files as
versions over time, and times as unbounded integers. A trace file may end in a torn record.

Where a promise is not kept by the code, the model keeps the code and the exact condition is proved:

* The merged event file does not always read back. A definition line without a parameter is stored
  with an empty one (`EdfLine.LineWithoutParameter`), its entry is printed without a line end and
  swallows the next entry (`EdfFile.RoundTripFails`). `EdfFile.RoundTrip` is the exact condition on
  the entries, `MergedFile.MergedFileReadsBack` the one on the definition lines of the input files.
* Parsing an event file that ends early goes on with the last line. It never ends exactly when too few
  event lines follow, all of them decode, and the last line is empty or a comment
  (`EdfFile.NeverEndsIff`, `EdfFile.CommentAtEndNeverEnds`); when the last line is an event line the
  missing events are copies of it (`EdfFile.MissingEventsAreCopies`, `EdfFile.OneEventTwice`).
* The look-ahead for a receive goes through a null descriptor exactly when a record of an unknown event
  stands in front of the first match (`Matching.AnswerIsDetermined`,
  `Matching.UnknownEventBeforeReceive`); the first pass only warns of such records.
* The overflow check of the pv state stacks never fires before a slot behind the array has been written:
  an entry writes out of bounds exactly at a depth of the array's size (`PvStacks.Output.Enter`).
* A local id that was once looked up in vain is answered with 0 without reading the event file again, even
  when it has come to define the id; the look-up of another missing id corrects the answer exactly then
  (`EventTable.VainLookUpSticks`).
* The layout guess fails for a file that the other width also reads as marked. For a wide file with zero
  padding that is a trace of node 3, or of node 768 from a big-endian machine, thread 0
  (`Layouts.Detects64`, `Layouts.NodeThreeNotRecognised`); for a narrow file it depends on the first time
  stamp (`Layouts.Detects32`).
* The minimum of a user event is wrong when a zero was recorded, no value was negative and the last
  one was not zero (`UserEvents.MinimumExact`, `UserEvents.MinimumLosesZero`); the maximum is wrong
  exactly when all values were negative (`UserEvents.MaximumExact`).

## Model

| member | source | states |
|---|---|---|
| MergeProgram.MergeTraces | utils/tau_merge.c:883-1333 | a completed merge outputs exactly the merge of the non-empty traces, each record unchanged but for its id and node offset; the id of record k has the name that a version of the node's event file up to the one at that record's look-up gave the local id, and is 0 only for an id lacking at first and at an earlier or this look-up; the merged file numbers its names 1 to n and describes each by its first definition line; giving up has a reason, and with finished event files it completes exactly for usable inputs |
| MergeProgram.OpenTraces | utils/tau_merge.c:883-1000 | opening keeps one descriptor per non-empty trace, in order, standing at its first record, with its event file parsed once |
| MergeProgram.KeptHolds | utils/tau_merge.c:898-998 | every trace with records is kept, behind the kept ones before it, with its node offset |
| MergeProgram.KeptOnly | utils/tau_merge.c:898-998 | nothing else is kept |
| Merger.Merge.MergeRecords | utils/tau_merge.c:1209-1323 | the loop ends for all finite traces, having emitted the merge, with every trace read to its end |
| Merger.Merge.CountedRound | utils/tau_merge.c:1211-1323 | every round emits one record, keeps the merge invariant, and keeps `active` equal to the number of open traces |
| Merger.Merge.SelectSource | utils/tau_merge.c:1211-1240 | the selected trace's current record precedes all other current records in (overflows, time, trace) |
| Merger.Merge.Identify | utils/tau_merge.c:1255 | a lookup that makes the table grow keeps the meaning of everything already output |
| Merger.Merge.EmitCurrent | utils/tau_merge.c:1255-1270 | renumbering in the buffer and output of one record translate it and disturb no other trace |
| Merger.Merge.AdvanceSource | utils/tau_merge.c:1282-1323 | the selected trace moves to its next record that is not a continuation, the others stay |
| Meaning.TranslationGrows | utils/tau_events.cpp:366-407 | later names never change what earlier output means |
| Meaning.MeansExactly | utils/tau_events.cpp:366-407 | with an event file that stays as it is, an id's name is exactly the file's name for the local id |
| Meaning.GidKnows | utils/tau_events.cpp:366-407 | after every look-up the lines parsed for a node are versions its file had by then, first definitions are those of the files as first read, and every zero in a table belongs to a look-up that found the file lacking the id |
| Meaning.AnswerMeans | utils/tau_events.cpp:366-407 | what such a table answers means what the local id meant |
| Merger.CursorMoves | utils/tau_merge.c:1282-1323 | advancing a trace lowers the number of unread records, and the number of open traces exactly at its end |
| Merger.OpenTracesPositive | utils/tau_merge.c:1323 | the loop goes on exactly while some trace has a current record |
| MergeSpec.KeyIsMonotone | utils/tau_merge.c:1306-1313 | the overflow rule makes a trace's (overflows, time) key non-decreasing |
| MergeSpec.OwnOrder | utils/tau_merge.c:1211-1240 | for one trace the merge order is the order of the file |
| MergeSpec.MergeRound | utils/tau_merge.c:1211-1323 | emitting the minimal current record keeps the merge invariant |
| MergeSpec.MergeKeepsOrder | utils/tau_merge.c:1211-1323 | a merge duplicates nothing and keeps each trace's order |
| MergeSpec.MergeIsUnique | utils/tau_merge.c:1211-1323 | the merge specification leaves no freedom: there is at most one merge |
| MergeSpec.OverflowsCountDrops | utils/tau_merge.c:1307-1309 | the overflow count of a record is the number of records up to it whose time lies below that of the one before |
| MergeSpec.SameOverflowsIff | utils/tau_merge.c:1307-1309 | two records of a trace have the same count exactly when the clock has not gone back between them |
| MergeSpec.MergeIsByTime | utils/tau_merge.c:1211-1323 | for traces whose times do not decrease every merge is ordered by time, at equal times by trace, and then by position |
| MergeSpec.MergeHolds | utils/tau_merge.c:1282-1321 | a merge holds exactly the records that are not of event 60006, and the first record of every trace |
| MergeSpec.NextEmitted | utils/tau_merge.c:1282-1322 | the next record of a trace behind any continuation records |
| TraceMerge.Source.Renumber | utils/tau_merge.c:1255 | only the id of the current record changes in the buffer; what is still to be read does not |
| TraceMerge.Source.Advance | utils/tau_merge.c:1282-1323 | skipping continuation records ends at the next emitted record or the end of the trace, with the overflow count and last time of the skipped records included |
| TraceReader.Reader.NextRecord | utils/tau_merge.c:561-676 | for any file and buffer length the records come in file order, each once; an error is reported only for a torn file, the end only when all is read and nothing is torn |
| TraceReader.Reader.Refill | utils/tau_convert.c:904-922 | a refill changes nothing about the records still to come |
| TraceReader.TraceFile.Read | utils/tau_merge.c:561-676 | a read moves the shared position by the records it delivers |
| OutputBuffer.OutputBuffer.Output | utils/tau_merge.c:698-711 | written and buffered data together are all data output so far, in order |
| OutputBuffer.OutputBuffer.Flush | utils/tau_merge.c:686-696 | a flush moves the buffer to the file and loses nothing |
| EventTable.EventTable.DefineEvent | utils/tau_events.cpp:248-287 | the whole new state of the tables after one definition line |
| EventTable.LineSound | utils/tau_events.cpp:248-287 | one line keeps ids a bijection between names and 1 to globalEventId - 1, every name described by its first line, and every node's table resolving its local ids; it changes no known name's descriptor |
| EventTable.EventTable.ParseEdfFile | utils/tau_events.cpp:180-305 | the state after all lines of a file that comes to entries; any other file ends the program |
| EventTable.LinesSound | utils/tau_events.cpp:197-304 | any number of lines keep all that |
| EventTable.EventTable.GID | utils/tau_events.cpp:366-407 | the state after a look-up, with a re-read exactly when the local id is missing, and the merged file stored again |
| EventTable.GidSound | utils/tau_events.cpp:366-407 | a look-up keeps everything sound and answers with the id of the name the lines read so far give the local id, 0 when there is none |
| EventTable.GidZeros | utils/tau_events.cpp:366-407 | a zero in the tables was there before or stands for the local id just looked up, which the file's present form lacks |
| EventTable.NameOfConcat | utils/tau_events.cpp:366-407 | reading a file again overrides exactly the local ids it defines |
| EventTable.VainLookUpSticks | utils/tau_events.cpp:366-407 | an id once looked up in vain stays 0 until the look-up of another missing id reads a file that defines it |
| EdfFile.RoundTrip | utils/tau_events.cpp:180-364 | parsing the printed merged file gives the entries back if and only if no state has a quote and every parameter but the last ends its line; names may have any quotes inside |
| EdfFile.ParsePrinted | utils/tau_events.cpp:197-304 | the same for the event lines alone, whatever line was read before |
| EdfLine.DecodedHasShape | utils/tau_events.cpp:219-243 | every entry read from a line has an id that is not negative, a state without blanks, a name between quotes, and a parameter without quotes |
| EdfLine.DecodeClean | utils/tau_events.cpp:219-243 | an entry whose state has no quote is decoded from its own printed line, whatever quotes its name has inside |
| EdfLine.DecodeSpoiled | utils/tau_events.cpp:230-243 | a quote in the state, or in text glued to the line, always spoils the entry |
| EdfLine.DecodeNegative | utils/tau_events.cpp:297-301 | a printed entry with a negative id ends the program when it is read |
| EdfLine.LineWithoutParameter | utils/tau_events.cpp:230-243 | a line that ends right behind its name is read with an empty parameter |
| EdfFile.RoundTripFails | utils/tau_events.cpp:341-356 | followed by any other entry, such an entry is not recovered from the merged file |
| EdfFile.PrintedHeaderIsMet | utils/tau_events.cpp:341 | reading a recoverable merged file back, the parser meets the header that was printed |
| EdfFile.SampleFile | utils/tau_events.cpp:180-305 | a file of one event, byte by byte, with what it defines |
| EdfFile.StoreText | utils/tau_events.cpp:341-356 | the printing loop writes the specified text |
| EdfFile.ParseText | utils/tau_events.cpp:180-305 | reading a text line by line into the table comes to the specified parse, with its early exits and its endless case, leaves exactly the state of ParseEdfFile on the entries parsed, and leaves in the header buffer the last comment line met |
| EdfLoop.LoopOutcome | utils/tau_events.cpp:197-304 | for every file and announced number of events: the first events, or all of them and then the line read last again and again, an early end if one of them does not decode, or no end |
| EdfFile.NeverEndsIff | utils/tau_events.cpp:197-208 | parsing never ends exactly when too few event lines follow, all decode, and the last line is empty or a comment |
| EdfFile.CommentAtEndNeverEnds | utils/tau_events.cpp:197-208 | two events announced and only a comment, or only an empty line, following never ends |
| EdfFile.MissingEventsAreCopies | utils/tau_events.cpp:197-304 | when the last line is an event line, the missing events are copies of the last one |
| EdfFile.OneEventTwice | utils/tau_events.cpp:197-304 | two events announced and one following gives that one twice |
| EdfFile.ParsedFileHasShape | utils/tau_events.cpp:180-305 | every entry of every file that can be parsed has the shape of one read from a line |
| MergedFile.ReadBack | utils/tau_events.cpp:327-364 | in the listed table every global id has exactly the name that has it |
| MergedFile.FirstLineDescribes | utils/tau_events.cpp:248-287 | after a run on finished event files the merged file has exactly their names, each with the descriptor of its first definition line |
| MergedFile.MergedFileReadsBack | utils/tau_events.cpp:180-364 | the merged file of such a run reads back if and only if the first definition line of every name has no quote in its state and, unless it is printed last, a parameter with its line end |
| Scan.ScanPrintedInt | utils/tau_events.cpp:219 | a printed number is scanned back, with what follows it left over |
| CallTree.WellNestedIsForest | utils/tau2profile.cpp:406-565 | every complete well-nested trace is the trace of a call forest |
| CallTree.ForestOfTraceIsUnique | utils/tau2profile.cpp:406-565 | and of only one, so the reference profile is well defined |
| CallTree.ExclusiveWithinInclusive | utils/tau2profile.cpp:44-51 | with ordered times 0 <= exclusive <= inclusive <= elapsed time for every routine, recursive or not |
| TraceProfile.ForestProfileIsTraceProfile | utils/tau2profile.cpp:40-61 | the reference profile is the one read off the events: time open, time on top, entries, and entries made while on top |
| Profile.Thread.StateEnter | utils/tau2profile.cpp:406-466 | the whole new state of the thread's books after an entry |
| Profile.Thread.StateLeave | utils/tau2profile.cpp:506-565 | the whole new state of the thread's books after an exit |
| Profile.RunConsistent | utils/tau2profile.cpp:406-565 | at every point of every nested trace countRec is the multiplicity on the stack, fullTime is set iff countRec > 0, topTime is set iff the state is on top |
| Profile.CallAccounted | utils/tau2profile.cpp:406-565 | one call with everything inside it changes every state's books by its reference profile |
| Profile.RunRefinesForest | utils/tau2profile.cpp:406-565 | online bookkeeping refines the recursive profile for all times but -1: on top of any consistent books a forest's events add exactly its inclusive and exclusive times, calls and subroutine counts |
| Snapshots.FinalProfile | utils/tau2profile.cpp:406-565 | after a complete trace the books show the profile of its call forest |
| TraceProfile.BooksAreTraceProfile | utils/tau2profile.cpp:406-565 | for every complete trace with times from 0 on, the books end with the time each routine was open, the time it was on top, its entries, and the entries made from it |
| TraceProfile.RecursionFromTimeZero | utils/tau2profile.cpp:406-565 | a routine that calls itself from time 0 on |
| Snapshots.PrintSnapshot | utils/tau2profile.cpp:844-859 | what is printed for every thread is the thread with its stack emptied on a copy; the live threads are not touched |
| Snapshots.SnapshotProfile | utils/tau2profile.cpp:844-859 | a snapshot shows the profile of the trace so far with every open call closed at its time |
| Snapshots.PlayTrace | utils/tau2profile.cpp:844-859 | for any interleaving of threads and snapshots every thread ends with the books of its own events alone, and every snapshot shows the profile of each thread's events up to it, closed at its time |
| Snapshots.Conservation | utils/tau2profile.cpp:411-563 | at every point of every run exclusive times plus the running stretch are the time some call was open, and calls exceed subroutine counts by the entries on an empty stack |
| Snapshots.ConservationFromStart | utils/tau2profile.cpp:411-563 | the same from an empty thread |
| UserEvents.UserEvent.Trigger | utils/tau2profile.cpp:306-328 | the whole new state of a user event after one trigger |
| UserEvents.TriggersSummarised | utils/tau2profile.cpp:299-329 | after any number of triggers count, sum and sum of squares are those of the middle values of the triples, and the maximum is theirs or zero |
| UserEvents.SamplesAreMiddles | utils/tau2profile.cpp:299-316 | the samples are the second, fifth, eighth, ... value |
| UserEvents.SumsGrow | utils/tau2profile.cpp:317-319 | each sample adds itself to the sum and its square to the sum of squares |
| UserEvents.MaximumExact | utils/tau2profile.cpp:320-323 | the kept maximum is the maximum exactly when some sample is not negative |
| UserEvents.MinimumExact | utils/tau2profile.cpp:324-328 | the kept minimum is the minimum exactly when some sample is negative, or none is zero, or the last one is |
| UserEvents.MinimumLosesZero | utils/tau2profile.cpp:324-328 | the samples 0, 5 are reported with a wrong minimum |
| Wildcard.WildcardCompare | utils/tau_selective.cpp:324-372 | true exactly when the pattern, less some trailing stars and blanks, denotes the string, whose path is dropped when the pattern has no separator |
| Wildcard.ScanFromStar | utils/tau_selective.cpp:344-372 | the single-backtrack scan decides the relation and ends, by the last star, the retry position and the string position |
| Wildcard.AcceptsIsGlob | utils/tau_selective.cpp:324-372 | the position-wise reading agrees with the declarative glob relation on all inputs |
| Wildcard.DenotesConcat | utils/tau_selective.cpp:324-372 | a pattern in two parts denotes what is in two parts |
| Wildcard.StarAndQuestionMark | utils/tau_selective.cpp:324-372 | the star alone accepts everything, the question mark exactly the strings of one character |
| Wildcard.PaddingAllowed | utils/tau_selective.cpp:363-365 | a blank or a star behind a pattern takes nothing away |
| Wildcard.NewerStarSubsumes | utils/tau_selective.cpp:346-351 | forgetting the older backtrack point at a newer star loses no match |
| Wildcard.NoRetryAtEnd | utils/tau_selective.cpp:363-368 | once the string is used up, a retry could succeed only if the rest of the pattern is padding |
| Wildcard.RemovePath | utils/tau_selective.cpp:328-334 | skipping to behind each separator in turn leaves the base name |
| Wildcard.BaseNameIsLastPart | utils/tau_selective.cpp:328-334 | the base name is what stands behind the last separator, or the whole path when there is none |
| Selective.Requests.InstrumentEntity | utils/tau_selective.cpp:269-319 | a routine is wanted exactly when no exclude pattern (the POMP2 one included) selects it and the include list is empty or selects it |
| Selective.Requests.ProcessFileForInstrumentation | utils/tau_selective.cpp:377-422 | the same for files, with the other star |
| Selective.PlainNamesIgnoreDirectories | utils/tau_selective.cpp:324-372 | a list of literal names selects exactly the paths whose base name is in it |
| Selective.LiteralAcceptsItself | utils/tau_selective.cpp:324-372 | a pattern without wildcards and blanks accepts itself only |
| Selective.NamedInAnyDirectory | utils/tau_selective.cpp:324-372 | a file named without its directory is selected in any directory, and no other file is |
| Layouts.SwapInvolution | utils/tau_merge.c:158-171 | swapping bytes twice is the identity in all three widths |
| Layouts.SetEv | utils/tau_merge.c:215-447 | after storing an id the accessors report the old record with that id, in all five layouts, and no other record changes |
| Layouts.SetNid | utils/tau_merge.c:215-447 | the same for the node |
| Layouts.SetTi | utils/tau_merge.c:215-447 | the same for the time |
| Layouts.DetermineFormat | utils/tau_merge.c:450-525 | a layout is committed to exactly when it is the only one that reads the mark |
| Layouts.ReadsWhatWasWritten | utils/tau_merge.c:215-447 | from the bytes a machine of either byte order and width writes, the accessors of any reader report the fields written, in the layout that fits the writer |
| Layouts.NativeReadsOwn | utils/tau_merge.c:215-447 | in the native layout a machine reads its own narrow records |
| Layouts.WideIdIsSameNumber | utils/tau_merge.c:243-275 | a negative id is the same number in the wide field |
| Layouts.Detects32 | utils/tau_merge.c:450-525 | a narrow file is recognised exactly by a condition on the first time stamp, whoever wrote and reads it |
| Layouts.Detects64 | utils/tau_merge.c:450-525 | a wide file is recognised exactly by a condition on node, thread and padding, for writers and readers of either byte order |
| Layouts.NodeThreeNotRecognised | utils/tau_merge.c:450-525 | a trace of node 3, thread 0 with zero padding is not recognised |
| MessageWord.EncodeDecode | utils/tau_convert.c:569-575 | packing the decoded fields gives every word back, and the fields are always in range |
| MessageWord.DecodeEncode | src/Profile/Tracer.cpp:900-906 | what the library packs is decoded to the same fields exactly when they fit |
| MessageWord.DecodeIsInjective | utils/tau_convert.c:569-575 | no two words decode alike |
| MessageWord.PackedTogether | src/Profile/Tracer.cpp:900-906 | the fields do not disturb each other in the word |
| MessageWord.PackedExample | src/Profile/Tracer.cpp:900-906 | one word, bit by bit |
| Matching.GetMatchingRecv | utils/tau_convert.c:990-1066 | for every trace, the first later receive with the tag, length and node, or that there is none, and then the caller's remaining records and file position are as before; or the program ends at an unknown event or a torn file |
| Matching.LookAhead | utils/tau_convert.c:1026-1063 | the search on a descriptor of its own ends at the first match or unknown event in what it has left to read, or at its end |
| Matching.MatchesWhatWasPacked | utils/tau_convert.c:1035-1044 | for every message packed by the library, its word read as signed or not: a record matches exactly when its event has tag -8, the message the tag and length looked for, and the record the node |
| Matching.SmallReceiveMatches | utils/tau_convert.c:1035-1044 | a receive of 8 bytes with tag 5 |
| Matching.AnswerIsDetermined | utils/tau_convert.c:1026-1063 | unless the file is torn, the null descriptor is reached exactly when an unknown event stands in front of the first match, and otherwise a match is found exactly when there is one |
| Matching.UnknownEventBeforeReceive | utils/tau_convert.c:1032-1035 | a trace in which the receive is there and the search goes through the null descriptor first |
| Matching.SkipThrough | utils/tau_convert.c:1568-1610 | the first pass counts records, overflows and init events, marks exactly the known events that occur, and finds the first and last time and the largest node, with threads not counting the first record's |
| EventHash.Events.Add | utils/tau_convert.c:645-697 | a new descriptor shadows older ones of its id and leaves all other ids and the used count alone |
| EventHash.Events.MadeTexts | utils/tau_convert.c:666-690 | which name, parameter and state a descriptor keeps, by length, first character and output format |
| EventHash.Events.GetEventStruct | utils/tau_convert.c:699-713 | the lookup gives the latest descriptor of the id, or none |
| EventHash.Events.GetEvent | utils/tau_convert.c:715-733 | the number of the latest descriptor, which is marked; the used count stays the number of marked descriptors |
| EventHash.MarkUsedEffect | utils/tau_convert.c:715-733 | marking changes one lookup and adds one to the marked descriptors unless it was marked |
| EventHash.LongNamesStayApart | utils/tau_convert.c:666-674 | stored long names are equal only when number and text are |
| PvStacks.Output.Exit | utils/tau_convert.c:2446-2467 | an exit pops the CPU's stack and names its new top; underflow exactly at the base |
| PvStacks.Output.Enter | utils/tau_convert.c:2468-2487 | an entry pushes the state it names; it writes behind the array exactly at a depth of the array's size, and the guard never fires first |
| PvStacks.ExitRestores | utils/tau_convert.c:2446-2487 | an exit restores the CPU's stack from before the matching entry, for any balanced events of the CPU and any events of others in between |
| PvStacks.BelowStays | utils/tau_convert.c:2446-2487 | what lies below stays as long as the CPU does not go below it |
| PvStacks.DoneIff | utils/tau_convert.c:2446-2581 | a conversion is done exactly when no CPU gets deeper than its array, none exits more often than it has entered, and entries and exits balance on each |
| PvStacks.UnderflowIff | utils/tau_convert.c:2450-2456 | when no CPU gets deeper than its array, the program stops for an underflow exactly when some CPU exits too often |
| PvStacks.OverrunDepth | utils/tau_convert.c:2470-2475 | a write behind the array is made by an entry at a depth of exactly the array's size |
| PvStacks.Convert | utils/tau_convert.c:2446-2581 | every run over known CPUs ends as specified, having written one line for each event it got through, in order: the state entered, or the state that the exit leaves on top; a write behind the array comes after one more line |
| Numbering.Threads.DefThread | utils/tau2vtf.cpp:164-185 | the counts stay the numbers of pairs, in all and per node, and the flag says whether some thread is not 0 |
| Numbering.AssignIds | utils/tau2vtf.cpp:537-547 | each pair gets its position, and the inverse tables agree |
| Numbering.IdsAreBijection | utils/tau2vtf.cpp:537-547 | ids are a bijection from the pairs to 0 to n - 1 that keeps the key order |
| Numbering.NodeRun | utils/tau2vtf.cpp:585-609 | in key order a node's counted number of pairs, and no others of it, follow its first one |
| Numbering.WriteGroups | utils/tau2vtf.cpp:585-609 | one group per node in node order, holding exactly its threads; together the groups list all ids once, in order |
| Numbering.NumberThreads | utils/tau2vtf.cpp:537-609 | from the counts of the first pass to the groups |
| Numbering.ComputeOffsets | utils/tau2otf.cpp:562-574 | offset i is the number of threads on the nodes before i |
| Numbering.OtfIdsAreBijection | utils/tau2otf.cpp:82-101 | GlobalId is a bijection onto 1 to total, and the single-thread shortcut agrees with the offset formula whenever it is used |
| Numbering.AllOnes | utils/tau2otf.cpp:82-101 | with one thread per node the offset of a node is its number |
| LoopTimers.Instrumentation.ProcessBlockStatements | utils/tau_instrument.cpp:1654-1778 | the traversal adds one start and one stop for each of the listed loops with fewer than loopLevel loops around it, in the order listed |
| LoopTimers.LoopsAreTheLoops | utils/tau_instrument.cpp:1672-1778 | the listed loops are the For, While and Do statements that a way through the tree leads to, once for every way, each with the number of loops around it, in the order of the text |
| LoopTimers.RequestsArePairs | utils/tau_instrument.cpp:1391-1408 | the requests are a start and a stop for each loop that is not too deep, and nothing else |
| LoopTimers.StartedIff | utils/tau_instrument.cpp:1672-1706 | a timer is started at a place exactly when a For, While or Do statement lies there inside fewer than loopLevel of them |
| LoopTimers.DoLoopIsTimed | utils/tau_instrument.cpp:1672-1706 | one do-while loop gets its timer |
| LoopTimers.Instrumentation.AddRequestForLoop | utils/tau_instrument.cpp:1391-1408 | one start at the loop's begin, one stop behind its end |
| LoopTimers.TimersNest | utils/tau_instrument.cpp:1391-1778 | the timer intervals nest properly whenever the statements do |
| LoopTimers.RequestsConcat | utils/tau_instrument.cpp:1654-1778 | requests of loops in sequence are the requests of each in sequence |
| RemoveRuns.RemoveRuns | utils/pprof.cpp:179-199 | the returned string is the input without leading blanks and with runs reduced to one, although the bound is not updated |
| RemoveRuns.CloseRun | utils/pprof.cpp:187-195 | closing one run drops exactly the other blanks of the run, and beyond the end of the string does nothing to it |
| RemoveRuns.CompactIsIdempotent | utils/pprof.cpp:179-199 | no two blanks are adjacent, none leads, and a second compaction changes nothing |
| RemoveRuns.CompactKeepsWords | utils/pprof.cpp:179-199 | no word is lost, changed or joined with another |
| RemoveRuns.CompactEnd | utils/pprof.cpp:179-199 | a blank at the end is kept, and nothing is left exactly of a string without words |

## Left out

- Merger.Merge.MergeRecords: offline merging only; the wait for another process to extend a trace, the `-a` time adjustment and the KSR branch are not modelled, and traces are finite.
- MergeProgram.MergeTraces: what a kept trace's event file comes to is a function of the version (`EdfFile.ParseText` models the text), the node offset of the workflow option, which the source reads from the file name, is a parameter, and records are taken decoded (`Layouts` models their bytes).
- Meaning.Means: which versions of an event file are seen depends on the other process; between two look-ups they are not distinguished.
- TraceReader.Reader.NextRecord: the part of a torn record that a read may deliver is not represented, only that it was there.
- OutputBuffer.OutputBuffer.Output: capacity counts records of the written type, the source counts bytes; writes never fail.
- EventTable.EventTable.GID: re-opening files and the static (non-dynamic) event file format are not modelled.
- EventTable.EventTable.ParseEdfFile: says nothing about the tables of a program that has ended.
- EdfLine.DecodeLine: fixed buffer lengths for lines, names, states, parameters and the header are not modelled; the value of the tag variable before the first event, which the source does not initialise, is a parameter.
- EdfFile.ParseFile: a first line without a number counts as corrupt, where the source goes on with an uninitialised count.
- Profile.RunRefinesForest: times are integers, not doubles, and not the sentinel -1; events name defined states and each exit names the innermost open call.
- Snapshots.PlayTrace: when snapshots are taken (`SnapshotControl`) is arbitrary; the monotonically increasing events that `StateLeave` also handles, and the printing of profiles, are not modelled.
- UserEvents.UserEvent.Trigger: values are integers without overflow.
- Wildcard.WildcardCompare: strings are sequences of characters up to the terminating NUL.
- Selective.Requests.InstrumentEntity: reading the selective instrumentation file is not modelled.
- Layouts.DetermineFormat: reading the first bytes and seeking back; the two candidate words are parameters.
- Matching.GetMatchingRecv: the backward search for a matching send is not modelled, and the descriptor table is a map from event ids to tags.
- Matching.SkipThrough: the update of the largest thread id per node, which compares time stamps, is not modelled, and without threads a record's node id is its CPU.
- EventHash.Events.Add: ids are not negative.
- PvStacks.Output.Enter: what happens after a write behind the array is undefined and not modelled.
- PvStacks.Convert: the time stamps and the compact spelling of the written lines are not modelled.
- Numbering.Threads.DefThread: called once for every pair; the order in which the map is walked is a parameter with its key order required.
- Numbering.OtfIdsAreBijection: nodes and threads are numbered without gaps.
- LoopTimers.Instrumentation.ProcessBlockStatements: one routine that is to be instrumented at loop level; of a loop only the body is entered, as in the source; gotos, Fortran loops and exits, and requests for UPC statements are not modelled, nor is the text of timer names.
- Other converters, OTF and VTF writing, the profile viewer's tables, and `replaceAll` would add only easy members.
