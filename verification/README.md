# Verified model of norcom2kv

norcom2kv watches a directory of files with WMO bulletins from NORCOM. It takes the new bytes of every file
that has grown, cuts them into bulletins, splits the bulletins into SYNOP and METAR reports, sends each report
to kvalobs, and keeps in files what kvalobs could not take, to be sent again. This project models that
pipeline in Dafny and proves what it guarantees, and exactly where it does not.

The source works step by step on streams, maps and objects. The model does the same: streams, the bulletin
splitter, the file entries, the collector and the sender are classes whose methods change their fields in
loops. Each method is proved against a function or a state machine, and the theorems are about those.

| file | what it models |
|---|---|
| Text, Streams | character classes, `trim`, `std::istream` with `get`, `putback`, `getline`, eof and fail flags |
| Framing | cutting bulletins out of a text as one pass of a state machine over its characters |
| Deframer | `findZCZC` and `getMessage` on a stream, proved to do what the machine does |
| FramingLaws, FramingLimits | round trips, safe places to cut, which ZCZC is found, when decoding never ends |
| FramingEnds | what every text is made of, and what becomes of a message that is cut off at the end |
| Alphabets | which characters are told apart, and reading back bulletins as they stand in a file |
| Reports, ReportLaws, OpenReports | `skip`, `skipEmptyLines`, `readReport`, and reading back printed reports, closed or not |
| Bulletins, WmoRaports | the recognisers, grouping by identifier, and the class `WMORaport` up to `split` |
| Recognisers, BulletinTexts | the patterns piece by piece, and what is listed of a printed bulletin |
| Crc | the table-driven CCITT checksum against division bit by bit |
| Increments | the (offset, checksum) detector of new bytes against one that remembers the whole file |
| Persistence, Numbers | the state file written and read, and which texts are entries and numbers |
| FileEntries, Scanning | scans and collection passes on values |
| CopyDisk, CopyRuns | the directory of copies over scans, passes and runs |
| Collector | the classes `FInfo` and `CollectWmoReports`, proved to do what Scanning says |
| Runs, FileRuns | any interleaving of scans, passes, saves and restarts, and what it guarantees for one file |
| Outbox | where every message is: accepted, refused, lost or in one saved file |
| Replies | what each answer of kvalobs and the state of the disk come to for a message |
| Sender | the class that sends, saves and sends again, proved to do what Outbox says |
| Pipeline, EndToEnd | the whole way from the bytes of a growing file to the messages on the wire |
| MainLoop | the program: collector, splitter, sender and state file working together |
| Witnesses | inputs on which the program does not do what one might expect of it, and some it must tell apart |

The answers of the file system, of the clock and of kvalobs are inputs to each step and may be anything.

## Main results

- **From file to server** (`MainLoop.Norcom2kv.Delivered`, `MainLoop.Norcom2kv.ThreeLooks`): at any time in the
  life of the program, through any scans, failed reads, interrupted passes, resends and restarts, the reports of
  a growing file that were sent under an identifier are, in order and each once, those that one reading of its
  last content lists; and what was sent is, message by message and in order, what went over the wire for the
  first time. The file must be remembered whenever it is read on in, and each reading but the last must end
  where the splitter is idle; by `Runs.HandedOnOnce` the first is exactly what handing every byte on once takes,
  and by `Pipeline.CutExactly` the second exactly what decoding the parts separately takes, whatever is
  appended. Three looks in which a new file stays the same and can be read deliver all of it. Where copies keep
  apart, what is read of a file is what that file itself held (`MainLoop.Norcom2kv.OwnContent`).
- **Framing** (`FramingLaws.RoundTrip`, `FramingEnds.TextAccountedFor`, `FramingEnds.UnfinishedFrame`): printed
  frames are read back; every text whatever is its messages, the gaps between them and what is left over, with
  nothing lost or made up; and a message cut off at the end is handed over under an exact condition.
- **Bulletins** (`Alphabets.WrittenReadBack`, `OpenReports.OpenBulletinReadBack`, `Recognisers.NilExactly`,
  `BulletinTexts.SynopBulletin`): bulletins as they stand in a file, numbered or not, are read; of a printed SYNOP
  bulletin every report that is not NIL is listed, in order, under exactly its section, the last one also if "="
  is missing; and each pattern recognises exactly the texts that are put together from its pieces.
- **Checksum** (`Crc.CrcOfString`, `Crc.BurstDetected`, `Increments.DetectorsAgree`): the table loop divides
  by x^16 + x^12 + x^5 + 1; no burst of sixteen bits goes unnoticed; remembering a length and a checksum is as
  good as remembering the file exactly when no two successive contents collide.
- **Collector** (`Runs.HandedOnOnce`, `Runs.ForgottenExactly`, `FileRuns.StableWhenCollected`,
  `FileRuns.CollectedByThird`, `FileRuns.StuckUntilFreed`): each byte is handed on once, also across restarts,
  exactly if the file is remembered at every reading, and exactly what makes the program forget it; a file is
  collected only when it was stable, and within three scans exactly unless an unreadable copy gets in the way;
  and exactly what sets such a file free again.
- **Copies** (`CopyDisk.ListedApart`, `CopyRuns.ReadOwn`, `CopyRuns.OwnContentRead`,
  `CopyRuns.NothingLeftBehind`): no two files of a listing are copied to one name; what is read of a file is what
  that file held when it was copied, over a scan and its pass and over whole runs; and no copy is left behind
  unless its file is dropped.
- **Outbox** (`Outbox.MessagesConserved`, `Outbox.LostExactly`, `Sender.StaysSaved`, `Sender.AllSettled`): over
  all runs every message was transmitted in its turn and is in exactly one place, and nothing is sent again after
  an answer that settles it; a message is lost exactly if it had to be saved and its own write failed; and after
  a pass over all files in which kvalobs settles everything no message waits any more.
- **Answers** (`Replies.FateByReply`, `Replies.KeptUntilSettled`, `Replies.NoneLost`, `Replies.PassSends`): which
  answers take, refuse or keep a message; a kept one stays in its own file exactly until it is sent again and
  answered otherwise; while fewer than ten thousand names are taken none is lost; and a pass goes on until kvalobs
  is gone, whatever else it answers.

## What the proofs show about the code

Where the code and its comments differ the model follows the code.

- Decoding never ends on a text that ends in a ZCZC that is being looked for, followed by nothing but blanks,
  digits and line ends: a failed `get` leaves the character as it was, and `putback` clears the end-of-file
  flag. `FramingLimits.HangsExactly` says for which texts; `Deframer.HeaderLoopForever` shows the inner loop
  and `Deframer.DecodeLoopForever` the outer one. An instance is `Witnesses.HeaderAtEnd`.
- A NUL after four, nine, fourteen and so on Ns that do not close a message makes the source read past the end
  of "NNNN", where C++ defines nothing (`Witnesses.NulAfterNs`). `FramingEnds.DefinedExactly` says which texts
  stay within it; those without NUL after NNNN are among them.
- A message whose end mark is missing is dropped (`Witnesses.NoEndMark`), although the comment at
  src/WMORaport.cc:638-641 says otherwise: the statements it stands beside cannot be reached. A last message is
  handed over exactly when of its trailer the line ends, NNNN and at least one carriage return are there
  (`FramingEnds.UnfinishedFrame`).
- A ZCZC right after an odd number of Zs is overlooked (`FramingLimits.FirstMarkFound`), as in ZZCZC
  (`Witnesses.Overlooked`).
- A body that ends in N, CR or LF loses those characters to the trailer (`FramingLaws.KeptWhole`), as AN loses
  its N (`Witnesses.LastLetterLost`).
- A copy that could not be read keeps its name (`FileRuns.FailedReadSticks`). The file is then not collected,
  however often it is listed (`Witnesses.UnreadableCopy`), until a restart; a listing without it; a failed stat
  when its time has changed; or, when its time has not changed, the copy becoming readable or a pass being cut
  off before it (`FileRuns.FreedExactly`, `FileRuns.StuckUntilFreed`).
  Outside debugging the pass that cannot read a copy removes it all the same, so that it never becomes readable
  (`CopyRuns.UnreadableGone`, `CopyRuns.GoneForGood`).
- A file that goes away between its copy and the stat after it is dropped, and its copy stays on the disk
  (`Witnesses.CopyLeft`). Over runs that drop no file nothing stays (`CopyRuns.NothingLeftBehind`).
- A last report of a single line without a line end is read with its last character twice
  (`OpenReports.OpenLineRead`).
- A running program forgets a file exactly when a copy or a stat of it fails or a listing that is not empty lacks
  it, and in a restart exactly when the state file does not remember it or it is gone
  (`Runs.ForgottenExactly`). All of it is new when it is read next (`Witnesses.MissedOnce`), unless a restart
  comes before and the state file, which is written after passes only, still remembers it (`Runs.HandedOnOnce`).
- A file name with a line feed is not restored from the state file (`Persistence.RestoredUnlessLineFeed`,
  `Witnesses.LineFeedInName`).
- A decoder name with "/" in it, as every BUFR message has, cannot be saved under, so such a message is lost
  when kvalobs is down (`Outbox.SlashNotWritten`, `Outbox.LostExactly`, `Witnesses.SlashInDecoder`).

## Model

| member | source | states |
|---|---|---|
| Crc.CrcOfString | src/crc_ccitt.cc:97-114 | for every byte string the table loop ends with the remainder of the bit-by-bit division, below 2^16, whether chars are signed or not |
| Crc.CrcOfCString | src/crc_ccitt.cc:78-95 | the C-string loop gives the checksum of the bytes before the first NUL, so both versions agree on NUL-free input |
| Crc.TableStepDivides | src/crc_ccitt.cc:36-74 | looking two nibbles up in the tables is eight division steps, for any upper bits of the byte |
| Crc.DivideLinear | src/crc_ccitt.cc:105-111 | the remainder of a bitwise sum is the bitwise sum of the remainders |
| Crc.BurstDetected | src/crc_ccitt.cc:97-114 | two bit strings that differ, and only within sixteen bits, never share a remainder |
| Crc.TwoByteOverwriteDetected | src/crc_ccitt.cc:97-114 | an overwrite confined to two adjacent bytes always changes the checksum, at any place in a text of any length |
| Crc.RemainderParity | src/crc_ccitt.cc:105-111 | the parity of the register is the parity of all bits divided so far |
| Crc.OddOverwriteDetected | src/crc_ccitt.cc:97-114 | flipping an odd number of bits anywhere changes the checksum |
| Increments.PartsAgree | src/CollectWmoReports.cc:632-671 | one step: offset and checksum give the same new part as the whole last content exactly when there is no collision |
| Increments.DetectorsAgree | src/CollectWmoReports.cc:632-671 | over any sequence of appended, overwritten or truncated contents both detectors hand over the same parts exactly when no content collides with the one before |
| Increments.NoCollision | src/CollectWmoReports.cc:632-671 | appending, truncating, overwriting within two adjacent bytes and flipping an odd number of bits never collide |
| Increments.GrowingOnce | src/CollectWmoReports.cc:632-671 | the parts of a file that only grows, put together, are the file: no byte twice, none left out |
| Streams.InStream.Get | src/WMORaport.cc:150-151 | one character is read; at the end the variable keeps its value and eof and fail are set |
| Streams.InStream.Putback | src/WMORaport.cc:181 | putting back clears eof first, and fails on a stream that has failed |
| Streams.InStream.GetLine | src/WMORaport.cc:294 | the line up to the next line feed is read and that line feed consumed; fail only if nothing was there |
| Deframer.SeekMark | src/WMORaport.cc:149-167 | the matcher stops where the reference machine has found ZCZC, or at the end of the text |
| Deframer.ReadHeaderRun | src/WMORaport.cc:169-181 | the run of characters after ZCZC is read as the machine reads it, that is, blanks, digits and line ends (Alphabets.HeaderEndsExactly); at the end of the text the loop hangs |
| Deframer.HeaderLoopForever | src/WMORaport.cc:169-179 | a header run at the end of the text is never left, after however many rounds |
| Deframer.FindZCZC | src/WMORaport.cc:136-184 | true exactly if a header run that ends in a line feed was found |
| Alphabets.HeaderChars | src/WMORaport.cc:140 | what may stand after ZCZC is a blank, one of ten digits, a carriage return or a line feed |
| Alphabets.HeaderEndsExactly | src/WMORaport.cc:169-183 | what stands after ZCZC is read on in exactly as long as these come; what follows is the body if a line feed stands before it, and otherwise there is no message |
| Alphabets.WrittenReadBack | src/WMORaport.cc:136-184 | bulletins with any blanks, digits and line ends after ZCZC, a body and a trailer, all written out in characters, are read as they stand, whatever follows them |
| Deframer.ReadTrailer | src/WMORaport.cc:596-629 | after NNNN: carriage returns and one line feed close the message, anything else drops it |
| Deframer.ReadBody | src/WMORaport.cc:575-642 | the loop with its three counters delivers the body the machine delivers, with the trailer erased, and nothing without an end mark |
| Deframer.GetMessage | src/WMORaport.cc:554-643 | one message: same outcome, text and place in the stream as the machine, also when it never returns |
| Deframer.DecodeLoopForever | src/WMORaport.cc:657-668 | on a stream that has failed short of eof every round of decode leaves everything as it is, so that there is always another |
| Framing.RunAppend | src/WMORaport.cc:646-678 | the machine that stands for the decoder goes through a text piece by piece |
| Framing.RunKeeps | src/WMORaport.cc:554-643 | the machine keeps every character: what it has emitted, skipped and holds is what it was given |
| FramingLaws.ScannedMeaning | src/WMORaport.cc:582-594 | what iNNN, rnCount and count mean: the last count characters are N, CR or LF, rnCount of them line ends, the last iNNN of them N |
| FramingLaws.NoMarkInside | src/WMORaport.cc:582-596 | a body without NNNN never ends early |
| FramingLaws.KeptWhole | src/WMORaport.cc:582-604 | a body comes through whole exactly if its last character is not N, CR or LF, a fifth N in a row excepted |
| FramingLaws.PrintedFramesReadBack | src/WMORaport.cc:540-643 | deframing undoes framing, for any list of frames and whatever follows them |
| FramingLaws.RoundTrip | src/WMORaport.cc:540-668 | printed bodies come back unchanged exactly if none of them ends in what trailers are made of |
| FramingLaws.IdleAppend | src/WMORaport.cc:646-678 | after a text that leaves the decoder idle, decoding starts afresh |
| FramingLimits.FirstMarkFound | src/WMORaport.cc:149-165 | the first ZCZC is found exactly if the run of Zs ending at its first letter is odd, and nothing is found before it |
| FramingLimits.NoDoubleZ | src/WMORaport.cc:149-165 | on a text without ZZ the matcher stops at the first ZCZC |
| FramingLimits.SafeCutExactly | src/WMORaport.cc:646-678 | a text may be cut off and decoded on its own, whatever follows, exactly if it leaves the decoder idle |
| FramingEnds.TextAccountedFor | src/WMORaport.cc:576-668 | on every input the bodies handed over, also one at the end of input, are disjoint slices in increasing order, each a start mark, header run, body and trailer, and nothing is lost or made up |
| FramingEnds.TrailerMeaning | src/WMORaport.cc:596-627 | what is erased is all N, CR or LF: at least three line ends, NNNN, carriage returns and a line feed, which may only be missing at the end of input |
| FramingEnds.UnfinishedFrame | src/WMORaport.cc:576-642 | a last message with any part of its trailer missing is handed over exactly if the line ends, NNNN and one carriage return are there, and otherwise dropped |
| FramingEnds.DefinedExactly | src/WMORaport.cc:582-596 | the source stays within "NNNN" on exactly the texts in which no NUL stands in a body after a run of Ns whose length is 4 modulo 5 |
| FramingEnds.NoNulDefined | src/WMORaport.cc:582-596 | it does on all texts in which no NUL follows NNNN |
| FramingEnds.IdleDefined | src/WMORaport.cc:646-668 | after a text that leaves the decoder idle the source stays within "NNNN" on the rest exactly if it does on the rest alone |
| FramingLimits.HangsExactly | src/WMORaport.cc:149-183 | decoding never ends exactly on the texts that end in a ZCZC that is looked for and a header run |
| Reports.Skip | src/WMORaport.cc:118-132 | leading characters of a set are consumed, and the first other one put back |
| Reports.SkipEmptyLines | src/WMORaport.cc:243-265 | the first non-empty line, ended by any character outside its alphabet, with the last character doubled at the end of input |
| Reports.ReadReport | src/WMORaport.cc:268-304 | the lines up to the first "=" are gathered, right-trimmed, and the stream stands right after them |
| Alphabets.LineChars | src/WMORaport.cc:250-259 | the characters of a first line, and those skipped before and after it |
| Alphabets.WordChars | src/WMORaport.cc:69-74 | what \d, isalnum and \w stand for |
| Alphabets.SpaceChars | src/WMORaport.cc:283 | what is trimmed |
| Text.TrimmedExactly | src/WMORaport.cc:356 | trimming takes away space on both sides, and leaves none there |
| OpenReports.FirstLineEnds | src/WMORaport.cc:250-264 | a first line ends at the first character outside its alphabet, which is dropped together with the tabs and line ends after it |
| OpenReports.OpenReportRead | src/WMORaport.cc:282-301 | lines without "=" up to the end of the bulletin are one more report: each trimmed on the right, and one more line end |
| OpenReports.OpenLineRead | src/WMORaport.cc:252-262 | a single such line without a line end is read with its last character twice |
| OpenReports.OpenBulletinReadBack | src/WMORaport.cc:268-304 | closed reports and after them one that is not are all read back, in order |
| OpenReports.NoReportExactly | src/WMORaport.cc:276-303 | there is no next report exactly if after blanks nothing is left, or a character that cannot stand in a first line |
| ReportLaws.ReportRead | src/WMORaport.cc:268-304 | a printed report is read back, line ends and trailing blanks aside |
| ReportLaws.LastReportRead | src/WMORaport.cc:252-290 | so is one whose "=" is the last character of the bulletin |
| ReportLaws.PrintedReportsReadBack | src/WMORaport.cc:268-304 | a list of printed reports is read back in order, whatever follows |
| ReportLaws.BulletinReadBack | src/WMORaport.cc:268-304 | a bulletin of nothing but reports yields exactly those |
| WmoRaports.RemoveEmptyKeys | src/WMORaport.cc:306-322 | exactly the blank keys are erased |
| WmoRaports.TidyKept | src/WMORaport.cc:306-322 | on lists without blank keys nothing is erased |
| WmoRaports.WMORaport.DoSynop | src/WMORaport.cc:325-367 | every identifier's list grows by exactly the reports of the bulletin listed under it; no key is ever removed |
| WmoRaports.WMORaport.DoMetar | src/WMORaport.cc:369-400 | the same for METAR, reports before a first identifier being dropped in the end |
| WmoRaports.WMORaport.DoDispatch | src/WMORaport.cc:477-487 | only kinds that are collected are read |
| WmoRaports.WMORaport.Dispatch | src/WMORaport.cc:489-536 | a bulletin goes to the list of the kind its heading names, and to no other |
| WmoRaports.WMORaport.Decode | src/WMORaport.cc:646-678 | the lists after a whole text are the lists before and what its bodies add, in order; it does not return exactly if the machine says so |
| WmoRaports.WMORaport.Split | src/WMORaport.cc:680-692 | the same for a text handed to a new stream |
| WmoRaports.HeadingsDiffer | src/WMORaport.cc:72-73 | no heading is both SYNOP and METAR, so the order in which they are tried does not matter |
| Recognisers.NilExactly | src/WMORaport.cc:70 | a report is NIL exactly if it is space, a number or none, blanks, NIL, blanks, "=" or nothing, and space |
| Recognisers.HeadingExactly | src/WMORaport.cc:73-74 | a line is a heading exactly if it is put together from the pieces of the pattern |
| Recognisers.KindExactly | src/WMORaport.cc:73-74 | SYNOP headings begin with SI, SM or SN, METAR headings with SA or SP |
| Recognisers.SynopRead | src/WMORaport.cc:69 | a section line is taken apart into identifier, mobile or not, and what follows, each piece as long as it can be |
| Recognisers.SynopExactly | src/WMORaport.cc:69 | there is an identifier exactly if blanks and a section stand in front; otherwise all of the text is the report |
| Recognisers.MetarRead | src/WMORaport.cc:71 | METAR or SPECI in front is the identifier, what follows is the report |
| Recognisers.MetarExactly | src/WMORaport.cc:71 | there is an identifier exactly if one of the words stands in front; otherwise all of the text is the report |
| BulletinTexts.SectionAfresh | src/WMORaport.cc:343-347 | a report with an identifier starts the lists afresh |
| BulletinTexts.SectionListed | src/WMORaport.cc:337-362 | of a section and the reports after it exactly those that are not NIL are listed, in order, under exactly that section; none if it is a mobile one |
| BulletinTexts.SynopBulletin | src/WMORaport.cc:325-367 | the same of a printed bulletin with its heading, reports of several lines, and a last one that may lack "=" |
| BulletinTexts.MetarListed | src/WMORaport.cc:380-396 | of METAR or SPECI and the reports after it exactly those that are not blank are listed, in order, under exactly that word |
| BulletinTexts.MetarBulletin | src/WMORaport.cc:369-400 | the same of a printed bulletin with its heading |
| BulletinTexts.FileOfBulletins | src/WMORaport.cc:646-692 | a file of such bulletins lists what each of them lists, and decoding it ends idle |
| Bulletins.NearestIdentifier | src/WMORaport.cc:343-347 | the identifier in force is that of the nearest report at or before that has one |
| Bulletins.NoIdentifierYet | src/WMORaport.cc:356 | before a first identifier there is none |
| Bulletins.SynopIdentNotBlank | src/WMORaport.cc:343-344 | a SYNOP identifier is never blank, so that removeEmptyKeys never removes a SYNOP key |
| Bulletins.ReportsConserved | src/WMORaport.cc:335-362 | the lists of all identifiers together hold every listed report exactly once, and nothing else |
| Bulletins.FromBodiesAppend | src/WMORaport.cc:646-668 | what two runs of bulletins list is what one run of both lists |
| Bulletins.ListsDetermineMap | src/WMORaport.cc:306-322 | two maps without blank keys and empty lists that list the same under every identifier are the same map |
| Persistence.SaveFInfoList | src/App.cc:360-391 | one line for every entry, each key once |
| Persistence.ReadFInfoList | src/App.cc:393-438 | the loop reads the lines as the reference parser does, and stops at a number it cannot convert |
| Persistence.SavedStateRestored | src/App.cc:360-438 | reading back what was saved gives offset and checksum of exactly the files that still exist, unseen and not collected, also for names with ":" |
| Persistence.RestoredUnlessLineFeed | src/App.cc:360-438 | if all files still exist the state is restored exactly if no name holds a line feed |
| Numbers.SplitExactly | src/App.cc:396-414 | a line is an entry exactly if it holds two ":", and its fields are what stands between the last two and around them |
| Numbers.OffsetExactly | src/App.cc:424 | an offset is read exactly from a sign or none and digits, if it fits 64 bits |
| Numbers.ChecksumExactly | src/App.cc:425 | a checksum is read exactly from a sign or none and digits below 2^32, negated modulo 2^32 by a minus sign |
| Scanning.ScanFaithful | src/CollectWmoReports.cc:674-760 | after a scan the keys are the listed names without the dropped ones, each under its own name, with offset and checksum unchanged |
| Scanning.ScanEach | src/CollectWmoReports.cc:715-757 | every listed file is visited once, from its entry before the scan |
| Scanning.PendingExactly | src/CollectWmoReports.cc:726-757 | an entry to be collected was copied in this visit with three equal modification times, exactly unless an earlier copy's name was still set |
| CopyDisk.NamePartExactly | src/File.cc:49-60 | a file's own name is what follows the last "/" |
| CopyDisk.CopyNamesApart | src/CollectWmoReports.cc:771-775 | two copies made in one directory have one name only if the files' own names and the times are equal |
| CopyDisk.ListedApart | src/CollectWmoReports.cc:771-775 | no two files of a listing of one directory are copied to one name |
| CopyDisk.ScanOwn | src/CollectWmoReports.cc:715-811 | a scan keeps it so that what is on the disk as the copy of a file is what that file held, and no copy is held for two files |
| CopyDisk.PassOwn | src/CollectWmoReports.cc:364-394 | so does a pass |
| CopyDisk.ScanHeld | src/CollectWmoReports.cc:797-807 | outside debugging, a scan that drops no file leaves no copies but those held for files |
| CopyRuns.ReadOwn | src/CollectWmoReports.cc:364-401 | over a scan and the pass after it: what is read of a file is what it was listed with, or what was copied of it before if that copy is still in the way |
| CopyRuns.ThereInTurn | src/CollectWmoReports.cc:364-394 | what a pass has removed before is not the copy whose turn it is |
| CopyRuns.OwnContentRead | src/CollectWmoReports.cc:248-262 | over every run in which the clock moves on and passes read what scans have left: what was last read of a growing file is what that file itself was listed with |
| CopyRuns.OrderlyThree | src/CollectWmoReports.cc:248-262 | such runs read a new file by the third turn, whatever it holds |
| CopyRuns.NothingLeftBehind | src/CollectWmoReports.cc:797-807 | outside debugging, over every run that drops no file, the directory of copies holds what is held for files, and nothing when nothing is |
| FileRuns.RunSettles | src/CollectWmoReports.cc:353-404 | between turns no copy is pending, and an entry is seen only with the time it was last listed with |
| FileRuns.StableWhenCollected | src/CollectWmoReports.cc:674-811 | in every run, with restarts, where its copies are read a file is to be collected only with equal times in this listing, the last one before, and after the copy; after the pass nothing is pending |
| FileRuns.CollectedByThird | src/CollectWmoReports.cc:674-811 | after any run, three turns with one time and no failure collect a file, exactly unless an earlier copy gets in the way that cannot be read |
| FileRuns.NotCollectedAgain | src/CollectWmoReports.cc:739-743 | once collected a file is left alone, and nothing handed on of it, until its time changes or the program is restarted |
| FileRuns.ProperKept | src/CollectWmoReports.cc:365-401 | over every run a collected entry has been seen and has no copy |
| FileRuns.FailedReadSticks | src/CollectWmoReports.cc:371-380 | a copy keeps its name exactly if it cannot be read |
| FileRuns.FreedExactly | src/CollectWmoReports.cc:365-380 | one turn: a file whose copy could not be read stays as it is exactly unless the turn is a restart, misses it, fails to stat it at a changed time, or reads the copy or is cut off before it at an unchanged time |
| FileRuns.StuckUntilFreed | src/CollectWmoReports.cc:248-262 | over any run it stays so exactly until one of these turns, and nothing is handed on of it meanwhile |
| CopyRuns.UnreadableGone | src/CollectWmoReports.cc:371-380 | outside debugging the pass that cannot read a copy leaves its name and removes the copy |
| CopyRuns.GoneForGood | src/CollectWmoReports.cc:371-380 | from then on the file is set free exactly by a restart, a listing without it, a failed stat at a changed time, or a pass cut off before it; the copy stays gone |
| Collector.FInfo.constructor | src/FInfo.h:68-77 | a new entry is unseen, not collected, without a copy, with the given offset and checksum |
| Collector.FInfo.RemoveCopy | src/FInfo.h:108-114 | the name of the copy is forgotten, and the copy removed unless debugging |
| Collector.FInfo.MtimeNow | src/FInfo.h:124-129 | a stat that fails changes nothing |
| Collector.CollectWmoReports.GetNewObsPart | src/CollectWmoReports.cc:632-671 | returns the new part and remembers length and checksum of all of it |
| Collector.CollectWmoReports.CopyFile | src/CollectWmoReports.cc:763-811 | the entry is dropped, starts over or gets its copy, as on values; what is written to the directory of copies and removed from it |
| Collector.CollectWmoReports.FromState | src/App.cc:415-431 | the index after a restart holds what was read from the state file |
| Collector.CollectWmoReports.Erase | src/CollectWmoReports.cc:694-710 | exactly the entries of files that are not listed are erased |
| Collector.CollectWmoReports.VisitKnownFile | src/CollectWmoReports.cc:726-746 | one known file, as on values, and which copies are removed |
| Collector.CollectWmoReports.VisitFile | src/CollectWmoReports.cc:715-757 | one listed file, and which copies are removed; every other entry stays as it is |
| Collector.CollectWmoReports.CheckForNewObservations | src/CollectWmoReports.cc:674-760 | the map after the loops is that of the scan, the answer whether a file was to be collected when visited, and copies are written and removed as by the visits in order |
| Collector.CollectWmoReports.CollectFile | src/CollectWmoReports.cc:365-401 | one entry of a pass: state, part handed on, and the copy removed, read or not, unless debugging |
| Collector.CollectWmoReports.CollectObservations | src/CollectWmoReports.cc:353-404 | a pass collects each pending entry it reaches before a shutdown, once, hands on its part and removes its copy; it reaches all entries, or as many as there were rounds |
| Runs.PollEach | src/CollectWmoReports.cc:254-262 | what one turn of the loop does to a listed file and to the parts handed on of it |
| Runs.PendingNoticed | src/CollectWmoReports.cc:749-759 | a file that is to be collected makes the scan say so |
| Runs.NoticedExactly | src/CollectWmoReports.cc:749-759 | the scan says so exactly if there is such a file |
| Runs.HandedOnOnce | src/CollectWmoReports.cc:248-262 | over every run of a growing file, with restarts, failures, absences and cut passes, the parts are together what was last read exactly if the program remembered the file at every read after the first that found something, which is told from what happened in the turns before |
| Runs.ForgottenExactly | src/CollectWmoReports.cc:694-746 | one turn: a growing file that is remembered is still so afterwards exactly unless a non-empty listing lacks it, its copy or stat fails, or a restart finds it gone or not remembered in the state file |
| Runs.TurnTracks | src/CollectWmoReports.cc:632-671 | one turn: every entry knows what was last read or nothing, and what is handed on is the new bytes or, from a forgotten entry, all of them |
| Runs.DroppedStartsOver | src/CollectWmoReports.cc:780-795 | after a failed copy or stat the file is new in the next scan of the same run, and all of it is handed on again |
| Outbox.WrittenExactly | src/CollectWmoReports.cc:559-630 | a file is written exactly if the disk takes it and one of ten thousand names is free and can be opened |
| Replies.CandidatesApart | src/CollectWmoReports.cc:583-604 | the names tried for a message are all different |
| Replies.SavedAs | src/CollectWmoReports.cc:571-604 | a message is saved under kind, decoder and time, with the least number that makes the name a free one, none for zero |
| Replies.RoomSaves | src/CollectWmoReports.cc:583-629 | it can be saved while fewer than ten thousand names are taken or locked, the disk takes it and no "/" is in its name |
| Outbox.SlashNotWritten | src/CollectWmoReports.cc:540-541 | a decoder name with "/" cannot be saved under |
| Outbox.SavedReadBack | src/CollectWmoReports.cc:305-324 | a saved message is read back with its decoder and its text plus one newline exactly if the decoder name is not empty and has no newline |
| Outbox.SendNewConserves | src/CollectWmoReports.cc:528-551 | one new message: it ends in exactly one place, and nothing else moves |
| Outbox.RetryConserves | src/CollectWmoReports.cc:330-349 | one retry: the file is parsed to the same message plus a newline, and removed only on acceptance or refusal |
| Outbox.MessagesConserved | src/CollectWmoReports.cc:280-351 | over all runs every message was transmitted in its turn, is accepted, refused, lost or in one file of its own, and is not sent again after an answer that settles it |
| Outbox.LostOnlyByFailedWrites | src/CollectWmoReports.cc:539-547 | over a run some message is lost exactly if some message had to be saved and no file could be written |
| Outbox.LostExactly | src/CollectWmoReports.cc:539-547 | each message of a run is lost at its end exactly if it had to be saved when it was sent first and no file could be written then |
| Replies.NoneLost | src/CollectWmoReports.cc:539-547 | over every run no message is lost while there is room in this sense |
| Replies.FewNotLost | src/CollectWmoReports.cc:539-547 | in particular not over a run of up to ten thousand messages |
| Sender.KvSender.SendMessageToKvalobs | src/CollectWmoReports.cc:168-228 | the three flags spell out the verdict on the answer |
| Replies.FateByReply | src/CollectWmoReports.cc:174-227 | a message is taken on OK or a decode error that mentions an unknown station, kept on NOTSAVED, ERROR or a failed connection, and refused otherwise |
| Replies.KeptUntilSettled | src/CollectWmoReports.cc:331-349 | over every run a message that had to be kept, and had room, is in its own file exactly until that is sent again and answered otherwise |
| Sender.KvSender.WriteFile | src/CollectWmoReports.cc:559-630 | the loop takes the first free name; a failed write leaves no file |
| Sender.KvSender.SendOne | src/CollectWmoReports.cc:526-551 | one report is sent, and saved exactly if it is to be sent again |
| Sender.KvSender.SendWMORaport | src/CollectWmoReports.cc:494-557 | every report of every kind with a decoder is sent in order, with its identifier in front |
| Replies.SentExactly | src/CollectWmoReports.cc:507-529 | a message is sent exactly if it is a listed report of a kind with a decoder, for that decoder or its variant, with the identifier in front if asked for |
| Sender.KvSender.ResendOne | src/CollectWmoReports.cc:300-349 | one saved file: skipped, removed, sent or kept, and whether the pass ends |
| Sender.KvSender.TryToSendSavedObservations | src/CollectWmoReports.cc:280-351 | a pass over the saved files: what was sent, what is left |
| Replies.ParsedExactly | src/CollectWmoReports.cc:307-325 | a saved file is a message exactly if a decoder stands on its first line |
| Replies.PassSends | src/CollectWmoReports.cc:298-350 | a pass transmits what every readable file holds, once and in order, whatever is answered, until a request to stop or a failed connection |
| Replies.TestSendsNothing | src/CollectWmoReports.cc:327-329 | in test mode a pass transmits nothing |
| Sender.AllEntered | src/CollectWmoReports.cc:511-553 | every message enters the accounts, and the log shows what was transmitted |
| Sender.PassLogged | src/CollectWmoReports.cc:295-350 | the log shows exactly what a pass transmitted |
| Sender.SendingConserves | src/CollectWmoReports.cc:494-557 | sending any reports keeps every message in one place |
| Sender.ResentConserves | src/CollectWmoReports.cc:280-351 | so does a pass over the saved files, wherever it stops |
| Sender.StaysSaved | src/CollectWmoReports.cc:295-350 | after a pass a file is still there, unchanged, exactly if it was there and was not removed in a turn it got |
| Sender.Drained | src/CollectWmoReports.cc:295-350 | if kvalobs settles every message, a pass over all files leaves none |
| Sender.AllSettled | src/CollectWmoReports.cc:295-350 | after such a pass every message was accepted or refused, or had been lost before it |
| Sender.FirstOnWireIs | src/CollectWmoReports.cc:528-533 | if the log shows what was transmitted, the first transmissions on the wire are those the accounts count as first |
| Pipeline.CutExactly | src/WMORaport.cc:646-692 | what was read of a file may be decoded on its own, whatever is appended, exactly if decoding ends idle |
| Pipeline.IncrementalIsBatch | src/CollectWmoReports.cc:632-671 | a growing file read where decoding ends idle: the lists over all readings, put together, are the lists of the whole, for every kind and identifier |
| Pipeline.FramesEndIdle | src/WMORaport.cc:540-643 | whole frames and a gap without Z end idle |
| Pipeline.RunIsBatch | src/CollectWmoReports.cc:248-262 | the same over every run in which no read starts from a forgotten entry; some part hangs exactly if the whole does |
| Pipeline.ThreeTurnsRead | src/CollectWmoReports.cc:248-262 | such runs exist for every content: a file that is there, unchanged and readable, is read by the third turn, whatever it holds |
| Pipeline.PassIsTurn | src/CollectWmoReports.cc:353-404 | what a pass of the class hands on is, file by file, what a turn of a run hands on |
| Pipeline.MessagesSent | src/CollectWmoReports.cc:515-529 | the messages sent of a map are its reports under their identifiers, and nothing else |
| EndToEnd.ParsedUnbroken | src/WMORaport.cc:69 | no identifier holds a blank followed by a newline, so that it can be read back from the message |
| EndToEnd.FromBodiesIdent | src/WMORaport.cc:341-362 | nothing is listed under anything but AAXX or BBXX and what follows, METAR or SPECI, and for METAR the blank key that is removed; so no report from a mobile station is |
| Bulletins.SynopSection | src/WMORaport.cc:69 | a SYNOP identifier begins with AAXX, BBXX or OOXX, and skipping is on exactly for OOXX |
| EndToEnd.DoNewObs | src/CollectWmoReports.cc:406-492 | a part is split by a new object and sent: under each identifier exactly what is listed of the part, and nothing else |
| EndToEnd.SentIsBatch | src/CollectWmoReports.cc:248-262 | over every such run, what was delivered under an identifier is exactly what one reading of the whole file lists under it |
| MainLoop.Norcom2kv.SendParts | src/CollectWmoReports.cc:399-401 | the parts of a pass are split and sent one after the other; every message enters the accounts and goes over the wire, in order |
| MainLoop.Norcom2kv.Pass | src/CollectWmoReports.cc:255-256 | a pass leaves index, state file, deliveries and wire as a turn of a run does, and reaches all entries or as many as there were rounds |
| MainLoop.Norcom2kv.Look | src/CollectWmoReports.cc:250-259 | one look for new observations is one turn of a run, accounts included; the wire grows by the transmissions of what it delivers; with new files it gets as far as a pass does |
| MainLoop.Norcom2kv.Start | src/CollectWmoReports.cc:246-248 | a start from the state file is a restart of a run; it fails exactly on a number that cannot be read |
| MainLoop.Norcom2kv.Resend | src/CollectWmoReports.cc:264-268 | sending again leaves index and deliveries alone and accounts and wire in order; if all saved files are settled no message waits afterwards |
| MainLoop.Norcom2kv.Delivered | src/CollectWmoReports.cc:248-275 | at any time, what was sent of a growing file under an identifier is exactly what one reading of its last content lists; what was sent of all files is, in order, what went over the wire for the first time; and every message is in exactly one place |
| MainLoop.Norcom2kv.ThreeLooks | src/CollectWmoReports.cc:248-262 | three looks with one time and no failure collect a file, exactly unless an earlier copy is left over that cannot be read, and deliver a new file as a whole; if one does not return, splitting some part of a copy never ends |
| MainLoop.Norcom2kv.LostByItsOwnWrite | src/CollectWmoReports.cc:539-547 | at any time a message is lost exactly if it had to be saved and its own file could not be written |
| MainLoop.Norcom2kv.NothingLost | src/CollectWmoReports.cc:539-547 | while there is room no message is ever lost |
| MainLoop.Norcom2kv.OwnContent | src/CollectWmoReports.cc:248-262 | where copies keep apart, the last content read of a growing file is one this file itself was listed with |
| Witnesses.HeaderAtEnd | src/WMORaport.cc:169-181 | decoding never ends on a ZCZC line with nothing after it |
| Witnesses.NulAfterNs | src/WMORaport.cc:582-596 | four Ns and a NUL in a body leave the bounds of "NNNN" |
| Witnesses.NoEndMark | src/WMORaport.cc:638-642 | a message without an end mark is dropped |
| Witnesses.Overlooked | src/WMORaport.cc:153-160 | the ZCZC in ZZCZC is not found |
| Witnesses.LastLetterLost | src/WMORaport.cc:582-604 | the body AN is handed over as A |
| Witnesses.UnreadableCopy | src/CollectWmoReports.cc:371-380 | any file is stuck after three turns whose copies cannot be read |
| Witnesses.MissedOnce | src/CollectWmoReports.cc:694-710 | any file that is missing from one listing is handed on twice, whatever it holds |
| Witnesses.LineFeedInName | src/App.cc:360-438 | a file name with a line feed is not restored |
| Witnesses.SlashInDecoder | src/CollectWmoReports.cc:540-541 | a message for a decoder with "/" in its name is lost, whatever the disk takes |
| Witnesses.NilStation | src/WMORaport.cc:70 | 01007 NIL= is NIL, and an observation of a station is not |
| Witnesses.NumberedMessage | src/WMORaport.cc:140 | a message whose number ends in 0 is read whole |
| Witnesses.CopyLeft | src/CollectWmoReports.cc:780-795 | a file that goes away after it was copied is dropped, and its copy stays |

## Left out

- FramingEnds.DefinedExactly: says nothing of the character findZCZC reads uninitialised when nothing is left of the text (src/WMORaport.cc:142, 150-153), as after a last message dropped on its last character; Deframer.SeekMark takes it as any character, and nothing depends on it.
- WmoRaports.WMORaport.Split: texts on which the source leaves the bounds of "NNNN" have no meaning in C++, and nothing is promised of them here.
- WmoRaports.WMORaport.Dispatch: headings other than SYNOP and METAR are all taken alike, since their handlers touch neither of the two lists.
- WmoRaports.WMORaport.DoDispatch: the BUFR handler with its base64 payload and the handlers that only report "not implemented" (TEMP, PILO, AREP, DRAU, BATH, TIDE) do nothing here.
- Sender.KvSender.SendWMORaport: which kvalobs server is asked, in what order, and the HTTP transport are replaced by an arbitrary answer to each transmission.
- Outbox.SendNewConserves: a decoder name must be non-empty and without newline, as configured names are; a removal of a saved file is taken to succeed.
- Runs.HandedOnOnce: covers restarts after the state was written, not a crash between sending and writing it; the state file itself is taken to be written whole, and file names to be without line feed.
- MainLoop.Norcom2kv.Pass: the parts of a pass are sent after the pass instead of one by one during it; nothing in either depends on the other. The two timers and the sleep of the loop are left to the caller.
- Persistence.ReadFInfoList: offsets are unbounded integers checked against the 64-bit range when read; file sizes beyond it are not modelled.
- Collector.CollectWmoReports.CheckForNewObservations: the directory listing, its order, what the files hold and the clock behind the names of copies are inputs; std::map order is replaced by any order in the passes and in the state file.
- Collector.CollectWmoReports.CollectFile: whether a copy can be read, and what reading it gives, is an input; CopyRuns.OwnContentRead and CopyRuns.ReadOwn take reading to give what is on the disk. A copy that fails is taken to leave nothing there.
- EndToEnd.DoNewObs: test mode, the files with data errors and warnings, and the error texts are not modelled.
- Regular expressions are written as recognisers for the SYNOP and METAR patterns only, with "." also matching a newline as in Boost.
- trimstr of the ZCZC line: miutil is not part of this model, and only BUFR messages use that line.
- Printing a WMORaport, its copy constructor and assignment, TimeCheck, path helpers, sleeping, signals, logging and configuration: they carry no theorem.
