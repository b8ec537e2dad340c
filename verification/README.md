# A verified model of slstatus

slstatus is a small status monitor. Most of it wraps system calls; this project models the parts that hold
algorithms and proves, in Dafny 4.11, what those parts promise. `dafny verify dfyconfig.toml` checks everything.

| files | what they model |
|---|---|
| `Cells.dfy`, `TailQueue.dfy`, `CircleQueue.dfy`, `LinkedLists.dfy`, `Edits.dfy`, `Replay.dfy` | the intrusive lists of `queue.h` |
| `SimpleQueues.dfy` | the simple queue and its XOR-masked twin |
| `Attributes.dfy`, `Stations.dfy`, `StationDump.dfy` | the netlink client of `components/wifi.c` |
| `Schedule.dfy`, `StatusLine.dfy`, `MainLoop.dfy`, `Sleep.dfy`, `CStrings.dfy` | the update scheduler, the status line, signals and the sleep of `slstatus.c`, with the formatting helpers of `util.c` |
| `Volume.dfy` | the sndio control table of `components/volume.c` |
| `RecordQueue.dfy`, `NetworkManager.dfy`, `UPower.dfy` | the record queues of `components/nm.c` and `components/upower.c` |
| `Keymap.dfy`, `Scaling.dfy` | layout selection and unit scaling |
| `Options.dfy` | values that may be missing |

How the C is represented:

- A list head and a list element both start with a pair of words, and the first word of every pair is a slot
  (the target of a `struct type **`). `Cell` is that pair, and the address of a slot is the cell whose first word
  it is. `TAILQ_LAST` and `TAILQ_PREV`, which read an element's pair as a head, are then plain loads, as in the C.
  The macros that take no head are static methods whose queue argument is ghost.
- `Threaded` (in `Cells.dfy`) is the slot invariant: each `next` names the following cell, each `prev` names the
  cell whose slot points here, the last `next` is the only NULL (the head, in a circular queue), and the head of
  a two-ended queue names the last slot. `elems` is the abstract sequence, `repr` the owned cells.
- The XOR queue works on 64-bit words; an element is named by the address of its link word.
- Buffers are arrays (`buf`, the status slots, `resp`, the requests, the symbols string), written in place.
- Netlink numbers are little-endian and `char` is signed, as on the machines the Linux branch runs on. The message
  header is the one of section 2.3.2 of RFC 3549. Attributes and messages from the kernel are taken to be well
  formed: `nla_len` at least 4 and inside its region, `nlmsg_len` at least 16, no message split over datagrams.
- Results of library and system calls are arguments; a datagram list that runs out stands for a failed `recv`.
- The main loop is a step machine because signals interleave with it; everything else follows the C's control
  flow in methods.

Where the code and its documentation differ, the model follows the code: `slstatus.1:28-29` says that `-1` writes
once, but the first pass writes only with `-S` (`slstatus.c:104`), and `PrintStatus` says so.

Three properties one might expect fail, and the model states exactly when they hold instead.

- The search for the signal attribute runs on past STA_INFO (`components/wifi.c:236`), so it is the nested lookup if
  and only if STA_INFO has the signal or no later sibling has its number (`LookupNested`, with a message in
  `LookupEscapes`).
- A module is not refreshed at each of its turns: it misses one if and only if the text of an earlier module is
  truncated or the signal of another module is pending (`TurnMissed`). So staleness is bounded only up to the number
  of turns so lost (`BoundedStaleness`), and until the counter wraps that bound is attained (`BoundAttained`).
- An interrupted `nanosleep` may end the program: it does if and only if a signal strikes between its return and the
  last test of `errno` that follows (`DiesIffStruck`, with a trace in `WindowKills`). `Strikes` says which signals
  those are.

## Model

| member | source | states |
|---|---|---|
| Cells.ThreadInsert | queue.h:462-494 | the pointer changes of any insertion macro restore the slot invariant of all three list kinds and put the element at that position |
| Cells.ThreadRemove | queue.h:496-505 | the same for removal: the neighbours are joined and the footprint loses exactly the removed cell |
| Cells.ThreadReplace | queue.h:507-517 | the same for replacement |
| TailQueues.TailQueue.constructor | queue.h:457-460 | an initialised tail queue satisfies the slot invariant and is empty |
| TailQueues.TailQueue.InsertHead | queue.h:462-470 | keeps the slot invariant; the element comes first |
| TailQueues.TailQueue.InsertTail | queue.h:472-477 | keeps the slot invariant; the element comes last |
| TailQueues.TailQueue.InsertAfter | queue.h:479-487 | keeps the slot invariant; the element follows the listed one |
| TailQueues.TailQueue.InsertBefore | queue.h:489-494 | without seeing the queue or its head: the element precedes the listed one and the slot invariant is kept |
| TailQueues.TailQueue.Remove | queue.h:496-505 | exactly that element goes; its own links stay as they were |
| TailQueues.TailQueue.Replace | queue.h:507-517 | the new element takes the place of the old, whose links stay |
| TailQueues.TailQueue.First | queue.h:420 | the first element, or NULL |
| TailQueues.TailQueue.Next | queue.h:422 | the following element, or NULL |
| TailQueues.TailQueue.Last | queue.h:423-424 | the last element, or NULL on the empty queue, read through two slot addresses |
| TailQueues.TailQueue.Prev | queue.h:426-427 | the preceding element, or NULL, read through the element's pair taken as a head |
| TailQueues.TailQueue.ForEach | queue.h:431-434 | terminates and visits exactly the abstract sequence |
| TailQueues.TailQueue.ForEachReverse | queue.h:443-446 | terminates and visits exactly its reverse |
| TailQueues.TailQueue.RemoveChosen | queue.h:436-440 | the safe traversal whose body removes any chosen subset visits every original element once in order and leaves exactly the others, in order |
| TailQueues.TailQueue.Drain | components/nm.c:51-52 | taking the first element off until none is left terminates and frees every element once, in order |
| Edits.ApplyAt | queue.h:457-517 | element by element, what each edit makes of a sequence |
| Edits.WithoutConcat | queue.h:436-440 | filtering takes concatenation to concatenation |
| Edits.WithoutOne | queue.h:436-440 | of a single element it leaves nothing if it is chosen, and otherwise that element |
| Replay.TailViews | queue.h:457-517 | for every script of edits, after every edit the two walks of the tail queue report what the edits make of the empty sequence, and its reverse |
| Replay.CircleViews | queue.h:573-646 | the same for the circular queue |
| Replay.Bisimulate | queue.h:457-646 | no script of edits tells the two queues apart by their walks |
| CircleQueues.CircleQueue.constructor | queue.h:573-576 | an initialised circular queue points at itself and is empty |
| CircleQueues.CircleQueue.InsertAfter | queue.h:578-586 | the element follows the listed one; the ring stays closed both ways |
| CircleQueues.CircleQueue.InsertBefore | queue.h:588-596 | the element precedes the listed one |
| CircleQueues.CircleQueue.InsertHead | queue.h:598-606 | the element comes first |
| CircleQueues.CircleQueue.InsertTail | queue.h:608-616 | the element comes last |
| CircleQueues.CircleQueue.Remove | queue.h:618-631 | exactly that element goes; its own links stay |
| CircleQueues.CircleQueue.Replace | queue.h:633-646 | the new element takes the place of the old |
| CircleQueues.CircleQueue.ForEach | queue.h:548-551 | terminates at the head after visiting exactly the sequence |
| CircleQueues.CircleQueue.ForEachReverse | queue.h:559-562 | terminates at the head after visiting exactly the reverse |
| LinkedLists.LinkedList.constructor | queue.h:202-204 | an initialised list is empty |
| LinkedLists.LinkedList.InsertHead | queue.h:221-226 | the element comes first |
| LinkedLists.LinkedList.InsertAfter | queue.h:206-212 | without a head: the element follows the listed one, and only cells of the owning list change |
| LinkedLists.LinkedList.InsertBefore | queue.h:214-219 | without a head: the element precedes the listed one |
| LinkedLists.LinkedList.Remove | queue.h:228-235 | without a head: exactly that element goes, and only cells of the owning list change |
| LinkedLists.LinkedList.Replace | queue.h:237-245 | without a head: the new element takes the place of the old |
| LinkedLists.LinkedList.Move | queue.h:221-235 | moving an element between disjoint lists keeps both well formed and disjoint and preserves their combined multiset |
| LinkedLists.SinglyLinkedList.InsertHead | queue.h:137-140 | the element comes first |
| LinkedLists.SinglyLinkedList.Remove | queue.h:150-162 | the search for the predecessor terminates for every member, and exactly that element goes |
| SimpleQueues.StepHolds | queue.h:285-317 | every enabled operation turns a heap holding a sequence into one holding the edited sequence, with the last-slot address right |
| SimpleQueues.EditsAgree | queue.h:285-317 | the edits of the simple queue are those of the other queues |
| SimpleQueues.XorMasks | queue.h:337-343 | a stored word and the pointer it stands for differ by exactly the cookie |
| SimpleQueues.DecodeAt | queue.h:337-343 | so does every slot from its unmasked value |
| SimpleQueues.SimpleQueue.constructor | queue.h:285-288 | the initialised head over any memory |
| SimpleQueues.SimpleQueue.Perform | queue.h:290-317 | the five operations, as in-place writes, are the steps StepHolds is about |
| SimpleQueues.XorQueue.constructor | queue.h:358-362 | for every cookie, unmasking the initialised head gives the plain one |
| SimpleQueues.XorQueue.InsertHead | queue.h:364-369 | unmasked, the heap changes as the plain insertion changes it |
| SimpleQueues.XorQueue.InsertTail | queue.h:371-375 | the same, through the masked last-slot address |
| SimpleQueues.XorQueue.InsertAfter | queue.h:377-382 | the same |
| SimpleQueues.XorQueue.RemoveHead | queue.h:384-388 | the same |
| SimpleQueues.XorQueue.RemoveAfter | queue.h:390-396 | the same |
| SimpleQueues.XorQueue.ForEach | queue.h:345-348 | the unmasking walk terminates and visits exactly the sequence |
| SimpleQueues.RunBoth | queue.h:337-396 | for every cookie, memory and feasible script, both queues end with heaps that agree slot by slot under the mask, and hold the edited sequence |
| Attributes.FindAttr | components/wifi.c:28-41 | the pointer loop terminates and ends where the scan of the region ends |
| Attributes.ScanEncoded | components/wifi.c:28-41 | over any concatenation of padded attributes the scan finds the payload of the first of the wanted type, or none if there is none |
| Attributes.ScanShift | components/wifi.c:28-41 | a scan inside a message does not depend on the bytes around it |
| Attributes.EncodeLayout | components/wifi.c:31-38 | an attribute in memory: length without padding and type, least significant byte first, payload, zeros up to a multiple of four |
| Attributes.FirstIs | components/wifi.c:34-37 | the first attribute of a type is the one that no other of the type precedes |
| Attributes.Get16Little | components/wifi.c:33 | two bytes are read with the least significant first |
| Attributes.Get32Little | components/wifi.c:229 | so are four |
| Stations.Percent | components/wifi.c:12-15 | lies in 0..100 for every signal byte |
| Stations.PercentMonotone | components/wifi.c:12-15 | a stronger signal never gives a smaller percentage |
| Stations.PercentSteps | components/wifi.c:12-15 | 100 from -50 dBm on, 0 up to -100 dBm, two per cent for each dBm between |
| Stations.BuildRequest | components/wifi.c:193-211 | the request fills its buffer exactly and parses back: length, type, flags, sequence number, command, and the one attribute's payload |
| Stations.FamilyRequest | components/wifi.c:50-73 | 32 bytes that parse back to the family name |
| Stations.InterfaceRequest | components/wifi.c:138-156 | 28 bytes that parse back to the interface index, for both the description and the dump |
| Stations.FamilyReply | components/wifi.c:90-94 | skipping a request's length skips exactly the echoed name, so the scan finds the first family id after it |
| Stations.ReadFamilyId | components/wifi.c:90-96 | nl80211fam takes the id from a reply longer than the request, if its first id attribute is two bytes long, and otherwise reports none; an encoded id comes back |
| Stations.LookupNested | components/wifi.c:232-238 | the two-step lookup searches the nested attributes and then the later siblings; it equals the nested lookup if and only if STA_INFO has the signal or no later sibling has its number |
| StationDump.Client.Signal | components/wifi.c:232-238 | in the receive buffer, one message yields what its own bytes determine |
| StationDump.Client.Datagram | components/wifi.c:228-242 | the loop over a datagram consumes its messages and leaves the answer for the rest unchanged |
| StationDump.Client.StationPercent | components/wifi.c:218-243 | the answer of the dump is a function of the messages received, whatever stale bytes the buffer holds; its text has at most three characters |
| StationDump.AnswerIsFirst | components/wifi.c:232-241 | that function is the first percentage at or before the end-of-dump message, or none |
| StationDump.YieldIsSignal | components/wifi.c:232-238 | a message yields the percentage of the first attribute in STA_INFO or behind it that has the signal's number, if that is one byte long, and otherwise nothing |
| StationDump.LookupEscapes | components/wifi.c:236 | a message with no signal in STA_INFO that yields a percentage all the same |
| StationDump.AnswerIsFirstSignal | components/wifi.c:218-243 | in terms of the attributes the messages encode: the answer is the percentage of the first message with a one-byte signal, up to the end of the dump, or none |
| StationDump.ReportedPercent | components/wifi.c:218-243 | the dump loop returns a text if and only if a message up to the end of the dump has a one-byte signal, and the text reads as the percentage of the first such signal |
| StationDump.DecimalReads | components/wifi.c:238 | the text of every percentage is a numeral without leading zero that reads as that percentage |
| StationDump.ReceivedUpTo | components/wifi.c:225-226 | the messages that count are those before the first datagram too short for any |
| StationDump.AnswerKeeps | components/wifi.c:232-241 | a percentage once found is what the caller gets |
| StationDump.AnswerNeedsEnd | components/wifi.c:219-243 | without an end-of-dump message there is no answer |
| StationDump.BatchingIrrelevant | components/wifi.c:219-243 | any two ways to batch the same messages into datagrams give the same answer |
| MainLoop.DoneStops | slstatus.c:169-195 | for every interleaving of signals: once set, done stays set, at most one more printstatus and one more nanosleep start, and ten more program steps leave the loop |
| MainLoop.DoneExits | slstatus.c:169-195 | and with done set it leaves by the end of the loop unless a signal strikes |
| MainLoop.ExitNeedsDone | slstatus.c:195 | for every trace the loop is left only with done set, and done is set exactly by terminating signals |
| MainLoop.PrintsAddUp | slstatus.c:169-195 | while no terminating signal arrives and none strikes, the program runs on: printstatus starts once for every interruption and once for every end of a sleep, and nanosleep once for every printstatus, or not at all in a pass that took too long |
| MainLoop.NextPrint | slstatus.c:169-195 | from anywhere in such a run at most nine program steps start the next printstatus |
| MainLoop.PrintsBeforeSleep | slstatus.c:186-190 | after an interrupted nanosleep printstatus starts before the next nanosleep |
| MainLoop.OncePrints | slstatus.c:169-195 | with -1 the program starts one printstatus and no nanosleep, and leaves within four steps |
| MainLoop.DoomedIffStruck | slstatus.c:119-127 | from every sane state and for every interleaving, the program is doomed afterwards if and only if it was before or some signal struck on the way |
| MainLoop.DoomedDies | slstatus.c:186-193 | a doomed program dies within three steps, whatever signals arrive |
| MainLoop.DiesIffStruck | slstatus.c:186-193 | from the start, with -1 or without, a program whose sleeps fail only by interruption dies of one if and only if a signal struck |
| MainLoop.SparedSurvives | slstatus.c:186-193 | while none strikes it is never dead |
| MainLoop.WindowKills | slstatus.c:186-193 | a trace in which two update signals on the first sleep kill the program |
| Sleep.DiffTimespec | slstatus.c:63-69 | exact and normalised for normalised arguments |
| Sleep.Restart | slstatus.c:186-191 | under any interruptions the slept pieces sum to the requested time |
| Sleep.SleepPass | slstatus.c:177-194 | they sum to the interval less the elapsed time, and there is no sleep exactly when the pass took longer than the interval |
| Schedule.RefreshedIff | slstatus.c:85-88 | a printstatus that gets to a module refreshes it if and only if the counter is 0, or the last signal arrived is SIGUSR1 or the module's own, or none has arrived and its turn divides the counter |
| Schedule.CutIff | slstatus.c:93-94 | it does not get there if and only if it has refreshed an earlier module with a text too long for its slot |
| Schedule.SeenIsLast | slstatus.c:119-123 | the pending signal a module finds is the last one that has arrived |
| Schedule.SignalRefreshes | slstatus.c:85-88 | after a pass that got to a module with its own signal or SIGUSR1 pending its age is 0, whatever its turn |
| Schedule.WakeRefreshes | slstatus.c:186-191 | an interruption refreshes every module it gets to |
| Schedule.RenderedSays | slstatus.c:90-93 | the text of a module is what it returned between the ends of its format, with nothing between them for a missing or oversized string |
| Schedule.TurnMissed | slstatus.c:85-94 | a module misses its turn if and only if the text of an earlier module is truncated or the signal of another module is pending |
| Schedule.FittingReaches | slstatus.c:84-97 | if the texts of the modules before it fit, a module is refreshed exactly when it is due |
| Schedule.TurnsAddUp | slstatus.c:84-97 | over every run before the counter wraps, each turn of a module is refreshed, cut off by a truncated text, or taken by a signal |
| Schedule.TurnsInAre | slstatus.c:87 | a module with turn t has ceil(N/t) turns in N passes, one without a turn has one |
| Schedule.ShownAtAge | slstatus.c:90-93 | what a module shows is what it returned Age passes ago, and no pass since has refreshed it |
| Schedule.MissedIsLost | slstatus.c:84-97 | over every run, the turns without a refresh are exactly the turns lost to one of those two causes |
| Schedule.BoundedStaleness | slstatus.c:84-97 | over all runs and across counter wrap-around: after any pass a module with turn t was refreshed fewer than t*(k+1) passes ago, k being the turns it has since lost to truncated texts of earlier modules and to pending signals of others |
| Schedule.SignalsStarve | slstatus.c:84-97 | if signals of other modules take every turn after the first of N passes, the age of a module is N-1 and it has lost (N-1)/t turns |
| Schedule.BoundAttained | slstatus.c:84-97 | for every turn t and every k with t*(k+1) at most 2^32 there is a run with k lost turns and age t*(k+1)-1 |
| Schedule.QuietRefreshes | slstatus.c:84-97 | without signals, refreshes and turns cut off by a truncated text add up to ceil(N/t) in N passes, and to one for turn 0 |
| Schedule.FittingCutsNothing | slstatus.c:92-94 | where the texts before a module always fit, none of its turns is cut off |
| StatusLine.SnprintfBuf | util.c:48-64 | the buffer holds the clipped text with its NUL; success exactly when it fits |
| StatusLine.SnprintfSlot | util.c:66-77 | one slot holds the clipped text with its NUL inside CMDLEN; every other slot is unchanged |
| StatusLine.ClipIs | util.c:48-64 | the text written is the longest front of the text that fits |
| StatusLine.JoinFits | slstatus.c:30 | the slots together, with a NUL, fit MAXLEN |
| StatusLine.JoinConcat | slstatus.c:99-102 | the line of two runs of slots is the two lines in order |
| StatusLine.JoinOne | slstatus.c:99-102 | the line of one slot is its text |
| StatusLine.Strcat | slstatus.c:100-101 | appends the slot's text without leaving the buffer |
| StatusLine.Status.Handle | slstatus.c:119-127 | update signals overwrite the one pending signal and reset errno; any other sets done and leaves both |
| StatusLine.Status.Evaluate | util.c:79-90 | a string that does not fit the shared buffer counts as missing |
| StatusLine.Status.PrintStatus | slstatus.c:77-116 | exactly the due slots up to the first truncated one are refreshed, no other slot changes, the pending signal is consumed, and the line is the slots in order, written only after pass 0 or with -S |
| StatusLine.FittingText | slstatus.c:84-97 | where every text fits, the slot of a due module holds its whole text and any other stays |
| StatusLine.Status.Assemble | slstatus.c:99-102 | the status buffer holds the concatenation of the slots |
| StatusLine.Status.OnePass | slstatus.c:175-194 | a pass, with every interruption of its sleep, carries the slots from the run before it to the run with it |
| StatusLine.Status.Wake | slstatus.c:186-191 | an interruption of the sleep carries the slots on by one printstatus(0) and clears errno and the pending signal |
| StatusLine.SlotIsFresh | slstatus.c:84-97 | a slot shows the result of Age passes ago, within the staleness bound by lost turns |
| StatusLine.Status.MainLoop | slstatus.c:169-195 | after any run, with truncated texts too, each slot shows what its module returned at its last refresh, clipped to the slot, whatever later modules wrote into the shared buffer, and that refresh is within the staleness bound; every line written on the way is the slots of its moment in order |
| Volume.LevelExact | components/volume.c:176 | if the unsigned sum does not overflow and the level fits an int, the arithmetic gives the rounded percentage |
| Volume.FoldIsVolume | components/volume.c:171-181 | in any list order the fold is 0 if some mute is on, and otherwise the least of 100 and the levels |
| Volume.VolumeUnique | components/volume.c:171-181 | that determines the volume from the address map alone |
| Volume.Mixer.Delete | components/volume.c:45-53 | the address leaves the map; addresses stay distinct |
| Volume.Mixer.OnDesc | components/volume.c:36-78 | the list refines the map update: replaced, added, or only deleted when the description does not match or memory is short |
| Volume.Mixer.OnVal | components/volume.c:83-93 | exactly the value at that address changes |
| Volume.Mixer.Cleanup | components/volume.c:108-112 | terminates with the empty table |
| Volume.Mixer.VolPerc | components/volume.c:171-181 | the loop computes the fold, and so the volume of the table |
| Volume.Callbacks | components/volume.c:36-93 | any sequence of callbacks keeps addresses distinct and ends with the map the sequence describes |
| Volume.TableShows | components/volume.c:36-93 | for every run of callbacks an address is in the table if and only if its last description was a level or a mute of the unnamed output group and memory was available; kind and maximum are those of that description, and the value is that of the last value callback behind it, or its own |
| Volume.TableKnows | components/volume.c:36-78 | an address never described is not in the table |
| Volume.MuteSilences | components/volume.c:171-174 | a run that leaves 1 at a mute leaves the volume at 0 |
| RecordQueues.RecordQueue.Append | components/nm.c:228 | the record comes last |
| RecordQueues.RecordQueue.TakeFirst | components/nm.c:51-52 | the first record is taken off, or there is none |
| NetworkManager.Record.Update | components/nm.c:88-131 | what is known of the interface changes as StateReported says; an inactive device loses both addresses |
| NetworkManager.Record.StrengthChanged | components/nm.c:134-145 | only the strength changes, whatever handler fires |
| NetworkManager.Record.AccessPointChanged | components/nm.c:147-189 | what is known changes as PointReported says: without an access point no ESSID and no handler, with one a handler |
| NetworkManager.Record.Attach | components/nm.c:230-254 | completes a new record to what Met says of the device: all nine fields |
| NetworkManager.Manager.Search | components/nm.c:208-210 | finds the record of the interface, or proves there is none |
| NetworkManager.Manager.Lookup | components/nm.c:199-257 | the table changes as Applied says; a record is returned if and only if the interface is then known; exactly one is appended when the table changes, and none otherwise |
| NetworkManager.Manager.Notify | components/nm.c:134-197 | the table changes as Applied says, at that record and nowhere else |
| NetworkManager.Manager.Free | components/nm.c:46-78 | terminates; every record is taken off once, in order, and released |
| NetworkManager.Session | components/nm.c:88-257 | over any session the records hold exactly the table the events make, one record for each known interface; a lookup finds its record if and only if some lookup of the interface so far met a device, and always the same one |
| NetworkManager.PlayedSound | components/nm.c:88-257 | in that table an inactive device has no addresses, an interface without access point no ESSID and no handler, and one with an access point a handler |
| NetworkManager.PlayedKnows | components/nm.c:208-214 | an interface is in the table if and only if a lookup met a device for it |
| NetworkManager.ShowsState | components/nm.c:88-131 | state and addresses are those of the last report, the lookup that met the device included: none when inactive; when active the first of each configuration, or what was known before |
| NetworkManager.ShowsPoint | components/nm.c:147-252 | access point, ESSID and strength handler are those of the last report, the first lookup of a wireless device included |
| NetworkManager.ShowsStrength | components/nm.c:134-252 | the strength is the last reported, by itself or with an access point, and reset when a known access point goes away |
| NetworkManager.KeepsHandlers | components/nm.c:230-254 | the state handler, and for a wireless device the access point handler, are those of the first lookup |
| UPower.Manager.Find | components/upower.c:111-152 | the queued record, or one new record with the first matching device's properties, or none; paths stay distinct |
| UPower.FirstListedIs | components/upower.c:125-150 | the device found has the path asked for and none before it has; if none is found, none has |
| UPower.Manager.Free | components/upower.c:35-55 | terminates; every record is taken off once, in order; afterwards there is no client |
| Keymap.Tokenizer.Next | components/keymap.c:32-33 | one strtok call (section 7.21.5.8 of ISO C99) cuts the next token off in place and writes nowhere else |
| Keymap.TokensKeepLetters | components/keymap.c:32-33 | tokenising loses the separators and nothing else |
| Keymap.TokensAreRuns | components/keymap.c:32-33 | the tokens are exactly the maximal runs without a separator, in order |
| Keymap.SeparatorIs | components/keymap.c:32-33 | the separators are the letters of "+:_" |
| Keymap.LayoutsAre | components/keymap.c:11-40 | the layouts are, in order, the tokens that begin with none of evdev, inet, pc and base and are no single digit |
| Keymap.CheckLayout | components/keymap.c:11-23 | rejects exactly the tokens that begin with an invalid symbol |
| Keymap.GetLayout | components/keymap.c:25-45 | for every string and group, a pointer to the layout at index min(group, count - 1), or NULL when there is none or the group is negative |
| Scaling.Scale | util.c:117-119 | scaled * base^i is the number, scaled is below the base, and i is the least such, at most 6 |
| Scaling.ExponentUnique | util.c:117-119 | only one i has that property |
| Scaling.SeventhPower | util.c:98-101 | no 64-bit number needs a seventh division, so the prefix index is in range |
| Scaling.FmtHuman | util.c:92-122 | the scaled value with the matching prefix for bases 1000 and 1024, and NULL for any other base |
| Scaling.PrefixOrder | util.c:98-101 | both tables of prefixes are in the order of the units |

## Left out

- X11, sockets, ioctl, D-Bus, udev, ALSA, PulseAudio and sndio calls: their results are arguments.
- Floating-point rounding and the printing of `%.1f`: the scaling is over the reals.
- Malformed netlink input, where the C reads past its data or loops forever, and byte orders other than little-endian.
- `p[len] = 0` in `wifi_essid` (components/wifi.c:172), which writes behind the attribute, and the cached family id and socket.
- An encoding error of `vsnprintf`: rendering a `%s` format in a valid locale cannot meet one.
- Re-reads of `upsigno` inside one condition (slstatus.c:85-87): each module sees one value, with arrivals between modules.
- Terminating signals during a modelled run of `Status.MainLoop`: they change no slot, and `MainLoop.dfy` says when the loop ends.
- Dump loop resource limits: datagrams larger than the 4096-byte buffer are not modelled.
- Stations.BuildRequest: takes the three builders' differing constants as arguments; the counter `seq++` is an argument too.
- Volume.Mixer.OnVal: requires a registered address, because the C dereferences NULL otherwise.
- Truncation of handler ids to `int` (components/nm.c:14-20): a connected handler has a non-zero id.
- Signals that the callbacks of nm.c and upower.c raise, their icon ladders, and the memory `nm_free` leaks.
- `components/pa.c`, whose outcome depends on the order of unseen server events, and the backlight and modem finders, which repeat the nm pattern.
- `CIRCLEQ_FOREACH_REVERSE_SAFE` (queue.h:564-568), which passes arguments its macros do not take.
- `SLIST_INSERT_AFTER`, `SLIST_REMOVE_AFTER` and the safe traversals other than the tail queue's: nothing modelled here calls them.
- The modules that read one value and format it (battery, cat, cpu, disk, ram, swap, temperature, uptime, user, hostname, ip), `netspeeds.c` and `keyboard_indicators.c`: the status line holds for whatever text they return. `arg.h` only sets flags, which are arguments.
