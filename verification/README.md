# A model of pseudo-redis

pseudo-redis is a small Redis clone in C. Under a thin layer of sockets it consists of
hand-written mutable structures and of commands that work on them. This project models
the structures as Dafny classes over the same pointers, arrays and counters, the
commands and the server loop as methods on those classes, and proves each method against
a function on plain values. What the program is meant to keep is then proved about those
functions: for one call, and for whole runs of any length.

| files | what they model |
|---|---|
| `Rings`, `ListSpec`, `ListLoops` | `server/list.c`, the circular list with a sentinel, and the loops of the list commands |
| `Masks`, `Buckets`, `Dicts`, `DictRuns`, `Expands` | `server/dict.c`, the chained hash table |
| `Walks`, `Scans`, `ScanRuns`, `SetOps` | iteration and the scan cursor; SSCAN, SINTER, SDIFF, SUNION |
| `Machine`, `Commands`, `ServerLoop`, `MainLoop` | the key space, the list commands, the pending list and the tick |
| `CommandLaws`, `Histories`, `Timeouts` | what each command does to the lists, told by their elements; queues and stacks over whole runs; when a blocking pop times out |
| `Requests`, `Elements`, `Safety`, `Wakeups`, `StaleReplies` | what every run of the server keeps, whom a tick serves, and what is sent in place of an error |
| `BitStrings`, `Decimals`, `ByteStrings` | `server/bss.c`, growable strings, their bits and their integers |
| `Tokens`, `ReplyArrays`, `ReplyCodec`, `Displays` | the argument tokenizer; the reply array, its encoder on the server and its decoder in the client; what the client displays of the array replies |

`Machine` holds one function `Do…` for each command and for a tick. `Commands` and
`ServerLoop` show that the pointer program computes those functions: the key dictionary is
the chained table of `Dicts`, the lists in it and the pending list are the rings of `Rings`.
`CommandLaws` says what these functions mean, in terms of places and elements alone. `Requests`,
`Elements`, `Safety`, `Wakeups`, `StaleReplies`, `Histories` and `Timeouts` prove laws of the functions, and
`MainLoop.StartAndRun` puts the two together: the laws hold of the pointer program from
start-up on. Time is a function from the number of a clock reading to microseconds, so the
results hold for every clock, even one that runs backwards. The hash is any function of the
byte string.

## Where the code departs from what it says it does

The model does what the code does. Where a departure breaks a property, the property is
stated with the condition under which it holds, and the condition is exact.

- `server/commands.c:1113`, `:1126`: BLPOP and BRPOP pop from the list they found but
  clean up and report the first key named (`Safety.BPopAsIntended`). An empty list can be
  left behind (`Safety.ExecKeepsListsNonEmpty`), and the next LPOP of it uses an entry that is
  not there (`Safety.StrandedListCrashes`).
- `server/commands.c:1629-1648`: RPOPLPUSH pops before it looks at its destination; if
  that holds another type the element is lost (`Elements.RPopLPushConserves`, `Elements.MoveCanLose`).
- `server/server.c:360-377`: the array of a finished BLPOP or BRPOP is built behind the test for
  a reply that is too long. If the first key named and the element do not fit, the element is
  off its list, no error is built, and the header of the reply before goes out
  (`Elements.BPopDelivers`, `Elements.VisitDelivers`, `Elements.BPopCanLose`). LPOP and RPOP
  also take off an element of more than `MAX_RPLY_SIZE` bytes, but reply with the error. The
  ledger of a run has a column for both (`Elements.RunConserves`), and nothing is lost exactly if
  that and the column of misdirected moves are empty (`Elements.RunLosesNothing`).
- `server/server.c:370-376`: the error that a blocking command replies (wrong type, too
  few arguments) is overwritten by whatever reply array was left behind. The model's
  replies call this `Stale` (`StaleReplies.RefusedPopShowsStale`,
  `StaleReplies.RefusedVisitShowsStale`); it may be the range that another client asked for
  (`StaleReplies.RefusedPopShowsRange`). If that array is too long the header of the reply
  before goes out here too.
- `server/server.c:534-536`: the elapsed time is one text, and the reply array holds a pointer to
  it. A time that an earlier request left in the array becomes that of a later one
  (`StaleReplies.TimeIsShared`).
- `server/server.c:310-314`: the pending list is newest first, so that elements go to the
  requests that have waited least (`Wakeups.LastComeFirstServed`); nobody is passed over
  only if there are elements for all or for none (`Wakeups.NobodyIsPassedOver`).
- `server/server.h:164` and `server/server.c:178`: the length of the reply array is a
  `uint8_t`. The test for a full array is never true and the 256th element empties the array
  (`ReplyArrays.AddAllFits`). LRANGE, SUNION, SDIFF and SINTER reply in full exactly if there are
  at most 255 elements and these and the end marker fit in `MAX_RPLY_SIZE` bytes
  (`Machine.LRangeShowsRange`, `SetOps.SUnion`, …), SSCAN exactly if there are at most 254 keys and
  the cursor fits too (`Scans.SScan`). A set of 255 members scanned at once comes back as an
  empty array without even a cursor (`Scans.SScanLosesAll`). Elements that are too long are
  answered with an error alone (`Machine.LRangeCanBeTooLong`, `SetOps.LongMembersTooLong`), and so
  is a scan, without its cursor (`Scans.LongKeysTooLong`).
- `server/server.c:230`: the type tested is that of the last element and not that of the
  reply, so the announced number of elements of an array that is not empty is always one
  too few (`ReplyCodec.ArrNumIsOneShort`). For the double array of SSCAN it is the number of keys
  (`ReplyCodec.ArrNumOfDouble`).
- `server/dict.c:193`, `:351-366`: renaming to a fresh key loses one from `entry_num`
  (`DictRuns.CountIsExact`). SINTER uses that count only to pick a set to copy, and
  `SetOps.SInter` is right whichever it picks.
- `server/dict.c:396-399`: `dict_expand`, which is compiled only if `DICT_RESIZE` is
  defined, moves whole chains to where their first entry belongs (`Expands.ExpandKeepsLookups`,
  `Expands.ExpandAsMeant`, and `Expands.ExpandCanLoseAKey` for a concrete loss).
- `server/dict.c:29-31`: with power 32 the table is one slot short (`Masks.IndexInTable`).
- `server/commands.c:2076`: the bound on the rounds of SSCAN compares an unsigned number
  with zero and never stops it. The scan ends all the same (`Scans.SScan`).
- `server/commands.c:184`: DECRBY on a missing key prints with `%d`
  (`Decimals.IncrByStoresItsReply`).
- `server/bss.c:315`, `:341`: the increment of the offset wraps for `GETBIT key -1` and
  `SETBIT key -1 1`, which reach before the first byte (`ByteStrings.Bss.Locate`,
  `ByteStrings.Bss.GetBit`, `ByteStrings.Bss.SetBit`). The sum at `server/bss.c:394` and the
  size at `server/bss.c:58` wrap for SETRANGE (`ByteStrings.Bss.SetRange`).
- `server/bss.c:265`: BITCOUNT indexes its table with a plain `char`; where that is signed it
  reads in front of the table exactly if a byte is 128 or more (`ByteStrings.Bss.CountBit`).
- `server/bss.c:353-361`: SETBIT past the capacity drops the old bytes
  (`BitStrings.SetBitKeepsOthers`).
- `server/bss.c:411-418`: SETRANGE within the capacity leaves stale bytes in the gap
  (`ByteStrings.SetRangeGap`, and `ByteStrings.StaleGap` for the two commands that do it).
- `server/bss.c:294-295`: APPEND returns NULL whenever it would have to grow
  (`ByteStrings.Bss.Append`).

## Model

| member | source | states |
|---|---|---|
| MainLoop.HandleAll | server/server.c:557-582 | the pointer program, sent any requests and ticks in any order, goes through exactly the states of `Run` and sends exactly its answers |
| MainLoop.RunKeepsLaws | server/server.c:557-582 | from an empty server, after any events: every request is answered exactly once or still waits; the pending list is newest first; after a tick all who wait name absent keys; whoever is told that the time is up asked for a timeout other than 0 and waited so long; single-key pops leave no empty list; what moving commands pushed is in a list, was delivered, was taken for a reply too long to be sent, or was lost to a misdirected move; a key that is only pushed to and popped from is a list with two ends; a queue gives up what it took in, in order, and delivers it so if and only if none of its replies was too long |
| MainLoop.StartAndRun | server/server.c:584-590 | the same of the pointer program, on rings in a chained table, from start-up on |
| Requests.RunBalance | server/server.c:323-383 | over any run and for each request: answers sent plus actions pending equal actions pending before plus requests received |
| Requests.SingleReply | server/server.c:359-378 | no request is answered twice or both answered and pending; each one received is one or the other |
| Requests.TickRemovesTheAnswered | server/server.c:511-553 | a tick takes exactly the answered actions off the pending list and keeps the order of the rest |
| Elements.RunConserves | server/commands.c:1551-1687 | over any run of pushes, pops, RPOPLPUSH, blocking pops, LRANGE and ticks, element by element: in the lists plus delivered plus taken for a reply too long to be sent plus lost to a misdirected RPOPLPUSH is what was there plus what was pushed |
| Elements.RunLosesNothing | server/server.c:359-378 | over any such run in the lists plus delivered is what was there plus what was pushed if and only if no reply was too long for its element and no move was misdirected |
| Elements.BPopDelivers | server/server.c:360-377 | a new BLPOP or BRPOP that finds an element takes it off, and delivers it if and only if the first key named and the element together leave room for 11 bytes in a reply |
| Elements.VisitDelivers | server/server.c:528-548 | the same of a pending one that a tick completes; the elapsed time, which comes behind, makes no difference |
| Elements.BPopCanLose | server/server.c:360-377 | RPUSH of 600000 bytes and BLPOP with a first key of 500000: the element is in no list and was delivered to nobody |
| Elements.MoveCanLose | server/commands.c:1629-1648 | SET d, RPUSH s x, RPOPLPUSH s d: wrong type is the reply and the element is in no list |
| Elements.RPopLPushConserves | server/commands.c:1612-1656 | RPOPLPUSH keeps every element if and only if its destination is absent or a list, or there is nothing to move |
| Safety.ExecKeepsListsNonEmpty | server/commands.c:1112-1113 | no command meets an empty list, and each keeps all lists non-empty if and only if it is not a blocking pop that takes the last element of a list other than that of its first key |
| Safety.RunKeepsListsNonEmpty | server/commands.c:1573-1579 | over any run with single-key blocking pops no list is ever empty and no NULL entry is used |
| Safety.BPopAsIntended | server/commands.c:1096-1131 | BLPOP and BRPOP do what is documented if and only if the list found is under the first key named, or no list is found |
| Safety.StrandedListCrashes | server/commands.c:1104-1113 | RPUSH b x, BLPOP a b 0, LPOP b: the last command uses an entry that is not there |
| Wakeups.TimeoutTakesNothing | server/server.c:522-527 | a request whose time is up is told nil and the time, and the key space is unchanged |
| Timeouts.RequestTimesOut | server/server.c:520-548 | from the request to its end: a blocking pop with timeout n that still waits when a tick begins, whatever came in between, is told nil and the time by that tick if and only if n is not 0 and n seconds have gone by between the two readings of the clock |
| Timeouts.RunInTime | server/server.c:520-548 | over any run whoever is told that the time is up asked for a timeout other than 0 and waited so long; with timeout 0 nobody ever is |
| Timeouts.TickInTime | server/server.c:511-553 | a tick tells each request whose time is up so, and no other |
| Timeouts.VisitInTime | server/server.c:525-527 | the same of one visit |
| Timeouts.WhatWaits | server/server.c:343-372 | a blocking pop is put on the list, with its number of seconds and the reading of the clock, if and only if its timeout is a number from 0 to 2147483647 and it names keys of which none exists |
| Timeouts.BadTimeout | server/server.c:344-353 | a number outside of that is refused with the one error if it is negative and the other if it is too large |
| Timeouts.NoTimeout | server/server.c:344-353 | a text that is no number is refused by what it begins with |
| Timeouts.TimePrinted | server/server.c:534 | the elapsed time is printed with a sign, whole seconds and two decimals, rounded to the nearest hundredth |
| Wakeups.NoLostWakeup | server/server.c:511-553 | a request goes on waiting after a tick if and only if it was not due and all its keys were absent at its own visit; those who wait keep their order and name keys that are absent after the tick too |
| Wakeups.RunLosesNoWakeup | server/server.c:499-554 | the same after any run that ends with a tick |
| Safety.RunIsFifo | server/commands.c:1085-1136 | for a key fed by RPUSH and drained by LPOP and its own BLPOP, in any run: what was taken from it followed by what remains is what was there followed by what was pushed |
| Safety.RunDeliversInOrder | server/server.c:359-378 | the same of what was delivered if and only if no reply to a command that takes from the key was too long to be sent |
| Histories.RunIsHistory | server/commands.c:1551-1687 | for a key that is pushed to and popped from on any ends, blocking or not, in any run: the answers are a history of a list with two ends, from what the key held to what it holds |
| Histories.RunIsFifoFromTheRight | server/commands.c:1551-1687 | LPUSH drained by RPOP and BRPOP: what was taken and what is left are what was there and what was pushed, in order |
| Histories.RunIsLifo | server/commands.c:1551-1687 | RPUSH drained by RPOP and BRPOP: what is taken comes back last in, first out |
| Histories.StackKeepsBelow | server/commands.c:1551-1687 | on the right end alone an element is not touched before all that came later was taken |
| Wakeups.LastComeFirstServed | server/server.c:310-314 | for any pending list: of the requests that are not due and for which a key is the first of theirs that exists, or would be, a tick takes an element for as many as the key has, newest first; where whoever waits for the key waits for it alone, the others stay in order |
| Wakeups.NobodyIsPassedOver | server/server.c:310-314 | no request is passed over by a newer one if and only if there are elements for all that wait or for none |
| Wakeups.SweepFeeds | server/server.c:511-553 | the same of any sweep over any list of blocking pops, whatever keys they name, with the supply that is left |
| Wakeups.SweepQueues | server/server.c:511-553 | where whoever waits for a key waits for it alone, the answers of a sweep and the actions it leaves are just the fed and the unfed |
| Wakeups.RunKeepsNewestFirst | server/server.c:310-314 | over any run the pending list stays ordered from the newest request to the oldest |
| StaleReplies.RefusedPopShowsStale | server/server.c:370-377 | a new blocking command with a good timeout is answered with the reply array left behind, or with the old header over it if it is too long, if and only if it names no key or finds a key that is not a list, and it changes nothing |
| StaleReplies.RefusedVisitShowsStale | server/server.c:528-548 | the same of a pending action that is not due, with the elapsed time added to the old array if it fits; times already in the array become that time |
| StaleReplies.TimeIsShared | server/server.c:534-536 | a request that is refused in the tick in which another timed out is sent nil and its own elapsed time twice |
| StaleReplies.RefusedPopShowsRange | server/server.c:370-377 | a range that one client asked for is sent to another whose pop is refused, whatever requests that leave the reply array alone come between |
| Safety.TrimLeavesTheRange | server/commands.c:1430-1493 | LTRIM a b then LRANGE 0 -1 replies what LRANGE a b replied before, for all offset texts; the key goes exactly when that is empty; other keys are unchanged; offsets that are no numbers are refused by both |
| CommandLaws.PushLaw | server/commands.c:1658-1687 | RPUSH puts the values behind the old elements in order, LPUSH in front in reverse; the reply is the number of elements; an absent key counts as empty |
| CommandLaws.PushRefused | server/commands.c:1658-1672 | no values, or a key of another type: an error and no change |
| CommandLaws.RPopLaw | server/commands.c:1567-1583 | RPOP of s + [x] hands out x and leaves s, or no key if s is empty |
| CommandLaws.LPopLaw | server/commands.c:1567-1583 | LPOP of [x] + s hands out x and leaves s, or no key if s is empty |
| CommandLaws.RPopLPushLaw | server/commands.c:1612-1656 | RPOPLPUSH takes the last element and puts it in front of the destination, which is made if need be; to a key of another type it is lost |
| CommandLaws.RPopLPushRotates | server/commands.c:1612-1656 | from a list to itself the last element becomes the first |
| CommandLaws.PopRefused | server/commands.c:1556-1565 | absent keys and keys of another type give up nothing |
| CommandLaws.BPopLaw | server/commands.c:1096-1131 | BLPOP takes the first and BRPOP the last element of the list under the first key that exists; the key reported, and removed with the last element, is the first one named |
| CommandLaws.BPopWaits | server/commands.c:1085-1136 | it blocks if and only if it names keys and none exists; a key of another type is an error |
| CommandLaws.LRemLaw | server/commands.c:1203-1291 | LREM n v: for n > 0 the first matches up to a cut go, for n < 0 the last ones, for 0 all; the reply is the smaller of n and the number of matches; the key goes exactly if nothing is left |
| CommandLaws.RangeLaw | server/commands.c:1148-1200 | LRANGE shows and LTRIM keeps just the places within the offsets, -d being the d-th place from the end; of more than 255 LRANGE shows those after the last multiple of 256 |
| CommandLaws.LInsertLaw | server/commands.c:1495-1549 | BEFORE puts the new element right before the first pivot and AFTER right after it, in any case of letters; other words are a syntax error |
| CommandLaws.Words | server/commands.c:1506-1514 | the texts accepted are those that spell one of the two words up to a zero byte |
| CommandLaws.LInsertRefused | server/commands.c:1516-1536 | 0 for an absent key and -1 for an absent pivot, without a change |
| CommandLaws.LSetLaw | server/commands.c:1341-1384 | LSET changes place i for an index i and the d-th place from the end for -d, and no other; nil out of range |
| CommandLaws.DelLaw | server/commands.c:45-57 | DEL takes away just the keys named and replies how many different ones there were |
| CommandLaws.RenameLaw | server/commands.c:306-319 | RENAME puts what the old key held under the new one and takes the old one away unless they are the same |
| CommandLaws.NoNumber | server/commands.c:1158-1163 | offsets, counts and indexes that are no numbers are refused whatever the key holds |
| CommandLaws.NoList | server/commands.c:1148-1493 | absent keys and keys of another type are answered by each command in its own way, without a change |
| Machine.LRangeShowsRange | server/commands.c:1191-1198 | LRANGE replies with the whole range if and only if it has at most 255 elements and these and the end marker fit in a reply |
| Machine.LRangeCanBeTooLong | server/server.c:206-209 | the range of a single element of MAX_RPLY_SIZE - 5 bytes is answered with the error for a long reply |
| ServerLoop.Host.Serve | server/server.c:343-383 | a request is answered at once or put on the pending list, as the function `Receive` says, and never both; a bad timeout earns the one or the other error by what strtoll made of it; a reply too long is an error, or for a blocking command the reply before |
| ServerLoop.Host.AddToPending | server/server.c:301-317 | the new action is first in the ring; the others follow in their order |
| ServerLoop.Attend | server/server.c:515-537 | what a tick does about one action: timeout, another try, the elapsed time added to the reply and left out again if there is no room for it |
| ServerLoop.Host.VisitEntry | server/server.c:512-553 | one turn of the tick, which may unlink the entry it stands on, leads from one point of the sweep to the next |
| ServerLoop.Host.DoHangingJobs | server/server.c:499-554 | the loop over the ring, relinked while it is walked, performs the whole sweep and ends |
| Commands.Db.LPopRPop | server/commands.c:1551-1583 | on rings: nil, wrong type, or the end element taken and the key removed with its last one, with an error in place of an element too long to be sent; all other keys keep their values |
| Commands.Db.LPushRPush | server/commands.c:1658-1687 | on rings: the values go one by one to one end of the list, which is created if need be; the reply is its length |
| Commands.Db.RPopLPush | server/commands.c:1612-1656 | on rings, source and destination the same or not: the last entry moves to the front of the other list, or is lost to a key of another type; an element too long to be sent moves too |
| Commands.Db.BLPopBRPop | server/commands.c:1085-1136 | on rings: blocked with an emptied reply array, an error, or the key and element in the reply array |
| Commands.Db.TakeFound | server/commands.c:1104-1113 | the entry comes from the list found, and the key removed with the last one is the first key named |
| Commands.Db.LookAround | server/commands.c:1096-1119 | the search stops at the first of the keys that exists |
| Commands.Db.LRem | server/commands.c:1260-1291 | the invalid-integer error first; the survivors stay, the key goes with the last of them, the reply is the number removed |
| Commands.Db.LTrim | server/commands.c:1430-1493 | the invalid-integer error first; a new ring with the kept range replaces the old one, or the key is removed |
| Commands.Db.LRange | server/commands.c:1148-1200 | the invalid-integer error leaves the reply array alone; otherwise the range goes into it, wrong types and absent keys included, and is the reply unless it is too long |
| Commands.Db.LInsert | server/commands.c:1495-1549 | the syntax error for a word that is neither before nor after in any case; the new element stands next to the first pivot; 0 for an absent key, -1 for an absent pivot |
| Commands.Db.LSet | server/commands.c:1341-1384 | the invalid-integer error first; the element at the index is replaced, negative indexes counting from the end, also where the reply is too long; nil out of range |
| Commands.Db.Del | server/commands.c:45-57 | the named keys are gone and the reply counts those that existed |
| Commands.Db.Rename | server/commands.c:306-319 | dict_rename on the chained key table moves the object to the new key, replacing what was there, and keeps every list apart from the others; an absent key changes nothing |
| Commands.Db.Set | server/commands.c:121-136 | dict_add on the chained key table gives the key the text, whatever it held before, and touches no list of another key |
| Commands.Db.RemoveKey | server/dict.c:201-213 | dict_rm on the chained key table takes the key away and leaves all lists as they are |
| Commands.Db.MoveKey | server/dict.c:324-367 | dict_rename on the chained key table, in terms of the objects it holds |
| Commands.Db.Call | server/server.c:343-357 | every command of the model called through the table does what its function says |
| Rings.Ring.RmNf | server/list.c:60-68 | the entry leaves the ring, the rest keep their order and their links are mutual inverses |
| Rings.Ring.Rm | server/list.c:71-78 | the same, with the removed entry clobbered |
| Rings.Ring.Destroy | server/list.c:81-98 | the safe walk reaches every entry once, in order, though each is clobbered when visited |
| Rings.Ring.InsertFront | server/list.c:108-116 | the ring holds the new entry first, all others in order |
| Rings.Ring.InsertBack | server/list.c:119-127 | the ring holds the new entry last, all others in order |
| Rings.Ring.InsertAfter | server/list.c:130-138 | the new entry stands right after the given one, the sentinel included |
| Rings.Ring.InsertBefore | server/list.c:141-149 | the new entry stands right before the given one |
| Rings.Ring.PopFront | server/list.c:154-160 | NULL from an empty ring, or the first entry taken off |
| Rings.Ring.PopBack | server/list.c:165-171 | NULL from an empty ring, or the last entry taken off |
| Rings.Ring.MoveBack | server/list.c:174-178 | one entry goes from one ring to the back of another; together they hold the same entries |
| Rings.Ring.MoveFront | server/list.c:181-185 | one entry goes from one ring to the front of another; together they hold the same entries |
| ListLoops.LRemForward | server/commands.c:1209-1224 | the walk that unlinks entries leaves the list without its first target matches, counts them and ends |
| ListLoops.LRemAll | server/commands.c:1225-1236 | the walk leaves the list without any match |
| ListLoops.LRemBackward | server/commands.c:1237-1255 | the walk leaves the list without its last target matches |
| ListLoops.LRem | server/commands.c:1203-1258 | the survivors by the sign of the count, and the number removed |
| ListLoops.MoveRange | server/commands.c:1468-1483 | the entries of the range, and no others, move to the new list in order |
| ListLoops.LTrim | server/commands.c:1453-1488 | the new list holds the clamped range of the old one; none if and only if that is empty |
| ListLoops.LRange | server/commands.c:1172-1195 | the values shown are the clamped range |
| ListLoops.FindEntry | server/commands.c:1522-1530 | the walk stops at the first match, or at the sentinel |
| ListLoops.LInsert | server/commands.c:1522-1546 | found if and only if the pivot is in the list; then the element is inserted beside the first one |
| ListLoops.LSet | server/commands.c:1368-1374 | the entry at the index gets the value, all others keep theirs |
| ListLoops.PushAll | server/commands.c:1677-1683 | the values stand in front in reverse order, or behind in order |
| ListSpec.LRemMeaning | server/commands.c:1203-1258 | as many matches go as are asked for and exist, those on one side of a cut; all other elements stay in order |
| ListSpec.RemoveFirstCut | server/commands.c:1209-1224 | every match before the cut goes, none after it, and the cut is where the number is reached |
| ListSpec.RemoveLastCut | server/commands.c:1237-1255 | the same from the back |
| ListSpec.RemoveLastMirrors | server/commands.c:1237-1255 | a negative count is reversing, removing from the front and reversing back |
| ListSpec.RangeIsBetween | server/commands.c:1172-1195 | the clamped slice is the elements at the places from a to b, or a plus and b plus the length where negative, for all signed offsets |
| ListSpec.RangePlaces | server/commands.c:1172-1195 | place i of n is in the range exactly if a <= i, or a <= i - n for negative a, and likewise for b |
| ListSpec.RangeFromEnd | server/commands.c:1173-1178 | the range -d to -1 is the last d elements |
| ListSpec.TrimThenRange | server/commands.c:1453-1487 | the range 0 to -1 of what LTRIM keeps is all of it |
| ListSpec.LInsertPlaces | server/commands.c:1522-1546 | the new element is beside the first pivot, and without it the list is what it was |
| ReplyArrays.AddAllKeeps | server/server.c:176-186 | what is left of the elements added is the part after the last multiple of 256 |
| ReplyArrays.AddAllFits | server/server.c:176-186 | the reply array holds all that was added if and only if that is at most 255 elements |
| Masks.AndMask | server/dict.c:159 | masking with 2^p - 1 is the remainder modulo 2^p |
| Masks.CreateMask | server/dict.c:33-36 | the mask computed from the size is 2^p - 1 for every power below 32 |
| Masks.IndexInTable | server/dict.c:29-36 | every hash has a slot if and only if the power is below 32 |
| Masks.TableShapes | server/dict.c:29-36 | the size doubles with each power and the mask is one less, except for power 32 |
| Dicts.Dict.constructor | server/dict.c:18-49 | the size and mask for every power up to 32; below 32 a new table of 2^power empty chains stores the empty map |
| Dicts.Dict.LookUpHash | server/dict.c:137-152 | the walk along a chain finds the entry of the key and the one before it if and only if the key is stored |
| Dicts.Dict.LookUp | server/dict.c:155-172 | looking up is looking up in the map |
| Dicts.Dict.Unlink | server/dict.c:188-193 | relinking around an entry removes its key from the map; no other chain changes |
| Dicts.Dict.RmNf | server/dict.c:177-196 | the key leaves the map, the entry is handed back, the order of its chain is kept |
| Dicts.Dict.LinkLast | server/dict.c:268-271 | linking a new last entry adds its key to the map; every key stays in its own bucket, once |
| Dicts.Dict.AddShallow | server/dict.c:255-276 | insert if absent |
| Dicts.Dict.Add | server/dict.c:282-322 | insert or replace, except that a set marker is never replaced |
| Dicts.Dict.Rename | server/dict.c:324-367 | the map becomes (map minus key) with the new key bound to the old object, also if the new key exists, shares the bucket or equals key; an absent key changes nothing |
| DictRuns.Perform | server/dict.c:177-367 | one operation of any kind, on the map and on the wrapped count |
| DictRuns.ApplyMeans | server/dict.c:177-367 | what each operation does to its own keys, key by key, and that all others keep their values |
| DictRuns.PerformAll | server/dict.c:177-367 | any sequence of operations on the chains is that sequence on the map and on the count |
| DictRuns.RunCount | server/dict.c:193 | over any sequence of operations the count is short by the number of renames to fresh keys, and by nothing else |
| DictRuns.CountIsExact | server/dict.c:351-366 | the count at the end is the size of the map if and only if there was no such rename |
| Buckets.WalkMeetsEachKeyOnce | server/dict.c:83-110 | a walk over all chains meets each stored key exactly once and no other |
| Buckets.AllKeysAreStored | server/dict.c:83-110 | the keys in all chains together are the keys of the map |
| Walks.AddKeys | server/dict.c:83-110 | dict_iter with addkey_to_arr puts the keys into the reply array in walking order |
| Scans.Scan | server/dict.c:443-460 | one call reports the chain of bucket cursor mod size and returns the next cursor mod size, also when the cursor wraps |
| Scans.ScanLength | server/dict.c:443-460 | from 0 until 0 comes back takes exactly as many calls as there are buckets |
| Scans.ScanReports | server/dict.c:443-460 | whatever happens between the calls, a key is reported once if it is there at the call that visits its bucket, and otherwise not at all |
| Scans.ScanGuarantee | server/dict.c:439-460 | a key that is there throughout is reported exactly once; one that is never there, never |
| ScanRuns.ScanAll | server/dict.c:439-460 | the chained table itself, with any adds, removals and renames performed on it between the calls: a key is reported once if those before the turn of its bucket leave it there, and otherwise not; so a key that stays is reported exactly once and one that stays away never; what is reported is in the reply array if and only if it is at most 255 keys |
| ScanRuns.AskAll | server/commands.c:2058-2083 | a client of SSCAN that goes on with the cursor read from each reply, with any COUNT and any adds, removals and renames between its commands: each command works on the set that these left; the client sees what the replies show; if every reply was full, 0 comes back after at most as many commands as there are buckets, and it has seen each member that stayed exactly once and no key that stayed away |
| Scans.SScan | server/commands.c:2058-2083 | one SSCAN ends; it makes consecutive calls up to the first that returns 0 or makes the reply array long enough for COUNT; the reply is the cursor and the keys met if and only if these are at most 254 and fit in a reply with the cursor |
| Scans.SScanGuarantee | server/commands.c:2070-2083 | SSCAN commands fed with each returned cursor, for any COUNT of each, if every one is answered in full: each reply begins with the cursor, and a key is sent exactly once if it is there at the call that visits its bucket, and otherwise never |
| Scans.SScanMeets | server/commands.c:2070-2080 | for any COUNT and any number of keys the commands make one full scan in all, with the guarantee for the keys met |
| Scans.WholeSetMet | server/commands.c:2070-2080 | one command that scans a whole set meets each of its members once and no other key |
| Scans.WholeSetReply | server/commands.c:2058-2083 | a set scanned by one command is sent in full if and only if it has at most 254 members and they fit in a reply with the cursor; with 255 the reply is empty |
| Scans.LongKeysTooLong | server/commands.c:2058-2083 | 254 keys of 5000 bytes or more are answered with an error, without a cursor |
| Scans.LosesAll | server/commands.c:2058-2083 | a set of 255 members scanned with a COUNT of 255 or more is answered with an empty array |
| Scans.SScanLosesAll | server/commands.c:2058-2083 | the same on a table filled with 255 members, with COUNT 1000 |
| SetOps.Iter | server/dict.c:83-110 | iteration with a callback that changes another table applies it to every key of the first |
| SetOps.InterVisit | server/commands.c:1951-1961 | the callback may unlink the very entry the walk stands on; the walk goes on to the one that followed |
| SetOps.Inter | server/commands.c:1951-1961 | iterating over a table and unlinking from it leaves exactly the keys that the other set has too |
| SetOps.CopyOf | server/commands.c:1737-1741 | the copy has the members of the original |
| SetOps.IterArgs | server/commands.c:2108-2114 | the callback is applied for the members of every set named, absent keys skipped |
| SetOps.Smallest | server/commands.c:1973-1985 | the set picked has the least count of entries of those named; wrong types and missing keys are told |
| SetOps.SUnion | server/commands.c:2091-2121 | SUNION meets each member of the union once, and the reply shows them all if and only if there are at most 255 and they fit in it; stored sets are unchanged |
| SetOps.SDiff | server/commands.c:1876-1916 | the same of SDIFF and the members of the first set that are in none of the others |
| SetOps.SInter | server/commands.c:1963-2011 | the same of SINTER and the members of all the sets, none if a key is missing |
| SetOps.LongMembersTooLong | server/server.c:206-209 | two members of 600000 bytes each are answered with an error |
| SetOps.InUnion | server/commands.c:2107-2114 | a key is in the union if and only if it is in one of the sets |
| SetOps.InInter | server/commands.c:1996-2004 | a key survives the cutting down if and only if it is in the first set and in all the others |
| SetOps.InterFromAny | server/commands.c:1980-1994 | the result does not depend on which set is copied |
| Expands.FoundAfterExpand | server/dict.c:393-401 | after the expansion a stored key is found if and only if it belongs where the head of its chain went |
| Expands.ExpandKeepsLookups | server/dict.c:393-401 | every lookup is kept if and only if all entries of each chain agree with its head under the wider mask |
| Expands.ExpandKeepsPlaces | server/dict.c:393-401 | every entry is in its own bucket under the same condition |
| Expands.ExpandAsMeant | server/dict.c:393-401 | the table that results is that of a rehash entry by entry under the same condition |
| Expands.SplitKeepsTheMap | server/dict.c:369-373 | a rehash entry by entry, the intended form, always keeps the map and the placement |
| Expands.SplitCounts | server/dict.c:369-373 | in the intended form each chain is divided between bucket b and b plus the old size, with no entry lost or doubled |
| Expands.ExpandCanLoseAKey | server/dict.c:396-399 | two keys that collide before and not after: the second is no longer found |
| Expands.Rehash | server/dict.c:393-401 | the loop over the old buckets fills the new array with whole chains |
| Expands.Expand | server/dict.c:373-409 | for any power below 32 that is not smaller: the expanded dictionary holds those chains, and is well formed under the same condition and no other |
| BitStrings.TableIsPop | server/bss.c:12-27 | each of the 256 entries of the table is the number of 1 bits of its index |
| BitStrings.TestBit | server/bss.c:330 | masking with a power of two tests the bit |
| BitStrings.BitPlaces | server/bss.c:311-331 | bit 0 of a byte is the one worth 128 and bit 7 the one worth 1; past the end all bits are 0 |
| BitStrings.CountIsOnes | server/bss.c:259-268 | the table-driven count is the number of offsets at which the bit is 1, however far one looks |
| BitStrings.SetBitBits | server/bss.c:336-379 | after a setbit each offset reads the new value, the old one, or 0 past the capacity |
| BitStrings.SetBitLength | server/bss.c:336-379 | the string keeps its length or is just long enough for the new bit |
| BitStrings.SetBitKeepsOthers | server/bss.c:353-370 | the other bits survive if and only if the byte is within the capacity or there was no 1 to lose |
| BitStrings.SetBitCount | server/bss.c:372-375 | within the capacity setbit changes the count by the new bit minus the old |
| Decimals.ParseAccepts | server/bss.c:167-183 | white space, a sign or none, and digits to the end are accepted if and only if the number fits 64 bits, with that value |
| Decimals.ParseRejectsTheRest | server/bss.c:179-180 | nothing else is accepted but the empty string |
| Decimals.PrintThenParse | server/bss.c:250-253 | every 64-bit number printed reads back as itself and takes at most 20 bytes |
| Decimals.OneDigitMore | server/bss.c:167-183 | a digit more on the right makes ten times the number and the digit |
| Decimals.Numerals | server/bss.c:167-183 | the empty text is 0, and -1203 is read and printed as such |
| Decimals.RunKeepsTotal | server/commands.c:164-229 | over any run of INCRBY and DECRBY commands with the texts of their arguments on a number: each reply is the running total, or an error that leaves it as it was, and the text reads as the last total |
| Decimals.IncrByAdds | server/commands.c:200-229 | INCRBY n of v stores and replies v + n and DECRBY n v - n, exactly if that is a 64-bit number; otherwise nothing changes |
| Decimals.IncrByStarts | server/commands.c:164-199 | on a missing key INCRBY stores its argument and replies n, DECRBY replies -n and stores what 32 bits hold of it; texts that are no numbers are refused |
| Decimals.IncrByStoresItsReply | server/commands.c:164-229 | the key afterwards reads as the number replied if and only if it is not a DECRBY of a missing key with a number beyond 32 bits |
| ByteStrings.Bss.constructor | server/bss.c:33-49 | the string holds the data with room for at least 22 bytes |
| ByteStrings.Bss.Empty | server/bss.c:52-67 | an empty string in a zeroed buffer of at least the size asked for |
| ByteStrings.Bss.Set | server/bss.c:99-137 | the string holds the data, in place if and only if it fits, with exact capacity; in place the bytes behind the terminator stay |
| ByteStrings.Bss.ToInt | server/bss.c:167-183 | reading with strtoll up to the first zero byte and testing where it ended and errno accepts the texts that are numbers as a whole, and no others; the number stored either way |
| Decimals.ReadsUpToZero | server/bss.c:176-180 | the length, end-pointer and range tests on the C string together accept exactly what parses, zero bytes inside included |
| ByteStrings.Bss.AddSub | server/bss.c:230-256 | the sum is stored if and only if the text parses and the sum fits 64 bits, with no overflow on the way, always in place; otherwise nothing changes |
| ByteStrings.Bss.CountBit | server/bss.c:259-268 | the loop over the table counts the bits of the whole string, unless char is signed and a byte is 128 or more; then it reads in front of the table |
| ByteStrings.Bss.Append | server/bss.c:273-308 | the data is appended in place if it fits in the free space; otherwise NULL, and the string is unchanged |
| ByteStrings.Bss.Locate | server/bss.c:315-325 | the offset arithmetic modulo 2^64 computes byte offset/8 and shift 7 - offset%8 if and only if the offset is not 2^64 - 1 |
| ByteStrings.Bss.GetBit | server/bss.c:311-331 | the bit at the offset, 0 past the end, for every offset but 2^64 - 1, where it reads outside of the buffer |
| ByteStrings.Bss.SetBit | server/bss.c:336-379 | in place or in a new string, the bytes of the specification and the capacity, if and only if the offset is not 2^64 - 1 |
| ByteStrings.Bss.SetRange | server/bss.c:386-424 | the three branches modulo 2^64: contents, identity and capacity of the result, if and only if neither the end of the range nor the size to allocate for it wraps |
| ByteStrings.IncrDecr | server/commands.c:164-229 | on the strings themselves, for an absent or a present key: the text afterwards and the reply, or the invalid-integer error with nothing changed |
| ByteStrings.GetRange | server/commands.c:575-605 | the clamped slice of the string |
| ByteStrings.SetRangeWindow | server/bss.c:386-424 | GETRANGE of the window gives the data, old bytes outside it are kept, the length is the larger of the two ends |
| ByteStrings.SetRangeNothing | server/bss.c:386-393 | without data the string stays as it is |
| ByteStrings.SetRangeGap | server/bss.c:395-418 | the gap before the window reads as zeros if and only if the string was grown or the spare bytes there were zeros |
| ByteStrings.StaleGap | server/bss.c:411-418 | a DECRBY that makes the text shorter and a SETRANGE within the capacity right behind where it ended: in the gap stand the terminator and the last of the old digits |
| ByteStrings.StaleGapAt1000 | server/bss.c:411-418 | the string 1000, less 901, with a range set at 4, shows a digit of 1000 in the gap |
| Tokens.NextToken | server/server.c:251-281 | one turn of the loop finds the next token, or skips one space, or fails |
| Tokens.ParseArgs | server/server.c:241-286 | the pointer-advancing loops cut the text as the specification does |
| Tokens.CutText | server/server.c:250-283 | any tokens written in quotes or bare, with white space as needed, are cut back into the same tokens |
| Tokens.CutTail | server/server.c:251-265 | trailing white space adds no token; an open quote makes the whole text fail |
| Tokens.CutExplained | server/server.c:250-283 | every text is tokens with only white space and quotes between them and is cut into those, or ends in an open quote and fails |
| Tokens.CutExample | server/server.c:250-283 | a text with a bare token, one in quotes with a space in it and one behind a tab |
| ReplyCodec.MaskKeepsFlags | server/server.c:203 | the four flags of a type survive the mask |
| ReplyCodec.PutElem | server/server.c:196-222 | one element is appended unless it would leave no room for the end marker |
| ReplyCodec.OnTheWire | server/server.c:196-217 | an element is the lower half of its type, four bytes of length with the least significant first, and the text; nil is the first byte alone |
| ReplyCodec.CreateArrReply | server/server.c:188-236 | the reply is the encoding of all elements and the end marker if and only if that is within the size limit, and otherwise an error |
| ReplyCodec.EncodedRoom | server/server.c:196-219 | the size that decides it is the length of the encoding |
| ReplyCodec.ArrNumIsOneShort | server/server.c:230-233 | an array that is not empty and that the client can decode is always announced with one element fewer than it has |
| ReplyCodec.ArrNumOfDouble | server/server.c:230-233 | a double array with elements behind its first one is announced with the number of those |
| ReplyCodec.DisplayElem | client/client.c:176-200 | one turn of the client's loop decodes one element or the end marker |
| ReplyCodec.DisplayArr | client/client.c:173-203 | the client's loop decodes to the end marker and never past the data |
| ReplyCodec.RoundTrip | client/client.c:172-203 | the client shows exactly the elements the server put in and uses up all bytes if and only if no element has the end flag |
| ReplyCodec.DisplayDouble | client/client.c:162-203 | the client's decoding of a double array, never past the data |
| ReplyCodec.DoubleRoundTrip | client/client.c:162-203 | the client shows a double array as the server put it in and uses up all bytes if and only if its first element is not nil and no other has the end flag |
| Displays.ItemsDisplayed | client/client.c:172-203 | every array of LRANGE and of the blocking pops that fits in a reply is shown by the client line by line: keys, elements, nil and time as they are, the elements of a range with numbers |
| Displays.KeysDisplayed | client/client.c:172-203 | every list of keys that fits in a reply is shown key by key, in order, quoted and numbered |
| Displays.ScanDisplayed | client/client.c:162-203 | every SSCAN reply that fits is shown as the cursor and the keys |
| Displays.PopOnTheWire | server/server.c:188-236 | the thirteen bytes of a reply with key and element |
| Displays.TimeoutOnTheWire | server/server.c:522-548 | the thirteen bytes of nil and 1.23 seconds |

## Left out

- Sockets, epoll, accept, the send and read loops and console output: a reply counts as sent when it is built.
- Freeing memory and failing allocations. In particular the key and the element that a finished blocking pop puts into the reply array are encoded twice by a tick and freed each time (`server/server.c:219-221`), and a refused command may encode them, or elements of a range that were removed since, once more; the model takes their bytes to be still there.
- Objects are not destroyed: `dict_add`, `dict_rm` and `dict_rename` drop the object they replace. Sets and hashes in the key space are told apart from lists only by their type.
- Commands.Db.LTrim: the new list is stored as a new object under the key, where the code puts it into the old object.
- ServerLoop.Host.Serve: an unknown command and an argument text with an open quote (`Tokens.ParseArgs`) are answered before it and are not part of it; a request has at most `MAX_ARGS` arguments. A blocking command has at least the argument for its timeout; without any it would read the argument before the first (`server/server.c:344`).
- ServerLoop.Attend: the elapsed time is a whole number of microseconds, and its text is that number rounded to two decimals; the code has a `float`, which rounds both. Clock readings fit a 64-bit time_t.
- ListLoops.LRem: the count removed is not cut to 32 bits, and a count of LLONG_MIN, whose negation C does not define, is negated like any other.
- Commands.Db.LRem: the same.
- ListLoops.LSet: the loop counter is not cut to 32 bits.
- Dicts.Dict.constructor: nothing is claimed of a table of power 32 but its size and mask, because its last slot is missing.
- Dicts.Dict.Rename: a new key that holds the marker of a set is given the old value, where the code would call the destructor of the marker; `dict_rename` is used only where values are objects.
- Expands.Expand: a power smaller than the present one, which nothing asks for, or 32, which `dict_add` asks for from power 31 on and for which the table is one slot short.
- Scans.SScan: the cursor and COUNT arrive as numbers, and a pattern, which no option ever sets, is left out.
- ByteStrings.Bss.AddSub: negating LLONG_MIN is excluded, because C does not define it. `IncrDecr` excludes it too.
- ByteStrings.Bss.Set: of the two attempts to allocate, the first one succeeds, and asks for a size that fits a `size_t`; so do the constructors.
- ReplyCodec.CreateArrReply: element texts are shorter than 2^31 bytes, so that the `uint32_t` sums do not wrap; longer ones are also not compared correctly by `bss_cmp`.
- Tokens.ParseArgs: the bound `MAX_ARGS` on the argument array is not checked by the code and not modelled.
- ReplyCodec.DisplayArr: the client does not check the bounds of the data; where it would read past them the model fails.
- The body of the hash function: only that equal strings have equal hashes matters.
- `spop`, `srandmember`, `randomkey`: they depend on random numbers.
- `keys` and glob matching; floating-point commands (`incrbyfloat`, `hincrbyfloat`).
- `brpoplpush` (it returns no value), `lpushx` and `rpushx` (wired to the wrong helper), `smove`, and the unfinished counting forms of `spop` and `srandmember`.
- `llen`, `lindex`, `get`, `mget`, `setnx`, `scard`, `sismember` and the hash commands: one lookup and at most one operation that is already proved.
