# MultiTimer — a Dafny model of the Arduino timer multiplexer

`multi_timer.cpp` shares one hardware countdown timer (TimerOne's `Timer1`)
among up to ten software timers. Each timer is a `Timer` record that holds an
absolute expiry in microseconds, an immediate flag, a callback with its value,
and a `next` link. Records move between two singly linked lists threaded
through a static array:

- the free list, headed by `freeList`;
- the active list, anchored at the `sentinel` record and kept in
  non-decreasing order of expiry.

`mt_set_timer` takes the free-list head, stamps it and splices it into the
active list. `mt_remove_timer` unlinks a record and pushes it back on the free
list. The interrupt routine `timer_ISR` marks every due deferred record with
expiry 0, counts it in `expired_timers` and re-arms the hardware with the next
expiry. A due immediate record instead has its callback run inside the
interrupt and is pushed on the free list.
`mt_run_next_expired_timer` and `mt_run_all_expired_timers` run the
callbacks of marked records outside the interrupt.

The model has two modules:

- `TimerList` (TimerList.dfy) describes the lists on sequences:
  - a list is the sequence of record indices it visits;
  - `Linked` ties that sequence to a table of links;
  - `Sorted` ties it to a table of expiries;
  - `ArenaLists` is the arena invariant: the active list and the free list
    share out the records, both end in NULL, and the active list is sorted.
  - It also holds the list operations (`Insert` at `InsertPos`, `Remove`,
    the due prefix `DueCount`, the marking `MarkExpired`) and the lemmas that
    each link rewrite of the C code keeps the invariant.
- `MultiTimer` (MultiTimer.dfy) is the program itself:
  - the globals become the fields of a `TimerQueue` object;
  - the ten records and the sentinel are one `array<Timer>`, with the
    sentinel at index 10;
  - a `Timer *` is an index, with -1 for `NULL`;
  - ghost sequences `active` and `free` name the two lists;
  - `Valid()` is the arena invariant over the array's links and expiries.

Each function of the C file is a method of `TimerQueue` that writes the
array in place. Each method is proved against the sequence-level operations:

- `SetTimer` leaves `active` equal to `Insert(...)`;
- `RemoveTimer` leaves `active` equal to `Remove(...)`;
- `TimerIsr` leaves the array equal to `Marked(...)` of the first
  `DueCount(...)` records.

The clock `micros()` is a parameter. The argument of the last
`Timer1.initialize` or `Timer1.setPeriod` call is the field `period`. Each
callback run is appended to the ghost log `fired`. `sei`/`cli` set the field
`interruptsEnabled`.

The code is modelled as written, including these behaviours, some of which
contradict the doc comments in `multi_timer.h` (for example "Runs the callback
function for all expired timers"):

- `mt_run_next_expired_timer` returns from inside the first pass of its loop.
  It therefore looks only at the record under the cursor and never advances
  the cursor.
- `mt_run_next_expired_timer` pushes an expired record onto the free list
  without unlinking it from the active list.
- When the cursor is `NULL`, control falls off the end of
  `mt_run_next_expired_timer` with interrupts still disabled and no value
  returned (`FellOffEnd`).
- `mt_run_all_expired_timers` therefore runs the callback of the one record
  under the cursor once per counted expiry. After the second run, that record
  links to itself.
- `mt_remove_timer` on a record that is not on the active list scans to the
  end of the list and then writes the links anyway. It overwrites the link of
  the last active record (or of the sentinel) and pushes the record on the
  free list again.
- `timer_ISR` counts a record that is already marked 0 a second time, since
  0 <= now. The counter is a `uint8_t`, so increments and decrements wrap
  modulo 256 (`ByteAdd`).
- `next_timer` is compared with the absolute expiry of a new record in
  `mt_set_timer`. In `timer_ISR` it receives an absolute expiry capped at
  `MAX_TIME_MICRO_S`, and that value is passed to `setPeriod` as if it were
  a period. The model keeps both uses exactly.

## Model

| member | source | states |
|---|---|---|
| TimerList.InsertPos | multi_timer.cpp:88-89 | the insertion scan's stopping position, at most the list length; InsertPosBounds and InsertPosIs state which position it is |
| TimerList.Insert | multi_timer.cpp:88-91 | the ordered splice adds exactly one record and keeps every entry a record of the arena; InsertSorted, InsertPlacement and RemoveInsert state where it goes and that the order is kept |
| TimerList.InsertPosBounds | multi_timer.cpp:88-89 | the insertion scan passes exactly the leading records due strictly before the new expiry; the record it stops at (if any) is due no earlier |
| TimerList.InsertPosIs | multi_timer.cpp:88-89 | a position before which every record is due strictly earlier, and at which the record is due no earlier, is the scan's stopping position |
| TimerList.InsertPosFrame | multi_timer.cpp:83-89 | writing the new record's expiry before the scan does not change where the scan stops, since that record is not on the active list |
| TimerList.InsertSorted | multi_timer.cpp:88-91 | the ordered insertion keeps the active list in non-decreasing order of expiry |
| TimerList.InsertPlacement | multi_timer.cpp:88-91 | the new record is placed after every record due strictly earlier and before every record due at or after it, so it goes ahead of equal expiries |
| TimerList.RemoveInsert | multi_timer.cpp:88-91 | insertion adds the new record and keeps the relative order of the others: removing it again gives back the old list |
| TimerList.LinkedSplice | multi_timer.cpp:90-91 | the two link writes of the splice turn the list into the list with the new record at the scan position |
| TimerList.PopInsertKeepsLists | multi_timer.cpp:80-91 | popping the free-list head, giving it an expiry and splicing it in at the scan position keeps the arena invariant, with the head moved from the free list into the active list |
| TimerList.FreeHeadNotActive | multi_timer.cpp:80-82 | a non-NULL free-list head is a record of the arena, is the first record of the free list and is not on the active list |
| TimerList.IndexOfIs | multi_timer.cpp:104-105 | the removal scan stops at the first occurrence of the record |
| TimerList.LinkedUnlink | multi_timer.cpp:104-106 | giving the predecessor the removed record's link turns the active list into that list without the record |
| TimerList.LinkedPush | multi_timer.cpp:107-108 | linking a record to the free-list head and making it the head puts it on top of the free list |
| TimerList.Remove | multi_timer.cpp:104-106 | unlinking removes exactly one entry; RemoveInsert, RemoveSorted and RemoveNoDup state that it removes the record and keeps the order |
| TimerList.RemoveSorted | multi_timer.cpp:104-106 | removing a record keeps the active list sorted |
| TimerList.RemoveNoDup | multi_timer.cpp:104-106 | removing a record from a duplicate-free list leaves no occurrence of it |
| TimerList.UnlinkPushKeepsLists | multi_timer.cpp:104-108 | unlinking an active record and pushing it on the free list keeps the arena invariant, with the record moved from the active list to the top of the free list |
| TimerList.PartitionedIff | multi_timer.cpp:36-38 | the two lists share out the ten records: each list is duplicate-free, no record is on both, and their lengths sum to ten (both directions) |
| TimerList.OnExactlyOne | multi_timer.cpp:36-38 | under the partition every record is on exactly one of the two lists |
| TimerList.ArenaLinksInRange | multi_timer.cpp:33-38 | under the arena invariant every link, including the sentinel's, and the free-list head are NULL or a record of the arena |
| TimerList.InitLists | multi_timer.cpp:70-73 | records chained 0 -> 1 -> ... -> 9 -> NULL with a NULL sentinel link give an empty active list and the free list 0..9 |
| TimerList.DueCount | multi_timer.cpp:47-62 | the number of records the interrupt scan passes, at most the list length; DueCountBounds and DueCountSorted state which records those are |
| TimerList.DueCountBounds | multi_timer.cpp:47-62 | the interrupt scan passes exactly the leading records with expiry <= now and stops at the first with expiry > now |
| TimerList.DueCountSorted | multi_timer.cpp:47-63 | on the sorted active list, every record after the due prefix is not yet due |
| TimerList.MarkExpired | multi_timer.cpp:55-56 | marking sets the expiry of exactly the records of the due prefix to 0 and leaves every other expiry unchanged |
| TimerList.MarkExpiredSorted | multi_timer.cpp:55-56 | marking a prefix of the sorted active list with 0 keeps it sorted |
| TimerList.MarkKeepsLists | multi_timer.cpp:55-56 | marking the due prefix keeps the arena invariant with both lists unchanged |
| MultiTimer.SetTimerKeepsLists | multi_timer.cpp:80-91 | on whole records: the pop, the field writes and the splice keep the arena invariant, and no record other than the new one changes except for its link |
| MultiTimer.RemoveTimerKeepsLists | multi_timer.cpp:104-108 | on whole records: the two link writes of a removal keep the arena invariant with the record on top of the free list |
| MultiTimer.Marked | multi_timer.cpp:55-56 | the arena after marking, of the same size; MarkedTables, MarkedOther and MarkStep state that exactly the expiries of the marked records become 0 and nothing else changes |
| MultiTimer.MarkedTables | multi_timer.cpp:55-56 | marking records keeps every link and sets the expiry table as MarkExpired describes |
| MultiTimer.TimerQueue.SlotOnExactlyOneList | multi_timer.cpp:36-38 | in a valid queue each record is on exactly one of the active and free lists, and only once |
| MultiTimer.TimerQueue.ValidFromLists | multi_timer.cpp:28-41 | the arena invariant on the link and expiry tables, with scalar globals in range, makes the queue valid |
| MultiTimer.TimerQueue.constructor | multi_timer.cpp:36-41 | static storage starts zeroed: all links NULL, an empty free list, count 0, next_timer = MAX_TIME_MICRO_S |
| MultiTimer.TimerQueue.Init | multi_timer.cpp:68-76 | links records 0..8 each to the next, makes record 0 the free-list head and arms the hardware with MAX_TIME_MICRO_S; from zeroed storage the queue is valid with every record free |
| MultiTimer.TimerQueue.FindSlot | multi_timer.cpp:88-89 | the insertion scan stops at position InsertPos, at the record (or the sentinel) whose link is the record at that position |
| MultiTimer.TimerQueue.Enqueue | multi_timer.cpp:88-96 | the splice puts the record at the place Insert gives, keeps the arena invariant and changes no other field but links; next_timer and the period are lowered when the new expiry is earlier |
| MultiTimer.TimerQueue.LowerNextTimer | multi_timer.cpp:93-96 | next_timer becomes the minimum of itself and the new expiry, and the period becomes the delay exactly when the expiry is strictly earlier |
| MultiTimer.TimerQueue.SetTimer | multi_timer.cpp:78-100 | with an empty free list returns NULL and changes nothing; otherwise returns the old free-list head, which is removed from the free list, holds the new expiry, flag, callback and value, and is inserted in order into the active list; the queue stays valid |
| MultiTimer.TimerQueue.FindPred | multi_timer.cpp:104-105 | the removal scan stops at the predecessor of the record when it is active, and at the last active record (or the sentinel) otherwise |
| MultiTimer.TimerQueue.RemoveTimer | multi_timer.cpp:102-109 | states the exact new arena; for an active record the queue stays valid with the record removed from the active list and pushed on the free list; the record always becomes the free-list head |
| MultiTimer.TimerQueue.TimerIsr | multi_timer.cpp:44-66 | the cursor becomes the list head; exactly the due prefix is marked 0 and counted modulo 256; next_timer becomes the capped expiry of the first record not due, and the period becomes next_timer; all later records are not due; the lists are unchanged and the queue stays valid |
| MultiTimer.TimerQueue.MarkDue | multi_timer.cpp:47-65 | the scan loop marks exactly the DueCount records, adds their number to the count modulo 256, and sets next_timer and the period |
| MultiTimer.TimerQueue.TimerExpired | multi_timer.cpp:111-113 | returns the expired count, a value in 0..255 |
| MultiTimer.TimerQueue.RunNextExpiredTimer | multi_timer.cpp:115-131 | a NULL cursor falls off the end with interrupts disabled; a marked record under the cursor is pushed on the free list, the count is decremented modulo 256, interrupts are enabled and its callback is logged with result 1; otherwise the result is 0 with interrupts enabled; the cursor never moves |
| MultiTimer.TimerQueue.RunAllExpiredTimers | multi_timer.cpp:133-137 | ends with count 0; the callback of the record under the cursor is logged once per counted expiry, and that record becomes the free-list head, linked to itself after the second run |

## Left out

- The clock `micros()` is a parameter (`now`). The hardware calls `Timer1.initialize`, `Timer1.setPeriod` and `Timer1.attachInterrupt` are recorded only as the argument in `period`. `pinMode` is not modelled.
- The delay of `mt_set_timer` is a `double` in seconds. The model takes it as a whole number of microseconds and does not model floating point or its rounding.
- SetTimer: requires `now + delay < 2^32`, because the conversion of an out-of-range `double` to `unsigned long` in the source is undefined behaviour.
- Callbacks are not executed: each run is logged as an `Invocation` in the ghost field `fired`. Callbacks that re-enter the queue are not modelled.
- Interrupt preemption of the non-interrupt functions is not modelled. Each function runs to completion, and `sei`/`cli` only set `interruptsEnabled`.
- TimerIsr: requires that no record due at `now` is immediate. In the immediate branch the source pushes the record on the free list without unlinking it, and its scan then continues along the free list. That walk can mark or run free records, and it is not modelled.
- SetTimer: the four field writes of the new record and the pop of the free list are one step. Nothing can observe the state between them, since interrupts are not modelled.
- Init: the lists are described only when the last record's link and the sentinel's link are NULL beforehand, as at program start. `mt_init` does not write those two links, so a second call on a used queue is not described.
- RemoveTimer: the arena invariant is kept only when the record is on the active list. For any other record, the exact new arena is stated but no list invariant is claimed.
- RunNextExpiredTimer: states the new arena exactly. It makes no claim about the arena invariant, which the source breaks by leaving the record on the active list.
- After `RunNextExpiredTimer` returns `Returned(1)`, `Valid()` cannot hold: the record run is then on both the active and the free list. `SetTimer`, `RemoveTimer` and `TimerIsr` all require `Valid()`, so the model describes no operation after the first deferred callback has run.
- RunAllExpiredTimers: requires that the count is 0 or that the record under the cursor is marked 0. Otherwise the source loops forever, and the model has no non-terminating methods.
- Pointers passed to `mt_remove_timer` are indices of records 0..9. Pointers to the sentinel or outside the array are not modelled.
