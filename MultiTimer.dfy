/**
 * The timer multiplexer of multi_timer.cpp: many software deadlines share
 * one hardware countdown timer.
 *
 * The module's globals become the fields of one `TimerQueue` object.  The
 * ten `Timer` records and the `sentinel` record form one array of records
 * (slot `Sentinel` is the sentinel); a `Timer *` is a slot index, with
 * `NULL` (-1) for the null pointer.  The clock (`micros()`) is a
 * parameter, the hardware period last programmed through
 * `Timer1.setPeriod` is recorded in `period`, and running a callback is
 * recorded in the ghost log `fired`.
 *
 * The ghost sequences `active` and `free` give the two lists threaded
 * through the `next` fields; `Valid()` ties them to the arena.
 */
module MultiTimer {
  import opened TimerList

  /** Number of timer records in the arena (NUM_OF_TIMERS). */
  const NumTimers: nat := 10
  /** Arena index of the sentinel record that anchors the active list. */
  const Sentinel: nat := NumTimers
  /** Longest hardware period in microseconds (MAX_TIME_S * ONE_SECOND). */
  const MaxTimeMicros: nat := 8 * 1000000

  /** An Arduino `unsigned long` (32 bits). */
  type ULong = x: int | 0 <= x < 0x1_0000_0000
  /** A `uint8_t`. */
  type UInt8 = x: int | 0 <= x < 0x100

  /** An `int32_t`. */
  type Int32 = x: int | -0x8000_0000 <= x < 0x8000_0000

  /** uint8_t arithmetic: `x + d` wrapped to eight bits. */
  function ByteAdd(x: int, d: int): UInt8 {
    (x + d) % 0x100
  }

  /** Two wrapped additions are one. */
  lemma ByteAddTwice(x: int, d: int, e: int)
    ensures ByteAdd(ByteAdd(x, d), e) == ByteAdd(x, d + e)
  {
  }

  /**
   * One `Timer` record: absolute expiry in microseconds (0 marks "expired,
   * not yet run"), the immediate flag, the opaque value handed to the
   * callback, the identity of the callback function, and the link.
   */
  datatype Timer = Timer(timer: ULong, immediate: bool, value: int, callback: nat, next: int)

  /** The record every slot holds before anything is written: all zero. */
  const ZeroTimer := Timer(0, false, 0, 0, NULL)

  /** One run of a record's callback with its stored value. */
  datatype Invocation = Invocation(slot: nat, callback: nat, value: int)

  /** `n` copies of one invocation. */
  function Repeat(v: Invocation, n: nat): (r: seq<Invocation>)
    ensures |r| == n && forall i :: 0 <= i < n ==> r[i] == v
  {
    if n == 0 then [] else Repeat(v, n - 1) + [v]
  }

  /**
   * What mt_run_next_expired_timer hands back: a return value, or nothing
   * when control falls off the end of the function.
   */
  datatype RunResult = Returned(code: int) | FellOffEnd

  /** The `next` field of every record, slot by slot. */
  function Links(recs: seq<Timer>): (r: seq<int>)
    ensures |r| == |recs| && forall i {:trigger r[i]} :: 0 <= i < |recs| ==> r[i] == recs[i].next
  {
    seq(|recs|, i requires 0 <= i < |recs| => recs[i].next)
  }

  /** The `timer` field of every record, slot by slot. */
  function Expiries(recs: seq<Timer>): (r: seq<nat>)
    ensures |r| == |recs| && forall i {:trigger r[i]} :: 0 <= i < |recs| ==> r[i] == recs[i].timer
  {
    seq(|recs|, i requires 0 <= i < |recs| => recs[i].timer as nat)
  }

  /** Overwriting one record changes that slot of the link and expiry tables only. */
  lemma RecordUpdate(recs: seq<Timer>, x: nat, r: Timer)
    requires x < |recs|
    ensures Links(recs[x := r]) == Links(recs)[x := r.next]
    ensures Expiries(recs[x := r]) == Expiries(recs)[x := r.timer]
  {
    var u := recs[x := r];
    assert forall i :: 0 <= i < |recs| ==> u[i] == if i == x then r else recs[i];
  }

  /** Overwriting a record but for its link leaves every link as it was. */
  lemma LinksKept(recs: seq<Timer>, x: nat, r: Timer)
    requires x < |recs| && r.next == recs[x].next
    ensures Links(recs[x := r]) == Links(recs)
  {
    RecordUpdate(recs, x, r);
    assert Links(recs)[x := r.next] == Links(recs);
  }

  /**
   * The record-level form of UnlinkPushKeepsLists: record `q`, before `x`
   * on the active list, takes over `x`'s link and `x` is linked to the old
   * free-list head.  The arena invariant holds with `x` off the active
   * list and on top of the free list.
   */
  lemma RemoveTimerKeepsLists(recs: seq<Timer>, head: int, a: seq<nat>, f: seq<nat>, x: nat, q: nat,
                              recs': seq<Timer>)
    requires ArenaLists(Links(recs), Expiries(recs), NumTimers, head, a, f) && x in a
    requires q == (if IndexOf(a, x) == 0 then Sentinel else a[IndexOf(a, x) - 1])
    requires q < |recs| && x < |recs|
    requires recs' == recs[q := recs[q].(next := recs[x].next)][x := recs[x].(next := head)]
    ensures ArenaLists(Links(recs'), Expiries(recs'), NumTimers, x, Remove(a, x), [x] + f)
  {
    var nxt, keys := Links(recs), Expiries(recs);
    var recs1 := recs[q := recs[q].(next := recs[x].next)];
    RecordUpdate(recs, q, recs1[q]);
    RecordUpdate(recs1, x, recs'[x]);
    assert keys[q := keys[q]][x := keys[x]] == keys;
    UnlinkPushKeepsLists(nxt, keys, NumTimers, head, a, f, x, Links(recs'), Remove(a, x), [x] + f);
  }

  /** The arena with the expiry of the first `k` records of `s` set to 0. */
  function Marked(recs: seq<Timer>, s: seq<nat>, k: nat): (r: seq<Timer>)
    requires InRange(s, |recs|) && k <= |s|
    ensures |r| == |recs|
  {
    if k == 0 then recs
    else
      var m := Marked(recs, s, k - 1);
      m[s[k - 1] := m[s[k - 1]].(timer := 0)]
  }

  /**
   * Marking keeps every link and sets the expiry table as MarkExpired
   * describes.
   */
  lemma {:induction false} MarkedTables(recs: seq<Timer>, s: seq<nat>, k: nat)
    requires InRange(s, |recs|) && k <= |s|
    ensures Links(Marked(recs, s, k)) == Links(recs)
    ensures Expiries(Marked(recs, s, k)) == MarkExpired(Expiries(recs), s, k)
  {
    if k > 0 {
      MarkedTables(recs, s, k - 1);
      var m := Marked(recs, s, k - 1);
      var y := s[k - 1];
      RecordUpdate(m, y, m[y].(timer := 0));
      assert Links(m)[y := m[y].next] == Links(m);
    }
  }

  /** One step of the scan: the next record is still as it was, and marking it extends the prefix. */
  lemma MarkStep(recs: seq<Timer>, s: seq<nat>, j: nat)
    requires InRange(s, |recs|) && j < |s|
    requires forall i, k :: 0 <= i < k < |s| ==> s[i] != s[k]
    ensures Marked(recs, s, j)[s[j]] == recs[s[j]]
    ensures Marked(recs, s, j + 1) == Marked(recs, s, j)[s[j] := recs[s[j]].(timer := 0)]
  {
    assert s[j] !in s[..j] by {
      forall i | 0 <= i < j ensures s[..j][i] != s[j] { }
    }
    MarkedOther(recs, s, j, s[j]);
  }

  /** A record not among the first `k` of `s` is left as it was. */
  lemma {:induction false} MarkedOther(recs: seq<Timer>, s: seq<nat>, k: nat, y: nat)
    requires InRange(s, |recs|) && k <= |s| && y < |recs| && y !in s[..k]
    ensures Marked(recs, s, k)[y] == recs[y]
  {
    if k > 0 {
      assert s[..k] == s[..k - 1] + [s[k - 1]];
      MarkedOther(recs, s, k - 1, y);
    }
  }

  /**
   * The record-level form of PopInsertKeepsLists, step by step as
   * mt_set_timer writes the arena: `recs1` is `recs` with the free list's
   * head rewritten but for its link, the insertion scan over `recs1`
   * stopped after record `p`, and `recs3` gives the head `p`'s link and
   * points `p` at the head.  The arena invariant holds for the
   * shortened free list and the active list with the head spliced in, and
   * no record but the head changes except for its link.
   */
  lemma SetTimerKeepsLists(recs: seq<Timer>, head: int, a: seq<nat>, f: seq<nat>, recs1: seq<Timer>,
                           p: nat, j: nat, recs3: seq<Timer>)
    requires ArenaLists(Links(recs), Expiries(recs), NumTimers, head, a, f) && head != NULL
    requires 0 <= head < |recs| == |recs1| && recs1 == recs[head := recs1[head]] && recs1[head].next == recs[head].next
    requires j == InsertPos(Expiries(recs1), a, recs1[head].timer) && p == (if j == 0 then Sentinel else a[j - 1])
    requires |recs1| == NumTimers + 1 && p < |recs1| && recs1[p].next == Ptr(a, j)
    requires recs3 == recs1[head := recs1[head].(next := recs1[p].next)][p := recs1[p].(next := head)]
    ensures ArenaLists(Links(recs3), Expiries(recs3), NumTimers, recs[head].next,
                       Insert(Expiries(recs), a, head, recs1[head].timer), f[1..])
    ensures recs3[head] == recs1[head].(next := recs3[head].next)
    ensures forall i :: 0 <= i < |recs3| && i != head ==> recs3[i] == recs[i].(next := recs3[i].next)
  {
    var nxt, keys := Links(recs), Expiries(recs);
    var r := recs1[head];
    FreeHeadNotActive(nxt, keys, NumTimers, head, a, f);
    assert p != head;
    RecordUpdate(recs, head, r);
    InsertPosFrame(keys, a, head, r.timer, r.timer);
    var recs2 := recs1[head := recs1[head].(next := recs1[p].next)];
    RecordUpdate(recs1, head, recs2[head]);
    RecordUpdate(recs2, p, recs3[p]);
    assert keys[head := r.timer][head := r.timer][p := keys[p]] == keys[head := r.timer];
    assert Links(recs3) == nxt[head := Ptr(a, j)][p := head];
    PopInsertKeepsLists(nxt, keys, NumTimers, head, a, f, r.timer, j, Links(recs3), Expiries(recs3),
                        nxt[head], Insert(keys, a, head, r.timer), f[1..]);
  }

  class TimerQueue {
    /** `timers[0..NumTimers-1]` followed by the sentinel. */
    const timers: array<Timer>

    // The remaining globals.
    var freeList: int
    var nextTimer: Int32
    var timerIter: int
    var expiredTimers: UInt8
    var interruptsEnabled: bool
    /** Argument of the last Timer1.initialize / Timer1.setPeriod call. */
    var period: nat

    /** The records of the active list, in list order. */
    ghost var active: seq<nat>
    /** The records of the free list, in list order. */
    ghost var free: seq<nat>
    /** Every callback run so far, in order. */
    ghost var fired: seq<Invocation>

    /** Shape of the arena and ranges of the scalar globals. */
    ghost predicate WellFormed()
      reads this, timers
    {
      && timers.Length == NumTimers + 1
      && (forall i :: 0 <= i < timers.Length ==> timers[i].next == NULL || 0 <= timers[i].next < NumTimers)
      && (freeList == NULL || 0 <= freeList < NumTimers)
      && (timerIter == NULL || 0 <= timerIter < NumTimers)
      && 0 <= nextTimer <= MaxTimeMicros
    }

    /**
     * The arena invariant: every record is on exactly one of the free list
     * and the active list, once; the links spell out both lists, each
     * ending in NULL; the active list is in non-decreasing order of expiry.
     */
    ghost predicate Valid()
      reads this, timers
    {
      && WellFormed()
      && ArenaLists(Links(timers[..]), Expiries(timers[..]), NumTimers, freeList, active, free)
    }

    /** Each record is on exactly one of the two lists, and only once. */
    lemma SlotOnExactlyOneList(x: nat)
      requires Valid() && x < NumTimers
      ensures x in active <==> x !in free
      ensures NoDup(active) && NoDup(free)
    {
      OnExactlyOne(active, free, NumTimers, x);
    }

    /**
     * The arena invariant from its list part: the scalar ranges are as
     * WellFormed demands and every link is in range by ArenaLinksInRange.
     */
    lemma ValidFromLists(recs: seq<Timer>, head: int, a: seq<nat>, f: seq<nat>)
      requires timers.Length == NumTimers + 1 && timers[..] == recs
      requires ArenaLists(Links(recs), Expiries(recs), NumTimers, head, a, f)
      requires freeList == head && active == a && free == f
      requires (timerIter == NULL || 0 <= timerIter < NumTimers) && 0 <= nextTimer <= MaxTimeMicros
      ensures Valid()
    {
      var nxt := Links(recs);
      ArenaLinksInRange(nxt, Expiries(recs), NumTimers, head, a, f);
      assert forall i :: 0 <= i < timers.Length ==> timers[i].next == nxt[i];
    }

    /**
     * The program's globals before mt_init runs: static storage is zero,
     * so every link is NULL, and next_timer holds MAX_TIME_MICRO_S.
     */
    constructor ()
      ensures WellFormed() && fresh(timers)
      ensures forall i :: 0 <= i < timers.Length ==> timers[i] == ZeroTimer
      ensures freeList == NULL && timerIter == NULL && expiredTimers == 0
      ensures nextTimer == MaxTimeMicros && interruptsEnabled && period == 0
      ensures active == [] && free == [] && fired == []
    {
      timers := new Timer[NumTimers + 1](_ => ZeroTimer);
      freeList := NULL;
      nextTimer := MaxTimeMicros;
      timerIter := NULL;
      expiredTimers := 0;
      interruptsEnabled := true;
      period := 0;
      active := [];
      free := [];
      fired := [];
    }

    /**
     * mt_init: thread records 0..9 onto the free list in index order and
     * arm the hardware timer with its longest period.  The last record's
     * link and the sentinel's link are not written, so the lists are as
     * described only when those are still NULL, as at program start.
     */
    method Init()
      requires WellFormed()
      modifies this, timers
      ensures WellFormed()
      ensures freeList == 0 && period == MaxTimeMicros
      ensures forall i :: 0 <= i < NumTimers - 1 ==> timers[i] == old(timers[i]).(next := i + 1)
      ensures timers[NumTimers - 1] == old(timers[NumTimers - 1]) && timers[Sentinel] == old(timers[Sentinel])
      ensures free == Slots(NumTimers) && active == []
      ensures old(timers[NumTimers - 1].next) == NULL && old(timers[Sentinel].next) == NULL ==> Valid()
      ensures nextTimer == old(nextTimer) && timerIter == old(timerIter)
      ensures expiredTimers == old(expiredTimers) && interruptsEnabled == old(interruptsEnabled)
      ensures fired == old(fired)
    {
      freeList := 0;
      for i := 1 to NumTimers
        modifies timers
        invariant forall k :: 0 <= k < i - 1 ==> timers[k] == old(timers[k]).(next := k + 1)
        invariant forall k :: i - 1 <= k < timers.Length ==> timers[k] == old(timers[k])
      {
        timers[i - 1] := timers[i - 1].(next := i);
      }
      period := MaxTimeMicros;
      active := [];
      free := Slots(NumTimers);
      if old(timers[NumTimers - 1].next) == NULL && old(timers[Sentinel].next) == NULL {
        InitLists(Links(timers[..]), Expiries(timers[..]), NumTimers);
      }
    }

    /**
     * The insertion scan of mt_set_timer: from the sentinel, step past every
     * record of the active list `a` due strictly before the expiry `e`.  The
     * scan stops at the record after which a record due at `e` belongs.
     */
    method FindSlot(e: int, ghost recs: seq<Timer>, ghost a: seq<nat>) returns (p: nat, ghost j: nat)
      requires timers.Length == NumTimers + 1 && timers[..] == recs
      requires Linked(Links(recs), recs[Sentinel].next, a)
      ensures j == InsertPos(Expiries(recs), a, e)
      ensures p == if j == 0 then Sentinel else a[j - 1]
      ensures recs[p].next == Ptr(a, j)
    {
      ghost var nxt, keys := Links(recs), Expiries(recs);
      LinkedNext(nxt, nxt[Sentinel], a);
      p := Sentinel;
      j := 0;
      while timers[p].next != NULL && e > timers[timers[p].next].timer
        invariant 0 <= j <= |a|
        invariant p == if j == 0 then Sentinel else a[j - 1]
        invariant timers[p].next == Ptr(a, j)
        invariant forall i :: 0 <= i < j ==> keys[a[i]] < e
        decreases |a| - j
      {
        assert nxt[a[j]] == Ptr(a, j + 1);
        p := timers[p].next;
        j := j + 1;
      }
      InsertPosIs(keys, a, e, j);
    }

    /**
     * The tail of mt_set_timer, once record `x` has been taken off the
     * free list and given its expiry, value, callback and immediate flag
     * (`recs`, `a` and `f` are the arena and its lists before that): the
     * insertion scan, the splice, and the update of next_timer and of the
     * hardware period.  Afterwards `x` is on the active list at the place
     * Insert gives and the arena invariant holds again.
     */
    method Enqueue(x: nat, delay: nat, ghost recs: seq<Timer>, ghost a: seq<nat>, ghost f: seq<nat>)
      requires timers.Length == NumTimers + 1 && |recs| == NumTimers + 1 && x < NumTimers
      requires ArenaLists(Links(recs), Expiries(recs), NumTimers, x, a, f)
      requires timers[..] == recs[x := timers[x]] && timers[x].next == recs[x].next
      requires freeList == recs[x].next && active == a && free == f
      requires (timerIter == NULL || 0 <= timerIter < NumTimers) && 0 <= nextTimer <= MaxTimeMicros
      modifies timers, this`active, this`free, this`nextTimer, this`period
      ensures Valid()
      ensures active == Insert(Expiries(recs), a, x, old(timers[x].timer)) && free == f[1..]
      ensures timers[x] == old(timers[x]).(next := timers[x].next)
      ensures forall i :: 0 <= i < timers.Length && i != x ==> timers[i] == old(timers[i]).(next := timers[i].next)
      ensures var e := old(timers[x].timer);
              && nextTimer == (if e < old(nextTimer) then e else old(nextTimer))
              && period == (if e < old(nextTimer) then delay else old(period))
    {
      FreeHeadNotActive(Links(recs), Expiries(recs), NumTimers, x, a, f);
      ghost var recs1 := timers[..];
      LinksKept(recs, x, recs1[x]);
      var p;
      ghost var j;
      p, j := FindSlot(timers[x].timer, recs1, a);
      // The new record takes over its predecessor's link and the predecessor links to it.
      timers[x], timers[p], active, free := timers[x].(next := timers[p].next), timers[p].(next := x),
                                            Insert(Expiries(recs), a, x, recs1[x].timer), f[1..];
      ghost var recs3 := timers[..];
      SetTimerKeepsLists(recs, x, a, f, recs1, p, j, recs3);

      LowerNextTimer(timers[x].timer, delay);
      ValidFromLists(recs3, recs[x].next, Insert(Expiries(recs), a, x, recs1[x].timer), f[1..]);
    }

    /**
     * The last step of mt_set_timer: a new expiry `e` strictly before
     * next_timer becomes next_timer, and the hardware period is set to the
     * delay.  next_timer is an int32_t compared with an unsigned long; it
     * is never negative, so the comparison is the numeric one.
     */
    method LowerNextTimer(e: ULong, delay: nat)
      requires 0 <= nextTimer <= MaxTimeMicros
      modifies this`nextTimer, this`period
      ensures nextTimer == (if e < old(nextTimer) then e else old(nextTimer))
      ensures period == (if e < old(nextTimer) then delay else old(period))
      ensures 0 <= nextTimer <= old(nextTimer)
    {
      if e < nextTimer {
        nextTimer := e;
        period := delay;
      }
    }

    /**
     * mt_set_timer with the delay given in whole microseconds and the clock
     * reading `now`.  With an empty free list nothing changes and NULL is
     * returned.  Otherwise the head of the free list is taken, given expiry
     * now + delay, its value, callback and immediate flag, and spliced into
     * the active list before the first record due at or after it; no other
     * record changes but for its link.  When the new expiry is strictly
     * before next_timer it becomes next_timer and the hardware period is
     * set to the delay.
     */
    method SetTimer(now: ULong, delay: nat, isImmediate: bool, cb: nat, val: int) returns (t: int)
      requires Valid()
      requires now + delay < 0x1_0000_0000
      modifies this, timers
      ensures Valid()
      ensures old(freeList) == NULL ==> t == NULL && unchanged(this, timers)
      ensures old(freeList) != NULL ==>
                && t == old(freeList)
                && old(free) == [t] + free
                && active == Insert(Expiries(old(timers[..])), old(active), t, now + delay)
                && timers[t] == Timer(now + delay, isImmediate, val, cb, timers[t].next)
                && (forall i :: 0 <= i < timers.Length && i != t ==> timers[i] == old(timers[i]).(next := timers[i].next))
                && nextTimer == (if now + delay < old(nextTimer) then now + delay else old(nextTimer))
                && period == (if now + delay < old(nextTimer) then delay else old(period))
      ensures timerIter == old(timerIter) && expiredTimers == old(expiredTimers)
      ensures interruptsEnabled == old(interruptsEnabled) && fired == old(fired)
    {
      if freeList == NULL {
        return NULL;
      }
      ghost var recs := timers[..];
      FreeHeadNotActive(Links(recs), Expiries(recs), NumTimers, freeList, active, free);
      var newT := freeList;
      // The pop and the four field writes of the new record, as one step.
      freeList, timers[newT] := timers[newT].next,
        timers[newT].(timer := now + delay, value := val, callback := cb, immediate := isImmediate);
      Enqueue(newT, delay, recs, active, free);
      t := newT;
    }

    /**
     * The removal scan of mt_remove_timer: from the sentinel, step along
     * the active list `a` until the next record is `x` or there is none.
     * The scan stops at `x`'s predecessor when `x` is on the list, and at
     * the last record (or the sentinel) when it is not.
     */
    method FindPred(x: nat, ghost recs: seq<Timer>, ghost a: seq<nat>) returns (q: nat, ghost j: nat)
      requires timers.Length == NumTimers + 1 && timers[..] == recs
      requires Linked(Links(recs), recs[Sentinel].next, a) && x < NumTimers
      ensures j == if x in a then IndexOf(a, x) else |a|
      ensures q == if j == 0 then Sentinel else a[j - 1]
      ensures recs[q].next == Ptr(a, j) && q != x
    {
      ghost var nxt := Links(recs);
      LinkedNext(nxt, nxt[Sentinel], a);
      q := Sentinel;
      j := 0;
      while timers[q].next != NULL && timers[q].next != x
        invariant 0 <= j <= |a|
        invariant q == if j == 0 then Sentinel else a[j - 1]
        invariant timers[q].next == Ptr(a, j)
        invariant x !in a[..j]
        decreases |a| - j
      {
        assert nxt[a[j]] == Ptr(a, j + 1);
        assert a[..j + 1] == a[..j] + [a[j]];
        q := timers[q].next;
        j := j + 1;
      }
      if j < |a| {
        IndexOfIs(a, x, j);
      } else {
        assert a[..j] == a;
      }
    }

    /**
     * mt_remove_timer: walk from the sentinel to the record whose link is
     * `t` -- or, when `t` is not on the active list, to the last record --
     * give that record `t`'s link, link `t` to the free-list head and make
     * `t` the head.  For a record on the active list this unlinks exactly
     * it and keeps the arena invariant; for any other record the last
     * active record (or the sentinel) is overwritten and the lists are no
     * longer as `active` and `free` describe.
     */
    method RemoveTimer(t: nat) returns (ghost j: nat, ghost q: nat)
      requires Valid() && t < NumTimers
      modifies this, timers
      ensures WellFormed()
      ensures freeList == t
      ensures j == if t in old(active) then IndexOf(old(active), t) else |old(active)|
      ensures q == if j == 0 then Sentinel else old(active)[j - 1]
      ensures timers[..] == old(timers[..])[q := old(timers[q]).(next := old(timers[t].next))]
                                           [t := old(timers[t]).(next := old(freeList))]
      ensures t in old(active) ==> Valid() && active == Remove(old(active), t) && free == [t] + old(free)
      ensures t !in old(active) ==> active == old(active) && free == old(free)
      ensures nextTimer == old(nextTimer) && timerIter == old(timerIter) && expiredTimers == old(expiredTimers)
      ensures interruptsEnabled == old(interruptsEnabled) && period == old(period) && fired == old(fired)
    {
      ghost var recs := timers[..];
      ghost var a, f := active, free;
      var it;
      it, j := FindPred(t, recs, a);
      q := it;
      assert timers[..] == recs;
      // The predecessor takes over t's link and t is pushed onto the free list.
      timers[it], timers[t], freeList := timers[it].(next := timers[t].next), timers[t].(next := freeList), t;
      // The lists are restated only when they still describe the links.
      active, free := if t in a then Remove(a, t) else a, if t in a then [t] + f else f;
      if t in a {
        RemoveTimerKeepsLists(recs, old(freeList), a, f, t, it, timers[..]);
        ValidFromLists(timers[..], t, active, free);
      }
    }

    /**
     * timer_ISR for a clock reading `now`, when no record due at `now` is
     * an immediate one.  The cursor is set to the old list head; each
     * leading record due at `now` -- including records already marked 0 --
     * is marked 0 and counted (uint8_t arithmetic); the scan stops at the
     * first record not yet due, whose expiry, capped at MAX_TIME_MICRO_S,
     * becomes next_timer, and every record after it is not due either.
     * The hardware period is then set to next_timer.
     */
    method TimerIsr(now: ULong) returns (ghost k: nat)
      requires Valid()
      requires forall i :: 0 <= i < |active| && timers[active[i]].timer <= now ==> !timers[active[i]].immediate
      modifies this, timers
      ensures Valid()
      ensures active == old(active) && free == old(free) && freeList == old(freeList)
      ensures timerIter == Ptr(active, 0)
      ensures k == DueCount(Expiries(old(timers[..])), active, now)
      ensures timers[..] == Marked(old(timers[..]), active, k)
      ensures expiredTimers == ByteAdd(old(expiredTimers), k)
      ensures nextTimer == if k < |active| then
                             (if old(timers[active[k]].timer) < MaxTimeMicros then old(timers[active[k]].timer) else MaxTimeMicros)
                           else old(nextTimer)
      ensures forall i :: k <= i < |active| ==> now < old(timers[active[i]].timer)
      ensures period == nextTimer
      ensures interruptsEnabled == old(interruptsEnabled) && fired == old(fired)
    {
      ghost var recs := timers[..];
      ghost var nxt, keys := Links(recs), Expiries(recs);
      ghost var a, f := active, free;
      PartitionedIff(a, f, NumTimers);
      LinkedIff(nxt, nxt[Sentinel], a);
      k := DueCount(keys, a, now);
      DueCountSorted(keys, a, now);
      timerIter := timers[Sentinel].next;
      MarkDue(now, recs, a);
      MarkedTables(recs, a, k);
      MarkKeepsLists(nxt, keys, NumTimers, freeList, a, f, k, MarkExpired(keys, a, k));
      ValidFromLists(timers[..], freeList, active, free);
    }

    /**
     * The scan loop of timer_ISR: from the list head, mark each record due
     * at `now` with 0 and count it, until the list ends or a record not yet
     * due is reached; that record's expiry, capped at MAX_TIME_MICRO_S,
     * becomes next_timer, and the hardware period is set to next_timer.
     */
    method MarkDue(now: ULong, ghost recs: seq<Timer>, ghost a: seq<nat>)
      requires timers.Length == NumTimers + 1 && timers[..] == recs
      requires Linked(Links(recs), recs[Sentinel].next, a) && InRange(a, NumTimers)
      requires forall i, j :: 0 <= i < j < |a| ==> a[i] != a[j]
      requires forall i :: 0 <= i < |a| && recs[a[i]].timer <= now ==> !recs[a[i]].immediate
      requires 0 <= nextTimer
      modifies timers, this`expiredTimers, this`nextTimer, this`period
      ensures period == nextTimer
      ensures var k := DueCount(Expiries(recs), a, now);
              && timers[..] == Marked(recs, a, k)
              && expiredTimers == ByteAdd(old(expiredTimers), k)
              && nextTimer == (if k < |a| then
                                 (if recs[a[k]].timer < MaxTimeMicros then recs[a[k]].timer else MaxTimeMicros)
                               else old(nextTimer))
    {
      ghost var nxt, keys := Links(recs), Expiries(recs);
      LinkedNext(nxt, nxt[Sentinel], a);
      ghost var k := DueCount(keys, a, now);
      DueCountBounds(keys, a, now);
      var t := timers[Sentinel].next;
      ghost var j := 0;
      while t != NULL
        invariant 0 <= j <= k
        invariant t == Ptr(a, j)
        invariant timers[..] == Marked(recs, a, j)
        invariant expiredTimers == ByteAdd(old(expiredTimers), j)
        invariant nextTimer == old(nextTimer)
        modifies timers, this`expiredTimers, this`nextTimer
        decreases |a| - j
      {
        MarkStep(recs, a, j);
        if timers[t].timer <= now {
          if timers[t].immediate {
            // The immediate branch, which the precondition excludes.
            assert false;
          } else {
            ByteAddTwice(old(expiredTimers), j, 1);
            timers[t], expiredTimers := timers[t].(timer := 0), ByteAdd(expiredTimers, 1);
            assert timers[..] == Marked(recs, a, j + 1);
            assert nxt[a[j]] == Ptr(a, j + 1);
            t := timers[t].next;
            j := j + 1;
          }
        } else {
          assert keys[a[j]] > now;
          assert j == k;
          nextTimer := if timers[t].timer < MaxTimeMicros then timers[t].timer else MaxTimeMicros;
          break;
        }
      }
      assert j == k;
      period := nextTimer;
    }

    /** mt_timer_expired: the count of records marked expired and not yet run. */
    method TimerExpired() returns (n: int)
      ensures n == expiredTimers && 0 <= n < 0x100
    {
      n := expiredTimers;
    }

    /**
     * mt_run_next_expired_timer as written.  Interrupts are disabled; the
     * loop body returns on its first pass, so only the record under the
     * cursor is looked at and the cursor never moves.  A record marked 0
     * is pushed onto the free list -- without being unlinked from the
     * active list -- the count is decremented (uint8_t), interrupts are
     * enabled and its callback runs: the result is 1.  Any other record
     * gives 0 with interrupts enabled.  With a NULL cursor control falls
     * off the end with interrupts still disabled and no value returned.
     */
    method RunNextExpiredTimer() returns (r: RunResult)
      requires WellFormed()
      modifies this, timers
      ensures WellFormed()
      ensures timerIter == old(timerIter)
      ensures old(timerIter) == NULL ==>
                && r == FellOffEnd && !interruptsEnabled
                && unchanged(timers) && freeList == old(freeList)
                && expiredTimers == old(expiredTimers) && fired == old(fired)
      ensures old(timerIter) != NULL && old(timers[timerIter].timer) == 0 ==>
                && r == Returned(1) && interruptsEnabled
                && timers[..] == old(timers[..])[timerIter := old(timers[timerIter]).(next := old(freeList))]
                && freeList == timerIter
                && expiredTimers == ByteAdd(old(expiredTimers), -1)
                && fired == old(fired) + [Invocation(timerIter, timers[timerIter].callback, timers[timerIter].value)]
      ensures old(timerIter) != NULL && old(timers[timerIter].timer) != 0 ==>
                && r == Returned(0) && interruptsEnabled
                && unchanged(timers) && freeList == old(freeList)
                && expiredTimers == old(expiredTimers) && fired == old(fired)
      ensures nextTimer == old(nextTimer) && period == old(period)
      ensures active == old(active) && free == old(free)
    {
      interruptsEnabled := false;
      if timerIter != NULL {
        if timers[timerIter].timer == 0 {
          var toRun := timerIter;
          timers[timerIter] := timers[timerIter].(next := freeList);
          freeList := timerIter;
          expiredTimers := ByteAdd(expiredTimers, -1);
          interruptsEnabled := true;
          fired := fired + [Invocation(toRun, timers[toRun].callback, timers[toRun].value)];
          return Returned(1);
        }
        interruptsEnabled := true;
        return Returned(0);
      }
      r := FellOffEnd;
    }

    /**
     * mt_run_all_expired_timers: call mt_run_next_expired_timer until the
     * count of expired records is 0.  Since the cursor never moves, the loop
     * ends only when the count is already 0 or the record under the cursor
     * is marked expired; then that one record's callback runs once per
     * counted record, and after the second run the record links to itself.
     */
    method RunAllExpiredTimers()
      requires WellFormed()
      requires expiredTimers == 0 || (timerIter != NULL && timers[timerIter].timer == 0)
      modifies this, timers
      ensures WellFormed() && expiredTimers == 0
      ensures timerIter == old(timerIter) && nextTimer == old(nextTimer) && period == old(period)
      ensures old(expiredTimers) == 0 ==> unchanged(this, timers)
      ensures old(expiredTimers) != 0 ==>
                && interruptsEnabled && freeList == timerIter
                && timers[..] == old(timers[..])[timerIter := old(timers[timerIter]).(next :=
                                   if old(expiredTimers) == 1 then old(freeList) else timerIter)]
                && fired == old(fired) + Repeat(Invocation(timerIter, old(timers[timerIter]).callback,
                                                           old(timers[timerIter]).value), old(expiredTimers))
      ensures active == old(active) && free == old(free)
    {
      ghost var n := expiredTimers;
      ghost var run: nat := 0;
      while expiredTimers != 0
        invariant WellFormed() && timerIter == old(timerIter)
        invariant run + expiredTimers == n
        invariant n == 0 ==> unchanged(this, timers)
        invariant n != 0 ==> timers[timerIter] == old(timers[timerIter]).(next := timers[timerIter].next)
        invariant n != 0 ==> forall i :: 0 <= i < timers.Length && i != timerIter ==> timers[i] == old(timers[i])
        invariant n != 0 && run == 0 ==> timers[timerIter] == old(timers[timerIter]) && freeList == old(freeList)
        invariant n != 0 && run > 0 ==> interruptsEnabled && freeList == timerIter
        invariant n != 0 && run > 0 ==> timers[timerIter].next == if run == 1 then old(freeList) else timerIter
        invariant n != 0 ==> fired == old(fired) + Repeat(Invocation(timerIter, old(timers[timerIter]).callback,
                                                                    old(timers[timerIter]).value), run)
        invariant nextTimer == old(nextTimer) && period == old(period)
        invariant active == old(active) && free == old(free)
        decreases expiredTimers
      {
        var _ := RunNextExpiredTimer();
        run := run + 1;
      }
      if n != 0 {
        assert timers[..] == old(timers[..])[timerIter := timers[timerIter]];
      }
    }
  }
}
