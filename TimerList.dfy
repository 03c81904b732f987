/**
 * Sequence-level specification of the two singly linked lists that thread
 * through the timer arena of multi_timer.cpp: the free list and the active
 * list kept in ascending order of expiry behind a sentinel record.
 *
 * A list is described by the sequence of slot indices it visits, a table
 * of `next` links and a table of expiry keys.  The imperative model in
 * MultiTimer.dfy keeps its arrays related to these sequences.
 */
module TimerList {

  /** The link value that stands for a NULL `Timer *`. */
  const NULL: int := -1

  /** Every slot of `s` indexes an entry of a table of length `n`. */
  ghost predicate InRange(s: seq<nat>, n: nat) {
    forall i :: 0 <= i < |s| ==> s[i] < n
  }

  /** No slot occurs twice in `s`. */
  ghost predicate NoDup(s: seq<nat>)
    decreases |s|
  {
    s != [] ==> s[0] !in s[1..] && NoDup(s[1..])
  }

  /** NoDup, read position by position. */
  lemma {:induction false} NoDupIff(s: seq<nat>)
    ensures NoDup(s) <==> forall i, j :: 0 <= i < j < |s| ==> s[i] != s[j]
    decreases |s|
  {
    if s != [] {
      var t := s[1..];
      NoDupIff(t);
      assert forall i :: 0 <= i < |t| ==> t[i] == s[i + 1];
      if NoDup(s) {
        forall i, j | 0 <= i < j < |s|
          ensures s[i] != s[j]
        {
          if i == 0 {
            assert s[j] == t[j - 1];
          } else {
            assert s[i] == t[i - 1] && s[j] == t[j - 1];
          }
        }
      }
      if forall i, j :: 0 <= i < j < |s| ==> s[i] != s[j] {
        assert s[0] !in t by {
          forall k | 0 <= k < |t| ensures t[k] != s[0] {
            assert t[k] == s[k + 1];
          }
        }
        forall i, j | 0 <= i < j < |t|
          ensures t[i] != t[j]
        {
          assert t[i] == s[i + 1] && t[j] == s[j + 1];
        }
      }
    }
  }

  /** The slots 0, 1, ..., n - 1 of an arena of n records, in index order. */
  function Slots(n: nat): (r: seq<nat>)
    ensures |r| == n
    ensures forall i :: 0 <= i < n ==> r[i] == i
  {
    seq(n, i => i)
  }

  // ---------------------------------------------------------------------
  // Linked lists over a `next` table

  /**
   * The pointer to position `i` of a list that visits the slots of `s`:
   * the slot there, or NULL past the end.  `Ptr(s, 0)` is the list's head
   * and `Ptr(s, i + 1)` the link stored in its i-th record.
   */
  function Ptr(s: seq<nat>, i: nat): int {
    if i < |s| then s[i] else NULL
  }

  /**
   * Starting from `head` and following `nxt`, one visits exactly the slots
   * of `s`, in order, and then meets NULL.
   */
  ghost predicate Linked(nxt: seq<int>, head: int, s: seq<nat>)
    ensures Linked(nxt, head, s) ==> InRange(s, |nxt|)
    decreases |s|
  {
    if s == [] then head == NULL
    else head == s[0] && s[0] < |nxt| && Linked(nxt, nxt[s[0]], s[1..])
  }

  /**
   * Linked, read position by position: the head is the first slot and the
   * link stored in each record is the pointer to the next position.
   */
  lemma {:induction false} LinkedIff(nxt: seq<int>, head: int, s: seq<nat>)
    ensures Linked(nxt, head, s) <==>
              && InRange(s, |nxt|)
              && head == Ptr(s, 0)
              && forall i {:trigger nxt[s[i]]} :: 0 <= i < |s| ==> nxt[s[i]] == Ptr(s, i + 1)
    decreases |s|
  {
    if s != [] && s[0] < |nxt| {
      var t := s[1..];
      LinkedIff(nxt, nxt[s[0]], t);
      assert forall i :: 0 <= i < |t| ==> t[i] == s[i + 1];
      assert forall i :: 0 <= i <= |t| ==> Ptr(t, i) == Ptr(s, i + 1);
      if Linked(nxt, head, s) {
        forall i | 0 <= i < |s|
          ensures s[i] < |nxt| && nxt[s[i]] == Ptr(s, i + 1)
        {
          if i > 0 {
            assert s[i] == t[i - 1];
          }
        }
      }
      if && InRange(s, |nxt|) && head == Ptr(s, 0)
         && forall i {:trigger nxt[s[i]]} :: 0 <= i < |s| ==> nxt[s[i]] == Ptr(s, i + 1) {
        forall i | 0 <= i < |t|
          ensures t[i] < |nxt| && nxt[t[i]] == Ptr(t, i + 1)
        {
          assert t[i] == s[i + 1];
        }
      }
    }
  }

  /** The link stored in the record at each position of a list. */
  lemma LinkedNext(nxt: seq<int>, head: int, s: seq<nat>)
    requires Linked(nxt, head, s)
    ensures forall i {:trigger nxt[s[i]]} :: 0 <= i < |s| ==> nxt[s[i]] == Ptr(s, i + 1)
  {
    LinkedIff(nxt, head, s);
  }

  // ---------------------------------------------------------------------
  // Ordered insertion and removal

  /** Every record of the list is due no later than the one after it. */
  ghost predicate Sorted(keys: seq<nat>, s: seq<nat>)
    decreases |s|
  {
    && InRange(s, |keys|)
    && (|s| >= 2 ==> keys[s[0]] <= keys[s[1]] && Sorted(keys, s[1..]))
  }

  /** Sorted, read pair by pair. */
  lemma {:induction false} SortedIff(keys: seq<nat>, s: seq<nat>)
    ensures Sorted(keys, s) <==>
              && InRange(s, |keys|)
              && forall i, j :: 0 <= i < j < |s| ==> keys[s[i]] <= keys[s[j]]
    decreases |s|
  {
    if |s| >= 2 && InRange(s, |keys|) {
      var t := s[1..];
      SortedIff(keys, t);
      assert forall i :: 0 <= i < |t| ==> t[i] == s[i + 1];
      if Sorted(keys, s) {
        forall i, j | 0 <= i < j < |s|
          ensures keys[s[i]] <= keys[s[j]]
        {
          if i == 0 {
            if j > 1 {
              assert keys[t[0]] <= keys[t[j - 1]];
            }
          } else {
            assert s[i] == t[i - 1] && s[j] == t[j - 1];
          }
        }
      }
      if forall i, j :: 0 <= i < j < |s| ==> keys[s[i]] <= keys[s[j]] {
        forall i, j | 0 <= i < j < |t|
          ensures keys[t[i]] <= keys[t[j]]
        {
          assert t[i] == s[i + 1] && t[j] == s[j + 1];
        }
      }
    }
  }

  /**
   * The position at which the insertion scan of mt_set_timer stops: it
   * walks past records whose expiry is strictly smaller than `k` and stops
   * before the first record whose expiry is `k` or more.
   */
  function InsertPos(keys: seq<nat>, s: seq<nat>, k: int): (p: nat)
    requires InRange(s, |keys|)
    ensures p <= |s|
  {
    if s == [] || k <= keys[s[0]] then 0 else 1 + InsertPos(keys, s[1..], k)
  }

  /**
   * Where the insertion scan stops: every record before the position is
   * due strictly earlier than `k`, and the record at it (if any) is not.
   */
  lemma {:induction false} InsertPosBounds(keys: seq<nat>, s: seq<nat>, k: int)
    requires InRange(s, |keys|)
    ensures forall i :: 0 <= i < InsertPos(keys, s, k) ==> keys[s[i]] < k
    ensures InsertPos(keys, s, k) < |s| ==> k <= keys[s[InsertPos(keys, s, k)]]
    decreases |s|
  {
    if s != [] && keys[s[0]] < k {
      var t := s[1..];
      assert forall i :: 0 <= i < |t| ==> t[i] == s[i + 1];
      InsertPosBounds(keys, t, k);
    }
  }

  /**
   * The list `s` with slot `x`, due at `k`, spliced in where the insertion
   * scan stops.
   */
  function Insert(keys: seq<nat>, s: seq<nat>, x: nat, k: nat): (r: seq<nat>)
    requires InRange(s, |keys|) && x < |keys|
    ensures |r| == |s| + 1
    ensures InRange(r, |keys|)
  {
    var p := InsertPos(keys, s, k);
    s[..p] + [x] + s[p..]
  }

  /** The position of the first occurrence of `x` in `s`. */
  function IndexOf(s: seq<nat>, x: nat): (j: nat)
    requires x in s
    ensures j < |s| && s[j] == x
    ensures x !in s[..j]
  {
    if s[0] == x then 0 else 1 + IndexOf(s[1..], x)
  }

  /**
   * The removal scan of mt_remove_timer stops at the first occurrence: a
   * position holding `x` with no `x` before it is the one IndexOf gives.
   */
  lemma {:induction false} IndexOfIs(s: seq<nat>, x: nat, j: nat)
    requires j < |s| && s[j] == x && x !in s[..j]
    ensures IndexOf(s, x) == j
  {
    if j > 0 {
      assert s[0] == s[..j][0];
      assert s[1..][..j - 1] == s[1..j];
      IndexOfIs(s[1..], x, j - 1);
    }
  }

  /** The list `s` with the first occurrence of `x` unlinked. */
  function Remove(s: seq<nat>, x: nat): (r: seq<nat>)
    requires x in s
    ensures |r| == |s| - 1
  {
    var j := IndexOf(s, x);
    s[..j] + s[j + 1..]
  }

  /** Position by position, the list with `x` inserted. */
  lemma InsertAt(keys: seq<nat>, s: seq<nat>, x: nat, k: nat, i: nat)
    requires InRange(s, |keys|) && x < |keys| && i <= |s|
    ensures var p := InsertPos(keys, s, k);
            Insert(keys, s, x, k)[i] == if i < p then s[i] else if i == p then x else s[i - 1]
  {
    SpliceAt(s, x, InsertPos(keys, s, k), i);
  }

  /** Insertion keeps the list in non-decreasing order of expiry. */
  lemma InsertSorted(keys: seq<nat>, s: seq<nat>, x: nat, k: nat)
    requires Sorted(keys, s) && x < |keys| && x !in s
    ensures Sorted(keys[x := k], Insert(keys, s, x, k))
  {
    var p := InsertPos(keys, s, k);
    var r := Insert(keys, s, x, k);
    var keys' := keys[x := k];
    InsertPosBounds(keys, s, k);
    SortedIff(keys, s);
    SortedIff(keys', r);
    forall i, j | 0 <= i < j < |r|
      ensures keys'[r[i]] <= keys'[r[j]]
    {
      InsertAt(keys, s, x, k, i);
      InsertAt(keys, s, x, k, j);
      if j == p {
        assert s[i] != x;
      } else if i == p {
        assert s[j - 1] != x;
        assert keys[s[p]] <= keys[s[j - 1]];
      } else {
        var i' := if i < p then i else i - 1;
        var j' := if j < p then j else j - 1;
        assert s[i'] != x && s[j'] != x;
      }
    }
  }

  /**
   * Tie-break of the insertion: the new record lands at position `p`,
   * every record before it is due strictly earlier, and the record that
   * now follows it (if any) is due no earlier -- so among equal expiries
   * the newest record comes first.
   */
  lemma InsertPlacement(keys: seq<nat>, s: seq<nat>, x: nat, k: nat)
    requires Sorted(keys, s) && x < |keys|
    ensures var r := Insert(keys, s, x, k);
            exists p :: 0 <= p < |r| && r[p] == x
              && (forall i :: 0 <= i < p ==> keys[r[i]] < k)
              && (forall i :: p < i < |r| ==> k <= keys[r[i]])
  {
    var p := InsertPos(keys, s, k);
    var r := Insert(keys, s, x, k);
    InsertPosBounds(keys, s, k);
    SortedIff(keys, s);
    assert r[p] == x;
    forall i | p < i < |r|
      ensures k <= keys[r[i]]
    {
      assert r[i] == s[i - 1] && k <= keys[s[p]];
    }
  }

  /**
   * Insertion keeps the relative order of the records already in the list:
   * unlinking the new record again gives back exactly the old list.
   */
  lemma RemoveInsert(keys: seq<nat>, s: seq<nat>, x: nat, k: nat)
    requires InRange(s, |keys|) && x < |keys| && x !in s
    ensures x in Insert(keys, s, x, k)
    ensures Remove(Insert(keys, s, x, k), x) == s
  {
    var p := InsertPos(keys, s, k);
    var r := Insert(keys, s, x, k);
    assert r[p] == x;
    assert x !in r[..p] by {
      assert r[..p] == s[..p];
      assert forall y :: y in s[..p] ==> y in s;
    }
    assert IndexOf(r, x) == p;
    assert r[..p] + r[p + 1..] == s[..p] + s[p..];
    assert s[..p] + s[p..] == s;
  }

  /** Position by position, the list with `x` unlinked. */
  lemma RemoveAt(s: seq<nat>, x: nat, i: nat)
    requires x in s && i < |s| - 1
    ensures Remove(s, x)[i] == s[if i < IndexOf(s, x) then i else i + 1]
  {
  }

  /** Unlinking a record keeps the rest of the list in order. */
  lemma RemoveSorted(keys: seq<nat>, s: seq<nat>, x: nat)
    requires Sorted(keys, s) && x in s
    ensures Sorted(keys, Remove(s, x))
  {
    var r := Remove(s, x);
    SortedIff(keys, s);
    SortedIff(keys, r);
    forall a, b | 0 <= a < b < |r|
      ensures keys[r[a]] <= keys[r[b]]
    {
      RemoveAt(s, x, a);
      RemoveAt(s, x, b);
    }
  }

  /** Unlinking a record keeps the list free of duplicates. */
  lemma RemoveNoDup(s: seq<nat>, x: nat)
    requires NoDup(s) && x in s
    ensures NoDup(Remove(s, x)) && x !in Remove(s, x)
  {
    var r := Remove(s, x);
    NoDupIff(s);
    NoDupIff(r);
    forall a, b | 0 <= a < b < |r|
      ensures r[a] != r[b]
    {
      RemoveAt(s, x, a);
      RemoveAt(s, x, b);
    }
    forall a | 0 <= a < |r|
      ensures r[a] != x
    {
      RemoveAt(s, x, a);
    }
  }

  // ---------------------------------------------------------------------
  // Splicing links

  /**
   * Splicing `x` into the sentinel-anchored list at position `j` (the two
   * link writes of mt_set_timer) yields the list with `x` at position `j`.
   * Only the links of `x` and of its predecessor are written, so the links
   * of every other record are untouched.
   */
  lemma LinkedSplice(nxt: seq<int>, sentinel: nat, s: seq<nat>, j: nat, x: nat)
    requires sentinel < |nxt| && x < |nxt| && x != sentinel
    requires Linked(nxt, nxt[sentinel], s) && NoDup(s)
    requires sentinel !in s && x !in s && j <= |s|
    ensures var pred := if j == 0 then sentinel else s[j - 1];
            var nxt' := nxt[x := Ptr(s, j)][pred := x];
            Linked(nxt', nxt'[sentinel], s[..j] + [x] + s[j..])
  {
    var pred := if j == 0 then sentinel else s[j - 1];
    var nxt' := nxt[x := Ptr(s, j)][pred := x];
    var r := s[..j] + [x] + s[j..];
    LinkedIff(nxt, nxt[sentinel], s);
    NoDupIff(s);
    SpliceLinks(nxt, sentinel, s, j, x);
    LinkedIff(nxt', nxt'[sentinel], r);
  }

  /** The position-by-position part of LinkedSplice. */
  lemma SpliceLinks(nxt: seq<int>, sentinel: nat, s: seq<nat>, j: nat, x: nat)
    requires sentinel < |nxt| && x < |nxt| && x != sentinel && j <= |s|
    requires InRange(s, |nxt|) && nxt[sentinel] == Ptr(s, 0)
    requires forall i {:trigger nxt[s[i]]} :: 0 <= i < |s| ==> nxt[s[i]] == Ptr(s, i + 1)
    requires forall i, k :: 0 <= i < k < |s| ==> s[i] != s[k]
    requires sentinel !in s && x !in s
    ensures var pred := if j == 0 then sentinel else s[j - 1];
            var nxt' := nxt[x := Ptr(s, j)][pred := x];
            var r := s[..j] + [x] + s[j..];
            && InRange(r, |nxt'|) && nxt'[sentinel] == Ptr(r, 0)
            && forall i {:trigger nxt'[r[i]]} :: 0 <= i < |r| ==> nxt'[r[i]] == Ptr(r, i + 1)
  {
    var pred := if j == 0 then sentinel else s[j - 1];
    var nxt' := nxt[x := Ptr(s, j)][pred := x];
    var r := s[..j] + [x] + s[j..];
    assert forall i :: 0 <= i < j ==> r[i] == s[i];
    assert r[j] == x;
    assert forall i :: j < i < |r| ==> r[i] == s[i - 1];
    forall i | 0 <= i < |r|
      ensures r[i] < |nxt'| && nxt'[r[i]] == Ptr(r, i + 1)
    {
      if i + 1 < j {
        assert r[i] != pred && r[i] != x;
      } else if i + 1 == j {
        assert r[i] == pred;
      } else if i > j {
        assert r[i] != x && (j > 0 ==> r[i] != pred);
      }
    }
  }

  /**
   * Unlinking the record `x` from the sentinel-anchored list (the first
   * link write of mt_remove_timer when the record is present: its
   * predecessor takes over its link) yields the list without `x`.
   */
  lemma LinkedUnlink(nxt: seq<int>, sentinel: nat, s: seq<nat>, x: nat)
    requires sentinel < |nxt| && x in s
    requires Linked(nxt, nxt[sentinel], s) && NoDup(s) && sentinel !in s
    ensures var j := IndexOf(s, x);
            var pred := if j == 0 then sentinel else s[j - 1];
            var nxt' := nxt[pred := nxt[x]];
            Linked(nxt', nxt'[sentinel], Remove(s, x))
  {
    var j := IndexOf(s, x);
    var pred := if j == 0 then sentinel else s[j - 1];
    var nxt' := nxt[pred := nxt[x]];
    var r := Remove(s, x);
    LinkedIff(nxt, nxt[sentinel], s);
    NoDupIff(s);
    UnlinkLinks(nxt, sentinel, s, j, x);
    LinkedIff(nxt', nxt'[sentinel], r);
  }

  /** The position-by-position part of LinkedUnlink. */
  lemma UnlinkLinks(nxt: seq<int>, sentinel: nat, s: seq<nat>, j: nat, x: nat)
    requires sentinel < |nxt| && j < |s| && s[j] == x
    requires InRange(s, |nxt|) && nxt[sentinel] == Ptr(s, 0)
    requires forall i {:trigger nxt[s[i]]} :: 0 <= i < |s| ==> nxt[s[i]] == Ptr(s, i + 1)
    requires forall i, k :: 0 <= i < k < |s| ==> s[i] != s[k]
    requires sentinel !in s
    ensures var pred := if j == 0 then sentinel else s[j - 1];
            var nxt' := nxt[pred := nxt[x]];
            var r := s[..j] + s[j + 1..];
            && InRange(r, |nxt'|) && nxt'[sentinel] == Ptr(r, 0)
            && forall i {:trigger nxt'[r[i]]} :: 0 <= i < |r| ==> nxt'[r[i]] == Ptr(r, i + 1)
  {
    var pred := if j == 0 then sentinel else s[j - 1];
    var nxt' := nxt[pred := nxt[x]];
    var r := s[..j] + s[j + 1..];
    assert forall i :: 0 <= i < |r| ==> r[i] == s[if i < j then i else i + 1];
    assert nxt[x] == Ptr(s, j + 1);
    assert nxt'[sentinel] == Ptr(r, 0) by {
      if j > 0 {
        assert r[0] == s[0];
      }
    }
    forall i | 0 <= i < |r|
      ensures r[i] < |nxt'| && nxt'[r[i]] == Ptr(r, i + 1)
    {
      if i + 1 < j {
        assert r[i] == s[i] && r[i + 1] == s[i + 1];
        assert r[i] != pred;
      } else if i + 1 == j {
        assert r[i] == pred;
        assert Ptr(r, j) == Ptr(s, j + 1);
      } else {
        assert r[i] == s[i + 1];
        assert Ptr(r, i + 1) == Ptr(s, i + 2);
        assert j > 0 ==> r[i] != pred;
      }
    }
  }

  /** Pushing `x` onto the head of the list `f` makes `x` the new head. */
  lemma LinkedPush(nxt: seq<int>, f: seq<nat>, x: nat)
    requires Linked(nxt, Ptr(f, 0), f) && x !in f && x < |nxt|
    ensures Linked(nxt[x := Ptr(f, 0)], x, [x] + f)
  {
    var g := [x] + f;
    LinkedIff(nxt, Ptr(f, 0), f);
    LinkedIff(nxt[x := Ptr(f, 0)], x, g);
    forall i | 0 <= i < |g|
      ensures g[i] < |nxt| && nxt[x := Ptr(f, 0)][g[i]] == Ptr(g, i + 1)
    {
      if i > 0 {
        assert g[i] == f[i - 1];
      }
    }
  }

  /** A list is unaffected by link writes to records outside it. */
  lemma LinkedFrame(nxt: seq<int>, nxt': seq<int>, head: int, s: seq<nat>)
    requires Linked(nxt, head, s) && |nxt'| == |nxt|
    requires forall i :: 0 <= i < |s| ==> nxt'[s[i]] == nxt[s[i]]
    ensures Linked(nxt', head, s)
  {
    LinkedIff(nxt, head, s);
    LinkedIff(nxt', head, s);
  }

  // ---------------------------------------------------------------------
  // The arena invariant

  /**
   * The two lists share out the records 0..n-1 of an arena of n records:
   * neither holds anything else or anything twice, no record is on both,
   * and together they are as long as the arena.
   */
  ghost predicate Partitioned(a: seq<nat>, f: seq<nat>, n: nat) {
    && InRange(a, n) && InRange(f, n)
    && NoDup(a + f)
    && |a| + |f| == n
  }

  /**
   * Partitioned, read pair by pair: each list is free of duplicates and no
   * slot of one is a slot of the other.
   */
  lemma PartitionedIff(a: seq<nat>, f: seq<nat>, n: nat)
    ensures Partitioned(a, f, n) <==>
              && InRange(a, n) && InRange(f, n)
              && (forall i, j :: 0 <= i < j < |a| ==> a[i] != a[j])
              && (forall i, j :: 0 <= i < j < |f| ==> f[i] != f[j])
              && (forall i, j :: 0 <= i < |a| && 0 <= j < |f| ==> a[i] != f[j])
              && |a| + |f| == n
  {
    var s := a + f;
    NoDupIff(s);
    assert forall i :: 0 <= i < |s| ==> s[i] == if i < |a| then a[i] else f[i - |a|];
    if forall i, j :: 0 <= i < j < |s| ==> s[i] != s[j] {
      forall i, j | 0 <= i < j < |f|
        ensures f[i] != f[j]
      {
        assert f[i] == s[i + |a|] && f[j] == s[j + |a|];
      }
      forall i, j | 0 <= i < |a| && 0 <= j < |f|
        ensures a[i] != f[j]
      {
        assert a[i] == s[i] && f[j] == s[j + |a|];
      }
    }
  }

  /**
   * In an arena of n records whose sentinel is record n, the active list
   * `a` (anchored at the sentinel) and the free list `f` (headed by `head`)
   * share out the records, both end in NULL, and `a` is in non-decreasing
   * order of expiry.
   */
  ghost predicate ArenaLists(nxt: seq<int>, keys: seq<nat>, n: nat, head: int, a: seq<nat>, f: seq<nat>) {
    && |nxt| == n + 1
    && Partitioned(a, f, n)
    && Linked(nxt, nxt[n], a)
    && Linked(nxt, head, f)
    && Sorted(keys, a)
  }

  /**
   * Under the arena invariant every link -- the sentinel's included -- and
   * the free-list head are NULL or a slot of the arena.
   */
  lemma ArenaLinksInRange(nxt: seq<int>, keys: seq<nat>, n: nat, head: int, a: seq<nat>, f: seq<nat>)
    requires ArenaLists(nxt, keys, n, head, a, f)
    ensures forall i :: 0 <= i < |nxt| ==> nxt[i] == NULL || 0 <= nxt[i] < n
    ensures head == NULL || 0 <= head < n
  {
    PartitionedIff(a, f, n);
    LinkedIff(nxt, nxt[n], a);
    LinkedIff(nxt, head, f);
    forall i | 0 <= i < |nxt|
      ensures nxt[i] == NULL || 0 <= nxt[i] < n
    {
      if i < n {
        OnExactlyOne(a, f, n, i);
        if i in a {
          var k :| 0 <= k < |a| && a[k] == i;
          assert nxt[a[k]] == Ptr(a, k + 1);
        } else {
          var k :| 0 <= k < |f| && f[k] == i;
          assert nxt[f[k]] == Ptr(f, k + 1);
        }
      }
    }
  }

  /**
   * mt_init's threading of records 0..n-1, in index order, onto the free
   * list, with the last record's link and the sentinel's link NULL, sets up
   * an empty active list and a free list holding every record.
   */
  lemma InitLists(nxt: seq<int>, keys: seq<nat>, n: nat)
    requires |nxt| == n + 1 && n > 0
    requires forall i :: 0 <= i < n - 1 ==> nxt[i] == i + 1
    requires nxt[n - 1] == NULL && nxt[n] == NULL
    ensures ArenaLists(nxt, keys, n, 0, [], Slots(n))
  {
    var s := Slots(n);
    forall i | 0 <= i < n
      ensures nxt[s[i]] == Ptr(s, i + 1)
    {
      assert s[i] == i;
    }
    LinkedIff(nxt, 0, s);
    NoDupIff(s);
    assert [] + s == s;
  }

  /**
   * A non-NULL free-list head is the free list's first record, a real
   * record, and not on the active list.
   */
  lemma FreeHeadNotActive(nxt: seq<int>, keys: seq<nat>, n: nat, head: int, a: seq<nat>, f: seq<nat>)
    requires ArenaLists(nxt, keys, n, head, a, f) && head != NULL
    ensures f != [] && f[0] == head && 0 <= head < n && head !in a
  {
    PartitionedIff(a, f, n);
    forall i | 0 <= i < |a|
      ensures a[i] != f[0]
    {
    }
  }

  /**
   * mt_set_timer keeps the arena invariant: popping the free list's head
   * `x`, giving it expiry `e` and splicing it in at the position the
   * insertion scan stops leaves `x` on the active list at its ordered
   * place and the rest of the free list headed by `x`'s old link.
   */
  lemma PopInsertKeepsLists(nxt: seq<int>, keys: seq<nat>, n: nat, head: int, a: seq<nat>, f: seq<nat>, e: nat,
                             j: nat, nxt': seq<int>, keys': seq<nat>, head': int, a': seq<nat>, f': seq<nat>)
    requires ArenaLists(nxt, keys, n, head, a, f) && head != NULL && |keys| == n + 1
    requires keys' == keys[head := e] && j == InsertPos(keys, a, e)
    requires nxt' == nxt[head := Ptr(a, j)][if j == 0 then n else a[j - 1] := head]
    requires head' == nxt[head] && a' == Insert(keys, a, head, e) && f' == f[1..]
    ensures ArenaLists(nxt', keys', n, head', a', f')
  {
    FreeHeadNotActive(nxt, keys, n, head, a, f);
    PopInsertLinks(nxt, n, a, f, j);
    PopInsertPartition(a, f, n, j);
    InsertSorted(keys, a, head, e);
  }

  /**
   * The insertion scan does not look at the expiry of a record that is
   * not on the list.
   */
  lemma InsertPosFrame(keys: seq<nat>, s: seq<nat>, x: nat, e: nat, k: int)
    requires InRange(s, |keys|) && x < |keys| && x !in s
    ensures InsertPos(keys[x := e], s, k) == InsertPos(keys, s, k)
  {
    var keys' := keys[x := e];
    var p := InsertPos(keys', s, k);
    InsertPosBounds(keys', s, k);
    assert forall i :: 0 <= i < |s| ==> keys'[s[i]] == keys[s[i]];
    InsertPosIs(keys, s, k, p);
  }

  /**
   * The insertion scan stops at the one position `j` before which every
   * record is due strictly earlier than `k` and at which (if anywhere) a
   * record is due no earlier.
   */
  lemma {:induction false} InsertPosIs(keys: seq<nat>, s: seq<nat>, k: int, j: nat)
    requires InRange(s, |keys|) && j <= |s|
    requires forall i :: 0 <= i < j ==> keys[s[i]] < k
    requires j < |s| ==> k <= keys[s[j]]
    ensures InsertPos(keys, s, k) == j
    decreases |s|
  {
    if j > 0 {
      assert keys[s[0]] < k;
      var t := s[1..];
      assert forall i :: 0 <= i < |t| ==> t[i] == s[i + 1];
      InsertPosIs(keys, t, k, j - 1);
    }
  }

  /** The link part of PopInsertKeepsLists. */
  lemma PopInsertLinks(nxt: seq<int>, n: nat, a: seq<nat>, f: seq<nat>, j: nat)
    requires |nxt| == n + 1 && Partitioned(a, f, n)
    requires Linked(nxt, nxt[n], a) && Linked(nxt, Ptr(f, 0), f) && f != [] && j <= |a|
    ensures var x := f[0];
            var pred := if j == 0 then n else a[j - 1];
            var nxt' := nxt[x := Ptr(a, j)][pred := x];
            Linked(nxt', nxt'[n], a[..j] + [x] + a[j..]) && Linked(nxt', nxt[x], f[1..])
  {
    var x := f[0];
    var pred := if j == 0 then n else a[j - 1];
    var nxt' := nxt[x := Ptr(a, j)][pred := x];
    PartitionedIff(a, f, n);
    NoDupIff(a);
    assert x !in a && n !in a by {
      forall i | 0 <= i < |a| ensures a[i] != x && a[i] != n { }
    }
    LinkedSplice(nxt, n, a, j, x);
    forall i | 0 <= i < |f| - 1
      ensures nxt'[f[1..][i]] == nxt[f[1..][i]]
    {
      assert f[1..][i] == f[i + 1] && f[i + 1] != x;
      assert f[i + 1] != pred;
    }
    LinkedFrame(nxt, nxt', nxt[x], f[1..]);
  }

  /** Position by position, `s` with `x` spliced in before position `j`. */
  lemma SpliceAt(s: seq<nat>, x: nat, j: nat, i: nat)
    requires j <= |s| && i <= |s|
    ensures (s[..j] + [x] + s[j..])[i] == if i < j then s[i] else if i == j then x else s[i - 1]
  {
  }

  /** Moving the free list's head into the active list keeps the partition. */
  lemma PopInsertPartition(a: seq<nat>, f: seq<nat>, n: nat, j: nat)
    requires Partitioned(a, f, n) && f != [] && j <= |a|
    ensures Partitioned(a[..j] + [f[0]] + a[j..], f[1..], n)
  {
    var x := f[0];
    var r := a[..j] + [x] + a[j..];
    var g := f[1..];
    PartitionedIff(a, f, n);
    forall i | 0 <= i < |g|
      ensures g[i] == f[i + 1] && g[i] < n && g[i] != x
    {
    }
    forall i | 0 <= i <= |a|
      ensures r[i] < n
    {
      SpliceAt(a, x, j, i);
    }
    forall i, k | 0 <= i < k < |r|
      ensures r[i] != r[k]
    {
      SpliceAt(a, x, j, i);
      SpliceAt(a, x, j, k);
    }
    forall i, k | 0 <= i < |r| && 0 <= k < |g|
      ensures r[i] != g[k]
    {
      SpliceAt(a, x, j, i);
    }
    PartitionedIff(r, g, n);
  }

  /**
   * mt_remove_timer keeps the arena invariant when `x` is on the active
   * list: its predecessor takes over its link and `x` is pushed onto the
   * free list.
   */
  lemma UnlinkPushKeepsLists(nxt: seq<int>, keys: seq<nat>, n: nat, head: int, a: seq<nat>, f: seq<nat>, x: nat,
                              nxt': seq<int>, a': seq<nat>, f': seq<nat>)
    requires ArenaLists(nxt, keys, n, head, a, f) && x in a
    requires var j := IndexOf(a, x);
             nxt' == nxt[if j == 0 then n else a[j - 1] := nxt[x]][x := head]
    requires a' == Remove(a, x) && f' == [x] + f
    ensures ArenaLists(nxt', keys, n, x, a', f')
  {
    UnlinkPushLinks(nxt, n, head, a, f, x);
    RemoveSorted(keys, a, x);
    UnlinkPushPartition(a, f, n, x);
  }

  /** The link part of UnlinkPushKeepsLists. */
  lemma UnlinkPushLinks(nxt: seq<int>, n: nat, head: int, a: seq<nat>, f: seq<nat>, x: nat)
    requires |nxt| == n + 1 && Partitioned(a, f, n)
    requires Linked(nxt, nxt[n], a) && Linked(nxt, head, f) && x in a
    ensures var j := IndexOf(a, x);
            var pred := if j == 0 then n else a[j - 1];
            var nxt' := nxt[pred := nxt[x]][x := head];
            Linked(nxt', nxt'[n], Remove(a, x)) && Linked(nxt', x, [x] + f)
  {
    var j := IndexOf(a, x);
    var pred := if j == 0 then n else a[j - 1];
    var nxt1 := nxt[pred := nxt[x]];
    var nxt' := nxt1[x := head];
    PartitionedIff(a, f, n);
    NoDupIff(a);
    assert x !in f && pred !in f && x != n && n !in a by {
      forall i | 0 <= i < |f| ensures f[i] != x && f[i] != pred { }
      forall i | 0 <= i < |a| ensures a[i] != n { }
    }
    LinkedUnlink(nxt, n, a, x);
    RemoveNoDup(a, x);
    LinkedFrame(nxt1, nxt', nxt1[n], Remove(a, x));
    LinkedIff(nxt, head, f);
    assert head == Ptr(f, 0);
    LinkedFrame(nxt, nxt1, head, f);
    LinkedPush(nxt1, f, x);
  }

  /** Moving a record of the active list onto the free list keeps the partition. */
  lemma UnlinkPushPartition(a: seq<nat>, f: seq<nat>, n: nat, x: nat)
    requires Partitioned(a, f, n) && x in a
    ensures Partitioned(Remove(a, x), [x] + f, n)
  {
    var r := Remove(a, x);
    var g := [x] + f;
    PartitionedIff(a, f, n);
    forall i | 0 <= i < |r|
      ensures r[i] < n && r[i] != x
    {
      RemoveAt(a, x, i);
    }
    forall i | 0 <= i < |g|
      ensures g[i] == (if i == 0 then x else f[i - 1]) && g[i] < n
    {
    }
    forall i, k | 0 <= i < k < |r|
      ensures r[i] != r[k]
    {
      RemoveAt(a, x, i);
      RemoveAt(a, x, k);
    }
    forall i, k | 0 <= i < k < |g|
      ensures g[i] != g[k]
    {
    }
    forall i, k | 0 <= i < |r| && 0 <= k < |g|
      ensures r[i] != g[k]
    {
      RemoveAt(a, x, i);
    }
    PartitionedIff(r, g, n);
  }

  // ---------------------------------------------------------------------
  // The interrupt routine's scan

  /**
   * The number of leading records of `s` that are due at time `now`, that
   * is whose expiry is `now` or less; the scan of timer_ISR stops at the
   * first record that is not.
   */
  function DueCount(keys: seq<nat>, s: seq<nat>, now: int): (k: nat)
    requires InRange(s, |keys|)
    ensures k <= |s|
  {
    if s == [] || now < keys[s[0]] then 0 else 1 + DueCount(keys, s[1..], now)
  }

  /**
   * The records the scan of timer_ISR marks are due, and the one it stops
   * at (if any) is not.
   */
  lemma {:induction false} DueCountBounds(keys: seq<nat>, s: seq<nat>, now: int)
    requires InRange(s, |keys|)
    ensures forall i :: 0 <= i < DueCount(keys, s, now) ==> keys[s[i]] <= now
    ensures DueCount(keys, s, now) < |s| ==> now < keys[s[DueCount(keys, s, now)]]
    decreases |s|
  {
    if s != [] && keys[s[0]] <= now {
      var t := s[1..];
      assert forall i :: 0 <= i < |t| ==> t[i] == s[i + 1];
      DueCountBounds(keys, t, now);
    }
  }

  /**
   * On a sorted list the scan's early stop misses nothing: every record
   * past the due prefix is not yet due.
   */
  lemma DueCountSorted(keys: seq<nat>, s: seq<nat>, now: int)
    requires Sorted(keys, s)
    ensures forall i :: DueCount(keys, s, now) <= i < |s| ==> now < keys[s[i]]
  {
    var k := DueCount(keys, s, now);
    DueCountBounds(keys, s, now);
    SortedIff(keys, s);
    forall i | k <= i < |s|
      ensures now < keys[s[i]]
    {
      assert keys[s[k]] <= keys[s[i]];
    }
  }

  /** The expiry table after the first `k` records of `s` are set to 0. */
  function MarkExpired(keys: seq<nat>, s: seq<nat>, k: nat): (r: seq<nat>)
    requires InRange(s, |keys|) && k <= |s|
    ensures |r| == |keys|
    ensures forall y :: 0 <= y < |keys| ==> r[y] == if y in s[..k] then 0 else keys[y]
  {
    if k == 0 then keys
    else
      assert s[..k] == s[..k - 1] + [s[k - 1]];
      MarkExpired(keys, s, k - 1)[s[k - 1] := 0]
  }

  /** On a duplicate-free list the record at position k is not yet marked. */
  lemma MarkExpiredAt(keys: seq<nat>, s: seq<nat>, k: nat)
    requires InRange(s, |keys|) && NoDup(s) && k < |s|
    ensures MarkExpired(keys, s, k)[s[k]] == keys[s[k]]
  {
    NoDupIff(s);
    assert s[k] !in s[..k] by {
      forall i | 0 <= i < k
        ensures s[..k][i] != s[k]
      {
      }
    }
  }

  /**
   * Marking a prefix of a duplicate-free sorted list as expired keeps it
   * sorted: the marked records all read 0 and stay in front.
   */
  lemma MarkExpiredSorted(keys: seq<nat>, s: seq<nat>, k: nat)
    requires Sorted(keys, s) && NoDup(s) && k <= |s|
    ensures Sorted(MarkExpired(keys, s, k), s)
  {
    var m := MarkExpired(keys, s, k);
    SortedIff(keys, s);
    SortedIff(m, s);
    NoDupIff(s);
    forall i, j | 0 <= i < j < |s|
      ensures m[s[i]] <= m[s[j]]
    {
      if i < k {
        assert s[i] in s[..k];
      } else {
        assert s[i] !in s[..k] && s[j] !in s[..k] by {
          forall a | 0 <= a < k ensures s[a] != s[i] && s[a] != s[j] { }
        }
      }
    }
  }

  /**
   * timer_ISR keeps the arena invariant: marking the due prefix of the
   * active list as expired changes no link and keeps the list in order.
   */
  lemma MarkKeepsLists(nxt: seq<int>, keys: seq<nat>, n: nat, head: int, a: seq<nat>, f: seq<nat>, k: nat,
                        keys': seq<nat>)
    requires ArenaLists(nxt, keys, n, head, a, f) && k <= |a|
    requires keys' == MarkExpired(keys, a, k)
    ensures ArenaLists(nxt, keys', n, head, a, f)
  {
    PartitionedIff(a, f, n);
    NoDupIff(a);
    MarkExpiredSorted(keys, a, k);
  }

  // ---------------------------------------------------------------------
  // Every record is on one of the two lists

  /**
   * A duplicate-free list of slots below n in which `x` does not occur is
   * shorter than n (renumbering the slots above `x` one down maps it into
   * the slots below n - 1 without merging any two).
   */
  lemma {:induction false} MissingSlot(s: seq<nat>, n: nat, x: nat)
    requires NoDup(s) && InRange(s, n) && x !in s
    ensures |s| < n || (x >= n && |s| <= n)
  {
    if x < n {
      var t := seq(|s|, i requires 0 <= i < |s| => if s[i] > x then s[i] - 1 else s[i]);
      NoDupIff(s);
      NoDupIff(t);
      assert forall i :: 0 <= i < |s| ==> s[i] != x;
      forall i, k | 0 <= i < k < |t|
        ensures t[i] != t[k]
      {
        assert s[i] != s[k];
      }
      assert InRange(t, n - 1);
      SlotBound(t, n - 1);
    } else {
      SlotBound(s, n);
    }
  }

  /** A duplicate-free list of slots below n holds at most n of them. */
  lemma {:induction false} SlotBound(s: seq<nat>, n: nat)
    requires NoDup(s) && InRange(s, n)
    ensures |s| <= n
    decreases n
  {
    if |s| > 0 {
      assert s[0] < n;
      var top: nat := n - 1;
      if top in s {
        var r := Remove(s, top);
        RemoveNoDup(s, top);
        var j := IndexOf(s, top);
        assert forall i :: 0 <= i < |r| ==> r[i] == if i < j then s[i] else s[i + 1];
        assert InRange(r, top) by {
          forall i | 0 <= i < |r| ensures r[i] < top {
            assert r[i] != top;
          }
        }
        SlotBound(r, top);
      } else {
        assert InRange(s, top) by {
          forall i | 0 <= i < |s| ensures s[i] < top {
            assert s[i] != top;
          }
        }
        SlotBound(s, top);
      }
    }
  }

  /**
   * Under the partition every record of the arena is on exactly one of the
   * two lists.
   */
  lemma OnExactlyOne(a: seq<nat>, f: seq<nat>, n: nat, x: nat)
    requires Partitioned(a, f, n) && x < n
    ensures x in a <==> x !in f
    ensures NoDup(a) && NoDup(f)
  {
    PartitionedIff(a, f, n);
    NoDupIff(a);
    NoDupIff(f);
    if x !in a && x !in f {
      assert x !in a + f;
      MissingSlot(a + f, n, x);
      assert false;
    }
    if x in a {
      var i :| 0 <= i < |a| && a[i] == x;
      forall k | 0 <= k < |f| ensures f[k] != x {
        assert a[i] != f[k];
      }
    }
  }
}
