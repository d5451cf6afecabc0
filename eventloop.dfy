/** src/backend_event_loop.c: the timer list of the event loop.  Timeout
    handles live on an intrusive doubly linked list (sys/queue.h LIST), kept
    in order of their deadlines; run_timers fires the due handles at the
    front and re-arms the periodic ones; the loop sleeps until the first
    deadline. */
module EventLoop {
  import opened Bytes

  /** struct backend_timeout_handle: the deadline in wall-clock
      milliseconds and the repeat interval (0: fire once). */
  class TimeoutHandle {
    var timeoutClock: nat
    const intvl: u32

    /** backend_event_loop_create_timeout: a handle with the deadline and
        interval filled in. */
    constructor (timeoutClock: nat, intvl: u32)
      ensures this.timeoutClock == timeoutClock && this.intvl == intvl
    {
      this.timeoutClock := timeoutClock;
      this.intvl := intvl;
    }
  }

  /** A list entry as a value: the handle and the deadline it holds. */
  datatype Timer = Timer(handle: TimeoutHandle, clock: nat)

  /*** The timer list as a sequence ***/

  /** Deadlines never decrease along the list. */
  predicate Sorted(ts: seq<Timer>)
  {
    forall i, j :: 0 <= i < j < |ts| ==> ts[i].clock <= ts[j].clock
  }

  /** The first position whose deadline is later than c, or |ts|: where the
      insertion walk stops (strict <), and where run_timers stops firing. */
  function FirstLater(ts: seq<Timer>, c: nat): (p: nat)
    ensures p <= |ts|
    ensures p < |ts| ==> c < ts[p].clock
    ensures forall j :: 0 <= j < p ==> ts[j].clock <= c
  {
    if ts == [] || c < ts[0].clock then 0 else 1 + FirstLater(ts[1..], c)
  }

  /** On a sorted list, the entries from FirstLater on are exactly the later
      ones. */
  lemma FirstLaterSplits(ts: seq<Timer>, c: nat)
    requires Sorted(ts)
    ensures forall j :: 0 <= j < |ts| ==> (ts[j].clock <= c <==> j < FirstLater(ts, c))
  {
    var p := FirstLater(ts, c);
    forall j | p <= j < |ts|
      ensures c < ts[j].clock
    {
      assert ts[p].clock <= ts[j].clock;
    }
  }

  /** backend_insert_timeout on the list of values: the new entry goes right
      before the first later deadline. */
  function Insert(ts: seq<Timer>, t: Timer): (r: seq<Timer>)
  {
    ts[..FirstLater(ts, t.clock)] + [t] + ts[FirstLater(ts, t.clock)..]
  }

  /** Insertion of a handle not yet on a valid list keeps it valid. */
  lemma SpliceValid(ts: seq<Timer>, t: Timer)
    requires Sorted(ts) && Distinct(ts)
    requires forall j :: 0 <= j < |ts| ==> ts[j].handle != t.handle
    ensures Sorted(Insert(ts, t)) && Distinct(Insert(ts, t))
  {
    var r, p := Insert(ts, t), FirstLater(ts, t.clock);
    InsertIndex(ts, t);
    InsertSorted(ts, t);
    forall i, j | 0 <= i < j < |r|
      ensures r[i].handle != r[j].handle
    {
      assert r[i] == (if i < p then ts[i] else if i == p then t else ts[i - 1]);
      assert r[j] == (if j < p then ts[j] else if j == p then t else ts[j - 1]);
    }
  }

  /** Where every entry of an insertion ends up. */
  lemma InsertIndex(ts: seq<Timer>, t: Timer)
    ensures var r, p := Insert(ts, t), FirstLater(ts, t.clock);
      && |r| == |ts| + 1 && r[p] == t
      && (forall j :: 0 <= j < p ==> r[j] == ts[j])
      && (forall j :: p < j < |r| ==> r[j] == ts[j - 1])
  {
  }

  /** Insertion adds exactly one entry and leaves the others in their
      order. */
  lemma InsertKeepsOthers(ts: seq<Timer>, t: Timer)
    ensures var r, p := Insert(ts, t), FirstLater(ts, t.clock);
      r[..p] + r[p + 1..] == ts
  {
    var r, p := Insert(ts, t), FirstLater(ts, t.clock);
    assert r[..p] == ts[..p] && r[p + 1..] == ts[p..];
  }

  /** Insertion keeps the list sorted and is stable: the new entry follows
      every entry with the same deadline and precedes every later one. */
  lemma InsertSorted(ts: seq<Timer>, t: Timer)
    requires Sorted(ts)
    ensures var r, p := Insert(ts, t), FirstLater(ts, t.clock);
      && Sorted(r)
      && (forall j :: 0 <= j < p ==> r[j].clock <= t.clock)
      && (forall j :: p < j < |r| ==> t.clock < r[j].clock)
  {
    var r, p := Insert(ts, t), FirstLater(ts, t.clock);
    InsertIndex(ts, t);
    FirstLaterSplits(ts, t.clock);
    forall i, j | 0 <= i < j < |r|
      ensures r[i].clock <= r[j].clock
    {
      if i != p && j != p {
        assert r[i] == ts[if i < p then i else i - 1] && r[j] == ts[if j < p then j else j - 1];
      }
    }
  }

  /** Entries no later than c in front do not move an insertion at c or
      later: it lands in the rest. */
  lemma {:induction false} InsertBehind(pre: seq<Timer>, rest: seq<Timer>, t: Timer)
    requires forall j :: 0 <= j < |pre| ==> pre[j].clock <= t.clock
    ensures Insert(pre + rest, t) == pre + Insert(rest, t)
  {
    FirstLaterAppend(pre, rest, t.clock);
    var p := FirstLater(rest, t.clock);
    assert (pre + rest)[..|pre| + p] == pre + rest[..p];
    assert (pre + rest)[|pre| + p..] == rest[p..];
  }

  lemma {:induction false} FirstLaterAppend(pre: seq<Timer>, rest: seq<Timer>, c: nat)
    requires forall j :: 0 <= j < |pre| ==> pre[j].clock <= c
    ensures FirstLater(pre + rest, c) == |pre| + FirstLater(rest, c)
  {
    if pre != [] {
      assert (pre + rest)[1..] == pre[1..] + rest;
      FirstLaterAppend(pre[1..], rest, c);
    } else {
      assert pre + rest == rest;
    }
  }

  /** The entries other than those of handle h, in order
      (backend_remove_timeout on the list of values). */
  function Without(ts: seq<Timer>, h: TimeoutHandle): (r: seq<Timer>)
    ensures |r| <= |ts|
  {
    if ts == [] then []
    else (if ts[0].handle == h then [] else [ts[0]]) + Without(ts[1..], h)
  }

  predicate Distinct(ts: seq<Timer>)
  {
    forall i, j :: 0 <= i < j < |ts| ==> ts[i].handle != ts[j].handle
  }

  /** On a list of distinct handles, removing h takes out exactly its one
      entry and leaves the others in order. */
  lemma {:induction false} WithoutAt(ts: seq<Timer>, k: nat)
    requires Distinct(ts) && k < |ts|
    ensures Without(ts, ts[k].handle) == ts[..k] + ts[k + 1..]
  {
    if k == 0 {
      WithoutNone(ts[1..], ts[0].handle);
      assert ts[..0] + ts[1..] == ts[1..];
    } else {
      WithoutAt(ts[1..], k - 1);
      assert ts[1..][k - 1].handle == ts[k].handle;
      assert [ts[0]] + (ts[1..][..k - 1] + ts[1..][k..]) == ts[..k] + ts[k + 1..];
    }
  }

  lemma {:induction false} WithoutNone(ts: seq<Timer>, h: TimeoutHandle)
    requires forall j :: 0 <= j < |ts| ==> ts[j].handle != h
    ensures Without(ts, h) == ts
  {
    if ts != [] {
      WithoutNone(ts[1..], h);
      assert [ts[0]] + ts[1..] == ts;
    }
  }

  /** Removal keeps the list sorted. */
  lemma RemoveSorted(ts: seq<Timer>, k: nat)
    requires Sorted(ts) && k < |ts|
    ensures Sorted(ts[..k] + ts[k + 1..])
  {
    var r := ts[..k] + ts[k + 1..];
    forall i, j | 0 <= i < j < |r|
      ensures r[i].clock <= r[j].clock
    {
      assert r[i] == ts[if i < k then i else i + 1] && r[j] == ts[if j < k then j else j + 1];
    }
  }

  /** A fired entry put back: a periodic handle is re-inserted at now plus
      its interval, a one-shot handle is dropped. */
  function RearmOne(ts: seq<Timer>, t: Timer, now: nat): seq<Timer>
  {
    if t.handle.intvl != 0 then Insert(ts, Timer(t.handle, now + t.handle.intvl)) else ts
  }

  /** The list left after firing the entries `fired`, in order, in front of
      `rest`. */
  function Rearm(fired: seq<Timer>, rest: seq<Timer>, now: nat): seq<Timer>
    decreases |fired|
  {
    if fired == [] then rest
    else RearmOne(Rearm(fired[..|fired| - 1], rest, now), fired[|fired| - 1], now)
  }

  /** What run_timers leaves: the due prefix fired, the periodic ones among
      it re-armed. */
  function AfterRun(ts: seq<Timer>, now: nat): seq<Timer>
  {
    Rearm(ts[..FirstLater(ts, now)], ts[FirstLater(ts, now)..], now)
  }

  /** Re-arming keeps the list sorted. */
  lemma {:induction false} RearmSorted(fired: seq<Timer>, rest: seq<Timer>, now: nat)
    requires Sorted(rest)
    ensures Sorted(Rearm(fired, rest, now))
    decreases |fired|
  {
    if fired != [] {
      var t := fired[|fired| - 1];
      RearmSorted(fired[..|fired| - 1], rest, now);
      if t.handle.intvl != 0 {
        InsertSorted(Rearm(fired[..|fired| - 1], rest, now), Timer(t.handle, now + t.handle.intvl));
      }
    }
  }

  /** Every deadline of the list is later than now. */
  predicate Later(ts: seq<Timer>, now: nat)
  {
    forall j :: 0 <= j < |ts| ==> now < ts[j].clock
  }

  /** On a sorted list, every entry from FirstLater on is later. */
  lemma LaterRest(ts: seq<Timer>, now: nat)
    requires Sorted(ts)
    ensures Later(ts[FirstLater(ts, now)..], now)
    ensures Rearm([], ts[FirstLater(ts, now)..], now) == ts[FirstLater(ts, now)..]
  {
    FirstLaterSplits(ts, now);
  }

  /** Every entry of the re-armed list is later than now when the rest
      was: no handle is fired twice in a pass. */
  lemma {:induction false} RearmLater(fired: seq<Timer>, rest: seq<Timer>, now: nat)
    requires Later(rest, now)
    ensures Later(Rearm(fired, rest, now), now)
    decreases |fired|
  {
    if fired != [] {
      var t := fired[|fired| - 1];
      var r0 := Rearm(fired[..|fired| - 1], rest, now);
      RearmLater(fired[..|fired| - 1], rest, now);
      if t.handle.intvl != 0 {
        InsertIndex(r0, Timer(t.handle, now + t.handle.intvl));
      }
    }
  }

  /** What a pass of run_timers leaves on a sorted list: the list is still
      sorted, nothing on it is due any more, and it holds the handles that
      were not due plus the periodic ones among those fired; the one-shot
      handles that fired are gone. */
  lemma AfterRunSpec(ts: seq<Timer>, now: nat)
    requires Sorted(ts)
    ensures Sorted(AfterRun(ts, now))
    ensures Later(AfterRun(ts, now), now)
    ensures multiset(Handles(AfterRun(ts, now)))
         == multiset(Handles(ts[FirstLater(ts, now)..])) + multiset(Periodic(ts[..FirstLater(ts, now)]))
  {
    var n := FirstLater(ts, now);
    LaterRest(ts, now);
    RearmLater(ts[..n], ts[n..], now);
    assert Sorted(ts[n..]);
    RearmSorted(ts[..n], ts[n..], now);
    RearmHandles(ts[..n], ts[n..], now);
  }

  /** The handles of a list, in order. */
  function Handles(ts: seq<Timer>): (hs: seq<TimeoutHandle>)
    ensures |hs| == |ts|
  {
    seq(|ts|, j requires 0 <= j < |ts| => ts[j].handle)
  }

  /** The periodic entries (non-zero interval) of a list, in order. */
  function Periodic(ts: seq<Timer>): seq<TimeoutHandle>
  {
    if ts == [] then []
    else Periodic(ts[..|ts| - 1]) + (if ts[|ts| - 1].handle.intvl != 0 then [ts[|ts| - 1].handle] else [])
  }

  lemma HandlesAppend(a: seq<Timer>, b: seq<Timer>)
    ensures Handles(a + b) == Handles(a) + Handles(b)
  {
    assert Handles(a + b) == Handles(a) + Handles(b);
  }

  /** Insertion adds the handle once to the handles of the list. */
  /** The handles of a list with an entry spliced in at k. */
  lemma HandlesSplice(ts: seq<Timer>, t: Timer, k: nat)
    requires k <= |ts|
    ensures Handles(ts[..k] + [t] + ts[k..]) == Handles(ts)[..k] + [t.handle] + Handles(ts)[k..]
  {
    var l, r := Handles(ts[..k] + [t] + ts[k..]), Handles(ts)[..k] + [t.handle] + Handles(ts)[k..];
    forall j | 0 <= j < |l|
      ensures l[j] == r[j]
    {
      if j < k {
        assert (ts[..k] + [t] + ts[k..])[j] == ts[j];
      } else if j > k {
        assert (ts[..k] + [t] + ts[k..])[j] == ts[j - 1];
      }
    }
  }

  lemma HandlesInsert(ts: seq<Timer>, t: Timer)
    ensures multiset(Handles(Insert(ts, t))) == multiset(Handles(ts)) + multiset{t.handle}
  {
    var p := FirstLater(ts, t.clock);
    var hs := Handles(ts);
    HandlesSplice(ts, t, p);
    assert hs[..p] + hs[p..] == hs;
    calc {
      multiset(Handles(Insert(ts, t)));
      multiset(hs[..p] + [t.handle] + hs[p..]);
      multiset(hs[..p]) + multiset{t.handle} + multiset(hs[p..]);
      multiset(hs[..p] + hs[p..]) + multiset{t.handle};
    }
  }

  /** After a pass the list holds exactly the entries not fired plus the
      fired periodic ones: one-shot handles have left it. */
  lemma {:induction false} RearmHandles(fired: seq<Timer>, rest: seq<Timer>, now: nat)
    ensures multiset(Handles(Rearm(fired, rest, now))) == multiset(Handles(rest)) + multiset(Periodic(fired))
    decreases |fired|
  {
    if fired != [] {
      var t := fired[|fired| - 1];
      var r0 := Rearm(fired[..|fired| - 1], rest, now);
      RearmHandles(fired[..|fired| - 1], rest, now);
      RearmOneHandles(r0, t, now);
      PeriodicLast(fired);
    }
  }

  /** Re-arming one entry adds its handle once when it is periodic. */
  lemma RearmOneHandles(ts: seq<Timer>, t: Timer, now: nat)
    ensures multiset(Handles(RearmOne(ts, t, now)))
         == multiset(Handles(ts)) + if t.handle.intvl != 0 then multiset{t.handle} else multiset{}
  {
    if t.handle.intvl != 0 {
      HandlesInsert(ts, Timer(t.handle, now + t.handle.intvl));
    }
  }

  lemma PeriodicLast(ts: seq<Timer>)
    requires ts != []
    ensures multiset(Periodic(ts)) == multiset(Periodic(ts[..|ts| - 1]))
      + if ts[|ts| - 1].handle.intvl != 0 then multiset{ts[|ts| - 1].handle} else multiset{}
  {
  }

  /** The handles of a list with every occurrence of h taken out. */
  function Drop(hs: seq<TimeoutHandle>, h: TimeoutHandle): (r: seq<TimeoutHandle>)
    ensures h !in r
  {
    if hs == [] then [] else (if hs[0] == h then [] else [hs[0]]) + Drop(hs[1..], h)
  }

  /** Dropping a handle from the handles of a list is removing its
      entries from the list. */
  lemma {:induction false} DropWithout(hs: seq<TimeoutHandle>, ts: seq<Timer>, h: TimeoutHandle)
    requires |hs| == |ts| && forall i :: 0 <= i < |ts| ==> hs[i] == ts[i].handle
    ensures |Drop(hs, h)| == |Without(ts, h)|
    ensures forall i :: 0 <= i < |Without(ts, h)| ==> Drop(hs, h)[i] == Without(ts, h)[i].handle
  {
    if ts != [] {
      DropWithout(hs[1..], ts[1..], h);
    }
  }

  /*** The list object ***/

  /** struct backend_event_loop, reduced to its timeout_list: the handles
      in list order.  Contents is the list as values, deadlines included. */
  class Loop {
    var timeouts: seq<TimeoutHandle>
    ghost var Contents: seq<Timer>

    /** The list holds the handles of Contents, each with the deadline
        Contents records, in deadline order, each handle once. */
    ghost predicate Valid()
      reads this, timeouts
    {
      && |timeouts| == |Contents|
      && (forall i {:trigger Contents[i]} {:trigger timeouts[i]} :: 0 <= i < |Contents| ==>
            timeouts[i] == Contents[i].handle && timeouts[i].timeoutClock == Contents[i].clock)
      && Sorted(Contents)
      && Distinct(Contents)
    }

    /** backend_event_loop_create: an empty timeout list. */
    constructor ()
      ensures Valid() && Contents == [] && timeouts == []
    {
      timeouts := [];
      Contents := [];
    }

    /** backend_insert_timeout: the handle goes in before the first entry
        with a later deadline (see Slot), behind all entries with the same
        deadline. */
    method InsertTimeout(h: TimeoutHandle)
      requires Valid() && h !in timeouts
      modifies this
      ensures Valid()
      ensures Contents == Insert(old(Contents), Timer(h, h.timeoutClock))
    {
      ghost var ts := Contents;
      var k := Slot(h.timeoutClock);
      var t := Timer(h, h.timeoutClock);
      ghost var hs := timeouts;
      timeouts := timeouts[..k] + [h] + timeouts[k..];
      Contents := ts[..k] + [t] + ts[k..];
      SpliceValid(ts, t);
      forall i | 0 <= i < |Contents|
        ensures timeouts[i] == Contents[i].handle && timeouts[i].timeoutClock == Contents[i].clock
      {
        if i < k {
          assert Contents[i] == ts[i] && timeouts[i] == hs[i];
        } else if i > k {
          assert Contents[i] == ts[i - 1] && timeouts[i] == hs[i - 1];
        }
      }
    }

    /** Where backend_insert_timeout puts a deadline c: at the head when the
        list is empty or c is earlier than the first deadline; otherwise the
        walk from the head stops at the first later deadline and the handle
        goes in after the last entry it passed. */
    method Slot(c: nat) returns (k: nat)
      requires Valid()
      ensures k == FirstLater(Contents, c)
    {
      k := 0;
      if timeouts == [] || c < timeouts[0].timeoutClock {
        k := 0;
      } else {
        while k < |timeouts|
          invariant k <= |timeouts|
          invariant forall j :: 0 <= j < k ==> Contents[j].clock <= c
        {
          if c < timeouts[k].timeoutClock {
            break;
          }
          k := k + 1;
        }
      }
      FirstLaterIs(Contents, c, k);
    }

    /** backend_remove_timeout: the handle leaves the list; every other
        entry stays, in order. */
    method RemoveTimeout(h: TimeoutHandle)
      requires Valid() && h in timeouts
      modifies this
      ensures Valid() && h !in timeouts
      ensures Contents == Without(old(Contents), h)
    {
      ghost var ts, hs := Contents, timeouts;
      ghost var k :| 0 <= k < |ts| && timeouts[k] == h;
      timeouts := Drop(timeouts, h);
      Contents := Without(ts, h);
      DropWithout(hs, ts, h);
      WithoutAt(ts, k);
      RemoveSorted(ts, k);
      forall i | 0 <= i < |Contents|
        ensures Contents[i] == ts[if i < k then i else i + 1]
      {
        if i < k {
          assert Contents[i] == ts[..k][i];
        } else {
          assert Contents[i] == ts[k + 1..][i - k];
        }
      }
      forall i | 0 <= i < |Contents|
        ensures timeouts[i].timeoutClock == Contents[i].clock
      {
        assert Contents[i] == ts[if i < k then i else i + 1];
      }
    }

    /** backend_event_loop_run_timers at wall-clock time now (ms): walks
        from the head while deadlines have passed, fires each handle (the
        returned sequence, in firing order), unlinks it, and re-inserts it
        at now plus its interval when it has one. */
    method RunTimers(now: nat) returns (fired: seq<TimeoutHandle>)
      requires Valid()
      modifies this, timeouts
      ensures Valid()
      ensures fired == Handles(old(Contents)[..FirstLater(old(Contents), now)])
      ensures Contents == AfterRun(old(Contents), now)
      ensures forall h :: h in old(timeouts) && h.intvl == 0 ==> h.timeoutClock == old(h.timeoutClock)
    {
      ghost var ts := Contents;
      ghost var n := FirstLater(ts, now);
      LaterRest(ts, now);
      ghost var i := 0;
      var timeout: TimeoutHandle? := if timeouts == [] then null else timeouts[0];
      fired := [];
      while timeout != null
        invariant Valid()
        invariant 0 <= i <= n
        invariant Contents == ts[i..n] + Rearm(ts[..i], ts[n..], now)
        invariant Later(Rearm(ts[..i], ts[n..], now), now)
        invariant i < n ==> timeout == ts[i].handle
        invariant timeout != null ==> (timeout.timeoutClock <= now <==> i < n)
        invariant fired == Handles(ts[..i])
        invariant forall h :: h in old(timeouts) && h.intvl == 0 ==> h.timeoutClock == old(h.timeoutClock)
        decreases n - i, timeout != null
      {
        if timeout.timeoutClock <= now {
          fired := fired + [timeout];
          HandlesSnoc(ts, i);
          timeout := FireNext(ts, i, n, now, timeout);
          i := i + 1;
          RearmLater(ts[..i], ts[n..], now);
        } else {
          break;
        }
      }
      assert ts[n..n] + Rearm(ts[..n], ts[n..], now) == AfterRun(ts, now);
    }

    /** One pass of run_timers' loop on the due handle cur, the head of the
        list, which is the i-th of the n due entries of the list ts the pass
        started from: it takes the next handle (LIST_NEXT) before firing
        cur, and returns it; the list becomes the one of the next pass. */
    method FireNext(ghost ts: seq<Timer>, ghost i: nat, ghost n: nat, now: nat, cur: TimeoutHandle)
      returns (next: TimeoutHandle?)
      requires Valid() && n == FirstLater(ts, now) && i < n
      requires Contents == ts[i..n] + Rearm(ts[..i], ts[n..], now)
      requires Later(Rearm(ts[..i], ts[n..], now), now)
      requires cur == ts[i].handle
      modifies this, cur
      ensures Valid()
      ensures Contents == ts[i + 1..n] + Rearm(ts[..i + 1], ts[n..], now)
      ensures i + 1 < n ==> next == ts[i + 1].handle
      ensures next != null ==> (next.timeoutClock <= now <==> i + 1 < n)
      ensures cur.intvl == 0 ==> cur.timeoutClock == old(cur.timeoutClock)
    {
      next := if |timeouts| > 1 then timeouts[1] else null;
      ghost var c := Contents;
      RunStep(ts, i, n, now, c);
      assert next != null ==> next == c[1].handle && next.timeoutClock == c[1].clock;
      assert timeouts[0] == c[0].handle;
      FireHead(now);
    }

    /** The body of run_timers' loop for the handle at the head: it leaves
        the list, and a periodic one goes back in at now plus its interval
        (the callback is left to the caller). */
    method FireHead(now: nat)
      requires Valid() && timeouts != []
      modifies this, timeouts[0]
      ensures Valid()
      ensures Contents == RearmOne(old(Contents)[1..], old(Contents)[0], now)
      ensures old(timeouts[0]).intvl == 0 ==> old(timeouts[0]).timeoutClock == old(timeouts[0].timeoutClock)
    {
      ghost var c0 := Contents;
      var cur := timeouts[0];
      RemoveTimeout(cur);
      ghost var c1 := Contents;
      if cur.intvl != 0 {
        Reinsert(cur, now);
      }
      HeadRearmed(c0, c1, Contents, cur, now);
    }

    /** A fired periodic handle gets its next deadline, now plus its
        interval, and goes back on the list. */
    method Reinsert(h: TimeoutHandle, now: nat)
      requires Valid() && h !in timeouts
      modifies this, h
      ensures Valid()
      ensures Contents == Insert(old(Contents), Timer(h, now + h.intvl))
    {
      h.timeoutClock := now + h.intvl;
      InsertTimeout(h);
    }

    /** The epoll_wait timeout of backend_event_loop_run, in ms: -1 (block)
        with no timers, 0 when the first deadline has passed, else the time
        left, converted to the 32-bit int of the C code. */
    function SleepTime(now: nat): (r: int)
      reads this, timeouts
      ensures timeouts == [] ==> r == -1
      ensures timeouts != [] && now >= timeouts[0].timeoutClock ==> r == 0
      ensures timeouts != [] && now < timeouts[0].timeoutClock < now + 0x8000_0000 ==> r == timeouts[0].timeoutClock - now
    {
      if timeouts == [] then -1
      else if now > timeouts[0].timeoutClock then 0
      else ToInt32((timeouts[0].timeoutClock - now) % 0x1_0000_0000)
    }
  }

  /** One iteration of run_timers on the list as values: c is the list
      with the due entries ts[i..n] still in front of the re-armed rest;
      its head is ts[i], the entry behind it is due exactly when another
      due entry is left, and re-arming the head gives the list of the next
      iteration. */
  lemma RunStep(ts: seq<Timer>, i: nat, n: nat, now: nat, c: seq<Timer>)
    requires n == FirstLater(ts, now) && i < n
    requires c == ts[i..n] + Rearm(ts[..i], ts[n..], now) && Distinct(c)
    requires Later(Rearm(ts[..i], ts[n..], now), now)
    ensures c[0] == ts[i]
    ensures |c| > 1 ==> c[0].handle != c[1].handle && (c[1].clock <= now <==> i + 1 < n)
    ensures i + 1 < n ==> c[1] == ts[i + 1]
    ensures Handles(ts[..i + 1]) == Handles(ts[..i]) + [ts[i].handle]
    ensures RearmOne(c[1..], c[0], now) == ts[i + 1..n] + Rearm(ts[..i + 1], ts[n..], now)
  {
    FireFront(ts, i, n, Rearm(ts[..i], ts[n..], now));
    FireRearm(ts, i, n, now);
    HandlesSnoc(ts, i);
  }

  /** One iteration of run_timers on the list as values: the head entry
      is ts[i] and the entry behind it is the next due one, or the first
      of the re-armed rest. */
  lemma FireFront(ts: seq<Timer>, i: nat, n: nat, r0: seq<Timer>)
    requires i < n <= |ts|
    ensures var c := ts[i..n] + r0;
      && c[0] == ts[i]
      && c[1..] == ts[i + 1..n] + r0
      && (1 < |c| ==> c[1] == (if i + 1 < n then ts[i + 1] else r0[0]))
  {
    var c := ts[i..n] + r0;
    assert c[1..] == ts[i + 1..n] + r0;
  }

  /** Putting the fired head entry back re-armed gives the list of the next
      iteration. */
  lemma FireRearm(ts: seq<Timer>, i: nat, n: nat, now: nat)
    requires i < n <= |ts|
    requires forall j :: 0 <= j < n ==> ts[j].clock <= now
    ensures RearmOne(ts[i + 1..n] + Rearm(ts[..i], ts[n..], now), ts[i], now)
         == ts[i + 1..n] + Rearm(ts[..i + 1], ts[n..], now)
  {
    RearmLast(ts, i, n, now);
    RearmOneBehind(ts[i + 1..n], Rearm(ts[..i], ts[n..], now), ts[i], now);
  }

  /** The handles fired so far, one more. */
  lemma HandlesSnoc(ts: seq<Timer>, i: nat)
    requires i < |ts|
    ensures Handles(ts[..i + 1]) == Handles(ts[..i]) + [ts[i].handle]
  {
    HandlesAppend(ts[..i], [ts[i]]);
    assert ts[..i] + [ts[i]] == ts[..i + 1];
  }

  /** Re-arming one more fired entry. */
  lemma RearmLast(ts: seq<Timer>, i: nat, n: nat, now: nat)
    requires i < n <= |ts|
    ensures Rearm(ts[..i + 1], ts[n..], now) == RearmOne(Rearm(ts[..i], ts[n..], now), ts[i], now)
  {
    assert ts[..i + 1][..i] == ts[..i];
  }

  /** Removing the head entry and re-inserting it when periodic is
      re-arming it. */
  lemma HeadRearmed(c0: seq<Timer>, c1: seq<Timer>, c2: seq<Timer>, h: TimeoutHandle, now: nat)
    requires c0 != [] && Distinct(c0) && h == c0[0].handle && c1 == Without(c0, h)
    requires c2 == if h.intvl != 0 then Insert(c1, Timer(h, now + h.intvl)) else c1
    ensures c2 == RearmOne(c0[1..], c0[0], now)
  {
    WithoutAt(c0, 0);
    assert c0[..0] + c0[1..] == c0[1..];
  }

  /** Entries due by now in front do not move a re-armed entry. */
  lemma RearmOneBehind(pre: seq<Timer>, rest: seq<Timer>, t: Timer, now: nat)
    requires forall j :: 0 <= j < |pre| ==> pre[j].clock <= now
    ensures RearmOne(pre + rest, t, now) == pre + RearmOne(rest, t, now)
  {
    if t.handle.intvl != 0 {
      InsertBehind(pre, rest, Timer(t.handle, now + t.handle.intvl));
    }
  }

  /** The first later position is where a walk stopped. */
  lemma FirstLaterIs(ts: seq<Timer>, c: nat, k: nat)
    requires k <= |ts| && (k == |ts| || c < ts[k].clock)
    requires forall j :: 0 <= j < k ==> ts[j].clock <= c
    ensures FirstLater(ts, c) == k
  {
  }

  /** A deadline 2^31 ms or more ahead does not fit the int sleep time:
      exactly 2^31 ms ahead it comes out as a negative timeout, which
      epoll_wait takes as "block until an event". */
  lemma SleepTimeWraps(l: Loop, now: nat)
    requires l.Valid() && l.Contents != [] && l.Contents[0].clock == now + 0x8000_0000
    ensures l.SleepTime(now) == -0x8000_0000
  {
    assert l.timeouts[0].timeoutClock == l.Contents[0].clock;
  }

  /** The sleep time reaches no further than any deadline on a valid list:
      the loop wakes up in time for the earliest timer. */
  lemma SleepUntilEarliest(l: Loop, now: nat)
    requires l.Valid() && l.Contents != []
    requires l.Contents[0].clock < now + 0x8000_0000
    ensures forall j :: 0 <= j < |l.Contents| ==> now + l.SleepTime(now) <= l.Contents[j].clock || l.SleepTime(now) == 0
  {
    assert l.timeouts[0] == l.Contents[0].handle;
    forall j | 0 <= j < |l.Contents|
      ensures l.Contents[0].clock <= l.Contents[j].clock
    {
    }
  }
}
