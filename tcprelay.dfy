/** The timeout bookkeeping and event routing of `TCPRelay` (proxyx/tcprelay.py): an
    append-only slot list of handlers, a side index from handler to slot and a sweep cursor;
    the routing of readiness events to the listening socket or to the handler registered
    under the event's descriptor; and the gate that runs the sweep at most every
    TIMEOUT_PRECISION seconds. Time is a parameter; `handler.destroy()` is an effect the
    sweep reports (the handlers it destroyed, in order) rather than performs. */
module TcpRelay {
  import opened Builtins
  import opened EventLoop
  import opened Prepull

  const TIMEOUTS_CLEAN_SIZE := 512
  const TIMEOUT_PRECISION := 4

  /** `_timeouts` and `_handler_to_timeouts` together. The index is keyed by `hash(handler)`
      in the source, which for these objects is their identity. */
  datatype Table = Table(slots: seq<TCPRelayHandler?>, index: map<TCPRelayHandler, int>)

  /** `_handler_to_timeouts.get(hash(handler), -1)`. */
  function SlotOf(t: Table, h: TCPRelayHandler): int
  {
    if h in t.index then t.index[h] else -1
  }

  /** The table after `update_activity` re-slots `h` (once past the throttle): its old slot,
      if it has one, is nulled, it is appended, and it is mapped to the new last slot. A
      mapped slot past the end makes the nulling raise IndexError. */
  function Reslotted(t: Table, h: TCPRelayHandler): Result<Table>
  {
    var i := SlotOf(t, h);
    if i >= |t.slots| then Err(IndexError)
    else
      var slots := if i >= 0 then t.slots[i := null] else t.slots;
      Ok(Table(slots + [h], t.index[h := |t.slots|]))
  }

  /** The table after `remove_hanlder(h)`: a mapped handler's slot is nulled and its entry
      dropped; an unmapped one changes nothing. */
  function Unslotted(t: Table, h: TCPRelayHandler): Result<Table>
  {
    var i := SlotOf(t, h);
    if i < 0 then Ok(t)
    else if i >= |t.slots| then Err(IndexError)
    else Ok(Table(t.slots[i := null], t.index - {h}))
  }

  // ---------------------------------------------------------------------------
  // Index invariants

  /** Every occupied slot holds a handler the index maps to that very slot. */
  predicate SlotsMapped(t: Table)
  {
    forall i :: 0 <= i < |t.slots| && t.slots[i] != null ==> t.slots[i] in t.index && t.index[t.slots[i]] == i
  }

  /** Every mapped handler's slot holds that handler, and no other slot holds it. */
  predicate IndexExact(t: Table)
  {
    && (forall h :: h in t.index ==> 0 <= t.index[h] < |t.slots| && t.slots[t.index[h]] == h)
    && SlotsMapped(t)
  }

  /** The weaker invariant the sweep keeps: a mapped index is either negative (its slot was
      discarded) or names a slot that holds the handler or was nulled. */
  predicate IndexSound(t: Table)
  {
    && (forall h :: h in t.index ==>
          t.index[h] < |t.slots| && (0 <= t.index[h] ==> t.slots[t.index[h]] == h || t.slots[t.index[h]] == null))
    && SlotsMapped(t)
  }

  /** Every slot before the cursor is empty. */
  predicate CursorClear(t: Table, offset: nat)
  {
    offset <= |t.slots| && forall i :: 0 <= i < offset ==> t.slots[i] == null
  }

  lemma ExactIsSound(t: Table)
    requires IndexExact(t)
    ensures IndexSound(t)
  {
  }

  /** Re-slotting keeps the exact invariant and cannot fail under it; afterwards the
      handler occupies the new last slot and no other. */
  lemma ReslotKeepsExact(t: Table, h: TCPRelayHandler)
    requires IndexExact(t)
    ensures Reslotted(t, h).Ok?
    ensures var u := Reslotted(t, h).value;
      && IndexExact(u)
      && forall i :: 0 <= i < |u.slots| && u.slots[i] == h ==> i == |t.slots|
  {
    var u := Reslotted(t, h).value;
    forall k | k in u.index
      ensures 0 <= u.index[k] < |u.slots| && u.slots[u.index[k]] == k
    {
      if k != h {
        assert t.slots[t.index[k]] == k;
      }
    }
  }

  /** Re-slotting keeps the sound invariant and the clear prefix, and cannot fail under them. */
  lemma ReslotKeepsSound(t: Table, h: TCPRelayHandler, offset: nat)
    requires IndexSound(t) && CursorClear(t, offset)
    ensures Reslotted(t, h).Ok?
    ensures IndexSound(Reslotted(t, h).value) && CursorClear(Reslotted(t, h).value, offset)
  {
    var u := Reslotted(t, h).value;
    forall k | k in u.index && k != h && 0 <= u.index[k]
      ensures u.slots[u.index[k]] == k || u.slots[u.index[k]] == null
    {
    }
  }

  /** What `update_activity` does to the table: the list grows by exactly one, ending in the
      handler, which is mapped to the old length; its old slot (if mapped) is nulled; every
      other slot and every other entry is unchanged. */
  lemma ReslotShape(t: Table, h: TCPRelayHandler)
    requires Reslotted(t, h).Ok?
    ensures var u := Reslotted(t, h).value;
      && |u.slots| == |t.slots| + 1
      && u.slots[|t.slots|] == h
      && h in u.index && u.index[h] == |t.slots|
      && (0 <= SlotOf(t, h) ==> u.slots[SlotOf(t, h)] == null)
      && (forall i :: 0 <= i < |t.slots| && i != SlotOf(t, h) ==> u.slots[i] == t.slots[i])
      && (forall k :: k in t.index && k != h ==> k in u.index && u.index[k] == t.index[k])
  {
  }

  /** Removing keeps the exact invariant and cannot fail under it; afterwards no slot holds
      the handler and it is unmapped. */
  lemma UnslotKeepsExact(t: Table, h: TCPRelayHandler)
    requires IndexExact(t)
    ensures Unslotted(t, h).Ok?
    ensures var u := Unslotted(t, h).value;
      && IndexExact(u)
      && h !in u.index
      && forall i :: 0 <= i < |u.slots| ==> u.slots[i] != h
  {
  }

  /** Removing keeps the sound invariant and the clear prefix, and cannot fail under them. */
  lemma UnslotKeepsSound(t: Table, h: TCPRelayHandler, offset: nat)
    requires IndexSound(t) && CursorClear(t, offset)
    ensures Unslotted(t, h).Ok?
    ensures IndexSound(Unslotted(t, h).value) && CursorClear(Unslotted(t, h).value, offset)
  {
    var u := Unslotted(t, h).value;
    if 0 <= SlotOf(t, h) {
      forall k | k in u.index && 0 <= u.index[k]
        ensures u.slots[u.index[k]] == k || u.slots[u.index[k]] == null
      {
        assert k != h;
      }
    }
  }

  /** `remove_hanlder` never changes the length; an unmapped handler changes nothing; a
      mapped one loses its entry and its slot, and nothing else changes. */
  lemma UnslotShape(t: Table, h: TCPRelayHandler)
    requires Unslotted(t, h).Ok?
    ensures var u := Unslotted(t, h).value;
      && |u.slots| == |t.slots|
      && (SlotOf(t, h) < 0 ==> u == t)
      && (0 <= SlotOf(t, h) ==> h !in u.index && u.slots[SlotOf(t, h)] == null)
      && (forall i :: 0 <= i < |t.slots| && i != SlotOf(t, h) ==> u.slots[i] == t.slots[i])
      && (forall k :: k in t.index && k != h ==> k in u.index && u.index[k] == t.index[k])
  {
  }

  // ---------------------------------------------------------------------------
  // The sweep on values

  /** A handler idle for at least the timeout. `now` is `time.time()`, a float; the handler's
      `last_activity` is the whole second of its last re-slot. */
  predicate Idle(h: TCPRelayHandler, now: real, timeout: int)
    reads h
  {
    now - h.lastActivity as real >= timeout as real
  }

  /** Where the sweep's walk from `pos` stops: the first occupied slot whose handler is not
      idle, or the end. Every occupied slot passed on the way holds an idle handler. */
  function StopAt(slots: seq<TCPRelayHandler?>, pos: nat, now: real, timeout: int): (stop: nat)
    requires pos <= |slots|
    reads set h: TCPRelayHandler | h in slots
    ensures pos <= stop <= |slots|
    ensures forall i :: pos <= i < stop && slots[i] != null ==> Idle(slots[i], now, timeout)
    ensures stop < |slots| ==> slots[stop] != null && !Idle(slots[stop], now, timeout)
    decreases |slots| - pos
  {
    if pos == |slots| then pos
    else if slots[pos] != null && !Idle(slots[pos], now, timeout) then pos
    else StopAt(slots, pos + 1, now, timeout)
  }

  /** The slots with `[lo, hi)` emptied. */
  function Nulled(slots: seq<TCPRelayHandler?>, lo: nat, hi: nat): seq<TCPRelayHandler?>
  {
    seq(|slots|, i requires 0 <= i < |slots| => if lo <= i < hi then null else slots[i])
  }

  /** One step of the walk past a slot that is empty or holds an idle handler: the slot is
      emptied, its handler (if any) is listed, and the walk stops where it would have. */
  lemma WalkStep(slots: seq<TCPRelayHandler?>, lo: nat, pos: nat, now: real, timeout: int)
    requires lo <= pos < |slots|
    requires slots[pos] == null || Idle(slots[pos], now, timeout)
    ensures Nulled(slots, lo, pos + 1) == Nulled(slots, lo, pos)[pos := null]
    ensures Occupants(slots, lo, pos + 1)
      == Occupants(slots, lo, pos) + (if slots[pos] != null then [slots[pos]] else [])
    ensures StopAt(slots, pos, now, timeout) == StopAt(slots, pos + 1, now, timeout)
  {
    var a, b := Nulled(slots, lo, pos + 1), Nulled(slots, lo, pos)[pos := null];
    assert |a| == |b|;
    forall i | 0 <= i < |a|
      ensures a[i] == b[i]
    {
    }
  }

  /** The handlers in the occupied slots of `[lo, hi)`, in slot order. */
  function Occupants(slots: seq<TCPRelayHandler?>, lo: nat, hi: nat): seq<TCPRelayHandler>
    requires lo <= hi <= |slots|
    decreases hi
  {
    if hi == lo then []
    else Occupants(slots, lo, hi - 1) + (if slots[hi - 1] != null then [slots[hi - 1]] else [])
  }

  /** A handler is listed exactly when it occupies a slot of the range. */
  lemma {:induction false} OccupantsIff(slots: seq<TCPRelayHandler?>, lo: nat, hi: nat, h: TCPRelayHandler)
    requires lo <= hi <= |slots|
    ensures h in Occupants(slots, lo, hi) <==> exists i :: lo <= i < hi && slots[i] == h
    decreases hi
  {
    if hi > lo {
      OccupantsIff(slots, lo, hi - 1, h);
    }
  }

  /** Every handler the sweep destroys is idle. */
  lemma SweptAreIdle(slots: seq<TCPRelayHandler?>, lo: nat, now: real, timeout: int, h: TCPRelayHandler)
    requires lo <= |slots|
    requires h in Occupants(slots, lo, StopAt(slots, lo, now, timeout))
    ensures Idle(h, now, timeout)
  {
    OccupantsIff(slots, lo, StopAt(slots, lo, now, timeout), h);
  }

  /** Handlers are appended as they are touched, so along the list the occupied slots hold
      handlers in order of last activity. */
  predicate ActivityOrdered(slots: seq<TCPRelayHandler?>)
    reads set h: TCPRelayHandler | h in slots
  {
    forall i, j :: 0 <= i < j < |slots| && slots[i] != null && slots[j] != null ==>
      slots[i].lastActivity <= slots[j].lastActivity
  }

  /** Emptying a slot keeps the order. */
  lemma NullingKeepsOrder(slots: seq<TCPRelayHandler?>, k: nat)
    requires k < |slots| && ActivityOrdered(slots)
    ensures ActivityOrdered(slots[k := null])
  {
    var u := slots[k := null];
    forall i, j | 0 <= i < j < |u| && u[i] != null && u[j] != null
      ensures u[i].lastActivity <= u[j].lastActivity
    {
      assert u[i] == slots[i] && u[j] == slots[j];
    }
  }

  /** Appending a handler touched no earlier than every slotted one keeps the order. */
  lemma AppendKeepsOrder(slots: seq<TCPRelayHandler?>, h: TCPRelayHandler)
    requires ActivityOrdered(slots)
    requires forall i :: 0 <= i < |slots| && slots[i] != null ==> slots[i].lastActivity <= h.lastActivity
    ensures ActivityOrdered(slots + [h])
  {
    var u := slots + [h];
    forall i, j | 0 <= i < j < |u| && u[i] != null && u[j] != null
      ensures u[i].lastActivity <= u[j].lastActivity
    {
      assert u[i] == slots[i];
    }
  }

  /** `update_activity` keeps the order: the handler, its activity already set to the time
      of the call, leaves its old slot (the rest is ordered) and is appended, and no slotted
      handler was touched later. */
  lemma ReslotKeepsOrder(t: Table, h: TCPRelayHandler)
    requires IndexExact(t)
    requires ActivityOrdered(Unslotted(t, h).value.slots)
    requires forall i :: 0 <= i < |t.slots| && t.slots[i] != null && t.slots[i] != h ==> t.slots[i].lastActivity <= h.lastActivity
    ensures Reslotted(t, h).Ok? && ActivityOrdered(Reslotted(t, h).value.slots)
  {
    var v := Unslotted(t, h).value.slots;
    assert Reslotted(t, h).value.slots == v + [h];
    UnslotKeepsExact(t, h);
    AppendKeepsOrder(v, h);
  }

  /** `remove_hanlder` keeps the order. */
  lemma UnslotKeepsOrder(t: Table, h: TCPRelayHandler)
    requires Unslotted(t, h).Ok? && ActivityOrdered(t.slots)
    ensures ActivityOrdered(Unslotted(t, h).value.slots)
  {
    if 0 <= SlotOf(t, h) {
      NullingKeepsOrder(t.slots, SlotOf(t, h));
    }
  }

  /** The walk keeps the order. */
  lemma NulledKeepsOrder(slots: seq<TCPRelayHandler?>, lo: nat, hi: nat)
    requires ActivityOrdered(slots)
    ensures ActivityOrdered(Nulled(slots, lo, hi))
  {
    var u := Nulled(slots, lo, hi);
    forall i, j | 0 <= i < j < |u| && u[i] != null && u[j] != null
      ensures u[i].lastActivity <= u[j].lastActivity
    {
      assert u[i] == slots[i] && u[j] == slots[j];
    }
  }

  /** Dropping a prefix keeps the order. */
  lemma SuffixKeepsOrder(slots: seq<TCPRelayHandler?>, pos: nat)
    requires pos <= |slots| && ActivityOrdered(slots)
    ensures ActivityOrdered(slots[pos..])
  {
    var u := slots[pos..];
    forall i, j | 0 <= i < j < |u| && u[i] != null && u[j] != null
      ensures u[i].lastActivity <= u[j].lastActivity
    {
      assert u[i] == slots[pos + i] && u[j] == slots[pos + j];
    }
  }

  /** In an ordered list every handler from the stop on is still live. */
  lemma LiveFromStop(slots: seq<TCPRelayHandler?>, lo: nat, now: real, timeout: int, i: nat)
    requires lo <= |slots| && ActivityOrdered(slots)
    requires StopAt(slots, lo, now, timeout) <= i < |slots| && slots[i] != null
    ensures !Idle(slots[i], now, timeout)
  {
    var stop := StopAt(slots, lo, now, timeout);
    if stop < i {
      assert slots[stop].lastActivity <= slots[i].lastActivity;
    }
  }

  /** So in an ordered list the walk destroys exactly the handlers from the cursor on that
      have been idle for the timeout. */
  lemma SweptExactlyIdle(slots: seq<TCPRelayHandler?>, lo: nat, now: real, timeout: int, h: TCPRelayHandler)
    requires lo <= |slots| && ActivityOrdered(slots)
    ensures h in Occupants(slots, lo, StopAt(slots, lo, now, timeout))
      <==> (exists i :: lo <= i < |slots| && slots[i] == h) && Idle(h, now, timeout)
  {
    var stop := StopAt(slots, lo, now, timeout);
    OccupantsIff(slots, lo, stop, h);
    if (exists i :: lo <= i < |slots| && slots[i] == h) && Idle(h, now, timeout) {
      var i :| lo <= i < |slots| && slots[i] == h;
      if stop <= i {
        LiveFromStop(slots, lo, now, timeout, i);
      }
    }
  }

  /** `pos > TIMEOUTS_CLEAN_SIZE and pos > length >> 1`; the shift of a non-negative length
      is its floor half. */
  predicate CompactDue(pos: nat, length: nat)
  {
    pos > TIMEOUTS_CLEAN_SIZE && pos > length / 2
  }

  /** The compaction as the source writes it: the list keeps its suffix from `pos` and every
      index entry becomes `pos`. */
  function CompactAsWritten(t: Table, pos: nat): Table
    requires pos <= |t.slots|
  {
    Table(t.slots[pos..], map k | k in t.index :: pos)
  }

  /** The compaction as intended: entries are rebased by `pos`, so a dropped slot's entry
      goes negative and a kept slot's entry follows it. */
  function Compact(t: Table, pos: nat): Table
    requires pos <= |t.slots|
  {
    Table(t.slots[pos..], map k | k in t.index :: t.index[k] - pos)
  }

  /** The table, the cursor and the destroyed handlers after a sweep. */
  datatype Sweep = Sweep(table: Table, offset: nat, destroyed: seq<TCPRelayHandler>)

  /** `_sweep_timeout` on values: nothing without a timeout; otherwise the walk from the
      cursor to `StopAt` empties the slots it passes and destroys their occupants, and then
      the list is compacted as written when `CompactDue`, else the cursor moves to the stop. */
  function Swept(t: Table, offset: nat, now: real, timeout: int): Sweep
    requires offset <= |t.slots|
    reads set h: TCPRelayHandler | h in t.slots
  {
    if timeout == 0 then Sweep(t, offset, [])
    else
      var stop := StopAt(t.slots, offset, now, timeout);
      var walked := Table(Nulled(t.slots, offset, stop), t.index);
      var gone := Occupants(t.slots, offset, stop);
      if CompactDue(stop, |t.slots|) then Sweep(CompactAsWritten(walked, stop), 0, gone)
      else Sweep(walked, stop, gone)
  }

  /** A sweep keeps the activity order. */
  lemma SweptKeepsOrder(t: Table, offset: nat, now: real, timeout: int)
    requires offset <= |t.slots| && ActivityOrdered(t.slots)
    ensures ActivityOrdered(Swept(t, offset, now, timeout).table.slots)
  {
    if timeout != 0 {
      var stop := StopAt(t.slots, offset, now, timeout);
      NulledKeepsOrder(t.slots, offset, stop);
      SuffixKeepsOrder(Nulled(t.slots, offset, stop), stop);
    }
  }

  /** With a timeout configured and the list in activity order, a sweep destroys exactly
      the handlers slotted from the cursor on that have been idle for the timeout. */
  lemma SweepDestroysExactlyIdle(t: Table, offset: nat, now: real, timeout: int, h: TCPRelayHandler)
    requires offset <= |t.slots| && ActivityOrdered(t.slots) && timeout != 0
    ensures h in Swept(t, offset, now, timeout).destroyed
      <==> (exists i :: offset <= i < |t.slots| && t.slots[i] == h) && Idle(h, now, timeout)
  {
    SweptExactlyIdle(t.slots, offset, now, timeout, h);
  }

  /** The walk (emptying the slots it passes) keeps the sound invariant and clears the prefix
      up to where it stopped. */
  lemma WalkKeepsSound(t: Table, offset: nat, stop: nat)
    requires IndexSound(t) && CursorClear(t, offset) && offset <= stop <= |t.slots|
    ensures var u := Table(Nulled(t.slots, offset, stop), t.index);
      IndexSound(u) && CursorClear(u, stop)
  {
    var u := Table(Nulled(t.slots, offset, stop), t.index);
    forall k | k in u.index && 0 <= u.index[k]
      ensures u.slots[u.index[k]] == k || u.slots[u.index[k]] == null
    {
    }
  }

  /** The rebasing compaction keeps the sound invariant and leaves the cursor at 0. */
  lemma CompactKeepsSound(t: Table, pos: nat)
    requires IndexSound(t) && CursorClear(t, pos)
    ensures IndexSound(Compact(t, pos)) && CursorClear(Compact(t, pos), 0)
  {
    var u := Compact(t, pos);
    forall k | k in u.index
      ensures u.index[k] < |u.slots| && (0 <= u.index[k] ==> u.slots[u.index[k]] == k || u.slots[u.index[k]] == null)
    {
      if 0 <= u.index[k] {
        assert u.slots[u.index[k]] == t.slots[t.index[k]];
      }
    }
    forall i | 0 <= i < |u.slots| && u.slots[i] != null
      ensures u.slots[i] in u.index && u.index[u.slots[i]] == i
    {
      assert u.slots[i] == t.slots[i + pos];
    }
  }

  /** The whole sweep with the rebasing compaction keeps the sound invariant: after the walk
      the cursor sits at the stop, and after a compaction at 0. */
  lemma SweepKeepsSound(t: Table, offset: nat, stop: nat)
    requires IndexSound(t) && CursorClear(t, offset) && offset <= stop <= |t.slots|
    ensures var w := Table(Nulled(t.slots, offset, stop), t.index);
      && IndexSound(w) && CursorClear(w, stop)
      && (CompactDue(stop, |t.slots|) ==> IndexSound(Compact(w, stop)) && CursorClear(Compact(w, stop), 0))
  {
    var w := Table(Nulled(t.slots, offset, stop), t.index);
    WalkKeepsSound(t, offset, stop);
    CompactKeepsSound(w, stop);
  }

  /** The walk empties exactly the slots it passed and leaves every other slot, in particular
      every slot from the stop on, as it was. */
  lemma WalkShape(slots: seq<TCPRelayHandler?>, lo: nat, stop: nat)
    requires lo <= stop <= |slots|
    ensures var w := Nulled(slots, lo, stop);
      && |w| == |slots|
      && (forall i :: lo <= i < stop ==> w[i] == null)
      && (forall i :: 0 <= i < |slots| && !(lo <= i < stop) ==> w[i] == slots[i])
  {
  }

  /** The compaction as written loses the slot of a live handler. Take the table of 600
      empty slots followed by a handler h, with h indexed 600 and the cursor at 600. A sweep
      that finds h live stops there and compacts: h is left in slot 0 but still indexed 600,
      so its next re-slot raises IndexError. The rebasing compaction indexes it 0 and the
      re-slot succeeds. */
  lemma CompactAsWrittenLosesSlot(h: TCPRelayHandler)
    ensures var t := Table(seq(600, i => null) + [h], map[h := 600]);
      && IndexExact(t) && CursorClear(t, 600) && CompactDue(600, |t.slots|)
      && CompactAsWritten(t, 600) == Table([h], map[h := 600])
      && !IndexSound(CompactAsWritten(t, 600))
      && Reslotted(CompactAsWritten(t, 600), h) == Err(IndexError)
      && Compact(t, 600) == Table([h], map[h := 0])
      && Reslotted(Compact(t, 600), h).Ok?
  {
    var t := Table(seq(600, i => null) + [h], map[h := 600]);
    assert t.slots[600] == h;
    assert t.slots[600..] == [h];
    assert (map k | k in t.index :: 600) == map[h := 600];
    assert (map k | k in t.index :: t.index[k] - 600) == map[h := 0];
  }

  // ---------------------------------------------------------------------------
  // Routing

  /** What `_handle_events` did with one event. */
  datatype Route =
    | ServerError                            // the listening socket reported POLL_ERR
    | Accepted(handler: TCPRelayHandler)     // a connection was accepted and got a handler
    | NothingToAccept                        // accept() raised EAGAIN
    | Delivered(handler: TCPRelayHandler)    // passed to the handler registered for the fd
    | Unregistered                           // no handler is registered for the fd
    | RemovedFd                              // the loop reported no socket for the fd

  /** An event that makes `_handle_events` raise. */
  predicate ServerErrorEvent(server: Socket, e: Event)
  {
    e.sock == server && ReadyOf(e.mask).error
  }

  /** What `_handle_events` does with event `e`, given the descriptor table `fds` and the
      connections `pending` on the listening socket: POLL_ERR there raises, and any other
      event there accepts the next pending connection, or meets EAGAIN when none is pending;
      an event without a socket is dropped; any other event goes to the handler registered
      under its descriptor, and to nothing when none is. */
  predicate RouteFits(server: Socket, fds: map<int, TCPRelayHandler>, pending: seq<Socket>, e: Event, route: Route)
  {
    if e.sock == server then
      if ReadyOf(e.mask).error then route == ServerError
      else if pending == [] then route == NothingToAccept
      else route.Accepted? && route.handler.localSock == pending[0]
    else if e.sock == null then route == RemovedFd
    else if e.fd in fds then route == Delivered(fds[e.fd])
    else route == Unregistered
  }

  /** An event raises exactly when its route is the server error. */
  lemma ServerErrorIff(server: Socket, fds: map<int, TCPRelayHandler>, pending: seq<Socket>, e: Event, route: Route)
    requires RouteFits(server, fds, pending, e, route)
    ensures route == ServerError <==> ServerErrorEvent(server, e)
  {
  }

  /** The handlers accepted along `routes`, in order. */
  function Accepts(routes: seq<Route>): seq<TCPRelayHandler>
    decreases |routes|
  {
    if routes == [] then []
    else
      var n := |routes| - 1;
      Accepts(routes[..n]) + if routes[n].Accepted? then [routes[n].handler] else []
  }

  /** The descriptor table after each handler of `hs`, in order, registered itself under its
      local socket's descriptor. */
  function Registered(fds: map<int, TCPRelayHandler>, hs: seq<TCPRelayHandler>): map<int, TCPRelayHandler>
    decreases |hs|
  {
    if hs == [] then fds
    else
      var n := |hs| - 1;
      Registered(fds, hs[..n])[hs[n].localSock.fd := hs[n]]
  }

  /** `routes` is what the loop of `_handle_events` does with the first `|routes|` events in
      order, starting from the descriptor table `fds` and the pending connections `backlog`:
      each event meets the table as the accepts before it left it, and each accept takes the
      next pending connection. */
  predicate RoutedInOrder(server: Socket, fds: map<int, TCPRelayHandler>, backlog: seq<Socket>,
                          events: seq<Event>, routes: seq<Route>)
    decreases |routes|
  {
    && |routes| <= |events|
    && (routes == [] ||
        var n := |routes| - 1;
        var accepted := Accepts(routes[..n]);
        && RoutedInOrder(server, fds, backlog, events, routes[..n])
        && |accepted| <= |backlog|
        && RouteFits(server, Registered(fds, accepted), backlog[|accepted|..], events[n], routes[n]))
  }

  /** The timeout table after each handler of `hs`, in order, was slotted at the end. */
  function Appended(t: Table, hs: seq<TCPRelayHandler>): Table
    decreases |hs|
  {
    if hs == [] then t
    else
      var n := |hs| - 1;
      var u := Appended(t, hs[..n]);
      Table(u.slots + [hs[n]], u.index[hs[n] := |u.slots|])
  }

  /** The timeout table after routing at whole second `now`: a new handler's activity starts
      at 0, so `update_activity` slots it only from second TIMEOUT_PRECISION on. */
  function Routed(t: Table, routes: seq<Route>, now: int): Table
  {
    if now >= TIMEOUT_PRECISION then Appended(t, Accepts(routes)) else t
  }

  /** A handler accepted at whole second `now` has no remote socket yet, and its activity
      time is `now` once `update_activity` took it (from second TIMEOUT_PRECISION on), 0
      before. */
  predicate JustAccepted(h: TCPRelayHandler, now: int)
    reads h
  {
    h.remoteSock == null && h.lastActivity == if now >= TIMEOUT_PRECISION then now else 0
  }

  /** The log and stage handler `h` has after one event `e` took `route`, from `log` and
      `stage`: accepting `h` starts it afresh in STAGE_INIT, an event delivered to it runs its
      `Dispatch` and moves its stage on, and any other route leaves it be. */
  function Handled(h: TCPRelayHandler, remote: Socket?, e: Event, route: Route, log: seq<Callback>, stage: int,
                   destroys: set<Callback>): (seq<Callback>, int)
  {
    if route == Accepted(h) then ([], STAGE_INIT)
    else if route == Delivered(h) && e.sock != null then
      var side, ready := SideAmong(h.localSock, remote, e.sock), ReadyOf(e.mask);
      (log + Dispatch(stage, side, ready, destroys), StageAfter(stage, side, ready, destroys))
    else (log, stage)
  }

  /** The log and stage handler `h` has after `routes`, from `log` and `stage`: each route
      in turn is `Handled`. */
  function Replay(h: TCPRelayHandler, remote: Socket?, events: seq<Event>, routes: seq<Route>, log: seq<Callback>,
                  stage: int, destroys: set<Callback>): (seq<Callback>, int)
    requires |routes| <= |events|
    decreases |routes|
  {
    if routes == [] then (log, stage)
    else
      var n := |routes| - 1;
      var before := Replay(h, remote, events, routes[..n], log, stage, destroys);
      Handled(h, remote, events[n], routes[n], before.0, before.1, destroys)
  }

  /** The log and stage a handler has when the routing starts: its own, recorded in
      `start`, for a handler that existed then, and a new handler's otherwise. */
  function StartOf(start: map<TCPRelayHandler, (seq<Callback>, int)>, h: TCPRelayHandler): (seq<Callback>, int)
  {
    if h in start then start[h] else ([], STAGE_INIT)
  }

  /** Every handler of `known` is expected, in `states`, to have its replay over `routes`
      from its start, with its remote socket as `remotes` records it. */
  ghost predicate ReplaysAll(known: set<TCPRelayHandler>, states: map<TCPRelayHandler, (seq<Callback>, int)>,
                             remotes: map<TCPRelayHandler, Socket?>, start: map<TCPRelayHandler, (seq<Callback>, int)>,
                             events: seq<Event>, routes: seq<Route>, destroys: set<Callback>)
    requires |routes| <= |events|
  {
    forall h :: h in known ==>
      && h in states && h in remotes
      && states[h] == Replay(h, remotes[h], events, routes, StartOf(start, h).0, StartOf(start, h).1, destroys)
  }

  /** The expected log and stage after one more event `e` took `route`: an accepted handler
      starts afresh, the one the event is delivered to moves on as `Handled` says, and no
      other changes. */
  function NextStates(states: map<TCPRelayHandler, (seq<Callback>, int)>, remotes: map<TCPRelayHandler, Socket?>,
                      e: Event, route: Route, destroys: set<Callback>): map<TCPRelayHandler, (seq<Callback>, int)>
  {
    if route.Accepted? then states[route.handler := ([], STAGE_INIT)]
    else if route.Delivered? && route.handler in states && route.handler in remotes then
      var h := route.handler;
      states[h := Handled(h, remotes[h], e, route, states[h].0, states[h].1, destroys)]
    else states
  }

  /** One more route keeps the expected states the replays over the longer routing; an
      accepted handler joins `known` with its remote socket `remote`. */
  lemma ReplaysAllStep(known: set<TCPRelayHandler>, states: map<TCPRelayHandler, (seq<Callback>, int)>,
                       remotes: map<TCPRelayHandler, Socket?>, start: map<TCPRelayHandler, (seq<Callback>, int)>,
                       events: seq<Event>, routes: seq<Route>, route: Route, remote: Socket?, destroys: set<Callback>)
    requires |routes| < |events| && ReplaysAll(known, states, remotes, start, events, routes, destroys)
    requires route.Delivered? ==> route.handler in known
    ensures ReplaysAll(if route.Accepted? then known + {route.handler} else known,
                       NextStates(states, remotes, events[|routes|], route, destroys),
                       if route.Accepted? then remotes[route.handler := remote] else remotes,
                       start, events, routes + [route], destroys)
  {
    assert (routes + [route])[..|routes|] == routes;
  }

  /** One more route that fits extends a routing in order, and one more accept. */
  lemma RoutedStep(server: Socket, fds: map<int, TCPRelayHandler>, backlog: seq<Socket>,
                   events: seq<Event>, routes: seq<Route>, route: Route)
    requires RoutedInOrder(server, fds, backlog, events, routes) && |routes| < |events|
    requires |Accepts(routes)| <= |backlog|
    requires RouteFits(server, Registered(fds, Accepts(routes)), backlog[|Accepts(routes)|..], events[|routes|], route)
    ensures RoutedInOrder(server, fds, backlog, events, routes + [route])
    ensures Accepts(routes + [route]) == if route.Accepted? then Accepts(routes) + [route.handler] else Accepts(routes)
  {
    assert (routes + [route])[..|routes|] == routes;
    assert Accepts(routes) + [] == Accepts(routes);
  }

  /** One more route that fits, with the tables as routing it leaves them, moves the
      routing, both tables and the rest of the backlog on by that route; a handler the
      route delivers to was registered before the loop or accepted in it. */
  lemma RoutingStep(server: Socket, fds0: map<int, TCPRelayHandler>, table0: Table, backlog: seq<Socket>,
                    events: seq<Event>, routes: seq<Route>, route: Route, now: int,
                    entries: map<int, TCPRelayHandler>, table: Table, rest: seq<Socket>)
    requires |routes| < |events| && RoutedInOrder(server, fds0, backlog, events, routes)
    requires |Accepts(routes)| <= |backlog|
    requires RouteFits(server, Registered(fds0, Accepts(routes)), backlog[|Accepts(routes)|..], events[|routes|], route)
    requires rest == if route.Accepted? then backlog[|Accepts(routes)|..][1..] else backlog[|Accepts(routes)|..]
    requires entries == if route.Accepted? then Registered(fds0, Accepts(routes))[route.handler.localSock.fd := route.handler]
                        else Registered(fds0, Accepts(routes))
    requires table == if route.Accepted? && now >= TIMEOUT_PRECISION then Appended(Routed(table0, routes, now), [route.handler])
                      else Routed(table0, routes, now)
    ensures RoutedInOrder(server, fds0, backlog, events, routes + [route])
    ensures Accepts(routes + [route]) == if route.Accepted? then Accepts(routes) + [route.handler] else Accepts(routes)
    ensures |Accepts(routes + [route])| <= |backlog| && rest == backlog[|Accepts(routes + [route])|..]
    ensures entries == Registered(fds0, Accepts(routes + [route]))
    ensures table == Routed(table0, routes + [route], now)
    ensures route.Delivered? ==> route.handler in fds0.Values || route.handler in Accepts(routes)
  {
    var k := |Accepts(routes)|;
    RoutedStep(server, fds0, backlog, events, routes, route);
    if route.Accepted? {
      RegisteredStep(fds0, Accepts(routes), route.handler);
      AppendedStep(table0, Accepts(routes), route.handler);
      assert backlog[k..][1..] == backlog[k + 1..];
    }
    if route.Delivered? {
      RegisteredValues(fds0, Accepts(routes));
    }
  }

  /** Registering one more handler updates its descriptor's entry. */
  lemma RegisteredStep(fds: map<int, TCPRelayHandler>, hs: seq<TCPRelayHandler>, h: TCPRelayHandler)
    ensures Registered(fds, hs + [h]) == Registered(fds, hs)[h.localSock.fd := h]
  {
    assert (hs + [h])[..|hs|] == hs;
  }

  /** Slotting one more handler at the end extends the slotting of the ones before. */
  lemma AppendedStep(t: Table, hs: seq<TCPRelayHandler>, h: TCPRelayHandler)
    ensures Appended(t, hs + [h]) == Appended(Appended(t, hs), [h])
  {
    assert (hs + [h])[..|hs|] == hs;
    assert [h][..0] == [];
  }

  /** Along a routing in order, an event's route is the server error exactly when the
      event is POLL_ERR on the listening socket. */
  lemma {:induction false} RoutedErrors(server: Socket, fds: map<int, TCPRelayHandler>, backlog: seq<Socket>,
                                        events: seq<Event>, routes: seq<Route>)
    requires RoutedInOrder(server, fds, backlog, events, routes)
    ensures forall j :: 0 <= j < |routes| ==> (routes[j] == ServerError <==> ServerErrorEvent(server, events[j]))
    decreases |routes|
  {
    if routes != [] {
      var n := |routes| - 1;
      var accepted := Accepts(routes[..n]);
      RoutedErrors(server, fds, backlog, events, routes[..n]);
      ServerErrorIff(server, Registered(fds, accepted), backlog[|accepted|..], events[n], routes[n]);
    }
  }

  /** Along a routing in order, event `i` took the route `RouteFits` gives for the
      descriptor table as the accepts before it left it and the connections still pending
      then: a registered descriptor's event is delivered to the handler registered under it
      at that point, and an unregistered one is dropped. */
  lemma {:induction false} RoutedAt(server: Socket, fds: map<int, TCPRelayHandler>, backlog: seq<Socket>,
                                    events: seq<Event>, routes: seq<Route>, i: nat)
    requires RoutedInOrder(server, fds, backlog, events, routes) && i < |routes|
    ensures |Accepts(routes[..i])| <= |backlog|
    ensures RouteFits(server, Registered(fds, Accepts(routes[..i])), backlog[|Accepts(routes[..i])|..], events[i], routes[i])
    decreases |routes|
  {
    var n := |routes| - 1;
    if i < n {
      RoutedAt(server, fds, backlog, events, routes[..n], i);
      assert routes[..n][..i] == routes[..i];
    }
  }

  /** Every accept along a routing in order took the next pending connection: the accepted
      handlers' sockets are the head of the backlog, in order. */
  lemma {:induction false} AcceptsFromBacklog(server: Socket, fds: map<int, TCPRelayHandler>, backlog: seq<Socket>,
                                              events: seq<Event>, routes: seq<Route>)
    requires RoutedInOrder(server, fds, backlog, events, routes)
    ensures |Accepts(routes)| <= |backlog|
    ensures forall k :: 0 <= k < |Accepts(routes)| ==> Accepts(routes)[k].localSock == backlog[k]
    decreases |routes|
  {
    if routes != [] {
      var n := |routes| - 1;
      AcceptsFromBacklog(server, fds, backlog, events, routes[..n]);
      var accepted := Accepts(routes[..n]);
      if routes[n].Accepted? {
        assert backlog[|accepted|..][0] == backlog[|accepted|];
      }
    }
  }

  /** A routing in order delivers only to handlers registered at the start or accepted on
      the way. */
  lemma {:induction false} DeliveredToKnown(server: Socket, fds: map<int, TCPRelayHandler>, backlog: seq<Socket>,
                                            events: seq<Event>, routes: seq<Route>, i: nat)
    requires RoutedInOrder(server, fds, backlog, events, routes) && i < |routes| && routes[i].Delivered?
    ensures routes[i].handler in fds.Values || routes[i].handler in Accepts(routes[..i])
    decreases |routes|
  {
    var n := |routes| - 1;
    if i < n {
      DeliveredToKnown(server, fds, backlog, events, routes[..n], i);
      assert routes[..n][..i] == routes[..i];
    } else {
      RegisteredValues(fds, Accepts(routes[..n]));
    }
  }

  /** The descriptor table after registering `hs` holds only the old handlers and `hs`. */
  lemma {:induction false} RegisteredValues(fds: map<int, TCPRelayHandler>, hs: seq<TCPRelayHandler>)
    ensures forall fd :: fd in Registered(fds, hs) ==> Registered(fds, hs)[fd] in fds.Values || Registered(fds, hs)[fd] in hs
    decreases |hs|
  {
    if hs != [] {
      RegisteredValues(fds, hs[..|hs| - 1]);
    }
  }

  /** Slotting new handlers at the end: the list grows by exactly `hs`, each is mapped to
      its new slot, and every other entry is kept. */
  lemma {:induction false} AppendedShape(t: Table, hs: seq<TCPRelayHandler>)
    requires forall j, k :: 0 <= j < k < |hs| ==> hs[j] != hs[k]
    ensures Appended(t, hs).slots == t.slots + hs
    ensures forall k :: 0 <= k < |hs| ==> hs[k] in Appended(t, hs).index && Appended(t, hs).index[hs[k]] == |t.slots| + k
    ensures forall h :: h in t.index && h !in hs ==> h in Appended(t, hs).index && Appended(t, hs).index[h] == t.index[h]
    ensures forall h :: h in Appended(t, hs).index ==> h in t.index || h in hs
    decreases |hs|
  {
    if hs != [] {
      var n := |hs| - 1;
      AppendedShape(t, hs[..n]);
      assert t.slots + hs[..n] + [hs[n]] == t.slots + hs;
    }
  }

  /** Slotting handlers new to the table at the end keeps the exact invariant: it is
      `update_activity` applied to each in turn. */
  lemma {:induction false} AppendedKeepsExact(t: Table, hs: seq<TCPRelayHandler>)
    requires IndexExact(t)
    requires forall j, k :: 0 <= j < k < |hs| ==> hs[j] != hs[k]
    requires forall k :: 0 <= k < |hs| ==> hs[k] !in t.index
    ensures IndexExact(Appended(t, hs))
    decreases |hs|
  {
    if hs != [] {
      var n := |hs| - 1;
      var u := Appended(t, hs[..n]);
      AppendedKeepsExact(t, hs[..n]);
      AppendedShape(t, hs[..n]);
      assert hs[n] !in u.index;
      assert Reslotted(u, hs[n]) == Ok(Appended(t, hs));
      ReslotKeepsExact(u, hs[n]);
    }
  }

  /** A handler no route accepted or reached keeps its log and stage. */
  lemma {:induction false} ReplayUntouched(h: TCPRelayHandler, remote: Socket?, events: seq<Event>, routes: seq<Route>,
                                           log: seq<Callback>, stage: int, destroys: set<Callback>)
    requires |routes| <= |events|
    requires forall i :: 0 <= i < |routes| ==> routes[i] != Accepted(h) && routes[i] != Delivered(h)
    ensures Replay(h, remote, events, routes, log, stage, destroys) == (log, stage)
    decreases |routes|
  {
    if routes != [] {
      ReplayUntouched(h, remote, events, routes[..|routes| - 1], log, stage, destroys);
    }
  }

  /** Once destroyed, a handler runs no callback for any later event. */
  lemma {:induction false} ReplayStaysDestroyed(h: TCPRelayHandler, remote: Socket?, events: seq<Event>, routes: seq<Route>,
                                                log: seq<Callback>, destroys: set<Callback>)
    requires |routes| <= |events|
    requires forall i :: 0 <= i < |routes| ==> routes[i] != Accepted(h)
    ensures Replay(h, remote, events, routes, log, STAGE_DESTROYED, destroys) == (log, STAGE_DESTROYED)
    decreases |routes|
  {
    if routes != [] {
      ReplayStaysDestroyed(h, remote, events, routes[..|routes| - 1], log, destroys);
      assert log + [] == log;
    }
  }

  // ---------------------------------------------------------------------------
  // The relay

  class TCPRelay {
    const timeout: int
    const isLocal: bool
    const configServer: (string, int)
    const serverSocket: Socket
    const fdToHandlers: FdToHandlers
    var lastTime: real
    var timeouts: seq<TCPRelayHandler?>
    var timeoutOffset: nat
    var handlerToTimeouts: map<TCPRelayHandler, int>

    function Timeouts(): Table
      reads this
    {
      Table(timeouts, handlerToTimeouts)
    }

    /** The cursor never runs past the list. */
    predicate Valid()
      reads this
    {
      timeoutOffset <= |timeouts|
    }

    /** `__init__` without its socket work: the listening socket is given. */
    constructor (timeout: int, isLocal: bool, configServer: (string, int), serverSocket: Socket, now: real)
      ensures this.timeout == timeout && this.isLocal == isLocal && this.configServer == configServer
      ensures this.serverSocket == serverSocket && lastTime == now
      ensures fresh(fdToHandlers) && fdToHandlers.entries == map[]
      ensures Timeouts() == Table([], map[]) && timeoutOffset == 0
      ensures Valid()
    {
      this.timeout := timeout;
      this.isLocal := isLocal;
      this.configServer := configServer;
      this.serverSocket := serverSocket;
      fdToHandlers := new FdToHandlers();
      lastTime := now;
      timeouts := [];
      timeoutOffset := 0;
      handlerToTimeouts := map[];
    }

    /** `remove_hanlder(handler)`: the table becomes `Unslotted`, or IndexError leaves it be. */
    method RemoveHandler(h: TCPRelayHandler) returns (r: Result<()>)
      requires Valid()
      modifies this
      ensures Valid()
      ensures match Unslotted(old(Timeouts()), h)
        case Ok(t) => r == Ok(()) && Timeouts() == t
        case Err(e) => r == Err(e) && Timeouts() == old(Timeouts())
      ensures timeoutOffset == old(timeoutOffset) && lastTime == old(lastTime)
    {
      r := Ok(());
      var index := if h in handlerToTimeouts then handlerToTimeouts[h] else -1;
      if index >= 0 {
        if index >= |timeouts| {
          return Err(IndexError);
        }
        timeouts := timeouts[index := null];
        handlerToTimeouts := handlerToTimeouts - {h};
      }
    }

    /** `update_activity(handler)` at whole second `now`: within TIMEOUT_PRECISION of the
        handler's last activity nothing changes; otherwise its activity becomes `now` and
        the table becomes `Reslotted`, or IndexError leaves the table be. */
    method UpdateActivity(h: TCPRelayHandler, now: int) returns (r: Result<()>)
      requires Valid()
      modifies this, h`lastActivity
      ensures Valid()
      ensures now - old(h.lastActivity) < TIMEOUT_PRECISION ==>
        r == Ok(()) && h.lastActivity == old(h.lastActivity) && Timeouts() == old(Timeouts())
      ensures now - old(h.lastActivity) >= TIMEOUT_PRECISION ==>
        && h.lastActivity == now
        && match Reslotted(old(Timeouts()), h)
           case Ok(t) => r == Ok(()) && Timeouts() == t
           case Err(e) => r == Err(e) && Timeouts() == old(Timeouts())
      ensures timeoutOffset == old(timeoutOffset) && lastTime == old(lastTime)
      ensures h.stage == old(h.stage) && h.log == old(h.log) && h.remoteSock == old(h.remoteSock)
      ensures IndexExact(old(Timeouts())) && old(ActivityOrdered(timeouts))
        && old(forall i :: 0 <= i < |timeouts| && timeouts[i] != null ==> timeouts[i].lastActivity <= now)
        ==> ActivityOrdered(timeouts)
    {
      r := Ok(());
      if now - h.lastActivity < TIMEOUT_PRECISION {
        return;
      }
      h.lastActivity := now;
      var index := if h in handlerToTimeouts then handlerToTimeouts[h] else -1;
      if index >= 0 {
        if index >= |timeouts| {
          return Err(IndexError);
        }
        timeouts := timeouts[index := null];
      }
      var length := |timeouts|;
      timeouts := timeouts + [h];
      handlerToTimeouts := handlerToTimeouts[h := length];
    }

    /** `_sweep_timeout(now)`: with no timeout configured nothing happens. Otherwise the walk
        from the cursor destroys (and reports, in order) the handlers of the occupied slots
        before `StopAt`, emptying those slots; then the list is compacted as written when
        `CompactDue`, else the cursor moves to the stop. */
    method SweepTimeout(now: real) returns (destroyed: seq<TCPRelayHandler>)
      requires Valid()
      modifies this
      ensures Valid()
      ensures Sweep(Timeouts(), timeoutOffset, destroyed) == Swept(old(Timeouts()), old(timeoutOffset), now, timeout)
      ensures lastTime == old(lastTime)
    {
      destroyed := [];
      if timeout == 0 {
        return;
      }
      var length := |timeouts|;
      var pos;
      pos, destroyed := WalkExpired(now);
      ghost var walked := Timeouts();
      assert walked == Table(Nulled(old(timeouts), old(timeoutOffset), pos), old(handlerToTimeouts));
      if pos > TIMEOUTS_CLEAN_SIZE && pos > length / 2 {
        assert CompactDue(pos, length);
        timeouts := timeouts[pos..];
        SetAllIndices(pos);
        assert Timeouts() == CompactAsWritten(walked, pos);
        pos := 0;
      } else {
        assert !CompactDue(pos, length);
      }
      timeoutOffset := pos;
    }

    /** The loop of `_sweep_timeout`: from the cursor, empty slots are skipped and each idle
        handler is destroyed and its slot emptied, up to the first handler still active. */
    method WalkExpired(now: real) returns (pos: nat, destroyed: seq<TCPRelayHandler>)
      requires Valid()
      modifies this
      ensures pos == StopAt(old(timeouts), old(timeoutOffset), now, timeout)
      ensures timeouts == Nulled(old(timeouts), old(timeoutOffset), pos)
      ensures destroyed == Occupants(old(timeouts), old(timeoutOffset), pos)
      ensures handlerToTimeouts == old(handlerToTimeouts) && timeoutOffset == old(timeoutOffset) && lastTime == old(lastTime)
    {
      destroyed := [];
      var length := |timeouts|;
      pos := timeoutOffset;
      ghost var slots0, offset0 := timeouts, timeoutOffset;
      while pos < length
        invariant offset0 <= pos <= length == |slots0|
        invariant timeouts == Nulled(slots0, offset0, pos)
        invariant destroyed == Occupants(slots0, offset0, pos)
        invariant StopAt(slots0, offset0, now, timeout) == StopAt(slots0, pos, now, timeout)
        invariant handlerToTimeouts == old(handlerToTimeouts) && timeoutOffset == offset0 && lastTime == old(lastTime)
        decreases length - pos
      {
        var handler := timeouts[pos];
        if handler != null && now - handler.lastActivity as real < timeout as real {
          break;
        }
        WalkStep(slots0, offset0, pos, now, timeout);
        if handler != null {
          destroyed := destroyed + [handler];
          timeouts := timeouts[pos := null];
        }
        pos := pos + 1;
      }
    }

    /** The source's `for key in _handler_to_timeouts: _handler_to_timeouts[key] = pos`. */
    method SetAllIndices(pos: nat)
      modifies this
      ensures handlerToTimeouts == map k | k in old(handlerToTimeouts) :: pos
      ensures timeouts == old(timeouts) && timeoutOffset == old(timeoutOffset) && lastTime == old(lastTime)
    {
      var keys := handlerToTimeouts.Keys;
      ghost var index0 := handlerToTimeouts;
      while keys != {}
        invariant keys <= index0.Keys && handlerToTimeouts.Keys == index0.Keys
        invariant forall k :: k in index0 ==> handlerToTimeouts[k] == if k in keys then index0[k] else pos
        invariant timeouts == old(timeouts) && timeoutOffset == old(timeoutOffset) && lastTime == old(lastTime)
        decreases keys
      {
        var k :| k in keys;
        handlerToTimeouts := handlerToTimeouts[k := pos];
        keys := keys - {k};
      }
    }

    /** Accepting `conn` at whole second `now`: a fresh handler in STAGE_INIT is registered
        under the connection's descriptor, and its construction ends with `update_activity`,
        which slots it at the end of the list whenever `now` is at least TIMEOUT_PRECISION. */
    method AcceptConnection(conn: Socket, now: int) returns (h: TCPRelayHandler)
      requires Valid()
      modifies this, fdToHandlers
      ensures Valid()
      ensures fresh(h) && h.localSock == conn && h.stage == STAGE_INIT && h.log == []
      ensures JustAccepted(h, now)
      ensures fdToHandlers.entries == old(fdToHandlers.entries)[conn.fd := h]
      ensures now >= TIMEOUT_PRECISION ==>
        h.lastActivity == now && Timeouts() == Table(old(timeouts) + [h], old(handlerToTimeouts)[h := |old(timeouts)|])
      ensures now < TIMEOUT_PRECISION ==> h.lastActivity == 0 && Timeouts() == old(Timeouts())
      ensures timeoutOffset == old(timeoutOffset) && lastTime == old(lastTime)
    {
      h := new TCPRelayHandler(fdToHandlers, conn, isLocal, configServer);
      assert h !in handlerToTimeouts;
      var _ := UpdateActivity(h, now);
    }

    /** The body of `_handle_events` for one event `(sock, fd, event)`: the route is the one
        `RouteFits` gives for the descriptor table and the pending connections (`backlog`;
        none pending is EAGAIN). An accept takes the head of the backlog, registers the new
        handler under its descriptor and, from second TIMEOUT_PRECISION on, slots it at the
        end. The handler the event is delivered to ends as `Handled` says, and every other
        handler that existed before keeps its log and stage. */
    method RouteEvent(e: Event, now: int, backlog: seq<Socket>, destroys: set<Callback>)
      returns (route: Route, rest: seq<Socket>)
      requires Valid()
      modifies this, fdToHandlers, fdToHandlers.entries.Values`log, fdToHandlers.entries.Values`stage
      ensures Valid()
      ensures RouteFits(serverSocket, old(fdToHandlers.entries), backlog, e, route)
      ensures rest == if route.Accepted? then backlog[1..] else backlog
      ensures route.Accepted? ==>
        && fresh(route.handler) && route.handler.log == [] && route.handler.stage == STAGE_INIT
        && JustAccepted(route.handler, now)
        && fdToHandlers.entries == old(fdToHandlers.entries)[route.handler.localSock.fd := route.handler]
        && Timeouts() == if now >= TIMEOUT_PRECISION then Appended(old(Timeouts()), [route.handler]) else old(Timeouts())
      ensures !route.Accepted? ==> fdToHandlers.entries == old(fdToHandlers.entries) && Timeouts() == old(Timeouts())
      ensures route.Delivered? ==>
        (route.handler.log, route.handler.stage)
        == Handled(route.handler, old(route.handler.remoteSock), e, route, old(route.handler.log), old(route.handler.stage), destroys)
      ensures forall h: TCPRelayHandler :: old(allocated(h)) && route != Delivered(h) ==> h.log == old(h.log) && h.stage == old(h.stage)
      ensures timeoutOffset == old(timeoutOffset) && lastTime == old(lastTime)
    {
      rest := backlog;
      if e.sock == serverSocket {
        if ReadyOf(e.mask).error {
          return ServerError, rest;
        }
        if backlog == [] {
          return NothingToAccept, rest;
        }
        var h := AcceptConnection(backlog[0], now);
        assert [h][..0] == [];
        return Accepted(h), backlog[1..];
      }
      if e.sock == null {
        return RemovedFd, rest;
      }
      if e.fd in fdToHandlers.entries {
        var h := fdToHandlers.entries[e.fd];
        h.HandleEvent(e.sock, e.mask, destroys);
        return Delivered(h), rest;
      }
      return Unregistered, rest;
    }

    /** The loop of `_handle_events`: every event is routed in order until the listening
        socket reports POLL_ERR, which raises. The descriptor table, the timeout table and
        every handler's log and stage end as the routes say. */
    method RouteEvents(events: seq<Event>, now: int, backlog: seq<Socket>, destroys: set<Callback>)
      returns (r: Result<()>, routes: seq<Route>)
      requires Valid()
      modifies this, fdToHandlers, fdToHandlers.entries.Values`log, fdToHandlers.entries.Values`stage
      ensures Valid()
      ensures r.Ok? <==> forall i :: 0 <= i < |events| ==> !ServerErrorEvent(serverSocket, events[i])
      ensures r.Ok? ==> |routes| == |events|
      ensures r.Err? ==> r.error == ServerSocketError && 0 < |routes| && routes[|routes| - 1] == ServerError
      ensures forall i :: 0 <= i < |routes| - 1 ==> routes[i] != ServerError
      ensures RoutedInOrder(serverSocket, old(fdToHandlers.entries), backlog, events, routes)
      ensures fdToHandlers.entries == Registered(old(fdToHandlers.entries), Accepts(routes))
      ensures Timeouts() == Routed(old(Timeouts()), routes, now)
      ensures forall h :: h in old(fdToHandlers.entries.Values) ==>
        (h.log, h.stage) == Replay(h, h.remoteSock, events, routes, old(h.log), old(h.stage), destroys)
      ensures forall h :: h in Accepts(routes) ==> allocated(h) && fresh(h) && JustAccepted(h, now)
      ensures forall h :: h in Accepts(routes) ==> (h.log, h.stage) == Replay(h, h.remoteSock, events, routes, [], STAGE_INIT, destroys)
      ensures timeoutOffset == old(timeoutOffset) && lastTime == old(lastTime)
    {
      ghost var start, known, states, remotes;
      routes, start, known, states, remotes := RouteLoop(events, now, backlog, destroys);
      RoutedErrors(serverSocket, old(fdToHandlers.entries), backlog, events, routes);
      r := if ServerError in routes then Err(ServerSocketError) else Ok(());
      forall h | h in known
        ensures (h.log, h.stage) == Replay(h, h.remoteSock, events, routes, StartOf(start, h).0, StartOf(start, h).1, destroys)
      {
        assert states[h] == Replay(h, remotes[h], events, routes, StartOf(start, h).0, StartOf(start, h).1, destroys);
      }
    }

    /** The loop of `_handle_events` itself: it routes the events in order and stops after
        the first one that routes to ServerError. The handlers of `known` hold the log and
        stage `states` expects, their replay over the routes from `start`, which holds the
        log and stage every registered handler had on entry. */
    method RouteLoop(events: seq<Event>, now: int, backlog: seq<Socket>, destroys: set<Callback>)
      returns (routes: seq<Route>, ghost start: map<TCPRelayHandler, (seq<Callback>, int)>,
               ghost known: set<TCPRelayHandler>, ghost states: map<TCPRelayHandler, (seq<Callback>, int)>,
               ghost remotes: map<TCPRelayHandler, Socket?>)
      requires Valid()
      modifies this, fdToHandlers, fdToHandlers.entries.Values`log, fdToHandlers.entries.Values`stage
      ensures Valid() && |routes| <= |events|
      ensures || (|routes| == |events| && ServerError !in routes)
              || (0 < |routes| && routes[|routes| - 1] == ServerError && ServerError !in routes[..|routes| - 1])
      ensures RoutedInOrder(serverSocket, old(fdToHandlers.entries), backlog, events, routes)
      ensures fdToHandlers.entries == Registered(old(fdToHandlers.entries), Accepts(routes))
      ensures Timeouts() == Routed(old(Timeouts()), routes, now)
      ensures forall h :: h in old(fdToHandlers.entries.Values) ==>
        h in known && h in start && start[h] == (old(h.log), old(h.stage))
      ensures forall h :: h in Accepts(routes) ==> h in known && allocated(h) && fresh(h) && h !in start
      ensures forall h :: h in Accepts(routes) ==> JustAccepted(h, now)
      ensures forall h :: h in known ==>
        h in states && h in remotes && (h.log, h.stage) == states[h] && h.remoteSock == remotes[h]
      ensures ReplaysAll(known, states, remotes, start, events, routes, destroys)
      ensures timeoutOffset == old(timeoutOffset) && lastTime == old(lastTime)
    {
      routes := [];
      var pending := backlog;
      var i := 0;
      ghost var fds0, table0 := fdToHandlers.entries, Timeouts();
      start := map h | h in fds0.Values :: (h.log, h.stage);
      remotes := map h | h in fds0.Values :: h.remoteSock;
      known, states := fds0.Values, start;
      while i < |events|
        invariant 0 <= i <= |events| && |routes| == i && Valid()
        invariant ServerError !in routes
        invariant RoutedInOrder(serverSocket, fds0, backlog, events, routes)
        invariant |Accepts(routes)| <= |backlog| && pending == backlog[|Accepts(routes)|..]
        invariant fdToHandlers.entries == Registered(fds0, Accepts(routes))
        invariant Timeouts() == Routed(table0, routes, now)
        invariant fds0.Values <= known
        invariant forall h :: h in Accepts(routes) ==> h in known && allocated(h) && fresh(h) && h !in start
        invariant forall h :: h in Accepts(routes) ==> JustAccepted(h, now)
        invariant forall h :: h in known ==>
          h in states && h in remotes && (h.log, h.stage) == states[h] && h.remoteSock == remotes[h]
        invariant ReplaysAll(known, states, remotes, start, events, routes, destroys)
        invariant forall h :: h in fdToHandlers.entries.Values ==> h in fds0.Values || fresh(h)
        invariant timeoutOffset == old(timeoutOffset) && lastTime == old(lastTime)
      {
        var route;
        route, pending, known, states, remotes :=
          RouteNext(events, i, now, pending, destroys, backlog, routes, fds0, table0, start, known, states, remotes);
        if route == ServerError {
          assert Accepts(routes + [route]) == Accepts(routes);
          assert (routes + [route])[..|routes|] == routes;
          routes := routes + [route];
          return;
        }
        routes := routes + [route];
        i := i + 1;
      }
    }

    /** `RouteEvent`, followed on a set `known` of handlers whose log, stage and remote
        socket `states` and `remotes` record: after it they hold `NextStates`, and an
        accepted handler is recorded too. */
    method RouteTracked(e: Event, now: int, backlog: seq<Socket>, destroys: set<Callback>,
                        ghost known: set<TCPRelayHandler>, ghost states: map<TCPRelayHandler, (seq<Callback>, int)>,
                        ghost remotes: map<TCPRelayHandler, Socket?>, ghost acc: seq<TCPRelayHandler>)
      returns (route: Route, rest: seq<Socket>, ghost knownAfter: set<TCPRelayHandler>,
               ghost remotesAfter: map<TCPRelayHandler, Socket?>)
      requires Valid()
      requires forall h :: h in known ==>
        h in states && h in remotes && (h.log, h.stage) == states[h] && h.remoteSock == remotes[h]
      requires forall h :: h in acc ==> allocated(h) && JustAccepted(h, now)
      modifies this, fdToHandlers, fdToHandlers.entries.Values`log, fdToHandlers.entries.Values`stage
      ensures Valid()
      ensures RouteFits(serverSocket, old(fdToHandlers.entries), backlog, e, route)
      ensures rest == if route.Accepted? then backlog[1..] else backlog
      ensures route.Accepted? ==>
        && fresh(route.handler) && JustAccepted(route.handler, now)
        && fdToHandlers.entries == old(fdToHandlers.entries)[route.handler.localSock.fd := route.handler]
        && Timeouts() == if now >= TIMEOUT_PRECISION then Appended(old(Timeouts()), [route.handler]) else old(Timeouts())
      ensures !route.Accepted? ==> fdToHandlers.entries == old(fdToHandlers.entries) && Timeouts() == old(Timeouts())
      ensures knownAfter == if route.Accepted? then known + {route.handler} else known
      ensures remotesAfter == if route.Accepted? then remotes[route.handler := route.handler.remoteSock] else remotes
      ensures forall h :: h in knownAfter ==>
        var statesAfter := NextStates(states, remotes, e, route, destroys);
        h in statesAfter && h in remotesAfter && (h.log, h.stage) == statesAfter[h] && h.remoteSock == remotesAfter[h]
      ensures forall h :: h in acc ==> JustAccepted(h, now)
      ensures forall h :: h in fdToHandlers.entries.Values ==> h in old(fdToHandlers.entries.Values) || fresh(h)
      ensures timeoutOffset == old(timeoutOffset) && lastTime == old(lastTime)
    {
      route, rest := RouteEvent(e, now, backlog, destroys);
      knownAfter, remotesAfter := known, remotes;
      if route.Accepted? {
        knownAfter, remotesAfter := known + {route.handler}, remotes[route.handler := route.handler.remoteSock];
      }
      ghost var statesAfter := NextStates(states, remotes, e, route, destroys);
      forall h | h in knownAfter
        ensures h in statesAfter && h in remotesAfter && (h.log, h.stage) == statesAfter[h] && h.remoteSock == remotesAfter[h]
      {
        if route == Delivered(h) {
          assert states[h] == (old(h.log), old(h.stage)) && remotes[h] == old(h.remoteSock);
        } else if route != Accepted(h) {
          assert h in known && statesAfter[h] == states[h];
        }
      }
    }

    /** One turn of the loop of `_handle_events`: event number `i`, the one after `routes`,
        is routed, and the routing so far and both tables move on by that one route. The
        handlers of `known` hold the log and stage `states` expects, and `states` is their
        replay from `start`, the log and stage of the handlers registered when the loop
        began (with the table `fds0`). */
    method RouteNext(events: seq<Event>, i: nat, now: int, pending: seq<Socket>, destroys: set<Callback>,
                     ghost backlog: seq<Socket>, ghost routes: seq<Route>, ghost fds0: map<int, TCPRelayHandler>,
                     ghost table0: Table, ghost start: map<TCPRelayHandler, (seq<Callback>, int)>,
                     ghost known: set<TCPRelayHandler>, ghost states: map<TCPRelayHandler, (seq<Callback>, int)>,
                     ghost remotes: map<TCPRelayHandler, Socket?>)
      returns (route: Route, rest: seq<Socket>, ghost knownAfter: set<TCPRelayHandler>,
               ghost statesAfter: map<TCPRelayHandler, (seq<Callback>, int)>, ghost remotesAfter: map<TCPRelayHandler, Socket?>)
      requires Valid() && |routes| == i < |events| && ServerError !in routes
      requires RoutedInOrder(serverSocket, fds0, backlog, events, routes)
      requires |Accepts(routes)| <= |backlog| && pending == backlog[|Accepts(routes)|..]
      requires fdToHandlers.entries == Registered(fds0, Accepts(routes))
      requires Timeouts() == Routed(table0, routes, now)
      requires fds0.Values <= known && forall h :: h in Accepts(routes) ==> h in known && h !in start
      requires forall h :: h in known ==>
        h in states && h in remotes && (h.log, h.stage) == states[h] && h.remoteSock == remotes[h]
      requires ReplaysAll(known, states, remotes, start, events, routes, destroys)
      requires forall h :: h in Accepts(routes) ==> allocated(h) && JustAccepted(h, now)
      modifies this, fdToHandlers, fdToHandlers.entries.Values`log, fdToHandlers.entries.Values`stage
      ensures Valid() && known <= knownAfter
      ensures RoutedInOrder(serverSocket, fds0, backlog, events, routes + [route])
      ensures |Accepts(routes + [route])| <= |backlog| && rest == backlog[|Accepts(routes + [route])|..]
      ensures fdToHandlers.entries == Registered(fds0, Accepts(routes + [route]))
      ensures Timeouts() == Routed(table0, routes + [route], now)
      ensures forall h :: h in Accepts(routes + [route]) ==> h in knownAfter && h !in start
      ensures forall h :: h in Accepts(routes + [route]) ==> JustAccepted(h, now)
      ensures route.Accepted? ==> fresh(route.handler) && Accepts(routes + [route]) == Accepts(routes) + [route.handler]
      ensures !route.Accepted? ==> Accepts(routes + [route]) == Accepts(routes)
      ensures forall h :: h in knownAfter ==>
        h in statesAfter && h in remotesAfter && (h.log, h.stage) == statesAfter[h] && h.remoteSock == remotesAfter[h]
      ensures ReplaysAll(knownAfter, statesAfter, remotesAfter, start, events, routes + [route], destroys)
      ensures forall h :: h in fdToHandlers.entries.Values ==> h in old(fdToHandlers.entries.Values) || fresh(h)
      ensures timeoutOffset == old(timeoutOffset) && lastTime == old(lastTime)
    {
      route, rest, knownAfter, remotesAfter := RouteTracked(events[i], now, pending, destroys, known, states, remotes, Accepts(routes));
      statesAfter := NextStates(states, remotes, events[i], route, destroys);
      RoutingStep(serverSocket, fds0, table0, backlog, events, routes, route, now, fdToHandlers.entries, Timeouts(), rest);
      ReplaysAllStep(known, states, remotes, start, events, routes, route,
                     if route.Accepted? then route.handler.remoteSock else null, destroys);
      forall h | h in Accepts(routes + [route])
        ensures JustAccepted(h, now)
      {
        if h !in Accepts(routes) {
          assert route == Accepted(h);
        }
      }
    }

    /** The end of `_handle_events`: when more than TIMEOUT_PRECISION seconds have passed
        since the last sweep, sweep and record `now` as the last sweep time. */
    method SweepGate(now: real) returns (destroyed: seq<TCPRelayHandler>)
      requires Valid()
      modifies this
      ensures Valid()
      ensures now - old(lastTime) > TIMEOUT_PRECISION as real ==>
        && lastTime == now
        && Sweep(Timeouts(), timeoutOffset, destroyed) == Swept(old(Timeouts()), old(timeoutOffset), now, timeout)
      ensures now - old(lastTime) <= TIMEOUT_PRECISION as real ==>
        && lastTime == old(lastTime) && destroyed == []
        && Timeouts() == old(Timeouts()) && timeoutOffset == old(timeoutOffset)
    {
      destroyed := [];
      if now - lastTime > TIMEOUT_PRECISION as real {
        destroyed := SweepTimeout(now);
        lastTime := now;
      }
    }

    /** `_handle_events(events)` at time `now`: the events are routed in order (the clock read
        as a whole second for the handlers accepted on the way); unless that raised, the
        sweep gate follows, on the table the routing left. */
    method HandleEvents(events: seq<Event>, now: real, backlog: seq<Socket>, destroys: set<Callback>)
      returns (r: Result<()>, routes: seq<Route>, destroyed: seq<TCPRelayHandler>)
      requires Valid()
      modifies this, fdToHandlers, fdToHandlers.entries.Values`log, fdToHandlers.entries.Values`stage
      ensures Valid()
      ensures r.Ok? <==> forall i :: 0 <= i < |events| ==> !ServerErrorEvent(serverSocket, events[i])
      ensures r.Ok? ==> |routes| == |events|
      ensures r.Err? ==>
        && r.error == ServerSocketError && 0 < |routes| && routes[|routes| - 1] == ServerError
        && lastTime == old(lastTime) && destroyed == [] && timeoutOffset == old(timeoutOffset)
        && Timeouts() == Routed(old(Timeouts()), routes, now.Floor)
      ensures forall i :: 0 <= i < |routes| - 1 ==> routes[i] != ServerError
      ensures RoutedInOrder(serverSocket, old(fdToHandlers.entries), backlog, events, routes)
      ensures fdToHandlers.entries == Registered(old(fdToHandlers.entries), Accepts(routes))
      ensures forall h :: h in old(fdToHandlers.entries.Values) ==>
        (h.log, h.stage) == Replay(h, h.remoteSock, events, routes, old(h.log), old(h.stage), destroys)
      ensures forall h :: h in Accepts(routes) ==> allocated(h) && fresh(h) && JustAccepted(h, now.Floor)
      ensures forall h :: h in Accepts(routes) ==> (h.log, h.stage) == Replay(h, h.remoteSock, events, routes, [], STAGE_INIT, destroys)
      ensures r.Ok? && now - old(lastTime) > TIMEOUT_PRECISION as real ==>
        var routed := Routed(old(Timeouts()), routes, now.Floor);
        && lastTime == now
        && old(timeoutOffset) <= |routed.slots|
        && Sweep(Timeouts(), timeoutOffset, destroyed) == Swept(routed, old(timeoutOffset), now, timeout)
      ensures r.Ok? && now - old(lastTime) <= TIMEOUT_PRECISION as real ==>
        && lastTime == old(lastTime) && destroyed == [] && timeoutOffset == old(timeoutOffset)
        && Timeouts() == Routed(old(Timeouts()), routes, now.Floor)
    {
      destroyed := [];
      r, routes := RouteEvents(events, now.Floor, backlog, destroys);
      if r.Ok? {
        destroyed := SweepGate(now);
      }
    }
  }
}
