/**
 * The bookkeeping of the event loop (ae.c): the table of registered file
 * events indexed by descriptor together with the highest registered
 * descriptor `maxfd`, and the list of timers.
 *
 * The multiplexing backend (`aeApiAddEvent` and friends) is outside the
 * model: whether it accepts a new registration is a parameter. The clock is
 * a parameter too. Handlers and their client data are opaque numbers.
 */
module Ae {
  import opened Common

  /** An event mask (`AE_NONE`, `AE_READABLE`, `AE_WRITABLE` and their union). */
  type Mask = bv32

  const AE_OK := 0
  const AE_ERR := -1
  const AE_NONE: Mask := 0
  const AE_READABLE: Mask := 1
  const AE_WRITABLE: Mask := 2

  /** A handler or a client-data pointer, known only by identity. */
  type Handle = nat

  /** `aeFileEvent`: the registered mask and what to call when the descriptor is ready. */
  datatype FileEvent = FileEvent(mask: Mask, rfileProc: Handle, wfileProc: Handle, clientData: Handle)

  /** `aeTimeEvent` without its handlers: the id and the time (seconds, milliseconds) it is due. */
  datatype TimeEvent = TimeEvent(id: int, whenSec: int, whenMs: int, clientData: Handle)

  /** C's `/` on integers: the quotient truncated toward zero. */
  function CDiv(a: int, b: int): (q: int)
    requires b > 0
    ensures a >= 0 ==> 0 <= q && q * b <= a < q * b + b
    ensures a < 0 ==> q <= 0 && q * b - b < a <= q * b
  {
    if a >= 0 then a / b else -((-a) / b)
  }

  /** C's `%` on integers: the remainder takes the sign of the dividend. */
  function CMod(a: int, b: int): (r: int)
    requires b > 0
    ensures CDiv(a, b) * b + r == a
    ensures a >= 0 ==> 0 <= r < b
    ensures a < 0 ==> -b < r <= 0
  {
    if a >= 0 then a % b else -((-a) % b)
  }

  /**
   * `aeAddMillisecondsToNow`, with the current time `(nowSec, nowMs)` given:
   * the time `milliseconds` from now, as seconds and milliseconds.
   */
  function AddMillisecondsToNow(milliseconds: int, nowSec: int, nowMs: int): (when: (int, int))
    ensures when.0 * 1000 + when.1 == nowSec * 1000 + nowMs + milliseconds
    ensures 0 <= nowMs < 1000 && milliseconds >= 0 ==> 0 <= when.1 < 1000
  {
    var whenSec := nowSec + CDiv(milliseconds, 1000);
    var whenMs := nowMs + CMod(milliseconds, 1000);
    if whenMs >= 1000 then (whenSec + 1, whenMs - 1000) else (whenSec, whenMs)
  }

  /** `(s1, m1)` is strictly before `(s2, m2)`: the order `aeSearchNearestTimer` uses. */
  predicate Earlier(a: TimeEvent, b: TimeEvent)
  {
    a.whenSec < b.whenSec || (a.whenSec == b.whenSec && a.whenMs < b.whenMs)
  }

  /** Timer ids strictly decrease from the head of the list (the newest) to its tail. */
  ghost predicate IdsDecreasing(ts: seq<TimeEvent>)
  {
    forall i, j :: 0 <= i < j < |ts| ==> ts[i].id > ts[j].id
  }

  /** The highest descriptor below `below` with a registered mask, or -1. */
  function HighestSet(events: seq<FileEvent>, below: int): (j: int)
    requires below <= |events|
    ensures -1 <= j < below || (j == -1 && below < 0)
    decreases below
  {
    if below <= 0 then -1
    else if events[below - 1].mask != AE_NONE then below - 1
    else HighestSet(events, below - 1)
  }

  /** `HighestSet` finds a registered descriptor and nothing registered above it. */
  lemma {:induction false} HighestSetIsHighest(events: seq<FileEvent>, below: int)
    requires 0 <= below <= |events|
    ensures var j := HighestSet(events, below);
      && (j == -1 || events[j].mask != AE_NONE)
      && forall k :: j < k < below ==> events[k].mask == AE_NONE
    decreases below
  {
    if below > 0 && events[below - 1].mask == AE_NONE {
      HighestSetIsHighest(events, below - 1);
    }
  }

  /**
   * The slot of a descriptor after registering `mask` with handler `proc`:
   * the registered directions grow by `mask`, the handler of each direction
   * in `mask` becomes `proc`, the other handler is kept.
   */
  function Register(fe: FileEvent, mask: Mask, proc: Handle, clientData: Handle): (r: FileEvent)
    ensures r.mask == fe.mask | mask
    ensures mask != AE_NONE ==> r.mask != AE_NONE
    ensures r.rfileProc == if mask & AE_READABLE != 0 then proc else fe.rfileProc
    ensures r.wfileProc == if mask & AE_WRITABLE != 0 then proc else fe.wfileProc
    ensures r.clientData == clientData
  {
    var rproc := if mask & AE_READABLE != 0 then proc else fe.rfileProc;
    var wproc := if mask & AE_WRITABLE != 0 then proc else fe.wfileProc;
    FileEvent(fe.mask | mask, rproc, wproc, clientData)
  }

  /** The event loop's file-event table and timer list (`aeEventLoop`). */
  class EventLoop {
    /** The number of descriptors the table can hold. */
    const setsize: nat
    /** `eventLoop->events`, indexed by descriptor. */
    const events: array<FileEvent>
    /** The highest descriptor registered, or -1. */
    var maxfd: int
    /** `eventLoop->timeEventHead`, head first. */
    var timeEvents: seq<TimeEvent>
    /** `eventLoop->timeEventNextId`. */
    var timeEventNextId: int

    /**
     * The table has `setsize` slots; no descriptor above `maxfd` is
     * registered; timer ids are below the next id and decrease from the head.
     */
    ghost predicate Valid()
      reads this, events
    {
      && events.Length == setsize
      && -1 <= maxfd < setsize
      && (forall fd :: maxfd < fd < setsize ==> events[fd].mask == AE_NONE)
      && IdsDecreasing(timeEvents)
      && (forall i :: 0 <= i < |timeEvents| ==> timeEvents[i].id < timeEventNextId)
    }

    /** `maxfd` is itself registered, so it is exactly the highest registered descriptor. */
    ghost predicate MaxFdExact()
      reads this, events
      requires Valid()
    {
      maxfd == -1 || events[maxfd].mask != AE_NONE
    }

    /**
     * `aeCreateEventLoop`: every slot starts unregistered, no timers, the
     * next timer id is 0 and `maxfd` is -1.
     */
    constructor (size: nat)
      ensures Valid() && MaxFdExact()
      ensures setsize == size && fresh(events)
      ensures forall fd :: 0 <= fd < size ==> events[fd].mask == AE_NONE
      ensures maxfd == -1 && timeEvents == [] && timeEventNextId == 0
    {
      var table := new FileEvent[size];
      var i := 0;
      while i < size
        invariant i <= size
        invariant forall fd :: 0 <= fd < i ==> table[fd].mask == AE_NONE
      {
        table[i] := table[i].(mask := AE_NONE);
        i := i + 1;
      }
      setsize, events := size, table;
      maxfd, timeEvents, timeEventNextId := -1, [], 0;
    }

    /**
     * `aeCreateFileEvent`: AE_ERR for a descriptor beyond the table, and
     * AE_ERR with nothing changed when the backend refuses it (`backendOk`
     * false). Otherwise the mask is added to the descriptor's mask, the
     * handler is recorded for each direction in `mask`, and `maxfd` grows to
     * cover the descriptor.
     */
    method CreateFileEvent(fd: nat, mask: Mask, proc: Handle, clientData: Handle, backendOk: bool) returns (r: int)
      requires Valid()
      modifies this, events
      ensures Valid()
      ensures fd >= setsize || !backendOk ==>
        r == AE_ERR && maxfd == old(maxfd) && events[..] == old(events[..])
      ensures fd < setsize && backendOk ==>
        && r == AE_OK
        && events[fd] == Register(old(events[fd]), mask, proc, clientData)
        && maxfd == (if fd > old(maxfd) then fd else old(maxfd))
      ensures forall j :: 0 <= j < events.Length && j != fd ==> events[j] == old(events[j])
      ensures old(MaxFdExact()) && mask != AE_NONE ==> MaxFdExact()
      ensures timeEvents == old(timeEvents) && timeEventNextId == old(timeEventNextId)
    {
      if fd >= setsize {
        return AE_ERR;
      }
      if !backendOk {
        return AE_ERR;
      }
      events[fd] := Register(events[fd], mask, proc, clientData);
      if fd > maxfd {
        maxfd := fd;
      }
      r := AE_OK;
    }

    /**
     * `aeDeleteFileEvent`: the bits of `mask` leave the descriptor's mask
     * (nothing happens beyond the table or for an unregistered descriptor);
     * when `maxfd` itself ends unregistered, `maxfd` moves down to the highest
     * registered descriptor, or -1.
     */
    method DeleteFileEvent(fd: nat, mask: Mask)
      requires Valid()
      modifies this, events
      ensures Valid()
      ensures fd >= setsize || old(events[fd].mask) == AE_NONE ==>
        maxfd == old(maxfd) && events[..] == old(events[..])
      ensures fd < setsize && old(events[fd].mask) != AE_NONE ==>
        && events[fd] == old(events[fd]).(mask := old(events[fd].mask) & !mask)
        && maxfd == (if fd == old(maxfd) && events[fd].mask == AE_NONE then HighestSet(events[..], fd) else old(maxfd))
      ensures forall j :: 0 <= j < events.Length && j != fd ==> events[j] == old(events[j])
      ensures old(MaxFdExact()) ==> MaxFdExact()
      ensures timeEvents == old(timeEvents) && timeEventNextId == old(timeEventNextId)
    {
      if fd >= setsize {
        return;
      }
      var fe := events[fd];
      if fe.mask == AE_NONE {
        return;
      }
      events[fd] := fe.(mask := fe.mask & !mask);
      if fd == maxfd && events[fd].mask == AE_NONE {
        var j := maxfd - 1;
        while j >= 0 && events[j].mask == AE_NONE
          invariant -1 <= j < fd
          invariant HighestSet(events[..], j + 1) == HighestSet(events[..], fd)
        {
          j := j - 1;
        }
        HighestSetIsHighest(events[..], fd);
        maxfd := j;
      }
    }

    /** `aeGetFileEvents`: the mask of a descriptor, 0 beyond the table. */
    method GetFileEvents(fd: nat) returns (mask: Mask)
      requires Valid()
      ensures mask == if fd < setsize then events[fd].mask else AE_NONE
      ensures fd > maxfd ==> mask == AE_NONE
    {
      if fd >= setsize {
        return 0;
      }
      mask := events[fd].mask;
    }

    /**
     * `aeCreateTimeEvent`: the timer gets the next id, which is then
     * incremented, is due `milliseconds` after the time `(nowSec, nowMs)`,
     * and goes at the head of the list. The result is its id.
     */
    method CreateTimeEvent(milliseconds: int, clientData: Handle, nowSec: int, nowMs: int) returns (id: int)
      requires Valid()
      modifies this
      ensures Valid()
      ensures id == old(timeEventNextId) && timeEventNextId == old(timeEventNextId) + 1
      ensures var when := AddMillisecondsToNow(milliseconds, nowSec, nowMs);
        timeEvents == [TimeEvent(id, when.0, when.1, clientData)] + old(timeEvents)
      ensures forall i :: 0 <= i < |old(timeEvents)| ==> old(timeEvents)[i].id != id
      ensures maxfd == old(maxfd)
    {
      id := timeEventNextId;
      timeEventNextId := timeEventNextId + 1;
      var when := AddMillisecondsToNow(milliseconds, nowSec, nowMs);
      timeEvents := [TimeEvent(id, when.0, when.1, clientData)] + timeEvents;
    }

    /**
     * `aeDeleteTimeEvent`: the timer with that id leaves the list (AE_OK);
     * AE_ERR and no change when there is none. Calling its finalizer is not
     * modelled.
     */
    method DeleteTimeEvent(id: int) returns (r: int)
      requires Valid()
      modifies this
      ensures Valid()
      ensures (exists i :: 0 <= i < |old(timeEvents)| && old(timeEvents)[i].id == id) <==> r == AE_OK
      ensures r == AE_ERR ==> timeEvents == old(timeEvents)
      ensures r == AE_OK ==>
        exists i :: 0 <= i < |old(timeEvents)| && old(timeEvents)[i].id == id &&
          timeEvents == old(timeEvents)[..i] + old(timeEvents)[i + 1..]
      ensures forall e :: e in timeEvents ==> e.id != id
      ensures timeEventNextId == old(timeEventNextId) && maxfd == old(maxfd)
    {
      var i := 0;
      while i < |timeEvents|
        invariant i <= |timeEvents| && timeEvents == old(timeEvents)
        invariant forall k :: 0 <= k < i ==> timeEvents[k].id != id
      {
        if timeEvents[i].id == id {
          RemoveKeepsDecreasing(timeEvents, i);
          timeEvents := timeEvents[..i] + timeEvents[i + 1..];
          return AE_OK;
        }
        i := i + 1;
      }
      return AE_ERR;
    }

    /**
     * `aeSearchNearestTimer`: `None` for an empty list; otherwise the
     * position of a timer that is due no later than any other, the first
     * such in list order.
     */
    method SearchNearestTimer() returns (nearest: Option<nat>)
      requires Valid()
      ensures nearest.None? <==> timeEvents == []
      ensures nearest.Some? ==>
        && nearest.value < |timeEvents|
        && (forall k :: 0 <= k < |timeEvents| ==> !Earlier(timeEvents[k], timeEvents[nearest.value]))
        && (forall k :: 0 <= k < nearest.value ==> Earlier(timeEvents[nearest.value], timeEvents[k]))
    {
      nearest := None;
      var i := 0;
      while i < |timeEvents|
        invariant i <= |timeEvents|
        invariant nearest.None? <==> i == 0
        invariant nearest.Some? ==>
          && nearest.value < i
          && (forall k :: 0 <= k < i ==> !Earlier(timeEvents[k], timeEvents[nearest.value]))
          && (forall k :: 0 <= k < nearest.value ==> Earlier(timeEvents[nearest.value], timeEvents[k]))
      {
        if nearest.None? || Earlier(timeEvents[i], timeEvents[nearest.value]) {
          nearest := Some(i);
        }
        i := i + 1;
      }
    }
  }

  /**
   * Removing one timer keeps the ids decreasing, and since ids are distinct
   * no timer with the removed id is left.
   */
  lemma RemoveKeepsDecreasing(ts: seq<TimeEvent>, i: nat)
    requires IdsDecreasing(ts) && i < |ts|
    ensures IdsDecreasing(ts[..i] + ts[i + 1..])
    ensures forall e :: e in ts[..i] + ts[i + 1..] ==> e.id != ts[i].id
  {
    var r := ts[..i] + ts[i + 1..];
    forall p, q | 0 <= p < q < |r| ensures r[p].id > r[q].id {
      var p' := if p < i then p else p + 1;
      var q' := if q < i then q else q + 1;
      assert r[p] == ts[p'] && r[q] == ts[q'];
    }
    forall e | e in r ensures e.id != ts[i].id {
      var p :| 0 <= p < |r| && r[p] == e;
      if p < i {
        assert r[p] == ts[p];
      } else {
        assert r[p] == ts[p + 1];
      }
    }
  }
}
