/** What the correlation tables mean: each entry restated as a fact about the
    event history alone (src/correlate.rs). */
module CorrelateHistory {
  import opened Collections
  import opened Events
  import opened CorrelateSpec

  // ---------- events as they concern one thread ----------

  predicate BlocksOut(e: WperfEvent, t: u32) {
    e.Kind() == Some(Switch) && e.prevTid == t && t != 0 && e.prevState != TASK_RUNNING
  }

  predicate LeavesCpu(e: WperfEvent, t: u32) {
    e.Kind() == Some(Switch) && e.prevTid == t && t != 0
  }

  predicate ComesIn(e: WperfEvent, t: u32) {
    e.Kind() == Some(Switch) && e.nextTid == t && t != 0
  }

  predicate Exits(e: WperfEvent, t: u32) {
    e.Kind() == Some(Exit) && e.tid == t
  }

  predicate Wakes(e: WperfEvent, t: u32) {
    (e.Kind() == Some(Wakeup) || e.Kind() == Some(WakeupNew)) && e.nextTid == t && e.prevTid != 0
  }

  predicate EntersFutex(e: WperfEvent, t: u32) {
    e.Kind() == Some(EventType.FutexWait) && e.tid == t
  }

  // ---------- declarative reading of the tables ----------

  /** The latest blocking switch-out, switch-in or exit of `t` in `h` is a
      blocking switch-out, at position `i`. */
  ghost predicate OffSince(h: seq<WperfEvent>, t: u32, i: nat) {
    && i < |h| && BlocksOut(h[i], t) && !ComesIn(h[i], t)
    && forall j | i < j < |h| :: !BlocksOut(h[j], t) && !ComesIn(h[j], t) && !Exits(h[j], t)
  }

  /** The latest non-idle wakeup of `t` after position `i` is at position `k`. */
  ghost predicate LastWakeup(h: seq<WperfEvent>, t: u32, i: nat, k: nat) {
    && i < k < |h| && Wakes(h[k], t)
    && forall j | k < j < |h| :: !Wakes(h[j], t)
  }

  /** The latest futex event of `t`, at position `f`, has not been consumed by a
      blocking switch-out or dropped by an exit. */
  ghost predicate FutexSince(h: seq<WperfEvent>, t: u32, f: nat) {
    && f < |h| && EntersFutex(h[f], t)
    && forall j | f < j < |h| :: !EntersFutex(h[j], t) && !BlocksOut(h[j], t) && !Exits(h[j], t)
  }

  /** At position `j` thread `t` comes in after blocking at `i`, woken last by
      the event at `k`. */
  ghost predicate Episode(h: seq<WperfEvent>, t: u32, i: nat, k: nat, j: nat) {
    && j < |h| && ComesIn(h[j], t) && !BlocksOut(h[j], t)
    && OffSince(h[..j], t, i) && LastWakeup(h[..j], t, i, k)
  }

  /** Since position `j` thread `t` has neither left the CPU nor exited. */
  ghost predicate StillOnCpu(h: seq<WperfEvent>, t: u32, j: nat) {
    forall k | j < k < |h| :: !LeavesCpu(h[k], t) && !Exits(h[k], t)
  }

  /** The latest request or completion with `key` is the request at `i`. */
  ghost predicate InFlight(h: seq<WperfEvent>, key: IoKey, i: nat) {
    && i < |h| && h[i].Kind() == Some(IoIssue) && KeyOf(h[i]) == key
    && forall j | i < j < |h| :: !TouchesIo(h[j], key)
  }

  predicate TouchesIo(e: WperfEvent, key: IoKey) {
    (e.Kind() == Some(IoIssue) || e.Kind() == Some(IoComplete)) && KeyOf(e) == key
  }

  // ---------- the same positions, computed backwards ----------

  ghost function OffIndex(h: seq<WperfEvent>, t: u32): Option<nat> {
    if h == [] then None
    else
      var n := |h| - 1;
      if ComesIn(h[n], t) || Exits(h[n], t) then None
      else if BlocksOut(h[n], t) then Some(n)
      else OffIndex(h[..n], t)
  }

  ghost function WakeIndex(h: seq<WperfEvent>, t: u32, i: nat): Option<nat> {
    if |h| <= i + 1 then None
    else
      var n := |h| - 1;
      if Wakes(h[n], t) then Some(n) else WakeIndex(h[..n], t, i)
  }

  ghost function FutexIndex(h: seq<WperfEvent>, t: u32): Option<nat> {
    if h == [] then None
    else
      var n := |h| - 1;
      if BlocksOut(h[n], t) || Exits(h[n], t) then None
      else if EntersFutex(h[n], t) then Some(n)
      else FutexIndex(h[..n], t)
  }

  ghost function IoIndex(h: seq<WperfEvent>, key: IoKey): Option<nat> {
    if h == [] then None
    else
      var n := |h| - 1;
      if !TouchesIo(h[n], key) then IoIndex(h[..n], key)
      else if h[n].Kind() == Some(IoIssue) then Some(n)
      else None
  }

  /** Whether the event `e` after history `h` brings `t` back from a wait with
      a known waker. */
  ghost predicate Resumes(h: seq<WperfEvent>, e: WperfEvent, t: u32) {
    && ComesIn(e, t) && !BlocksOut(e, t)
    && OffIndex(h, t).Some? && WakeIndex(h, t, OffIndex(h, t).value).Some?
  }

  ghost function PendIndex(h: seq<WperfEvent>, t: u32): Option<nat> {
    if h == [] then None
    else
      var n := |h| - 1;
      if Resumes(h[..n], h[n], t) then Some(n)
      else if LeavesCpu(h[n], t) || Exits(h[n], t) then None
      else PendIndex(h[..n], t)
  }

  lemma {:induction false} OffIndexMeaning(h: seq<WperfEvent>, t: u32)
    ensures forall i: nat :: OffSince(h, t, i) <==> OffIndex(h, t) == Some(i)
  {
    if h != [] {
      var n := |h| - 1;
      OffIndexMeaning(h[..n], t);
      forall i: nat ensures OffSince(h, t, i) <==> OffIndex(h, t) == Some(i) {
        if i < n {
          assert OffSince(h, t, i) <==>
            OffSince(h[..n], t, i) && !BlocksOut(h[n], t) && !ComesIn(h[n], t) && !Exits(h[n], t);
        }
      }
    }
  }

  lemma {:induction false} WakeIndexMeaning(h: seq<WperfEvent>, t: u32, i: nat)
    ensures forall k: nat :: LastWakeup(h, t, i, k) <==> WakeIndex(h, t, i) == Some(k)
  {
    if |h| > i + 1 {
      var n := |h| - 1;
      WakeIndexMeaning(h[..n], t, i);
      forall k: nat ensures LastWakeup(h, t, i, k) <==> WakeIndex(h, t, i) == Some(k) {
        if k < n {
          assert LastWakeup(h, t, i, k) <==> LastWakeup(h[..n], t, i, k) && !Wakes(h[n], t);
        }
      }
    }
  }

  lemma {:induction false} FutexIndexMeaning(h: seq<WperfEvent>, t: u32)
    ensures forall f: nat :: FutexSince(h, t, f) <==> FutexIndex(h, t) == Some(f)
  {
    if h != [] {
      var n := |h| - 1;
      FutexIndexMeaning(h[..n], t);
      forall f: nat ensures FutexSince(h, t, f) <==> FutexIndex(h, t) == Some(f) {
        if f < n {
          assert FutexSince(h, t, f) <==>
            FutexSince(h[..n], t, f) && !EntersFutex(h[n], t) && !BlocksOut(h[n], t) && !Exits(h[n], t);
        }
      }
    }
  }

  lemma {:induction false} IoIndexMeaning(h: seq<WperfEvent>, key: IoKey)
    ensures forall i: nat :: InFlight(h, key, i) <==> IoIndex(h, key) == Some(i)
  {
    if h != [] {
      var n := |h| - 1;
      IoIndexMeaning(h[..n], key);
      forall i: nat ensures InFlight(h, key, i) <==> IoIndex(h, key) == Some(i) {
        if i < n {
          assert InFlight(h, key, i) <==> InFlight(h[..n], key, i) && !TouchesIo(h[n], key);
        }
      }
    }
  }

  /** A resumption is an episode, at the computed positions. */
  lemma ResumesMeaning(h: seq<WperfEvent>, j: nat, t: u32)
    requires j < |h|
    ensures Resumes(h[..j], h[j], t) <==> exists i: nat, k: nat :: Episode(h, t, i, k, j)
    ensures forall i: nat, k: nat :: Episode(h, t, i, k, j) <==>
              && Resumes(h[..j], h[j], t) && OffIndex(h[..j], t) == Some(i)
              && WakeIndex(h[..j], t, i) == Some(k)
  {
    var p := h[..j];
    OffIndexMeaning(p, t);
    forall i: nat, k: nat
      ensures Episode(h, t, i, k, j) <==>
                Resumes(p, h[j], t) && OffIndex(p, t) == Some(i) && WakeIndex(p, t, i) == Some(k)
    {
      WakeIndexMeaning(p, t, i);
    }
    if Resumes(p, h[j], t) {
      var i := OffIndex(p, t).value;
      WakeIndexMeaning(p, t, i);
      assert Episode(h, t, i, WakeIndex(p, t, i).value, j);
    }
  }

  lemma {:induction false} OffIndexInRange(h: seq<WperfEvent>, t: u32)
    ensures OffIndex(h, t).Some? ==> OffIndex(h, t).value < |h| && BlocksOut(h[OffIndex(h, t).value], t)
  {
    if h != [] {
      OffIndexInRange(h[..|h| - 1], t);
    }
  }

  lemma {:induction false} WakeIndexInRange(h: seq<WperfEvent>, t: u32, i: nat)
    ensures WakeIndex(h, t, i).Some? ==> i < WakeIndex(h, t, i).value < |h| && Wakes(h[WakeIndex(h, t, i).value], t)
  {
    if |h| > i + 1 {
      WakeIndexInRange(h[..|h| - 1], t, i);
    }
  }

  lemma {:induction false} PendIndexInRange(h: seq<WperfEvent>, t: u32)
    ensures PendIndex(h, t).Some? ==>
              var j := PendIndex(h, t).value; j < |h| && Resumes(h[..j], h[j], t)
    ensures OffIndex(h, t).Some? ==> PendIndex(h, t).None?
  {
    if h != [] {
      var n := |h| - 1;
      PendIndexInRange(h[..n], t);
      if PendIndex(h[..n], t).Some? {
        var j := PendIndex(h[..n], t).value;
        assert h[..n][..j] == h[..j];
      }
    }
  }

  /** A deferred edge stands exactly for an episode that `t` has not yet
      followed by leaving the CPU or exiting; there is never a second one. */
  lemma {:induction false} PendIndexMeaning(h: seq<WperfEvent>, t: u32)
    ensures forall j: nat :: PendIndex(h, t) == Some(j) <==>
              j < |h| && Resumes(h[..j], h[j], t) && StillOnCpu(h, t, j)
  {
    PendIndexInRange(h, t);
    if h != [] {
      var n := |h| - 1;
      PendIndexMeaning(h[..n], t);
      PendIndexInRange(h[..n], t);
      forall j: nat
        ensures PendIndex(h, t) == Some(j) <==> j < |h| && Resumes(h[..j], h[j], t) && StillOnCpu(h, t, j)
      {
        if j < n {
          assert h[..n][..j] == h[..j];
          assert StillOnCpu(h, t, j) <==> StillOnCpu(h[..n], t, j) && !LeavesCpu(h[n], t) && !Exits(h[n], t);
        }
      }
    }
  }
}
