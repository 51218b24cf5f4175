/**
 * The glue that drives a libcurl multi handle from a libuv event loop
 * (uv_curlm_driver.h), as a state machine.
 *
 * The driver's globals become the fields of a `Driver`: whether the multi
 * handle exists, whether its two callbacks are registered, the state of the
 * one timer, and libcurl's socket-to-`socketp` assignment (`assoc`). Every
 * poll handle the socket callback allocates is a `Watch`, holding the socket
 * it was created for, the event mask it was last started with, and its
 * libuv state. The calls the driver makes into the transfer engine
 * (`curl_multi_socket_action`, `curl_multi_info_check`,
 * `curl_multi_cleanup`) are appended to a ghost `trace`. libuv and libcurl
 * themselves are not modelled: each callback is a method that the
 * surrounding event loop or engine may invoke.
 */
module CurlmDriver {
  import opened Optional

  // libuv poll event bits
  const UV_READABLE: bv32 := 1
  const UV_WRITABLE: bv32 := 2

  // libcurl readiness flags passed to curl_multi_socket_action
  const CURL_CSELECT_IN: bv32 := 1
  const CURL_CSELECT_OUT: bv32 := 2
  const CURL_CSELECT_ERR: bv32 := 4

  // libcurl socket-callback actions
  const CURL_POLL_IN: int := 1
  const CURL_POLL_OUT: int := 2
  const CURL_POLL_INOUT: int := 3
  const CURL_POLL_REMOVE: int := 4

  /** The socket argument that asks libcurl to handle timeouts. */
  const CURL_SOCKET_TIMEOUT: int := -1

  /** `(uint64_t)` of a `long`: wrap-around modulo 2^64. */
  const UINT64_RANGE: int := 0x1_0000_0000_0000_0000

  /** A call from the driver into the transfer engine. */
  datatype EngineCall =
    | SocketAction(sock: int, flags: bv32)
    | InfoCheck
    | MultiCleanup

  /** How the socket callback ends: a return value, or `abort()`. */
  datatype Exit = Returned(code: int) | Aborted

  /** A socket request as libcurl issues it: the socket and the action. */
  datatype Request = Request(sock: int, action: int)

  /**
   * The readiness flags `curl_socket_poll_cb` hands to libcurl for the
   * libuv status `error` and the ready `events`, built up in the same three
   * steps as the C code.
   */
  function SelectFlags(error: int, events: bv32): (flags: bv32)
    ensures error < 0 ==> flags == CURL_CSELECT_ERR
    ensures error > 0 ==> flags == 0
    ensures error == 0 ==>
      && (flags & CURL_CSELECT_IN != 0 <==> events & UV_READABLE != 0)
      && (flags & CURL_CSELECT_OUT != 0 <==> events & UV_WRITABLE != 0)
      && flags & CURL_CSELECT_ERR == 0
      && flags & !(CURL_CSELECT_IN | CURL_CSELECT_OUT) == 0
  {
    var onError := if error < 0 then CURL_CSELECT_ERR else 0;
    var withIn := if error == 0 && events & UV_READABLE != 0 then onError | CURL_CSELECT_IN else onError;
    if error == 0 && events & UV_WRITABLE != 0 then withIn | CURL_CSELECT_OUT else withIn
  }

  /**
   * Without an error the flags are exactly the readable and writable bits of
   * the ready events (the bit values of the two libraries coincide); with an
   * error they never claim readiness.
   */
  lemma SelectFlagsIsReadiness(error: int, events: bv32)
    ensures error == 0 ==> SelectFlags(error, events) == events & (UV_READABLE | UV_WRITABLE)
    ensures error != 0 ==> SelectFlags(error, events) & (CURL_CSELECT_IN | CURL_CSELECT_OUT) == 0
  {
  }

  /**
   * The event mask a socket request starts the watch with: readable for IN,
   * writable for OUT, both for INOUT; no mask for REMOVE or anything else.
   */
  function Interest(action: int): (m: Option<bv32>)
    ensures m.Some? <==> action == CURL_POLL_IN || action == CURL_POLL_OUT || action == CURL_POLL_INOUT
    ensures m.Some? ==>
      && (m.value & UV_READABLE != 0 <==> action != CURL_POLL_OUT)
      && (m.value & UV_WRITABLE != 0 <==> action != CURL_POLL_IN)
      && m.value & !(UV_READABLE | UV_WRITABLE) == 0
  {
    if action == CURL_POLL_IN then Some(UV_READABLE)
    else if action == CURL_POLL_OUT then Some(UV_WRITABLE)
    else if action == CURL_POLL_INOUT then Some(UV_READABLE | UV_WRITABLE)
    else None
  }

  /** The actions the socket callback handles without aborting. */
  predicate KnownAction(action: int)
  {
    action == CURL_POLL_IN || action == CURL_POLL_OUT || action == CURL_POLL_INOUT || action == CURL_POLL_REMOVE
  }

  /**
   * The active watches after one socket request, as a map from socket to
   * event mask: the request's socket is re-armed with the request's mask or,
   * for REMOVE (and an unknown action, which stops it before aborting),
   * has none; the other sockets keep theirs.
   */
  ghost function NextRegistrations(m: map<int, bv32>, r: Request): (next: map<int, bv32>)
  {
    match Interest(r.action)
    case Some(mask) => m[r.sock := mask]
    case None => m - {r.sock}
  }

  /** The active watches after a sequence of socket requests. */
  ghost function ReplayRegistrations(m: map<int, bv32>, rs: seq<Request>): (after: map<int, bv32>)
  {
    if rs == [] then m
    else NextRegistrations(ReplayRegistrations(m, rs[..|rs| - 1]), rs[|rs| - 1])
  }

  /** The mask `m` gives socket `s`, if any. */
  ghost function MaskOf(m: map<int, bv32>, s: int): (mask: Option<bv32>)
  {
    if s in m then Some(m[s]) else None
  }

  /** Two maps that give every socket the same mask are equal. */
  lemma SameMasksSameMap(a: map<int, bv32>, b: map<int, bv32>)
    requires forall s :: MaskOf(a, s) == MaskOf(b, s)
    ensures a == b
  {
    forall s | s in a
      ensures s in b && a[s] == b[s]
    {
      assert MaskOf(a, s) == Some(a[s]);
    }
    forall s | s in b
      ensures s in a
    {
      assert MaskOf(b, s) == Some(b[s]);
    }
  }

  /**
   * A request replaces the socket's mask instead of adding to it, and leaves
   * every other socket alone.
   */
  lemma RequestReplacesMask(m: map<int, bv32>, r: Request, s: int)
    ensures MaskOf(NextRegistrations(m, r), s) == if s == r.sock then Interest(r.action) else MaskOf(m, s)
  {
  }

  /** A socket that no request in `rs` names keeps its mask. */
  lemma {:induction false} UnnamedSocketKeepsMask(m: map<int, bv32>, rs: seq<Request>, s: int)
    requires forall j :: 0 <= j < |rs| ==> rs[j].sock != s
    ensures MaskOf(ReplayRegistrations(m, rs), s) == MaskOf(m, s)
  {
    if rs != [] {
      var front := rs[..|rs| - 1];
      assert forall j :: 0 <= j < |front| ==> front[j] == rs[j];
      UnnamedSocketKeepsMask(m, front, s);
      RequestReplacesMask(ReplayRegistrations(m, front), rs[|rs| - 1], s);
    }
  }

  /**
   * After any sequence of requests a socket's mask is the one the last
   * request for that socket (at position `j`) sets, whatever came before.
   */
  lemma {:induction false} LastRequestWins(m: map<int, bv32>, rs: seq<Request>, j: nat)
    requires j < |rs|
    requires forall k :: j < k < |rs| ==> rs[k].sock != rs[j].sock
    ensures MaskOf(ReplayRegistrations(m, rs), rs[j].sock) == Interest(rs[j].action)
  {
    var front := rs[..|rs| - 1];
    if j < |rs| - 1 {
      assert forall k :: 0 <= k < |front| ==> front[k] == rs[k];
      LastRequestWins(m, front, j);
    }
    RequestReplacesMask(ReplayRegistrations(m, front), rs[|rs| - 1], rs[j].sock);
  }

  /**
   * The pending deadline after a timer request: -1 cancels it, any other
   * value replaces it with that delay converted to `uint64_t`.
   */
  function NextTimer(armed: Option<nat>, timeoutMs: int): (t: Option<nat>)
    ensures t.None? <==> timeoutMs == -1
    ensures t.Some? ==> t.value < UINT64_RANGE && (t.value - timeoutMs) % UINT64_RANGE == 0
    ensures 0 <= timeoutMs < UINT64_RANGE ==> t == Some(timeoutMs)
  {
    if timeoutMs == -1 then None else Some(timeoutMs % UINT64_RANGE)
  }

  /** The pending deadline after a sequence of timer requests. */
  ghost function ReplayTimer(armed: Option<nat>, ts: seq<int>): (t: Option<nat>)
  {
    if ts == [] then armed else NextTimer(ReplayTimer(armed, ts[..|ts| - 1]), ts[|ts| - 1])
  }

  /**
   * Timer requests do not accumulate: after a non-empty sequence of them the
   * deadline is whatever the last one alone sets.
   */
  lemma LastTimerRequestWins(armed: Option<nat>, ts: seq<int>, other: Option<nat>)
    requires ts != []
    ensures ReplayTimer(armed, ts) == NextTimer(other, ts[|ts| - 1])
  {
  }

  /**
   * `curl_debug_cb`: whatever the kind of debug information (text, headers,
   * data, or a kind it ignores), the callback reports success to libcurl.
   */
  function DebugCb(infoType: int, size: nat): (r: int)
    ensures r == 0
  {
    0
  }

  /**
   * A poll handle allocated by the socket callback, together with the
   * socket slot stored in its `data` pointer.
   */
  class Watch {
    const sock: int
    var interest: bv32
    var active: bool
    var closing: bool
    ghost var freed: bool

    /** `xcalloc` of the handle and its socket slot, then `uv_poll_init_socket`. */
    constructor (sock: int)
      ensures this.sock == sock && interest == 0 && !active && !closing && !freed
    {
      this.sock := sock;
      interest := 0;
      active := false;
      closing := false;
      freed := false;
    }
  }

  class Driver {
    /** `curl_multi != NULL` */
    var multi: bool
    /** the timer and socket callbacks are registered with the multi handle */
    var callbacks: bool
    /** `uv_has_ref` of the timer: it has been initialised */
    var timerRef: bool
    /** `uv_is_closing` of the timer */
    var timerClosing: bool
    /** the pending one-shot deadline of the timer, in milliseconds */
    var timerArmed: Option<nat>
    /** libcurl's `curl_multi_assign` table: the watch assigned to each socket */
    var assoc: map<int, Watch>
    ghost var trace: seq<EngineCall>

    /**
     * The assignment table invariant: each socket's watch was created for
     * that socket and is neither closing nor freed.
     */
    ghost predicate Valid()
      reads this, assoc.Values
    {
      forall s :: s in assoc ==> assoc[s].sock == s && !assoc[s].closing && !assoc[s].freed
    }

    /** The sockets currently polled, with the event mask each one is polled for. */
    ghost function Registrations(): (polled: map<int, bv32>)
      reads this, assoc.Values
    {
      map s | s in assoc && assoc[s].active :: assoc[s].interest
    }

    /** The zero-initialised globals: no multi handle, a zeroed timer. */
    constructor ()
      ensures Valid() && !multi && !callbacks && !timerRef && !timerClosing
      ensures timerArmed == None && assoc == map[] && trace == []
    {
      multi := false;
      callbacks := false;
      timerRef := false;
      timerClosing := false;
      timerArmed := None;
      assoc := map[];
      trace := [];
    }

    /** The state `uv_curlm_driver_clean` leaves: no multi handle and no timer left to close. */
    ghost predicate Cleaned()
      reads this
    {
      !multi && (timerRef ==> timerClosing)
    }

    /**
     * `uv_curlm_driver_init`: creates the multi handle (`multiOk` is whether
     * `curl_multi_init` succeeded); on success registers both callbacks and
     * initialises the timer.
     */
    method Init(multiOk: bool) returns (r: int)
      modifies this
      ensures r == if multiOk then 0 else -1
      ensures multi == multiOk
      ensures !multiOk ==>
        && callbacks == old(callbacks) && timerRef == old(timerRef)
        && timerClosing == old(timerClosing) && timerArmed == old(timerArmed)
      ensures multiOk ==> callbacks && timerRef && !timerClosing && timerArmed == None
      ensures assoc == old(assoc) && trace == old(trace)
    {
      multi := multiOk;
      if !multiOk {
        return -1;
      }
      callbacks := true;
      timerRef, timerClosing, timerArmed := true, false, None;
      r := 0;
    }

    /**
     * `uv_curlm_driver_clean`: releases the multi handle if there is one and
     * closes the timer if it is referenced and not already closing. It
     * always returns 0 and always leaves the driver `Cleaned()`; on a driver
     * that is already cleaned it does nothing.
     */
    method Clean() returns (r: int)
      modifies this
      ensures r == 0 && Cleaned()
      ensures trace == old(trace) + (if old(multi) then [MultiCleanup] else [])
      ensures timerClosing == (old(timerClosing) || old(timerRef))
      ensures timerArmed == if old(timerRef) && !old(timerClosing) then None else old(timerArmed)
      ensures timerRef == old(timerRef) && callbacks == old(callbacks) && assoc == old(assoc)
      ensures old(Cleaned()) ==> trace == old(trace) && timerClosing == old(timerClosing) && timerArmed == old(timerArmed)
    {
      if multi {
        trace := trace + [MultiCleanup];
        multi := false;
      }
      if timerRef && !timerClosing {
        // uv_close stops an active timer before closing it
        timerClosing, timerArmed := true, None;
      }
      r := 0;
    }

    /**
     * `curl_multi_timer_start_cb`: -1 stops the timer; any other timeout
     * (re)starts it as a one-shot timer with that delay.
     */
    method TimerRequest(timeoutMs: int)
      modifies this
      ensures timerArmed == NextTimer(old(timerArmed), timeoutMs)
      ensures multi == old(multi) && callbacks == old(callbacks) && timerRef == old(timerRef)
      ensures timerClosing == old(timerClosing) && assoc == old(assoc) && trace == old(trace)
    {
      if timeoutMs == -1 {
        timerArmed := None;
        return;
      }
      timerArmed := Some(timeoutMs % UINT64_RANGE);
    }

    /**
     * `curl_multi_timer_cb`, run by the loop when the pending deadline
     * expires: the one-shot timer is no longer armed, and libcurl is told
     * about the timeout and then asked for finished transfers.
     */
    method TimerFire()
      requires timerArmed.Some?
      modifies this
      ensures timerArmed == None
      ensures trace == old(trace) + [SocketAction(CURL_SOCKET_TIMEOUT, 0), InfoCheck]
      ensures multi == old(multi) && callbacks == old(callbacks) && timerRef == old(timerRef)
      ensures timerClosing == old(timerClosing) && assoc == old(assoc)
    {
      timerArmed := None;
      trace := trace + [SocketAction(CURL_SOCKET_TIMEOUT, 0), InfoCheck];
    }

    /**
     * The first half of `curl_socket_poll_start_cb`: the watch libcurl
     * passes back, or a new stopped watch for `sock`, which is then assigned
     * to `sock`. Nothing that is polled changes.
     */
    method AttachWatch(sock: int, socketp: Watch?) returns (w: Watch)
      requires Valid()
      requires socketp == if sock in assoc then assoc[sock] else null
      modifies this
      ensures Valid() && assoc == old(assoc)[sock := w]
      ensures w.sock == sock && !w.closing && !w.freed
      ensures socketp == null ==> fresh(w) && !w.active
      ensures socketp != null ==> w == socketp
      ensures Registrations() == old(Registrations())
      ensures multi == old(multi) && callbacks == old(callbacks) && timerRef == old(timerRef)
      ensures timerClosing == old(timerClosing) && timerArmed == old(timerArmed) && trace == old(trace)
    {
      if socketp != null {
        w := socketp;
      } else {
        w := new Watch(sock);
        assoc := assoc[sock := w];
        assert Registrations() == old(Registrations());
      }
    }

    /**
     * `curl_socket_poll_start_cb`: libcurl passes back the watch assigned to
     * `sock`, or null when there is none, in which case a new watch is
     * created and assigned. The watch is stopped, then re-armed with exactly
     * the requested mask, or closed and unassigned on REMOVE; an unknown
     * action aborts. `w` is the watch the request worked on.
     */
    method SocketRequest(sock: int, action: int, socketp: Watch?) returns (r: Exit, w: Watch)
      requires Valid()
      requires socketp == if sock in assoc then assoc[sock] else null
      modifies this, socketp
      ensures Valid()
      ensures r == if KnownAction(action) then Returned(0) else Aborted
      ensures socketp == null ==> fresh(w) && w.sock == sock && !w.freed
      ensures socketp != null ==> w == socketp
      ensures Interest(action).Some? ==>
        && assoc == old(assoc)[sock := w] && w.active && !w.closing
        && w.interest == Interest(action).value
      ensures action == CURL_POLL_REMOVE ==>
        assoc == old(assoc) - {sock} && !w.active && w.closing && !w.freed
      ensures !KnownAction(action) ==> assoc == old(assoc)[sock := w] && !w.active && !w.closing
      ensures Registrations() == NextRegistrations(old(Registrations()), Request(sock, action))
      ensures multi == old(multi) && callbacks == old(callbacks) && timerRef == old(timerRef)
      ensures timerClosing == old(timerClosing) && timerArmed == old(timerArmed) && trace == old(trace)
    {
      w := AttachWatch(sock, socketp);
      r := Rearm(w, action);
    }

    /**
     * The second half of `curl_socket_poll_start_cb`: the watch assigned to
     * its socket is stopped, then started with exactly the mask of the
     * action, or closed and unassigned on REMOVE; an unknown action aborts
     * with the watch stopped.
     */
    method Rearm(w: Watch, action: int) returns (r: Exit)
      requires Valid() && w.sock in assoc && assoc[w.sock] == w
      modifies this, w
      ensures Valid()
      ensures r == if KnownAction(action) then Returned(0) else Aborted
      ensures w.active == Interest(action).Some? && (w.active ==> w.interest == Interest(action).value)
      ensures w.closing == (action == CURL_POLL_REMOVE) && !w.freed
      ensures assoc == if action == CURL_POLL_REMOVE then old(assoc) - {w.sock} else old(assoc)
      ensures Registrations() == NextRegistrations(old(Registrations()), Request(w.sock, action))
      ensures multi == old(multi) && callbacks == old(callbacks) && timerRef == old(timerRef)
      ensures timerClosing == old(timerClosing) && timerArmed == old(timerArmed) && trace == old(trace)
    {
      ghost var before := Registrations();
      w.active := false;
      r := Returned(0);
      if action == CURL_POLL_IN {
        w.interest, w.active := UV_READABLE, true;
      } else if action == CURL_POLL_OUT {
        w.interest, w.active := UV_WRITABLE, true;
      } else if action == CURL_POLL_INOUT {
        w.interest, w.active := UV_READABLE | UV_WRITABLE, true;
      } else if action == CURL_POLL_REMOVE {
        w.closing := true;
        assoc := assoc - {w.sock};
      } else {
        r := Aborted;
      }

      // no watch but `w` changed
      forall s
        ensures MaskOf(Registrations(), s) == MaskOf(NextRegistrations(before, Request(w.sock, action)), s)
      {
        RequestReplacesMask(before, Request(w.sock, action), s);
        if s != w.sock && s in assoc {
          assert assoc[s] == old(assoc)[s] && assoc[s] != w;
        }
      }
      SameMasksSameMap(Registrations(), NextRegistrations(before, Request(w.sock, action)));
    }

    /**
     * `curl_socket_poll_cb`, run by the loop for an active watch: libcurl is
     * told the readiness of the watch's own socket, then asked for finished
     * transfers.
     */
    method SocketReady(w: Watch, error: int, events: bv32)
      requires w.active && !w.closing && !w.freed
      modifies this
      ensures trace == old(trace) + [SocketAction(w.sock, SelectFlags(error, events)), InfoCheck]
      ensures multi == old(multi) && callbacks == old(callbacks) && timerRef == old(timerRef)
      ensures timerClosing == old(timerClosing) && timerArmed == old(timerArmed) && assoc == old(assoc)
    {
      var flags := SelectFlags(error, events);
      trace := trace + [SocketAction(w.sock, flags), InfoCheck];
    }

    /**
     * `curl_socket_poll_free_cb`, run by the loop once a watch closed by a
     * REMOVE request has finished closing: the socket slot and the handle
     * are freed. The assignment table no longer names the watch.
     */
    method PollFree(w: Watch)
      requires Valid()
      requires w.closing && !w.freed
      modifies w
      ensures w.freed && Valid()
      ensures w.sock !in assoc || assoc[w.sock] != w
    {
      w.freed := true;
    }
  }
}
