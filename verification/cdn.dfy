/**
 * The CDN's fixed-window rate limiter and its compress-or-pass-through choice.
 * Times are nanoseconds since the epoch, passed in by the caller instead of
 * being read from the clock; gzip is a parameter.
 */
module Cdn {

  /** The window length, 60 seconds in nanoseconds. */
  const Window: nat := 60_000_000_000

  /** Requests counted for one IP, and when its window started. */
  datatype Entry = Entry(count: nat, start: nat)

  /** The limiter state: the entry of every IP seen so far. */
  type Entries = map<string, Entry>

  /** Every window start lies no later than `now`, so its elapsed time is
      defined (the source unwraps it and panics otherwise). */
  predicate StartedBy(entries: Entries, now: nat)
  {
    forall ip :: ip in entries ==> entries[ip].start <= now
  }

  /** One call of the limiter at time `now`: an unseen IP starts a window at
      `now` with count 0; then the request is refused when the count already
      exceeds `maxRequests` inside the window, the window restarts with count 1
      once 60 seconds have passed, and otherwise the count grows by one. */
  function Step(entries: Entries, ip: string, maxRequests: nat, now: nat): (r: (bool, Entries))
    requires ip in entries ==> entries[ip].start <= now
    ensures ip in r.1 && r.1.Keys == entries.Keys + {ip}
    ensures forall other :: other in entries && other != ip ==> r.1[other] == entries[other]
    ensures var e := if ip in entries then entries[ip] else Entry(0, now);
            && (!r.0 <==> e.count > maxRequests && now - e.start < Window)
            && (!r.0 ==> r.1[ip] == e)
            && (r.0 && now - e.start >= Window ==> r.1[ip] == Entry(1, now))
            && (r.0 && now - e.start < Window ==> r.1[ip] == Entry(e.count + 1, e.start))
  {
    var e := if ip in entries then entries[ip] else Entry(0, now);
    var elapsed := now - e.start;
    if e.count > maxRequests && elapsed < Window then (false, entries[ip := e])
    else if elapsed >= Window then (true, entries[ip := Entry(1, now)])
    else (true, entries[ip := Entry(e.count + 1, e.start)])
  }

  class RateLimiter {
    var entries: Entries

    constructor ()
      ensures entries == map[]
    {
      entries := map[];
    }

    /** Whether the request from `ip` at time `now` may go ahead. */
    method RateLimit(ip: string, maxRequests: nat, now: nat) returns (allowed: bool)
      requires ip in entries ==> entries[ip].start <= now
      modifies this
      ensures (allowed, entries) == Step(old(entries), ip, maxRequests, now)
    {
      if ip !in entries {
        entries := entries[ip := Entry(0, now)];
      }
      var e := entries[ip];
      if e.count > maxRequests && now - e.start < Window {
        assert entries == old(entries)[ip := e];
        return false;
      } else if now - e.start >= Window {
        entries := entries[ip := Entry(1, now)];
        assert entries == old(entries)[ip := Entry(1, now)];
      } else {
        entries := entries[ip := Entry(e.count + 1, e.start)];
        assert entries == old(entries)[ip := Entry(e.count + 1, e.start)];
      }
      allowed := true;
    }
  }

  // ---------------------------------------------------------------------------
  // A window of requests
  // ---------------------------------------------------------------------------

  /** The requests at `times` from one IP whose window started at `start`, all
      inside that window: how many are allowed, and the final entries. */
  function Replay(entries: Entries, ip: string, maxRequests: nat, times: seq<nat>): (r: (nat, Entries))
    requires ip in entries
    requires forall k :: 0 <= k < |times| ==> entries[ip].start <= times[k] < entries[ip].start + Window
    ensures ip in r.1 && r.1[ip].start == entries[ip].start
    ensures r.0 <= |times|
    decreases |times|
  {
    if |times| == 0 then (0, entries)
    else
      var (allowed, next) := Step(entries, ip, maxRequests, times[0]);
      var (rest, final) := Replay(next, ip, maxRequests, times[1..]);
      ((if allowed then 1 else 0) + rest, final)
  }

  /** Inside one window an IP whose count is `c` gets at most
      `maxRequests + 1 - c` more requests through, and none once `c` exceeds
      `maxRequests`. */
  lemma {:induction false} ReplayBound(entries: Entries, ip: string, maxRequests: nat, times: seq<nat>)
    requires ip in entries
    requires forall k :: 0 <= k < |times| ==> entries[ip].start <= times[k] < entries[ip].start + Window
    ensures var c := entries[ip].count;
            Replay(entries, ip, maxRequests, times).0 <= if c > maxRequests then 0 else maxRequests + 1 - c
    decreases |times|
  {
    if |times| > 0 {
      var next := Step(entries, ip, maxRequests, times[0]).1;
      ReplayBound(next, ip, maxRequests, times[1..]);
    }
  }

  /** A fresh IP whose first request opens the window gets at most
      `maxRequests + 1` requests through within 60 seconds of it. */
  lemma WindowBound(entries: Entries, ip: string, maxRequests: nat, first: nat, later: seq<nat>)
    requires ip !in entries
    requires forall k :: 0 <= k < |later| ==> first <= later[k] < first + Window
    ensures var (allowed, next) := Step(entries, ip, maxRequests, first);
            && allowed && next[ip] == Entry(1, first)
            && 1 + Replay(next, ip, maxRequests, later).0 <= maxRequests + 1
  {
    var next := Step(entries, ip, maxRequests, first).1;
    ReplayBound(next, ip, maxRequests, later);
  }

  // ---------------------------------------------------------------------------
  // Compression
  // ---------------------------------------------------------------------------

  /** Text and JavaScript are gzip-compressed; everything else is served as is. */
  predicate Compressible(mimeType: string)
  {
    "text/" <= mimeType || mimeType == "application/javascript"
  }

  function CompressIfNeeded(data: seq<bv8>, mimeType: string, gzip: seq<bv8> -> seq<bv8>): (r: seq<bv8>)
    ensures !Compressible(mimeType) ==> r == data
    ensures Compressible(mimeType) ==> r == gzip(data)
  {
    if Compressible(mimeType) then gzip(data) else data
  }

  /** Images and other binary types pass through unchanged, whatever gzip does. */
  lemma BinaryPassesThrough(data: seq<bv8>, gzip: seq<bv8> -> seq<bv8>)
    ensures CompressIfNeeded(data, "image/png", gzip) == data
    ensures CompressIfNeeded(data, "application/json", gzip) == data
    ensures CompressIfNeeded(data, "text/html", gzip) == gzip(data)
  {
    assert !("text/" <= "image/png") by { assert "image/png"[0] != "text/"[0]; }
    assert !("text/" <= "application/json") by { assert "application/json"[0] != "text/"[0]; }
    assert "text/" <= "text/html" by { assert "text/html"[..5] == "text/"; }
  }
}
