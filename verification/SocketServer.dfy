/**
 One client session over a socket whose reads and writes may be split and interrupted at will.
 Every choice the operating system makes is a nondeterministic one here, so what the methods
 promise holds for every schedule.
 */
module SocketServers {
  import opened ByteStrings
  import opened Frames

  datatype Readiness = Ready | TimedOut | Interrupted | Failed

  /** The result of a read or a write: bytes moved, or why none were. */
  datatype Transfer = Moved(n: nat) | Retry | Broken

  /** The operating system's side of a connection. */
  class Connection {
    /** What the peer sent and nobody has read yet; after it the stream ends. */
    var incoming: Octets
    /** What has been written to the peer. */
    var outgoing: Octets
    /** How many more interruptions and empty writes are to come: any finite number. */
    var stalls: nat
    /** No call fails, none times out, and the server is not stopped. */
    const clean: bool

    constructor (incoming: Octets, stalls: nat, clean: bool)
      ensures this.incoming == incoming && outgoing == [] && this.stalls == stalls && this.clean == clean
    {
      this.incoming, outgoing, this.stalls, this.clean := incoming, [], stalls, clean;
    }

    method Poll() returns (r: Readiness)
      modifies this`stalls
      ensures stalls <= old(stalls) && (r.Interrupted? ==> stalls < old(stalls))
      ensures clean ==> r.Ready? || r.Interrupted?
    {
      r := Ready;
      if * {
        if stalls > 0 { stalls, r := stalls - 1, Interrupted; }
      } else if !clean {
        if * { r := TimedOut; } else { r := Failed; }
      }
    }

    /** Moves some of what is there, at least one byte, into the buffer from `at` on; none at the end of the stream. */
    method Read(buffer: array<Octet>, at: nat) returns (r: Transfer)
      requires at < buffer.Length
      modifies this`incoming, this`stalls, buffer
      ensures stalls <= old(stalls) && (r.Retry? ==> stalls < old(stalls))
      ensures clean ==> !r.Broken?
      ensures r.Moved? ==>
                && r.n <= buffer.Length - at && r.n <= |old(incoming)|
                && (r.n == 0 ==> !clean || old(incoming) == [])
                && incoming == old(incoming)[r.n..]
                && buffer[at..at + r.n] == old(incoming)[..r.n]
      ensures !r.Moved? ==> incoming == old(incoming)
      ensures buffer[..at] == old(buffer[..at])
    {
      if * {
        if stalls > 0 {
          stalls := stalls - 1;
          return Retry;
        }
      } else if !clean {
        if * { return Broken; } else { return Moved(0); }
      }
      if incoming == [] { return Moved(0); }
      var n :| 1 <= n <= |incoming| && n <= buffer.Length - at;
      forall i | 0 <= i < n {
        buffer[at + i] := incoming[i];
      }
      incoming := incoming[n..];
      return Moved(n);
    }

    /** Takes some of the bytes, possibly none. */
    method Write(data: Octets) returns (r: Transfer)
      requires data != []
      modifies this`outgoing, this`stalls
      ensures stalls <= old(stalls) && (r.Retry? || r == Moved(0) ==> stalls < old(stalls))
      ensures clean ==> !r.Broken?
      ensures r.Moved? ==> r.n <= |data| && outgoing == old(outgoing) + data[..r.n]
      ensures !r.Moved? ==> outgoing == old(outgoing)
    {
      if * {
        if stalls > 0 {
          stalls := stalls - 1;
          if * { return Retry; } else { return Moved(0); }
        }
      } else if !clean {
        return Broken;
      }
      var n :| 1 <= n <= |data|;
      outgoing := outgoing + data[..n];
      return Moved(n);
    }

    /** Whether the server is still running; `stop` may come from elsewhere at any time. */
    method Running() returns (running: bool)
      ensures clean ==> running
    {
      running := true;
      if !clean { running := *; }
    }
  }

  /** Fills the whole buffer from the stream, or fails. */
  method ReadExact(conn: Connection, out: array<Octet>) returns (ok: bool)
    modifies conn`incoming, conn`stalls, out
    ensures ok ==>
              && out.Length <= |old(conn.incoming)|
              && out[..] == old(conn.incoming)[..out.Length]
              && conn.incoming == old(conn.incoming)[out.Length..]
    ensures !ok ==> !conn.clean || |old(conn.incoming)| < out.Length
  {
    ghost var all := conn.incoming;
    var got := 0;
    while got < out.Length
      invariant 0 <= got <= out.Length && got <= |old(conn.incoming)|
      invariant out[..got] == old(conn.incoming)[..got]
      invariant conn.incoming == old(conn.incoming)[got..]
      decreases out.Length - got + conn.stalls
    {
      var p := conn.Poll();
      if p.TimedOut? { return false; }
      if p.Interrupted? { continue; }
      if p.Failed? { return false; }
      var r := conn.Read(out, got);
      if r == Moved(0) { return false; }
      if r.Retry? { continue; }
      if r.Broken? { return false; }
      assert out[..got + r.n] == out[..got] + out[got..got + r.n];
      assert all[..got + r.n] == all[..got] + all[got..][..r.n];
      got := got + r.n;
    }
    return true;
  }

  /** Writes all of the data, or a part of it and fails. */
  method WriteExact(conn: Connection, data: Octets) returns (ok: bool)
    modifies conn`outgoing, conn`stalls
    ensures ok ==> conn.outgoing == old(conn.outgoing) + data
    ensures old(conn.outgoing) <= conn.outgoing <= old(conn.outgoing) + data
    ensures conn.clean ==> ok
  {
    var sent := 0;
    while sent < |data|
      invariant 0 <= sent <= |data|
      invariant conn.outgoing == old(conn.outgoing) + data[..sent]
      decreases |data| - sent + conn.stalls
    {
      var w := conn.Write(data[sent..]);
      if w.Retry? { continue; }
      if w.Broken? { return false; }
      assert data[..sent + w.n] == data[..sent] + data[sent..][..w.n];
      sent := sent + w.n;
    }
    assert data[..sent] == data;
    return true;
  }

  /** Without a handler every request gets the empty response. */
  function Installed(handler: Option<Handler>): Handler {
    if handler.Some? then handler.value else (past, request) => []
  }

  /** The bytes that answer one request. */
  function Reply(response: Octets): Octets {
    if response == [] then NetLong(0) else Frame(response)
  }

  function AllButLast(requests: seq<Octets>): seq<Octets> {
    if requests == [] then [] else requests[..|requests| - 1]
  }

  /** The bytes that answer a list of requests. */
  function Replies(h: Handler, requests: seq<Octets>): Octets {
    if requests == [] then [] else
      var past := AllButLast(requests);
      Replies(h, past) + Reply(h(past, requests[|requests| - 1]))
  }

  lemma OneMoreReply(h: Handler, past: seq<Octets>, p: Octets)
    ensures AllButLast(past + [p]) == past
    ensures Replies(h, past + [p]) == Replies(h, past) + Reply(h(past, p))
  {
    assert AllButLast(past + [p]) == past;
  }

  /** The requests `done` and what the rest of the stream asks for make up the whole session. */
  ghost predicate Remains(h: Handler, done: seq<Octets>, rest: Octets, whole: Log) {
    var next := Session(h, done, rest);
    whole == Log(done + next.requests, Replies(h, done) + next.output)
  }

  lemma SessionStarts(h: Handler, s: Octets)
    ensures Remains(h, [], s, Session(h, [], s))
  {
  }

  /** One more request served. */
  lemma SessionGoesOn(h: Handler, done: seq<Octets>, rest: Octets, whole: Log, p: Octets)
    requires Remains(h, done, rest, whole) && FirstPayload(rest, MAX_FRAME) == Some(p)
    ensures var now := done + [p];
            && (h(done, p) == [] ==> whole == Log(now, Replies(h, now)))
            && (h(done, p) != [] ==> Remains(h, now, rest[4 + |p|..], whole))
            && now <= whole.requests && Replies(h, now) <= whole.output
  {
    OneMoreReply(h, done, p);
    if h(done, p) != [] {
      var next := Session(h, done + [p], rest[4 + |p|..]);
      Regroup(done, [p], next.requests);
      Regroup(Replies(h, done), Reply(h(done, p)), next.output);
    }
  }

  /** Reads one length and the payload behind it; a bad length or a short read gives none. */
  method ReadFrame(conn: Connection) returns (payload: Option<Octets>)
    modifies conn`incoming, conn`stalls
    ensures payload.Some? ==>
              && FirstPayload(old(conn.incoming), MAX_FRAME) == payload
              && conn.incoming == old(conn.incoming)[4 + |payload.value|..]
    ensures payload.None? && conn.clean ==> FirstPayload(old(conn.incoming), MAX_FRAME).None?
  {
    ghost var all := conn.incoming;
    var netLen := new Octet[4];
    var ok := ReadExact(conn, netLen);
    if !ok { return None; }
    var len := HostLong(netLen[..]);
    if len == 0 || len > MAX_FRAME { return None; }
    var buffer := new Octet[len];
    ok := ReadExact(conn, buffer);
    if !ok { return None; }
    assert buffer[..] == all[4..4 + len] && conn.incoming == all[4 + len..];
    return Some(buffer[..]);
  }

  /** Writes a response behind its length; an empty one is a zero length. */
  method WriteResponse(conn: Connection, response: Octets) returns (ok: bool)
    modifies conn`outgoing, conn`stalls
    ensures var bytes := Reply(response);
            && (ok ==> conn.outgoing == old(conn.outgoing) + bytes)
            && old(conn.outgoing) <= conn.outgoing <= old(conn.outgoing) + bytes
    ensures conn.clean ==> ok
  {
    ok := WriteExact(conn, NetLong(|response| % U32_RANGE));
    if ok && response != [] {
      Regroup(old(conn.outgoing), NetLong(|response| % U32_RANGE), response);
      ok := WriteExact(conn, response);
    }
  }

  /**
   The handler saw a prefix of the session's requests, and the client got the replies to them, all
   but the last in full; on a clean connection all requests were served and all replies complete.
   */
  ghost predicate Served(h: Handler, requests: seq<Octets>, before: Octets, after: Octets, whole: Log, clean: bool) {
    && requests <= whole.requests && Replies(h, requests) <= whole.output
    && before + Replies(h, AllButLast(requests)) <= after <= before + Replies(h, requests)
    && (clean ==> requests == whole.requests && after == before + whole.output)
  }

  lemma StoppedBetween(h: Handler, done: seq<Octets>, rest: Octets, whole: Log, before: Octets, clean: bool)
    requires Remains(h, done, rest, whole) && (clean ==> FirstPayload(rest, MAX_FRAME).None?)
    ensures Served(h, done, before, before + Replies(h, done), whole, clean)
  {
  }

  lemma StoppedWriting(h: Handler, past: seq<Octets>, p: Octets, whole: Log, before: Octets, after: Octets, clean: bool)
    requires past + [p] <= whole.requests && Replies(h, past + [p]) <= whole.output
    requires before + Replies(h, past) <= after <= before + Replies(h, past + [p])
    requires clean ==> whole == Log(past + [p], Replies(h, past + [p])) && after == before + whole.output
    ensures Served(h, past + [p], before, after, whole, clean)
  {
    OneMoreReply(h, past, p);
  }

  /** One round of the session: a frame in, a response out. */
  method ServeOne(conn: Connection, h: Handler, past: seq<Octets>, ghost before: Octets, ghost whole: Log)
    returns (more: bool, requests: seq<Octets>)
    requires Remains(h, past, conn.incoming, whole) && conn.outgoing == before + Replies(h, past)
    modifies conn
    ensures more ==>
              && Remains(h, requests, conn.incoming, whole) && conn.outgoing == before + Replies(h, requests)
              && |conn.incoming| < |old(conn.incoming)|
    ensures !more ==> Served(h, requests, before, conn.outgoing, whole, conn.clean)
  {
    ghost var rest := conn.incoming;
    var payload := ReadFrame(conn);
    if payload.None? {
      StoppedBetween(h, past, rest, whole, before, conn.clean);
      return false, past;
    }
    var p := payload.value;
    SessionGoesOn(h, past, rest, whole, p);
    var response := h(past, p);
    var ok := WriteResponse(conn, response);
    OneMoreReply(h, past, p);
    Regroup(before, Replies(h, past), Reply(response));
    if !ok || response == [] {
      StoppedWriting(h, past, p, whole, before, conn.outgoing, conn.clean);
      return false, past + [p];
    }
    return true, past + [p];
  }

  /** Serves one client until the stream ends, something fails or the server stops. */
  method HandleClient(conn: Connection, handler: Option<Handler>) returns (requests: seq<Octets>)
    modifies conn
    ensures Served(Installed(handler), requests, old(conn.outgoing), conn.outgoing,
                   Session(Installed(handler), [], old(conn.incoming)), conn.clean)
  {
    var h := Installed(handler);
    ghost var before, whole := conn.outgoing, Session(h, [], conn.incoming);
    requests := [];
    SessionStarts(h, conn.incoming);
    var running := conn.Running();
    while running
      invariant Remains(h, requests, conn.incoming, whole)
      invariant conn.outgoing == before + Replies(h, requests)
      invariant conn.clean ==> running
      decreases |conn.incoming|
    {
      var more;
      more, requests := ServeOne(conn, h, requests, before, whole);
      if !more { return; }
      running := conn.Running();
    }
    StoppedBetween(h, requests, conn.incoming, whole, before, conn.clean);
  }
}
