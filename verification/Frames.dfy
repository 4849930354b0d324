/** Length-prefixed frames and the conversation a client session makes of a byte stream. */
module Frames {
  import opened ByteStrings

  const U32_RANGE := 0x1_0000_0000
  const MAX_FRAME := 8 * 1024 * 1024

  /** A 32-bit number in network byte order. */
  function NetLong(n: int): (s: Octets)
    requires 0 <= n < U32_RANGE
    ensures |s| == 4
  {
    var high, low := n / 0x1_0000, n % 0x1_0000;
    [high / 0x100, high % 0x100, low / 0x100, low % 0x100]
  }

  lemma HighDigits(n: int)
    requires 0 <= n < U32_RANGE
    ensures n / 0x1_0000 / 0x100 == n / 0x100_0000 && n / 0x100_0000 % 0x100 == n / 0x100_0000
  {
  }

  lemma LowDigits(n: int)
    requires 0 <= n
    ensures n % 0x1_0000 / 0x100 == n / 0x100 % 0x100
    ensures n % 0x1_0000 % 0x100 == n % 0x100
  {
    var q, r := n / 0x1_0000, n % 0x1_0000;
    assert n / 0x100 == q * 0x100 + r / 0x100;
  }

  /** The most significant byte goes first. */
  lemma NetLongDigits(n: int)
    requires 0 <= n < U32_RANGE
    ensures NetLong(n) == [n / 0x100_0000 % 0x100, n / 0x1_0000 % 0x100, n / 0x100 % 0x100, n % 0x100]
  {
    HighDigits(n);
    LowDigits(n);
  }

  function HostLong(s: Octets): (n: int)
    requires |s| == 4
    ensures 0 <= n < U32_RANGE
  {
    var (a: int, b: int, c: int, d: int) := (s[0], s[1], s[2], s[3]);
    (a * 0x100 + b) * 0x1_0000 + (c * 0x100 + d)
  }

  /** A payload behind its length; the length is cut to 32 bits. */
  function Frame(payload: Octets): (s: Octets)
    ensures |s| == 4 + |payload|
  {
    NetLong(|payload| % U32_RANGE) + payload
  }

  function Stream(payloads: seq<Octets>): Octets {
    if payloads == [] then [] else Frame(payloads[0]) + Stream(payloads[1..])
  }

  predicate Fits(payload: Octets, limit: int) {
    1 <= |payload| <= limit
  }

  ghost predicate AllFit(payloads: seq<Octets>, limit: int) {
    forall i | 0 <= i < |payloads| :: Fits(payloads[i], limit)
  }

  /** The first payload of a stream, if it is there in full and its length is allowed. */
  function FirstPayload(s: Octets, limit: int): (p: Option<Octets>)
    ensures p.Some? ==> Fits(p.value, limit) && 4 + |p.value| <= |s|
  {
    if |s| < 4 then None else
      var n := HostLong(s[..4]);
      if n == 0 || n > limit || 4 + n > |s| then None else Some(s[4..4 + n])
  }

  /** The payloads of the complete frames, up to the first frame that is cut or has a bad length. */
  function Payloads(s: Octets, limit: int): seq<Octets>
    decreases |s|
  {
    match FirstPayload(s, limit)
    case None => []
    case Some(p) => [p] + Payloads(s[4 + |p|..], limit)
  }

  lemma FirstOfFrame(p: Octets, rest: Octets, limit: int)
    requires Fits(p, limit) && limit < U32_RANGE
    ensures FirstPayload(Frame(p) + rest, limit) == Some(p)
    ensures (Frame(p) + rest)[4 + |p|..] == rest
  {
  }

  lemma PayloadsOfFrame(p: Octets, rest: Octets, limit: int)
    requires Fits(p, limit) && limit < U32_RANGE
    ensures Payloads(Frame(p) + rest, limit) == [p] + Payloads(rest, limit)
  {
    FirstOfFrame(p, rest, limit);
  }

  lemma StreamHead(ps: seq<Octets>, tail: Octets)
    requires ps != []
    ensures Stream(ps) + tail == Frame(ps[0]) + (Stream(ps[1..]) + tail)
  {
    Regroup(Frame(ps[0]), Stream(ps[1..]), tail);
  }

  lemma Regroup<T>(a: seq<T>, b: seq<T>, c: seq<T>)
    ensures (a + b) + c == a + (b + c)
  {
  }

  lemma HeadFirst<T>(s: seq<T>, more: seq<T>)
    requires s != []
    ensures [s[0]] + (s[1..] + more) == s + more
  {
  }

  lemma NothingAround<T>(s: seq<T>)
    ensures [] + s == s && s + [] == s
  {
  }

  /** What is framed is read back, whatever follows. */
  lemma {:induction false} PayloadsOfStream(ps: seq<Octets>, tail: Octets, limit: int)
    requires AllFit(ps, limit) && limit < U32_RANGE
    ensures Payloads(Stream(ps) + tail, limit) == ps + Payloads(tail, limit)
    decreases |ps|
  {
    if ps == [] {
      NothingAround(tail);
      NothingAround(Payloads(tail, limit));
    } else {
      StreamHead(ps, tail);
      PayloadsOfFrame(ps[0], Stream(ps[1..]) + tail, limit);
      PayloadsOfStream(ps[1..], tail, limit);
      HeadFirst(ps, Payloads(tail, limit));
    }
  }

  lemma StreamOfPrefix(ps: seq<Octets>, j: nat)
    requires j < |ps|
    ensures Stream(ps[..j + 1]) == Frame(ps[0]) + Stream(ps[1..][..j])
  {
    assert ps[..j + 1][1..] == ps[1..][..j];
  }

  lemma CutInFirstFrame(ps: seq<Octets>, k: nat, limit: int)
    requires ps != [] && Fits(ps[0], limit) && limit < U32_RANGE && k < |Frame(ps[0])|
    ensures k <= |Stream(ps)| && Payloads(Stream(ps)[..k], limit) == []
  {
  }

  lemma CutAfterFirstFrame(ps: seq<Octets>, k: nat, limit: int)
    requires ps != [] && Fits(ps[0], limit) && limit < U32_RANGE && |Frame(ps[0])| <= k <= |Stream(ps)|
    ensures var n := |Frame(ps[0])|;
            Payloads(Stream(ps)[..k], limit) == [ps[0]] + Payloads(Stream(ps[1..])[..k - n], limit)
  {
    var rest := Stream(ps[1..])[..k - |Frame(ps[0])|];
    assert Stream(ps)[..k] == Frame(ps[0]) + rest;
    PayloadsOfFrame(ps[0], rest, limit);
  }

  /** The first `j` payloads are those whose frames end within the first `k` bytes. */
  ghost predicate EndWithin(ps: seq<Octets>, j: nat, k: int) {
    j <= |ps| && |Stream(ps[..j])| <= k && (j < |ps| ==> k < |Stream(ps[..j + 1])|)
  }

  lemma EndWithinGrows(ps: seq<Octets>, j: nat, k: int)
    requires ps != [] && EndWithin(ps[1..], j, k - |Frame(ps[0])|)
    ensures EndWithin(ps, j + 1, k)
  {
    StreamOfPrefix(ps, j);
    if j + 1 < |ps| { StreamOfPrefix(ps, j + 1); }
  }

  /** A stream cut after `k` bytes yields exactly the frames that end within them. */
  lemma {:induction false} CutStream(ps: seq<Octets>, k: nat, limit: int) returns (j: nat)
    requires AllFit(ps, limit) && limit < U32_RANGE && k <= |Stream(ps)|
    ensures EndWithin(ps, j, k) && Payloads(Stream(ps)[..k], limit) == ps[..j]
    decreases |ps|
  {
    j := 0;
    if ps != [] {
      if k < |Frame(ps[0])| {
        CutInFirstFrame(ps, k, limit);
        StreamOfPrefix(ps, 0);
      } else {
        j := CutStream(ps[1..], k - |Frame(ps[0])|, limit);
        EndWithinGrows(ps, j, k);
        CutAfterFirstFrame(ps, k, limit);
        PrefixGrows(ps, j);
        j := j + 1;
      }
    }
  }

  lemma PrefixGrows<T>(s: seq<T>, j: nat)
    requires j < |s|
    ensures s[..j + 1] == [s[0]] + s[1..][..j]
  {
  }

  // ---- conversations ----

  /** A handler answers a request knowing the requests before it. */
  type Handler = (seq<Octets>, Octets) -> Octets

  /** The requests handed to the handler and the bytes written back. */
  datatype Log = Log(requests: seq<Octets>, output: Octets)

  /** What a session makes of a stream: an empty response is sent as a zero length and ends it. */
  function Session(h: Handler, past: seq<Octets>, s: Octets): Log
    decreases |s|
  {
    match FirstPayload(s, MAX_FRAME)
    case None => Log([], [])
    case Some(p) =>
      var response := h(past, p);
      if response == [] then Log([p], NetLong(0)) else
        var rest := Session(h, past + [p], s[4 + |p|..]);
        Log([p] + rest.requests, Frame(response) + rest.output)
  }

  /** The answers to a list of requests. */
  function Responses(h: Handler, past: seq<Octets>, requests: seq<Octets>): seq<Octets>
    decreases |requests|
  {
    if requests == [] then [] else [h(past, requests[0])] + Responses(h, past + [requests[0]], requests[1..])
  }

  /** If no answer is empty, the session serves every complete frame and frames every answer. */
  lemma {:induction false} SessionServesAll(h: Handler, past: seq<Octets>, s: Octets)
    requires [] !in Responses(h, past, Payloads(s, MAX_FRAME))
    ensures var ps := Payloads(s, MAX_FRAME);
            Session(h, past, s) == Log(ps, Stream(Responses(h, past, ps)))
    decreases |s|
  {
    match FirstPayload(s, MAX_FRAME)
    case None =>
    case Some(p) =>
      var rest := s[4 + |p|..];
      var ps := Payloads(s, MAX_FRAME);
      var answers := Responses(h, past, ps);
      assert ps[0] == p && ps[1..] == Payloads(rest, MAX_FRAME);
      assert answers == [h(past, p)] + Responses(h, past + [p], ps[1..]);
      assert answers[0] == h(past, p) && answers[1..] == Responses(h, past + [p], ps[1..]);
      SessionServesAll(h, past + [p], rest);
  }

  /** A length of zero or beyond the limit ends the session at once. */
  lemma BadLengthEnds(h: Handler, past: seq<Octets>, n: int, rest: Octets)
    requires 0 <= n < U32_RANGE && (n == 0 || n > 8388608)
    ensures Session(h, past, NetLong(n) + rest) == Log([], [])
  {
    assert (NetLong(n) + rest)[..4] == NetLong(n);
  }

  /** An empty answer goes out as four zero bytes and is the last. */
  lemma EmptyAnswerEnds(h: Handler, past: seq<Octets>, p: Octets, rest: Octets)
    requires Fits(p, MAX_FRAME) && h(past, p) == []
    ensures Session(h, past, Frame(p) + rest) == Log([p], [0, 0, 0, 0])
  {
    FirstOfFrame(p, rest, MAX_FRAME);
  }

  /** However it ends, a session serves complete frames only, from the first on. */
  lemma {:induction false} SessionServesPrefix(h: Handler, past: seq<Octets>, s: Octets)
    ensures Session(h, past, s).requests <= Payloads(s, MAX_FRAME)
    decreases |s|
  {
    match FirstPayload(s, MAX_FRAME)
    case None =>
    case Some(p) =>
      SessionServesPrefix(h, past + [p], s[4 + |p|..]);
  }

  // ---- the daemon's own handler ----

  /** An empty request gets an empty answer, any other its type byte followed by a JSON text. */
  function Answer(json: Handler, past: seq<Octets>, request: Octets): Octets {
    if request == [] then [] else [request[0]] + json(past, request)
  }

  predicate SameType(response: Octets, request: Octets) {
    response != [] && request != [] && response[0] == request[0]
  }

  function DaemonHandler(json: Handler): Handler {
    (past, request) => Answer(json, past, request)
  }

  /** Each answer is its request's type byte and the JSON text for it. */
  lemma {:induction false} AnswersEcho(json: Handler, past: seq<Octets>, ps: seq<Octets>)
    requires AllFit(ps, MAX_FRAME)
    ensures var rs := Responses(DaemonHandler(json), past, ps);
            && |rs| == |ps|
            && (forall i | 0 <= i < |ps| :: SameType(rs[i], ps[i]) && rs[i][1..] == json(past + ps[..i], ps[i]))
    decreases |ps|
  {
    if ps != [] {
      var rs := Responses(DaemonHandler(json), past, ps);
      var later := past + [ps[0]];
      AnswersEcho(json, later, ps[1..]);
      assert rs[0] == Answer(json, past, ps[0]) && past + ps[..0] == past;
      forall i | 1 <= i < |ps| ensures SameType(rs[i], ps[i]) && rs[i][1..] == json(past + ps[..i], ps[i]) {
        assert rs[i] == rs[1..][i - 1] && ps[i] == ps[1..][i - 1];
        assert later + ps[1..][..i - 1] == past + ps[..i];
      }
    }
  }

  lemma {:induction false} PayloadsFit(s: Octets, limit: int)
    ensures AllFit(Payloads(s, limit), limit)
    decreases |s|
  {
    match FirstPayload(s, limit)
    case None =>
    case Some(p) => PayloadsFit(s[4 + |p|..], limit);
  }

  /**
   With the daemon's handler every complete frame of every stream is answered, each answer
   starts with its request's type byte, and the zero-length ending never happens.
   */
  lemma DaemonAnswersEveryFrame(json: Handler, s: Octets)
    ensures var ps := Payloads(s, MAX_FRAME);
            var rs := Responses(DaemonHandler(json), [], ps);
            && Session(DaemonHandler(json), [], s) == Log(ps, Stream(rs))
            && |rs| == |ps| && forall i | 0 <= i < |ps| :: SameType(rs[i], ps[i])
  {
    PayloadsFit(s, MAX_FRAME);
    AnswersEcho(json, [], Payloads(s, MAX_FRAME));
    SessionServesAll(DaemonHandler(json), [], s);
  }

  /** Cut anywhere, a stream of framed requests gets the answers to the requests that are complete. */
  lemma DaemonServesCutStream(json: Handler, ps: seq<Octets>, k: nat) returns (j: nat)
    requires AllFit(ps, MAX_FRAME) && k <= |Stream(ps)|
    ensures EndWithin(ps, j, k)
    ensures Session(DaemonHandler(json), [], Stream(ps)[..k])
            == Log(ps[..j], Stream(Responses(DaemonHandler(json), [], ps[..j])))
  {
    j := CutStream(ps, k, MAX_FRAME);
    DaemonAnswersEveryFrame(json, Stream(ps)[..k]);
  }

  /** End to end: a client that frames its requests reads back exactly the answers to them. */
  lemma RequestsGetTheirAnswers(json: Handler, ps: seq<Octets>)
    requires AllFit(ps, 8 * 1024 * 1024)
    requires var rs := Responses(DaemonHandler(json), [], ps); forall i | 0 <= i < |rs| :: |rs[i]| < U32_RANGE
    ensures var log := Session(DaemonHandler(json), [], Stream(ps));
            log.requests == ps && Payloads(log.output, U32_RANGE - 1) == Responses(DaemonHandler(json), [], ps)
  {
    var rs := Responses(DaemonHandler(json), [], ps);
    FramedThenRead(ps, MAX_FRAME);
    DaemonAnswersEveryFrame(json, Stream(ps));
    forall i | 0 <= i < |rs| ensures Fits(rs[i], U32_RANGE - 1) {
      assert SameType(rs[i], ps[i]);
    }
    FramedThenRead(rs, U32_RANGE - 1);
  }

  /** A client can read an answer back exactly when it is not empty and its length fits 32 bits. */
  lemma AnswerReadableIff(answer: Octets)
    ensures FirstPayload(Frame(answer), U32_RANGE - 1) == Some(answer) <==> 1 <= |answer| < U32_RANGE
  {
    if Fits(answer, U32_RANGE - 1) {
      FirstOfFrame(answer, [], U32_RANGE - 1);
      NothingAround(Frame(answer));
    }
  }

  lemma FramedThenRead(ps: seq<Octets>, limit: int)
    requires AllFit(ps, limit) && limit < U32_RANGE
    ensures Payloads(Stream(ps), limit) == ps
  {
    PayloadsOfStream(ps, [], limit);
    NothingAround(Stream(ps));
    NothingAround(ps);
  }
}
