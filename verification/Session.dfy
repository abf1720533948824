/** The session object a request works on, and the cookie decision after it. */
module Session {
  import opened Wrappers
  import opened SessionCodec

  function Lookup(data: Data, key: Text): Option<Text> {
    if key in data then Some(data[key]) else None
  }

  /** The extension handed to request handlers. */
  class SessionExtension {
    var data: Data
    var dirty: bool

    constructor (data: Data)
      ensures this.data == data && !dirty
      ensures Now() == State(data, false)
    {
      this.data := data;
      dirty := false;
    }

    /** The fields as a value. */
    ghost function Now(): State
      reads this
    {
      State(data, dirty)
    }

    method Get(key: Text) returns (value: Option<Text>)
      ensures value == if key in data then Some(data[key]) else None
      ensures (Now(), value) == CallOnSession(Now(), Op.Get(key))
    {
      value := if key in data then Some(data[key]) else None;
    }

    method Insert(key: Text, value: Text) returns (previous: Option<Text>)
      modifies this
      ensures dirty && data == old(data)[key := value]
      ensures previous == if key in old(data) then Some(old(data)[key]) else None
      ensures (Now(), previous) == CallOnSession(old(Now()), Op.Insert(key, value))
    {
      dirty := true;
      previous := if key in data then Some(data[key]) else None;
      data := data[key := value];
    }

    method Remove(key: Text) returns (previous: Option<Text>)
      modifies this
      ensures dirty && data == old(data) - {key}
      ensures previous == if key in old(data) then Some(old(data)[key]) else None
      ensures (Now(), previous) == CallOnSession(old(Now()), Op.Delete(key))
    {
      dirty := true;
      previous := if key in data then Some(data[key]) else None;
      data := data - {key};
    }

    method Clear()
      modifies this
      ensures dirty && data == map[]
      ensures (Now(), None) == CallOnSession(old(Now()), Op.Clear)
    {
      dirty := true;
      data := map[];
    }

    /** The end of the middleware: `entries` is the order in which the map enumerates itself. */
    method CookieDecision(entries: seq<Entry>) returns (header: SetCookie)
      requires Enumerates(entries, data)
      ensures header == Respond(Now(), entries)
      ensures !dirty ==> header == Leave
      ensures dirty && data == map[] ==> header == Expire
      ensures dirty && data != map[] ==> header == Send(Encoded(entries))
    {
      if dirty {
        if data == map[] {
          header := Expire;
        } else {
          var encoded := Encode(entries);
          header := Send(encoded);
        }
      } else {
        header := Leave;
      }
    }
  }

  // ---------------------------------------------------------------------------
  // Requests and the browser
  // ---------------------------------------------------------------------------

  datatype State = State(data: Data, dirty: bool)

  /** What the browser holds: nothing, a cookie whose signature verifies, or one it does not. */
  datatype Cookie = Absent | Signed(text: string) | Unverified(text: string)

  datatype SetCookie = Leave | Expire | Send(text: string)

  datatype Op = Get(key: Text) | Insert(key: Text, value: Text) | Delete(key: Text) | Clear

  function Incoming(cookie: Cookie): Data {
    match cookie
    case Signed(text) => Decoded(text)
    case _ => map[]
  }

  function Respond(s: State, entries: seq<Entry>): SetCookie {
    if !s.dirty then Leave
    else if s.data == map[] then Expire
    else Send(Encoded(entries))
  }

  function Received(cookie: Cookie, header: SetCookie): Cookie {
    match header
    case Leave => cookie
    case Expire => Absent
    case Send(text) => Signed(text)
  }

  /** One call on the extension: the data afterwards and what the caller sees. */
  function Call(data: Data, op: Op): (Data, Option<Text>) {
    match op
    case Get(key) => (data, Lookup(data, key))
    case Insert(key, value) => (data[key := value], Lookup(data, key))
    case Delete(key) => (data - {key}, Lookup(data, key))
    case Clear => (map[], None)
  }

  function CallOnSession(s: State, op: Op): (State, Option<Text>) {
    var (data, result) := Call(s.data, op);
    (State(data, s.dirty || !op.Get?), result)
  }

  function RunOps(s: State, ops: seq<Op>): (State, seq<Option<Text>>)
    decreases |ops|
  {
    if ops == [] then (s, [])
    else
      var (next, result) := CallOnSession(s, ops[0]);
      var (last, results) := RunOps(next, ops[1..]);
      (last, [result] + results)
  }

  /** A request: the calls its handler makes, and the order the final map enumerates in. */
  datatype Request = Request(ops: seq<Op>, entries: seq<Entry>)

  function AfterHandler(cookie: Cookie, request: Request): State {
    RunOps(State(Incoming(cookie), false), request.ops).0
  }

  function Serve(cookie: Cookie, request: Request): (Cookie, seq<Option<Text>>) {
    var (s, results) := RunOps(State(Incoming(cookie), false), request.ops);
    (Received(cookie, Respond(s, request.entries)), results)
  }

  function ServeAll(cookie: Cookie, requests: seq<Request>): (Cookie, seq<seq<Option<Text>>>)
    decreases |requests|
  {
    if requests == [] then (cookie, [])
    else
      var (next, results) := Serve(cookie, requests[0]);
      var (last, more) := ServeAll(next, requests[1..]);
      (last, [results] + more)
  }

  /** Every request enumerates the map it ends with. */
  predicate Plausible(cookie: Cookie, requests: seq<Request>)
    decreases |requests|
  {
    requests == []
    || (&& Enumerates(requests[0].entries, AfterHandler(cookie, requests[0]).data)
        && Plausible(Serve(cookie, requests[0]).0, requests[1..]))
  }

  // ---------------------------------------------------------------------------
  // The reference: one map kept on the server
  // ---------------------------------------------------------------------------

  function RunOnMap(data: Data, ops: seq<Op>): (Data, seq<Option<Text>>)
    decreases |ops|
  {
    if ops == [] then (data, [])
    else
      var (next, result) := Call(data, ops[0]);
      var (last, results) := RunOnMap(next, ops[1..]);
      (last, [result] + results)
  }

  function ServeAllOnMap(data: Data, requests: seq<Request>): (Data, seq<seq<Option<Text>>>)
    decreases |requests|
  {
    if requests == [] then (data, [])
    else
      var (next, results) := RunOnMap(data, requests[0].ops);
      var (last, more) := ServeAllOnMap(next, requests[1..]);
      (last, [results] + more)
  }

  predicate NoEmptyKeys(ops: seq<Op>) { forall i :: 0 <= i < |ops| && ops[i].Insert? ==> ops[i].key != [] }

  /** A handler sees the map, and what it never dirtied it never changed. */
  lemma {:induction false} HandlerSeesMap(s: State, ops: seq<Op>)
    ensures var (s', results) := RunOps(s, ops);
            (s'.data, results) == RunOnMap(s.data, ops) && (!s'.dirty ==> s'.data == s.data && !s.dirty)
    decreases |ops|
  {
    if ops != [] { HandlerSeesMap(CallOnSession(s, ops[0]).0, ops[1..]); }
  }

  lemma {:induction false} EmptyKeyStaysOut(data: Data, ops: seq<Op>)
    requires [] !in data && NoEmptyKeys(ops)
    ensures [] !in RunOnMap(data, ops).0
    decreases |ops|
  {
    if ops != [] { EmptyKeyStaysOut(Call(data, ops[0]).0, ops[1..]); }
  }

  lemma {:induction false} ReadPairsSkipsEmptyKeys(parts: seq<seq<Base64.Byte>>, read: Data)
    requires [] !in read
    ensures [] !in ReadPairs(parts, read)
    decreases |parts|
  {
    if |parts| >= 2 && parts[0] != [] {
      var key, value := parts[0], parts[1];
      if Utf8.Valid(key) && Utf8.Valid(value) {
        var k: Text, v: Text := key, value;
        ReadPairsSkipsEmptyKeys(parts[2..], read[k := v]);
      } else {
        ReadPairsSkipsEmptyKeys(parts[2..], read);
      }
    }
  }

  /** After a response the next request starts from the data this one ended with, exactly if the
      session was left alone or holds no empty key. */
  lemma ResponseCarriesData(cookie: Cookie, request: Request)
    requires Enumerates(request.entries, AfterHandler(cookie, request).data)
    ensures var s := AfterHandler(cookie, request);
            Incoming(Serve(cookie, request).0) == s.data <==> !s.dirty || [] !in s.data
  {
    var s := AfterHandler(cookie, request);
    HandlerSeesMap(State(Incoming(cookie), false), request.ops);
    SessionRoundTrip(s.data, request.entries);
  }

  /** Over any sequence of requests, whatever cookie the browser starts with, the cookie-carried
      session answers every call as a map kept on the server would, and ends up equal to it. */
  lemma {:induction false} CookieSimulatesServerMap(cookie: Cookie, requests: seq<Request>)
    requires Plausible(cookie, requests) && forall i :: 0 <= i < |requests| ==> NoEmptyKeys(requests[i].ops)
    ensures var (cookie', results) := ServeAll(cookie, requests);
            (Incoming(cookie'), results) == ServeAllOnMap(Incoming(cookie), requests)
    decreases |requests|
  {
    if requests != [] {
      var request := requests[0];
      HandlerSeesMap(State(Incoming(cookie), false), request.ops);
      if cookie.Signed? { ReadPairsSkipsEmptyKeys(Split(BytesOf(cookie.text)), map[]); }
      EmptyKeyStaysOut(Incoming(cookie), request.ops);
      ResponseCarriesData(cookie, request);
      CookieSimulatesServerMap(Serve(cookie, request).0, requests[1..]);
    }
  }

  /** A cookie that is missing, or whose signature does not verify, starts an empty session, whatever it
      says: every call of every later request is answered as from an empty map on the server. */
  lemma UnverifiedCookieStartsEmpty(cookie: Cookie, requests: seq<Request>)
    requires cookie.Absent? || cookie.Unverified?
    requires Plausible(cookie, requests) && forall i :: 0 <= i < |requests| ==> NoEmptyKeys(requests[i].ops)
    ensures ServeAll(cookie, requests).1 == ServeAllOnMap(map[], requests).1
    ensures forall request: Request :: Serve(cookie, request).1 == RunOnMap(map[], request.ops).1
  {
    CookieSimulatesServerMap(cookie, requests);
    forall request: Request ensures Serve(cookie, request).1 == RunOnMap(map[], request.ops).1 {
      HandlerSeesMap(State(map[], false), request.ops);
    }
  }

  /** A cookie that verifies starts from the map it was made from. */
  lemma SignedCookieStartsFromItsMap(data: Data, entries: seq<Entry>, requests: seq<Request>)
    requires Enumerates(entries, data) && [] !in data && Plausible(Signed(Encoded(entries)), requests)
    requires forall i :: 0 <= i < |requests| ==> NoEmptyKeys(requests[i].ops)
    ensures ServeAll(Signed(Encoded(entries)), requests).1 == ServeAllOnMap(data, requests).1
  {
    SessionRoundTrip(data, entries);
    CookieSimulatesServerMap(Signed(Encoded(entries)), requests);
  }

  lemma {:induction false} DirtyExactlyByWriting(s: State, ops: seq<Op>)
    ensures RunOps(s, ops).0.dirty <==> s.dirty || exists i :: 0 <= i < |ops| && !ops[i].Get?
    decreases |ops|
  {
    if ops != [] {
      DirtyExactlyByWriting(CallOnSession(s, ops[0]).0, ops[1..]);
      assert forall i :: 0 <= i < |ops[1..]| ==> ops[1..][i] == ops[i + 1];
      assert forall i :: 1 <= i < |ops| ==> ops[i] == ops[1..][i - 1];
    }
  }

  /** What the browser holds after a response: the cookie it sent if the handler only read; none if the
      handler wrote and left the session empty; and else a new one, with the final map in it. */
  lemma CookieAfterResponse(cookie: Cookie, request: Request)
    requires Enumerates(request.entries, AfterHandler(cookie, request).data)
    ensures var data, held := AfterHandler(cookie, request).data, Serve(cookie, request).0;
            var wrote := exists i :: 0 <= i < |request.ops| && !request.ops[i].Get?;
            && (!wrote ==> held == cookie)
            && (wrote && data == map[] ==> held == Absent)
            && (wrote && data != map[] ==> held == Signed(Encoded(request.entries)))
            && (wrote && data != map[] && [] !in data ==> Decoded(held.text) == data)
  {
    var data := AfterHandler(cookie, request).data;
    DirtyExactlyByWriting(State(Incoming(cookie), false), request.ops);
    SessionRoundTrip(data, request.entries);
  }
}
