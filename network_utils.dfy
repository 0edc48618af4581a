/** The datagram side of utils/network_utils.py: the two broadcast message
    shapes and the intake loop that turns received datagrams into messages. */
module NetworkUtils {
  import opened Common

  /** A decoded datagram: a JSON object, or another JSON value (by its text). */
  datatype Json = Object(fields: Fields) | NonObject(text: string)

  /** The source address `recvfrom` reports. */
  datatype Address = Address(host: string, port: nat)

  /** What decoding one datagram's bytes gives: invalid UTF-8
      (UnicodeDecodeError), invalid JSON (JSONDecodeError), or a value. */
  datatype Decoded = NotUtf8 | NotJson | Parsed(message: Json)

  /** One turn of the intake loop: a datagram arrived, or `recvfrom` timed out. */
  datatype RecvEvent = Datagram(decoded: Decoded, from: Address) | TimedOut

  /** A datagram to send: the message and the destination port on the
      broadcast address. */
  datatype Broadcast = Broadcast(message: Fields, port: nat)

  /** `send_discovery_broadcast`: a `discovery` message naming the sender's
      host, address and port and a time stamp, sent to that port. */
  function SendDiscoveryBroadcast(port: nat, hostname: string, ip: string, timestamp: string): (b: Broadcast)
    ensures b.port == port
    ensures b.message.Keys == {"type", "hostname", "ip", "port", "timestamp"}
    ensures "listen_port" !in b.message
  {
    Broadcast(map["type" := Str("discovery"), "hostname" := Str(hostname), "ip" := Str(ip),
                  "port" := Int(port), "timestamp" := Str(timestamp)],
              port)
  }

  /** `send_response_broadcast`: a `response` message that also names the
      port the sender's file receiver listens on. */
  function SendResponseBroadcast(responsePort: nat, hostname: string, ip: string, listenPort: nat,
                                 timestamp: string): (b: Broadcast)
    ensures b.port == responsePort
    ensures b.message.Keys == {"type", "hostname", "ip", "listen_port", "timestamp"}
    ensures "port" !in b.message
  {
    Broadcast(map["type" := Str("response"), "hostname" := Str(hostname), "ip" := Str(ip),
                  "listen_port" := Int(listenPort), "timestamp" := Str(timestamp)],
              responsePort)
  }

  predicate IsNotUtf8(e: RecvEvent) { e.Datagram? && e.decoded.NotUtf8? }

  /** No datagram of `events` fails UTF-8 decoding. */
  predicate AllUtf8(events: seq<RecvEvent>)
  {
    forall i :: 0 <= i < |events| ==> !IsNotUtf8(events[i])
  }

  /** The messages collected from `events`, in arrival order: every datagram
      that decodes to a JSON value, paired with its source. */
  function Collected(events: seq<RecvEvent>): (msgs: seq<(Json, Address)>)
    ensures |msgs| <= |events|
  {
    if events == [] then []
    else
      var e := events[|events| - 1];
      Collected(events[..|events| - 1])
      + (if e.Datagram? && e.decoded.Parsed? then [(e.decoded.message, e.from)] else [])
  }

  /** Collection works datagram by datagram: the messages of a longer run are
      those of its first part followed by those of the rest. */
  lemma {:induction false} CollectedAppend(a: seq<RecvEvent>, b: seq<RecvEvent>)
    ensures Collected(a + b) == Collected(a) + Collected(b)
    decreases |b|
  {
    if b != [] {
      var b' := b[..|b| - 1];
      assert (a + b)[..|a + b| - 1] == a + b';
      CollectedAppend(a, b');
    } else {
      assert a + b == a;
    }
  }

  /** A message is collected exactly when some datagram decoded to it. */
  lemma {:induction false} CollectedExactly(events: seq<RecvEvent>, m: Json, from: Address)
    ensures (m, from) in Collected(events)
            <==> exists i :: 0 <= i < |events| && events[i] == Datagram(Parsed(m), from)
  {
    if events != [] {
      var init, e := events[..|events| - 1], events[|events| - 1];
      assert Collected(events) == Collected(init)
        + (if e.Datagram? && e.decoded.Parsed? then [(e.decoded.message, e.from)] else []);
      CollectedExactly(init, m, from);
      if (m, from) in Collected(init) {
        var i :| 0 <= i < |init| && init[i] == Datagram(Parsed(m), from);
        assert events[i] == init[i];
      }
      if exists i :: 0 <= i < |events| && events[i] == Datagram(Parsed(m), from) {
        var i :| 0 <= i < |events| && events[i] == Datagram(Parsed(m), from);
        if i < |init| {
          assert init[i] == events[i];
        }
      }
    }
  }

  /** Neither a timeout nor a datagram that is not JSON adds anything. */
  lemma SkippedEvents(events: seq<RecvEvent>, from: Address)
    ensures Collected(events + [TimedOut]) == Collected(events)
    ensures Collected(events + [Datagram(NotJson, from)]) == Collected(events)
  {
    assert (events + [TimedOut])[..|events|] == events;
    assert (events + [Datagram(NotJson, from)])[..|events|] == events;
  }

  /** `receive_broadcast_messages`: the events are everything `recvfrom` gives
      within the time budget.  A datagram that is not valid UTF-8 raises out
      of the function (`None` here), losing what was collected so far;
      otherwise the collected messages are returned. */
  method ReceiveBroadcastMessages(events: seq<RecvEvent>) returns (r: Option<seq<(Json, Address)>>)
    ensures r == if AllUtf8(events) then Some(Collected(events)) else None
  {
    var messages: seq<(Json, Address)> := [];
    var i := 0;
    while i < |events|
      invariant 0 <= i <= |events|
      invariant AllUtf8(events[..i])
      invariant messages == Collected(events[..i])
    {
      var e := events[i];
      assert events[..i + 1][..i] == events[..i];
      match e {
        case TimedOut =>
        case Datagram(decoded, from) =>
          match decoded {
            case NotUtf8 =>
              return None;
            case NotJson =>
            case Parsed(message) =>
              messages := messages + [(message, from)];
          }
      }
      i := i + 1;
    }
    assert events[..i] == events;
    r := Some(messages);
  }
}
