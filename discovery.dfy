/** The peer registry of client/discovery.py: a table of peers keyed by the
    address each one announces, filled from discovery and response messages
    and pruned by the age of each entry. */
module Discovery {
  import opened Common
  import opened Config
  import opened NetworkUtils

  /** One registry record: `{'hostname', 'last_seen', 'ip'}` plus, for a peer
      last seen through a response, `'listen_port'`.  Time is in seconds. */
  datatype Device = Device(hostname: Value, lastSeen: int, ip: Value, listenPort: Option<Value>)

  /** The registry: the records by key, and the keys in insertion order (the
      order Python's dict keeps and `list(devices.values())` follows). */
  datatype Registry = Registry(devices: map<Value, Device>, order: seq<Value>)

  /** Each key is listed once, exactly the keys of the table are listed, and
      every record sits under its own `ip`. */
  ghost predicate WellFormed(r: Registry)
  {
    && NoDuplicates(r.order)
    && (forall k :: k in r.devices <==> k in r.order)
    && (forall k :: k in r.devices ==> r.devices[k].ip == k)
  }

  const EMPTY: Registry := Registry(map[], [])

  /** `list(self.devices.values())`. */
  function Values(r: Registry): (list: seq<Device>)
    requires WellFormed(r)
    ensures |list| == |r.order|
    ensures forall i :: 0 <= i < |list| ==> list[i] == r.devices[r.order[i]]
  {
    seq(|r.order|, i requires 0 <= i < |r.order| => r.devices[r.order[i]])
  }

  // ------------------------------------------------------------- messages

  /** How the type dispatch treats a decoded message. */
  datatype Kind =
    | NotAnObject     // `msg.get` raises AttributeError
    | DiscoveryKind
    | ResponseKind
    | Ignored         // any other `type`, or none

  /** Only an object is dispatched on, and only on its `type` field. */
  function KindOf(msg: Json): (k: Kind)
    ensures k.NotAnObject? <==> msg.NonObject?
    ensures k.DiscoveryKind? || k.ResponseKind? ==> msg.Object? && "type" in msg.fields
  {
    match msg
    case NonObject(_) => NotAnObject
    case Object(f) =>
      if "type" in f && f["type"] == Str("discovery") then DiscoveryKind
      else if "type" in f && f["type"] == Str("response") then ResponseKind
      else Ignored
  }

  /** `msg.get('ip', addr[0])`: the announced address, else the source address. */
  function SenderKey(f: Fields, from: Address): (k: Value)
    ensures "ip" in f ==> k == f["ip"]
    ensures "ip" !in f ==> k == Str(from.host)
  {
    Get(f, "ip", Str(from.host))
  }

  /** The record `_handle_discovery_message` stores. */
  function DiscoveryRecord(f: Fields, from: Address, now: int): (d: Device)
    ensures d.ip == SenderKey(f, from) && d.lastSeen == now && d.listenPort.None?
    ensures d.hostname == if "hostname" in f then f["hostname"] else Str("Unknown")
  {
    Device(Get(f, "hostname", Str("Unknown")), now, SenderKey(f, from), None)
  }

  /** The record `_handle_response_message` stores. */
  function ResponseRecord(f: Fields, from: Address, now: int): (d: Device)
    ensures d.ip == SenderKey(f, from) && d.lastSeen == now
    ensures d.hostname == if "hostname" in f then f["hostname"] else Str("Unknown")
    ensures d.listenPort == Some(if "listen_port" in f then f["listen_port"] else Int(DEFAULT_TCP_PORT))
  {
    Device(Get(f, "hostname", Str("Unknown")), now, SenderKey(f, from),
           Some(Get(f, "listen_port", Int(DEFAULT_TCP_PORT))))
  }

  /** `self.devices[rec.ip] = rec`: replaces the whole record under that key;
      a new key goes last in the order, an existing key keeps its place. */
  function Upsert(r: Registry, rec: Device): (r': Registry)
    ensures WellFormed(r) ==> WellFormed(r')
    ensures r'.devices.Keys == r.devices.Keys + {rec.ip}
    ensures r'.devices[rec.ip] == rec
    ensures forall k :: k in r.devices && k != rec.ip ==> r'.devices[k] == r.devices[k]
    ensures rec.ip in r.devices ==> r'.order == r.order
    ensures rec.ip !in r.devices ==> r'.order == r.order + [rec.ip]
  {
    Registry(r.devices[rec.ip := rec], if rec.ip in r.devices then r.order else r.order + [rec.ip])
  }

  /** The dispatch on `msg.get('type')`: the new registry, or `None` when the
      message is not an object and the lookup raises. */
  function Handle(r: Registry, msg: Json, from: Address, now: int): (r': Option<Registry>)
    ensures r'.None? <==> msg.NonObject?
    ensures r'.Some? && WellFormed(r) ==> WellFormed(r'.value)
    ensures r'.Some? ==> r.devices.Keys <= r'.value.devices.Keys <= r.devices.Keys + {SenderKey(msg.fields, from)}
  {
    match KindOf(msg)
    case NotAnObject => None
    case Ignored => Some(r)
    case DiscoveryKind => Some(Upsert(r, DiscoveryRecord(msg.fields, from, now)))
    case ResponseKind => Some(Upsert(r, ResponseRecord(msg.fields, from, now)))
  }

  /** The `for msg, addr in responses` loop: the messages in order, stopping
      at the first that raises; `ok` says whether all were handled. */
  function HandleAll(r: Registry, msgs: seq<(Json, Address)>, now: int): (res: (Registry, bool))
    ensures WellFormed(r) ==> WellFormed(res.0)
    ensures res.1 <==> forall i :: 0 <= i < |msgs| ==> !msgs[i].0.NonObject?
    decreases |msgs|
  {
    if msgs == [] then (r, true)
    else
      match Handle(r, msgs[0].0, msgs[0].1, now)
      case None => (r, false)
      case Some(r1) =>
        var res := HandleAll(r1, msgs[1..], now);
        assert forall i :: 1 <= i < |msgs| ==> msgs[i] == msgs[1..][i - 1];
        res
  }

  // -------------------------------------------------------------- pruning

  /** `(now - last_seen).seconds > 60`: the seconds component of the elapsed
      time, which wraps every day (and is never negative), exceeds 60. */
  predicate Expired(d: Device, now: int)
    ensures 0 <= now - d.lastSeen <= EXPIRY_SECONDS ==> !Expired(d, now)
    ensures 0 < d.lastSeen - now < SECONDS_PER_DAY - EXPIRY_SECONDS ==> Expired(d, now)
  {
    (now - d.lastSeen) % SECONDS_PER_DAY > EXPIRY_SECONDS
  }

  function ExpiredKeys(devices: map<Value, Device>, now: int): set<Value>
  {
    set k | k in devices && Expired(devices[k], now)
  }

  /** The keys listed in `keys`, as a set. */
  function KeySet(keys: seq<Value>): (s: set<Value>)
    ensures forall x :: x in s <==> x in keys
  {
    if keys == [] then {} else KeySet(keys[..|keys| - 1]) + {keys[|keys| - 1]}
  }

  /** The elements of `s` not in `gone`, in their order. */
  function FilterOut(s: seq<Value>, gone: set<Value>): (t: seq<Value>)
    ensures forall x :: x in t <==> x in s && x !in gone
    ensures NoDuplicates(s) ==> NoDuplicates(t)
  {
    if s == [] then []
    else
      var rest := FilterOut(s[1..], gone);
      if s[0] in gone then rest
      else
        assert NoDuplicates(s) ==> s[0] !in s[1..];
        [s[0]] + rest
  }

  /** `_cleanup_expired_devices` as a function of the registry. */
  function Prune(r: Registry, now: int): (r': Registry)
    ensures WellFormed(r) ==> WellFormed(r')
  {
    var gone := ExpiredKeys(r.devices, now);
    Registry(r.devices - gone, FilterOut(r.order, gone))
  }

  // ------------------------------------------------------------ the object

  class DeviceDiscovery {
    var devices: map<Value, Device>
    var order: seq<Value>
    const localIp: string

    function State(): Registry
      reads this
    {
      Registry(devices, order)
    }

    ghost predicate Valid()
      reads this
    {
      WellFormed(State())
    }

    constructor (localIp: string)
      ensures Valid() && State() == EMPTY && this.localIp == localIp
    {
      devices, order := map[], [];
      this.localIp := localIp;
    }

    /** `_send_discovery_broadcast`: a `discovery` message naming this host
        and its address, sent to the discovery port. */
    function DiscoveryAnnouncement(hostname: string, timestamp: string): (b: Broadcast)
      ensures b.port == UDP_PORT
      ensures b.message.Keys == {"type", "hostname", "ip", "timestamp"}
      ensures b.message["hostname"] == Str(hostname) && b.message["ip"] == Str(localIp)
      ensures KindOf(Object(b.message)) == DiscoveryKind
    {
      Broadcast(map["type" := Str("discovery"), "hostname" := Str(hostname), "ip" := Str(localIp),
                    "timestamp" := Str(timestamp)],
                UDP_PORT)
    }

    /** Dictionary assignment `self.devices[rec.ip] = rec`. */
    method Put(rec: Device)
      requires Valid()
      modifies this
      ensures Valid() && State() == Upsert(old(State()), rec)
    {
      if rec.ip !in devices {
        order := order + [rec.ip];
      }
      devices := devices[rec.ip := rec];
    }

    /** `_handle_discovery_message`: the record under the sender's key is
        replaced by one without a listen port; nothing else changes. */
    method HandleDiscoveryMessage(msg: Fields, from: Address, now: int)
      requires Valid()
      modifies this
      ensures Valid() && State() == Upsert(old(State()), DiscoveryRecord(msg, from, now))
      ensures forall k :: k != SenderKey(msg, from) ==>
                (k in devices <==> k in old(devices)) && (k in devices ==> devices[k] == old(devices)[k])
    {
      Put(DiscoveryRecord(msg, from, now));
    }

    /** `_handle_response_message`: the record under the sender's key is
        replaced by one carrying the listen port; nothing else changes. */
    method HandleResponseMessage(msg: Fields, from: Address, now: int)
      requires Valid()
      modifies this
      ensures Valid() && State() == Upsert(old(State()), ResponseRecord(msg, from, now))
      ensures forall k :: k != SenderKey(msg, from) ==>
                (k in devices <==> k in old(devices)) && (k in devices ==> devices[k] == old(devices)[k])
    {
      Put(ResponseRecord(msg, from, now));
    }

    /** The type dispatch of `_discovery_loop` and `discover_devices`. */
    method Dispatch(msg: Json, from: Address, now: int) returns (ok: bool)
      requires Valid()
      modifies this
      ensures Valid()
      ensures ok == !msg.NonObject?
      ensures ok ==> Some(State()) == Handle(old(State()), msg, from, now)
      ensures !ok ==> State() == old(State())
    {
      match msg {
        case NonObject(_) =>
          return false;
        case Object(f) =>
          if "type" in f && f["type"] == Str("discovery") {
            HandleDiscoveryMessage(f, from, now);
          } else if "type" in f && f["type"] == Str("response") {
            HandleResponseMessage(f, from, now);
          }
          return true;
      }
    }

    /** Handle a batch in order, stopping at the first message that raises. */
    method DispatchAll(msgs: seq<(Json, Address)>, now: int) returns (ok: bool)
      requires Valid()
      modifies this
      ensures Valid()
      ensures (State(), ok) == HandleAll(old(State()), msgs, now)
    {
      var i := 0;
      while i < |msgs|
        invariant 0 <= i <= |msgs|
        invariant Valid()
        invariant HandleAll(old(State()), msgs, now) == HandleAll(State(), msgs[i..], now)
      {
        assert msgs[i..][1..] == msgs[i + 1..];
        ok := Dispatch(msgs[i].0, msgs[i].1, now);
        if !ok {
          return;
        }
        i := i + 1;
      }
      ok := true;
    }

    /** The first loop of `_cleanup_expired_devices`: the expired keys, each
        once, in dict order. */
    method ExpiredInOrder(now: int) returns (expired: seq<Value>)
      requires Valid()
      ensures forall k :: k in expired <==> k in devices && Expired(devices[k], now)
      ensures NoDuplicates(expired)
    {
      expired := [];
      var i := 0;
      while i < |order|
        invariant 0 <= i <= |order|
        invariant forall k :: k in expired <==> k in order[..i] && Expired(devices[k], now)
        invariant NoDuplicates(expired)
      {
        assert order[..i + 1] == order[..i] + [order[i]];
        if Expired(devices[order[i]], now) {
          assert order[i] !in order[..i];
          expired := expired + [order[i]];
        }
        i := i + 1;
      }
      assert order[..i] == order;
    }

    /** The second loop: `del self.devices[k]` for each of `keys`, which
        raises unless each key is present when its turn comes, so the keys
        must be distinct and all in the table. */
    method DeleteAll(keys: seq<Value>)
      requires NoDuplicates(keys)
      requires forall k :: k in keys ==> k in devices
      modifies this
      ensures State() == Registry(old(devices) - KeySet(keys), FilterOut(old(order), KeySet(keys)))
    {
      FilterOutNothing(order);
      var j := 0;
      while j < |keys|
        invariant 0 <= j <= |keys|
        invariant devices == old(devices) - KeySet(keys[..j])
        invariant order == FilterOut(old(order), KeySet(keys[..j]))
      {
        var k := keys[j];
        ghost var done := KeySet(keys[..j]);
        assert k in devices by {
          assert k in old(devices);
          assert forall i :: 0 <= i < j ==> keys[..j][i] == keys[i] != k;
        }
        assert keys[..j + 1][..j] == keys[..j];
        assert KeySet(keys[..j + 1]) == done + {k};
        FilterOutStep(old(order), done, k);
        RemoveStep(old(devices), done, k);
        devices := devices - {k};
        order := FilterOut(order, {k});
        j := j + 1;
      }
      assert keys[..j] == keys;
    }

    /** `_cleanup_expired_devices`: collect the expired keys in dict order,
        then delete each. */
    method CleanupExpiredDevices(now: int)
      requires Valid()
      modifies this
      ensures Valid() && State() == Prune(old(State()), now)
    {
      var expired := ExpiredInOrder(now);
      assert KeySet(expired) == ExpiredKeys(devices, now);
      DeleteAll(expired);
    }

    /** `get_devices`: prune, then list the records. */
    method GetDevices(now: int) returns (list: seq<Device>)
      requires Valid()
      modifies this
      ensures Valid() && State() == Prune(old(State()), now)
      ensures list == Values(State())
    {
      CleanupExpiredDevices(now);
      list := Values(State());
    }

    /** `discover_devices`, from the datagrams that arrive within its window:
        handle them and list the records, without pruning.  `None` stands for
        the exception raised by a datagram that is not UTF-8 (registry
        untouched) or by a message that is not an object (earlier messages of
        the batch already applied). */
    method DiscoverDevices(events: seq<RecvEvent>, now: int) returns (list: Option<seq<Device>>)
      requires Valid()
      modifies this
      ensures Valid()
      ensures !AllUtf8(events) ==> list == None && State() == old(State())
      ensures AllUtf8(events) ==>
        var res := HandleAll(old(State()), Collected(events), now);
        State() == res.0 && list == (if res.1 then Some(Values(State())) else None)
    {
      var responses := ReceiveBroadcastMessages(events);
      if responses.None? {
        return None;
      }
      var ok := DispatchAll(responses.value, now);
      if !ok {
        return None;
      }
      list := Some(Values(State()));
    }

    /** One turn of `_discovery_loop` after its broadcast: take in the
        datagrams of the one-second window, handle them and prune.  An
        exception ends the turn early (it is caught and logged), so pruning is
        skipped then. */
    method DiscoveryCycle(events: seq<RecvEvent>, now: int)
      requires Valid()
      modifies this
      ensures Valid()
      ensures !AllUtf8(events) ==> State() == old(State())
      ensures AllUtf8(events) ==>
        var res := HandleAll(old(State()), Collected(events), now);
        State() == if res.1 then Prune(res.0, now) else res.0
    {
      var responses := ReceiveBroadcastMessages(events);
      if responses.None? {
        return;
      }
      var ok := DispatchAll(responses.value, now);
      if ok {
        CleanupExpiredDevices(now);
      }
    }
  }

  lemma {:induction false} FilterOutNothing(s: seq<Value>)
    ensures FilterOut(s, {}) == s
  {
    if s != [] {
      FilterOutNothing(s[1..]);
    }
  }

  lemma RemoveStep(m: map<Value, Device>, done: set<Value>, k: Value)
    ensures m - done - {k} == m - (done + {k})
  {
  }

  /** `t` is `s` with some elements deleted: what is left keeps its order. */
  ghost predicate Subsequence(t: seq<Value>, s: seq<Value>)
    decreases |s|
  {
    if t == [] then true
    else if s == [] then false
    else if t[0] == s[0] then Subsequence(t[1..], s[1..])
    else Subsequence(t, s[1..])
  }

  /** Deleting keys keeps the others in their relative order. */
  lemma {:induction false} FilterOutKeepsOrder(s: seq<Value>, gone: set<Value>)
    ensures Subsequence(FilterOut(s, gone), s)
  {
    if s != [] {
      var t, rest := FilterOut(s, gone), FilterOut(s[1..], gone);
      FilterOutKeepsOrder(s[1..], gone);
      if s[0] in gone {
        assert t == rest;
        assert rest != [] ==> rest[0] in rest && rest[0] != s[0];
      } else {
        assert t[0] == s[0] && t[1..] == rest;
      }
    }
  }

  lemma {:induction false} FilterOutStep(s: seq<Value>, gone: set<Value>, k: Value)
    ensures FilterOut(FilterOut(s, gone), {k}) == FilterOut(s, gone + {k})
  {
    if s != [] {
      FilterOutStep(s[1..], gone, k);
      if s[0] !in gone {
        assert ([s[0]] + FilterOut(s[1..], gone))[1..] == FilterOut(s[1..], gone);
      }
    }
  }

  // ----------------------------------------------------------- properties

  /** Within a day of the last sighting, a record expires exactly when more
      than 60 seconds have passed. */
  lemma ExpiryWindow(d: Device, now: int)
    requires d.lastSeen <= now < d.lastSeen + SECONDS_PER_DAY
    ensures Expired(d, now) <==> now - d.lastSeen > EXPIRY_SECONDS
  {
  }

  /** The elapsed time is reduced to its seconds-of-day component, so a peer
      silent for a whole day plus up to a minute is kept. */
  lemma DayWrapKeepsStale(d: Device, now: int)
    requires d.lastSeen + SECONDS_PER_DAY <= now <= d.lastSeen + SECONDS_PER_DAY + EXPIRY_SECONDS
    ensures !Expired(d, now)
  {
    assert (now - d.lastSeen) % SECONDS_PER_DAY == now - d.lastSeen - SECONDS_PER_DAY;
  }

  /** Pruning keeps exactly the records that have not expired, unchanged,
      in their previous relative order, and nothing left is expired. */
  lemma PruneExactly(r: Registry, now: int)
    requires WellFormed(r)
    ensures forall k :: k in Prune(r, now).devices <==> k in r.devices && !Expired(r.devices[k], now)
    ensures forall k :: k in Prune(r, now).devices ==> Prune(r, now).devices[k] == r.devices[k]
    ensures forall d :: d in Values(Prune(r, now)) ==> !Expired(d, now)
    ensures Subsequence(Prune(r, now).order, r.order)
  {
    FilterOutKeepsOrder(r.order, ExpiredKeys(r.devices, now));
    var p := Prune(r, now);
    forall d | d in Values(p)
      ensures !Expired(d, now)
    {
      var i :| 0 <= i < |Values(p)| && Values(p)[i] == d;
      assert p.order[i] in p.devices;
    }
  }

  /** Pruning twice at the same instant is pruning once. */
  lemma PruneIdempotent(r: Registry, now: int)
    ensures Prune(Prune(r, now), now) == Prune(r, now)
  {
    var p := Prune(r, now);
    assert ExpiredKeys(p.devices, now) == {};
    assert p.devices - {} == p.devices;
    FilterOutNothing(p.order);
  }

  /** A `discovery` message registers its sender under the address it
      announces, with a fresh time and no listen port, whatever was known
      about that key before; every other record is kept. */
  lemma DiscoveryReplacesRecord(r: Registry, f: Fields, from: Address, now: int)
    requires KindOf(Object(f)) == DiscoveryKind
    ensures Handle(r, Object(f), from, now).Some?
    ensures var r' := Handle(r, Object(f), from, now).value;
      && r'.devices[SenderKey(f, from)] == Device(Get(f, "hostname", Str("Unknown")), now, SenderKey(f, from), None)
      && forall k :: k in r.devices && k != SenderKey(f, from) ==> k in r'.devices && r'.devices[k] == r.devices[k]
  {
  }

  /** A `response` without `listen_port` is recorded with the default port. */
  lemma ResponseDefaultPort(r: Registry, f: Fields, from: Address, now: int)
    requires KindOf(Object(f)) == ResponseKind && "listen_port" !in f
    ensures Handle(r, Object(f), from, now).Some?
    ensures Handle(r, Object(f), from, now).value.devices[SenderKey(f, from)].listenPort == Some(Int(DEFAULT_TCP_PORT))
  {
  }

  /** What `send_discovery_broadcast` sends is registered under the announced
      address and host name, without a listen port. */
  lemma AnnouncedPeerRegistered(r: Registry, port: nat, hostname: string, ip: string, ts: string,
                                from: Address, now: int)
    ensures Handle(r, Object(SendDiscoveryBroadcast(port, hostname, ip, ts).message), from, now)
            == Some(Upsert(r, Device(Str(hostname), now, Str(ip), None)))
  {
  }

  /** A client's own announcement, once received, registers that client
      under the address it announces, by its host name and without a
      listen port. */
  lemma AnnouncementRegistered(d: DeviceDiscovery, r: Registry, hostname: string, ts: string,
                               from: Address, now: int)
    ensures Handle(r, Object(d.DiscoveryAnnouncement(hostname, ts).message), from, now)
            == Some(Upsert(r, Device(Str(hostname), now, Str(d.localIp), None)))
  {
  }

  /** What `send_response_broadcast` sends is registered under the announced
      address with the announced listen port. */
  lemma RespondingPeerRegistered(r: Registry, port: nat, hostname: string, ip: string, listenPort: nat,
                                 ts: string, from: Address, now: int)
    ensures Handle(r, Object(SendResponseBroadcast(port, hostname, ip, listenPort, ts).message), from, now)
            == Some(Upsert(r, Device(Str(hostname), now, Str(ip), Some(Int(listenPort)))))
  {
  }

  /** Messages of any other type leave the registry as it was. */
  lemma OtherTypesIgnored(r: Registry, f: Fields, from: Address, now: int)
    requires "type" !in f || (f["type"] != Str("discovery") && f["type"] != Str("response"))
    ensures Handle(r, Object(f), from, now) == Some(r)
  {
  }

  /** A batch handles its messages one after another: handling `a + b` is
      handling `a`, then (if nothing raised) `b`. */
  lemma {:induction false} HandleAllAppend(r: Registry, a: seq<(Json, Address)>, b: seq<(Json, Address)>, now: int)
    ensures var ra := HandleAll(r, a, now);
      HandleAll(r, a + b, now) == if ra.1 then HandleAll(ra.0, b, now) else ra
    decreases |a|
  {
    if a != [] {
      assert (a + b)[0] == a[0];
      assert (a + b)[1..] == a[1..] + b;
      match Handle(r, a[0].0, a[0].1, now)
      case None =>
      case Some(r1) =>
        HandleAllAppend(r1, a[1..], b, now);
    } else {
      assert a + b == b;
    }
  }
}
