// The MQTT client of backend/internal/mqtt/client.go: finding a message's device and routing it.

module Client {
  import opened Fnv
  import opened Database
  import opened Dedup
  import opened Flatten
  import opened Options
  import opened Tables
  import opened Text
  import Handler

  /** The bytes of a Go string. */
  function BytesOf(s: string): (bytes: Bytes)
    ensures |bytes| == |s| && forall i :: 0 <= i < |s| && s[i] < 256 as char ==> bytes[i] as int == s[i] as int
  {
    seq(|s|, i requires 0 <= i < |s| => ((s[i] as int) % 256) as byte)
  }

  predicate HexDigit(c: char) {
    '0' <= c <= '9' || 'A' <= c <= 'F' || 'a' <= c <= 'f'
  }

  /** The pattern ^[A-Fa-f0-9]{6,}$. */
  predicate IsHexId(s: string) {
    |s| >= 6 && forall i :: 0 <= i < |s| ==> HexDigit(s[i])
  }

  /** The payload's own id: a non-empty string under "ID". */
  function OwnId(payload: Handler.Payload): Option<string> {
    match payload
    case Some(fields) =>
      if "ID" in fields && fields["ID"].Str? && fields["ID"].s != "" then Some(fields["ID"].s) else None
    case None => None
  }

  /** The device of a message: its own id, else the last topic segment that looks like one, else none. */
  ghost predicate IsDeviceId(payload: Handler.Payload, topic: string, id: string) {
    var segments := Split(topic, '/');
    match OwnId(payload)
    case Some(own) => id == own
    case None =>
      if id == "" then forall i :: 0 <= i < |segments| ==> !IsHexId(segments[i])
      else exists i :: 0 <= i < |segments| && segments[i] == id && IsHexId(id) &&
                       forall j :: i < j < |segments| ==> !IsHexId(segments[j])
  }

  /** The payload carries a non-empty text under "ID". */
  predicate NamesItself(payload: Handler.Payload) {
    payload.Some? && "ID" in payload.value && payload.value["ID"].Str? && payload.value["ID"].s != ""
  }

  /** A topic segment of at least six hexadecimal digits. */
  predicate LooksLikeId(segment: string) {
    |segment| >= 6 && forall i :: 0 <= i < |segment| ==> segment[i] in "0123456789ABCDEFabcdef"
  }

  lemma HexIdLooksLikeId(s: string)
    ensures IsHexId(s) <==> LooksLikeId(s)
  {
    forall c: char
      ensures HexDigit(c) <==> c in "0123456789ABCDEFabcdef"
    {
      HexDigits(c);
    }
  }

  lemma HexDigits(c: char)
    ensures HexDigit(c) <==> c in "0123456789ABCDEFabcdef"
  {
  }

  method ExtractDeviceId(payload: Handler.Payload, topic: string) returns (id: string)
    ensures IsDeviceId(payload, topic, id)
    ensures NamesItself(payload) ==> id == payload.value["ID"].s
    ensures !NamesItself(payload) ==>
              var segments := Split(topic, '/');
              if forall i :: 0 <= i < |segments| ==> !LooksLikeId(segments[i]) then id == ""
              else exists i :: 0 <= i < |segments| && segments[i] == id && LooksLikeId(id) &&
                               forall j :: i < j < |segments| ==> !LooksLikeId(segments[j])
  {
    forall s: string
      ensures IsHexId(s) <==> LooksLikeId(s)
    {
      HexIdLooksLikeId(s);
    }
    match OwnId(payload) {
      case Some(own) => return own;
      case None =>
    }
    var segments := Split(topic, '/');
    var i := |segments| - 1;
    while i >= 0
      invariant -1 <= i < |segments|
      invariant forall j :: i < j < |segments| ==> !IsHexId(segments[j])
    {
      if IsHexId(segments[i]) {
        return segments[i];
      }
      i := i - 1;
    }
    return "";
  }

  /** The device id is determined by the message. */
  lemma DeviceIdUnique(payload: Handler.Payload, topic: string, a: string, b: string)
    requires IsDeviceId(payload, topic, a) && IsDeviceId(payload, topic, b)
    ensures a == b
  {
  }

  /** An arriving message; the clock readings and the transaction's fate are inputs. */
  datatype Message = Message(
    topic: string, raw: string, payload: Handler.Payload,
    seenAt: int, checkedAt: int, readAt: int, storedAt: int, failAt: nat, idDrawn: bool)

  datatype Route = WithoutId | Duplicate | Failed | Handled

  class Client {
    const handler: Handler.MessageHandler
    const dedup: Deduplicator
    var totalMessages: nat
    var totalErrors: nat
    var totalDropped: nat
    var lastMessageAt: int

    constructor (handler: Handler.MessageHandler)
      ensures this.handler == handler && fresh(dedup) && fresh(dedup.slots) && dedup.Valid()
      ensures dedup.maxSize == 1000 && dedup.ttl == 5 * 60 * 1_000_000_000 && dedup.log == []
      ensures totalMessages == totalErrors == totalDropped == 0
    {
      this.handler := handler;
      dedup := new Deduplicator(1000, 5 * 60 * 1_000_000_000);
      totalMessages, totalErrors, totalDropped, lastMessageAt := 0, 0, 0, 0;
    }

    /** The connect callback: the detector starts afresh after every connection. */
    method OnConnect()
      requires dedup.Valid()
      modifies dedup, dedup.slots
      ensures dedup.Valid() && dedup.slots == old(dedup.slots) && dedup.log == []
    {
      dedup.Reset();
    }

    /** Handles one message. Every message is counted once as received; a message without an id or
        seen before is counted as dropped, one whose store fails as an error, and nothing else. */
    method HandleArrival(m: Message) returns (route: Route, ghost device: string)
      requires dedup.Valid()
      modifies this, dedup, dedup.slots, handler.store
      ensures dedup.Valid() && dedup.slots == old(dedup.slots)
      ensures totalMessages == old(totalMessages) + 1 && lastMessageAt == m.seenAt
      ensures totalDropped == old(totalDropped) + if route.WithoutId? || route.Duplicate? then 1 else 0
      ensures totalErrors == old(totalErrors) + if route.Failed? then 1 else 0
      ensures !route.WithoutId? && !route.Duplicate? ==> (route.Failed? <==> Handler.Fails(m.payload, m.failAt))
      ensures IsDeviceId(m.payload, m.topic, device)
      ensures route.WithoutId? <==> device == ""
      ensures var key := Key(BytesOf(device), BytesOf(m.raw));
              && (route.Duplicate? <==> device != "" && Seen(dedup.maxSize, dedup.ttl, old(dedup.log), key, m.checkedAt))
              && dedup.log == if device == "" then old(dedup.log)
                              else Next(Window(dedup.maxSize, dedup.ttl), old(dedup.log), Arrive(key, m.checkedAt))
      ensures var key := Key(BytesOf(device), BytesOf(m.raw));
              && (route.Duplicate? <==>
                    device != "" && key != 0 &&
                    exists p :: 0 <= p < |old(dedup.log)| && p >= |old(dedup.log)| - dedup.maxSize &&
                                old(dedup.log)[p].key == key && m.checkedAt - old(dedup.log)[p].at < dedup.ttl)
              && dedup.log == if device == "" || route.Duplicate? then old(dedup.log) else old(dedup.log) + [Entry(key, m.checkedAt)]
      ensures route.WithoutId? || route.Duplicate? ==> handler.store.tables == old(handler.store.tables)
      ensures route.Failed? ==>
                handler.store.tables == RolledBackTx(old(handler.store.tables), IdsLost(m.failAt, m.idDrawn), 0)
      ensures route.Handled? && m.payload.Some? && !Handler.MetadataOnly(m.payload.value) ==>
                Handler.Stored(old(handler.store.tables), device, handler.brokerName, m.raw, m.payload.value,
                               m.readAt, m.storedAt, handler.store.tables)
      ensures Consistent(old(handler.store.tables)) ==> Consistent(handler.store.tables)
    {
      totalMessages := totalMessages + 1;
      lastMessageAt := m.seenAt;
      var id := ExtractDeviceId(m.payload, m.topic);
      device := id;
      if id == "" {
        totalDropped := totalDropped + 1;
        return WithoutId, device;
      }
      var duplicate := dedup.IsDuplicate(BytesOf(id), BytesOf(m.raw), m.checkedAt);
      if duplicate {
        totalDropped := totalDropped + 1;
        return Duplicate, device;
      }
      var ok := handler.HandleMessage(id, m.raw, m.payload, m.readAt, m.storedAt, m.failAt, m.idDrawn);
      if !ok {
        totalErrors := totalErrors + 1;
        return Failed, device;
      }
      return Handled, device;
    }
  }

  /** Once a message was checked, its key is a duplicate later on exactly when it is nonzero and the
      time to live is not over, whatever became of the message. */
  lemma RedeliveryIsDropped(size: nat, ttl: int, log: seq<Entry>, key: uint64, at: int, again: int)
    requires size >= 1 && at <= again && !Seen(size, ttl, log, key, at)
    ensures Seen(size, ttl, Next(Window(size, ttl), log, Arrive(key, at)), key, again) <==> key != 0 && again - at < ttl
  {
    var log' := Next(Window(size, ttl), log, Arrive(key, at));
    assert log' == log + [Entry(key, at)];
    assert Matches(log'[|log|], ttl, key, again) <==> key != 0 && again - at < ttl;
  }

  /** A broker delivers a message twice. The key is recorded before the store is tried, so when the
      first delivery fails to be stored, a second one within the time to live is dropped all the same
      and the message is lost. */
  method DeliverTwice(client: Client, first: Message, again: Message)
    returns (route: Route, route': Route, ghost device: string)
    requires client.dedup.Valid()
    requires again.topic == first.topic && again.raw == first.raw && again.payload == first.payload
    requires first.checkedAt <= again.checkedAt
    modifies client, client.dedup, client.dedup.slots, client.handler.store
    ensures client.dedup.Valid()
    ensures IsDeviceId(first.payload, first.topic, device)
    ensures route.WithoutId? <==> route'.WithoutId?
    ensures route.WithoutId? <==> device == ""
    ensures var key := Key(BytesOf(device), BytesOf(first.raw));
            var dedup := client.dedup;
            && (route.Duplicate? <==> device != "" && Seen(dedup.maxSize, dedup.ttl, old(dedup.log), key, first.checkedAt))
            && (!route.WithoutId? && !route.Duplicate? ==>
                  && (route.Failed? <==> Handler.Fails(first.payload, first.failAt))
                  && (route'.Duplicate? <==> key != 0 && again.checkedAt - first.checkedAt < dedup.ttl))
    ensures route.Failed? && route'.Duplicate? ==>
              client.handler.store.tables ==
              RolledBackTx(old(client.handler.store.tables), IdsLost(first.failAt, first.idDrawn), 0)
  {
    route, device := client.HandleArrival(first);
    ghost var key := Key(BytesOf(device), BytesOf(first.raw));
    if !route.WithoutId? && !route.Duplicate? {
      RedeliveryIsDropped(client.dedup.maxSize, client.dedup.ttl, old(client.dedup.log), key, first.checkedAt, again.checkedAt);
    }
    ghost var device': string;
    route', device' := client.HandleArrival(again);
    DeviceIdUnique(first.payload, first.topic, device, device');
  }

  /** One of two payloads that differ in one byte has a nonzero key. */
  lemma SomeKeyIsNonzero(device: Bytes, p: Bytes, q: Bytes, i: nat)
    requires |p| == |q| <= 100 && i < |p|
    requires forall k :: 0 <= k < |p| ==> (p[k] == q[k] <==> k != i)
    ensures Key(device, p) != 0 || Key(device, q) != 0
  {
    OneByteChangesKey(device, p, q, i);
  }

  function Sample(digit: char): string {
    "{\"ID\":\"d\",\"t\":" + [digit] + "}"
  }

  function SamplePayload(value: real): Handler.Payload {
    Some(map["ID" := Str("d"), "t" := Num(value)])
  }

  lemma SampleFails(value: real, topic: string)
    ensures IsDeviceId(SamplePayload(value), topic, "d") && Handler.Fails(SamplePayload(value), 2)
  {
    assert "t" in SamplePayload(value).value;
  }

  lemma SampleKeys()
    ensures Key(BytesOf("d"), BytesOf(Sample('1'))) != 0 || Key(BytesOf("d"), BytesOf(Sample('2'))) != 0
  {
    var one, two := Sample('1'), Sample('2');
    SomeKeyIsNonzero(BytesOf("d"), BytesOf(one), BytesOf(two), |one| - 2);
  }

  /** It happens on a new client with empty tables: the payload insert fails, the message comes again
      after a second, and no table ever holds a row of it. */
  method LoseMessage() returns (raw: string, route: Route, route': Route, tables: Tables)
    ensures raw == Sample('1') || raw == Sample('2')
    ensures route == Failed && route' == Duplicate
    ensures tables.devices == [] && tables.payloads == [] && tables.readings == []
  {
    var store := new Database();
    var handler := new Handler.MessageHandler("default", store);
    var client := new Client(handler);
    SampleKeys();
    var value: real;
    if Key(BytesOf("d"), BytesOf(Sample('1'))) != 0 {
      raw, value := Sample('1'), 1.0;
    } else {
      raw, value := Sample('2'), 2.0;
    }
    var first := Message("devices/d", raw, SamplePayload(value), 0, 0, 0, 0, 2, false);
    SampleFails(value, first.topic);
    ghost var id: string;
    route, route', id := DeliverTwice(client, first, first.(checkedAt := 1_000_000_000, failAt := 5));
    DeviceIdUnique(first.payload, first.topic, id, "d");
    tables := store.tables;
  }
}
