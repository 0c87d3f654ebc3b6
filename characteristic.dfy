/**
 * `CharacteristicHandler` of abc.py: a Nordic UART peripheral that keeps the
 * set of connected centrals, advertises again after a disconnect, forwards
 * writes to the RX characteristic to a registered callback and notifies every
 * connected central on `send`.
 *
 * The radio is not modelled. `gatts_register_services` hands back the handles
 * passed to the constructor, `gatts_read` hands back the value passed with a
 * write event, and the calls to `gap_advertise`, `gatts_notify` and the write
 * callback are recorded as values.
 */
module Characteristic {
  import opened Wrappers
  import opened AdPayload

  const IrqCentralConnect := 1
  const IrqCentralDisconnect := 2
  const IrqGattsWrite := 3

  /** `_advertise`'s default interval, in microseconds. */
  const DefaultIntervalUs := 500000
  const UartName: string := "mpy-uart"

  /** The tuple an IRQ delivers with the event code. */
  datatype IrqData =
    | Central(connHandle: int, addrType: int, addr: seq<byte>) // `(conn_handle, addr_type, addr)`
    | Write(connHandle: int, valueHandle: int)                  // `(conn_handle, value_handle)`

  /** The BLE stack delivers the tuple shape that belongs to each event code. */
  predicate Shaped(event: int, data: IrqData) {
    && (event == IrqCentralConnect || event == IrqCentralDisconnect ==> data.Central?)
    && (event == IrqGattsWrite ==> data.Write?)
  }

  /** One `gatts_notify(conn_handle, value_handle, data)` call. */
  datatype Notification = Notification(connHandle: int, attrHandle: int, data: seq<byte>)

  /** One `gap_advertise(interval_us, adv_data=...)` call. */
  datatype Advertising = Advertising(intervalUs: int, advData: seq<byte>)

  // ---------------------------------------------------------------------------
  // The specification of connection tracking

  datatype ConnEvent = Connect(handle: int) | Disconnect(handle: int)

  /** The connection event an IRQ stands for, if any. */
  function ConnEventOf(event: int, data: IrqData): Option<ConnEvent> {
    if event == IrqCentralConnect && data.Central? then Some(Connect(data.connHandle))
    else if event == IrqCentralDisconnect && data.Central? then Some(Disconnect(data.connHandle))
    else None
  }

  /** `set.add` on a connect, `set.remove` on a disconnect; `None` where `remove` raises `KeyError`. */
  function Track(conns: set<int>, e: ConnEvent): Option<set<int>> {
    match e
    case Connect(h) => Some(conns + {h})
    case Disconnect(h) => if h in conns then Some(conns - {h}) else None
  }

  /** Tracking a run of events from `conns`; `None` once a step raises. */
  function Replay(conns: set<int>, es: seq<ConnEvent>): Option<set<int>>
    decreases |es|
  {
    if es == [] then Some(conns)
    else match Replay(conns, es[..|es| - 1])
      case None => None
      case Some(before) => Track(before, es[|es| - 1])
  }

  /** Whether handle `h` is connected after `es`: its latest event says so, or, with none, it was connected at the start. */
  function Connected(conns: set<int>, es: seq<ConnEvent>, h: int): bool
    decreases |es|
  {
    if es == [] then h in conns
    else if es[|es| - 1].handle == h then es[|es| - 1].Connect?
    else Connected(conns, es[..|es| - 1], h)
  }

  /** Every disconnect in `es` names a handle connected at that point. */
  predicate WellPaired(conns: set<int>, es: seq<ConnEvent>) {
    forall i :: 0 <= i < |es| && es[i].Disconnect? ==> Connected(conns, es[..i], es[i].handle)
  }

  // ---------------------------------------------------------------------------
  // The handler object

  class CharacteristicHandler {
    var connections: set<int>
    var hasWriteCallback: bool
    const payload: seq<byte>
    const handleTx: int
    const handleRx: int
    /** The `gap_advertise` calls made so far. */
    var advertised: seq<Advertising>
    /** The values handed to the write callback so far. */
    var delivered: seq<seq<byte>>

    /**
     * `__init__`: no connection, no callback, and the payload
     * `advertising_payload(name="mpy-uart", services=[_UART_UUID])`, which
     * fits the 31 octets exactly.
     */
    constructor (handleTx: int, handleRx: int)
      ensures connections == {} && !hasWriteCallback && advertised == [] && delivered == []
      ensures this.handleTx == handleTx && this.handleRx == handleRx
      ensures Ok(payload) == EncodePayload(false, false, Some(UartName), Some([UartServiceUuid]), 0)
      ensures |payload| == MaxPayloadLength
    {
      var r := AdvertisingPayload(false, false, Some(UartName), Some([UartServiceUuid]), 0);
      UartPayloadFits();
      connections := {};
      hasWriteCallback := false;
      payload := r.value;
      this.handleTx := handleTx;
      this.handleRx := handleRx;
      advertised := [];
      delivered := [];
    }

    /** `is_connected`. */
    function IsConnected(): (r: bool)
      reads this
      ensures r <==> connections != {}
    {
      |connections| > 0
    }

    /** `_advertise`: start advertising the payload. */
    method Advertise(intervalUs: int)
      modifies this`advertised
      ensures advertised == old(advertised) + [Advertising(intervalUs, payload)]
    {
      advertised := advertised + [Advertising(intervalUs, payload)];
    }

    /** `on_write`: `registered` is false when the callback given is `None`. */
    method OnWrite(registered: bool)
      modifies this`hasWriteCallback
      ensures hasWriteCallback == registered
    {
      hasWriteCallback := registered;
    }

    /**
     * `handle_event`; `value` is what `gatts_read` returns for a write. `ok` is
     * false where a disconnect names a handle not in the set and `remove`
     * raises, before advertising again.
     */
    method HandleEvent(event: int, data: IrqData, value: seq<byte>) returns (ok: bool)
      requires Shaped(event, data)
      modifies this`connections, this`advertised, this`delivered
      ensures match ConnEventOf(event, data)
        case Some(e) =>
          ok == Track(old(connections), e).Some?
          && connections == (if ok then Track(old(connections), e).value else old(connections))
        case None => ok && connections == old(connections)
      ensures advertised == if event == IrqCentralDisconnect && ok
        then old(advertised) + [Advertising(DefaultIntervalUs, payload)] else old(advertised)
      ensures delivered == if event == IrqGattsWrite && data.valueHandle == handleRx && hasWriteCallback
        then old(delivered) + [value] else old(delivered)
    {
      ok := true;
      if event == IrqCentralConnect {
        connections := connections + {data.connHandle};
      } else if event == IrqCentralDisconnect {
        if data.connHandle !in connections {
          return false;
        }
        connections := connections - {data.connHandle};
        Advertise(DefaultIntervalUs);
      } else if event == IrqGattsWrite {
        if data.valueHandle == handleRx && hasWriteCallback {
          delivered := delivered + [value];
        }
      }
    }

    /** `send`: one notification on the TX handle to every connected central, each exactly once. */
    method Send(data: seq<byte>) returns (sent: seq<Notification>)
      ensures |sent| == |connections|
      ensures forall n :: n in sent ==> n.connHandle in connections && n.attrHandle == handleTx && n.data == data
      ensures forall c :: c in connections ==> Notification(c, handleTx, data) in sent
    {
      sent := [];
      var remaining := connections;
      while remaining != {}
        invariant remaining <= connections
        invariant |sent| + |remaining| == |connections|
        invariant forall n :: n in sent ==> n.connHandle in connections - remaining && n.attrHandle == handleTx && n.data == data
        invariant forall c :: c in connections - remaining ==> Notification(c, handleTx, data) in sent
        decreases |remaining|
      {
        assert exists c :: c in remaining by {
          if forall c :: c !in remaining {
            assert false;
          }
        }
        var c :| c in remaining;
        sent := sent + [Notification(c, handleTx, data)];
        remaining := remaining - {c};
      }
    }
  }

  // ---------------------------------------------------------------------------
  // Properties of connection tracking

  /** A connect followed by a disconnect of the same handle leaves that handle out. */
  lemma ConnectThenDisconnect(conns: set<int>, h: int)
    ensures Replay(conns, [Connect(h), Disconnect(h)]) == Some(conns - {h})
  {
    assert [Connect(h), Disconnect(h)][..1] == [Connect(h)];
    assert [Connect(h)][..0] == [];
    assert Replay(conns, [Connect(h)]) == Some(conns + {h});
    assert (conns + {h}) - {h} == conns - {h};
  }

  /** A disconnect of a handle not in the set fails and the set is unchanged by it. */
  lemma DisconnectAbsentFails(conns: set<int>, h: int)
    requires h !in conns
    ensures Track(conns, Disconnect(h)).None?
    ensures Track(conns, Connect(h)) == Some(conns + {h}) && Track(conns + {h}, Disconnect(h)) == Some(conns)
  {
  }

  /** After a run that does not fail, the set holds exactly the handles whose latest event is a connect (or that were there and had none). */
  lemma {:induction false} ReplayTracksLatest(conns: set<int>, es: seq<ConnEvent>, h: int)
    requires Replay(conns, es).Some?
    ensures h in Replay(conns, es).value <==> Connected(conns, es, h)
    decreases |es|
  {
    if es != [] {
      ReplayTracksLatest(conns, es[..|es| - 1], h);
    }
  }

  /** A run fails exactly when one of its disconnects names a handle not connected at that point. */
  lemma {:induction false} ReplaySucceedsIff(conns: set<int>, es: seq<ConnEvent>)
    ensures Replay(conns, es).Some? <==> WellPaired(conns, es)
    decreases |es|
  {
    if es != [] {
      var init := es[..|es| - 1];
      var last := es[|es| - 1];
      ReplaySucceedsIff(conns, init);
      assert forall i :: 0 <= i < |init| ==> es[..i] == init[..i] && es[i] == init[i];
      assert es[..|es| - 1] == init;
      if Replay(conns, init).Some? {
        ReplayTracksLatest(conns, init, last.handle);
      }
      if WellPaired(conns, es) {
        assert WellPaired(conns, init);
      }
    }
  }

  /** A connect appended to a run that does not fail adds exactly its handle, which then counts as connected. */
  lemma ConnectedAfterConnect(conns: set<int>, es: seq<ConnEvent>, h: int)
    requires Replay(conns, es).Some?
    ensures Replay(conns, es + [Connect(h)]) == Some(Replay(conns, es).value + {h})
    ensures Connected(conns, es + [Connect(h)], h)
  {
    assert (es + [Connect(h)])[..|es|] == es;
  }
}
