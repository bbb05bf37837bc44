/** The bus backend of src/bluez.c: a handle holding the resolved adapter
    path, the device list rebuilt by each scan, and (in place of the D-Bus
    connection) the log of bus requests the handle has issued. The two
    walkers over a `GetManagedObjects` reply are proved against the
    functions of `BluezTree`. */
module Bluez {
  import opened CStr
  import opened DBus
  import opened BluezTree

  /** The bus requests `bluez_scan` makes, in the order it makes them. */
  datatype BusCall =
    | OpenConnection
    | GetManagedObjects
    | SetPowered(adapter: string)
    | StartDiscovery(adapter: string)
    | StopDiscovery(adapter: string)
    | CloseConnection

  /** What the bus answers during one scan: the first `GetManagedObjects`
      reply (`None` when no reply arrives), whether the `Powered` property
      set, `StartDiscovery` and `StopDiscovery` go through, and the second
      `GetManagedObjects` reply. */
  datatype BusReplies = BusReplies(
    objects: Option<seq<Value>>,
    powered: bool,
    started: bool,
    stopped: bool,
    rescan: Option<seq<Value>>)

  /** The requests a scan issues once the adapter `a` is resolved: each
      step runs only if the one before it succeeded, and the connection is
      closed only at the end of the full sequence. */
  function DiscoveryCalls(a: string, r: BusReplies): seq<BusCall>
  {
    var afterStop := if r.rescan.None? then [] else [CloseConnection];
    var afterStart := if !r.stopped then [] else [GetManagedObjects] + afterStop;
    var afterPower := if !r.started then [] else [StopDiscovery(a)] + afterStart;
    [SetPowered(a)] + (if !r.powered then [] else [StartDiscovery(a)] + afterPower)
  }

  /** The discovery requests start with powering the adapter; discovery is
      started exactly when powering went through and stopped exactly when it
      was started, the objects are fetched again exactly when stopping went
      through, and the connection is closed
      exactly when every step succeeded and the second reply arrived, as
      the last request. */
  lemma DiscoveryCallsOrder(a: string, r: BusReplies)
    ensures var calls := DiscoveryCalls(a, r);
      && 1 <= |calls| <= 5 && calls[0] == SetPowered(a)
      && (StartDiscovery(a) in calls <==> r.powered)
      && (StopDiscovery(a) in calls <==> r.powered && r.started)
      && (GetManagedObjects in calls <==> r.powered && r.started && r.stopped)
      && (CloseConnection in calls <==> r.powered && r.started && r.stopped && r.rescan.Some?)
      && (CloseConnection in calls ==> calls[|calls| - 1] == CloseConnection)
  {
  }

  /** A scan gets as far as decoding the second reply. */
  predicate ReachesRescan(r: BusReplies)
  {
    r.objects.Some? && FindAdapter(r.objects.value).Found?
    && r.powered && r.started && r.stopped && r.rescan.Some?
  }

  /** The property loop of `read_scanned_devices` for one Device1
      interface: fills a zeroed record field by field. */
  method ReadDeviceProperties(path: string, props: seq<Value>) returns (dev: Option<Device>)
    requires PropertiesDefined(props)
    ensures dev == ReadProperties(props, NewDevice(path))
  {
    var d := NewDevice(path);
    var k := 0;
    while k < |props|
      invariant 0 <= k <= |props|
      invariant ReadProperties(props, NewDevice(path)) == ReadProperties(props[k..], d)
    {
      var e := props[k];
      assert props[k..][1..] == props[k + 1..];
      if !e.DictEntry? { return None; }
      if |e.fields| == 0 || !e.fields[0].Str? { return None; }
      var name := e.fields[0].text;
      if |e.fields| < 2 { return None; }
      if !e.fields[1].Variant? { return None; }
      d := ApplyProperty(d, name, e.fields[1].inner);
      k := k + 1;
    }
    return Some(d);
  }

  class Handle {
    var adapter: string
    var devices: seq<Device>
    var bus: seq<BusCall>

    /** `bluez_init`: a zeroed handle with an empty device list. */
    constructor ()
      ensures adapter == "" && devices == [] && bus == []
    {
      adapter := "";
      devices := [];
      bus := [];
    }

    /** `free_devices`: unlinks the records one at a time until none is left. */
    method FreeDevices()
      modifies this`devices
      ensures devices == []
    {
      while devices != []
        decreases |devices|
      {
        devices := devices[1..];
      }
    }

    /** `bluez_free`: empties the device list (the handle's own memory is
        not modelled). */
    method Free()
      modifies this`devices
      ensures devices == []
    {
      FreeDevices();
    }

    /** `get_default_adapter`: 0 and the adapter path stored when an adapter
        is found, 1 otherwise with the stored path untouched. */
    method GetDefaultAdapter(reply: seq<Value>) returns (rc: int)
      requires AdapterFits(reply)
      modifies this`adapter
      ensures rc == (if FindAdapter(reply).Found? then 0 else 1)
      ensures adapter == (if FindAdapter(reply).Found? then FindAdapter(reply).path else old(adapter))
    {
      if |reply| == 0 { return 1; }
      if !reply[0].Array? { return 1; }
      var objs := reply[0].items;
      // The do-while examines the first entry before it can stop, so an
      // empty object map fails its dict-entry test.
      if objs == [] { return 1; }
      var i := 0;
      while i < |objs|
        invariant 0 <= i <= |objs|
        invariant AdapterAmong(objs) == AdapterAmong(objs[i..])
        invariant adapter == old(adapter)
      {
        var o := objs[i];
        assert objs[i..][1..] == objs[i + 1..];
        if !o.DictEntry? { return 1; }
        if |o.fields| == 0 || !o.fields[0].ObjectPath? { return 1; }
        var path := o.fields[0].path;
        if |o.fields| < 2 { return 1; }
        if !o.fields[1].Array? { return 1; }
        var ifaces := o.fields[1].items;
        var j := 0;
        while j < |ifaces|
          invariant 0 <= j <= |ifaces|
          invariant AdapterIn(ifaces) == AdapterIn(ifaces[j..])
          invariant adapter == old(adapter)
        {
          var e := ifaces[j];
          assert ifaces[j..][1..] == ifaces[j + 1..];
          if !e.DictEntry? { return 1; }
          if |e.fields| == 0 || !e.fields[0].Str? { return 1; }
          if e.fields[0].text == ADAPTER_INTERFACE {
            adapter := path;
            return 0;
          }
          j := j + 1;
        }
        i := i + 1;
      }
      return 1;
    }

    /** `read_scanned_devices`: rebuilds the device list from a reply. The
        return code says whether the walk ran to the end; the list is what
        the walk left, on failure too. */
    method ReadScannedDevices(reply: seq<Value>) returns (rc: int)
      requires ReplyDefined(reply)
      modifies this`devices
      ensures rc == (if ReadScanned(reply, old(devices)).ok then 0 else 1)
      ensures devices == ReadScanned(reply, old(devices)).devices
    {
      if |reply| == 0 { return 1; }
      if !reply[0].Array? { return 1; }
      var objs := reply[0].items;
      if objs == [] { return 1; }
      var i := 0;
      while i < |objs|
        invariant 0 <= i <= |objs|
        invariant ReadObjects(objs, old(devices)) == ReadObjects(objs[i..], devices)
      {
        var o := objs[i];
        assert objs[i..][1..] == objs[i + 1..];
        if !o.DictEntry? { return 1; }
        if |o.fields| == 0 || !o.fields[0].ObjectPath? { return 1; }
        var path := o.fields[0].path;
        if |o.fields| < 2 { return 1; }
        if !o.fields[1].Array? { return 1; }
        var ifaces := o.fields[1].items;
        ghost var before := devices;
        assert ReadObjects(objs[i..], before)
          == var w := ReadInterfaces(path, ifaces, []); if !w.ok then w else ReadObjects(objs[i + 1..], w.devices);
        FreeDevices();
        var j := 0;
        while j < |ifaces|
          invariant 0 <= j <= |ifaces|
          invariant ReadInterfaces(path, ifaces, []) == ReadInterfaces(path, ifaces[j..], devices)
        {
          var e := ifaces[j];
          assert ifaces[j..][1..] == ifaces[j + 1..];
          if !e.DictEntry? { return 1; }
          if |e.fields| == 0 || !e.fields[0].Str? { return 1; }
          if e.fields[0].text == DEVICE_INTERFACE {
            if |e.fields| < 2 { return 1; }
            if !e.fields[1].Array? { return 1; }
            assert e in ifaces && objs[i] in objs;
            var dev := ReadDeviceProperties(path, e.fields[1].items);
            if dev.None? { return 1; }
            devices := devices + [dev.value];
          }
          j := j + 1;
        }
        i := i + 1;
      }
      return 0;
    }

    /** `bluez_scan`: resolves the adapter from a first reply and gives up
        at once, issuing no power or discovery request, when there is none;
        otherwise powers the adapter, runs discovery, and decodes a second
        reply into the device list. Each step runs only if the one before
        it succeeded. */
    method Scan(timeout: cint, replies: BusReplies)
      requires replies.objects.Some? ==> AdapterFits(replies.objects.value)
      requires replies.rescan.Some? ==> ReplyDefined(replies.rescan.value)
      modifies this
      ensures var found := replies.objects.Some? && FindAdapter(replies.objects.value).Found?;
        && (!found ==> adapter == old(adapter) && bus == old(bus) + [OpenConnection, GetManagedObjects])
        && (found ==> (adapter == FindAdapter(replies.objects.value).path
              && bus == old(bus) + [OpenConnection, GetManagedObjects] + DiscoveryCalls(adapter, replies)))
      ensures devices == if ReachesRescan(replies) then ReadScanned(replies.rescan.value, old(devices)).devices
                         else old(devices)
    {
      bus := bus + [OpenConnection];
      bus := bus + [GetManagedObjects];
      if replies.objects.None? { return; }
      var rc := GetDefaultAdapter(replies.objects.value);
      if rc != 0 { return; }
      bus := bus + [SetPowered(adapter)];
      if !replies.powered { return; }
      bus := bus + [StartDiscovery(adapter)];
      if !replies.started { return; }
      bus := bus + [StopDiscovery(adapter)];
      if !replies.stopped { return; }
      bus := bus + [GetManagedObjects];
      if replies.rescan.None? { return; }
      rc := ReadScannedDevices(replies.rescan.value);
      bus := bus + [CloseConnection];
    }

    /** `bluez_get_devices` is a stub: it copies nothing and reports none. */
    method GetDevices(devs: array<string>, devnum: cint) returns (n: int)
      ensures n == 0
    {
      n := 0;
    }

    /** `bluez_device_is_connected` is a stub that always answers no. */
    method IsConnected(device: string) returns (r: bool)
      ensures !r
    {
      r := false;
    }

    /** `bluez_connect_device` is a stub that always reports failure. */
    method Connect(device: string, timeout: cint) returns (r: bool)
      ensures !r
    {
      r := false;
    }

    /** `bluez_disconnect_device` is a stub that always reports failure. */
    method Disconnect(device: string, timeout: cint) returns (r: bool)
      ensures !r
    {
      r := false;
    }
  }
}
