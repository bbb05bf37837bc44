/** The session facade of bluetooth.c: a registry of backends looked up by
    name prefix, a session record holding the chosen backend, its handle and
    the last error, and forwarding operations that answer a default when
    there is no session, no backend or no function in the wanted slot. */
module Bluetooth {
  import opened CStr
  import opened BluetoothctlText
  import Bluetoothctl
  import Bluez
  import BluezTree

  /** `BLUETOOTH_ERROR_OPEN`. */
  const BLUETOOTH_ERROR_OPEN: int := -1
  /** The size of the session's `errmsg` buffer and of the `strerror_r` buffer. */
  const ERRMSG_SIZE: nat := 128
  const STRERROR_SIZE: nat := 64

  /** The seven function slots of `bluetooth_backend_t`. */
  datatype Slot = InitSlot | FreeSlot | ScanSlot | GetDevicesSlot | IsConnectedSlot | ConnectSlot | DisconnectSlot

  datatype Kind = BluetoothctlKind | BluezKind

  /** A backend descriptor: which implementation it names, its identifier,
      and which of its slots hold a function. */
  datatype Backend = Backend(kind: Kind, ident: string, slots: set<Slot>)

  const ALL_SLOTS: set<Slot> :=
    {InitSlot, FreeSlot, ScanSlot, GetDevicesSlot, IsConnectedSlot, ConnectSlot, DisconnectSlot}

  const BLUETOOTHCTL_BACKEND := Backend(BluetoothctlKind, "bluetoothctl", ALL_SLOTS)
  const BLUEZ_BACKEND := Backend(BluezKind, "bluez", ALL_SLOTS)

  /** `bluetooth_backends`: only the bluetoothctl backend is registered;
      the bus backend is defined but not listed. */
  const REGISTRY: seq<Backend> := [BLUETOOTHCTL_BACKEND]

  /** The first backend whose identifier begins with `name`. */
  function Lookup(reg: seq<Backend>, name: string): (r: Option<Backend>)
    ensures r.Some? ==> r.value in reg && StartsWith(r.value.ident, name)
  {
    if reg == [] then None
    else if StartsWith(reg[0].ident, name) then Some(reg[0])
    else Lookup(reg[1..], name)
  }

  /** `Lookup` finds a backend exactly when some identifier begins with
      `name`, and no earlier identifier does. */
  lemma {:induction false} LookupIsFirst(reg: seq<Backend>, name: string)
    ensures Lookup(reg, name).Some? <==> exists k :: 0 <= k < |reg| && StartsWith(reg[k].ident, name)
    ensures Lookup(reg, name).Some? ==>
      exists k :: (0 <= k < |reg| && reg[k] == Lookup(reg, name).value
        && forall j :: 0 <= j < k ==> !StartsWith(reg[j].ident, name))
  {
    if reg != [] && !StartsWith(reg[0].ident, name) {
      LookupIsFirst(reg[1..], name);
      if Lookup(reg[1..], name).Some? {
        var k :| 0 <= k < |reg[1..]| && reg[1..][k] == Lookup(reg[1..], name).value
          && forall j :: 0 <= j < k ==> !StartsWith(reg[1..][j].ident, name);
        assert reg[k + 1] == Lookup(reg, name).value;
        forall j | 0 <= j < k + 1
          ensures !StartsWith(reg[j].ident, name)
        {
          if j > 0 { assert reg[j] == reg[1..][j - 1]; }
        }
      }
      if exists k :: 0 <= k < |reg| && StartsWith(reg[k].ident, name) {
        var k :| 0 <= k < |reg| && StartsWith(reg[k].ident, name);
        assert k > 0 && reg[1..][k - 1] == reg[k];
      }
    } else if reg != [] {
      assert StartsWith(reg[0].ident, name);
    }
  }

  /** A name selects the bluetoothctl backend exactly when it is a prefix of
      `bluetoothctl`; every other name, `bluez` included, selects nothing. */
  lemma RegistryLookup(name: string)
    ensures Lookup(REGISTRY, name) == (if StartsWith("bluetoothctl", name) then Some(BLUETOOTHCTL_BACKEND) else None)
  {
    assert REGISTRY[1..] == [];
  }

  /** Sample names, among them those the command-line driver and the tests
      open. */
  lemma RegistryExamples()
    ensures Lookup(REGISTRY, "") == Some(BLUETOOTHCTL_BACKEND)
    ensures Lookup(REGISTRY, "blue") == Some(BLUETOOTHCTL_BACKEND)
    ensures Lookup(REGISTRY, "bluetoothctl") == Some(BLUETOOTHCTL_BACKEND)
    ensures Lookup(REGISTRY, "bluez") == None
  {
    RegistryLookup("");
    RegistryLookup("blue");
    RegistryLookup("bluetoothctl");
    RegistryLookup("bluez");
    assert "bluetoothctl"[..5] != "bluez" by {
      assert "bluetoothctl"[4] != "bluez"[4];
    }
  }

  /** The backend a session holds after looking up `name`: the registry's
      match, or the one it held before when nothing matches. */
  function Chosen(prev: Option<Backend>, name: string): (r: Option<Backend>)
    ensures Lookup(REGISTRY, name).Some? ==> r == Lookup(REGISTRY, name)
    ensures Lookup(REGISTRY, name).None? ==> r == prev
  {
    match Lookup(REGISTRY, name)
    case Some(b) => Some(b)
    case None => prev
  }

  /** The ` : <text> [errno N]` tail added for a nonzero errno; the text is
      what fits the 64-byte `strerror_r` buffer. */
  function ErrnoSuffix(errno: cint, errText: string): string
  {
    ": " + Truncate(errText, STRERROR_SIZE - 1) + " [errno " + IntToString(errno as int) + "]"
  }

  /** The text `_bluetooth_error` leaves in the 128-byte buffer: the message
      cut to 127 characters and, for a nonzero errno, as much of the errno
      tail as still fits. */
  function FormatError(msg: string, errno: cint, errText: string): (r: string)
    ensures |r| < ERRMSG_SIZE
    ensures Truncate(msg, ERRMSG_SIZE - 1) <= r
    ensures errno == 0 ==> r == Truncate(msg, ERRMSG_SIZE - 1)
  {
    var head := Truncate(msg, ERRMSG_SIZE - 1);
    if errno == 0 then head
    else head + Truncate(ErrnoSuffix(errno, errText), ERRMSG_SIZE - 1 - |head|)
  }

  /** When message and tail fit together, both appear whole. */
  lemma FormatErrorWhole(msg: string, errno: cint, errText: string)
    requires errno != 0
    requires |msg| + |ErrnoSuffix(errno, errText)| < ERRMSG_SIZE
    ensures FormatError(msg, errno, errText) == msg + ErrnoSuffix(errno, errText)
  {
  }

  /** For a nonzero errno, what follows the cut message is the start of the
      errno tail, as long as the buffer allows: all of the tail when it fits,
      otherwise exactly up to the 127th character. */
  lemma FormatErrorTail(msg: string, errno: cint, errText: string)
    requires errno != 0
    ensures var head := Truncate(msg, ERRMSG_SIZE - 1);
      var r := FormatError(msg, errno, errText);
      && r[|head|..] <= ErrnoSuffix(errno, errText)
      && |r| == if |head| + |ErrnoSuffix(errno, errText)| < ERRMSG_SIZE - 1
                then |head| + |ErrnoSuffix(errno, errText)| else ERRMSG_SIZE - 1
  {
    var head := Truncate(msg, ERRMSG_SIZE - 1);
    var tail := Truncate(ErrnoSuffix(errno, errText), ERRMSG_SIZE - 1 - |head|);
    assert (head + tail)[|head|..] == tail;
  }

  /** A message that fills the buffer leaves no room for the errno tail. */
  lemma FormatErrorFull(msg: string, errno: cint, errText: string)
    requires |msg| >= ERRMSG_SIZE - 1
    ensures FormatError(msg, errno, errText) == msg[..ERRMSG_SIZE - 1]
  {
  }

  /** The handle the session holds (`backend_handle`), typed by backend. */
  datatype Instance =
    | NoInstance
    | CtlInstance(ctl: Bluetoothctl.Handle)
    | BluezInstance(bz: Bluez.Handle)

  /** `bt != NULL && bt->backend != NULL && bt->backend-><slot> != NULL`. */
  predicate Forwards(bt: Session?, slot: Slot)
    reads bt
  {
    bt != null && bt.backend.Some? && slot in bt.backend.value.slots
  }

  class Session {
    var backend: Option<Backend>
    var instance: Instance
    var cErrno: cint
    var errmsg: string
    /** Set once the backend's `free` has run on the current handle. */
    ghost var released: bool

    ghost predicate Valid()
      reads this
    {
      |errmsg| < ERRMSG_SIZE
    }

    /** The backend holds a live handle of its own kind, so forwarding to it
        is defined. */
    ghost predicate Attached()
      reads this
    {
      backend.Some? && !released
      && match backend.value.kind
         case BluetoothctlKind => instance.CtlInstance?
         case BluezKind => instance.BluezInstance?
    }

    /** `bluetooth_new`: a zeroed session. */
    constructor ()
      ensures backend == None && instance == NoInstance
      ensures cErrno == 0 && errmsg == "" && !released
      ensures Valid()
    {
      backend := None;
      instance := NoInstance;
      cErrno := 0;
      errmsg := "";
      released := false;
    }

    /** `_bluetooth_error`: records errno and the formatted message, and
        hands back `code`. */
    method Error(code: int, errno: cint, msg: string, errText: string) returns (rc: int)
      modifies this`cErrno, this`errmsg
      ensures rc == code && cErrno == errno
      ensures errmsg == FormatError(msg, errno, errText)
      ensures Valid()
    {
      cErrno := errno;
      errmsg := Truncate(msg, ERRMSG_SIZE - 1);
      if errno != 0 {
        var room := ERRMSG_SIZE - 1 - |errmsg|;
        errmsg := errmsg + Truncate(ErrnoSuffix(errno, errText), room);
      }
      return code;
    }

    /** `bluetooth_open`. A missing name is an error. Otherwise the first
        registry entry whose identifier begins with the name becomes the
        backend (an earlier backend stays when none does) and its `init`
        runs; only a session still without a backend reports the name as not
        found. Success writes no message, so an earlier one survives. */
    method Open(name: Option<string>, sh: Shell) returns (rc: int)
      modifies this
      ensures name.None? ==>
        (rc == BLUETOOTH_ERROR_OPEN && cErrno == 0
         && errmsg == "Bluetooth backend param invalid"
         && backend == old(backend) && instance == old(instance) && released == old(released))
      ensures name.Some? ==> backend == Chosen(old(backend), name.value)
      ensures name.Some? && backend.None? ==>
        (rc == BLUETOOTH_ERROR_OPEN && cErrno == 0
         && errmsg == FormatError("Bluetooth backend " + name.value + " not found", 0, "")
         && instance == old(instance) && released == old(released))
      ensures name.Some? && backend.Some? && InitSlot !in backend.value.slots ==>
        (rc == BLUETOOTH_ERROR_OPEN && cErrno == 0
         && errmsg == FormatError("Bluetooth backend " + name.value + " not implemented yet", 0, "")
         && instance == old(instance) && released == old(released))
      ensures name.Some? && backend.Some? && InitSlot in backend.value.slots ==>
        (!released
         && (backend.value.kind == BluetoothctlKind ==>
               ((instance.CtlInstance? <==> ProbeSucceeds(sh.status(PROBE_COMMAND)))
                && (instance.NoInstance? <==> !ProbeSucceeds(sh.status(PROBE_COMMAND)))
                && (instance.CtlInstance? ==>
                      (fresh(instance.ctl) && instance.ctl.devices == [] && instance.ctl.log == []
                       && instance.ctl.Valid()))))
         && (backend.value.kind == BluezKind ==>
               (instance.BluezInstance? && fresh(instance.bz)
                && instance.bz.devices == [] && instance.bz.adapter == "" && instance.bz.bus == []))
         && (instance.NoInstance? ==>
               (rc == BLUETOOTH_ERROR_OPEN && cErrno == 0
                && errmsg == FormatError("Bluetooth init fail", 0, "")))
         && (!instance.NoInstance? ==> (rc == 0 && cErrno == old(cErrno) && errmsg == old(errmsg))))
      ensures rc == 0 ==> Attached()
      ensures old(Valid()) ==> Valid()
    {
      if name.None? {
        rc := Error(BLUETOOTH_ERROR_OPEN, 0, "Bluetooth backend param invalid", "");
        return;
      }
      var n := name.value;
      var i := 0;
      while i < |REGISTRY|
        invariant 0 <= i <= |REGISTRY|
        invariant Lookup(REGISTRY, n) == Lookup(REGISTRY[i..], n)
        invariant backend == old(backend)
      {
        assert REGISTRY[i..][1..] == REGISTRY[i + 1..];
        if StartsWith(REGISTRY[i].ident, n) {
          backend := Some(REGISTRY[i]);
          break;
        }
        i := i + 1;
      }
      if backend.None? {
        rc := Error(BLUETOOTH_ERROR_OPEN, 0, "Bluetooth backend " + n + " not found", "");
        return;
      }
      if InitSlot in backend.value.slots {
        match backend.value.kind {
          case BluetoothctlKind =>
            var h := Bluetoothctl.Handle.Init(sh);
            instance := if h == null then NoInstance else CtlInstance(h);
          case BluezKind =>
            var h := new Bluez.Handle();
            instance := BluezInstance(h);
        }
        released := false;
        if instance.NoInstance? {
          rc := Error(BLUETOOTH_ERROR_OPEN, 0, "Bluetooth init fail", "");
          return;
        }
      } else {
        rc := Error(BLUETOOTH_ERROR_OPEN, 0, "Bluetooth backend " + n + " not implemented yet", "");
        return;
      }
      rc := 0;
    }

    /** `bluetooth_errmsg`: the last stored message. */
    function ErrMsg(): (m: string)
      reads this
      requires Valid()
      ensures |m| < ERRMSG_SIZE
    {
      errmsg
    }
  }

  /** `bluetooth_close`: nothing without a session or a backend; otherwise
      the backend's `free` runs once on its handle, and the backend stays
      recorded. */
  method Close(bt: Session?)
    requires Forwards(bt, FreeSlot) ==> bt.Attached()
    modifies if Forwards(bt, FreeSlot) then {bt} + Objects(bt.instance) else {}
    ensures Forwards(bt, FreeSlot) ==> bt.released
    ensures bt != null ==> bt.backend == old(bt.backend) && bt.instance == old(bt.instance)
    ensures Forwards(bt, FreeSlot) && bt.instance.CtlInstance? ==> bt.instance.ctl.devices == []
    ensures Forwards(bt, FreeSlot) && bt.instance.BluezInstance? ==> bt.instance.bz.devices == []
    ensures bt != null ==> bt.errmsg == old(bt.errmsg) && bt.cErrno == old(bt.cErrno)
    ensures bt != null && bt.instance.CtlInstance? ==> bt.instance.ctl.log == old(bt.instance.ctl.log)
    ensures bt != null && bt.instance.BluezInstance? ==>
      bt.instance.bz.adapter == old(bt.instance.bz.adapter) && bt.instance.bz.bus == old(bt.instance.bz.bus)
  {
    if bt == null || bt.backend.None? {
      return;
    }
    if FreeSlot in bt.backend.value.slots {
      match bt.instance {
        case CtlInstance(h) => h.Free();
        case BluezInstance(h) => h.Free();
      }
      bt.released := true;
    }
  }

  /** The objects a handle consists of, for frames. */
  function Objects(i: Instance): set<object>
  {
    match i
    case NoInstance => {}
    case CtlInstance(h) => {h}
    case BluezInstance(h) => {h}
  }

  /** `bluetooth_scan`: runs the backend's scan, or nothing. */
  method Scan(bt: Session?, timeout: cint, sh: Shell, replies: Bluez.BusReplies)
    requires Forwards(bt, ScanSlot) ==> bt.Attached()
    requires Forwards(bt, ScanSlot) && bt.instance.CtlInstance? ==> LinesDefined(sh.output(LIST_COMMAND))
    requires Forwards(bt, ScanSlot) && bt.instance.BluezInstance? ==>
      (replies.objects.Some? ==> BluezTree.AdapterFits(replies.objects.value))
      && (replies.rescan.Some? ==> BluezTree.ReplyDefined(replies.rescan.value))
    modifies if Forwards(bt, ScanSlot) then Objects(bt.instance) else {}
    ensures Forwards(bt, ScanSlot) && bt.instance.CtlInstance? ==>
      bt.instance.ctl.devices == DeviceRecords(sh.output(LIST_COMMAND))
      && bt.instance.ctl.log == old(bt.instance.ctl.log) + ScanCommands(timeout)
    ensures Forwards(bt, ScanSlot) && bt.instance.BluezInstance? ==>
      bt.instance.bz.devices
        == if Bluez.ReachesRescan(replies)
           then BluezTree.ReadScanned(replies.rescan.value, old(bt.instance.bz.devices)).devices
           else old(bt.instance.bz.devices)
  {
    if bt != null && bt.backend.Some? && ScanSlot in bt.backend.value.slots {
      match bt.instance {
        case CtlInstance(h) => h.Scan(timeout, sh);
        case BluezInstance(h) => h.Scan(timeout, replies);
      }
    }
  }

  /** `bluetooth_get_devices`: the backend's count, or 0. */
  method GetDevices(bt: Session?, devs: array<string>, devnum: cint) returns (n: int)
    requires Forwards(bt, GetDevicesSlot) ==> bt.Attached()
    requires Forwards(bt, GetDevicesSlot) && bt.instance.CtlInstance? ==>
      bt.instance.ctl.Valid()
      && devs.Length >= Bluetoothctl.CopyCount(|bt.instance.ctl.devices|, devnum)
    modifies devs
    ensures !Forwards(bt, GetDevicesSlot) ==> n == 0 && devs[..] == old(devs[..])
    ensures Forwards(bt, GetDevicesSlot) && bt.instance.CtlInstance? ==>
      n == Bluetoothctl.CopyCount(|bt.instance.ctl.devices|, devnum)
      && (forall k :: 0 <= k < n ==> devs[k] == bt.instance.ctl.devices[k].name)
      && (forall k :: n <= k < devs.Length ==> devs[k] == old(devs[k]))
    ensures Forwards(bt, GetDevicesSlot) && bt.instance.BluezInstance? ==> n == 0 && devs[..] == old(devs[..])
  {
    if bt != null && bt.backend.Some? && GetDevicesSlot in bt.backend.value.slots {
      match bt.instance {
        case CtlInstance(h) => n := h.GetDevices(devs, devnum);
        case BluezInstance(h) => n := h.GetDevices(devs, devnum);
      }
      return;
    }
    return 0;
  }

  /** `bluetooth_device_is_connected`: the backend's answer, or false. */
  method IsConnected(bt: Session?, q: string, sh: Shell) returns (r: bool)
    requires Forwards(bt, IsConnectedSlot) ==> bt.Attached()
    modifies if Forwards(bt, IsConnectedSlot) then Objects(bt.instance) else {}
    ensures !Forwards(bt, IsConnectedSlot) ==> !r
    ensures Forwards(bt, IsConnectedSlot) && bt.instance.CtlInstance? ==>
      r == Probe(bt.instance.ctl.devices, q, sh).0
      && bt.instance.ctl.log == old(bt.instance.ctl.log) + Probe(bt.instance.ctl.devices, q, sh).1
    ensures Forwards(bt, IsConnectedSlot) && bt.instance.BluezInstance? ==> !r
    ensures bt != null && bt.instance.CtlInstance? ==> bt.instance.ctl.devices == old(bt.instance.ctl.devices)
    ensures bt != null && bt.instance.BluezInstance? ==> unchanged(bt.instance.bz)
  {
    if bt != null && bt.backend.Some? && IsConnectedSlot in bt.backend.value.slots {
      match bt.instance {
        case CtlInstance(h) => r := h.IsConnected(q, sh);
        case BluezInstance(h) => r := h.IsConnected(q);
      }
      return;
    }
    return false;
  }

  /** `bluetooth_connect_device`: the backend's answer, or false. */
  method Connect(bt: Session?, q: string, timeout: cint, sh: Shell) returns (r: bool)
    requires Forwards(bt, ConnectSlot) ==> bt.Attached()
    modifies if Forwards(bt, ConnectSlot) then Objects(bt.instance) else {}
    ensures !Forwards(bt, ConnectSlot) ==> !r
    ensures Forwards(bt, ConnectSlot) && bt.instance.CtlInstance? ==>
      r == ConnectOutcome(bt.instance.ctl.devices, q, timeout, sh).0
      && bt.instance.ctl.log == old(bt.instance.ctl.log) + ConnectOutcome(bt.instance.ctl.devices, q, timeout, sh).1
    ensures Forwards(bt, ConnectSlot) && bt.instance.BluezInstance? ==> !r
    ensures bt != null && bt.instance.CtlInstance? ==> bt.instance.ctl.devices == old(bt.instance.ctl.devices)
    ensures bt != null && bt.instance.BluezInstance? ==> unchanged(bt.instance.bz)
  {
    if bt != null && bt.backend.Some? && ConnectSlot in bt.backend.value.slots {
      match bt.instance {
        case CtlInstance(h) => r := h.Connect(q, timeout, sh);
        case BluezInstance(h) => r := h.Connect(q, timeout);
      }
      return;
    }
    return false;
  }

  /** `bluetooth_disconnect_device`: the backend's answer, or false. */
  method Disconnect(bt: Session?, q: string, timeout: cint, sh: Shell) returns (r: bool)
    requires Forwards(bt, DisconnectSlot) ==> bt.Attached()
    modifies if Forwards(bt, DisconnectSlot) then Objects(bt.instance) else {}
    ensures !Forwards(bt, DisconnectSlot) ==> !r
    ensures Forwards(bt, DisconnectSlot) && bt.instance.CtlInstance? ==>
      r == DisconnectOutcome(bt.instance.ctl.devices, q, timeout, sh).0
      && bt.instance.ctl.log == old(bt.instance.ctl.log) + DisconnectOutcome(bt.instance.ctl.devices, q, timeout, sh).1
    ensures Forwards(bt, DisconnectSlot) && bt.instance.BluezInstance? ==> !r
    ensures bt != null && bt.instance.CtlInstance? ==> bt.instance.ctl.devices == old(bt.instance.ctl.devices)
    ensures bt != null && bt.instance.BluezInstance? ==> unchanged(bt.instance.bz)
  {
    if bt != null && bt.backend.Some? && DisconnectSlot in bt.backend.value.slots {
      match bt.instance {
        case CtlInstance(h) => r := h.Disconnect(q, timeout, sh);
        case BluezInstance(h) => r := h.Disconnect(q, timeout);
      }
      return;
    }
    return false;
  }
}
