/** The backend of src/bluetoothctl.c: a handle whose device list a scan
    rebuilds from the output of `bluetoothctl -- devices`, and whose other
    operations run `bluetoothctl` subcommands for the device chosen by name
    prefix. Each command line handed to the shell is appended to `log`. */
module Bluetoothctl {
  import opened CStr
  import opened BluetoothctlText

  class Handle {
    var devices: seq<Device>
    var log: seq<string>

    /** Every record fits its buffers. */
    ghost predicate Valid()
      reads this
    {
      forall k :: 0 <= k < |devices| ==> Bounded(devices[k])
    }

    constructor ()
      ensures devices == [] && log == []
      ensures Valid()
    {
      devices := [];
      log := [];
    }

    /** `bluetoothctl_init`: a handle with an empty list when the probe
        `bluetoothctl -v` exits normally with code 0, and none otherwise. */
    static method Init(sh: Shell) returns (h: Handle?)
      ensures (h != null) == ProbeSucceeds(sh.status(PROBE_COMMAND))
      ensures h != null ==> fresh(h) && h.devices == [] && h.log == [] && h.Valid()
    {
      if !ProbeSucceeds(sh.status(PROBE_COMMAND)) {
        return null;
      }
      h := new Handle();
    }

    /** `free_devices`: unlinks the records one at a time until none is left. */
    method FreeDevices()
      modifies this`devices
      ensures devices == []
    {
      while devices != []
        decreases |devices|
      {
        devices := devices[1..];
      }
    }

    /** `bluetoothctl_free`: empties the list (the handle's own memory is not
        modelled). */
    method Free()
      modifies this`devices
      ensures devices == [] && Valid()
    {
      FreeDevices();
    }

    /** `bluetoothctl_scan`: discards the old list, powers on, scans for at
        least one second, and rebuilds the list from the `Device` lines of
        the device listing, in order. */
    method Scan(timeout: cint, sh: Shell)
      requires LinesDefined(sh.output(LIST_COMMAND))
      modifies this
      ensures devices == DeviceRecords(sh.output(LIST_COMMAND))
      ensures log == old(log) + ScanCommands(timeout)
      ensures Valid()
    {
      var t := if timeout < 1 then 1 else timeout;
      FreeDevices();
      var scanOn := Snprintf128("bluetoothctl --timeout " + IntToString(t as int) + " scan on");
      assert scanOn == ScanCommand(timeout);
      log := log + [POWER_ON_COMMAND, scanOn, LIST_COMMAND];
      var pieces := sh.output(LIST_COMMAND);
      var i := 0;
      while i < |pieces|
        invariant 0 <= i <= |pieces|
        invariant log == old(log) + ScanCommands(timeout)
        invariant LinesDefined(pieces[i..])
        invariant DeviceRecords(pieces) == devices + DeviceRecords(pieces[i..])
      {
        var line := pieces[i];
        assert pieces[i..][0] == line && pieces[i..][1..] == pieces[i + 1..];
        if StartsWith(line, DEVICE_PREFIX) {
          devices := devices + [ParseDeviceLine(line)];
        }
        i := i + 1;
      }
      assert pieces[i..] == [];
    }

    /** `bluetoothctl_get_devices`: copies names into `devs` in list order,
        stopping once `devnum` names are copied; a `devnum` below 1 never
        stops the copy early. */
    method GetDevices(devs: array<string>, devnum: cint) returns (num: int)
      requires Valid()
      requires devs.Length >= CopyCount(|devices|, devnum)
      modifies devs
      ensures num == CopyCount(|devices|, devnum)
      ensures forall k :: 0 <= k < num ==> devs[k] == devices[k].name
      ensures forall k :: num <= k < devs.Length ==> devs[k] == old(devs[k])
    {
      num := 0;
      while num < |devices|
        invariant 0 <= num <= |devices|
        invariant devnum >= 1 ==> num < devnum as int
        invariant forall k :: 0 <= k < num ==> devs[k] == devices[k].name
        invariant forall k :: num <= k < devs.Length ==> devs[k] == old(devs[k])
      {
        devs[num] := devices[num].name;
        num := num + 1;
        if num == devnum as int {
          break;
        }
      }
    }

    /** `bluetoothctl_device_is_connected`: asks `bluetoothctl info` about
        each device whose name begins with `q` until one reports itself
        connected. */
    method IsConnected(q: string, sh: Shell) returns (r: bool)
      modifies this`log
      ensures r == Probe(devices, q, sh).0
      ensures log == old(log) + Probe(devices, q, sh).1
    {
      ghost var issued: seq<string> := [];
      var i := 0;
      assert devices[i..] == devices;
      assert issued + Probe(devices, q, sh).1 == Probe(devices, q, sh).1;
      while i < |devices|
        invariant 0 <= i <= |devices|
        invariant log == old(log) + issued
        invariant Probe(devices, q, sh) == (Probe(devices[i..], q, sh).0, issued + Probe(devices[i..], q, sh).1)
      {
        var dev := devices[i];
        assert devices[i..][0] == dev && devices[i..][1..] == devices[i + 1..];
        if StartsWith(dev.name, q) {
          var cmd := InfoCommand(dev.macaddr);
          var lines := sh.output(cmd);
          ghost var rest := Probe(devices[i + 1..], q, sh);
          assert Probe(devices[i..], q, sh)
            == if ReportsConnected(lines) then (true, [cmd]) else (rest.0, [cmd] + rest.1);
          log := log + [cmd];
          issued := issued + [cmd];
          var j := 0;
          while j < |lines|
            invariant 0 <= j <= |lines|
            invariant forall k :: 0 <= k < j ==> !Contains(lines[k], CONNECTED_MARK)
          {
            if Contains(lines[j], CONNECTED_MARK) {
              assert ReportsConnected(lines);
              return true;
            }
            j := j + 1;
          }
          assert !ReportsConnected(lines);
          assert issued + rest.1 == (issued[..|issued| - 1]) + ([cmd] + rest.1);
        }
        i := i + 1;
      }
      return false;
    }

    /** `bluetoothctl_connect_device`: nothing beyond the query when the
        device already reports itself connected; otherwise the four
        pairing and connecting commands for the first device whose name
        begins with `q`, answering whether the last one exited normally. */
    method Connect(q: string, timeout: cint, sh: Shell) returns (r: bool)
      modifies this`log
      ensures r == ConnectOutcome(devices, q, timeout, sh).0
      ensures log == old(log) + ConnectOutcome(devices, q, timeout, sh).1
    {
      var connected := IsConnected(q, sh);
      if connected {
        return true;
      }
      var i := 0;
      while i < |devices|
        invariant 0 <= i <= |devices|
        invariant FirstMatch(devices, q) == FirstMatch(devices[i..], q)
        invariant log == old(log) + Probe(devices, q, sh).1
      {
        var dev := devices[i];
        assert devices[i..][0] == dev && devices[i..][1..] == devices[i + 1..];
        if StartsWith(dev.name, q) {
          ConnectToFirstMatch(devices, q, timeout, sh, dev);
          log := log + [PAIRABLE_COMMAND];
          log := log + [PairCommand(dev.macaddr)];
          log := log + [TrustCommand(dev.macaddr)];
          var cmd := ConnectCommand(timeout, dev.macaddr);
          log := log + [cmd];
          return Exited(sh.status(cmd));
        }
        i := i + 1;
      }
      return false;
    }

    /** `bluetoothctl_disconnect_device`: nothing beyond the query when the
        device does not report itself connected; otherwise one disconnect
        command for the first device whose name begins with `q`, answering
        whether it exited normally. */
    method Disconnect(q: string, timeout: cint, sh: Shell) returns (r: bool)
      modifies this`log
      ensures r == DisconnectOutcome(devices, q, timeout, sh).0
      ensures log == old(log) + DisconnectOutcome(devices, q, timeout, sh).1
    {
      var connected := IsConnected(q, sh);
      if !connected {
        return true;
      }
      var i := 0;
      while i < |devices|
        invariant 0 <= i <= |devices|
        invariant FirstMatch(devices, q) == FirstMatch(devices[i..], q)
      {
        var dev := devices[i];
        assert devices[i..][0] == dev && devices[i..][1..] == devices[i + 1..];
        if StartsWith(dev.name, q) {
          var cmd := DisconnectCommand(timeout, dev.macaddr);
          log := log + [cmd];
          return Exited(sh.status(cmd));
        }
        i := i + 1;
      }
      return false;
    }
  }

  /** How many names `get_devices` copies from a list of `len` devices: the
      counter is compared with `devnum` only after a copy, so a `devnum`
      below 1 never matches it. */
  function CopyCount(len: nat, devnum: cint): (n: nat)
    ensures n <= len
    ensures devnum >= 1 ==> n <= devnum as int
    ensures devnum < 1 ==> n == len
    ensures devnum >= 1 ==> (n == len || n == devnum as int)
  {
    if devnum >= 1 && (devnum as int) < len then devnum as int else len
  }
}
