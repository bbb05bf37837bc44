/** The text side of src/bluetoothctl.c: the command lines the backend hands
    to the shell, how a `Device <MAC> <name>` line of `bluetoothctl --
    devices` is cut into a bounded record, how a device is chosen by name
    prefix, and what an `info` query concludes. The subprocesses themselves
    are an oracle: for each command line, the pieces `fgets` returns in turn
    and the status `pclose` returns. */
module BluetoothctlText {
  import opened CStr

  /** Buffer sizes of `bluetooth_device_t` (the name size is
      `BLUETOOTH_DEVNAME_MAXLEN`); each field keeps one byte for its NUL. */
  const IDENT_SIZE: nat := 128
  const MAC_SIZE: nat := 32
  const NAME_SIZE: nat := 64

  const DEVICE_PREFIX := "Device "
  const CONNECTED_MARK := "Connected: yes"

  const PROBE_COMMAND := "bluetoothctl -v >/dev/null 2>&1"
  const POWER_ON_COMMAND := "bluetoothctl -- power on"
  const LIST_COMMAND := "bluetoothctl -- devices"
  const PAIRABLE_COMMAND := "bluetoothctl -- pairable on"

  /** One entry of the backend's device list. */
  datatype Device = Device(ident: string, macaddr: string, name: string)

  /** Every field fits its buffer with room for the terminating NUL. */
  predicate Bounded(d: Device)
  {
    |d.ident| < IDENT_SIZE && |d.macaddr| < MAC_SIZE && |d.name| < NAME_SIZE
  }

  /** The outside world of the backend: what `fgets` yields, piece by piece,
      from the pipe of each command line, and the status `pclose` returns for
      it. */
  datatype Shell = Shell(output: string -> seq<string>, status: string -> int)

  /** `WIFEXITED`: the low seven bits of the status are zero. */
  predicate Exited(status: int)
  {
    status % 128 == 0
  }

  /** `WEXITSTATUS`: bits 8 to 15 of the status. */
  function ExitCode(status: int): (code: int)
    ensures 0 <= code < 256
  {
    (status / 256) % 256
  }

  /** The test `bluetoothctl_init` applies to the status of its probe. */
  predicate ProbeSucceeds(status: int)
  {
    Exited(status) && ExitCode(status) == 0
  }

  /** A normal exit with code 0 passes the probe; exit code 1, death by
      signal 9 and a failed `pclose` (-1) do not. */
  lemma ProbeStatuses()
    ensures ProbeSucceeds(0)
    ensures !ProbeSucceeds(0x100) && !ProbeSucceeds(9) && !ProbeSucceeds(-1)
  {
  }

  // ----- Commands -----------------------------------------------------------

  /** `timeout < 1` is raised to 1 before the scan command is built. */
  function ScanTimeout(timeout: cint): (t: cint)
    ensures t >= 1
    ensures timeout >= 1 ==> t == timeout
    ensures timeout < 1 ==> t == 1
  {
    if timeout < 1 then 1 else timeout
  }

  function ScanCommand(timeout: cint): string
  {
    Snprintf128("bluetoothctl --timeout " + IntToString(ScanTimeout(timeout) as int) + " scan on")
  }

  function InfoCommand(mac: string): string
  {
    Snprintf128("bluetoothctl info " + mac)
  }

  function PairCommand(mac: string): string
  {
    Snprintf128("bluetoothctl -- pair " + mac)
  }

  function TrustCommand(mac: string): string
  {
    Snprintf128("bluetoothctl -- trust " + mac)
  }

  function ConnectCommand(timeout: cint, mac: string): string
  {
    Snprintf128("bluetoothctl --timeout " + IntToString(timeout as int) + " connect " + mac)
  }

  function DisconnectCommand(timeout: cint, mac: string): string
  {
    Snprintf128("bluetoothctl --timeout " + IntToString(timeout as int) + " disconnect " + mac)
  }

  /** The three commands a scan issues, in order. */
  function ScanCommands(timeout: cint): seq<string>
  {
    [POWER_ON_COMMAND, ScanCommand(timeout), LIST_COMMAND]
  }

  /** The four commands a connect issues for the chosen device, in order. */
  function ConnectCommands(timeout: cint, mac: string): seq<string>
  {
    [PAIRABLE_COMMAND, PairCommand(mac), TrustCommand(mac), ConnectCommand(timeout, mac)]
  }

  /** The scan command carries the timeout, raised to 1 when below 1, as
      decimal digits, and the 128-byte command buffer never cuts it. */
  lemma ScanCommandTimeout(timeout: cint)
    ensures var digits := NatToString(ScanTimeout(timeout) as int);
      && ScanCommand(timeout) == "bluetoothctl --timeout " + digits + " scan on"
      && (forall k :: 0 <= k < |digits| ==> '0' <= digits[k] <= '9')
      && Decimal(digits) == (if timeout < 1 then 1 else timeout as int)
  {
    CIntStringLength(ScanTimeout(timeout));
    NatToStringDenotes(ScanTimeout(timeout) as int);
  }

  /** For a MAC that fits its 32-byte field, no per-device command is cut
      by the 128-byte command buffer. */
  lemma DeviceCommandsFit(timeout: cint, mac: string)
    requires |mac| < MAC_SIZE
    ensures InfoCommand(mac) == "bluetoothctl info " + mac
    ensures PairCommand(mac) == "bluetoothctl -- pair " + mac
    ensures TrustCommand(mac) == "bluetoothctl -- trust " + mac
    ensures ConnectCommand(timeout, mac)
      == "bluetoothctl --timeout " + IntToString(timeout as int) + " connect " + mac
    ensures DisconnectCommand(timeout, mac)
      == "bluetoothctl --timeout " + IntToString(timeout as int) + " disconnect " + mac
  {
    CIntStringLength(timeout);
  }

  // ----- Tokenizing a device line -------------------------------------------

  /** `strchr`: the index of the first `c` in `s`, or `|s|` when there is none. */
  function IndexOf(s: string, c: char): (k: nat)
    ensures k <= |s|
    ensures forall i :: 0 <= i < k ==> s[i] != c
    ensures k < |s| ==> s[k] == c
  {
    if |s| == 0 then 0
    else if s[0] == c then 0
    else 1 + IndexOf(s[1..], c)
  }

  /** The number of spaces `strtok_r` skips before a token starts. */
  function LeadingSpaces(s: string): (k: nat)
    ensures k <= |s|
    ensures forall i :: 0 <= i < k ==> s[i] == ' '
    ensures k < |s| ==> s[k] != ' '
  {
    if |s| == 0 then 0
    else if s[0] != ' ' then 0
    else 1 + LeadingSpaces(s[1..])
  }

  /** The line with its newline and everything after it cut off (the
      newline is overwritten with NUL). */
  function Text(line: string): string
  {
    line[..IndexOf(line, '\n')]
  }

  /** A line the scan turns into a record. */
  predicate IsDeviceLine(line: string)
  {
    StartsWith(line, DEVICE_PREFIX)
  }

  /** What `strtok_r` works through after taking the `Device` token: the
      text between `"Device "` and the newline. */
  function Tail(line: string): string
    requires IsDeviceLine(line)
  {
    Text(line[|DEVICE_PREFIX|..])
  }

  /** Where the MAC token starts and where it ends in `Tail(line)`. */
  function MacStart(line: string): nat
    requires IsDeviceLine(line)
  {
    LeadingSpaces(Tail(line))
  }

  function MacEnd(line: string): nat
    requires IsDeviceLine(line)
  {
    var a := Tail(line);
    var m := MacStart(line);
    m + IndexOf(a[m..], ' ')
  }

  /** The parse is defined: the line holds its newline, a MAC token
      follows `"Device "`, and a non-empty name follows the space after the
      MAC. Otherwise `strchr` or `strtok_r` returns NULL and the scan
      dereferences or copies from it. */
  predicate DeviceLineDefined(line: string)
    requires IsDeviceLine(line)
  {
    '\n' in line && MacEnd(line) + 1 < |Tail(line)|
  }

  predicate LinesDefined(pieces: seq<string>)
  {
    forall k :: 0 <= k < |pieces| && IsDeviceLine(pieces[k]) ==> DeviceLineDefined(pieces[k])
  }

  /** The record one `Device` line gives. */
  function ParseDeviceLine(line: string): (d: Device)
    requires IsDeviceLine(line) && DeviceLineDefined(line)
    ensures Bounded(d)
    ensures d.macaddr != [] && ' ' !in d.macaddr && '\n' !in d.macaddr
    ensures d.name != [] && '\n' !in d.name
    ensures '\n' !in d.ident
  {
    var a := Tail(line);
    var m0 := MacStart(line);
    var m1 := MacEnd(line);
    Device(Truncate(Text(line), IDENT_SIZE - 1),
           Truncate(a[m0..m1], MAC_SIZE - 1),
           Truncate(a[m1 + 1..], NAME_SIZE - 1))
  }

  /** The line `bluetoothctl -- devices` prints for one device. */
  function DeviceLine(mac: string, name: string): (line: string)
    ensures IsDeviceLine(line)
  {
    DEVICE_PREFIX + mac + " " + name + "\n"
  }

  /** `IndexOf` is determined by the first position holding `c`. */
  lemma IndexOfAt(s: string, c: char, n: nat)
    requires n <= |s| && (forall i :: 0 <= i < n ==> s[i] != c) && (n < |s| ==> s[n] == c)
    ensures IndexOf(s, c) == n
  {
  }

  /** Parsing a printed device line gives back its MAC and name (each cut to
      its field) and, as identifier, the line without its newline. */
  lemma {:induction false} ParseDeviceLineRoundTrip(mac: string, name: string)
    requires mac != [] && ' ' !in mac && '\n' !in mac
    requires name != [] && '\n' !in name
    ensures DeviceLineDefined(DeviceLine(mac, name))
    ensures ParseDeviceLine(DeviceLine(mac, name))
      == Device(Truncate(DEVICE_PREFIX + mac + " " + name, IDENT_SIZE - 1),
                Truncate(mac, MAC_SIZE - 1),
                Truncate(name, NAME_SIZE - 1))
  {
    var line := DeviceLine(mac, name);
    var body := DEVICE_PREFIX + mac + " " + name;
    assert line == body + "\n";
    IndexOfAt(line, '\n', |body|);
    assert Text(line) == body;
    var rest := mac + " " + name;
    assert line[|DEVICE_PREFIX|..] == rest + "\n";
    IndexOfAt(rest + "\n", '\n', |rest|);
    assert Tail(line) == rest;
    assert rest[0] == mac[0];
    assert MacStart(line) == 0;
    IndexOfAt(rest, ' ', |mac|);
    assert MacEnd(line) == |mac|;
    assert rest[..|mac|] == mac;
    assert rest[|mac| + 1..] == name;
  }

  /** Fields that fit their buffers come back exactly. */
  lemma ParseDeviceLineExact(mac: string, name: string)
    requires mac != [] && ' ' !in mac && '\n' !in mac && |mac| < MAC_SIZE
    requires name != [] && '\n' !in name && |name| < NAME_SIZE
    ensures DeviceLineDefined(DeviceLine(mac, name))
    ensures ParseDeviceLine(DeviceLine(mac, name)).macaddr == mac
    ensures ParseDeviceLine(DeviceLine(mac, name)).name == name
  {
    ParseDeviceLineRoundTrip(mac, name);
  }

  /** The records a scan builds from the list output: one per `Device`
      line, in output order; every other line is skipped. */
  function DeviceRecords(pieces: seq<string>): (r: seq<Device>)
    requires LinesDefined(pieces)
    ensures |r| <= |pieces|
    ensures forall k :: 0 <= k < |r| ==> Bounded(r[k])
  {
    if pieces == [] then []
    else
      assert LinesDefined(pieces[1..]) by {
        forall k | 0 <= k < |pieces[1..]| && IsDeviceLine(pieces[1..][k])
          ensures DeviceLineDefined(pieces[1..][k])
        {
          assert pieces[1..][k] == pieces[k + 1];
        }
      }
      (if IsDeviceLine(pieces[0]) then [ParseDeviceLine(pieces[0])] else [])
      + DeviceRecords(pieces[1..])
  }

  /** Every part of defined output is defined, and so is defined output
      read in two parts. */
  lemma LinesDefinedAppend(p: seq<string>, q: seq<string>)
    requires LinesDefined(p) && LinesDefined(q)
    ensures LinesDefined(p + q)
    ensures p != [] ==> LinesDefined(p[1..])
  {
    forall k | 0 <= k < |p + q| && IsDeviceLine((p + q)[k])
      ensures DeviceLineDefined((p + q)[k])
    {
      if k < |p| { assert (p + q)[k] == p[k]; } else { assert (p + q)[k] == q[k - |p|]; }
    }
    if p != [] {
      forall k | 0 <= k < |p[1..]| && IsDeviceLine(p[1..][k])
        ensures DeviceLineDefined(p[1..][k])
      {
        assert p[1..][k] == p[k + 1];
      }
    }
  }

  /** Output read in two parts gives the records of each part, in order. */
  lemma {:induction false} DeviceRecordsAppend(p: seq<string>, q: seq<string>)
    requires LinesDefined(p) && LinesDefined(q)
    ensures LinesDefined(p + q)
    ensures DeviceRecords(p + q) == DeviceRecords(p) + DeviceRecords(q)
    decreases |p|
  {
    LinesDefinedAppend(p, q);
    if p != [] {
      DeviceRecordsAppend(p[1..], q);
      var pq := p + q;
      assert pq[0] == p[0] && pq[1..] == p[1..] + q;
      var head := if IsDeviceLine(p[0]) then [ParseDeviceLine(p[0])] else [];
      assert DeviceRecords(p) == head + DeviceRecords(p[1..]);
      assert DeviceRecords(pq) == head + DeviceRecords(p[1..] + q);
    } else {
      assert p + q == q;
    }
  }

  /** One line of output adds its record when it is a `Device` line and
      nothing otherwise. */
  lemma DeviceRecordsLine(line: string)
    requires IsDeviceLine(line) ==> DeviceLineDefined(line)
    ensures LinesDefined([line])
    ensures IsDeviceLine(line) ==> DeviceRecords([line]) == [ParseDeviceLine(line)]
    ensures !IsDeviceLine(line) ==> DeviceRecords([line]) == []
  {
    assert [line][1..] == [];
  }

  // ----- Choosing a device --------------------------------------------------

  /** `strncmp(name, q, strlen(q)) == 0`: the device's name begins with `q`. */
  predicate Matches(d: Device, q: string)
  {
    StartsWith(d.name, q)
  }

  /** The first device, in list order, whose name begins with `q`. */
  function FirstMatch(devs: seq<Device>, q: string): (r: Option<Device>)
    ensures r.Some? ==> r.value in devs && Matches(r.value, q)
  {
    if devs == [] then None
    else if Matches(devs[0], q) then Some(devs[0])
    else FirstMatch(devs[1..], q)
  }

  /** `FirstMatch` finds a device exactly when some device matches, and the
      one it finds comes before every other match. */
  lemma {:induction false} FirstMatchIsFirst(devs: seq<Device>, q: string)
    ensures FirstMatch(devs, q).Some? <==> exists k :: 0 <= k < |devs| && Matches(devs[k], q)
    ensures FirstMatch(devs, q).Some? ==>
      exists k :: 0 <= k < |devs| && devs[k] == FirstMatch(devs, q).value
        && forall j :: 0 <= j < k ==> !Matches(devs[j], q)
  {
    if devs != [] && !Matches(devs[0], q) {
      FirstMatchIsFirst(devs[1..], q);
      if FirstMatch(devs[1..], q).Some? {
        var k :| 0 <= k < |devs[1..]| && devs[1..][k] == FirstMatch(devs[1..], q).value
          && forall j :: 0 <= j < k ==> !Matches(devs[1..][j], q);
        assert devs[k + 1] == FirstMatch(devs, q).value;
        assert forall j :: 0 <= j < k + 1 ==> !Matches(devs[j], q) by {
          forall j | 0 <= j < k + 1 ensures !Matches(devs[j], q) {
            if j > 0 { assert devs[j] == devs[1..][j - 1]; }
          }
        }
      }
      if exists k :: 0 <= k < |devs| && Matches(devs[k], q) {
        var k :| 0 <= k < |devs| && Matches(devs[k], q);
        assert k > 0 && devs[1..][k - 1] == devs[k];
      }
    } else if devs != [] {
      assert Matches(devs[0], q);
    }
  }

  // ----- Asking whether a device is connected -------------------------------

  /** Some piece of `info` output reports the device connected. */
  predicate ReportsConnected(pieces: seq<string>)
  {
    exists k :: 0 <= k < |pieces| && Contains(pieces[k], CONNECTED_MARK)
  }

  /** What `is_connected(q)` answers and the `info` commands it issues on the
      way: each matching device is queried in list order until one reports
      itself connected. */
  function Probe(devs: seq<Device>, q: string, sh: Shell): (r: (bool, seq<string>))
    ensures |r.1| <= |devs|
  {
    if devs == [] then (false, [])
    else if !Matches(devs[0], q) then Probe(devs[1..], q, sh)
    else
      var cmd := InfoCommand(devs[0].macaddr);
      if ReportsConnected(sh.output(cmd)) then (true, [cmd])
      else var rest := Probe(devs[1..], q, sh); (rest.0, [cmd] + rest.1)
  }

  /** The query answers yes exactly when some device whose name begins with
      `q` has an `info` output line containing `Connected: yes`. */
  lemma {:induction false} ProbeIff(devs: seq<Device>, q: string, sh: Shell)
    ensures Probe(devs, q, sh).0 <==>
      exists k :: 0 <= k < |devs| && Matches(devs[k], q)
        && ReportsConnected(sh.output(InfoCommand(devs[k].macaddr)))
  {
    if devs != [] {
      ProbeIff(devs[1..], q, sh);
      if exists k :: 0 <= k < |devs| && Matches(devs[k], q)
          && ReportsConnected(sh.output(InfoCommand(devs[k].macaddr))) {
        var k :| 0 <= k < |devs| && Matches(devs[k], q)
          && ReportsConnected(sh.output(InfoCommand(devs[k].macaddr)));
        if k > 0 {
          assert devs[1..][k - 1] == devs[k];
        }
      }
      if Probe(devs[1..], q, sh).0 {
        var k :| 0 <= k < |devs[1..]| && Matches(devs[1..][k], q)
          && ReportsConnected(sh.output(InfoCommand(devs[1..][k].macaddr)));
        assert devs[k + 1] == devs[1..][k];
      }
    }
  }

  /** An empty query matches every name, so it asks about every device. */
  lemma EmptyQueryMatchesAll(devs: seq<Device>, sh: Shell)
    ensures Probe(devs, "", sh).0 <==>
      exists k :: 0 <= k < |devs| && ReportsConnected(sh.output(InfoCommand(devs[k].macaddr)))
  {
    ProbeIff(devs, "", sh);
    assert forall k :: 0 <= k < |devs| ==> Matches(devs[k], "");
  }

  /** When no name begins with `q`, the query answers no and runs nothing. */
  lemma {:induction false} ProbeNoMatch(devs: seq<Device>, q: string, sh: Shell)
    requires FirstMatch(devs, q).None?
    ensures Probe(devs, q, sh) == (false, [])
  {
    if devs != [] {
      ProbeNoMatch(devs[1..], q, sh);
    }
  }

  /** The `info` command of every device whose name begins with `q`, in
      list order. */
  function MatchingInfoCommands(devs: seq<Device>, q: string): (r: seq<string>)
    ensures |r| <= |devs|
    ensures forall c | c in r :: exists k :: 0 <= k < |devs| && Matches(devs[k], q) && c == InfoCommand(devs[k].macaddr)
  {
    if devs == [] then []
    else if Matches(devs[0], q) then [InfoCommand(devs[0].macaddr)] + MatchingInfoCommands(devs[1..], q)
    else MatchingInfoCommands(devs[1..], q)
  }

  /** With a no answer, the query issued the `info` command of every
      matching device, in list order. */
  lemma {:induction false} ProbeCommandsWhenNo(devs: seq<Device>, q: string, sh: Shell)
    ensures !Probe(devs, q, sh).0 ==> Probe(devs, q, sh).1 == MatchingInfoCommands(devs, q)
  {
    if devs != [] {
      ProbeCommandsWhenNo(devs[1..], q, sh);
    }
  }

  /** When the `k`th device is the first matching one that reports itself
      connected, the query answers yes after the `info` commands of the
      matching devices up to and including it, and issues no more. */
  lemma {:induction false} ProbeCommandsWhenYes(devs: seq<Device>, q: string, sh: Shell, k: nat)
    requires k < |devs| && Matches(devs[k], q) && ReportsConnected(sh.output(InfoCommand(devs[k].macaddr)))
    requires forall j :: 0 <= j < k && Matches(devs[j], q) ==> !ReportsConnected(sh.output(InfoCommand(devs[j].macaddr)))
    ensures Probe(devs, q, sh) == (true, MatchingInfoCommands(devs[..k + 1], q))
  {
    var pre := devs[..k + 1];
    assert pre[0] == devs[0];
    if k == 0 {
      assert pre[1..] == [];
      assert MatchingInfoCommands(pre, q) == [InfoCommand(devs[0].macaddr)];
      assert Probe(devs, q, sh) == (true, [InfoCommand(devs[0].macaddr)]);
    } else {
      var tail := devs[1..];
      assert pre[1..] == tail[..k];
      assert forall j :: 0 <= j < k - 1 ==> tail[j] == devs[j + 1];
      assert tail[k - 1] == devs[k];
      ProbeCommandsWhenYes(tail, q, sh, k - 1);
    }
  }

  /** A yes answer implies a matching device exists, so the disconnect path
      always finds a device to act on. */
  lemma ConnectedHasMatch(devs: seq<Device>, q: string, sh: Shell)
    requires Probe(devs, q, sh).0
    ensures FirstMatch(devs, q).Some?
  {
    if FirstMatch(devs, q).None? {
      ProbeNoMatch(devs, q, sh);
    }
  }

  // ----- Connecting and disconnecting ---------------------------------------

  /** What `connect(q)` answers and every command it issues: the query
      first; then, unless the device already reports itself connected, the
      four commands for the first device whose name begins with `q`,
      answering whether the last of them exited normally. */
  function ConnectOutcome(devs: seq<Device>, q: string, timeout: cint, sh: Shell): (bool, seq<string>)
  {
    var p := Probe(devs, q, sh);
    if p.0 then (true, p.1)
    else match FirstMatch(devs, q)
      case None => (false, p.1)
      case Some(d) =>
        (Exited(sh.status(ConnectCommand(timeout, d.macaddr))), p.1 + ConnectCommands(timeout, d.macaddr))
  }

  /** What `disconnect(q)` answers and every command it issues: the query
      first; then, if the device reports itself connected, one disconnect
      command for the first device whose name begins with `q`. */
  function DisconnectOutcome(devs: seq<Device>, q: string, timeout: cint, sh: Shell): (bool, seq<string>)
  {
    var p := Probe(devs, q, sh);
    if !p.0 then (true, p.1)
    else match FirstMatch(devs, q)
      case None => (false, p.1)
      case Some(d) =>
        (Exited(sh.status(DisconnectCommand(timeout, d.macaddr))), p.1 + [DisconnectCommand(timeout, d.macaddr)])
  }

  /** When the query finds nothing connected and `d` is the first device
      whose name begins with `q`, connect answers for `d`'s connect command
      after the query and the four commands for `d`. */
  lemma ConnectToFirstMatch(devs: seq<Device>, q: string, timeout: cint, sh: Shell, d: Device)
    requires !Probe(devs, q, sh).0 && FirstMatch(devs, q) == Some(d)
    ensures ConnectOutcome(devs, q, timeout, sh)
      == (Exited(sh.status(ConnectCommand(timeout, d.macaddr))),
          Probe(devs, q, sh).1 + [PAIRABLE_COMMAND, PairCommand(d.macaddr), TrustCommand(d.macaddr),
                                  ConnectCommand(timeout, d.macaddr)])
  {
  }

  /** With no device whose name begins with `q`, connect runs no command at
      all and answers no. */
  lemma ConnectNoMatch(devs: seq<Device>, q: string, timeout: cint, sh: Shell)
    requires forall k :: 0 <= k < |devs| ==> !Matches(devs[k], q)
    ensures ConnectOutcome(devs, q, timeout, sh) == (false, [])
  {
    FirstMatchIsFirst(devs, q);
    ProbeNoMatch(devs, q, sh);
  }

  /** A connect that issues anything beyond the query pairs, trusts and
      connects the first matching device, in that order, and the query found
      nothing connected. */
  lemma ConnectIssuesFourCommands(devs: seq<Device>, q: string, timeout: cint, sh: Shell)
    requires |ConnectOutcome(devs, q, timeout, sh).1| > |Probe(devs, q, sh).1|
    ensures !Probe(devs, q, sh).0
    ensures exists k :: (0 <= k < |devs| && Matches(devs[k], q)
      && (forall j :: 0 <= j < k ==> !Matches(devs[j], q))
      && ConnectOutcome(devs, q, timeout, sh)
         == (Exited(sh.status(ConnectCommand(timeout, devs[k].macaddr))),
             Probe(devs, q, sh).1 + ConnectCommands(timeout, devs[k].macaddr)))
  {
    FirstMatchIsFirst(devs, q);
  }

  /** With no device whose name begins with `q`, disconnect runs no command
      and answers yes: its "nothing matched" answer is never reached. */
  lemma DisconnectNoMatch(devs: seq<Device>, q: string, timeout: cint, sh: Shell)
    requires forall k :: 0 <= k < |devs| ==> !Matches(devs[k], q)
    ensures DisconnectOutcome(devs, q, timeout, sh) == (true, [])
  {
    FirstMatchIsFirst(devs, q);
    ProbeNoMatch(devs, q, sh);
  }

  /** When the query already finds the device connected, connect answers
      yes and issues nothing beyond the query. */
  lemma ConnectWhenConnected(devs: seq<Device>, q: string, timeout: cint, sh: Shell)
    ensures Probe(devs, q, sh).0 ==> ConnectOutcome(devs, q, timeout, sh) == (true, Probe(devs, q, sh).1)
  {
  }

  /** When the query finds nothing connected, disconnect answers yes and
      issues nothing beyond the query. */
  lemma DisconnectWhenNotConnected(devs: seq<Device>, q: string, timeout: cint, sh: Shell)
    ensures !Probe(devs, q, sh).0 ==> DisconnectOutcome(devs, q, timeout, sh) == (true, Probe(devs, q, sh).1)
  {
  }

  /** When the query finds the device connected, there is a matching device
      and disconnect answers for one disconnect command aimed at the first
      of them, issued after the query. */
  lemma DisconnectWhenConnected(devs: seq<Device>, q: string, timeout: cint, sh: Shell)
    ensures Probe(devs, q, sh).0 ==>
      (FirstMatch(devs, q).Some?
       && var cmd := DisconnectCommand(timeout, FirstMatch(devs, q).value.macaddr);
          DisconnectOutcome(devs, q, timeout, sh) == (Exited(sh.status(cmd)), Probe(devs, q, sh).1 + [cmd]))
  {
    if Probe(devs, q, sh).0 {
      ConnectedHasMatch(devs, q, sh);
    }
  }

  /** Disconnect answers no only when it issued a disconnect command for
      the first matching device and that command did not exit normally. */
  lemma DisconnectFalseMeansFailedCommand(devs: seq<Device>, q: string, timeout: cint, sh: Shell)
    ensures !DisconnectOutcome(devs, q, timeout, sh).0 ==>
      (FirstMatch(devs, q).Some?
       && var cmd := DisconnectCommand(timeout, FirstMatch(devs, q).value.macaddr);
          DisconnectOutcome(devs, q, timeout, sh).1 == Probe(devs, q, sh).1 + [cmd]
          && !Exited(sh.status(cmd)))
  {
    if Probe(devs, q, sh).0 {
      ConnectedHasMatch(devs, q, sh);
    }
  }
}
