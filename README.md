# hal_bluetooth in Dafny

A model of the core of hal_bluetooth. This is a small C library that finds
Bluetooth devices, lists them, and connects to or disconnects from them. It
has two backends behind a session facade:

- **The BlueZ bus backend** (`src/bluez.c`).
  - It asks BlueZ over D-Bus for its managed objects (`GetManagedObjects`, signature `a{oa{sa{sv}}}`).
  - It picks the first object that has an `org.bluez.Adapter1` interface as the adapter.
  - After a discovery round it rebuilds its device list from the `org.bluez.Device1` interfaces, one property at a time.
  - Its get-devices, is-connected, connect and disconnect operations are stubs.
- **The bluetoothctl backend** (`src/bluetoothctl.c`).
  - It runs the `bluetoothctl` command-line tool.
  - It parses `Device <MAC> <name>` lines into bounded records.
  - It chooses devices by name prefix.
  - It asks `bluetoothctl info` whether a device is connected.
  - It pairs, trusts, connects and disconnects with further commands.
- **The session facade** (`bluetooth.c`).
  - It looks a backend up by name prefix in a static registry.
  - It stores the chosen backend and its handle.
  - It forwards each operation, with a default answer when there is no session, no backend or no function.
  - It keeps the last error in a 128-byte message buffer.

## How the model is arranged

| file | module | what it holds |
|---|---|---|
| `cstr.dfy` | `CStr` | C strings as Dafny strings: bounded copies (`strncpy` + NUL, `snprintf`), prefix test, `strstr`, `%d`. |
| `dbus.dfy` | `DBus` | the D-Bus value tree a message iterator walks. |
| `bluez_tree.dfy` | `BluezTree` | the decoding of a `GetManagedObjects` reply, as functions, with lemmas. |
| `bluez.dfy` | `Bluez` | the bus backend's handle as a class: two loop walkers proved equal to the `BluezTree` functions, the scan sequence and the stubs. |
| `bluetoothctl_text.dfy` | `BluetoothctlText` | the bluetoothctl backend's commands, line tokenizer, prefix choice and query/connect/disconnect outcomes, with lemmas. |
| `bluetoothctl.dfy` | `Bluetoothctl` | the bluetoothctl backend's handle as a class. Its loops are proved equal to the `BluetoothctlText` functions. |
| `bluetooth.dfy` | `Bluetooth` | the registry, error formatting, the session class and the forwarding operations. |

**What the model replaces, and with what**

- The outside world is an input.
  - A D-Bus reply is the `seq<Value>` of its arguments.
  - What the bus answers during a scan is a `BusReplies` value.
  - A subprocess is a `Shell`. It gives, for each command line, the pieces `fgets` returns and the status `pclose` returns.
  - The text of `strerror_r` is a parameter.
- Each handle logs what it sends out.
  - The bus backend keeps `bus`, a log of `BusCall`s.
  - The bluetoothctl backend keeps `log`, a log of command lines.
  - So "issues no command" and "issues these four commands in this order" are statements about these logs.
- Undefined behaviour in the C code becomes a precondition. It is never modelled as behaviour.
  - `ReplyDefined`: a Device1 property read with `dbus_message_iter_get_basic` must have the type the code assumes. A copied string must fit its field, since `strncpy` would otherwise leave it unterminated.
  - `AdapterFits`: the adapter path fits its 256-byte buffer.
  - `LinesDefined`: a `Device ` line holds its newline, a MAC token and a non-empty name. Otherwise `strchr` or `strtok_r` returns NULL and the code dereferences it.
  - `Session.Attached`: no use of a backend handle after `close`, or after a failed `init` left it NULL.

## Model

| member | source | states |
|---|---|---|
| `CStr.Truncate` | src/bluetoothctl.c:88-89 | a bounded copy keeps at most `max` characters; it keeps a prefix of the source, all of it when it fits and exactly `max` characters when it does not. |
| `CStr.Snprintf128` | src/bluetoothctl.c:79 | `snprintf` into a 128-byte buffer yields a prefix of the formatted text: all of it when it has at most 127 characters, and exactly its first 127 characters otherwise. |
| `CStr.Contains` | src/bluetoothctl.c:135 | `strstr(s, t) != NULL`, scanning for the first place `t` starts; characterised by `CStr.ContainsIff`. |
| `CStr.ContainsIff` | src/bluetoothctl.c:135 | the `strstr` scan finds `t` in `s` exactly when `t` occurs at some position of `s`. |
| `CStr.IntToString` | src/bluetoothctl.c:166-168 | `%d` of an integer is non-empty and has no space or newline. It is all digits for a non-negative value, and a minus sign followed by digits for a negative one. |
| `CStr.NatToStringDenotes` | src/bluetoothctl.c:79 | the digits printed for a natural number `n` read back, most significant first, as `n`. |
| `CStr.NatToStringNoLeadingZero` | src/bluetoothctl.c:79 | a positive number is printed without a leading zero, and zero is printed as the single digit `0`. |
| `CStr.IntToStringDenotes` | src/bluetoothctl.c:166-168 | `%d` prints the value itself. The digits of a non-negative `n` denote `n`; a negative `n` prints as a minus sign followed by the digits of `-n`, which denote `-n`. |
| `CStr.CIntStringLength` | src/bluetoothctl.c:166-168 | `%d` of a C `int` takes at most 11 characters. |
| `BluezTree.AdapterFoundIsFirstMatch` | src/bluez.c:241-286 | a found adapter is the path of an object with an Adapter1 interface, and every earlier object is well formed and has no Adapter1 interface (first match wins). |
| `BluezTree.AdapterFoundIffPresent` | src/bluez.c:241-286 | on an object map whose entries are all well formed, resolution never reports a shape error, and it finds an adapter exactly when some object has an Adapter1 interface. |
| `BluezTree.AdapterShapeErrorFails` | src/bluez.c:244-275 | each shape error met before an adapter is found makes resolution fail: an entry that is not a dict entry, a key that is not an object path, a missing or non-array value, or an interface key that is not a string. |
| `BluezTree.AdapterFoundBeforeLaterObjects` | src/bluez.c:241-286 | the walk returns at the first object carrying Adapter1: when every earlier object is well formed and has no Adapter1, that object's path is found whatever the objects after it hold, malformed ones included. |
| `BluezTree.AdapterInBad` | src/bluez.c:264-275 | inside one object, an interface key that is not a string, met before any Adapter1 interface, makes resolution fail. |
| `BluezTree.AdapterInHit` | src/bluez.c:258-283 | the interface loop stops with a hit only on an interface named exactly `org.bluez.Adapter1`, and it never fails when every interface key is a string. |
| `BluezTree.AdapterInNotBeforeMiss` | src/bluez.c:258-283 | an interface loop that finishes without finding an adapter saw no Adapter1 interface. |
| `BluezTree.AdapterResolution` | src/bluez.c:233-286 | a reply whose root is not an array, or whose object map is empty, is a failure; a found adapter is the path of the first object with Adapter1. |
| `BluezTree.FindAdapter` | src/bluez.c:216-287 | the adapter `get_default_adapter` settles on, or a shape failure; characterised by `AdapterFoundIsFirstMatch`, `AdapterFoundIffPresent`, `AdapterShapeErrorFails` and `AdapterResolution`. |
| `BluezTree.AdapterAmong` | src/bluez.c:241-286 | the object loop of `get_default_adapter`; characterised by `AdapterFoundIsFirstMatch` and `AdapterFoundIffPresent`. |
| `BluezTree.AdapterIn` | src/bluez.c:258-283 | the interface loop of one object; characterised by `AdapterInHit`, `AdapterInNotBeforeMiss` and `AdapterInBad`. |
| `BluezTree.KeyNames` | src/bluez.c:424-445 | the property names `Address`, `Alias`, `Icon`, `Connected`, `Paired` and `Trusted` select their fields, and `Name` selects none. |
| `BluezTree.ApplyProperty` | src/bluez.c:424-445 | the dispatch on one property name; characterised by `KeyNames` and `ApplyPropertyFrame`. |
| `BluezTree.ReadProperties` | src/bluez.c:389-446 | the property loop of one Device1 interface; characterised by `PropertiesAccepted`, `PropertiesLastWins` and `PropertiesDecode`. |
| `BluezTree.ApplyPropertyFrame` | src/bluez.c:424-445 | one property changes only the field its name selects, never the path, and an unknown name changes nothing. |
| `BluezTree.PropertiesAccepted` | src/bluez.c:389-420 | the property loop succeeds exactly when every entry is a dict entry with a string key and a variant value. |
| `BluezTree.PropertiesLastWins` | src/bluez.c:389-446 | after an accepted property array, each field holds the last value given for its property, or what it held before when that property is absent. |
| `BluezTree.PropertiesDecode` | src/bluez.c:374-448 | a Device1 interface decodes to the record with the object's path, the last `Alias`, `Address`, `Icon`, `Connected`, `Paired` and `Trusted` values, and zeroed defaults (empty text, false) for absent ones. |
| `BluezTree.Device1Interfaces` | src/bluez.c:372-373 | every entry it lists is a Device1 interface of the object. |
| `BluezTree.Device1InterfacesComplete` | src/bluez.c:372-373 | none is left out: each entry named `org.bluez.Device1` is listed as often as the object holds it, and no other entry is listed. |
| `BluezTree.ReadInterfaces` | src/bluez.c:353-449 | the interface loop of one object in `read_scanned_devices`; characterised by `InterfacesAppendRecords`. |
| `BluezTree.ReadObjects` | src/bluez.c:330-451 | the object loop, emptying the list per object; characterised by `ReadObjectsOk`, `SuccessKeepsLastObjectOnly` and `PriorListFate`. |
| `BluezTree.ReadObjectsOk` | src/bluez.c:330-451 | the object loop succeeds exactly when every object has a well-formed header and its own interface loop, started from an empty list, succeeds; the list held before does not affect the verdict. |
| `BluezTree.ReadScanned` | src/bluez.c:309-454 | the whole decode of a reply from the list held before; characterised by `ReadScannedOk`, `ScannedDevicesOfLastObject`, `PriorListFate` and the worked examples below. |
| `BluezTree.ReadScannedOk` | src/bluez.c:309-454 | a reply whose root is not a non-empty array fails; otherwise it decodes exactly when every object is well formed down to its interface keys and every Device1 interface of every object decodes. |
| `BluezTree.InterfacesAppendRecords` | src/bluez.c:353-449 | one object's interface loop keeps the records it was given. On success it appends one record per Device1 interface, in order, each that interface's decoding; it fails exactly when some key is not a string or some Device1 interface does not decode. |
| `BluezTree.SuccessKeepsLastObjectOnly` | src/bluez.c:351 | because the list is emptied once per object, a successful walk leaves only what the last object's interface loop built from an empty list. |
| `BluezTree.ScannedDevicesOfLastObject` | src/bluez.c:309-454 | a successful decode leaves exactly one record per Device1 interface of the last object, in order, each decoded from that interface. |
| `BluezTree.DecodedRecordKeepsPath` | src/bluez.c:375-376 | every decoded record carries the object path it came from. |
| `BluezTree.PriorListFate` | src/bluez.c:318-351 | if the root or the first object header is malformed, the walk fails with the old list untouched; otherwise the result does not depend on the old list, in success and in failure (no rollback). |
| `BluezTree.AdapterObjectDecodes` | src/bluez.c:343-376 | an adapter-only object passes the walk and contributes no record. |
| `BluezTree.HeadsetObjectDecodes` | src/bluez.c:372-448 | a headset object with `Address`, `Name`, `Alias` and `Connected` decodes to one record with that alias as name and `Name` ignored. |
| `BluezTree.HeadsetReplyDecodes` | src/bluez.c:216-454 | for a two-object reply, the adapter resolves to `/org/bluez/hci0` and the device list becomes the single headset record. |
| `BluezTree.EarlierObjectsDiscarded` | src/bluez.c:351 | when the headset object comes before the adapter object, a successful decode leaves an empty list. |
| `BluezTree.FailureKeepsPartialList` | src/bluez.c:330-332 | a malformed second object makes the decode fail, keeping the record the first object already added. |
| `Bluez.ReadDeviceProperties` | src/bluez.c:385-446 | the property loop of one Device1 interface fills a zeroed record exactly as `ReadProperties` does. |
| `Bluez.DiscoveryCalls` | src/bluez.c:473-497 | the requests `bluez_scan` makes after resolving the adapter, each only if the one before it succeeded; characterised by `Bluez.DiscoveryCallsOrder`. |
| `Bluez.DiscoveryCallsOrder` | src/bluez.c:473-497 | powering the adapter comes first. Discovery is started exactly when powering went through, and stopped exactly when it was started. The objects are fetched a second time exactly when stopping went through. The connection is closed exactly when every step succeeded and the second reply arrived, and then as the last request. |
| `Bluez.Handle.constructor` | src/bluez.c:37-44 | a new bus handle has no adapter, an empty list and has sent nothing. |
| `Bluez.Handle.FreeDevices` | src/bluez.c:289-298 | the list is empty afterwards. |
| `Bluez.Handle.Free` | src/bluez.c:46-59 | freeing the bus handle empties its list. |
| `Bluez.Handle.GetDefaultAdapter` | src/bluez.c:216-287 | returns 0 and stores the path when `FindAdapter` finds an adapter; otherwise returns 1 and leaves the stored path as it was. |
| `Bluez.Handle.ReadScannedDevices` | src/bluez.c:309-454 | the return code and the new list are those of `ReadScanned` applied to the reply and the old list. |
| `Bluez.Handle.Scan` | src/bluez.c:456-498 | without an adapter, only the connection and the first object request are made and nothing else changes. With one, power, start and stop discovery, a second object request and the disconnect follow, each only if the previous step succeeded. The list is rebuilt only when the second reply arrives. |
| `Bluez.Handle.GetDevices` | src/bluez.c:500-505 | the stub reports 0 devices. |
| `Bluez.Handle.IsConnected` | src/bluez.c:507-512 | the stub answers false. |
| `Bluez.Handle.Connect` | src/bluez.c:514-519 | the stub answers false. |
| `Bluez.Handle.Disconnect` | src/bluez.c:521-526 | the stub answers false. |
| `BluetoothctlText.ExitCode` | src/bluetoothctl.c:27 | `WEXITSTATUS` is a value from 0 to 255. |
| `BluetoothctlText.ProbeStatuses` | src/bluetoothctl.c:26-28 | the probe passes on a normal exit with code 0, and fails on exit code 1, on death by a signal and on a `pclose` error. |
| `BluetoothctlText.ScanTimeout` | src/bluetoothctl.c:71-72 | a timeout below 1 becomes exactly 1, and any other timeout is kept. |
| `BluetoothctlText.ScanCommandTimeout` | src/bluetoothctl.c:71-79 | the scan command is `bluetoothctl --timeout N scan on`. N consists of decimal digits denoting the timeout, raised to 1 when below 1, and the buffer never cuts the command. |
| `BluetoothctlText.DeviceCommandsFit` | src/bluetoothctl.c:131-192 | for a MAC that fits its field, the info, pair, trust, connect and disconnect commands are never cut by the 128-byte command buffer. |
| `BluetoothctlText.IndexOf` | src/bluetoothctl.c:84 | `strchr` gives the first position of the character, or the length when it is absent. |
| `BluetoothctlText.LeadingSpaces` | src/bluetoothctl.c:93-94 | `strtok_r` skips exactly the spaces before a token. |
| `BluetoothctlText.ParseDeviceLine` | src/bluetoothctl.c:84-99 | a parsed record fits its buffers. Its MAC is non-empty with no space or newline, its name is non-empty with no newline, and its identifier has no newline. |
| `BluetoothctlText.ParseDeviceLineRoundTrip` | src/bluetoothctl.c:84-99 | parsing the printed line `Device <mac> <name>` gives back the line without its newline (cut to 127), the MAC (cut to 31) and the name, spaces included (cut to 63). |
| `BluetoothctlText.ParseDeviceLineExact` | src/bluetoothctl.c:84-99 | a MAC and a name that fit their fields come back unchanged. |
| `BluetoothctlText.DeviceRecords` | src/bluetoothctl.c:82-103 | the records built from the listing number at most the lines read, and each fits its buffers. |
| `BluetoothctlText.DeviceRecordsAppend` | src/bluetoothctl.c:82-103 | output read in two parts gives the records of the first part followed by those of the second (records follow output order). |
| `BluetoothctlText.DeviceRecordsLine` | src/bluetoothctl.c:83-100 | a `Device ` line adds exactly its parsed record, and any other line adds nothing. |
| `BluetoothctlText.FirstMatch` | src/bluetoothctl.c:153-154 | a chosen device is in the list and its name begins with the query. |
| `BluetoothctlText.FirstMatchIsFirst` | src/bluetoothctl.c:153-172 | a device is chosen exactly when some name begins with the query, and no earlier device's name does. |
| `BluetoothctlText.Probe` | src/bluetoothctl.c:129-140 | the connection query issues at most one info command per device; its commands are given exactly by `ProbeCommandsWhenNo` and `ProbeCommandsWhenYes`. |
| `BluetoothctlText.ProbeIff` | src/bluetoothctl.c:129-140 | the query answers yes exactly when some device whose name begins with the query has an info output line containing `Connected: yes`. |
| `BluetoothctlText.EmptyQueryMatchesAll` | src/bluetoothctl.c:130 | an empty query asks about every device. |
| `BluetoothctlText.ProbeNoMatch` | src/bluetoothctl.c:129-140 | with no matching name, the query answers no and runs no command. |
| `BluetoothctlText.MatchingInfoCommands` | src/bluetoothctl.c:129-134 | at most one command per device, and each is the info command of a device whose name begins with the query. |
| `BluetoothctlText.ProbeCommandsWhenNo` | src/bluetoothctl.c:129-140 | when the query answers no, it has issued the info command of every matching device, in list order. |
| `BluetoothctlText.ProbeCommandsWhenYes` | src/bluetoothctl.c:129-140 | when the `k`th device is the first matching one reporting itself connected, the query answers yes after the info commands of the matching devices up to and including it. |
| `BluetoothctlText.ConnectedHasMatch` | src/bluetoothctl.c:185-196 | a yes answer implies a matching device exists. |
| `BluetoothctlText.ConnectOutcome` | src/bluetoothctl.c:143-176 | what connect answers and every command it runs; characterised by `ConnectWhenConnected`, `ConnectNoMatch`, `ConnectToFirstMatch` and `ConnectIssuesFourCommands`. |
| `BluetoothctlText.DisconnectOutcome` | src/bluetoothctl.c:178-200 | what disconnect answers and every command it runs; characterised by `DisconnectWhenNotConnected`, `DisconnectWhenConnected`, `DisconnectNoMatch` and `DisconnectFalseMeansFailedCommand`. |
| `BluetoothctlText.ConnectNoMatch` | src/bluetoothctl.c:150-175 | with no matching name, connect runs no command and answers false. |
| `BluetoothctlText.ConnectToFirstMatch` | src/bluetoothctl.c:153-170 | when nothing reported connected and `d` is the first match, connect runs the query, then `pairable on`, `pair`, `trust` and `connect` for `d`, and answers whether the last one exited normally. |
| `BluetoothctlText.ConnectWhenConnected` | src/bluetoothctl.c:150-151 | when the query reports the device connected, connect answers yes and runs nothing beyond the query. |
| `BluetoothctlText.ConnectIssuesFourCommands` | src/bluetoothctl.c:150-171 | connect issues a command beyond the query only when nothing reported connected. It then issues `pairable on`, `pair`, `trust` and `connect` for the first matching device, in that order, and answers whether the last command exited normally. |
| `BluetoothctlText.DisconnectNoMatch` | src/bluetoothctl.c:185-199 | with no matching name, disconnect runs no command and answers true; its "nothing matched" false is never reached. |
| `BluetoothctlText.DisconnectFalseMeansFailedCommand` | src/bluetoothctl.c:185-199 | disconnect answers false only after issuing one disconnect command for the first matching device, and only when that command did not exit normally. |
| `BluetoothctlText.DisconnectWhenNotConnected` | src/bluetoothctl.c:185-186 | when the query finds nothing connected, disconnect answers yes and runs nothing beyond the query. |
| `BluetoothctlText.DisconnectWhenConnected` | src/bluetoothctl.c:185-195 | when the query reports the device connected, a matching device exists and disconnect runs, after the query, one disconnect command for the first of them, answering whether it exited normally. |
| `Bluetoothctl.Handle.constructor` | src/bluetoothctl.c:30-31 | a new handle has an empty list and has run nothing. |
| `Bluetoothctl.Handle.Init` | src/bluetoothctl.c:21-33 | a handle is returned exactly when the `bluetoothctl -v` probe exits normally with code 0, and it is a new, empty handle. |
| `Bluetoothctl.Handle.FreeDevices` | src/bluetoothctl.c:35-44 | the list is empty afterwards. |
| `Bluetoothctl.Handle.Free` | src/bluetoothctl.c:55-62 | freeing the handle empties its list. |
| `Bluetoothctl.Handle.Scan` | src/bluetoothctl.c:64-104 | the old list is dropped. The list becomes the records of the `Device ` lines of the listing, in order. The commands run are power on, the scan with its timeout raised to at least 1, and the listing. |
| `Bluetoothctl.Handle.GetDevices` | src/bluetoothctl.c:106-119 | copies the first `CopyCount` names in list order, returns that count and leaves the rest of the array alone. |
| `Bluetoothctl.CopyCount` | src/bluetoothctl.c:112-118 | with `devnum` of at least 1, exactly the smaller of `devnum` and the list length is copied. With `devnum` below 1, the whole list is copied. |
| `Bluetoothctl.Handle.IsConnected` | src/bluetoothctl.c:121-141 | the answer and the info commands run are those of `Probe`. |
| `Bluetoothctl.Handle.Connect` | src/bluetoothctl.c:143-176 | the answer and the commands run are those of `ConnectOutcome`. |
| `Bluetoothctl.Handle.Disconnect` | src/bluetoothctl.c:178-200 | the answer and the commands run are those of `DisconnectOutcome`. |
| `Bluetooth.Lookup` | bluetooth.c:89-94 | a backend found for a name is in the registry, and its identifier begins with the name. |
| `Bluetooth.LookupIsFirst` | bluetooth.c:89-94 | a backend is found exactly when some identifier begins with the name, and it is the first such entry. |
| `Bluetooth.RegistryLookup` | bluetooth.c:19-22 | with only bluetoothctl registered, a name selects it exactly when the name is a prefix of `bluetoothctl`. |
| `Bluetooth.RegistryExamples` | bluetooth.c:19-22 | `""`, `"blue"` and `"bluetoothctl"` select bluetoothctl, and `"bluez"` selects nothing. |
| `Bluetooth.Chosen` | bluetooth.c:89-96 | after a lookup the session holds the registry's match, or, when nothing matches, the backend it held before. |
| `Bluetooth.FormatError` | bluetooth.c:24-42 | the stored message has at most 127 characters. It begins with the formatted message cut to 127, and it is exactly that when errno is 0. |
| `Bluetooth.FormatErrorWhole` | bluetooth.c:33-39 | with a nonzero errno, when message and tail fit, the message is followed by `: <text> [errno N]` in full. |
| `Bluetooth.FormatErrorFull` | bluetooth.c:30-39 | a message that fills the buffer leaves no room for the errno tail. |
| `Bluetooth.FormatErrorTail` | bluetooth.c:33-39 | with a nonzero errno, what follows the cut message is a prefix of `: <text> [errno N]`, and the whole is as long as both together or 127 characters, whichever is less. |
| `Bluetooth.Session.constructor` | bluetooth.c:118-125 | a new session has no backend, no handle, errno 0 and an empty message. |
| `Bluetooth.Session.Error` | bluetooth.c:24-42 | stores the errno and the formatted message, and returns the code it was given. |
| `Bluetooth.Session.Open` | bluetooth.c:82-107 | a missing name gives -1 with `Bluetooth backend param invalid`. Otherwise the backend becomes `Chosen`. A session still without a backend gives -1 with the not-found message. For bluetoothctl, `init` fails exactly when its probe command does not exit with code 0, and a failed `init` leaves no handle and gives -1 with `Bluetooth init fail`. Success gives 0 with a new handle attached to the chosen backend, and leaves the old message in place. |
| `Bluetooth.Session.ErrMsg` | bluetooth.c:132-135 | the last stored message fits the 128-byte buffer. |
| `Bluetooth.Close` | bluetooth.c:109-116 | without a session or a backend nothing changes. Otherwise the backend's `free` runs once and empties its list. The backend, the handle, the stored errno and message, and the handle's command or request log all stay as they were. |
| `Bluetooth.Scan` | bluetooth.c:76-80 | without a session, backend or scan function nothing changes. Otherwise the backend's scan runs with its effect on the device list. |
| `Bluetooth.GetDevices` | bluetooth.c:68-74 | without a session, backend or function the answer is 0 and the array is untouched. Otherwise it gives the backend's count and copies; the bus backend's stub gives 0 and leaves the array untouched. |
| `Bluetooth.IsConnected` | bluetooth.c:44-50 | without a session, backend or function the answer is false. Otherwise it gives the backend's answer and query commands, computed on the device list the handle held at the call, and that list is unchanged afterwards. The bus backend's handle is not touched at all. |
| `Bluetooth.Connect` | bluetooth.c:60-66 | without a session, backend or function the answer is false. Otherwise it gives the backend's answer and commands, computed on the device list the handle held at the call, and that list is unchanged afterwards. The bus backend's handle is not touched at all. |
| `Bluetooth.Disconnect` | bluetooth.c:52-58 | without a session, backend or function the answer is false. Otherwise it gives the backend's answer and commands, computed on the device list the handle held at the call, and that list is unchanged afterwards. The bus backend's handle is not touched at all. |

## Where the model follows the code over its description

- **`get_devices` with `devnum` of 0 or less copies every name.** A natural reading of the interface is that it copies nothing. The counter is compared with `devnum` only after a copy, so the comparison never succeeds. `Bluetoothctl.CopyCount` states what the code does.
- **A failed decode leaves the device list cleared or partly rebuilt.** `read_scanned_devices` returns 1 without restoring the old list. `BluezTree.PriorListFate` and `BluezTree.FailureKeepsPartialList` state this.

## Left out

- **libdbus transport.** `set_bool_property`, `get_bool_property`, `adapter_discovery`, `bluez_dbus_connect`, `bluez_dbus_disconnect`, `get_managed_objects` and the `dbus_message_iter_*` calls are foreign library calls.
  - Replies become `Value` trees and a `BusReplies` record.
  - Requests become entries in the `BusCall` log.
  - `get_bool_property` is never called and is not modelled.
- **`sleep(timeout)` in `bluez_scan`.** The bus backend's timeout has no other effect.
- **`popen`, `pclose` and `fgets`.** They are replaced by the `Shell` oracle.
  - How `fgets` splits a long line into 128-byte or 512-byte pieces is part of the oracle's answer. The model does not derive it.
- **`WIFEXITED` and `WEXITSTATUS`** are written out on the integer status as the usual low-bit encoding.
- **`printf`, `dump_devices` and the other debug output.**
- **`strerror_r`.** Its text is a parameter, cut to the 64-byte buffer. Which `strerror_r` variant the C library provides is not modelled.
- **Memory.**
  - `calloc`, `free` and the intrusive `list_head` become sequences.
  - `bluetooth_free` is not modelled, since it only releases memory.
  - The release of a backend's own handle memory is not modelled either.
  - `bluetooth_new` returning NULL when allocation fails is not modelled.
- **The bluez backend is never reached through the registry.** It is defined but not registered. The facade still models its branch, and only a registered backend can be chosen.
- **Function slots that are NULL.** Both real backends fill all seven slots. The default answers of the facade for a NULL slot are modelled with hypothetical backends.
- **The `Shell` oracle is a function of the command line.** Two runs of the same command give the same output and status. A walk that asks `bluetoothctl info` twice about one MAC, because two devices share it, cannot see two different answers.
- **`ReplyDefined` is stronger than the code needs.** It asks for well-typed Device1 properties throughout the reply, including objects after a shape error that the walk never reaches.
- **`BluezTree.TextOf` and `BluezTree.TruthOf` defaults.** For a variant of an unexpected type they give a default. That case is undefined in C and is excluded by `ReplyDefined`.
- Bluetooth.Scan: for the bus backend, it states only the effect on the device list. The adapter path and the request log are stated by `Bluez.Handle.Scan`, which it calls.
- Bluetooth.Session.ErrMsg: calling it on a NULL session is undefined in C and is not modelled.
