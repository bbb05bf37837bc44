/** The meaning of a BlueZ `GetManagedObjects` reply, of D-Bus signature
    `a{oa{sa{sv}}}` (object path -> interface name -> property name ->
    variant), as the two walkers of src/bluez.c read it: which adapter they
    pick, which device records they build, and where they give up. */
module BluezTree {
  import opened CStr
  import opened DBus

  const ADAPTER_INTERFACE: string := "org.bluez.Adapter1"
  const DEVICE_INTERFACE: string := "org.bluez.Device1"

  /** Buffer sizes of the bus backend's records (src/bluez.c:9-35). */
  const PATH_SIZE: nat := 128
  const NAME_SIZE: nat := 64
  const MAC_SIZE: nat := 32
  const ICON_SIZE: nat := 64
  const ADAPTER_SIZE: nat := 256

  /** One device record of the bus backend. The flags are the D-Bus booleans
      the reply carries (stored in `int` fields, 0 or 1). */
  datatype Device = Device(
    path: string,
    name: string,
    macaddr: string,
    icon: string,
    connected: bool,
    paired: bool,
    trusted: bool)

  /** A freshly allocated (zeroed) record whose path has been copied in. */
  function NewDevice(path: string): Device
  {
    Device(path, "", "", "", false, false, false)
  }

  // ---------------------------------------------------------------------
  // The three dictionary levels, as the walkers test them.
  // ---------------------------------------------------------------------

  /** An object entry `{o a...}`: a dict entry whose first field is an object
      path and that has a second field which is an array. Gives the path and
      the interface entries. */
  function ObjectHeader(o: Value): Option<(string, seq<Value>)>
  {
    if o.DictEntry? && |o.fields| >= 1 && o.fields[0].ObjectPath?
      && |o.fields| >= 2 && o.fields[1].Array?
    then Some((o.fields[0].path, o.fields[1].items))
    else None
  }

  /** An interface entry `{s ...}`: a dict entry whose first field is a string. */
  function InterfaceName(e: Value): Option<string>
  {
    if e.DictEntry? && |e.fields| >= 1 && e.fields[0].Str? then Some(e.fields[0].text) else None
  }

  predicate Named(e: Value, name: string)
  {
    InterfaceName(e) == Some(name)
  }

  /** A property entry `{sv}`: a dict entry of a string and a variant. Gives
      the property name and the value inside the variant. */
  function PropertyEntry(e: Value): Option<(string, Value)>
  {
    if e.DictEntry? && |e.fields| >= 1 && e.fields[0].Str?
      && |e.fields| >= 2 && e.fields[1].Variant?
    then Some((e.fields[0].text, e.fields[1].inner))
    else None
  }

  /** The object entries of a reply, when its first argument is an array. */
  predicate HasObjectArray(reply: seq<Value>)
  {
    |reply| > 0 && reply[0].Array?
  }

  // ---------------------------------------------------------------------
  // Adapter resolution (get_default_adapter)
  // ---------------------------------------------------------------------

  datatype Lookup = Found(path: string) | NotFound | Malformed
  datatype Search = Hit | Miss | Bad

  /** The adapter the walker settles on: the path of the first object, in
      reply order, with an interface named exactly `org.bluez.Adapter1`,
      unless a shape error comes first. An empty object map is malformed:
      the first entry is checked to be a dict entry before the loop can end. */
  function FindAdapter(reply: seq<Value>): Lookup
  {
    if !HasObjectArray(reply) || reply[0].items == [] then Malformed
    else AdapterAmong(reply[0].items)
  }

  function AdapterAmong(objs: seq<Value>): Lookup
  {
    if objs == [] then NotFound
    else match ObjectHeader(objs[0])
      case None => Malformed
      case Some(h) =>
        match AdapterIn(h.1)
        case Hit => Found(h.0)
        case Miss => AdapterAmong(objs[1..])
        case Bad => Malformed
  }

  /** Scans one object's interface entries; an entry without a string key
      stops the walk, an entry named Adapter1 ends it successfully. */
  function AdapterIn(ifaces: seq<Value>): Search
  {
    if ifaces == [] then Miss
    else match InterfaceName(ifaces[0])
      case None => Bad
      case Some(n) => if n == ADAPTER_INTERFACE then Hit else AdapterIn(ifaces[1..])
  }

  /** `strncpy(bluez->adapter, path, 256)` leaves a terminated string only for
      a path shorter than the buffer. */
  predicate AdapterFits(reply: seq<Value>)
  {
    FindAdapter(reply).Found? ==> |FindAdapter(reply).path| < ADAPTER_SIZE
  }

  /** The object has a well-formed header and an interface named `name`. */
  predicate HasInterface(o: Value, name: string)
  {
    ObjectHeader(o).Some? &&
    exists k :: 0 <= k < |ObjectHeader(o).value.1| && Named(ObjectHeader(o).value.1[k], name)
  }

  /** The object is `{o a{s...}}` all the way down to its interface keys. */
  predicate ObjectShaped(o: Value)
  {
    ObjectHeader(o).Some? &&
    forall e | e in ObjectHeader(o).value.1 :: InterfaceName(e).Some?
  }

  lemma {:induction false} AdapterInHit(ifaces: seq<Value>)
    ensures AdapterIn(ifaces) == Hit ==> exists k :: 0 <= k < |ifaces| && Named(ifaces[k], ADAPTER_INTERFACE)
    ensures (forall e | e in ifaces :: InterfaceName(e).Some?) ==>
      (AdapterIn(ifaces) == Hit <==> exists k :: 0 <= k < |ifaces| && Named(ifaces[k], ADAPTER_INTERFACE))
    ensures (forall e | e in ifaces :: InterfaceName(e).Some?) ==> AdapterIn(ifaces) != Bad
  {
    if ifaces != [] {
      AdapterInHit(ifaces[1..]);
      if AdapterIn(ifaces) == Hit && !Named(ifaces[0], ADAPTER_INTERFACE) {
        var k :| 0 <= k < |ifaces[1..]| && Named(ifaces[1..][k], ADAPTER_INTERFACE);
        assert Named(ifaces[k + 1], ADAPTER_INTERFACE);
      }
      if forall e | e in ifaces :: InterfaceName(e).Some? {
        assert forall e | e in ifaces[1..] :: e in ifaces;
        if exists k :: 0 <= k < |ifaces| && Named(ifaces[k], ADAPTER_INTERFACE) {
          var k :| 0 <= k < |ifaces| && Named(ifaces[k], ADAPTER_INTERFACE);
          if k > 0 {
            assert Named(ifaces[1..][k - 1], ADAPTER_INTERFACE);
          }
        }
      }
    }
  }

  /** First match wins: a found adapter is the path of an object carrying an
      Adapter1 interface, and every object before it is well formed and has
      no Adapter1 interface. */
  lemma {:induction false} AdapterFoundIsFirstMatch(objs: seq<Value>)
    ensures AdapterAmong(objs).Found? ==>
      exists i :: 0 <= i < |objs| && ObjectHeader(objs[i]).Some?
        && ObjectHeader(objs[i]).value.0 == AdapterAmong(objs).path
        && HasInterface(objs[i], ADAPTER_INTERFACE)
        && forall j :: 0 <= j < i ==> ObjectHeader(objs[j]).Some? && !HasInterface(objs[j], ADAPTER_INTERFACE)
  {
    if objs != [] && AdapterAmong(objs).Found? {
      var h := ObjectHeader(objs[0]).value;
      AdapterInHit(h.1);
      if AdapterIn(h.1) == Hit {
        assert HasInterface(objs[0], ADAPTER_INTERFACE);
      } else {
        assert AdapterIn(h.1) == Miss;
        AdapterFoundIsFirstMatch(objs[1..]);
        var i :| 0 <= i < |objs[1..]| && ObjectHeader(objs[1..][i]).Some?
          && ObjectHeader(objs[1..][i]).value.0 == AdapterAmong(objs[1..]).path
          && HasInterface(objs[1..][i], ADAPTER_INTERFACE)
          && forall j :: 0 <= j < i ==> ObjectHeader(objs[1..][j]).Some? && !HasInterface(objs[1..][j], ADAPTER_INTERFACE);
        assert !HasInterface(objs[0], ADAPTER_INTERFACE) by {
          if HasInterface(objs[0], ADAPTER_INTERFACE) {
            var k :| 0 <= k < |h.1| && Named(h.1[k], ADAPTER_INTERFACE);
            AdapterInNotBeforeMiss(h.1, k);
          }
        }
        assert forall j :: 1 <= j < i + 1 ==> objs[j] == objs[1..][j - 1];
      }
    }
  }

  /** A walk that ended in `Miss` saw no Adapter1 interface. */
  lemma {:induction false} AdapterInNotBeforeMiss(ifaces: seq<Value>, k: nat)
    requires k < |ifaces| && Named(ifaces[k], ADAPTER_INTERFACE)
    ensures AdapterIn(ifaces) != Miss
  {
    if k > 0 && InterfaceName(ifaces[0]).Some? && InterfaceName(ifaces[0]).value != ADAPTER_INTERFACE {
      assert ifaces[1..][k - 1] == ifaces[k];
      AdapterInNotBeforeMiss(ifaces[1..], k - 1);
    }
  }

  /** On a reply whose objects are all well formed, the walk never reports a
      shape error, and it finds an adapter exactly when some object has an
      Adapter1 interface. */
  lemma {:induction false} AdapterFoundIffPresent(objs: seq<Value>)
    requires forall o | o in objs :: ObjectShaped(o)
    ensures AdapterAmong(objs) != Malformed
    ensures AdapterAmong(objs).Found? <==> exists i :: 0 <= i < |objs| && HasInterface(objs[i], ADAPTER_INTERFACE)
  {
    if objs != [] {
      assert objs[0] in objs;
      assert ObjectShaped(objs[0]);
      var h := ObjectHeader(objs[0]).value;
      AdapterInHit(h.1);
      assert forall o | o in objs[1..] :: o in objs;
      AdapterFoundIffPresent(objs[1..]);
      if AdapterIn(h.1) == Miss {
        assert !HasInterface(objs[0], ADAPTER_INTERFACE);
        if exists i :: 0 <= i < |objs| && HasInterface(objs[i], ADAPTER_INTERFACE) {
          var i :| 0 <= i < |objs| && HasInterface(objs[i], ADAPTER_INTERFACE);
          assert i > 0;
          assert HasInterface(objs[1..][i - 1], ADAPTER_INTERFACE);
        }
        if exists i :: 0 <= i < |objs[1..]| && HasInterface(objs[1..][i], ADAPTER_INTERFACE) {
          var i :| 0 <= i < |objs[1..]| && HasInterface(objs[1..][i], ADAPTER_INTERFACE);
          assert HasInterface(objs[i + 1], ADAPTER_INTERFACE);
        }
      } else {
        assert HasInterface(objs[0], ADAPTER_INTERFACE);
      }
    }
  }

  /** The walk stops at the first adapter: a well-formed object carrying
      Adapter1, after well-formed objects without one, is found whatever
      the objects after it look like. */
  lemma {:induction false} AdapterFoundBeforeLaterObjects(objs: seq<Value>, i: nat)
    requires i < |objs|
    requires forall j :: 0 <= j < i ==> ObjectShaped(objs[j]) && !HasInterface(objs[j], ADAPTER_INTERFACE)
    requires ObjectShaped(objs[i]) && HasInterface(objs[i], ADAPTER_INTERFACE)
    ensures AdapterAmong(objs) == Found(ObjectHeader(objs[i]).value.0)
  {
    var h := ObjectHeader(objs[0]).value;
    AdapterInHit(h.1);
    if i > 0 {
      assert forall j :: 0 <= j < i - 1 ==> objs[1..][j] == objs[j + 1];
      assert objs[1..][i - 1] == objs[i];
      AdapterFoundBeforeLaterObjects(objs[1..], i - 1);
    }
  }

  /** Any of the shape errors the walker tests for, met before an adapter is
      found, makes the resolution fail: an object entry that is not a dict
      entry, whose key is not an object path, that has no second field or
      whose value is not an array; or an interface entry whose key is not a
      string. */
  lemma {:induction false} AdapterShapeErrorFails(objs: seq<Value>, i: nat, k: nat)
    requires i < |objs|
    requires forall j :: 0 <= j < i ==> ObjectShaped(objs[j]) && !HasInterface(objs[j], ADAPTER_INTERFACE)
    requires ObjectHeader(objs[i]).None? ||
      (k < |ObjectHeader(objs[i]).value.1| && InterfaceName(ObjectHeader(objs[i]).value.1[k]).None?
        && forall m :: 0 <= m < k ==> !Named(ObjectHeader(objs[i]).value.1[m], ADAPTER_INTERFACE))
    ensures AdapterAmong(objs) == Malformed
  {
    var h := ObjectHeader(objs[0]);
    if i == 0 {
      if h.Some? {
        AdapterInBad(h.value.1, k);
      }
    } else {
      assert ObjectShaped(objs[0]) && !HasInterface(objs[0], ADAPTER_INTERFACE);
      AdapterInHit(h.value.1);
      assert forall j :: 0 <= j < i - 1 ==> objs[1..][j] == objs[j + 1];
      AdapterShapeErrorFails(objs[1..], i - 1, k);
    }
  }

  lemma {:induction false} AdapterInBad(ifaces: seq<Value>, k: nat)
    requires k < |ifaces| && InterfaceName(ifaces[k]).None?
    requires forall m :: 0 <= m < k ==> !Named(ifaces[m], ADAPTER_INTERFACE)
    ensures AdapterIn(ifaces) == Bad
  {
    if k > 0 && InterfaceName(ifaces[0]).Some? {
      assert !Named(ifaces[0], ADAPTER_INTERFACE);
      assert forall m :: 0 <= m < k - 1 ==> ifaces[1..][m] == ifaces[m + 1];
      AdapterInBad(ifaces[1..], k - 1);
    }
  }

  /** The reply-level view: the root must be an array of at least one entry;
      then the adapter is the first object carrying Adapter1. */
  lemma AdapterResolution(reply: seq<Value>)
    ensures !HasObjectArray(reply) || reply[0].items == [] ==> FindAdapter(reply) == Malformed
    ensures FindAdapter(reply).Found? ==>
      exists i :: 0 <= i < |reply[0].items| && ObjectHeader(reply[0].items[i]).Some?
        && HasInterface(reply[0].items[i], ADAPTER_INTERFACE)
        && ObjectHeader(reply[0].items[i]).value.0 == FindAdapter(reply).path
        && forall j :: 0 <= j < i ==> !HasInterface(reply[0].items[j], ADAPTER_INTERFACE)
  {
    if HasObjectArray(reply) && reply[0].items != [] {
      AdapterFoundIsFirstMatch(reply[0].items);
    }
  }

  // ---------------------------------------------------------------------
  // Device records (read_scanned_devices)
  // ---------------------------------------------------------------------

  /** The `strcmp` chain of the property loop: which field a property name
      selects. Every other name, `Name` included, selects nothing. */
  datatype Key = Address | Alias | Icon | Connected | Paired | Trusted | Ignored

  function KeyOf(name: string): Key
  {
    if name == "Address" then Address
    else if name == "Alias" then Alias
    else if name == "Icon" then Icon
    else if name == "Connected" then Connected
    else if name == "Paired" then Paired
    else if name == "Trusted" then Trusted
    else Ignored
  }

  /** What `dbus_message_iter_get_basic` needs to be defined for the
      properties the walker reads: the string properties hold strings that
      fit their buffers with a terminator, the flags hold booleans. */
  predicate PropertyDefined(name: string, v: Value)
  {
    match KeyOf(name)
    case Address => v.Str? && |v.text| < MAC_SIZE
    case Alias => v.Str? && |v.text| < NAME_SIZE
    case Icon => v.Str? && |v.text| < ICON_SIZE
    case Ignored => true
    case _ => v.Bool?
  }

  predicate PropertiesDefined(props: seq<Value>)
  {
    forall e | e in props :: PropertyEntry(e).Some? ==> PropertyDefined(PropertyEntry(e).value.0, PropertyEntry(e).value.1)
  }

  /** A Device1 interface of an object whose path fits the record's buffer,
      with properties the walker can read. */
  predicate InterfaceDefined(path: string, e: Value)
  {
    Named(e, DEVICE_INTERFACE) ==>
      |path| < PATH_SIZE && (|e.fields| >= 2 && e.fields[1].Array? ==> PropertiesDefined(e.fields[1].items))
  }

  predicate ObjectDefined(o: Value)
  {
    ObjectHeader(o).Some? ==>
      forall e | e in ObjectHeader(o).value.1 :: InterfaceDefined(ObjectHeader(o).value.0, e)
  }

  /** The precondition of the device walker: every Device1 interface in the
      reply can be read without undefined behaviour. */
  predicate ReplyDefined(reply: seq<Value>)
  {
    HasObjectArray(reply) ==> forall o | o in reply[0].items :: ObjectDefined(o)
  }

  /** `dbus_message_iter_get_basic` on a variant's content. Reading a value
      of another type is undefined in C; the walker's callers rule it out
      (`ReplyDefined`), so the default given here is never relied on. */
  function TextOf(v: Value): string
  {
    if v.Str? then v.text else ""
  }

  function TruthOf(v: Value): bool
  {
    v.Bool? && v.truth
  }

  /** Property dispatch on the name: Address, Alias, Icon, Connected,
      Paired and Trusted each set one field; every other name is ignored. */
  function ApplyProperty(dev: Device, name: string, v: Value): Device
  {
    match KeyOf(name)
    case Address => dev.(macaddr := TextOf(v))
    case Alias => dev.(name := TextOf(v))
    case Icon => dev.(icon := TextOf(v))
    case Connected => dev.(connected := TruthOf(v))
    case Paired => dev.(paired := TruthOf(v))
    case Trusted => dev.(trusted := TruthOf(v))
    case Ignored => dev
  }

  /** Reads one Device1 property array into `dev`; `None` when an entry is
      not a `{sv}` dict entry. */
  function ReadProperties(props: seq<Value>, dev: Device): Option<Device>
  {
    if props == [] then Some(dev)
    else
      match PropertyEntry(props[0])
      case None => None
      case Some(pv) => ReadProperties(props[1..], ApplyProperty(dev, pv.0, pv.1))
  }

  /** The outcome of a walk: whether it ran to the end, and the device list
      it leaves behind either way. */
  datatype Walk = Walk(ok: bool, devices: seq<Device>)

  /** The record a Device1 interface entry decodes to, when its value is a
      well-formed property array. */
  function DecodeInterface(path: string, e: Value): Option<Device>
  {
    if e.DictEntry? && |e.fields| >= 2 && e.fields[1].Array? then ReadProperties(e.fields[1].items, NewDevice(path))
    else None
  }

  /** The interface loop of one object: appends one record per Device1
      interface at the tail of `devs`, skips other interfaces, and stops at
      the first shape error. */
  function ReadInterfaces(path: string, ifaces: seq<Value>, devs: seq<Device>): Walk
  {
    if ifaces == [] then Walk(true, devs)
    else
      match InterfaceName(ifaces[0])
      case None => Walk(false, devs)
      case Some(n) =>
        if n != DEVICE_INTERFACE then ReadInterfaces(path, ifaces[1..], devs)
        else match DecodeInterface(path, ifaces[0])
          case None => Walk(false, devs)
          case Some(d) => ReadInterfaces(path, ifaces[1..], devs + [d])
  }

  /** The object loop: each object whose header is well formed empties the
      list first (the per-object `free_devices` call) and then adds its own
      Device1 records. */
  function ReadObjects(objs: seq<Value>, devs: seq<Device>): Walk
  {
    if objs == [] then Walk(true, devs)
    else
      match ObjectHeader(objs[0])
      case None => Walk(false, devs)
      case Some(h) =>
        var w := ReadInterfaces(h.0, h.1, []);
        if !w.ok then w else ReadObjects(objs[1..], w.devices)
  }

  /** The whole walk over a reply, starting from the list `prior` held
      before the call. */
  function ReadScanned(reply: seq<Value>, prior: seq<Device>): Walk
  {
    if !HasObjectArray(reply) || reply[0].items == [] then Walk(false, prior)
    else ReadObjects(reply[0].items, prior)
  }

  // ---------------------------------------------------------------------
  // Properties of the device walk
  // ---------------------------------------------------------------------

  /** The value of the last well-formed property entry whose name selects `k`. */
  function LastValue(props: seq<Value>, k: Key): Option<Value>
  {
    if props == [] then None
    else
      var later := LastValue(props[1..], k);
      if later.Some? then later
      else match PropertyEntry(props[0])
        case Some(pv) => if KeyOf(pv.0) == k then Some(pv.1) else None
        case None => None
  }

  function TextOr(v: Option<Value>, default: string): string
  {
    if v.Some? then TextOf(v.value) else default
  }

  function TruthOr(v: Option<Value>, default: bool): bool
  {
    if v.Some? then TruthOf(v.value) else default
  }

  /** The field a key selects, as it would read back. */
  function Field(d: Device, k: Key): Value
    requires k != Ignored
  {
    match k
    case Address => Str(d.macaddr)
    case Alias => Str(d.name)
    case Icon => Str(d.icon)
    case Connected => Bool(d.connected)
    case Paired => Bool(d.paired)
    case Trusted => Bool(d.trusted)
  }

  /** The value a property of key `k` stores, as it would read back. */
  function Stored(k: Key, v: Value): Value
  {
    if k == Address || k == Alias || k == Icon then Str(TextOf(v)) else Bool(TruthOf(v))
  }

  /** The names the walker dispatches on, and one it does not. */
  lemma KeyNames()
    ensures KeyOf("Address") == Address && KeyOf("Alias") == Alias && KeyOf("Icon") == Icon
    ensures KeyOf("Connected") == Connected && KeyOf("Paired") == Paired && KeyOf("Trusted") == Trusted
    ensures KeyOf("Name") == Ignored
  {
  }

  /** One property sets the field its name selects and no other; a name
      that selects nothing changes nothing. */
  lemma ApplyPropertyFrame(dev: Device, name: string, v: Value, k: Key)
    requires k != Ignored
    ensures ApplyProperty(dev, name, v).path == dev.path
    ensures Field(ApplyProperty(dev, name, v), k) == if KeyOf(name) == k then Stored(k, v) else Field(dev, k)
    ensures KeyOf(name) == Ignored ==> ApplyProperty(dev, name, v) == dev
  {
  }

  /** A property array is accepted exactly when every entry is a `{sv}`
      dict entry. */
  lemma {:induction false} PropertiesAccepted(props: seq<Value>, dev: Device)
    ensures ReadProperties(props, dev).Some? <==> forall e | e in props :: PropertyEntry(e).Some?
  {
    if props != [] {
      assert forall e | e in props :: e == props[0] || e in props[1..];
      match PropertyEntry(props[0])
      case None =>
      case Some(pv) =>
        PropertiesAccepted(props[1..], ApplyProperty(dev, pv.0, pv.1));
    }
  }

  /** After an accepted property array, each field holds the value of the
      last property that selects it, or what it held before when there is
      none; the path never changes. */
  lemma {:induction false} PropertiesLastWins(props: seq<Value>, dev: Device, k: Key)
    requires k != Ignored
    requires ReadProperties(props, dev).Some?
    ensures ReadProperties(props, dev).value.path == dev.path
    ensures Field(ReadProperties(props, dev).value, k)
      == if LastValue(props, k).Some? then Stored(k, LastValue(props, k).value) else Field(dev, k)
  {
    if props != [] {
      var pv := PropertyEntry(props[0]).value;
      ApplyPropertyFrame(dev, pv.0, pv.1, k);
      PropertiesLastWins(props[1..], ApplyProperty(dev, pv.0, pv.1), k);
    }
  }

  /** Field by field: the address, alias, icon and the three flags of an
      accepted property array are the last values given for `Address`,
      `Alias`, `Icon`, `Connected`, `Paired` and `Trusted`; a property that is
      absent leaves the zeroed default of a new record, and the record keeps
      the object's path. */
  lemma PropertiesDecode(path: string, props: seq<Value>)
    ensures ReadProperties(props, NewDevice(path)).Some? <==> forall e | e in props :: PropertyEntry(e).Some?
    ensures ReadProperties(props, NewDevice(path)).Some? ==>
      ReadProperties(props, NewDevice(path)).value == Device(
        path,
        TextOr(LastValue(props, Alias), ""),
        TextOr(LastValue(props, Address), ""),
        TextOr(LastValue(props, Icon), ""),
        TruthOr(LastValue(props, Connected), false),
        TruthOr(LastValue(props, Paired), false),
        TruthOr(LastValue(props, Trusted), false))
  {
    var dev := NewDevice(path);
    PropertiesAccepted(props, dev);
    if ReadProperties(props, dev).Some? {
      PropertiesLastWins(props, dev, Address);
      PropertiesLastWins(props, dev, Alias);
      PropertiesLastWins(props, dev, Icon);
      PropertiesLastWins(props, dev, Connected);
      PropertiesLastWins(props, dev, Paired);
      PropertiesLastWins(props, dev, Trusted);
    }
  }

  /** The Device1 interface entries of an object, in order. */
  function Device1Interfaces(ifaces: seq<Value>): (r: seq<Value>)
    ensures forall e | e in r :: e in ifaces && Named(e, DEVICE_INTERFACE)
  {
    if ifaces == [] then []
    else if Named(ifaces[0], DEVICE_INTERFACE) then [ifaces[0]] + Device1Interfaces(ifaces[1..])
    else Device1Interfaces(ifaces[1..])
  }

  /** No Device1 interface is left out: each entry named Device1 occurs in
      `Device1Interfaces` as often as in the object, and no other entry
      occurs there. */
  lemma {:induction false} Device1InterfacesComplete(ifaces: seq<Value>)
    ensures forall e :: (multiset(Device1Interfaces(ifaces))[e]
      == if Named(e, DEVICE_INTERFACE) then multiset(ifaces)[e] else 0)
  {
    if ifaces != [] {
      Device1InterfacesComplete(ifaces[1..]);
      assert ifaces == [ifaces[0]] + ifaces[1..];
    }
  }

  /** One object's interface loop keeps the records it was given, and on
      success appends exactly one record per Device1 interface, in order,
      each the decoding of that interface's properties (so each carries the
      object's path). It fails exactly when some interface key is not a
      string or some Device1 interface does not decode; on failure the
      records appended so far stay. */
  lemma {:induction false} InterfacesAppendRecords(path: string, ifaces: seq<Value>, devs: seq<Device>)
    ensures var w := ReadInterfaces(path, ifaces, devs);
      && devs <= w.devices
      && (w.ok <==> (forall e | e in ifaces :: InterfaceName(e).Some?)
                    && forall e | e in Device1Interfaces(ifaces) :: DecodeInterface(path, e).Some?)
      && (w.ok ==>
            |w.devices| == |devs| + |Device1Interfaces(ifaces)|
            && forall k :: 0 <= k < |Device1Interfaces(ifaces)| ==>
                 DecodeInterface(path, Device1Interfaces(ifaces)[k]) == Some(w.devices[|devs| + k]))
  {
    if ifaces != [] {
      var e := ifaces[0];
      assert e in ifaces;
      assert forall x | x in ifaces[1..] :: x in ifaces;
      assert forall x | x in ifaces :: x == e || x in ifaces[1..];
      match InterfaceName(e)
      case None =>
      case Some(n) =>
        if n != DEVICE_INTERFACE {
          InterfacesAppendRecords(path, ifaces[1..], devs);
        } else {
          var rest := Device1Interfaces(ifaces[1..]);
          assert Device1Interfaces(ifaces) == [e] + rest;
          match DecodeInterface(path, e)
          case None =>
          case Some(d) =>
            InterfacesAppendRecords(path, ifaces[1..], devs + [d]);
            var w := ReadInterfaces(path, ifaces, devs);
            if w.ok {
              forall k | 0 <= k < |Device1Interfaces(ifaces)|
                ensures DecodeInterface(path, Device1Interfaces(ifaces)[k]) == Some(w.devices[|devs| + k])
              {
                if k == 0 {
                  assert (devs + [d])[|devs|] == d;
                  assert (devs + [d]) <= w.devices;
                } else {
                  assert Device1Interfaces(ifaces)[k] == rest[k - 1];
                }
              }
            }
        }
    }
  }

  /** A successful walk leaves exactly what the LAST object's interface loop
      produced from an empty list: every object with a well-formed header
      empties the list before adding its own records, so the records of
      earlier objects are lost. */
  lemma {:induction false} SuccessKeepsLastObjectOnly(objs: seq<Value>, devs: seq<Device>)
    requires objs != []
    ensures var w := ReadObjects(objs, devs);
      w.ok ==> (ObjectHeader(objs[|objs| - 1]).Some?
        && var h := ObjectHeader(objs[|objs| - 1]).value;
           w.devices == ReadInterfaces(h.0, h.1, []).devices
           && ReadInterfaces(h.0, h.1, []).ok)
  {
    assert objs[0] in objs;
    assert forall o | o in objs[1..] :: o in objs;
    match ObjectHeader(objs[0])
    case None =>
    case Some(h) =>
      var w := ReadInterfaces(h.0, h.1, []);
      if w.ok && |objs| > 1 {
        SuccessKeepsLastObjectOnly(objs[1..], w.devices);
        assert objs[1..][|objs[1..]| - 1] == objs[|objs| - 1];
      }
  }

  /** The object walk succeeds exactly when every object has a well-formed
      header and its own interface loop, started from an empty list,
      succeeds; the list held before plays no part in the verdict. */
  lemma {:induction false} ReadObjectsOk(objs: seq<Value>, devs: seq<Device>)
    ensures ReadObjects(objs, devs).ok <==>
      forall o | o in objs :: ObjectHeader(o).Some?
        && ReadInterfaces(ObjectHeader(o).value.0, ObjectHeader(o).value.1, []).ok
  {
    if objs != [] {
      assert objs[0] in objs;
      assert forall o | o in objs[1..] :: o in objs;
      assert forall o | o in objs :: o == objs[0] || o in objs[1..];
      match ObjectHeader(objs[0])
      case None =>
      case Some(h) =>
        var w := ReadInterfaces(h.0, h.1, []);
        if w.ok {
          ReadObjectsOk(objs[1..], w.devices);
        }
    }
  }

  /** A reply whose root is a non-empty array decodes exactly when every
      object is `{o a{s...}}` down to its interface keys and every Device1
      interface of every object decodes; any other reply fails. */
  lemma ReadScannedOk(reply: seq<Value>, prior: seq<Device>)
    ensures !HasObjectArray(reply) || reply[0].items == [] ==> !ReadScanned(reply, prior).ok
    ensures HasObjectArray(reply) && reply[0].items != [] ==>
      (ReadScanned(reply, prior).ok <==>
        forall o | o in reply[0].items :: ObjectShaped(o)
          && forall e | e in Device1Interfaces(ObjectHeader(o).value.1) ::
               DecodeInterface(ObjectHeader(o).value.0, e).Some?)
  {
    if HasObjectArray(reply) && reply[0].items != [] {
      var objs := reply[0].items;
      ReadObjectsOk(objs, prior);
      forall o | o in objs && ObjectHeader(o).Some?
        ensures var h := ObjectHeader(o).value;
          ReadInterfaces(h.0, h.1, []).ok <==>
            (forall e | e in h.1 :: InterfaceName(e).Some?)
            && forall e | e in Device1Interfaces(h.1) :: DecodeInterface(h.0, e).Some?
      {
        var h := ObjectHeader(o).value;
        InterfacesAppendRecords(h.0, h.1, []);
      }
    }
  }

  /** What a successful decode of a whole reply leaves: one record per
      Device1 interface of the last object, all carrying that object's path;
      the list held before the call plays no part. */
  lemma ScannedDevicesOfLastObject(reply: seq<Value>, prior: seq<Device>)
    ensures var w := ReadScanned(reply, prior);
      w.ok ==> (HasObjectArray(reply) && |reply[0].items| > 0
        && var last := reply[0].items[|reply[0].items| - 1];
           ObjectHeader(last).Some?
           && |w.devices| == |Device1Interfaces(ObjectHeader(last).value.1)|
           && forall k :: 0 <= k < |w.devices| ==>
                DecodeInterface(ObjectHeader(last).value.0, Device1Interfaces(ObjectHeader(last).value.1)[k]) == Some(w.devices[k]))
  {
    if HasObjectArray(reply) && reply[0].items != [] {
      var objs := reply[0].items;
      SuccessKeepsLastObjectOnly(objs, prior);
      var last := objs[|objs| - 1];
      if ObjectHeader(last).Some? {
        assert last in objs;
        var h := ObjectHeader(last).value;
        InterfacesAppendRecords(h.0, h.1, []);
      }
    }
  }

  /** Every record a decode produces carries the path of the object whose
      Device1 interface it came from. */
  lemma DecodedRecordKeepsPath(path: string, e: Value)
    ensures DecodeInterface(path, e).Some? ==> DecodeInterface(path, e).value.path == path
  {
    if e.DictEntry? && |e.fields| >= 2 && e.fields[1].Array? {
      PropertiesDecode(path, e.fields[1].items);
    }
  }

  /** What happens to the list held before the call: if the first object's
      header is malformed, the walk fails at once and the list is untouched;
      otherwise it is discarded, so the outcome and the final list do not
      depend on it, whether the walk succeeds or fails (there is no
      rollback). */
  lemma PriorListFate(reply: seq<Value>, prior: seq<Device>, other: seq<Device>)
    ensures !HasObjectArray(reply) || reply[0].items == [] || ObjectHeader(reply[0].items[0]).None? ==>
      ReadScanned(reply, prior) == Walk(false, prior)
    ensures HasObjectArray(reply) && reply[0].items != [] && ObjectHeader(reply[0].items[0]).Some? ==>
      ReadScanned(reply, prior) == ReadScanned(reply, other)
  {
    if HasObjectArray(reply) && reply[0].items != [] {
      assert reply[0].items[0] in reply[0].items;
    }
  }

  // ---------------------------------------------------------------------
  // Worked replies
  // ---------------------------------------------------------------------

  const ADAPTER_PATH: string := "/org/bluez/hci0"
  const DEVICE_PATH: string := "/org/bluez/hci0/dev_AA_BB_CC_DD_EE_FF"

  function Entry(key: Value, value: Value): Value { DictEntry([key, value]) }

  function Prop(name: string, v: Value): Value { Entry(Str(name), Variant(v)) }

  function AdapterObject(): Value
  {
    Entry(ObjectPath(ADAPTER_PATH), Array([Entry(Str(ADAPTER_INTERFACE), Array([Prop("Powered", Bool(true))]))]))
  }

  function HeadsetProperties(): seq<Value>
  {
    [ Prop("Address", Str("AA:BB:CC:DD:EE:FF")),
      Prop("Name", Str("WH-1000")),
      Prop("Alias", Str("Headset")),
      Prop("Connected", Bool(false)) ]
  }

  function HeadsetObject(): Value
  {
    Entry(ObjectPath(DEVICE_PATH), Array([
      Entry(Str("org.freedesktop.DBus.Introspectable"), Array([])),
      Entry(Str(DEVICE_INTERFACE), Array(HeadsetProperties()))]))
  }

  function HeadsetRecord(): Device
  {
    Device(DEVICE_PATH, "Headset", "AA:BB:CC:DD:EE:FF", "", false, false, false)
  }

  /** An adapter object and a headset object, as BlueZ reports them. */
  function HeadsetReply(): seq<Value>
  {
    [Array([AdapterObject(), HeadsetObject()])]
  }

  lemma AdapterObjectDecodes(devs: seq<Device>)
    ensures ObjectDefined(AdapterObject()) && ObjectHeader(AdapterObject()).Some?
    ensures var h := ObjectHeader(AdapterObject()).value;
      h.0 == ADAPTER_PATH && AdapterIn(h.1) == Hit && ReadInterfaces(h.0, h.1, devs) == Walk(true, devs)
  {
    var h := ObjectHeader(AdapterObject()).value;
    assert h.1 == [Entry(Str(ADAPTER_INTERFACE), Array([Prop("Powered", Bool(true))]))];
    assert ADAPTER_INTERFACE != DEVICE_INTERFACE;
  }

  /** The headset's properties decode to its record: the last `Alias` is
      the name and `Name` is ignored. */
  lemma HeadsetPropertiesRead()
    ensures PropertiesDefined(HeadsetProperties())
    ensures ReadProperties(HeadsetProperties(), NewDevice(DEVICE_PATH)) == Some(HeadsetRecord())
  {
    KeyNames();
    var props := HeadsetProperties();
    var d0 := NewDevice(DEVICE_PATH);
    var d1 := d0.(macaddr := "AA:BB:CC:DD:EE:FF");
    var d3 := d1.(name := "Headset");
    assert ReadProperties(props[3..], d3) == Some(HeadsetRecord());
    assert props[2..][1..] == props[3..];
    assert ReadProperties(props[2..], d1) == Some(HeadsetRecord());
    assert props[1..][1..] == props[2..];
    assert ReadProperties(props[1..], d1) == Some(HeadsetRecord());
    assert ReadProperties(props, d0) == Some(HeadsetRecord());
    assert PropertiesDefined(props) by {
      assert forall e | e in props :: e == props[0] || e == props[1] || e == props[2] || e == props[3];
    }
  }

  lemma HeadsetObjectDecodes(devs: seq<Device>)
    ensures ObjectDefined(HeadsetObject()) && ObjectHeader(HeadsetObject()).Some?
    ensures var h := ObjectHeader(HeadsetObject()).value;
      h.0 == DEVICE_PATH && ReadInterfaces(h.0, h.1, devs) == Walk(true, devs + [HeadsetRecord()])
  {
    HeadsetPropertiesRead();
    var h := ObjectHeader(HeadsetObject()).value;
    assert "org.freedesktop.DBus.Introspectable" != DEVICE_INTERFACE;
    assert h.1[1..][1..] == [];
    assert forall e | e in h.1 :: e == h.1[0] || e == h.1[1];
    assert DecodeInterface(h.0, h.1[1]) == Some(HeadsetRecord());
    assert ReadInterfaces(h.0, h.1[1..], devs) == ReadInterfaces(h.0, h.1[1..][1..], devs + [HeadsetRecord()]);
    assert ReadInterfaces(h.0, h.1, devs) == ReadInterfaces(h.0, h.1[1..], devs);
  }

  /** The headset reply yields the adapter path, and a single record named
      by its Alias (not its Name), not connected, with the unset fields at
      their zeroed defaults. */
  lemma HeadsetReplyDecodes(prior: seq<Device>)
    ensures FindAdapter(HeadsetReply()) == Found(ADAPTER_PATH)
    ensures ReplyDefined(HeadsetReply())
    ensures ReadScanned(HeadsetReply(), prior) == Walk(true, [HeadsetRecord()])
  {
    AdapterObjectDecodes([]);
    HeadsetObjectDecodes([]);
    var objs := HeadsetReply()[0].items;
    assert objs[1..][1..] == [];
    assert forall o | o in objs :: o == objs[0] || o == objs[1];
    assert AdapterAmong(objs) == Found(ADAPTER_PATH);
    assert ReadObjects(objs[1..], []) == Walk(true, [HeadsetRecord()]);
    assert ReadObjects(objs, prior) == ReadObjects(objs[1..], []);
  }

  /** The same two objects in the other order: the device object's record
      is dropped when the adapter object that follows clears the list, so
      the decode succeeds with no device at all. */
  lemma EarlierObjectsDiscarded(prior: seq<Device>)
    ensures ReplyDefined([Array([HeadsetObject(), AdapterObject()])])
    ensures ReadScanned([Array([HeadsetObject(), AdapterObject()])], prior) == Walk(true, [])
  {
    AdapterObjectDecodes([]);
    HeadsetObjectDecodes([]);
    var objs := [HeadsetObject(), AdapterObject()];
    assert objs[1..][1..] == [];
    assert forall o | o in objs :: o == objs[0] || o == objs[1];
    assert ReadObjects(objs[1..], [HeadsetRecord()]) == Walk(true, []);
    assert ReadObjects(objs, prior) == ReadObjects(objs[1..], [HeadsetRecord()]);
  }

  /** A shape error in a later object leaves the partly rebuilt list: the
      headset record survives, the list held before is gone, and the walk
      reports failure. */
  lemma FailureKeepsPartialList(prior: seq<Device>)
    ensures ReplyDefined([Array([HeadsetObject(), Str("not an entry")])])
    ensures ReadScanned([Array([HeadsetObject(), Str("not an entry")])], prior) == Walk(false, [HeadsetRecord()])
  {
    HeadsetObjectDecodes([]);
    var objs := [HeadsetObject(), Str("not an entry")];
    assert forall o | o in objs :: o == objs[0] || o == objs[1];
    assert ReadObjects(objs[1..], [HeadsetRecord()]) == Walk(false, [HeadsetRecord()]);
    assert ReadObjects(objs, prior) == ReadObjects(objs[1..], [HeadsetRecord()]);
  }
}
