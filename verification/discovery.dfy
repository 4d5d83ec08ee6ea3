/**
 * The directory of UPnP media servers discovered on the network
 * (UPnPDeviceDirectory). Devices are kept in an ordered map from device id
 * to descriptor; entries expire, bye-bye messages remove them, and lookups
 * walk the map in key order.
 */
module Discovery {
  import opened Wrappers
  import opened OrderedMap

  /** An `unsigned` (32-bit) value such as a reading of the monotonic clock in seconds. */
  type uint32 = x: int | 0 <= x < 0x1_0000_0000

  /** The service type searched for; comparisons ignore its version suffix. */
  const ContentDirectorySType: string := "urn:schemas-upnp-org:service:ContentDirectory:1"

  /** The device type searched for; comparisons ignore its version suffix. */
  const MediaServerDType: string := "urn:schemas-upnp-org:device:MediaServer:1"

  /** libupnp's success code. */
  const UPNP_E_SUCCESS: int := 0

  /** Minimum number of seconds between two network searches. */
  const SearchInterval: int := 10

  /** `memcmp(a, b, n) == 0`: the first `n` characters agree. `b` is a C string
      together with its terminating NUL. This is the value a `memcmp` that does
      not fault returns: when `b` is shorter than `n`, C lets `memcmp` read past
      the terminator (undefined behaviour), whereas here the comparison ends at
      the first difference and a missing character is a difference. */
  function MemEqual(a: string, b: string, n: nat): bool
    requires n <= |a|
  {
    n == 0 || (|b| > 0 && a[0] == b[0] && MemEqual(a[1..], b[1..], n - 1))
  }

  /** A C string: its characters followed by the NUL terminator. */
  function CString(st: string): string
  {
    st + "\0"
  }

  /** `isCDService`: compare all of the type string except the final ":1"
      (`sizeof` counts the NUL, hence the 3). */
  predicate IsCDService(st: string)
  {
    MemEqual(ContentDirectorySType, CString(st), |ContentDirectorySType| + 1 - 3)
  }

  /** `isMSDevice`: the same comparison against the media server device type. */
  predicate IsMSDevice(st: string)
  {
    MemEqual(MediaServerDType, CString(st), |MediaServerDType| + 1 - 3)
  }

  /** `memcmp` over `n` bytes succeeds exactly when `b` has at least `n`
      characters and its first `n` agree with those of `a`. */
  lemma {:induction false} MemEqualIsPrefix(a: string, b: string, n: nat)
    requires n <= |a|
    ensures MemEqual(a, b, n) <==> |b| >= n && b[..n] == a[..n]
  {
    if n > 0 && |b| > 0 {
      MemEqualIsPrefix(a[1..], b[1..], n - 1);
      assert a[..n] == [a[0]] + a[1..][..n - 1];
      if |b| >= n {
        assert b[..n] == [b[0]] + b[1..][..n - 1];
      }
    }
  }

  /** `isCDService(st)` holds exactly when `st` starts with the service type
      without its version, whatever follows. */
  lemma IsCDServiceSpec(st: string)
    ensures IsCDService(st) <==> |st| >= 45 && st[..45] == "urn:schemas-upnp-org:service:ContentDirectory"
  {
    assert |ContentDirectorySType| + 1 - 3 == 45;
    assert ContentDirectorySType[..45] == "urn:schemas-upnp-org:service:ContentDirectory";
    MemEqualIsPrefix(ContentDirectorySType, CString(st), 45);
    if |st| >= 45 {
      assert CString(st)[..45] == st[..45];
    } else if |st| == 44 {
      assert CString(st)[44] == '\0' != ContentDirectorySType[44];
    }
  }

  /** `isMSDevice(st)` holds exactly when `st` starts with the device type
      without its version. */
  lemma IsMSDeviceSpec(st: string)
    ensures IsMSDevice(st) <==> |st| >= 39 && st[..39] == "urn:schemas-upnp-org:device:MediaServer"
  {
    assert |MediaServerDType| + 1 - 3 == 39;
    assert MediaServerDType[..39] == "urn:schemas-upnp-org:device:MediaServer";
    MemEqualIsPrefix(MediaServerDType, CString(st), 39);
    if |st| >= 39 {
      assert CString(st)[..39] == st[..39];
    } else if |st| == 38 {
      assert CString(st)[38] == '\0' != MediaServerDType[38];
    }
  }

  /** Any version of the content directory service type is accepted,
      including the one searched for. */
  lemma CDVersionIgnored(version: string)
    ensures IsCDService("urn:schemas-upnp-org:service:ContentDirectory" + version)
    ensures IsCDService(ContentDirectorySType)
  {
    var st := "urn:schemas-upnp-org:service:ContentDirectory" + version;
    IsCDServiceSpec(st);
    assert st[..45] == "urn:schemas-upnp-org:service:ContentDirectory";
    IsCDServiceSpec(ContentDirectorySType);
    assert ContentDirectorySType[..45] == "urn:schemas-upnp-org:service:ContentDirectory";
  }

  /** Any version of the media server device type is accepted, including the
      one searched for. */
  lemma MSVersionIgnored(version: string)
    ensures IsMSDevice("urn:schemas-upnp-org:device:MediaServer" + version)
    ensures IsMSDevice(MediaServerDType)
  {
    var st := "urn:schemas-upnp-org:device:MediaServer" + version;
    IsMSDeviceSpec(st);
    assert st[..39] == "urn:schemas-upnp-org:device:MediaServer";
    IsMSDeviceSpec(MediaServerDType);
    assert MediaServerDType[..39] == "urn:schemas-upnp-org:device:MediaServer";
  }

  /** One service of a UPnP device. */
  datatype Service = Service(serviceType: string, serviceId: string)

  /** A UPnP device, as described by its description document. */
  datatype Device = Device(friendlyName: string, services: seq<Service>)

  /** `ContentDirectoryDescriptor`: a device and the clock value after which its entry expires. */
  datatype Descriptor = Descriptor(device: Device, expires: uint32)

  /** A content directory service of a particular device. */
  datatype ContentDirectoryService = ContentDirectoryService(device: Device, service: Service)

  /** The parts of a libupnp discovery event that are used. */
  datatype Discovery = Discovery(deviceId: string, deviceType: string, serviceType: string)

  /** Why `getServer` or `getDirServices` fails. */
  datatype Error = SearchFailed | ServerNotFound

  /** `now - m_lastSearch` in unsigned arithmetic: wraps around modulo 2^32. */
  function Elapsed(now: uint32, last: uint32): uint32
  {
    (now - last) % 0x1_0000_0000
  }

  /** The unsigned difference measures the time since `last` exactly, also
      when the clock has wrapped around in between. */
  lemma ElapsedExact(last: uint32, k: nat)
    requires k < 0x1_0000_0000
    ensures Elapsed((last + k) % 0x1_0000_0000, last) == k
  {
    if last + k >= 0x1_0000_0000 {
      assert (last + k) % 0x1_0000_0000 == last + k - 0x1_0000_0000;
      assert (k - 0x1_0000_0000) % 0x1_0000_0000 == k;
    }
  }

  /** A search is issued only when at least `SearchInterval` seconds have passed. */
  predicate SearchDue(now: uint32, last: uint32)
  {
    Elapsed(now, last) >= SearchInterval
  }

  /** The rate limit: `k` seconds after a search, the next one is due exactly when k >= 10. */
  lemma SearchRateLimit(last: uint32, k: nat)
    requires k < 0x1_0000_0000
    ensures SearchDue((last + k) % 0x1_0000_0000, last) <==> k >= 10
  {
    ElapsedExact(last, k);
  }

  predicate Expired(d: Descriptor, now: uint32)
  {
    now > d.expires
  }

  /** The entries that survive an expiry sweep at time `now`, in their order. */
  function Unexpired(s: seq<Entry<Descriptor>>, now: uint32): (r: seq<Entry<Descriptor>>)
    ensures |r| <= |s|
    ensures forall e :: e in r ==> e in s && !Expired(e.value, now)
    ensures |r| == |s| ==> r == s
  {
    if s == [] then []
    else if Expired(s[0].value, now) then Unexpired(s[1..], now)
    else [s[0]] + Unexpired(s[1..], now)
  }

  /** The sweep keeps an entry exactly when it has not expired. */
  lemma {:induction false} UnexpiredSnoc(s: seq<Entry<Descriptor>>, e: Entry<Descriptor>, now: uint32)
    ensures Unexpired(s + [e], now) == Unexpired(s, now) + if Expired(e.value, now) then [] else [e]
  {
    if s != [] {
      assert (s + [e])[1..] == s[1..] + [e];
      UnexpiredSnoc(s[1..], e, now);
    } else {
      assert [] + [e] == [e];
    }
  }

  /** Nothing is removed exactly when no entry has expired. */
  lemma {:induction false} NothingExpired(s: seq<Entry<Descriptor>>, now: uint32)
    ensures Unexpired(s, now) == s <==> forall i :: 0 <= i < |s| ==> !Expired(s[i].value, now)
  {
    if s != [] {
      NothingExpired(s[1..], now);
      if Expired(s[0].value, now) {
        assert |Unexpired(s, now)| < |s|;
      } else {
        assert s == [s[0]] + s[1..];
        forall i | 0 < i < |s| ensures s[i] == s[1..][i - 1] { }
      }
    }
  }

  lemma {:induction false} UnexpiredSorted(s: seq<Entry<Descriptor>>, now: uint32)
    requires Sorted(s)
    ensures Sorted(Unexpired(s, now))
  {
    if s != [] {
      UnexpiredSorted(s[1..], now);
      var r := Unexpired(s[1..], now);
      forall j | 0 <= j < |r| ensures Below(s[0].key, r[j].key) {
        assert r[j] in s[1..];
      }
    }
  }

  /** The map after a sweep: the entries of `t` that have not expired. */
  function Live(t: map<string, Descriptor>, now: uint32): (r: map<string, Descriptor>)
    ensures forall k :: k in r <==> k in t && !Expired(t[k], now)
  {
    map k | k in t && !Expired(t[k], now) :: t[k]
  }

  /** Updating one key and then sweeping is sweeping and then updating that key. */
  lemma LiveUpdate(t: map<string, Descriptor>, k: string, v: Descriptor, now: uint32)
    requires k !in t
    ensures Live(t[k := v], now) == if Expired(v, now) then Live(t, now) else Live(t, now)[k := v]
  {
  }

  /** The sweep removes exactly the expired devices and keeps every other entry unchanged. */
  lemma {:induction false} TableUnexpired(s: seq<Entry<Descriptor>>, now: uint32)
    requires Sorted(s)
    ensures Table(Unexpired(s, now)) == Live(Table(s), now)
  {
    if s != [] {
      var rest := s[1..];
      TableUnexpired(rest, now);
      SortedKeysDistinct(s);
      assert s[0].key !in Table(rest) by {
        assert forall e :: e in rest ==> e.key != s[0].key;
        assert Get(rest, s[0].key).None?;
      }
      LiveUpdate(Table(rest), s[0].key, s[0].value, now);
      if !Expired(s[0].value, now) {
        assert ([s[0]] + Unexpired(rest, now))[1..] == Unexpired(rest, now);
      }
    }
  }

  /** Whether an expiry sweep over `s` at `now` reports success: trivially when
      nothing expired, otherwise as the (rate limited) search does. */
  predicate ExpireSucceeds(s: seq<Entry<Descriptor>>, now: uint32, last: uint32, searchOk: bool)
  {
    Unexpired(s, now) == s || !SearchDue(now, last) || searchOk
  }

  /** The content directory services of one device, in order. */
  function CDServices(device: Device, services: seq<Service>): (r: seq<ContentDirectoryService>)
  {
    if services == [] then []
    else
      var last := services[|services| - 1];
      CDServices(device, services[..|services| - 1]) +
        if IsCDService(last.serviceType) then [ContentDirectoryService(device, last)] else []
  }

  /** Every content directory service of every device, devices in map order. */
  function DirServices(s: seq<Entry<Descriptor>>): (r: seq<ContentDirectoryService>)
  {
    if s == [] then []
    else
      var device := s[|s| - 1].value.device;
      DirServices(s[..|s| - 1]) + CDServices(device, device.services)
  }

  lemma {:induction false} CDServicesMembers(device: Device, services: seq<Service>)
    ensures forall x :: x in CDServices(device, services) <==>
      x.device == device && x.service in services && IsCDService(x.service.serviceType)
  {
    if services != [] {
      var init := services[..|services| - 1];
      CDServicesMembers(device, init);
      assert services == init + [services[|services| - 1]];
    }
  }

  /** `getDirServices` reports one entry for each content directory service of
      each known device, and nothing else. */
  lemma {:induction false} DirServicesMembers(s: seq<Entry<Descriptor>>)
    ensures forall x :: x in DirServices(s) <==>
      exists i :: 0 <= i < |s| && x.device == s[i].value.device &&
        x.service in x.device.services && IsCDService(x.service.serviceType)
  {
    if s != [] {
      var init := s[..|s| - 1];
      var device := s[|s| - 1].value.device;
      DirServicesMembers(init);
      CDServicesMembers(device, device.services);
      forall x ensures x in DirServices(s) <==>
        exists i :: 0 <= i < |s| && x.device == s[i].value.device &&
          x.service in x.device.services && IsCDService(x.service.serviceType)
      {
        if x in DirServices(init) {
          var i :| 0 <= i < |init| && x.device == init[i].value.device &&
            x.service in x.device.services && IsCDService(x.service.serviceType);
          assert s[i] == init[i];
        }
        if exists i :: 0 <= i < |s| && x.device == s[i].value.device &&
            x.service in x.device.services && IsCDService(x.service.serviceType) {
          var i :| 0 <= i < |s| && x.device == s[i].value.device &&
            x.service in x.device.services && IsCDService(x.service.serviceType);
          if i < |s| - 1 {
            assert init[i] == s[i];
          }
        }
      }
    }
  }

  /** The append loop of `getDirServices`: adds every content directory service
      of every device to `out`, keeping what `out` already held. */
  method AppendDirServices(directories: seq<Entry<Descriptor>>, out: seq<ContentDirectoryService>)
    returns (result: seq<ContentDirectoryService>)
    ensures result == out + DirServices(directories)
  {
    result := out;
    for i := 0 to |directories|
      invariant result == out + DirServices(directories[..i])
    {
      var device := directories[i].value.device;
      for j := 0 to |device.services|
        invariant result == out + DirServices(directories[..i]) + CDServices(device, device.services[..j])
      {
        assert device.services[..j + 1][..j] == device.services[..j];
        if IsCDService(device.services[j].serviceType) {
          result := result + [ContentDirectoryService(device, device.services[j])];
        }
      }
      assert device.services[..|device.services|] == device.services;
      assert directories[..i + 1][..i] == directories[..i];
    }
    assert directories[..|directories|] == directories;
  }

  /** The first content directory service of a device, in its service order. */
  function FirstCDService(services: seq<Service>): Option<Service>
  {
    if services == [] then None
    else if IsCDService(services[0].serviceType) then Some(services[0])
    else FirstCDService(services[1..])
  }

  lemma {:induction false} FirstCDServiceAt(services: seq<Service>, j: nat)
    requires j < |services| && IsCDService(services[j].serviceType)
    requires forall m :: 0 <= m < j ==> !IsCDService(services[m].serviceType)
    ensures FirstCDService(services) == Some(services[j])
  {
    if j > 0 {
      FirstCDServiceAt(services[1..], j - 1);
    }
  }

  lemma {:induction false} FirstCDServiceNone(services: seq<Service>)
    ensures FirstCDService(services).None? <==> forall j :: 0 <= j < |services| ==> !IsCDService(services[j].serviceType)
  {
    if services != [] {
      FirstCDServiceNone(services[1..]);
      assert forall j :: 0 < j < |services| ==> services[j] == services[1..][j - 1];
    }
  }

  /** A device that `getServer(name)` can answer with: the right friendly name
      and at least one content directory service. */
  predicate Serves(e: Entry<Descriptor>, name: string)
  {
    e.value.device.friendlyName == name && FirstCDService(e.value.device.services).Some?
  }

  /** The answer of `getServer(name)` over the map `s`: the first content
      directory service of the first device, in map order, that serves `name`. */
  function ServerFor(s: seq<Entry<Descriptor>>, name: string): Option<ContentDirectoryService>
  {
    if s == [] then None
    else if Serves(s[0], name) then
      Some(ContentDirectoryService(s[0].value.device, FirstCDService(s[0].value.device.services).value))
    else ServerFor(s[1..], name)
  }

  /** The server found is the one of the first serving device. */
  lemma {:induction false} ServerForAt(s: seq<Entry<Descriptor>>, name: string, i: nat)
    requires i < |s| && Serves(s[i], name)
    requires forall k :: 0 <= k < i ==> !Serves(s[k], name)
    ensures ServerFor(s, name) ==
      Some(ContentDirectoryService(s[i].value.device, FirstCDService(s[i].value.device.services).value))
  {
    if i > 0 {
      ServerForAt(s[1..], name, i - 1);
    }
  }

  /** `getServer(name)` finds nothing exactly when no device serves `name`. */
  lemma {:induction false} ServerForNone(s: seq<Entry<Descriptor>>, name: string)
    ensures ServerFor(s, name).None? <==> forall i :: 0 <= i < |s| ==> !Serves(s[i], name)
  {
    if s != [] {
      ServerForNone(s[1..], name);
      assert forall i :: 0 < i < |s| ==> s[i] == s[1..][i - 1];
    }
  }

  /** The lookup loop of `getServer`: scan the devices in map order, skip those
      with another friendly name, and return the first content directory
      service of the first one that has one. */
  method FindServer(directories: seq<Entry<Descriptor>>, friendlyName: string)
    returns (r: Option<ContentDirectoryService>)
    ensures r == ServerFor(directories, friendlyName)
  {
    for i := 0 to |directories|
      invariant forall k :: 0 <= k < i ==> !Serves(directories[k], friendlyName)
    {
      var device := directories[i].value.device;
      if device.friendlyName != friendlyName {
        continue;
      }
      for j := 0 to |device.services|
        invariant forall m :: 0 <= m < j ==> !IsCDService(device.services[m].serviceType)
      {
        if IsCDService(device.services[j].serviceType) {
          FirstCDServiceAt(device.services, j);
          ServerForAt(directories, friendlyName, i);
          return Some(ContentDirectoryService(device, device.services[j]));
        }
      }
      FirstCDServiceNone(device.services);
    }
    ServerForNone(directories, friendlyName);
    return None;
  }

  /** One step of the in-place sweep that erases an expired entry: `cur` holds
      the sweep of `orig[..j]` followed by the unvisited `orig[j..]`. */
  lemma SweepErase(orig: seq<Entry<Descriptor>>, j: nat, cur: seq<Entry<Descriptor>>, i: nat, now: uint32)
    requires i < |cur| && j <= |orig|
    requires cur[..i] == Unexpired(orig[..j], now) && cur[i..] == orig[j..]
    requires Expired(cur[i].value, now)
    ensures j < |orig|
    ensures EraseAt(cur, i)[..i] == Unexpired(orig[..j + 1], now)
    ensures EraseAt(cur, i)[i..] == orig[j + 1..]
  {
    assert cur[i] == orig[j];
    assert orig[..j + 1] == orig[..j] + [orig[j]];
    UnexpiredSnoc(orig[..j], orig[j], now);
    assert orig[j + 1..] == orig[j..][1..];
  }

  /** One step of the sweep that keeps an entry that has not expired. */
  lemma SweepKeep(orig: seq<Entry<Descriptor>>, j: nat, cur: seq<Entry<Descriptor>>, i: nat, now: uint32)
    requires i < |cur| && j <= |orig|
    requires cur[..i] == Unexpired(orig[..j], now) && cur[i..] == orig[j..]
    requires !Expired(cur[i].value, now)
    ensures j < |orig|
    ensures cur[..i + 1] == Unexpired(orig[..j + 1], now)
    ensures cur[i + 1..] == orig[j + 1..]
  {
    assert cur[i] == orig[j];
    assert orig[..j + 1] == orig[..j] + [orig[j]];
    UnexpiredSnoc(orig[..j], orig[j], now);
    assert cur[..i + 1] == cur[..i] + [cur[i]];
    assert orig[j + 1..] == orig[j..][1..];
  }

  /** When the sweep reaches the end, every entry has been visited. */
  lemma SweepDone(orig: seq<Entry<Descriptor>>, j: nat, cur: seq<Entry<Descriptor>>, i: nat, now: uint32)
    requires i == |cur| && j <= |orig|
    requires cur[..i] == Unexpired(orig[..j], now) && cur[i..] == orig[j..]
    ensures j == |orig| && cur == Unexpired(orig, now)
    ensures i < j <==> cur != orig
  {
    assert orig[..j] == orig;
    assert cur[..i] == cur;
  }

  /** `UPnPDeviceDirectory`: the device map and the time of the last search. */
  class UPnPDeviceDirectory {
    var directories: seq<Entry<Descriptor>>
    var lastSearch: uint32

    ghost predicate Valid()
      reads this
    {
      Sorted(directories)
    }

    constructor ()
      ensures Valid() && Table(directories) == map[] && lastSearch == 0
    {
      directories := [];
      lastSearch := 0;
    }

    /** The map update of the discovery worker: insert the device, or replace
        the entry that has the same device id. */
    method RecordDevice(deviceId: string, d: Descriptor)
      requires Valid()
      modifies this`directories
      ensures Valid()
      ensures Table(directories) == old(Table(directories))[deviceId := d]
    {
      InsertSorted(directories, deviceId, d);
      TableInsert(directories, deviceId, d);
      directories := Insert(directories, deviceId, d);
    }

    /** `OnByeBye`: a media server or content directory going away is removed
        from the map; other events change nothing. Always succeeds. */
    method OnByeBye(disco: Discovery) returns (code: int)
      requires Valid()
      modifies this`directories
      ensures Valid()
      ensures code == UPNP_E_SUCCESS
      ensures Table(directories) ==
        if IsMSDevice(disco.deviceType) || IsCDService(disco.serviceType)
        then old(Table(directories)) - {disco.deviceId}
        else old(Table(directories))
    {
      if IsMSDevice(disco.deviceType) || IsCDService(disco.serviceType) {
        var it := IndexOf(directories, disco.deviceId);
        if it >= 0 {
          EraseAtSorted(directories, it);
          TableEraseAt(directories, it);
          directories := EraseAt(directories, it);
        } else {
          assert disco.deviceId !in Table(directories) by {
            assert Get(directories, disco.deviceId).None?;
          }
        }
      }
      code := UPNP_E_SUCCESS;
    }

    /** `search`: at most one network search per `SearchInterval` seconds;
        `searchOk` is whether libupnp accepted both search requests. */
    method Search(now: uint32, searchOk: bool) returns (ok: bool)
      modifies this`lastSearch
      ensures lastSearch == if SearchDue(now, old(lastSearch)) then now else old(lastSearch)
      ensures ok == (!SearchDue(now, old(lastSearch)) || searchOk)
    {
      if Elapsed(now, lastSearch) < SearchInterval {
        return true;
      }
      lastSearch := now;
      ok := searchOk;
    }

    /** `expireDevices`: erase every entry whose expiry time has passed and,
        when anything was erased, search the network again. */
    method ExpireDevices(now: uint32, searchOk: bool) returns (ok: bool)
      requires Valid()
      modifies this
      ensures Valid()
      ensures directories == Unexpired(old(directories), now)
      ensures Table(directories) == Live(old(Table(directories)), now)
      ensures ok == ExpireSucceeds(old(directories), now, old(lastSearch), searchOk)
      ensures lastSearch ==
        if directories != old(directories) && SearchDue(now, old(lastSearch)) then now else old(lastSearch)
    {
      ghost var orig := directories;
      var didsomething := false;
      var i := 0;
      ghost var j := 0;
      while i < |directories|
        invariant 0 <= i <= |directories| && 0 <= j <= |orig|
        invariant directories[..i] == Unexpired(orig[..j], now)
        invariant directories[i..] == orig[j..]
        invariant didsomething == (i < j)
        invariant lastSearch == old(lastSearch)
        decreases |directories| - i
      {
        if now > directories[i].value.expires {
          SweepErase(orig, j, directories, i, now);
          directories := EraseAt(directories, i);
          didsomething := true;
        } else {
          SweepKeep(orig, j, directories, i, now);
          i := i + 1;
        }
        j := j + 1;
      }
      SweepDone(orig, j, directories, i, now);
      UnexpiredSorted(orig, now);
      TableUnexpired(orig, now);
      if didsomething {
        ok := Search(now, searchOk);
      } else {
        ok := true;
      }
    }

    /** `getDirServices`: expire devices, then append to `out` every content
        directory service of every remaining device, in map order. `out` is
        returned untouched when the expiry search fails. */
    method GetDirServices(out: seq<ContentDirectoryService>, now: uint32, searchOk: bool)
      returns (ok: bool, result: seq<ContentDirectoryService>)
      requires Valid()
      modifies this
      ensures Valid()
      ensures directories == Unexpired(old(directories), now)
      ensures ok == ExpireSucceeds(old(directories), now, old(lastSearch), searchOk)
      ensures result == if ok then out + DirServices(directories) else out
      ensures lastSearch ==
        if directories != old(directories) && SearchDue(now, old(lastSearch)) then now else old(lastSearch)
    {
      ok := ExpireDevices(now, searchOk);
      if !ok {
        return ok, out;
      }
      result := AppendDirServices(directories, out);
    }

    /** `getServer`: expire devices, then find the content directory service
        of the first device named `friendlyName` that has one. */
    method GetServer(friendlyName: string, now: uint32, searchOk: bool)
      returns (r: Result<ContentDirectoryService, Error>)
      requires Valid()
      modifies this
      ensures Valid()
      ensures directories == Unexpired(old(directories), now)
      ensures r ==
        if !ExpireSucceeds(old(directories), now, old(lastSearch), searchOk) then Failure(SearchFailed)
        else (match ServerFor(directories, friendlyName)
          case Some(server) => Success(server)
          case None => Failure(ServerNotFound))
      ensures lastSearch ==
        if directories != old(directories) && SearchDue(now, old(lastSearch)) then now else old(lastSearch)
    {
      var ok := ExpireDevices(now, searchOk);
      if !ok {
        return Failure(SearchFailed);
      }
      var found := FindServer(directories, friendlyName);
      if found.None? {
        return Failure(ServerNotFound);
      }
      return Success(found.value);
    }
  }
}
