# MPD: composite storage mount tree and UPnP device directory

This project models two table-like structures of the Music Player Daemon (MPD) in Dafny and proves
properties about them.

**The mount tree of `CompositeStorage`** (`src/storage/CompositeStorage.hxx`). A virtual directory
tree has `Storage` backends mounted at some of its nodes. Each `Directory` node holds an optional
storage and a `std::map` of named children.

- `MountTree.Directory` is that node, as a value.
  - The `std::map` is a key-sorted association list (`OrderedMap`), so "map order" is explicit.
  - Storages are opaque ids (`StorageId`), and uris are sequences of path segments.
  - `Directory.Find` is the exact lookup of a node, and `Directory.Mounted(p)` is the storage mounted
    at exactly `p`. Together they define the mount table against which every operation is specified.
- `Directory.Make`, `Directory.Unmount` and `Directory.MapToRelativeUTF8` model the node's members.
- `Composite.FindStorage` is the longest-prefix routing that yields a `FindResult`: the deepest node
  on the path that has a storage, plus the residual uri.
- `Composite.CompositeStorage` is a class whose `root` field is reassigned by `Mount` and `Unmount`.

The structural invariant (`Directory.Valid`) is the one the header documents: every node except the
root that has no children has a storage. It is proved to hold initially and to be preserved by
`Mount` and `Unmount`.

**The device table of `UPnPDeviceDirectory`** (`src/db/upnp/Discovery.cxx`).

- The version-insensitive type tests `isCDService` and `isMSDevice` are modelled as the value of a
  `memcmp` against a NUL-terminated string that stops at the first difference. They are proved to be prefix tests of length 45 and 39.
- `Discovery.UPnPDeviceDirectory` is a class holding the device map, keyed by device id, and the time
  of the last search. Its methods cover:
  - insert-or-replace of a discovered device;
  - removal on bye-bye;
  - the in-place expiry sweep;
  - the ten-second search rate limit with unsigned wrap-around;
  - the `getDirServices` and `getServer` loops.
- The clock reading `now` and the outcome of the libupnp search requests (`searchOk`) are
  parameters.

## Model

| member | source | states |
|---|---|---|
| OrderedMap.IndexOf | src/db/upnp/Discovery.cxx:128 | `find`: the index of the entry with the key, and no earlier entry has it; -1 exactly when no entry has the key |
| OrderedMap.Get | src/storage/CompositeStorage.hxx:55 | map lookup: the value found is stored under the key; absent only when no entry has the key |
| OrderedMap.SortedKeysDistinct | src/storage/CompositeStorage.hxx:55 | in a key-ordered map, no two entries share a key |
| OrderedMap.Insert | src/db/upnp/Discovery.cxx:92 | insert-or-replace: the key now maps to the new value, every other key is unchanged, and nothing new appears |
| OrderedMap.InsertSorted | src/db/upnp/Discovery.cxx:92 | inserting keeps the map ordered by key |
| OrderedMap.InsertInsert | src/db/upnp/Discovery.cxx:92 | a second assignment to the same key overrides the first |
| OrderedMap.InsertExisting | src/storage/CompositeStorage.hxx:68 | writing back the value a key already holds changes nothing |
| OrderedMap.EraseAt | src/db/upnp/Discovery.cxx:130 | erasing at an iterator removes one entry and adds none |
| OrderedMap.EraseAtSorted | src/db/upnp/Discovery.cxx:130 | erasing keeps the map ordered |
| OrderedMap.GetEraseAt | src/db/upnp/Discovery.cxx:130 | erasing removes exactly the erased key; every other lookup is unchanged |
| OrderedMap.Table | src/storage/CompositeStorage.hxx:55 | the map a key-ordered list denotes answers every lookup like the list |
| OrderedMap.TableInsert | src/db/upnp/Discovery.cxx:92 | as a map, insert-or-replace is map update `m[k := v]` |
| OrderedMap.TableEraseAt | src/db/upnp/Discovery.cxx:130 | as a map, erasing an entry removes exactly its key |
| MountTree.Directory.IsEmpty | src/storage/CompositeStorage.hxx:61-63 | no storage and no children; `EmptyHasNoMounts` and `NonEmptyHasMount` prove that in a valid tree this is exactly "nothing mounted at or below the node" |
| MountTree.Directory.Find | src/storage/CompositeStorage.hxx:65-66 | exact lookup of the node at a uri, changing nothing; `FindAppend` proves lookup composes along the path and `FindValid` that every node found is valid and, below the root, non-empty |
| MountTree.Directory.MapToRelativeUTF8 | src/storage/CompositeStorage.hxx:73-75 | depth-first reverse mapping, own storage first, changing nothing; `MapToRelativeSound` and `MapToRelativeComplete` prove the answer is a mount's virtual path plus its backend's answer, and that some answer exists whenever a mounted backend answers |
| MountTree.Directory.MapChildrenToRelativeUTF8 | src/storage/CompositeStorage.hxx:73-75 | the children tried in map order, a child's answer prefixed with its name; `MapChildrenSound` and `MapChildrenReaches` state its soundness and that it reaches every answering child |
| MountTree.NewDirectory | src/storage/CompositeStorage.hxx:57 | a fresh node has no storage and no children, so it is empty, and it satisfies the tree invariant |
| MountTree.EmptyHasNoMounts | src/storage/CompositeStorage.hxx:61-63 | an empty node has no storage mounted anywhere below it |
| MountTree.NonEmptyHasMount | src/storage/CompositeStorage.hxx:48-52 | in a valid tree, a node that is not empty has some storage mounted at or below it |
| MountTree.FindAppend | src/storage/CompositeStorage.hxx:65-66 | looking up `p + q` is looking up `p` and then `q` from the node found |
| MountTree.FindValid | src/storage/CompositeStorage.hxx:48-52 | every node of a valid tree is valid, and every node below the root is non-empty |
| MountTree.LeafHasStorage | src/storage/CompositeStorage.hxx:48-49 | in a valid tree, every childless node below the root has a storage |
| MountTree.ChildNamesUnique | src/storage/CompositeStorage.hxx:55 | a node has at most one child per segment name |
| MountTree.Directory.Make | src/storage/CompositeStorage.hxx:68 | afterwards a node exists at the uri, and an existing node there is returned unchanged |
| MountTree.MakeOrdered | src/storage/CompositeStorage.hxx:68 | `Make` keeps every child map ordered by name |
| MountTree.MakeKeepsMounts | src/storage/CompositeStorage.hxx:68 | `Make` changes no mount anywhere in the tree |
| MountTree.MakeExisting | src/storage/CompositeStorage.hxx:68 | `Make` on a uri that already has a node leaves the tree as it is |
| MountTree.MakeIdempotent | src/storage/CompositeStorage.hxx:68 | making the same uri twice is making it once |
| MountTree.Directory.SetStorage | src/storage/CompositeStorage.hxx:53 | the node at the uri gets the storage, and its children are kept |
| MountTree.SetStorageMounts | src/storage/CompositeStorage.hxx:53 | setting a node's storage changes the mount at that uri only |
| MountTree.MountValid | src/storage/CompositeStorage.hxx:48-52 | mounting preserves the tree invariant |
| MountTree.MountEffect | src/storage/CompositeStorage.hxx:98 | after mounting, the mount table is the old one updated at the uri; a node that existed keeps its children, so the node is "mixed" |
| MountTree.Directory.UnmountSelf | src/storage/CompositeStorage.hxx:70 | true exactly when the node had a storage; afterwards it has none and keeps its children |
| MountTree.Directory.Unmount | src/storage/CompositeStorage.hxx:71 | true exactly when a storage was mounted at the uri; on false the tree is unchanged |
| MountTree.UnmountValid | src/storage/CompositeStorage.hxx:48-52 | unmounting preserves the tree invariant by pruning nodes that become empty |
| MountTree.UnmountMountedAt | src/storage/CompositeStorage.hxx:71 | after unmounting `uri`, nothing is mounted at `uri` and every other path keeps its mount |
| MountTree.UnmountMounts | src/storage/CompositeStorage.hxx:71 | the mount table after unmounting is the old one without the uri |
| MountTree.UnmountEffect | src/storage/CompositeStorage.hxx:99 | the result reports whether a mount was removed; the invariant holds and only that mount is gone |
| MountTree.MapToRelativeSound | src/storage/CompositeStorage.hxx:73-75 | a reverse-mapped path is the virtual path of some mount followed by what that mount's backend answered |
| MountTree.MapChildrenSound | src/storage/CompositeStorage.hxx:73-75 | the same for the search over the children, in map order |
| MountTree.MapChildrenReaches | src/storage/CompositeStorage.hxx:73-75 | the search over the children stops with an answer if some later child answers |
| MountTree.MapToRelativeComplete | src/storage/CompositeStorage.hxx:73-75 | if any mounted backend recognises the path, the reverse mapping succeeds |
| MountTree.MapToRelativeRoundTrip | src/storage/CompositeStorage.hxx:119-120 | when the backend mounted at `p` is the only one to recognise the path, the result is `p`'s virtual path joined with its answer |
| Composite.FindStorage | src/storage/CompositeStorage.hxx:115-116 | the deepest node on the uri that has a storage, with the residual uri as a suffix; no deeper node on the path has one; none exactly when no node on the path has one |
| Composite.CompositeStorage.constructor | src/storage/CompositeStorage.hxx:90 | the root starts empty, with nothing mounted anywhere |
| Composite.CompositeStorage.Mount | src/storage/CompositeStorage.hxx:98 | the invariant is kept, the mount table is updated at the uri, and an existing node keeps its children |
| Composite.CompositeStorage.Unmount | src/storage/CompositeStorage.hxx:99 | the result reports whether a mount existed; the mount table loses exactly the uri |
| Composite.CompositeStorage.MapToRelativeUTF8 | src/storage/CompositeStorage.hxx:112 | no mapping exactly when no mounted backend recognises the path |
| Discovery.IsCDService | src/db/upnp/Discovery.cxx:39-43 | `isCDService` as a comparison of the first 45 bytes; `IsCDServiceSpec` proves it is exactly the prefix test without version |
| Discovery.IsMSDevice | src/db/upnp/Discovery.cxx:50-54 | `isMSDevice` as a comparison of the first 39 bytes; `IsMSDeviceSpec` proves it is exactly the prefix test without version |
| Discovery.MemEqualIsPrefix | src/db/upnp/Discovery.cxx:42 | `memcmp(a, b, n) == 0` exactly when `b` has at least `n` characters and they are `a`'s first `n` |
| Discovery.IsCDServiceSpec | src/db/upnp/Discovery.cxx:39-43 | `isCDService(st)` exactly when `st` starts with the 45-character service type without version |
| Discovery.IsMSDeviceSpec | src/db/upnp/Discovery.cxx:50-54 | `isMSDevice(st)` exactly when `st` starts with the 39-character device type without version |
| Discovery.CDVersionIgnored | src/db/upnp/Discovery.cxx:35-36 | every version of the content directory type matches, including the one searched for |
| Discovery.MSVersionIgnored | src/db/upnp/Discovery.cxx:46-54 | every version of the media server type matches, including the one searched for |
| Discovery.ElapsedExact | src/db/upnp/Discovery.cxx:214 | the unsigned difference `now - m_lastSearch` is the exact time since the last search, across clock wrap-around |
| Discovery.SearchRateLimit | src/db/upnp/Discovery.cxx:213-216 | `k` seconds after a search, the next one is due exactly when `k >= 10` |
| Discovery.Unexpired | src/db/upnp/Discovery.cxx:172-180 | the sweep keeps only unexpired entries, in order, and removes nothing when the length is unchanged |
| Discovery.UnexpiredSnoc | src/db/upnp/Discovery.cxx:174-179 | each entry is kept exactly when it has not expired |
| Discovery.NothingExpired | src/db/upnp/Discovery.cxx:182-185 | the sweep removes nothing exactly when no entry has expired |
| Discovery.UnexpiredSorted | src/db/upnp/Discovery.cxx:172-180 | the sweep keeps the map ordered |
| Discovery.TableUnexpired | src/db/upnp/Discovery.cxx:172-180 | as a map, the sweep removes exactly the expired devices and keeps every other entry unchanged |
| Discovery.SweepErase | src/db/upnp/Discovery.cxx:174-176 | erasing an expired entry at the iterator advances the sweep by one entry |
| Discovery.SweepKeep | src/db/upnp/Discovery.cxx:177-178 | stepping over a live entry advances the sweep by one entry |
| Discovery.SweepDone | src/db/upnp/Discovery.cxx:172-173 | at the end, the map is the sweep of the old map, and something was erased exactly when it changed |
| Discovery.CDServicesMembers | src/db/upnp/Discovery.cxx:252-256 | the entries for one device are exactly its content directory services |
| Discovery.DirServicesMembers | src/db/upnp/Discovery.cxx:250-257 | the collected entries are exactly the content directory services of the devices in the map |
| Discovery.AppendDirServices | src/db/upnp/Discovery.cxx:250-257 | the loops append the services of every device in map order to `out` and keep what `out` held |
| Discovery.FirstCDServiceAt | src/db/upnp/Discovery.cxx:279-285 | the service chosen for a device is its first content directory service |
| Discovery.FirstCDServiceNone | src/db/upnp/Discovery.cxx:279-285 | a device yields no service exactly when none of its services is a content directory |
| Discovery.ServerForAt | src/db/upnp/Discovery.cxx:273-285 | the server found belongs to the first device, in map order, with the name and a content directory |
| Discovery.ServerForNone | src/db/upnp/Discovery.cxx:273-289 | nothing is found exactly when no device has both the name and a content directory |
| Discovery.FindServer | src/db/upnp/Discovery.cxx:273-289 | the loop with early return yields exactly that first server, or none |
| Discovery.UPnPDeviceDirectory.constructor | src/db/upnp/Discovery.cxx:188-193 | the map starts empty and the last search time at 0 |
| Discovery.UPnPDeviceDirectory.RecordDevice | src/db/upnp/Discovery.cxx:92 | the map afterwards is the old one with the device id mapped to the new descriptor, replacing any earlier entry |
| Discovery.UPnPDeviceDirectory.OnByeBye | src/db/upnp/Discovery.cxx:121-134 | always returns success; when either type matches, exactly the device's entry is removed if present; otherwise nothing changes |
| Discovery.UPnPDeviceDirectory.Search | src/db/upnp/Discovery.cxx:210-216 | under ten seconds since the last search it succeeds and leaves the time unchanged; otherwise the time becomes `now` and the result is the search outcome |
| Discovery.UPnPDeviceDirectory.ExpireDevices | src/db/upnp/Discovery.cxx:166-186 | erases exactly the expired entries, in place, keeping the others; succeeds without searching when nothing expired, otherwise returns the search result |
| Discovery.UPnPDeviceDirectory.GetDirServices | src/db/upnp/Discovery.cxx:240-260 | fails, leaving `out` untouched, when the expiry search fails; otherwise appends every content directory service of every remaining device, in map order; the last search time is updated as by the expiry sweep |
| Discovery.UPnPDeviceDirectory.GetServer | src/db/upnp/Discovery.cxx:262-290 | fails when expiry fails; otherwise the first content directory service of the first device with the name, or "server not found"; the last search time is updated as by the expiry sweep |

## Left out

- Locking: the mutex, `ScopeLock` and the thread-safety promise of both classes are concurrency and are not modelled. Every operation is one atomic step.
- `GetInfo`, `OpenDirectory` (with the merging of mount names into listings), `MapUTF8` and `MapFS` delegate to backends behind the `Storage` interface, which is not part of this model. A storage is an opaque id, and a backend's reverse mapping is a function parameter.
- `relative_buffer` is a scratch-buffer optimisation; `MapToRelativeUTF8` returns a fresh string instead.
- Ownership of storages and the `delete` in `~Directory` are memory management, not modelled.
- The implementation file `src/storage/CompositeStorage.cxx` is not part of this model. The operations follow the declarations and the documented design: `Find` is an exact lookup; `FindStorage` returns the deepest node on the path that has a storage, and no result when there is none. Uris are already split into segments; splitting a `const char *` at `/` is not modelled.
- Composite.CompositeStorage.Mount: nested `Directory` nodes are updated in place in the source; the model rebuilds the root value along the path instead. The result is the same tree, but sharing of nodes and the lifetime of the replaced storage are not captured.
- The discovery worker `discoExplorer`, its task queue, `OnAlive`, `cluCallBack` and `Start` are a thread and an event dispatcher. Only the map update they perform is modelled (`RecordDevice`).
- The libupnp calls (`UpnpDownloadUrlItem`, `UpnpSearchAsync`, `UpnpGetErrorMessage`) are network I/O. The outcome of the two search requests is the boolean parameter `searchOk`, and the error messages are reduced to `Error` values.
- Parsing a device description (`ContentDirectoryDescriptor::Parse`) and computing its expiry time are not part of this model. A descriptor is given with its device and its `expires` value.
- Discovery.IsCDService: for a type string shorter than the compared prefix, `memcmp` in C may read past the string's terminator, which is undefined behaviour. The model gives the value a non-faulting comparison returns (no match); the out-of-bounds read is not modelled. The same holds for Discovery.IsMSDevice.
- `MonotonicClockS` is the parameter `now`. Discovery.UPnPDeviceDirectory.ExpireDevices uses the same reading for the sweep and the search it triggers, whereas the source reads the clock twice.
