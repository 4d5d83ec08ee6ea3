/**
 * The virtual directory tree of CompositeStorage.
 *
 * A `Directory` node owns an optional mounted storage and a map from path
 * segment to child node. The children are held by value in the map, so a node
 * is modelled as a datatype and every operation that edits a node in place is
 * a member function that returns the edited node.
 */
module MountTree {
  import opened Wrappers
  import opened OrderedMap

  /** An opaque handle for a mounted `Storage` instance. */
  datatype StorageId = StorageId(id: nat)

  /** A virtual uri, already split at its '/' separators. */
  type Uri = seq<string>

  datatype Directory = Directory(storage: Option<StorageId>, children: seq<Entry<Directory>>)
  {
    /** Neither a mounted storage nor any child. */
    predicate IsEmpty()
    {
      storage.None? && children == []
    }

    /** Every child map of the subtree is a proper (key-sorted) map. */
    ghost predicate Ordered()
    {
      Sorted(children) && forall e | e in children :: e.value.Ordered()
    }

    /** The structural invariant of the mount tree: child maps are sorted and no
        node below this one is empty, i.e. every leaf has a storage. This node
        itself (the root) may be empty. */
    ghost predicate Valid()
    {
      Sorted(children) && forall e | e in children :: !e.value.IsEmpty() && e.value.Valid()
    }

    /** The node at exactly `uri`, if one exists. */
    function Find(uri: Uri): Option<Directory>
      decreases |uri|
    {
      if uri == [] then Some(this)
      else match Get(children, uri[0])
        case None => None
        case Some(child) => child.Find(uri[1..])
    }

    /** The storage mounted at exactly `uri`, if any: the mount table the tree represents. */
    function Mounted(uri: Uri): Option<StorageId>
    {
      match Find(uri)
      case None => None
      case Some(node) => node.storage
    }

    /** The node for `uri`, creating missing nodes (without storage) along the way. */
    function Make(uri: Uri): (r: Directory)
      ensures r.Find(uri).Some?
      ensures Find(uri).Some? ==> r.Find(uri) == Find(uri)
      decreases |uri|
    {
      if uri == [] then this
      else
        var child := match Get(children, uri[0]) case Some(c) => c case None => NewDirectory();
        this.(children := Insert(children, uri[0], child.Make(uri[1..])))
    }

    /** Install `s` in the existing node at `uri` (the assignment through the
        reference that `Make` returns). */
    function SetStorage(uri: Uri, s: StorageId): (r: Directory)
      requires Find(uri).Some?
      ensures r.Find(uri) == Some(Find(uri).value.(storage := Some(s)))
      decreases |uri|
    {
      if uri == [] then this.(storage := Some(s))
      else
        var child := Get(children, uri[0]).value;
        this.(children := Insert(children, uri[0], child.SetStorage(uri[1..], s)))
    }

    /** `Unmount()`: drop this node's own storage; true iff there was one. */
    function UnmountSelf(): (r: (bool, Directory))
      ensures r.0 <==> storage.Some?
      ensures r.1.storage.None? && r.1.children == children
    {
      if storage.None? then (false, this) else (true, this.(storage := None))
    }

    /** `Unmount(uri)`: drop the storage mounted at exactly `uri`, pruning the
        child that this leaves empty; true iff a storage was removed. */
    function Unmount(uri: Uri): (r: (bool, Directory))
      ensures r.0 <==> Mounted(uri).Some?
      ensures !r.0 ==> r.1 == this
      decreases |uri|
    {
      if uri == [] then UnmountSelf()
      else
        var i := IndexOf(children, uri[0]);
        if i < 0 then (false, this)
        else
          var sub := children[i].value.Unmount(uri[1..]);
          if !sub.0 then (false, this)
          else if sub.1.IsEmpty() then (true, this.(children := EraseAt(children, i)))
          else (true, this.(children := Insert(children, uri[0], sub.1)))
    }

    /** `MapToRelativeUTF8`: the virtual uri (relative to this node) of a native uri.
        `backend(s)` is what storage `s`'s own reverse mapping answers for that
        native uri. This node's storage is asked first, then the children in map
        order, depth first; a child's answer is prefixed with its name and '/'. */
    function MapToRelativeUTF8(backend: StorageId -> Option<string>): Option<string>
      decreases this, |children| + 1
    {
      if storage.Some? && backend(storage.value).Some? then backend(storage.value)
      else MapChildrenToRelativeUTF8(backend, 0)
    }

    /** The loop over `children` (from position `i` on) inside `MapToRelativeUTF8`. */
    function MapChildrenToRelativeUTF8(backend: StorageId -> Option<string>, i: nat): Option<string>
      requires i <= |children|
      decreases this, |children| - i
    {
      if i == |children| then None
      else
        assert children[i] in children;
        match children[i].value.MapToRelativeUTF8(backend)
        case Some(rel) => Some(children[i].key + "/" + rel)
        case None => MapChildrenToRelativeUTF8(backend, i + 1)
    }
  }

  /** `Directory()`: a node with a null storage and no children. */
  function NewDirectory(): (d: Directory)
    ensures d.IsEmpty() && d.Valid() && d.Ordered()
  {
    Directory(None, [])
  }

  /** One step of `Find`: the first segment selects a child. */
  lemma FindCons(d: Directory, p: Uri)
    requires p != []
    ensures d.Find(p) == match Get(d.children, p[0]) case None => None case Some(c) => c.Find(p[1..])
  {
  }

  /** The mount table seen through one step of `Find`. */
  lemma MountedCons(d: Directory, p: Uri)
    requires p != []
    ensures d.Mounted(p) == match Get(d.children, p[0]) case None => None case Some(c) => c.Mounted(p[1..])
  {
  }

  /** A path followed in two steps reaches the same node as followed at once. */
  lemma {:induction false} FindAppend(d: Directory, p: Uri, q: Uri)
    ensures d.Find(p + q) == match d.Find(p) case None => None case Some(n) => n.Find(q)
    decreases |p|
  {
    if p == [] {
      assert p + q == q;
    } else {
      assert (p + q)[0] == p[0] && (p + q)[1..] == p[1..] + q;
      match Get(d.children, p[0])
      case None =>
      case Some(c) => FindAppend(c, p[1..], q);
    }
  }

  /** An empty node has nothing mounted anywhere below it. */
  lemma EmptyHasNoMounts(d: Directory)
    requires d.IsEmpty()
    ensures forall p :: d.Mounted(p) == None
  {
  }

  /** A valid node that is not empty has a storage mounted somewhere below it,
      so for a valid tree `IsEmpty` means exactly "nothing is mounted". */
  lemma {:induction false} NonEmptyHasMount(d: Directory) returns (p: Uri)
    requires d.Valid() && !d.IsEmpty()
    ensures d.Mounted(p).Some?
    decreases d
  {
    if d.storage.Some? {
      p := [];
    } else {
      var e := d.children[0];
      assert e in d.children;
      GetAt(d.children, 0);
      var q := NonEmptyHasMount(e.value);
      p := [e.key] + q;
      assert p[0] == e.key && p[1..] == q;
    }
  }

  /** Every node reached from a valid tree is valid, and every node other than the root is non-empty. */
  lemma {:induction false} FindValid(d: Directory, p: Uri)
    requires d.Valid() && d.Find(p).Some?
    ensures d.Find(p).value.Valid()
    ensures p != [] ==> !d.Find(p).value.IsEmpty()
    decreases |p|
  {
    if p != [] {
      FindValid(Get(d.children, p[0]).value, p[1..]);
    }
  }

  /** The doc-comment invariant: in a valid tree every leaf below the root has a storage. */
  lemma LeafHasStorage(d: Directory, p: Uri)
    requires d.Valid() && p != [] && d.Find(p).Some? && d.Find(p).value.children == []
    ensures d.Find(p).value.storage.Some?
  {
    FindValid(d, p);
  }

  /** No node has two children with the same segment name. */
  lemma ChildNamesUnique(d: Directory)
    requires d.Ordered()
    ensures forall i, j :: 0 <= i < |d.children| && 0 <= j < |d.children| && i != j ==>
              d.children[i].key != d.children[j].key
  {
    SortedKeysDistinct(d.children);
  }

  /** `Make` keeps every child map sorted. */
  lemma {:induction false} MakeOrdered(d: Directory, uri: Uri)
    requires d.Ordered()
    ensures d.Make(uri).Ordered()
    decreases |uri|
  {
    if uri != [] {
      var child := match Get(d.children, uri[0]) case Some(c) => c case None => NewDirectory();
      MakeOrdered(child, uri[1..]);
      InsertSorted(d.children, uri[0], child.Make(uri[1..]));
    }
  }

  /** `Make` mounts nothing: the mount table is unchanged. */
  lemma {:induction false} MakeKeepsMounts(d: Directory, uri: Uri)
    ensures forall p :: d.Make(uri).Mounted(p) == d.Mounted(p)
    decreases |uri|
  {
    if uri != [] {
      var child := match Get(d.children, uri[0]) case Some(c) => c case None => NewDirectory();
      var r := d.Make(uri);
      assert r.children == Insert(d.children, uri[0], child.Make(uri[1..]));
      MakeKeepsMounts(child, uri[1..]);
      forall p ensures r.Mounted(p) == d.Mounted(p) {
        if p != [] {
          MountedCons(r, p);
          MountedCons(d, p);
          if p[0] == uri[0] && Get(d.children, uri[0]).None? {
            EmptyHasNoMounts(child);
          }
        }
      }
    }
  }

  /** `Make` on a uri whose node already exists returns the tree unchanged. */
  lemma {:induction false} MakeExisting(d: Directory, uri: Uri)
    requires d.Ordered() && d.Find(uri).Some?
    ensures d.Make(uri) == d
    decreases |uri|
  {
    if uri != [] {
      var c := Get(d.children, uri[0]).value;
      MakeExisting(c, uri[1..]);
      InsertExisting(d.children, uri[0]);
    }
  }

  /** `Make` is idempotent: a second call with the same uri changes nothing. */
  lemma MakeIdempotent(d: Directory, uri: Uri)
    requires d.Ordered()
    ensures d.Make(uri).Make(uri) == d.Make(uri)
  {
    MakeOrdered(d, uri);
    MakeExisting(d.Make(uri), uri);
  }

  /** Installing a storage at a uri changes exactly that entry of the mount table. */
  lemma {:induction false} SetStorageMounts(d: Directory, uri: Uri, s: StorageId)
    requires d.Find(uri).Some?
    ensures forall p :: d.SetStorage(uri, s).Mounted(p) == if p == uri then Some(s) else d.Mounted(p)
    decreases |uri|
  {
    var r := d.SetStorage(uri, s);
    if uri != [] {
      var c := Get(d.children, uri[0]).value;
      SetStorageMounts(c, uri[1..], s);
      forall p ensures r.Mounted(p) == if p == uri then Some(s) else d.Mounted(p) {
        if p != [] {
          MountedCons(r, p);
          MountedCons(d, p);
          assert p == [p[0]] + p[1..] && uri == [uri[0]] + uri[1..];
        }
      }
    }
  }

  /** `Mount` (Make, then install the storage) in one step: the child on the
      path is replaced by the child with the storage mounted below it. */
  lemma MountStep(d: Directory, uri: Uri, s: StorageId)
    requires uri != []
    ensures
      var child := match Get(d.children, uri[0]) case Some(c) => c case None => NewDirectory();
      d.Make(uri).SetStorage(uri, s) ==
        d.(children := Insert(d.children, uri[0], child.Make(uri[1..]).SetStorage(uri[1..], s)))
  {
    var child := match Get(d.children, uri[0]) case Some(c) => c case None => NewDirectory();
    InsertInsert(d.children, uri[0], child.Make(uri[1..]), child.Make(uri[1..]).SetStorage(uri[1..], s));
  }

  /** Mounting preserves the tree invariant: afterwards no node below the root is empty. */
  lemma {:induction false} MountValid(d: Directory, uri: Uri, s: StorageId)
    requires d.Valid()
    ensures d.Make(uri).SetStorage(uri, s).Valid()
    decreases |uri|
  {
    if uri != [] {
      var child := match Get(d.children, uri[0]) case Some(c) => c case None => NewDirectory();
      var sub := child.Make(uri[1..]).SetStorage(uri[1..], s);
      MountValid(child, uri[1..], s);
      assert !sub.IsEmpty() by {
        MakeKeepsMounts(child, uri[1..]);
        SetStorageMounts(child.Make(uri[1..]), uri[1..], s);
        if sub.IsEmpty() { EmptyHasNoMounts(sub); }
      }
      MountStep(d, uri, s);
      InsertSorted(d.children, uri[0], sub);
    }
  }

  /** Everything `Mount` promises about the tree: the invariant is kept, the
      mount table gains (or replaces) exactly the entry for `uri`, and the
      descendants of an existing node at `uri` stay in place ("mixed" node). */
  lemma MountEffect(d: Directory, uri: Uri, s: StorageId)
    requires d.Valid()
    ensures d.Make(uri).Find(uri).Some?
    ensures var r := d.Make(uri).SetStorage(uri, s);
      && r.Valid()
      && (forall p :: r.Mounted(p) == if p == uri then Some(s) else d.Mounted(p))
      && (d.Find(uri).Some? ==> r.Find(uri).value.children == d.Find(uri).value.children)
  {
    MountValid(d, uri, s);
    MakeKeepsMounts(d, uri);
    SetStorageMounts(d.Make(uri), uri, s);
  }

  /** Unmounting preserves the tree invariant: a child left empty is pruned. */
  lemma {:induction false} UnmountValid(d: Directory, uri: Uri)
    requires d.Valid()
    ensures d.Unmount(uri).1.Valid()
    decreases |uri|
  {
    if uri != [] {
      var i := IndexOf(d.children, uri[0]);
      if i >= 0 {
        var c := d.children[i].value;
        assert d.children[i] in d.children;
        var sub := c.Unmount(uri[1..]);
        if sub.0 {
          UnmountValid(c, uri[1..]);
          if sub.1.IsEmpty() {
            assert d.Unmount(uri).1 == d.(children := EraseAt(d.children, i));
            EraseAtSorted(d.children, i);
          } else {
            assert d.Unmount(uri).1 == d.(children := Insert(d.children, uri[0], sub.1));
            InsertSorted(d.children, uri[0], sub.1);
          }
        }
      }
    }
  }

  /** Unmounting changes the mount table at `uri` only: the case of one path `p`. */
  lemma {:induction false} UnmountMountedAt(d: Directory, uri: Uri, p: Uri)
    requires d.Valid()
    ensures d.Unmount(uri).1.Mounted(p) == if p == uri then None else d.Mounted(p)
    decreases |uri|
  {
    var r := d.Unmount(uri).1;
    if uri != [] && p != [] {
      var i := IndexOf(d.children, uri[0]);
      if i >= 0 {
        var c := d.children[i].value;
        assert d.children[i] in d.children;
        var sub := c.Unmount(uri[1..]);
        if sub.0 {
          MountedCons(r, p);
          MountedCons(d, p);
          assert p == [p[0]] + p[1..] && uri == [uri[0]] + uri[1..];
          if sub.1.IsEmpty() {
            assert r == d.(children := EraseAt(d.children, i));
            GetEraseAt(d.children, i);
            if p[0] == uri[0] {
              UnmountMountedAt(c, uri[1..], p[1..]);
              EmptyHasNoMounts(sub.1);
            }
          } else {
            assert r == d.(children := Insert(d.children, uri[0], sub.1));
            if p[0] == uri[0] {
              UnmountMountedAt(c, uri[1..], p[1..]);
            }
          }
        }
      }
    }
  }

  /** Unmounting removes exactly the entry for `uri` from the mount table,
      leaving every other mount (deeper ones included) in place. */
  lemma UnmountMounts(d: Directory, uri: Uri)
    requires d.Valid()
    ensures forall p :: d.Unmount(uri).1.Mounted(p) == if p == uri then None else d.Mounted(p)
  {
    forall p ensures d.Unmount(uri).1.Mounted(p) == if p == uri then None else d.Mounted(p) {
      UnmountMountedAt(d, uri, p);
    }
  }

  /** Everything `Unmount(uri)` promises about the tree. */
  lemma UnmountEffect(d: Directory, uri: Uri)
    requires d.Valid()
    ensures d.Unmount(uri).0 <==> d.Mounted(uri).Some?
    ensures d.Unmount(uri).1.Valid()
    ensures forall p :: d.Unmount(uri).1.Mounted(p) == if p == uri then None else d.Mounted(p)
  {
    UnmountValid(d, uri);
    UnmountMounts(d, uri);
  }

  /** The virtual prefix of a mount point: each segment followed by '/'. */
  function JoinPrefix(p: Uri): string
  {
    if p == [] then "" else p[0] + "/" + JoinPrefix(p[1..])
  }

  /** A reverse mapping comes from a real mount: some node at path `p` has a
      storage that recognised the native uri, and the answer is `p` joined with
      what that storage answered. */
  lemma {:induction false} MapToRelativeSound(d: Directory, backend: StorageId -> Option<string>) returns (p: Uri)
    requires d.Ordered() && d.MapToRelativeUTF8(backend).Some?
    ensures d.Mounted(p).Some? && backend(d.Mounted(p).value).Some?
    ensures d.MapToRelativeUTF8(backend).value == JoinPrefix(p) + backend(d.Mounted(p).value).value
    decreases d, |d.children| + 1
  {
    if d.storage.Some? && backend(d.storage.value).Some? {
      p := [];
    } else {
      p := MapChildrenSound(d, backend, 0);
    }
  }

  lemma {:induction false} MapChildrenSound(d: Directory, backend: StorageId -> Option<string>, i: nat) returns (p: Uri)
    requires d.Ordered() && i <= |d.children| && d.MapChildrenToRelativeUTF8(backend, i).Some?
    ensures d.Mounted(p).Some? && backend(d.Mounted(p).value).Some?
    ensures d.MapChildrenToRelativeUTF8(backend, i).value == JoinPrefix(p) + backend(d.Mounted(p).value).value
    decreases d, |d.children| - i
  {
    var e := d.children[i];
    assert e in d.children;
    match e.value.MapToRelativeUTF8(backend)
    case Some(rel) =>
      var q := MapToRelativeSound(e.value, backend);
      p := [e.key] + q;
      assert p[0] == e.key && p[1..] == q;
      GetAt(d.children, i);
      MountedCons(d, p);
    case None =>
      p := MapChildrenSound(d, backend, i + 1);
  }

  /** Once the child at position `i` maps the native uri, the loop over the
      children from any earlier position finds an answer. */
  lemma {:induction false} MapChildrenReaches(d: Directory, backend: StorageId -> Option<string>, j: nat, i: nat)
    requires j <= i < |d.children| && d.children[i].value.MapToRelativeUTF8(backend).Some?
    ensures d.MapChildrenToRelativeUTF8(backend, j).Some?
    decreases i - j
  {
    if j < i && d.children[j].value.MapToRelativeUTF8(backend).None? {
      MapChildrenReaches(d, backend, j + 1, i);
    }
  }

  /** Every mount is tried: if any mounted storage recognises the native uri,
      the reverse mapping succeeds. */
  lemma {:induction false} MapToRelativeComplete(d: Directory, backend: StorageId -> Option<string>, p: Uri)
    requires d.Ordered() && d.Mounted(p).Some? && backend(d.Mounted(p).value).Some?
    ensures d.MapToRelativeUTF8(backend).Some?
    decreases |p|
  {
    if p != [] {
      MountedCons(d, p);
      var i := IndexOf(d.children, p[0]);
      var c := d.children[i].value;
      assert d.children[i] in d.children;
      MapToRelativeComplete(c, backend, p[1..]);
      MapChildrenReaches(d, backend, 0, i);
    }
  }

  /** Round trip: when the storage mounted at `p` is the only one that
      recognises a native uri as `rel`, the reverse mapping yields `p` + `rel`. */
  lemma MapToRelativeRoundTrip(d: Directory, backend: StorageId -> Option<string>, p: Uri, rel: string)
    requires d.Ordered() && d.Mounted(p).Some? && backend(d.Mounted(p).value) == Some(rel)
    requires forall q :: q != p && d.Mounted(q).Some? ==> backend(d.Mounted(q).value).None?
    ensures d.MapToRelativeUTF8(backend) == Some(JoinPrefix(p) + rel)
  {
    MapToRelativeComplete(d, backend, p);
    var p' := MapToRelativeSound(d, backend);
  }

  /** The tree invariant includes sortedness of every child map. */
  lemma {:induction false} ValidOrdered(d: Directory)
    requires d.Valid()
    ensures d.Ordered()
    decreases d
  {
    forall e | e in d.children ensures e.value.Ordered() {
      ValidOrdered(e.value);
    }
  }

  /** `Find` and the mount table on the prefixes of `uri`: the empty prefix is
      the node itself, every other prefix goes through the child named `uri[0]`. */
  lemma FindPrefixes(d: Directory, uri: Uri)
    ensures d.Find(uri[..0]) == Some(d) && d.Mounted(uri[..0]) == d.storage
    ensures uri != [] ==> forall k :: 1 <= k <= |uri| ==>
      d.Find(uri[..k]) == match Get(d.children, uri[0]) case None => None case Some(c) => c.Find(uri[1..][..k - 1])
    ensures uri != [] ==> forall k :: 1 <= k <= |uri| ==>
      d.Mounted(uri[..k]) == match Get(d.children, uri[0]) case None => None case Some(c) => c.Mounted(uri[1..][..k - 1])
  {
    assert uri[..0] == [];
    forall k | 1 <= k <= |uri|
      ensures d.Find(uri[..k]) == match Get(d.children, uri[0]) case None => None case Some(c) => c.Find(uri[1..][..k - 1])
    {
      assert uri[..k][0] == uri[0] && uri[..k][1..] == uri[1..][..k - 1];
      FindCons(d, uri[..k]);
    }
  }
}
