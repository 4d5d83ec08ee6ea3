/**
 * CompositeStorage: several storages combined in one virtual tree, with
 * mounts added and removed at run time.
 */
module Composite {
  import opened Wrappers
  import opened OrderedMap
  import opened MountTree

  /** The node whose storage handles a uri, and the part of the uri that is
      left for that storage (a suffix of the uri that was looked up). */
  datatype FindResult = FindResult(directory: Directory, uri: Uri)

  /** `FindStorage`: longest-prefix routing. Walk down the tree along `uri` and
      answer the deepest node on the way that has a storage, with the rest of
      the uri; None when no node on the way (the root included) has one. */
  function FindStorage(d: Directory, uri: Uri): (r: Option<FindResult>)
    ensures r.Some? ==> |r.value.uri| <= |uri| && uri[|uri| - |r.value.uri|..] == r.value.uri
    ensures r.Some? ==> d.Find(uri[..|uri| - |r.value.uri|]) == Some(r.value.directory)
    ensures r.Some? ==> r.value.directory.storage.Some?
    ensures r.Some? ==> forall k :: |uri| - |r.value.uri| < k <= |uri| ==> d.Mounted(uri[..k]).None?
    ensures r.None? <==> forall k :: 0 <= k <= |uri| ==> d.Mounted(uri[..k]).None?
    decreases |uri|
  {
    var deeper :=
      if uri == [] then None
      else match Get(d.children, uri[0])
        case None => None
        case Some(c) => FindStorage(c, uri[1..]);
    FindPrefixes(d, uri);
    assert uri[..|uri|] == uri;
    if deeper.Some? then deeper
    else if d.storage.Some? then Some(FindResult(d, uri))
    else None
  }

  /** The composite storage: a mount tree behind one lock (the lock is not modelled). */
  class CompositeStorage {
    var root: Directory

    ghost predicate Valid()
      reads this
    {
      root.Valid()
    }

    /** A new composite storage has an empty root and nothing mounted. */
    constructor ()
      ensures Valid() && root.IsEmpty()
      ensures forall p :: root.Mounted(p).None?
    {
      root := NewDirectory();
      new;
      EmptyHasNoMounts(root);
    }

    /** `Mount`: create the node for `uri` and install `storage` in it,
        replacing any storage mounted there before. */
    method Mount(uri: Uri, storage: StorageId)
      requires Valid()
      modifies this
      ensures Valid()
      ensures forall p :: root.Mounted(p) == if p == uri then Some(storage) else old(root).Mounted(p)
      ensures root.Find(uri).Some? && root.Find(uri).value.storage == Some(storage)
      ensures old(root).Find(uri).Some? ==>
                root.Find(uri).value.children == old(root).Find(uri).value.children
    {
      MountEffect(root, uri, storage);
      root := root.Make(uri);
      root := root.SetStorage(uri, storage);
    }

    /** `Unmount`: remove the storage mounted at exactly `uri`; false when
        there is none. */
    method Unmount(uri: Uri) returns (ok: bool)
      requires Valid()
      modifies this
      ensures Valid()
      ensures ok <==> old(root).Mounted(uri).Some?
      ensures forall p :: root.Mounted(p) == if p == uri then None else old(root).Mounted(p)
    {
      UnmountEffect(root, uri);
      var result := root.Unmount(uri);
      ok := result.0;
      root := result.1;
    }

    /** `MapToRelativeUTF8`: the virtual uri of a native uri, asking every
        mounted storage in turn (`backend` says what each one answers). It
        fails exactly when no mounted storage recognises the native uri. */
    function MapToRelativeUTF8(backend: StorageId -> Option<string>): (r: Option<string>)
      requires Valid()
      reads this
      ensures r.None? <==> forall p :: root.Mounted(p).Some? ==> backend(root.Mounted(p).value).None?
    {
      ValidOrdered(root);
      assert root.MapToRelativeUTF8(backend).Some? ==>
               exists p :: root.Mounted(p).Some? && backend(root.Mounted(p).value).Some? by {
        if root.MapToRelativeUTF8(backend).Some? {
          var p := MapToRelativeSound(root, backend);
        }
      }
      assert (exists p :: root.Mounted(p).Some? && backend(root.Mounted(p).value).Some?) ==>
               root.MapToRelativeUTF8(backend).Some? by {
        if p :| root.Mounted(p).Some? && backend(root.Mounted(p).value).Some? {
          MapToRelativeComplete(root, backend, p);
        }
      }
      root.MapToRelativeUTF8(backend)
    }
  }
}
