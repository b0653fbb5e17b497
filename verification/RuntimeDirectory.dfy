/** One target's runtime directory: the names in it, the two sweeps that empty it, and the check that a
    stop left nothing behind. The startup lock is one of the names, and both sweeps walk past it. */
module RuntimeDirectory {
  /** The startup lock, the two records the decisions read, and any other entry. */
  datatype Name = Lock | VmPid | BootJson | Other(text: string)

  /** What is left of a directory after a sweep that may have stopped anywhere: some names are gone, none
      is rebound, and the lock is still there. */
  ghost predicate SweptTo(before: map<Name, nat>, after: map<Name, nat>) {
    && after.Keys <= before.Keys
    && (forall n | n in after :: after[n] == before[n])
    && (Lock in before ==> Lock in after)
  }

  datatype Sweep = Done | Stopped | UnknownArtifact

  class Directory {
    /** Each name's inode. */
    var entries: map<Name, nat>
    /** Whether every entry can be looked at and removed. */
    const obliging: bool

    constructor (entries: map<Name, nat>, obliging: bool)
      ensures this.entries == entries && this.obliging == obliging
    {
      this.entries, this.obliging := entries, obliging;
    }

    /** Remove one entry; one that is gone already is no failure. */
    method Remove(name: Name) returns (ok: bool)
      modifies this
      ensures obliging ==> ok
      ensures entries == if ok then old(entries) - {name} else old(entries)
    {
      var refused: bool := *;
      if refused && !obliging { return false; }
      entries := entries - {name};
      ok := true;
    }

    /** `clear_runtime`: every listed entry whose name is not the lock's. */
    method ClearRuntime() returns (ok: bool)
      modifies this
      ensures SweptTo(old(entries), entries)
      ensures ok ==> entries.Keys == old(entries).Keys * {Lock}
      ensures obliging ==> ok
    {
      var listed := entries.Keys;
      while listed != {}
        invariant SweptTo(old(entries), entries)
        invariant listed <= old(entries).Keys && entries.Keys <= listed + {Lock}
        decreases |listed|
      {
        var name :| name in listed;
        listed := listed - {name};
        var unreadable: bool := *;
        if unreadable && !obliging { return false; }
        if name != Lock {
          var removed := Remove(name);
          if !removed { return false; }
        }
      }
      ok := true;
    }

    /** `cleanup_runtime`, the supervisor's own sweep: it removes what it is allowed to, and nothing at all
        when it finds a name that is neither allowed nor the lock. */
    method CleanupRuntime(allowed: set<Name>) returns (result: Sweep)
      requires Lock !in allowed
      modifies this
      ensures SweptTo(old(entries), entries)
      ensures result == UnknownArtifact ==> entries == old(entries)
      ensures result == Done ==> entries.Keys == old(entries).Keys * {Lock}
      ensures obliging ==> result == if old(entries).Keys <= allowed + {Lock} then Done else UnknownArtifact
    {
      var listed := entries.Keys;
      while listed != {}
        invariant entries == old(entries) && listed <= entries.Keys
        invariant entries.Keys - listed <= allowed + {Lock}
        decreases |listed|
      {
        var name :| name in listed;
        listed := listed - {name};
        var unreadable: bool := *;
        if unreadable && !obliging { return Stopped; }
        if name != Lock && name !in allowed { return UnknownArtifact; }
      }
      var left := allowed;
      while left != {}
        invariant SweptTo(old(entries), entries)
        invariant left <= allowed && entries.Keys <= left + {Lock}
        decreases |left|
      {
        var name :| name in left;
        left := left - {name};
        var removed := Remove(name);
        if !removed { return Stopped; }
      }
      result := Done;
    }

    /** `confirm_teardown`: the stop's own post-condition counts every entry but the lock. */
    method ConfirmTeardown() returns (confirmed: bool)
      ensures confirmed ==> entries.Keys <= {Lock}
      ensures obliging ==> (confirmed <==> entries.Keys <= {Lock})
    {
      var listed, residue := entries.Keys, 0;
      while listed != {}
        invariant listed <= entries.Keys && residue >= 0
        invariant residue == 0 <==> entries.Keys - listed <= {Lock}
        decreases |listed|
      {
        var name :| name in listed;
        listed := listed - {name};
        var unreadable: bool := *;
        if unreadable && !obliging { return false; }
        assert name in entries.Keys - listed;
        if name != Lock { residue := residue + 1; }
      }
      confirmed := residue == 0;
    }
  }
}
