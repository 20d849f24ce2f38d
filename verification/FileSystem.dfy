/** One directory of a POSIX file system, as far as artifact publication uses it. A directory
 *  maps names to inodes, an inode holds bytes, a descriptor table maps open descriptors to
 *  handles. Every system call is one method; it may fail at any time, and a failed call has no
 *  effect. Only the program being modelled acts on the directory. */
module FileSystem {
  import opened Wrappers

  type Name = string
  type Inode = nat
  type Descriptor = nat
  type Byte = n: int | 0 <= n < 256
  type Bytes = seq<Byte>
  type Digest = string

  /** Exists and Missing are what the directory itself says; Fault is everything else that can
   *  make a call fail, a write that makes no progress included. */
  datatype IoError = Exists | Missing | Fault

  datatype Handle = DirectoryHandle | FileHandle(inode: Inode, offset: nat)

  datatype Stat = Stat(inode: Inode, size: nat, links: nat)

  const DIRECTORY_INODE: Inode := 0

  datatype State = State(
    entries: map<Name, Inode>,
    files: map<Inode, Bytes>,
    table: map<Descriptor, Handle>,
    /** Neither an inode nor a descriptor number that was ever used. */
    unused: nat
  ) {
    ghost predicate WellFormed() {
      && unused > DIRECTORY_INODE && DIRECTORY_INODE !in files
      && (forall n :: n in entries ==> entries[n] in files)
      && (forall i :: i in files ==> i < unused)
      && (forall d :: d in table ==> d < unused)
      && (forall d :: d in table && table[d].FileHandle? ==> table[d].inode in files)
    }

    predicate IsFile(d: Descriptor) {
      d in table && table[d].FileHandle?
    }

    predicate IsDirectory(d: Descriptor) {
      d in table && table[d].DirectoryHandle?
    }

    function TableOffset(d: Descriptor): nat {
      if IsFile(d) then table[d].offset else 0
    }

    function NamesOf(i: Inode): set<Name> {
      set n | n in entries && entries[n] == i
    }

    /** What opening `name` and reading it to the end would return. */
    function Shown(name: Name): Option<Bytes>
      requires WellFormed()
    {
      if name in entries then Some(files[entries[name]]) else None
    }

    function StatOf(i: Inode): Stat
      requires i in files
    {
      Stat(i, |files[i]|, |NamesOf(i)|)
    }

    function Created(name: Name): State {
      State(entries[name := unused], files[unused := []], table[unused := FileHandle(unused, 0)], unused + 1)
    }

    function WithBytes(d: Descriptor, bytes: Bytes, offset: nat): State
      requires IsFile(d)
    {
      var i := table[d].inode;
      this.(files := files[i := bytes], table := table[d := FileHandle(i, offset)])
    }

    function Exchanged(left: Name, right: Name): State
      requires left in entries && right in entries
    {
      this.(entries := entries[left := entries[right]][right := entries[left]])
    }

    function Renamed(source: Name, target: Name): State
      requires source in entries
    {
      this.(entries := (entries - {source})[target := entries[source]])
    }

    function Unlinked(name: Name): State {
      this.(entries := entries - {name})
    }

    function Closed(d: Descriptor): State {
      this.(table := table - {d})
    }
  }

  /** What one successful call has made sure of at the time: a file or the entries of the directory
   *  were synced, permissions were set, a file was read back and digested under a name, a name was
   *  looked up through a directory descriptor, or a descriptor was looked at. */
  datatype Evidence =
    | BytesSynced(inode: Inode, bytes: Bytes)
    | EntrySynced(name: Name, inode: Inode)
    | Restricted(inode: Inode)
    | Digested(inode: Inode, name: Name)
    | Looked(parent: Descriptor, name: Name, inode: Inode)
    | Measured(descriptor: Descriptor)

  /** What syncing d makes sure of. */
  ghost function SyncedBy(s: State, d: Descriptor): set<Evidence>
    requires s.WellFormed()
  {
    if s.IsFile(d) then {BytesSynced(s.table[d].inode, s.files[s.table[d].inode])}
    else set n | n in s.entries :: EntrySynced(n, s.entries[n])
  }

  /** A second update of one file and its offset hides the first. */
  lemma WithBytesTwice(s: State, d: Descriptor, first: Bytes, i: nat, second: Bytes, j: nat)
    requires s.IsFile(d)
    ensures s.WithBytes(d, first, i).WithBytes(d, second, j) == s.WithBytes(d, second, j)
  {
    var inode := s.table[d].inode;
    assert s.files[inode := first][inode := second] == s.files[inode := second];
    assert s.table[d := FileHandle(inode, i)][d := FileHandle(inode, j)] == s.table[d := FileHandle(inode, j)];
  }

  /** Rewriting a file with its own bytes and offset changes nothing. */
  lemma WithSameBytes(s: State, d: Descriptor)
    requires s.IsFile(d) && s.table[d].inode in s.files
    ensures s.WithBytes(d, s.files[s.table[d].inode], s.table[d].offset) == s
  {
    var inode := s.table[d].inode;
    assert s.files[inode := s.files[inode]] == s.files;
    assert s.table[d := s.table[d]] == s.table;
  }

  /** `after` extends `before`, and every added element is one of `allowed`. */
  ghost predicate OnlyAdds<T>(before: seq<T>, after: seq<T>, allowed: set<T>) {
    && |before| <= |after| && after[..|before|] == before
    && forall k :: |before| <= k < |after| ==> after[k] in allowed
  }

  lemma OnlyAddsOne<T>(before: seq<T>, after: seq<T>, x: T, allowed: set<T>)
    requires OnlyAdds(before, after, allowed) && x in allowed
    ensures OnlyAdds(before, after + [x], allowed)
  {
  }

  lemma OnlyAddsComposes<T>(a: seq<T>, b: seq<T>, c: seq<T>, allowed: set<T>)
    requires OnlyAdds(a, b, allowed) && OnlyAdds(b, c, allowed)
    ensures OnlyAdds(a, c, allowed)
  {
    assert c[..|a|] == c[..|b|][..|a|];
    forall k | |a| <= k < |c| ensures c[k] in allowed {
      if k < |b| {
        assert c[k] == c[..|b|][k];
      }
    }
  }

  class Directory {
    var state: State
    /** The name an observer keeps looking at, and what it resolved to after every change. */
    ghost const watched: Name
    ghost var seen: seq<Option<Bytes>>
    /** How many calls have failed for a reason other than Exists or Missing. */
    ghost var faults: nat
    /** What all calls so far have made sure of. */
    ghost var evidence: set<Evidence>

    ghost predicate Valid()
      reads this
    {
      state.WellFormed()
    }

    /** `_open_parent_directory` without creating ancestors. */
    method OpenParent() returns (r: Result<Descriptor, IoError>)
      requires Valid()
      modifies this
      ensures Valid() && seen == old(seen)
      ensures r.Ok? ==>
        && faults == old(faults) && r.value == old(state.unused)
        && state == old(state).(table := old(state.table)[r.value := DirectoryHandle], unused := old(state.unused) + 1)
      ensures r.Err? ==> state == old(state) && faults == old(faults) + 1
      ensures evidence == old(evidence)
    {
      if * {
        faults := faults + 1;
        return Err(Fault);
      }
      r := Ok(state.unused);
      state := state.(table := state.table[state.unused := DirectoryHandle], unused := state.unused + 1);
    }

    /** open(name, O_RDWR | O_CREAT | O_EXCL) */
    method CreateExclusive(parent: Descriptor, name: Name) returns (r: Result<Descriptor, IoError>)
      requires Valid() && state.IsDirectory(parent)
      modifies this
      ensures Valid()
      ensures r.Ok? ==>
        && name !in old(state.entries) && faults == old(faults)
        && r.value == old(state.unused) && state == old(state).Created(name)
        && seen == old(seen) + [state.Shown(watched)]
      ensures r.Err? ==> state == old(state) && seen == old(seen)
      ensures r.Err? ==>
        if r.error == Exists then name in state.entries && faults == old(faults) else faults == old(faults) + 1
      ensures evidence == old(evidence)
    {
      if * {
        faults := faults + 1;
        return Err(Fault);
      }
      if name in state.entries {
        return Err(Exists);
      }
      r := Ok(state.unused);
      state := state.Created(name);
      seen := seen + [state.Shown(watched)];
    }

    /** stat(name, dir_fd=parent) */
    method StatEntry(parent: Descriptor, name: Name) returns (r: Result<Stat, IoError>)
      requires Valid() && state.IsDirectory(parent)
      modifies this
      ensures Valid() && state == old(state) && seen == old(seen)
      ensures r.Ok? ==> name in state.entries && r.value == state.StatOf(state.entries[name]) && faults == old(faults)
      ensures r.Err? ==>
        if r.error == Missing then name !in state.entries && faults == old(faults) else faults == old(faults) + 1
      ensures evidence == old(evidence) + if r.Ok? then {Looked(parent, name, r.value.inode)} else {}
    {
      if * {
        faults := faults + 1;
        return Err(Fault);
      }
      if name !in state.entries {
        return Err(Missing);
      }
      evidence := evidence + {Looked(parent, name, state.entries[name])};
      return Ok(state.StatOf(state.entries[name]));
    }

    method FStat(d: Descriptor) returns (r: Result<Stat, IoError>)
      requires Valid() && d in state.table
      modifies this
      ensures Valid() && state == old(state) && seen == old(seen)
      ensures r.Ok? ==>
        && faults == old(faults)
        && (state.IsFile(d) ==> r.value == state.StatOf(state.table[d].inode))
        && (state.IsDirectory(d) ==> r.value.inode == DIRECTORY_INODE)
      ensures r.Err? ==> faults == old(faults) + 1
      ensures evidence == old(evidence) + if r.Ok? then {Measured(d)} else {}
    {
      if * {
        faults := faults + 1;
        return Err(Fault);
      }
      evidence := evidence + {Measured(d)};
      match state.table[d]
      case DirectoryHandle => return Ok(Stat(DIRECTORY_INODE, 0, 1));
      case FileHandle(i, _) => return Ok(state.StatOf(i));
    }

    /** fsync */
    method Sync(d: Descriptor) returns (r: Result<(), IoError>)
      requires Valid() && d in state.table
      modifies this
      ensures Valid() && state == old(state) && seen == old(seen)
      ensures faults == old(faults) + if r.Ok? then 0 else 1
      ensures evidence == old(evidence) + if r.Ok? then SyncedBy(state, d) else {}
    {
      if * {
        faults := faults + 1;
        return Err(Fault);
      }
      evidence := evidence + SyncedBy(state, d);
      return Ok(());
    }

    /** fchmod, to the permissions of a file only its owner may use */
    method Restrict(d: Descriptor) returns (r: Result<(), IoError>)
      requires Valid() && state.IsFile(d)
      modifies this
      ensures Valid() && state == old(state) && seen == old(seen)
      ensures faults == old(faults) + if r.Ok? then 0 else 1
      ensures evidence == old(evidence) + if r.Ok? then {Restricted(state.table[d].inode)} else {}
    {
      if * {
        faults := faults + 1;
        return Err(Fault);
      }
      evidence := evidence + {Restricted(state.table[d].inode)};
      return Ok(());
    }

    /** ftruncate(d, 0) */
    method Truncate(d: Descriptor) returns (r: Result<(), IoError>)
      requires Valid() && state.IsFile(d)
      modifies this
      ensures Valid()
      ensures r.Ok? ==>
        && faults == old(faults) && state == old(state).WithBytes(d, [], old(state.table[d].offset))
        && seen == old(seen) + [state.Shown(watched)]
      ensures r.Err? ==> state == old(state) && seen == old(seen) && faults == old(faults) + 1
      ensures evidence == old(evidence)
    {
      if * {
        faults := faults + 1;
        return Err(Fault);
      }
      state := state.WithBytes(d, [], state.table[d].offset);
      seen := seen + [state.Shown(watched)];
      return Ok(());
    }

    /** lseek(d, 0, SEEK_SET) */
    method SeekStart(d: Descriptor) returns (r: Result<(), IoError>)
      requires Valid() && state.IsFile(d)
      modifies this
      ensures Valid() && seen == old(seen)
      ensures r.Ok? ==>
        faults == old(faults) && state == old(state).WithBytes(d, old(state.files[state.table[d].inode]), 0)
      ensures r.Err? ==> state == old(state) && faults == old(faults) + 1
      ensures evidence == old(evidence)
    {
      if * {
        faults := faults + 1;
        return Err(Fault);
      }
      state := state.WithBytes(d, state.files[state.table[d].inode], 0);
      return Ok(());
    }

    /** write(d, data) at the end of the file; the count may be short, or nothing at all. */
    method Append(d: Descriptor, data: Bytes) returns (r: Result<nat, IoError>)
      requires Valid() && state.IsFile(d) && data != []
      requires state.table[d].offset == |state.files[state.table[d].inode]|
      modifies this
      ensures Valid()
      ensures r.Ok? ==>
        && r.value <= |data|
        && var bytes := old(state.files[state.table[d].inode]) + data[..r.value];
        && state == old(state).WithBytes(d, bytes, |bytes|)
        && seen == old(seen) + [state.Shown(watched)]
      ensures r.Err? ==> state == old(state) && seen == old(seen)
      ensures faults == old(faults) + if r.Ok? && r.value > 0 then 0 else 1
      ensures evidence == old(evidence)
    {
      if * {
        faults := faults + 1;
        return Err(Fault);
      }
      var count: nat :| count <= |data|;
      if count == 0 {
        faults := faults + 1;
      }
      var bytes := state.files[state.table[d].inode] + data[..count];
      state := state.WithBytes(d, bytes, |bytes|);
      seen := seen + [state.Shown(watched)];
      return Ok(count);
    }

    /** read(d, limit): a short count, empty only at the end of the file. */
    method Read(d: Descriptor, limit: nat) returns (r: Result<Bytes, IoError>)
      requires Valid() && state.IsFile(d) && limit > 0
      requires state.table[d].offset <= |state.files[state.table[d].inode]|
      modifies this
      ensures Valid() && seen == old(seen)
      ensures r.Ok? ==>
        var bytes, start := old(state.files[state.table[d].inode]), old(state.table[d].offset);
        && faults == old(faults)
        && |r.value| <= limit && start + |r.value| <= |bytes|
        && r.value == bytes[start..start + |r.value|]
        && (r.value == [] <==> start == |bytes|)
        && state == old(state).WithBytes(d, bytes, start + |r.value|)
      ensures r.Err? ==> state == old(state) && faults == old(faults) + 1
      ensures evidence == old(evidence)
    {
      if * {
        faults := faults + 1;
        return Err(Fault);
      }
      var bytes, start := state.files[state.table[d].inode], state.table[d].offset;
      var count: nat := 0;
      if start < |bytes| {
        count :| 0 < count <= limit && start + count <= |bytes|;
      }
      state := state.WithBytes(d, bytes, start + count);
      return Ok(bytes[start..start + count]);
    }

    /** renameat2 with RENAME_NOREPLACE */
    method RenameNoReplace(parent: Descriptor, source: Name, target: Name) returns (r: Result<(), IoError>)
      requires Valid() && state.IsDirectory(parent)
      modifies this
      ensures Valid()
      ensures r.Ok? ==>
        && source in old(state.entries) && target !in old(state.entries) && faults == old(faults)
        && state == old(state).Renamed(source, target)
        && seen == old(seen) + [state.Shown(watched)]
      ensures r.Err? ==> state == old(state) && seen == old(seen)
      ensures r.Err? ==>
        match r.error
        case Exists => target in state.entries && faults == old(faults)
        case Missing => source !in state.entries && faults == old(faults)
        case Fault => faults == old(faults) + 1
      ensures evidence == old(evidence)
    {
      if * {
        faults := faults + 1;
        return Err(Fault);
      }
      if source !in state.entries {
        return Err(Missing);
      }
      if target in state.entries {
        return Err(Exists);
      }
      state := state.Renamed(source, target);
      seen := seen + [state.Shown(watched)];
      return Ok(());
    }

    /** renameat2 with RENAME_EXCHANGE */
    method Exchange(parent: Descriptor, left: Name, right: Name) returns (r: Result<(), IoError>)
      requires Valid() && state.IsDirectory(parent)
      modifies this
      ensures Valid()
      ensures r.Ok? ==>
        && left in old(state.entries) && right in old(state.entries) && faults == old(faults)
        && state == old(state).Exchanged(left, right)
        && seen == old(seen) + [state.Shown(watched)]
      ensures r.Err? ==> state == old(state) && seen == old(seen)
      ensures r.Err? ==>
        if r.error == Missing then (left !in state.entries || right !in state.entries) && faults == old(faults)
        else faults == old(faults) + 1
      ensures evidence == old(evidence)
    {
      if * {
        faults := faults + 1;
        return Err(Fault);
      }
      if left !in state.entries || right !in state.entries {
        return Err(Missing);
      }
      state := state.Exchanged(left, right);
      seen := seen + [state.Shown(watched)];
      return Ok(());
    }

    method Unlink(parent: Descriptor, name: Name) returns (r: Result<(), IoError>)
      requires Valid() && state.IsDirectory(parent)
      modifies this
      ensures Valid()
      ensures r.Ok? ==>
        && name in old(state.entries) && faults == old(faults)
        && state == old(state).Unlinked(name)
        && seen == old(seen) + [state.Shown(watched)]
      ensures r.Err? ==> state == old(state) && seen == old(seen)
      ensures r.Err? ==>
        if r.error == Missing then name !in state.entries && faults == old(faults) else faults == old(faults) + 1
      ensures evidence == old(evidence)
    {
      if * {
        faults := faults + 1;
        return Err(Fault);
      }
      if name !in state.entries {
        return Err(Missing);
      }
      state := state.Unlinked(name);
      seen := seen + [state.Shown(watched)];
      return Ok(());
    }

    /** Closing always succeeds. */
    method Close(d: Descriptor)
      requires Valid() && d in state.table
      modifies this
      ensures Valid() && state == old(state).Closed(d) && seen == old(seen) && faults == old(faults)
      ensures evidence == old(evidence)
    {
      state := state.Closed(d);
    }
  }
}
