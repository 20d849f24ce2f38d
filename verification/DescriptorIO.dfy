/** The descriptor-level helpers the publication protocols share. */
module DescriptorIO {
  import opened Arithmetic
  import opened Wrappers
  import opened FileSystem

  datatype ArtifactError = Refused | Failed | AlreadyClosed | NotJson

  datatype Published = Published(name: Name, digest: Digest, size: nat)

  /** SHA-256, about which nothing is assumed. */
  type Hash = Bytes -> Digest

  const CHUNK_BYTES := 1024 * 1024

  /** The bytes behind descriptor d. */
  function BytesAt(s: State, d: Descriptor): Bytes
    requires s.IsFile(d) && s.table[d].inode in s.files
  {
    s.files[s.table[d].inode]
  }

  /** Of everything in the state, only the file behind d and its offset differ. */
  ghost predicate OnlyTouches(before: State, after: State, d: Descriptor) {
    && before.IsFile(d) && after.IsFile(d) && before.table[d].inode in after.files
    && after == before.WithBytes(d, after.files[before.table[d].inode], after.table[d].offset)
  }

  /** Only the offset behind d and the supply of unused numbers may differ. */
  ghost predicate OnlyReads(before: State, after: State, d: Descriptor) {
    && before.IsFile(d) && after.IsFile(d) && after.unused >= before.unused
    && after.table[d].inode == before.table[d].inode
    && after == before.(table := before.table[d := after.table[d]], unused := after.unused)
  }

  /** `name` is the file with inode i. */
  ghost predicate Named(s: State, name: Name, i: Inode) {
    name in s.entries && s.entries[name] == i
  }

  /** An observer who does not look at the file behind d. */
  ghost predicate Elsewhere(s: State, d: Descriptor, watched: Name)
    requires s.IsFile(d)
  {
    watched in s.entries ==> s.entries[watched] != s.table[d].inode
  }

  /** The state `fs` is in when only the file behind d was changed since `start`. */
  ghost predicate Holds(fs: Directory, start: State, d: Descriptor, bytes: Bytes, offset: nat)
    requires start.IsFile(d)
    reads fs
  {
    fs.Valid() && fs.state == start.WithBytes(d, bytes, offset)
  }

  /** What the observer has been shown since `seen`, if looking elsewhere, is one thing. */
  ghost predicate Unseen(fs: Directory, start: State, d: Descriptor, seen: seq<Option<Bytes>>)
    requires start.WellFormed() && start.IsFile(d)
    reads fs
  {
    Elsewhere(start, d, fs.watched) ==> OnlyAdds(seen, fs.seen, {start.Shown(fs.watched)})
  }

  /** write, at the end of a file that was last changed through d. */
  method AppendOnce(fs: Directory, ghost start: State, ghost seen: seq<Option<Bytes>>, d: Descriptor,
                    ghost bytes: Bytes, data: Bytes)
    returns (count: Result<nat, IoError>)
    requires start.WellFormed() && start.IsFile(d) && Holds(fs, start, d, bytes, |bytes|) && Unseen(fs, start, d, seen)
    requires data != []
    modifies fs
    ensures count.Ok? ==>
      count.value <= |data| && Holds(fs, start, d, bytes + data[..count.value], |bytes| + count.value)
    ensures count.Err? ==> fs.Valid() && fs.state == old(fs.state)
    ensures Unseen(fs, start, d, seen)
    ensures fs.faults == old(fs.faults) + if count.Ok? && count.value > 0 then 0 else 1
    ensures fs.evidence == old(fs.evidence)
  {
    count := fs.Append(d, data);
    if count.Ok? {
      ghost var longer := bytes + data[..count.value];
      WithBytesTwice(start, d, bytes, |bytes|, longer, |longer|);
      if Elsewhere(start, d, fs.watched) {
        OnlyAddsOne(seen, old(fs.seen), fs.state.Shown(fs.watched), {start.Shown(fs.watched)});
      }
    }
  }

  /** `_write_descriptor_bytes`: replace the contents, tolerating short writes. */
  method WriteDescriptorBytes(fs: Directory, d: Descriptor, encoded: Bytes) returns (r: Result<(), ArtifactError>)
    requires fs.Valid() && fs.state.IsFile(d)
    modifies fs
    ensures fs.Valid() && OnlyTouches(old(fs.state), fs.state, d)
    ensures r.Ok? ==> BytesAt(fs.state, d) == encoded
    ensures r.Ok? <==> fs.faults == old(fs.faults)
    ensures fs.faults >= old(fs.faults)
    ensures Unseen(fs, old(fs.state), d, old(fs.seen))
    ensures old(fs.evidence) <= fs.evidence
    ensures r.Ok? ==> BytesSynced(fs.state.table[d].inode, encoded) in fs.evidence
  {
    ghost var start, seen := fs.state, fs.seen;
    WithSameBytes(start, d);
    var truncated := fs.Truncate(d);
    if truncated.Err? {
      return Err(Failed);
    }
    var sought := fs.SeekStart(d);
    if sought.Err? {
      return Err(Failed);
    }
    WithBytesTwice(start, d, [], start.table[d].offset, [], 0);
    var written := 0;
    while written < |encoded|
      invariant 0 <= written <= |encoded| && Holds(fs, start, d, encoded[..written], written)
      invariant fs.faults == old(fs.faults) && Unseen(fs, start, d, seen) && fs.evidence == old(fs.evidence)
    {
      var count := AppendOnce(fs, start, seen, d, encoded[..written], encoded[written..]);
      if count.Err? || count.value == 0 {
        return Err(Failed);
      }
      assert encoded[..written] + encoded[written..][..count.value] == encoded[..written + count.value];
      written := written + count.value;
    }
    assert encoded[..written] == encoded;
    var synced := fs.Sync(d);
    if synced.Err? {
      return Err(Failed);
    }
    return Ok(());
  }

  /** read, from a file that holds `bytes` and was only read through d since `start`. */
  method ReadOnce(fs: Directory, ghost start: State, d: Descriptor, ghost bytes: Bytes, ghost offset: nat, limit: nat)
    returns (chunk: Result<Bytes, IoError>)
    requires start.WellFormed() && start.IsFile(d) && Holds(fs, start, d, bytes, offset)
    requires offset <= |bytes| && limit > 0
    modifies fs
    ensures fs.Valid() && fs.seen == old(fs.seen)
    ensures chunk.Ok? ==>
      && fs.faults == old(fs.faults)
      && |chunk.value| <= limit && offset + |chunk.value| <= |bytes|
      && chunk.value == bytes[offset..offset + |chunk.value|]
      && (chunk.value == [] <==> offset == |bytes|)
      && Holds(fs, start, d, bytes, offset + |chunk.value|)
    ensures chunk.Err? ==> fs.state == old(fs.state) && fs.faults == old(fs.faults) + 1
    ensures fs.evidence == old(fs.evidence)
  {
    chunk := fs.Read(d, limit);
    if chunk.Ok? {
      WithBytesTwice(start, d, bytes, offset, bytes, offset + |chunk.value|);
    }
  }

  /** What digesting the file behind d makes sure of. */
  ghost function DigestedBy(s: State, d: Descriptor): set<Evidence>
    requires s.IsFile(d)
  {
    set n | n in s.NamesOf(s.table[d].inode) :: Digested(s.table[d].inode, n)
  }

  /** `_descriptor_sha256`: the digest of the whole file, provided it has the expected size. */
  method DescriptorSha256(fs: Directory, d: Descriptor, expectedSize: nat, sha: Hash)
    returns (r: Result<Digest, ArtifactError>)
    requires fs.Valid() && fs.state.IsFile(d)
    modifies fs
    ensures fs.Valid() && OnlyTouches(old(fs.state), fs.state, d)
    ensures BytesAt(fs.state, d) == old(BytesAt(fs.state, d)) && fs.seen == old(fs.seen)
    ensures fs.faults >= old(fs.faults)
    ensures r.Ok? <==> fs.faults == old(fs.faults) && |BytesAt(fs.state, d)| == expectedSize
    ensures r.Ok? ==> r.value == sha(BytesAt(fs.state, d))
    ensures fs.evidence == old(fs.evidence) + if r.Ok? then DigestedBy(fs.state, d) else {}
  {
    ghost var start, bytes := fs.state, BytesAt(fs.state, d);
    WithSameBytes(start, d);
    var sought := fs.SeekStart(d);
    if sought.Err? {
      return Err(Failed);
    }
    var digested: Bytes := [];
    var remaining := expectedSize;
    while remaining > 0
      invariant 0 <= remaining && |digested| == expectedSize - remaining <= |bytes|
      invariant Holds(fs, start, d, bytes, |digested|)
      invariant fs.seen == old(fs.seen) && fs.faults == old(fs.faults) && fs.evidence == old(fs.evidence)
      invariant digested == bytes[..|digested|]
    {
      var chunk := ReadOnce(fs, start, d, bytes, |digested|, Min(CHUNK_BYTES, remaining));
      if chunk.Err? || chunk.value == [] {
        return Err(Failed);
      }
      digested := digested + chunk.value;
      remaining := remaining - |chunk.value|;
    }
    var extra := ReadOnce(fs, start, d, bytes, |digested|, 1);
    if extra.Err? || extra.value != [] {
      return Err(Failed);
    }
    assert digested == bytes;
    fs.evidence := fs.evidence + DigestedBy(fs.state, d);
    return Ok(sha(digested));
  }

  predicate IsFilename(name: Name) {
    name != "" && name != "." && name != ".." && '\0' !in name
  }

  /** Only these are no file names. */
  lemma Filenames(name: Name)
    ensures IsFilename(name) <==> !(name in {"", ".", ".."}) && forall i :: 0 <= i < |name| ==> name[i] as int != 0
  {
    assert '\0' in name <==> exists i :: 0 <= i < |name| && name[i] == '\0';
  }

  // ----- Hidden entries ---------------------------------------------------------------

  const ATTEMPTS := 100

  /** ".name.token.suffix", the form of every temporary name. */
  function HiddenName(name: Name, token: string, suffix: string): (hidden: Name)
    ensures hidden != name
  {
    var hidden := "." + name + "." + token + suffix;
    assert |hidden| > |name|;
    hidden
  }

  ghost predicate AllTaken(s: State, name: Name, tokens: seq<string>, suffix: string) {
    forall k :: 0 <= k < |tokens| ==> HiddenName(name, tokens[k], suffix) in s.entries
  }

  /** `hidden` is the k-th hidden name, and those before it are taken. */
  ghost predicate IsFirstFree(s: State, name: Name, tokens: seq<string>, suffix: string, k: nat, hidden: Name) {
    && k < |tokens| && hidden !in s.entries && hidden == "." + name + "." + tokens[k] + suffix
    && forall j :: 0 <= j < k ==> "." + name + "." + tokens[j] + suffix in s.entries
  }

  /** Up to 100 exclusive creates under fresh random tokens; only a name that is taken leads to
   *  another attempt. */
  method AllocateHidden(fs: Directory, parent: Descriptor, name: Name, tokens: seq<string>, suffix: string)
    returns (r: Result<(Name, Descriptor), IoError>)
    requires fs.Valid() && fs.state.IsDirectory(parent) && |tokens| == 100
    modifies fs
    ensures fs.Valid() && fs.evidence == old(fs.evidence)
    ensures r.Ok? ==> exists k :: 0 <= k < 100 && IsFirstFree(old(fs.state), name, tokens, suffix, k, r.value.0)
    ensures r.Ok? ==>
      && fs.faults == old(fs.faults)
      && !AllTaken(old(fs.state), name, tokens, suffix)
      && r.value.0 != name && r.value.0 !in old(fs.state.entries) && r.value.1 == old(fs.state.unused)
      && fs.state == old(fs.state).Created(r.value.0)
      && fs.seen == old(fs.seen) + [fs.state.Shown(fs.watched)]
    ensures r.Err? ==> fs.state == old(fs.state) && fs.seen == old(fs.seen)
    ensures r.Err? ==>
      fs.faults == old(fs.faults) + 1 || (fs.faults == old(fs.faults) && AllTaken(fs.state, name, tokens, suffix))
  {
    var attempt := 0;
    while attempt < ATTEMPTS
      invariant 0 <= attempt <= ATTEMPTS
      invariant fs.Valid() && fs.state == old(fs.state) && fs.seen == old(fs.seen) && fs.faults == old(fs.faults)
      invariant AllTaken(fs.state, name, tokens[..attempt], suffix) && fs.evidence == old(fs.evidence)
    {
      var hidden := HiddenName(name, tokens[attempt], suffix);
      var created := fs.CreateExclusive(parent, hidden);
      if created.Ok? {
        assert IsFirstFree(old(fs.state), name, tokens, suffix, attempt, hidden);
        return Ok((hidden, created.value));
      }
      if created.error != Exists {
        return Err(created.error);
      }
      attempt := attempt + 1;
    }
    assert tokens[..attempt] == tokens;
    return Err(Exists);
  }

  /** `_same_file` of two descriptors. */
  method SameFile(fs: Directory, left: Descriptor, right: Descriptor) returns (r: Result<bool, IoError>)
    requires fs.Valid() && left in fs.state.table && right in fs.state.table
    modifies fs
    ensures fs.Valid() && fs.state == old(fs.state) && fs.seen == old(fs.seen)
    ensures fs.faults == old(fs.faults) + if r.Ok? then 0 else 1
    ensures r.Ok? && fs.state.IsDirectory(left) && fs.state.IsDirectory(right) ==> r.value
    ensures fs.evidence >= old(fs.evidence) + if r.Ok? then {Measured(left), Measured(right)} else {}
  {
    var first := fs.FStat(left);
    if first.Err? {
      return Err(first.error);
    }
    var second := fs.FStat(right);
    if second.Err? {
      return Err(second.error);
    }
    return Ok(first.value.inode == second.value.inode);
  }

  /** Open the directory again, check that it still is the same one and look `name` up in it. */
  method VisibleAgain(fs: Directory, parent: Descriptor, name: Name) returns (r: Result<Stat, ArtifactError>)
    requires fs.Valid() && fs.state.IsDirectory(parent)
    modifies fs
    ensures fs.Valid() && fs.seen == old(fs.seen) && fs.faults >= old(fs.faults)
    ensures fs.state == old(fs.state).(unused := fs.state.unused) && fs.state.unused >= old(fs.state.unused)
    ensures r.Ok? <==> fs.faults == old(fs.faults) && name in fs.state.entries
    ensures r.Ok? ==> r.value == fs.state.StatOf(fs.state.entries[name])
    ensures fs.evidence >= old(fs.evidence)
    ensures r.Ok? ==>
      && Measured(parent) in fs.evidence && Measured(old(fs.state.unused)) in fs.evidence
      && Looked(old(fs.state.unused), name, r.value.inode) in fs.evidence
  {
    ghost var start := fs.state;
    var again := fs.OpenParent();
    if again.Err? {
      return Err(Failed);
    }
    var same := SameFile(fs, parent, again.value);
    var visible: Result<Stat, IoError> := Err(Fault);
    if same.Ok? && same.value {
      visible := fs.StatEntry(again.value, name);
    }
    fs.Close(again.value);
    assert fs.state.table == start.table;
    return if visible.Ok? then Ok(visible.value) else Err(Failed);
  }
}
