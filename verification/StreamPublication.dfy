/** Sealing a bounded stream and publishing it under its name without replacing anything. */
module StreamPublication {
  import opened Wrappers
  import opened FileSystem
  import opened DescriptorIO
  import opened BufferedStreams
  import opened ArtifactStreams

  /** `entry` is the only name of the file behind d, and the file is the expected one. */
  ghost predicate SealedAs(s: State, entry: Name, d: Descriptor, size: nat, digest: Digest, sha: Hash)
    requires s.WellFormed() && s.IsFile(d)
  {
    && Named(s, entry, s.table[d].inode) && |s.NamesOf(s.table[d].inode)| == 1
    && |BytesAt(s, d)| == size && sha(BytesAt(s, d)) == digest
  }

  /** The file was looked up and digested under this name. */
  ghost predicate Checked(evidence: set<Evidence>, parent: Descriptor, entry: Name, i: Inode) {
    Looked(parent, entry, i) in evidence && Digested(i, entry) in evidence
  }

  /** The stat, fstat and digest checks made before and again after the rename. */
  method CheckSealed(fs: Directory, parent: Descriptor, entry: Name, d: Descriptor, size: nat, digest: Digest,
                     sha: Hash)
    returns (ok: bool)
    requires fs.Valid() && fs.state.IsDirectory(parent) && fs.state.IsFile(d)
    modifies fs
    ensures fs.Valid() && OnlyReads(old(fs.state), fs.state, d)
    ensures fs.seen == old(fs.seen) && fs.faults >= old(fs.faults)
    ensures ok <==> fs.faults == old(fs.faults) && SealedAs(old(fs.state), entry, d, size, digest, sha)
    ensures old(fs.evidence) <= fs.evidence
    ensures ok ==> Checked(fs.evidence, parent, entry, fs.state.table[d].inode)
  {
    ghost var start := fs.state;
    WithSameBytes(start, d);
    var descriptor := fs.FStat(d);
    if descriptor.Err? {
      return false;
    }
    var visible := fs.StatEntry(parent, entry);
    if visible.Err? {
      return false;
    }
    if descriptor.value.inode != visible.value.inode || descriptor.value.links != 1 || descriptor.value.size != size {
      return false;
    }
    var actual := DescriptorSha256(fs, d, size, sha);
    assert fs.state.files == start.files;
    return actual.Ok? && actual.value == digest;
  }

  /** The reconciliation through a directory opened anew. */
  method Reconcile(fs: Directory, parent: Descriptor, name: Name, d: Descriptor, size: nat, digest: Digest, sha: Hash)
    returns (ok: bool)
    requires fs.Valid() && fs.state.IsDirectory(parent) && fs.state.IsFile(d)
    modifies fs
    ensures fs.Valid() && OnlyReads(old(fs.state), fs.state, d)
    ensures fs.seen == old(fs.seen) && fs.faults >= old(fs.faults)
    ensures ok <==> fs.faults == old(fs.faults) && SealedAs(old(fs.state), name, d, size, digest, sha)
    ensures old(fs.evidence) <= fs.evidence
    ensures ok ==>
      && Measured(old(fs.state.unused)) in fs.evidence
      && Looked(old(fs.state.unused), name, fs.state.table[d].inode) in fs.evidence
  {
    ghost var start := fs.state;
    var visible := VisibleAgain(fs, parent, name);
    if visible.Err? {
      return false;
    }
    ghost var looked := fs.state;
    WithSameBytes(looked, d);
    var descriptor := fs.FStat(d);
    if descriptor.Err? {
      return false;
    }
    if descriptor.value.inode != visible.value.inode || visible.value.links != 1 || visible.value.size != size {
      return false;
    }
    var actual := DescriptorSha256(fs, d, size, sha);
    assert fs.state.files == start.files;
    return actual.Ok? && actual.value == digest;
  }

  /** Open the directory again and check that it still is the same one. */
  method ReopensSame(fs: Directory, parent: Descriptor) returns (ok: bool)
    requires fs.Valid() && fs.state.IsDirectory(parent)
    modifies fs
    ensures fs.Valid() && fs.seen == old(fs.seen) && fs.faults >= old(fs.faults)
    ensures fs.state == old(fs.state).(unused := fs.state.unused) && fs.state.unused >= old(fs.state.unused)
    ensures ok <==> fs.faults == old(fs.faults)
    ensures old(fs.evidence) <= fs.evidence
    ensures ok ==>
      && fs.state.unused > old(fs.state.unused)
      && Measured(parent) in fs.evidence && Measured(old(fs.state.unused)) in fs.evidence
  {
    ghost var start := fs.state;
    var again := fs.OpenParent();
    if again.Err? {
      return false;
    }
    var same := SameFile(fs, parent, again.value);
    fs.Close(again.value);
    assert fs.state.table == start.table;
    return same.Ok? && same.value;
  }

  /** The directory was opened again and the name looked up in it. */
  ghost predicate LookedAfresh(evidence: set<Evidence>, again: Descriptor, name: Name, i: Inode) {
    Measured(again) in evidence && Looked(again, name, i) in evidence
  }

  /** Everything a successful publication has made sure of: before the rename the bytes were on
   *  disk, the file was checked under the partial name and the directory was opened again; after
   *  it the new entry was put on disk, the file was checked under its name, and the name was
   *  looked up in the directory opened once more. */
  ghost predicate PublicationSecured(evidence: set<Evidence>, parent: Descriptor, partialName: Name, name: Name,
                                     i: Inode)
  {
    && Checked(evidence, parent, partialName, i) && Measured(parent) in evidence
    && EntrySynced(name, i) in evidence && Checked(evidence, parent, name, i)
    && exists once, again :: once != again && Reopened(evidence, once, again, name, i)
  }

  ghost predicate Reopened(evidence: set<Evidence>, once: Descriptor, again: Descriptor, name: Name, i: Inode) {
    Measured(once) in evidence && LookedAfresh(evidence, again, name, i)
  }

  /** What follows the rename: sync the directory and make the same checks twice more. */
  method ConfirmPublished(fs: Directory, parent: Descriptor, name: Name, d: Descriptor, size: nat, digest: Digest,
                          sha: Hash)
    returns (ok: bool)
    requires fs.Valid() && fs.state.IsDirectory(parent) && fs.state.IsFile(d)
    modifies fs
    ensures fs.Valid() && OnlyReads(old(fs.state), fs.state, d)
    ensures fs.seen == old(fs.seen) && fs.faults >= old(fs.faults)
    ensures ok <==> fs.faults == old(fs.faults) && SealedAs(old(fs.state), name, d, size, digest, sha)
    ensures old(fs.evidence) <= fs.evidence
    ensures ok ==>
      && var i := fs.state.table[d].inode;
      && Checked(fs.evidence, parent, name, i) && EntrySynced(name, i) in fs.evidence
      && exists again :: again >= old(fs.state.unused) && LookedAfresh(fs.evidence, again, name, i)
  {
    ghost var start := fs.state;
    WithSameBytes(start, d);
    var synced := fs.Sync(parent);
    if synced.Err? {
      return false;
    }
    ok := CheckSealed(fs, parent, name, d, size, digest, sha);
    if ok {
      ghost var again := fs.state.unused;
      ok := Reconcile(fs, parent, name, d, size, digest, sha);
      assert ok ==> LookedAfresh(fs.evidence, again, name, fs.state.table[d].inode);
    }
  }

  /** Confirm the sealed partial, rename it without replacing anything, confirm it again. */
  method PublishSealed(fs: Directory, parent: Descriptor, partialName: Name, name: Name, d: Descriptor,
                       size: nat, digest: Digest, sha: Hash)
    returns (ok: bool, renamed: bool)
    requires fs.Valid() && fs.state.IsDirectory(parent) && fs.state.IsFile(d) && partialName != name
    modifies fs
    ensures fs.Valid() && fs.faults >= old(fs.faults)
    ensures ok ==> renamed
    ensures renamed ==>
      && name !in old(fs.state.entries) && SealedAs(old(fs.state), partialName, d, size, digest, sha)
      && OnlyReads(old(fs.state).Renamed(partialName, name), fs.state, d)
      && fs.seen == old(fs.seen) + [fs.state.Shown(fs.watched)]
    ensures !renamed ==> OnlyReads(old(fs.state), fs.state, d) && fs.seen == old(fs.seen)
    ensures ok <==>
      && fs.faults == old(fs.faults) && name !in old(fs.state.entries)
      && SealedAs(old(fs.state), partialName, d, size, digest, sha)
    ensures old(fs.evidence) <= fs.evidence
    ensures ok ==> PublicationSecured(fs.evidence, parent, partialName, name, fs.state.table[d].inode)
  {
    ghost var start := fs.state;
    var before := CheckSealed(fs, parent, partialName, d, size, digest, sha);
    if !before {
      return false, false;
    }
    ghost var once := fs.state.unused;
    var same := ReopensSame(fs, parent);
    if !same {
      return false, false;
    }
    var moved := fs.RenameNoReplace(parent, partialName, name);
    if moved.Err? {
      return false, false;
    }
    ghost var after := fs.state;
    StillSealed(start, after, partialName, name, d, size, digest, sha);
    ok := ConfirmPublished(fs, parent, name, d, size, digest, sha);
    if ok {
      ghost var i := fs.state.table[d].inode;
      ghost var again :| again >= after.unused && LookedAfresh(fs.evidence, again, name, i);
      assert Reopened(fs.evidence, once, again, name, i);
    }
    return ok, true;
  }

  /** A rename moves the only name of the file. */
  lemma StillSealed(s: State, t: State, partialName: Name, name: Name, d: Descriptor, size: nat, digest: Digest,
                    sha: Hash)
    requires s.WellFormed() && t.WellFormed() && s.IsFile(d) && SealedAs(s, partialName, d, size, digest, sha)
    requires name !in s.entries && OnlyReads(s.Renamed(partialName, name), t, d)
    ensures SealedAs(t, name, d, size, digest, sha)
  {
    var i := s.table[d].inode;
    var names := s.NamesOf(i);
    assert partialName in names;
    assert names - {partialName} == {} by {
      assert |names - {partialName}| == 0;
    }
    assert t.NamesOf(i) == {name};
  }

  /** Only the file i, the descriptor d it was written through and its offset may differ. */
  ghost predicate OnlyStreams(before: State, after: State, d: Descriptor, i: Inode) {
    && i in after.files && after.files == before.files[i := after.files[i]]
    && after.entries == before.entries && after.unused == before.unused
    && after.table - {d} == before.table - {d}
  }

  /** An observer of a name that is not the file i has been shown one thing since `seen`. */
  ghost predicate Quiet(fs: Directory, start: State, i: Inode, seen: seq<Option<Bytes>>)
    requires start.WellFormed()
    reads fs
  {
    !Named(start, fs.watched, i) ==> OnlyAdds(seen, fs.seen, {start.Shown(fs.watched)})
  }

  lemma TouchesStream(start: State, after: State, d: Descriptor, i: Inode)
    requires start.WellFormed() && OnlyTouches(start, after, d) && start.table[d].inode == i
    ensures OnlyStreams(start, after, d, i)
  {
  }

  lemma StreamsTwice(start: State, middle: State, after: State, d: Descriptor, i: Inode)
    requires OnlyStreams(start, middle, d, i) && OnlyStreams(middle, after, d, i)
    ensures OnlyStreams(start, after, d, i)
  {
  }

  lemma QuietTwice(fs: Directory, start: State, middle: State, d: Descriptor, i: Inode, seen: seq<Option<Bytes>>,
                   between: seq<Option<Bytes>>)
    requires start.WellFormed() && middle.WellFormed() && OnlyStreams(start, middle, d, i)
    requires !Named(start, fs.watched, i) ==> OnlyAdds(seen, between, {start.Shown(fs.watched)})
    requires Quiet(fs, middle, i, between)
    ensures Quiet(fs, start, i, seen)
  {
    if !Named(start, fs.watched, i) {
      assert middle.Shown(fs.watched) == start.Shown(fs.watched);
      OnlyAddsComposes(seen, between, fs.seen, {start.Shown(fs.watched)});
    }
  }

  /** The first of `names` that is the file i. */
  ghost function FirstNamed(s: State, names: seq<Name>, i: Inode): (found: Option<Name>)
    ensures found.Some? ==> found.value in names && Named(s, found.value, i)
    ensures found.None? ==> forall n :: n in names ==> !Named(s, n, i)
  {
    if names == [] then None
    else if Named(s, names[0], i) then Some(names[0])
    else FirstNamed(s, names[1..], i)
  }

  lemma FirstNamedFrame(s: State, t: State, names: seq<Name>, i: Inode)
    requires s.entries == t.entries
    ensures FirstNamed(s, names, i) == FirstNamed(t, names, i)
  {
  }

  /** Stat one name after the other; a stat that fails is skipped. */
  method FindNamed(fs: Directory, parent: Descriptor, names: seq<Name>, i: Inode) returns (found: Option<Name>)
    requires fs.Valid() && fs.state.IsDirectory(parent)
    modifies fs
    ensures fs.Valid() && fs.state == old(fs.state) && fs.seen == old(fs.seen) && fs.faults >= old(fs.faults)
    ensures old(fs.evidence) <= fs.evidence
    ensures found.Some? ==> found.value in names && Named(fs.state, found.value, i)
    ensures fs.faults == old(fs.faults) ==> found == FirstNamed(fs.state, names, i)
  {
    var k := 0;
    while k < |names|
      invariant 0 <= k <= |names|
      invariant fs.Valid() && fs.state == old(fs.state) && fs.seen == old(fs.seen) && fs.faults >= old(fs.faults)
      invariant old(fs.evidence) <= fs.evidence
      invariant fs.faults == old(fs.faults) ==> FirstNamed(fs.state, names, i) == FirstNamed(fs.state, names[k..], i)
    {
      var visible := fs.StatEntry(parent, names[k]);
      if visible.Ok? && visible.value.inode == i {
        return Some(names[k]);
      }
      k := k + 1;
    }
    return None;
  }

  class StreamingArtifact {
    const fs: Directory
    const name: Name
    const partialName: Name
    const parent: Descriptor
    const artifact: Descriptor
    const raw: BoundedWriter
    /** The identity captured when the partial was created. */
    const inode: Inode
    const bufferSize: nat
    /** What the buffered writer has accepted and not yet passed on. */
    var buffer: Bytes
    var closed: bool
    var retained: Option<Name>
    /** Everything accepted so far, and how many bytes calls that failed have put into the file
     *  for nothing: the buffer is written again, a value too long for it was not accepted. */
    ghost var accepted: Bytes
    ghost var surplus: nat
    /** The calls of the writer so far. */
    ghost var calls: seq<WriterCall>

    ghost predicate Valid()
      reads this, raw, fs
    {
      Attached() && View() == WriterRun(calls, Bounds())
    }

    /** The descriptors are what they should be. */
    ghost predicate Attached()
      reads this, raw, fs
    {
      && raw.fs == fs && raw.Valid() && raw.inode == inode && name != partialName && bufferSize > 0
      && (!closed ==>
            && fs.state.IsDirectory(parent) && fs.state.IsFile(artifact) && fs.state.table[artifact].inode == inode
            && raw.descriptor != artifact)
    }

    constructor (fs: Directory, name: Name, partialName: Name, parent: Descriptor, artifact: Descriptor,
                 raw: BoundedWriter, inode: Inode, bufferSize: nat)
      requires raw.Valid() && raw.fs == fs && raw.inode == inode && raw.descriptor != artifact && raw.digested == []
      requires name != partialName && bufferSize > 0
      requires fs.state.IsDirectory(parent) && fs.state.IsFile(artifact) && fs.state.table[artifact].inode == inode
      ensures Valid() && !closed && View() == FRESH_WRITER && calls == [] && retained.None?
      ensures this.fs == fs && this.name == name && this.partialName == partialName
      ensures this.parent == parent && this.artifact == artifact && this.raw == raw && this.inode == inode
      ensures this.bufferSize == bufferSize
    {
      this.fs, this.name, this.partialName := fs, name, partialName;
      this.parent, this.artifact, this.raw, this.inode := parent, artifact, raw, inode;
      this.bufferSize := bufferSize;
      buffer, closed, retained, accepted, surplus, calls := [], false, None, [], 0, [];
    }

    function Bounds(): Limits
    {
      Limits(bufferSize, raw.maxBytes)
    }

    ghost function View(): WriterView
      reads this, raw
    {
      WriterView(raw.digested, buffer, accepted, surplus)
    }

    /** What finalize would publish. */
    function Stream(): Bytes
      reads this, raw
    {
      raw.digested + buffer
    }

    /** One call of the raw writer. */
    method Send(value: Bytes) returns (ok: bool, ghost cut: Option<nat>)
      requires Attached() && !raw.closed && value != []
      modifies raw, fs
      ensures Attached() && !raw.closed && fs.faults >= old(fs.faults)
      ensures raw.digested == old(raw.digested) + value[..Sent(|old(raw.digested)|, value, raw.maxBytes, cut)]
      ensures ok <==> |old(raw.digested)| + |value| <= raw.maxBytes && fs.faults == old(fs.faults)
      ensures ok <==> Sent(|old(raw.digested)|, value, raw.maxBytes, cut) == |value|
      ensures OnlyStreams(old(fs.state), fs.state, raw.descriptor, inode)
      ensures Quiet(fs, old(fs.state), inode, old(fs.seen))
    {
      ghost var start := fs.state;
      var written;
      written, cut := raw.Write(value);
      TouchesStream(start, fs.state, raw.descriptor, inode);
      assert fs.state.table - {raw.descriptor} == start.table - {raw.descriptor};
      assert !closed ==> parent in start.table - {raw.descriptor} && artifact in start.table - {raw.descriptor};
      return written.Ok?, cut;
    }

    /** Pass the buffer on. A failure may have written part of it and keeps all of it, so that
     *  the part comes twice in what is still to be published. */
    method PassOn() returns (ok: bool, ghost cut: Option<nat>)
      requires Attached() && !raw.closed
      modifies this`buffer, this`surplus, raw, fs
      ensures Attached() && !raw.closed && fs.faults >= old(fs.faults)
      ensures View() == Flushed(old(View()), Bounds(), cut).0 && ok == Flushed(old(View()), Bounds(), cut).1
      ensures ok <==> fs.faults == old(fs.faults) && (old(buffer) == [] || |old(Stream())| <= raw.maxBytes)
      ensures ok ==> buffer == [] && raw.digested == old(Stream()) && surplus == old(surplus)
      ensures OnlyStreams(old(fs.state), fs.state, raw.descriptor, inode)
      ensures Quiet(fs, old(fs.state), inode, old(fs.seen))
    {
      if buffer == [] {
        return true, None;
      }
      ghost var before := raw.digested;
      ok, cut := Send(buffer);
      if ok {
        buffer := [];
      } else {
        surplus := surplus + |raw.digested| - |before|;
      }
    }

    /** `writer.flush()` */
    method FlushBuffer() returns (ok: bool)
      requires Valid()
      modifies this`buffer, this`surplus, this`calls, raw, fs
      ensures Valid() && raw.closed == old(raw.closed) && fs.faults >= old(fs.faults)
      ensures ok <==>
        && !raw.closed && fs.faults == old(fs.faults)
        && (old(buffer) == [] || |old(Stream())| <= raw.maxBytes)
      ensures ok ==> buffer == [] && raw.digested == old(Stream()) && surplus == old(surplus)
      ensures raw.closed ==> View() == old(View()) && calls == old(calls)
      ensures !raw.closed ==> exists cut ::
        calls == old(calls) + [Flush(cut)] && ok == Flushed(old(View()), Bounds(), cut).1
      ensures OnlyStreams(old(fs.state), fs.state, raw.descriptor, inode)
      ensures Quiet(fs, old(fs.state), inode, old(fs.seen))
    {
      if raw.closed {
        return false;
      }
      ghost var cut;
      ok, cut := PassOn();
      WriterRunGrows(calls, Flush(cut), Bounds());
      calls := calls + [Flush(cut)];
    }

    /** Take a value into the empty buffer, or send one that is too long for it past it. */
    method Offer(value: Bytes) returns (ok: bool, ghost cut: Option<nat>)
      requires Attached() && !raw.closed && buffer == []
      modifies this`buffer, this`accepted, this`surplus, raw, fs
      ensures Attached() && !raw.closed && fs.faults >= old(fs.faults)
      ensures View() == Offered(old(View()), value, Bounds(), cut).0
      ensures ok == Offered(old(View()), value, Bounds(), cut).1
      ensures ok <==>
        fs.faults == old(fs.faults) && (|value| <= bufferSize || |old(Stream())| + |value| <= raw.maxBytes)
      ensures ok ==> accepted == old(accepted) + value && Stream() == old(Stream()) + value && surplus == old(surplus)
      ensures !ok ==> accepted == old(accepted)
      ensures OnlyStreams(old(fs.state), fs.state, raw.descriptor, inode)
      ensures Quiet(fs, old(fs.state), inode, old(fs.seen))
    {
      ghost var before := raw.digested;
      ok, cut := true, None;
      if |value| <= bufferSize {
        buffer := value;
      } else {
        ok, cut := Send(value);
        assert raw.digested + [] == raw.digested;
      }
      if ok {
        accepted := accepted + value;
      } else {
        surplus := surplus + |raw.digested| - |before|;
      }
    }

    /** A value that does not fit the buffer. */
    method WritePast(value: Bytes) returns (ok: bool, ghost flushCut: Option<nat>, ghost valueCut: Option<nat>)
      requires Attached() && !raw.closed && |buffer| + |value| > bufferSize
      modifies this`buffer, this`accepted, this`surplus, raw, fs
      ensures Attached() && !raw.closed && fs.faults >= old(fs.faults)
      ensures View() == Written(old(View()), value, Bounds(), flushCut, valueCut).0
      ensures ok == Written(old(View()), value, Bounds(), flushCut, valueCut).1
      ensures ok <==>
        && fs.faults == old(fs.faults) && (old(buffer) == [] || |old(Stream())| <= raw.maxBytes)
        && (|value| <= bufferSize || |old(Stream())| + |value| <= raw.maxBytes)
      ensures ok ==> accepted == old(accepted) + value && Stream() == old(Stream()) + value && surplus == old(surplus)
      ensures !ok ==> accepted == old(accepted)
      ensures OnlyStreams(old(fs.state), fs.state, raw.descriptor, inode)
      ensures Quiet(fs, old(fs.state), inode, old(fs.seen))
    {
      ghost var start := fs.state;
      valueCut := None;
      ok, flushCut := PassOn();
      ghost var middle, between := fs.state, fs.seen;
      if ok {
        assert Stream() == old(Stream());
        ok, valueCut := Offer(value);
        StreamsTwice(start, middle, fs.state, raw.descriptor, inode);
        QuietTwice(fs, start, middle, raw.descriptor, inode, old(fs.seen), between);
      }
    }

    /** `writer.write(value)`: buffer a value that fits; otherwise pass the buffer on first, and
     *  a value longer than the buffer after it. Nothing of a refused value is accepted, whatever
     *  of it is in the file. */
    method Write(value: Bytes) returns (ok: bool)
      requires Valid()
      modifies this`buffer, this`accepted, this`surplus, this`calls, raw, fs
      ensures Valid() && raw.closed == old(raw.closed) && fs.faults >= old(fs.faults)
      ensures ok <==>
        && !raw.closed && fs.faults == old(fs.faults)
        && (|| |old(buffer)| + |value| <= bufferSize
            || (&& (old(buffer) == [] || |old(Stream())| <= raw.maxBytes)
                && (|value| <= bufferSize || |old(Stream())| + |value| <= raw.maxBytes)))
      ensures ok ==> accepted == old(accepted) + value && Stream() == old(Stream()) + value && surplus == old(surplus)
      ensures !ok ==> accepted == old(accepted)
      ensures raw.closed ==> View() == old(View()) && calls == old(calls)
      ensures !raw.closed ==> exists flushCut, valueCut ::
        && calls == old(calls) + [WriterCall.Write(value, flushCut, valueCut)]
        && ok == Written(old(View()), value, Bounds(), flushCut, valueCut).1
      ensures OnlyStreams(old(fs.state), fs.state, raw.descriptor, inode)
      ensures Quiet(fs, old(fs.state), inode, old(fs.seen))
    {
      if raw.closed {
        return false;
      }
      ghost var flushCut: Option<nat>, valueCut: Option<nat> := None, None;
      if |buffer| + |value| <= bufferSize {
        assert raw.digested + (buffer + value) == raw.digested + buffer + value;
        buffer, accepted, ok := buffer + value, accepted + value, true;
      } else {
        ok, flushCut, valueCut := WritePast(value);
      }
      WriterRunGrows(calls, WriterCall.Write(value, flushCut, valueCut), Bounds());
      calls := calls + [WriterCall.Write(value, flushCut, valueCut)];
      assert ok == Written(old(View()), value, Bounds(), flushCut, valueCut).1;
    }

    /** `writer.close()`: the buffer gets a last chance, and the raw writer is closed anyway. */
    method CloseWriter()
      requires Valid()
      modifies this`buffer, this`surplus, this`calls, raw, fs
      ensures Valid() && raw.closed && fs.faults >= old(fs.faults)
      ensures OnlyStreams(old(fs.state), fs.state, raw.descriptor, inode)
      ensures Quiet(fs, old(fs.state), inode, old(fs.seen))
      ensures old(raw.closed) ==>
        && fs.seen == old(fs.seen) && fs.state == old(fs.state) && fs.faults == old(fs.faults)
        && fs.evidence == old(fs.evidence)
      ensures !old(raw.closed) && |old(Stream())| <= raw.maxBytes && fs.faults == old(fs.faults) ==>
        raw.digested == old(Stream()) && BytesSynced(inode, old(Stream())) in fs.evidence
    {
      if raw.closed {
        return;
      }
      var flushed := FlushBuffer();
      var synced := raw.Flush();
      raw.Close();
    }

    /** Flush and close the writer: everything accepted is in the file, and on the disk. */
    method Seal() returns (ok: bool)
      requires Valid()
      modifies this`buffer, this`surplus, this`calls, raw, fs
      ensures Valid() && fs.faults >= old(fs.faults)
      ensures ok <==> !old(raw.closed) && |old(Stream())| <= raw.maxBytes && fs.faults == old(fs.faults)
      ensures ok ==> raw.closed && buffer == [] && raw.digested == old(Stream()) && surplus == old(surplus)
      ensures ok ==> BytesSynced(inode, old(Stream())) in fs.evidence
      ensures OnlyStreams(old(fs.state), fs.state, raw.descriptor, inode)
      ensures Quiet(fs, old(fs.state), inode, old(fs.seen))
    {
      var flushed := FlushBuffer();
      if !flushed {
        return false;
      }
      var synced := raw.Flush();
      raw.Close();
      return synced.Ok?;
    }

    /** Close what is still open; an unfinished writer may get its buffer out on the way. */
    method CloseDescriptors()
      requires Valid()
      modifies this`buffer, this`surplus, this`calls, this`closed, raw, fs
      ensures Valid() && closed && fs.faults >= old(fs.faults)
      ensures fs.state.entries == old(fs.state.entries)
      ensures inode in fs.state.files && fs.state.files == old(fs.state.files)[inode := fs.state.files[inode]]
      ensures Quiet(fs, old(fs.state), inode, old(fs.seen))
      ensures old(raw.closed) ==>
        && fs.seen == old(fs.seen) && fs.state.files == old(fs.state.files) && fs.faults == old(fs.faults)
        && fs.evidence == old(fs.evidence)
    {
      if closed {
        return;
      }
      ghost var start := fs.state;
      CloseWriter();
      assert artifact in fs.state.table - {raw.descriptor};
      closed := true;
      fs.Close(artifact);
      fs.Close(parent);
    }

    function Candidates(renamed: bool): seq<Name> {
      if renamed then [name, partialName] else [partialName, name]
    }

    /** `_visible_owned_path`: a name under which the file can still be found, the likelier one
     *  first. */
    method VisibleOwned(renamed: bool) returns (found: Option<Name>)
      requires Valid() && !closed
      modifies fs
      ensures Valid() && fs.seen == old(fs.seen) && fs.faults >= old(fs.faults)
      ensures fs.state == old(fs.state).(unused := fs.state.unused) && old(fs.evidence) <= fs.evidence
      ensures found.Some? ==> found.value in {name, partialName} && Named(fs.state, found.value, inode)
      ensures fs.faults == old(fs.faults) ==>
        found == if !renamed && Named(fs.state, partialName, inode) then Some(partialName)
                 else if Named(fs.state, name, inode) then Some(name)
                 else if renamed && Named(fs.state, partialName, inode) then Some(partialName) else None
      ensures fs.faults == old(fs.faults) ==> found == FirstNamed(fs.state, Candidates(renamed), inode)
    {
      ghost var start := fs.state;
      var again := fs.OpenParent();
      if again.Err? {
        return None;
      }
      var same := SameFile(fs, parent, again.value);
      found := None;
      if same.Ok? && same.value {
        found := FindNamed(fs, again.value, Candidates(renamed), inode);
        FirstNamedFrame(start, fs.state, Candidates(renamed), inode);
      }
      fs.Close(again.value);
      assert fs.state.table == start.table;
      FirstNamedFrame(start, fs.state, Candidates(renamed), inode);
    }

    /** What the name shows, at every moment, is what it showed before or the whole stream. */
    ghost predicate NeverPartial(start: State, seen: seq<Option<Bytes>>, stream: Bytes)
      requires start.WellFormed()
      reads fs
    {
      fs.watched == name && !Named(start, name, inode) ==> OnlyAdds(seen, fs.seen, {start.Shown(name), Some(stream)})
    }

    /** What a finalization needs, apart from calls that succeed. */
    ghost predicate Publishable()
      requires fs.Valid()
      reads this, raw, fs
    {
      && !closed && !raw.closed && 0 < |Stream()| <= raw.maxBytes
      && name !in fs.state.entries && Named(fs.state, partialName, inode) && |fs.state.NamesOf(inode)| == 1
    }

    /** The bytes and the entry are on disk, and everything was checked on the way. */
    ghost predicate Secured(stream: Bytes)
      reads fs
    {
      BytesSynced(inode, stream) in fs.evidence && PublicationSecured(fs.evidence, parent, partialName, name, inode)
    }

    /** The try block of `finalize`. */
    method SealAndPublish(sha: Hash) returns (ok: bool, renamed: bool, size: nat, digest: Digest)
      requires Valid() && !closed
      modifies this`buffer, this`surplus, this`calls, raw, fs
      ensures Valid() && fs.faults >= old(fs.faults)
      ensures renamed ==>
        && old(Publishable()) && raw.closed
        && fs.state.entries == old(fs.state.entries - {partialName})[name := inode]
        && fs.state.files[inode] == old(Stream())
      ensures !renamed ==> fs.state.entries == old(fs.state.entries)
      ensures inode in fs.state.files && fs.state.files == old(fs.state.files)[inode := fs.state.files[inode]]
      ensures ok <==> old(Publishable()) && fs.faults == old(fs.faults)
      ensures ok ==> renamed && surplus == old(surplus) && size == |old(Stream())| && digest == sha(old(Stream()))
      ensures ok ==> Secured(old(Stream()))
      ensures NeverPartial(old(fs.state), old(fs.seen), old(Stream()))
    {
      ghost var start := fs.state;
      renamed, size, digest := false, 0, "";
      ok := Seal();
      if !ok {
        return;
      }
      size := raw.byteCount;
      digest := raw.Sha256(sha);
      if size == 0 || size > raw.maxBytes {
        return false, false, size, digest;
      }
      ghost var sealed := fs.state;
      assert artifact in fs.state.table - {raw.descriptor};
      assert start.NamesOf(inode) == sealed.NamesOf(inode);
      ok, renamed := PublishSealed(fs, parent, partialName, name, artifact, size, digest, sha);
    }

    /** Record where the bytes were kept, then close everything. */
    method RetainAndClose(renamed: bool)
      requires Valid() && !closed && (renamed ==> raw.closed)
      modifies this, raw, fs
      ensures Valid() && closed && accepted == old(accepted) && fs.faults >= old(fs.faults)
      ensures fs.state.entries == old(fs.state.entries)
      ensures inode in fs.state.files && fs.state.files == old(fs.state.files)[inode := fs.state.files[inode]]
      ensures Quiet(fs, old(fs.state), inode, old(fs.seen))
      ensures renamed ==> fs.seen == old(fs.seen) && fs.state.files == old(fs.state.files)
      ensures old(raw.closed) ==> fs.state.files == old(fs.state.files) && old(fs.evidence) <= fs.evidence
      ensures retained.Some? ==> retained.value in {name, partialName} && Named(fs.state, retained.value, inode)
      ensures fs.faults == old(fs.faults) ==> retained == FirstNamed(old(fs.state), Candidates(renamed), inode)
    {
      ghost var start := fs.state;
      retained := VisibleOwned(renamed);
      FirstNamedFrame(start, fs.state, Candidates(renamed), inode);
      CloseDescriptors();
    }

    lemma QuietIsNeverPartial(start: State, before: State, seen: seq<Option<Bytes>>, middle: seq<Option<Bytes>>,
                              stream: Bytes)
      requires start.WellFormed() && before.WellFormed() && before.entries == start.entries
      requires inode in before.files && before.files == start.files[inode := before.files[inode]]
      requires fs.watched == name && !Named(start, name, inode)
      requires OnlyAdds(seen, middle, {start.Shown(name), Some(stream)}) && Quiet(fs, before, inode, middle)
      ensures OnlyAdds(seen, fs.seen, {start.Shown(name), Some(stream)})
    {
      assert before.Shown(name) == start.Shown(name);
      OnlyAddsComposes(seen, middle, fs.seen, {start.Shown(name), Some(stream)});
    }

    /** What would be published holds what was accepted, in order; it is what was accepted exactly
     *  if no raw write failed after its first byte, and the number of bytes tells. */
    lemma StreamIsAcceptedIff()
      requires Valid()
      ensures |Stream()| == |accepted| + surplus && Subsequence(accepted, Stream())
      ensures Stream() == accepted <==> surplus == 0
      ensures Stream() == accepted <==> !SomeCallCutInside(calls, Bounds())
    {
      StreamHoldsAccepted(calls, Bounds());
      StreamDiffersIff(calls, Bounds());
    }

    /** `finalize`, of an artifact that is not closed. */
    method PublishAndClose(sha: Hash) returns (r: Result<Published, ArtifactError>)
      requires Valid() && !closed
      modifies this, raw, fs
      ensures Valid() && closed && accepted == old(accepted)
      ensures r.Ok? <==> old(Publishable()) && fs.faults == old(fs.faults)
      ensures r.Ok? ==>
        && fs.state.entries == old(fs.state.entries - {partialName})[name := inode]
        && fs.state.files == old(fs.state.files)[inode := old(Stream())]
        && r.value == Published(name, sha(old(Stream())), |old(Stream())|)
        && Secured(old(Stream()))
      ensures r.Err? ==>
        || fs.state.entries == old(fs.state.entries)
        || (name !in old(fs.state.entries)
              && fs.state.entries == old(fs.state.entries - {partialName})[name := inode]
              && fs.state.files[inode] == old(Stream()))
      ensures inode in fs.state.files && fs.state.files == old(fs.state.files)[inode := fs.state.files[inode]]
      ensures r.Err? && retained.Some? ==>
        retained.value in {name, partialName} && Named(fs.state, retained.value, inode)
      ensures r.Err? && fs.faults == old(fs.faults) && Named(old(fs.state), partialName, inode) ==>
        retained == Some(partialName)
      ensures NeverPartial(old(fs.state), old(fs.seen), old(Stream()))
    {
      ghost var start, seen, stream := fs.state, fs.seen, Stream();
      var ok, renamed, size, digest := SealAndPublish(sha);
      if ok {
        r := Ok(Published(name, digest, size));
        CloseDescriptors();
      } else {
        ghost var before, middle := fs.state, fs.seen;
        RetainAndClose(renamed);
        if !renamed && fs.watched == name && !Named(start, name, inode) {
          QuietIsNeverPartial(start, before, seen, middle, stream);
        }
        r := Err(Failed);
      }
    }

    method Finalize(sha: Hash) returns (r: Result<Published, ArtifactError>)
      requires Valid()
      modifies this, raw, fs
      ensures Valid() && closed && accepted == old(accepted)
      ensures r.Ok? <==> old(Publishable()) && fs.faults == old(fs.faults)
      ensures r.Ok? ==>
        && fs.state.entries == old(fs.state.entries - {partialName})[name := inode]
        && fs.state.files == old(fs.state.files)[inode := old(Stream())]
        && r.value == Published(name, sha(old(Stream())), |old(Stream())|)
        && Secured(old(Stream()))
        && r.value.size == |old(accepted)| + old(surplus)
        && Subsequence(old(accepted), old(Stream()))
        && (old(Stream()) == old(accepted) <==> old(surplus) == 0)
        && (old(Stream()) == old(accepted) <==> !SomeCallCutInside(old(calls), Bounds()))
      ensures r.Err? ==>
        || fs.state.entries == old(fs.state.entries)
        || (name !in old(fs.state.entries)
              && fs.state.entries == old(fs.state.entries - {partialName})[name := inode]
              && fs.state.files[inode] == old(Stream()))
      ensures inode in fs.state.files && fs.state.files == old(fs.state.files)[inode := fs.state.files[inode]]
      ensures r.Err? && !old(closed) && retained.Some? ==>
        retained.value in {name, partialName} && Named(fs.state, retained.value, inode)
      ensures r.Err? && !old(closed) && fs.faults == old(fs.faults) && Named(old(fs.state), partialName, inode) ==>
        retained == Some(partialName)
      ensures NeverPartial(old(fs.state), old(fs.seen), old(Stream()))
    {
      if closed {
        return Err(AlreadyClosed);
      }
      StreamIsAcceptedIff();
      r := PublishAndClose(sha);
    }

    /** Give up: keep the bytes, report where they can be found. */
    method Abort() returns (found: Option<Name>)
      requires Valid()
      modifies this, raw, fs
      ensures Valid() && closed && found == retained
      ensures old(closed) ==> found == old(retained) && fs.state == old(fs.state)
      ensures fs.state.entries == old(fs.state.entries)
      ensures inode in fs.state.files && fs.state.files == old(fs.state.files)[inode := fs.state.files[inode]]
      ensures !old(closed) && found.Some? ==> found.value in {name, partialName} && Named(fs.state, found.value, inode)
      ensures !old(closed) && !old(raw.closed) && |old(Stream())| <= raw.maxBytes && fs.faults == old(fs.faults) ==>
        fs.state.files[inode] == old(Stream()) && BytesSynced(inode, old(Stream())) in fs.evidence
      ensures !old(closed) && fs.faults == old(fs.faults) ==>
        found == FirstNamed(old(fs.state), [partialName, name], inode)
    {
      if closed {
        return retained;
      }
      ghost var start := fs.state;
      CloseWriter();
      FirstNamedFrame(start, fs.state, [partialName, name], inode);
      RetainAndClose(false);
      return retained;
    }
  }
}
