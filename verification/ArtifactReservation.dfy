/** Reserving an output name with a provisional JSON receipt and later exchanging the final
 *  JSON into it. */
module ArtifactReservation {
  import opened Wrappers
  import opened FileSystem
  import opened DescriptorIO

  const FINAL_SUFFIX := ".final"

  function RecoveryName(name: Name): (recovery: Name)
    ensures recovery != name
  {
    var recovery := "." + name + ".in-progress-recovery";
    assert |recovery| > |name|;
    recovery
  }

  // ----- The stages of a finalization --------------------------------------------------

  /** A pending entry: its name, its descriptor and the inode it was created with. */
  datatype Pending = Pending(name: Name, descriptor: Descriptor, inode: Inode)

  /** The file behind d was restricted to its owner, synced with these bytes, and then digested
   *  under all of its names. */
  ghost predicate Prepared(evidence: set<Evidence>, s: State, d: Descriptor, encoded: Bytes)
    requires s.IsFile(d)
  {
    var i := s.table[d].inode;
    && Restricted(i) in evidence && BytesSynced(i, encoded) in evidence
    && forall n :: n in s.NamesOf(i) ==> Digested(i, n) in evidence
  }

  /** Capture the inode of a freshly created file, fill it and digest it. */
  method FillPending(fs: Directory, d: Descriptor, encoded: Bytes, sha: Hash)
    returns (ok: bool, captured: Option<Inode>)
    requires fs.Valid() && fs.state.IsFile(d)
    modifies fs
    ensures fs.Valid() && OnlyTouches(old(fs.state), fs.state, d) && fs.faults >= old(fs.faults)
    ensures captured.Some? ==> captured.value == fs.state.table[d].inode
    ensures captured.None? ==> !ok && fs.state == old(fs.state)
    ensures ok <==> fs.faults == old(fs.faults)
    ensures ok ==> BytesAt(fs.state, d) == encoded
    ensures Unseen(fs, old(fs.state), d, old(fs.seen))
    ensures old(fs.evidence) <= fs.evidence
    ensures ok ==> Prepared(fs.evidence, fs.state, d, encoded)
  {
    ghost var start := fs.state;
    WithSameBytes(start, d);
    var created := fs.FStat(d);
    if created.Err? {
      return false, None;
    }
    captured := Some(created.value.inode);
    var chmod := fs.Restrict(d);
    if chmod.Err? {
      return false, captured;
    }
    var written := WriteDescriptorBytes(fs, d, encoded);
    if written.Err? {
      return false, captured;
    }
    ghost var filled := fs.state;
    var digest := DescriptorSha256(fs, d, |encoded|, sha);
    WithBytesTwice(start, d, encoded, filled.table[d].offset, encoded, fs.state.table[d].offset);
    return digest.Ok? && digest.value == sha(encoded), captured;
  }

  /** `name` is the file with inode `first` and `other` the one with inode `second`. */
  ghost predicate Identities(s: State, name: Name, first: Inode, other: Name, second: Inode) {
    name in s.entries && s.entries[name] == first && other in s.entries && s.entries[other] == second
  }

  /** Two stats and their identity checks. */
  method CheckIdentities(fs: Directory, parent: Descriptor, name: Name, first: Inode, other: Name, second: Inode)
    returns (ok: bool)
    requires fs.Valid() && fs.state.IsDirectory(parent)
    modifies fs
    ensures fs.Valid() && fs.state == old(fs.state) && fs.seen == old(fs.seen) && fs.faults >= old(fs.faults)
    ensures ok <==> fs.faults == old(fs.faults) && Identities(fs.state, name, first, other, second)
    ensures old(fs.evidence) <= fs.evidence
    ensures ok ==> Looked(parent, name, first) in fs.evidence && Looked(parent, other, second) in fs.evidence
  {
    var one := fs.StatEntry(parent, name);
    if one.Err? {
      return false;
    }
    var two := fs.StatEntry(parent, other);
    if two.Err? {
      return false;
    }
    return one.value.inode == first && two.value.inode == second;
  }

  /** Exchange the pending entry with the reserved one, if both still are what they were. */
  method SwapIn(fs: Directory, parent: Descriptor, name: Name, reserved: Inode, p: Pending) returns (ok: bool)
    requires fs.Valid() && fs.state.IsDirectory(parent)
    modifies fs
    ensures fs.Valid() && fs.faults >= old(fs.faults)
    ensures ok <==> fs.faults == old(fs.faults) && Identities(old(fs.state), name, reserved, p.name, p.inode)
    ensures ok ==>
      fs.state == old(fs.state).Exchanged(name, p.name) && fs.seen == old(fs.seen) + [fs.state.Shown(fs.watched)]
    ensures !ok ==> fs.state == old(fs.state) && fs.seen == old(fs.seen)
    ensures old(fs.evidence) <= fs.evidence
    ensures ok ==> Looked(parent, name, reserved) in fs.evidence && Looked(parent, p.name, p.inode) in fs.evidence
  {
    var intact := CheckIdentities(fs, parent, name, reserved, p.name, p.inode);
    if !intact {
      return false;
    }
    var exchanged := fs.Exchange(parent, name, p.name);
    return exchanged.Ok?;
  }

  /** What the checks after the exchange look at. */
  ghost predicate SwapVisible(s: State, name: Name, reserved: Inode, p: Pending, encoded: Bytes, sha: Hash)
    requires s.WellFormed() && s.IsFile(p.descriptor)
  {
    && Identities(s, name, p.inode, p.name, reserved)
    && |BytesAt(s, p.descriptor)| == |encoded| && sha(BytesAt(s, p.descriptor)) == sha(encoded)
    && |s.NamesOf(s.table[p.descriptor].inode)| == 1
  }

  /** After the exchange both names were looked up, the directory was synced, the new file was
   *  digested under the name, and the name was looked up through a directory opened anew. */
  ghost predicate Confirmed(evidence: set<Evidence>, parent: Descriptor, name: Name, reserved: Inode, p: Pending) {
    && Looked(parent, name, p.inode) in evidence && Looked(parent, p.name, reserved) in evidence
    && EntrySynced(name, p.inode) in evidence && Digested(p.inode, name) in evidence
    && exists again :: again != parent && LookedAgain(evidence, parent, again, name, p.inode)
  }

  ghost predicate LookedAgain(evidence: set<Evidence>, parent: Descriptor, again: Descriptor, name: Name, i: Inode) {
    Measured(parent) in evidence && Measured(again) in evidence && Looked(again, name, i) in evidence
  }

  method ConfirmSwap(fs: Directory, parent: Descriptor, name: Name, reserved: Inode, p: Pending, encoded: Bytes,
                     sha: Hash)
    returns (ok: bool)
    requires fs.Valid() && fs.state.IsDirectory(parent) && fs.state.IsFile(p.descriptor)
    modifies fs
    ensures fs.Valid() && OnlyReads(old(fs.state), fs.state, p.descriptor)
    ensures fs.seen == old(fs.seen) && fs.faults >= old(fs.faults)
    ensures ok <==> fs.faults == old(fs.faults) && SwapVisible(old(fs.state), name, reserved, p, encoded, sha)
    ensures old(fs.evidence) <= fs.evidence
    ensures ok && fs.state.table[p.descriptor].inode == p.inode ==> Confirmed(fs.evidence, parent, name, reserved, p)
  {
    ghost var start := fs.state;
    WithSameBytes(start, p.descriptor);
    var swapped := CheckIdentities(fs, parent, name, p.inode, p.name, reserved);
    if !swapped {
      return false;
    }
    var synced := fs.Sync(parent);
    if synced.Err? {
      return false;
    }
    var final := fs.FStat(p.descriptor);
    if final.Err? || final.value.size != |encoded| || final.value.links != 1 {
      return false;
    }
    var digest := DescriptorSha256(fs, p.descriptor, |encoded|, sha);
    assert fs.state.files == start.files;
    if digest.Err? || digest.value != sha(encoded) {
      return false;
    }
    ghost var again := fs.state.unused;
    var visible := VisibleAgain(fs, parent, name);
    ok := visible.Ok? && visible.value.inode == p.inode;
    assert ok ==> LookedAgain(fs.evidence, parent, again, name, p.inode);
  }

  // ----- Rollback ------------------------------------------------------------------------

  /** The first half of the cleanup: look at both entries and, if they are exchanged, exchange
   *  them back and look again. None when a call failed. */
  method SwapBack(fs: Directory, parent: Descriptor, name: Name, reserved: Inode, p: Pending)
    returns (found: Option<(Inode, Inode)>)
    requires fs.Valid() && fs.state.IsDirectory(parent)
    modifies fs
    ensures fs.Valid() && fs.faults >= old(fs.faults)
    ensures
      || (fs.state == old(fs.state) && fs.seen == old(fs.seen))
      || (Identities(old(fs.state), name, p.inode, p.name, reserved)
            && fs.state == old(fs.state).Exchanged(name, p.name)
            && fs.seen == old(fs.seen) + [fs.state.Shown(fs.watched)])
    ensures found.Some? ==>
      && Identities(fs.state, name, found.value.0, p.name, found.value.1)
      && (Identities(old(fs.state), name, p.inode, p.name, reserved) ==>
            fs.state == old(fs.state).Exchanged(name, p.name))
    ensures found.None? && fs.faults == old(fs.faults) ==>
      name !in old(fs.state.entries) || p.name !in old(fs.state.entries)
  {
    var finalEntry := fs.StatEntry(parent, name);
    if finalEntry.Err? {
      return None;
    }
    var pendingEntry := fs.StatEntry(parent, p.name);
    if pendingEntry.Err? {
      return None;
    }
    if finalEntry.value.inode == p.inode && pendingEntry.value.inode == reserved {
      var exchanged := fs.Exchange(parent, name, p.name);
      if exchanged.Err? {
        return None;
      }
      finalEntry := fs.StatEntry(parent, name);
      if finalEntry.Err? {
        return None;
      }
      pendingEntry := fs.StatEntry(parent, p.name);
      if pendingEntry.Err? {
        return None;
      }
    }
    return Some((finalEntry.value.inode, pendingEntry.value.inode));
  }

  /** The second half: remove a pending entry that holds the unused file, and move one that
   *  holds the receipt to the recovery name. */
  method Retire(fs: Directory, parent: Descriptor, name: Name, reserved: Inode, p: Pending, atName: Inode,
                atPending: Inode)
    requires fs.Valid() && fs.state.IsDirectory(parent) && name != p.name
    requires Identities(fs.state, name, atName, p.name, atPending)
    modifies fs
    ensures fs.Valid() && fs.state == old(fs.state).(entries := fs.state.entries) && fs.faults >= old(fs.faults)
    ensures fs.faults == old(fs.faults) ==>
      fs.state.entries == Retired(old(fs.state.entries), name, reserved, p)
    ensures
      fs.state.entries == old(fs.state.entries)
      || fs.state.entries == Retired(old(fs.state.entries), name, reserved, p)
    ensures forall n :: n in old(fs.state.entries) && n != p.name ==>
      n in fs.state.entries && fs.state.entries[n] == old(fs.state.entries[n])
    ensures fs.watched == name ==> OnlyAdds(old(fs.seen), fs.seen, {old(fs.state.Shown(name))})
  {
    if atName == reserved && atPending == p.inode {
      var _ := fs.Unlink(parent, p.name);
    } else if atPending == reserved {
      var _ := fs.RenameNoReplace(parent, p.name, RecoveryName(name));
    }
  }

  function Retired(entries: map<Name, Inode>, name: Name, reserved: Inode, p: Pending): map<Name, Inode>
    requires name in entries && p.name in entries
  {
    if entries[name] == reserved && entries[p.name] == p.inode then entries - {p.name}
    else if entries[p.name] == reserved && RecoveryName(name) !in entries
      then (entries - {p.name})[RecoveryName(name) := reserved]
    else entries
  }

  /** The entries after a rollback none of whose calls fails. */
  function RolledBack(entries: map<Name, Inode>, name: Name, reserved: Inode, p: Pending): map<Name, Inode> {
    if name !in entries || p.name !in entries then entries
    else if entries[name] == p.inode && entries[p.name] == reserved then
      Retired(entries[name := reserved][p.name := p.inode], name, reserved, p)
    else
      Retired(entries, name, reserved, p)
  }

  /** The cleanup clause of `finalize`. */
  method Rollback(fs: Directory, parent: Descriptor, name: Name, reserved: Inode, p: Pending)
    requires fs.Valid() && fs.state.IsDirectory(parent) && name != p.name && reserved in fs.state.files
    modifies fs
    ensures fs.Valid() && fs.state == old(fs.state).(entries := fs.state.entries) && fs.faults >= old(fs.faults)
    ensures fs.faults == old(fs.faults) ==> fs.state.entries == RolledBack(old(fs.state.entries), name, reserved, p)
    ensures
      || fs.state.entries == RolledBack(old(fs.state.entries), name, reserved, p)
      || fs.state.entries == old(fs.state.entries)
      || (Identities(old(fs.state), name, p.inode, p.name, reserved)
            && fs.state.entries == old(fs.state).Exchanged(name, p.name).entries)
    ensures forall n :: n in old(fs.state.entries) && n != name && n != p.name ==>
      n in fs.state.entries && fs.state.entries[n] == old(fs.state.entries[n])
    ensures fs.state.Shown(name) == old(fs.state.Shown(name)) || fs.state.Shown(name) == Some(fs.state.files[reserved])
    ensures fs.watched == name ==>
      OnlyAdds(old(fs.seen), fs.seen, {old(fs.state.Shown(name)), Some(fs.state.files[reserved])})
  {
    var found := SwapBack(fs, parent, name, reserved, p);
    if found.Some? {
      Retire(fs, parent, name, reserved, p, found.value.0, found.value.1);
    }
  }

  // ----- The finalization as a whole -------------------------------------------------------

  /** Since s0 the entry p was created and filled with `bytes`; it has been exchanged with the
   *  entry at `name` or not. */
  ghost predicate Staged(s0: State, s: State, name: Name, p: Pending, bytes: Bytes, swapped: bool) {
    && s0.WellFormed() && s.WellFormed()
    && name in s0.entries && p.name !in s0.entries && p.inode == p.descriptor == s0.unused
    && s.files == s0.files[p.inode := bytes]
    && s.table == s0.table[p.descriptor := FileHandle(p.inode, s.TableOffset(p.descriptor))]
    && s.entries ==
       if swapped then s0.entries[p.name := s0.entries[name]][name := p.inode]
       else s0.entries[p.name := p.inode]
  }

  /** The new file took the reserved name and nothing else remains of the exchange. */
  ghost predicate Installed(s0: State, s: State, name: Name, p: Pending, encoded: Bytes) {
    && s0.WellFormed() && s.WellFormed()
    && name in s0.entries && p.inode == p.descriptor == s0.unused
    && s.files == s0.files[p.inode := encoded]
    && s.table == s0.table[p.descriptor := FileHandle(p.inode, s.TableOffset(p.descriptor))]
    && s.entries == s0.entries[name := p.inode]
  }

  lemma StagedAfterCreate(s0: State, s: State, name: Name, p: Pending)
    requires s0.WellFormed() && name in s0.entries && p.name !in s0.entries
    requires p.inode == p.descriptor == s0.unused && s == s0.Created(p.name)
    ensures Staged(s0, s, name, p, [], false)
  {
  }

  lemma StagedAfterTouch(s0: State, s: State, t: State, name: Name, p: Pending, bytes: Bytes)
    requires Staged(s0, s, name, p, bytes, false) && t.WellFormed() && OnlyTouches(s, t, p.descriptor)
    ensures Staged(s0, t, name, p, BytesAt(t, p.descriptor), false)
  {
  }

  lemma StagedAfterRead(s0: State, s: State, t: State, name: Name, p: Pending, bytes: Bytes, swapped: bool)
    requires Staged(s0, s, name, p, bytes, swapped) && t.WellFormed() && OnlyReads(s, t, p.descriptor)
    ensures Staged(s0, t, name, p, bytes, swapped)
  {
  }

  lemma StagedAfterSwap(s0: State, s: State, t: State, name: Name, p: Pending, bytes: Bytes)
    requires Staged(s0, s, name, p, bytes, false) && t.WellFormed() && name != p.name && t == s.Exchanged(name, p.name)
    ensures Staged(s0, t, name, p, bytes, true)
  {
  }

  /** The new file is linked once, under the reserved name. */
  lemma SwappedLinksOnce(s0: State, s: State, name: Name, p: Pending, bytes: Bytes)
    requires Staged(s0, s, name, p, bytes, true) && name != p.name
    ensures s.NamesOf(p.inode) == {name} && Identities(s, name, p.inode, p.name, s0.entries[name])
  {
  }

  lemma InstalledAfterUnlink(s0: State, s: State, t: State, name: Name, p: Pending, bytes: Bytes)
    requires Staged(s0, s, name, p, bytes, true) && t.WellFormed() && name != p.name && t == s.Unlinked(p.name)
    ensures Installed(s0, t, name, p, bytes)
  {
  }

  /** Undoing an exchange or a mere creation leads back to the entries of the start. */
  lemma RollbackRestores(s0: State, s: State, name: Name, p: Pending, bytes: Bytes, swapped: bool)
    requires Staged(s0, s, name, p, bytes, swapped) && name != p.name
    ensures RolledBack(s.entries, name, s0.entries[name], p) == s0.entries
  {
  }

  /** Whatever an observer of `name` is shown from `seen` on is one of two complete files. */
  ghost predicate ShowsOnly(fs: Directory, name: Name, seen: seq<Option<Bytes>>, provisional: Option<Bytes>,
                            encoded: Bytes)
    reads fs
  {
    fs.watched == name ==> OnlyAdds(seen, fs.seen, {provisional, Some(encoded)})
  }

  /** Work on a staged file shows the observer of `name` nothing but the provisional receipt. */
  lemma StagingStaysHidden(s0: State, s: State, name: Name, p: Pending, bytes: Bytes)
    requires Staged(s0, s, name, p, bytes, false) && name != p.name
    ensures s.Shown(name) == s0.Shown(name) && Elsewhere(s, p.descriptor, name)
  {
  }

  lemma OnlyAddsMore<T>(a: seq<T>, b: seq<T>, x: T, y: T)
    requires OnlyAdds(a + [x], b, {x})
    ensures OnlyAdds(a, b, {x, y})
  {
    assert (a + [x])[..|a|] == a;
    assert b[..|a|] == b[..|a| + 1][..|a|];
    forall k | |a| <= k < |b| ensures b[k] == x {
      if k == |a| {
        assert b[k] == b[..|a| + 1][k];
      }
    }
  }

  /** The pending name is the first free one of a hundred. */
  ghost predicate HasPendingName(s: State, name: Name, tokens: seq<string>, pending: Name) {
    exists k :: 0 <= k < 100 && IsFirstFree(s, name, tokens, ".final", k, pending)
  }

  /** Create a pending entry and fill it. */
  method StagePending(fs: Directory, parent: Descriptor, name: Name, encoded: Bytes, tokens: seq<string>, sha: Hash)
    returns (ok: bool, entry: Option<Pending>, captured: bool, ghost bytes: Bytes)
    requires fs.Valid() && fs.state.IsDirectory(parent) && |tokens| == 100 && name in fs.state.entries
    modifies fs
    ensures entry.Some? ==> HasPendingName(old(fs.state), name, tokens, entry.value.name)
    ensures fs.Valid() && fs.faults >= old(fs.faults)
    ensures entry.None? ==> !ok && fs.state == old(fs.state)
    ensures entry.Some? ==> Staged(old(fs.state), fs.state, name, entry.value, bytes, false)
    ensures ok ==> entry.Some? && captured && bytes == encoded
    ensures ok ==> Prepared(fs.evidence, fs.state, entry.value.descriptor, encoded)
    ensures entry.Some? && !captured ==> bytes == []
    ensures entry.Some? ==> !AllTaken(old(fs.state), name, tokens, FINAL_SUFFIX)
    ensures ok <==> fs.faults == old(fs.faults) && !AllTaken(old(fs.state), name, tokens, FINAL_SUFFIX)
    ensures ShowsOnly(fs, name, old(fs.seen), old(fs.state.Shown(name)), encoded)
  {
    ghost var s0 := fs.state;
    var hidden := AllocateHidden(fs, parent, name, tokens, FINAL_SUFFIX);
    if hidden.Err? {
      return false, None, false, [];
    }
    var p := Pending(hidden.value.0, hidden.value.1, hidden.value.1);
    ghost var created := fs.state;
    StagedAfterCreate(s0, created, name, p);
    StagingStaysHidden(s0, created, name, p, []);
    var filled, inode := FillPending(fs, p.descriptor, encoded, sha);
    StagedAfterTouch(s0, created, fs.state, name, p, []);
    assert ShowsOnly(fs, name, old(fs.seen), s0.Shown(name), encoded) by {
      if fs.watched == name {
        OnlyAddsMore(old(fs.seen), fs.seen, s0.Shown(name), Some(encoded));
      }
    }
    return filled, Some(p), inode.Some?, BytesAt(fs.state, p.descriptor);
  }

  /** Everything a successful finalization has made sure of: before the exchange the new file was
   *  complete on disk under the pending name and both names were what they should be, after it
   *  they were exchanged, and the new entry was on disk as well. */
  ghost predicate MadeSure(evidence: set<Evidence>, parent: Descriptor, name: Name, reserved: Inode, p: Pending,
                           encoded: Bytes)
  {
    && Restricted(p.inode) in evidence && BytesSynced(p.inode, encoded) in evidence
    && Digested(p.inode, p.name) in evidence
    && Looked(parent, name, reserved) in evidence && Looked(parent, p.name, p.inode) in evidence
    && Confirmed(evidence, parent, name, reserved, p)
  }

  /** Exchange a filled pending entry into place, confirm it and drop the retired receipt. */
  method CommitPending(fs: Directory, parent: Descriptor, name: Name, reserved: Inode, p: Pending,
                       encoded: Bytes, sha: Hash, ghost s0: State)
    returns (ok: bool, ghost swapped: bool)
    requires fs.Valid() && fs.state.IsDirectory(parent) && Staged(s0, fs.state, name, p, encoded, false)
    requires s0.entries[name] == reserved && Prepared(fs.evidence, fs.state, p.descriptor, encoded)
    modifies fs
    ensures ok ==> MadeSure(fs.evidence, parent, name, reserved, p, encoded)
    ensures fs.Valid() && fs.faults >= old(fs.faults)
    ensures ok ==> Installed(s0, fs.state, name, p, encoded)
    ensures !ok ==> Staged(s0, fs.state, name, p, encoded, swapped)
    ensures ok <==> fs.faults == old(fs.faults)
    ensures ShowsOnly(fs, name, old(fs.seen), s0.Shown(name), encoded)
  {
    ghost var staged, allowed := fs.state, {s0.Shown(name), Some(encoded)};
    var exchangedIn := SwapIn(fs, parent, name, reserved, p);
    if !exchangedIn {
      return false, false;
    }
    StagedAfterSwap(s0, staged, fs.state, name, p, encoded);
    ghost var exchanged, seen := fs.state, fs.seen;
    SwappedLinksOnce(s0, exchanged, name, p, encoded);
    if fs.watched == name {
      OnlyAddsOne(old(fs.seen), old(fs.seen), exchanged.Shown(name), allowed);
    }
    var confirmed := ConfirmSwap(fs, parent, name, reserved, p, encoded, sha);
    StagedAfterRead(s0, exchanged, fs.state, name, p, encoded, true);
    if !confirmed {
      return false, true;
    }
    ghost var before := fs.state;
    var unlinked := fs.Unlink(parent, p.name);
    if unlinked.Err? {
      return false, true;
    }
    InstalledAfterUnlink(s0, before, fs.state, name, p, encoded);
    if fs.watched == name {
      OnlyAddsOne(old(fs.seen), seen, fs.state.Shown(name), allowed);
    }
    return true, true;
  }

  /** Names other than `name`, and all files, are as they were. */
  ghost predicate OthersKept(s0: State, s: State, name: Name) {
    && (forall n :: n in s0.entries && n != name ==> n in s.entries && s.entries[n] == s0.entries[n])
    && (forall i :: i in s0.files ==> i in s.files && s.files[i] == s0.files[i])
  }

  /** The try block of `finalize`, after the JSON was encoded. Either the new file is installed,
   *  or what was created so far is left for the cleanup clause. */
  method Exchange(fs: Directory, parent: Descriptor, name: Name, reserved: Inode, encoded: Bytes,
                  tokens: seq<string>, sha: Hash)
    returns (ok: bool, entry: Option<Pending>, captured: bool, ghost bytes: Bytes, ghost swapped: bool)
    requires fs.Valid() && fs.state.IsDirectory(parent) && |tokens| == 100
    modifies fs
    ensures entry.Some? ==> HasPendingName(old(fs.state), name, tokens, entry.value.name)
    ensures ok ==> entry.Some? && MadeSure(fs.evidence, parent, name, reserved, entry.value, encoded)
    ensures fs.Valid() && fs.faults >= old(fs.faults)
    ensures entry.None? ==> !ok && fs.state == old(fs.state)
    ensures entry.Some? ==> Named(old(fs.state), name, reserved)
    ensures ok ==> entry.Some? && bytes == encoded && Installed(old(fs.state), fs.state, name, entry.value, encoded)
    ensures entry.Some? && !ok ==> Staged(old(fs.state), fs.state, name, entry.value, bytes, swapped)
    ensures swapped ==> captured && bytes == encoded
    ensures entry.Some? && !captured ==> bytes == []
    ensures entry.Some? ==> !AllTaken(old(fs.state), name, tokens, FINAL_SUFFIX)
    ensures ok <==>
      && fs.faults == old(fs.faults)
      && Named(old(fs.state), name, reserved) && !AllTaken(old(fs.state), name, tokens, FINAL_SUFFIX)
    ensures ShowsOnly(fs, name, old(fs.seen), old(fs.state.Shown(name)), encoded)
  {
    ghost var s0 := fs.state;
    ok, entry, captured, bytes, swapped := false, None, false, [], false;
    var visible := fs.StatEntry(parent, name);
    if visible.Err? || visible.value.inode != reserved {
      return;
    }
    ok, entry, captured, bytes := StagePending(fs, parent, name, encoded, tokens, sha);
    if !ok {
      return;
    }
    ghost var seen := fs.seen;
    ok, swapped := CommitPending(fs, parent, name, reserved, entry.value, encoded, sha, s0);
    if fs.watched == name {
      OnlyAddsComposes(old(fs.seen), seen, fs.seen, {s0.Shown(name), Some(encoded)});
    }
  }

  lemma StagedKeepsOthers(s0: State, s: State, t: State, name: Name, p: Pending, bytes: Bytes, swapped: bool)
    requires Staged(s0, s, name, p, bytes, swapped) && t.files == s.files
    requires forall n :: n in s.entries && n != name && n != p.name ==> n in t.entries && t.entries[n] == s.entries[n]
    ensures OthersKept(s0, t, name)
  {
  }

  /** The hidden entry stays, alone or exchanged with the reserved one. */
  ghost predicate LeftBehind(before: map<Name, Inode>, after: map<Name, Inode>, name: Name, hidden: Name, i: Inode) {
    && hidden != name && hidden !in before && name in before
    && (after == before[hidden := i] || after == before[hidden := before[name]][name := i])
  }

  /** The entries a cleanup can leave, whichever of its calls fail. */
  lemma RollbackLeaves(s0: State, s: State, name: Name, p: Pending, bytes: Bytes, swapped: bool,
                       after: map<Name, Inode>)
    requires Staged(s0, s, name, p, bytes, swapped) && name != p.name
    requires
      || after == RolledBack(s.entries, name, s0.entries[name], p)
      || after == s.entries
      || (Identities(s, name, p.inode, p.name, s0.entries[name]) && after == s.Exchanged(name, p.name).entries)
    ensures after == s0.entries || LeftBehind(s0.entries, after, name, p.name, p.inode)
  {
    RollbackRestores(s0, s, name, p, bytes, swapped);
    if after == s.entries {
      if !swapped {
        assert after == s0.entries[p.name := p.inode];
      } else {
        assert after == s0.entries[p.name := s0.entries[name]][name := p.inode];
      }
    } else if after != RolledBack(s.entries, name, s0.entries[name], p) {
      assert after == s0.entries[p.name := p.inode];
    }
  }

  /** The cleanup clause for an entry that was staged but not installed; `clean` says that none
   *  of its calls failed. */
  method CleanUp(fs: Directory, parent: Descriptor, name: Name, reserved: Inode, p: Pending, captured: bool,
                 ghost s0: State, ghost encoded: Bytes, ghost bytes: Bytes, ghost swapped: bool)
    returns (ghost clean: bool)
    requires fs.Valid() && fs.state.IsDirectory(parent) && Staged(s0, fs.state, name, p, bytes, swapped)
    requires s0.entries[name] == reserved && (swapped ==> captured && bytes == encoded)
    modifies fs
    ensures fs.Valid() && fs.faults >= old(fs.faults)
    ensures fs.state.table == s0.table && OthersKept(s0, fs.state, name)
    ensures clean ==> fs.state.Shown(name) == s0.Shown(name) && Named(fs.state, name, reserved)
    ensures !clean ==> fs.faults > old(fs.faults)
    ensures fs.state.files == old(fs.state.files)
    ensures captured && clean ==> fs.state.entries == s0.entries
    ensures !captured ==> clean && fs.state.entries == s0.entries[p.name := p.inode]
    ensures fs.state.entries == s0.entries || LeftBehind(s0.entries, fs.state.entries, name, p.name, p.inode)
    ensures fs.state.Shown(name) == s0.Shown(name) || fs.state.Shown(name) == Some(encoded)
    ensures ShowsOnly(fs, name, old(fs.seen), s0.Shown(name), encoded)
  {
    ghost var staged := fs.state;
    clean := true;
    if captured {
      Rollback(fs, parent, name, reserved, p);
      clean := fs.faults == old(fs.faults);
      RollbackRestores(s0, staged, name, p, bytes, swapped);
    }
    RollbackLeaves(s0, staged, name, p, bytes, swapped, fs.state.entries);
    fs.Close(p.descriptor);
    StagedKeepsOthers(s0, staged, fs.state, name, p, bytes, swapped);
    assert fs.state.table == s0.table;
  }

  /** What a failed finalization leaves besides the entries of the start: nothing, or one hidden
   *  entry for the new file. After a clean cleanup that entry holds nothing. */
  ghost predicate Leftover(s0: State, s: State, name: Name, clean: bool, left: Option<Name>) {
    && (left.None? ==> s.entries == s0.entries)
    && (left.Some? ==> LeftBehind(s0.entries, s.entries, name, left.value, s0.unused))
    && (left.Some? && clean ==>
          s.entries == s0.entries[left.value := s0.unused] && s.files == s0.files[s0.unused := []])
  }

  /** `MadeSure` of some pending name. */
  ghost predicate Secured(evidence: set<Evidence>, parent: Descriptor, name: Name, reserved: Inode,
                          tokens: seq<string>, encoded: Bytes, s0: State)
  {
    exists pending ::
      && HasPendingName(s0, name, tokens, pending)
      && MadeSure(evidence, parent, name, reserved, Pending(pending, s0.unused, s0.unused), encoded)
  }

  /** The try block and the cleanup clause, up to closing the reservation itself. */
  method ExchangeOrCleanUp(fs: Directory, parent: Descriptor, name: Name, reserved: Inode, encoded: Bytes,
                           tokens: seq<string>, sha: Hash)
    returns (ok: bool, ghost clean: bool, ghost left: Option<Name>)
    requires fs.Valid() && fs.state.IsDirectory(parent) && |tokens| == 100
    modifies fs
    ensures ok ==> Secured(fs.evidence, parent, name, reserved, tokens, encoded, old(fs.state))
    ensures left.Some? ==> HasPendingName(old(fs.state), name, tokens, left.value)
    ensures fs.Valid() && fs.state.table == old(fs.state.table) && fs.faults >= old(fs.faults)
    ensures ok <==>
      && fs.faults == old(fs.faults)
      && Named(old(fs.state), name, reserved) && !AllTaken(old(fs.state), name, tokens, FINAL_SUFFIX)
    ensures ok ==>
      && fs.state.entries == old(fs.state.entries)[name := old(fs.state.unused)]
      && fs.state.files == old(fs.state.files)[old(fs.state.unused) := encoded]
    ensures !ok && clean ==>
      && fs.state.Shown(name) == old(fs.state.Shown(name))
      && (Named(fs.state, name, reserved) <==> Named(old(fs.state), name, reserved))
    ensures !ok ==> Leftover(old(fs.state), fs.state, name, clean, left)
    ensures !clean ==> fs.faults > old(fs.faults) + 1
    ensures !ok && left.Some? ==> fs.faults > old(fs.faults)
    ensures !ok ==> fs.state.Shown(name) == old(fs.state.Shown(name)) || fs.state.Shown(name) == Some(encoded)
    ensures OthersKept(old(fs.state), fs.state, name)
    ensures ShowsOnly(fs, name, old(fs.seen), old(fs.state.Shown(name)), encoded)
  {
    ghost var s0 := fs.state;
    clean, left := true, None;
    var entry, captured;
    ghost var bytes, swapped;
    ok, entry, captured, bytes, swapped := Exchange(fs, parent, name, reserved, encoded, tokens, sha);
    if entry.None? {
      return;
    }
    if ok {
      fs.Close(entry.value.descriptor);
      assert fs.state.table == s0.table;
      assert entry.value == Pending(entry.value.name, s0.unused, s0.unused);
      return;
    }
    ghost var seen := fs.seen;
    clean := CleanUp(fs, parent, name, reserved, entry.value, captured, s0, encoded, bytes, swapped);
    left := if fs.state.entries == s0.entries then None else Some(entry.value.name);
    if fs.watched == name {
      OnlyAddsComposes(old(fs.seen), seen, fs.seen, {s0.Shown(name), Some(encoded)});
    }
  }

  class ReservedJsonArtifact {
    const fs: Directory
    const name: Name
    const parent: Descriptor
    const reservation: Descriptor
    const reserved: Inode
    var closed: bool

    constructor (fs: Directory, name: Name, parent: Descriptor, reservation: Descriptor, reserved: Inode)
      ensures this.fs == fs && this.name == name && this.parent == parent
      ensures this.reservation == reservation && this.reserved == reserved && !closed
    {
      this.fs, this.name, this.parent, this.reservation, this.reserved := fs, name, parent, reservation, reserved;
      closed := false;
    }

    ghost predicate Valid()
      reads this, fs
    {
      && fs.Valid()
      && (!closed ==>
            && fs.state.IsDirectory(parent) && fs.state.IsFile(reservation)
            && fs.state.table[reservation].inode == reserved)
    }

    /** Close the descriptors and leave the visible receipt alone. */
    method Close()
      requires Valid()
      modifies this, fs
      ensures Valid() && closed && fs.seen == old(fs.seen) && fs.faults == old(fs.faults)
      ensures fs.evidence == old(fs.evidence)
      ensures fs.state ==
        if old(closed) then old(fs.state)
        else old(fs.state).(table := old(fs.state.table) - {reservation, parent})
    {
      if !closed {
        ghost var start := fs.state.table;
        fs.Close(reservation);
        fs.Close(parent);
        assert fs.state.table == start - {reservation, parent};
        closed := true;
      }
    }

    /** `encoded` is None when the value is not finite JSON; `tokens` are the random tokens the
     *  attempts draw; `clean` says that no call of the cleanup clause failed; `left` is a hidden
     *  entry that a failure left in the directory. If the cleanup is clean, such an entry is an
     *  empty file: the one whose identity could not be captured right after it was created. */
    method Finalize(encoded: Option<Bytes>, tokens: seq<string>, sha: Hash)
      returns (r: Result<Published, ArtifactError>, ghost clean: bool, ghost left: Option<Name>)
      requires Valid() && |tokens| == 100
      modifies this, fs
      ensures r.Ok? ==>
        encoded.Some? && Secured(fs.evidence, parent, name, reserved, tokens, encoded.value, old(fs.state))
      ensures left.Some? ==> HasPendingName(old(fs.state), name, tokens, left.value)
      ensures Valid() && closed
      ensures fs.state.table == if old(closed) then old(fs.state.table) else old(fs.state.table) - {reservation, parent}
      ensures r.Ok? <==>
        && !old(closed) && encoded.Some? && fs.faults == old(fs.faults)
        && Named(old(fs.state), name, reserved) && !AllTaken(old(fs.state), name, tokens, FINAL_SUFFIX)
      ensures r.Ok? ==>
        && r.value == Published(name, sha(encoded.value), |encoded.value|)
        && fs.state.entries == old(fs.state.entries)[name := old(fs.state.unused)]
        && fs.state.files == old(fs.state.files)[old(fs.state.unused) := encoded.value]
      ensures r.Err? && clean ==>
        && fs.state.Shown(name) == old(fs.state.Shown(name))
        && (Named(fs.state, name, reserved) <==> Named(old(fs.state), name, reserved))
      ensures r.Err? ==> Leftover(old(fs.state), fs.state, name, clean, left)
      ensures !clean ==> fs.faults > old(fs.faults) + 1
      ensures r.Err? && left.Some? ==> fs.faults > old(fs.faults)
      ensures r.Err? ==>
        fs.state.Shown(name) == old(fs.state.Shown(name)) || (encoded.Some? && fs.state.Shown(name) == encoded)
      ensures OthersKept(old(fs.state), fs.state, name)
      ensures encoded.Some? ==> ShowsOnly(fs, name, old(fs.seen), old(fs.state.Shown(name)), encoded.value)
      ensures encoded.None? ==> fs.seen == old(fs.seen)
    {
      clean, left := true, None;
      if closed {
        return Err(AlreadyClosed), true, None;
      }
      if encoded.None? {
        Close();
        return Err(NotJson), true, None;
      }
      var ok;
      ok, clean, left := ExchangeOrCleanUp(fs, parent, name, reserved, encoded.value, tokens, sha);
      Close();
      r := if ok then Ok(Published(name, sha(encoded.value), |encoded.value|)) else Err(Failed);
    }
  }

  // ----- Reservation -----------------------------------------------------------------------

  /** The name still is the created file, and its only one. */
  ghost predicate OwnsName(s: State, d: Descriptor, name: Name)
    requires s.IsFile(d)
  {
    Named(s, name, s.table[d].inode) && |s.NamesOf(s.table[d].inode)| == 1
  }

  /** Everything a successful reservation has made sure of: file and entry are on disk, and in
   *  between the file was looked up and digested under the name. */
  ghost predicate ReservationSecured(evidence: set<Evidence>, parent: Descriptor, name: Name, i: Inode,
                                     encoded: Bytes)
  {
    && Restricted(i) in evidence && BytesSynced(i, encoded) in evidence && Looked(parent, name, i) in evidence
    && Digested(i, name) in evidence && EntrySynced(name, i) in evidence
  }

  /** Fill the file created under the reserved name itself. */
  method FillReservation(fs: Directory, parent: Descriptor, name: Name, d: Descriptor, encoded: Bytes, sha: Hash)
    returns (ok: bool, created: Option<Inode>)
    requires fs.Valid() && fs.state.IsDirectory(parent) && fs.state.IsFile(d)
    modifies fs
    ensures fs.Valid() && OnlyTouches(old(fs.state), fs.state, d) && fs.faults >= old(fs.faults)
    ensures created.Some? ==> created.value == fs.state.table[d].inode
    ensures ok ==> created.Some? && BytesAt(fs.state, d) == encoded
    ensures ok <==> fs.faults == old(fs.faults) && OwnsName(old(fs.state), d, name)
    ensures ok ==> ReservationSecured(fs.evidence, parent, name, fs.state.table[d].inode, encoded)
  {
    ghost var start := fs.state;
    WithSameBytes(start, d);
    var state := fs.FStat(d);
    if state.Err? {
      return false, None;
    }
    created := Some(state.value.inode);
    var chmod := fs.Restrict(d);
    if chmod.Err? {
      return false, created;
    }
    var written := WriteDescriptorBytes(fs, d, encoded);
    if written.Err? {
      return false, created;
    }
    ghost var filled := fs.state;
    var visible := fs.StatEntry(parent, name);
    if visible.Err? || visible.value.inode != created.value
       || visible.value.size != |encoded| || visible.value.links != 1 {
      return false, created;
    }
    var digest := DescriptorSha256(fs, d, |encoded|, sha);
    WithBytesTwice(start, d, encoded, filled.table[d].offset, encoded, fs.state.table[d].offset);
    if digest.Err? || digest.value != sha(encoded) {
      return false, created;
    }
    var synced := fs.Sync(parent);
    return synced.Ok?, created;
  }

  /** Drop a failed reservation, if its name still is the created file. */
  method Discard(fs: Directory, parent: Descriptor, name: Name, d: Descriptor, created: Option<Inode>)
    requires fs.Valid() && fs.state.IsDirectory(parent) && fs.state.IsFile(d)
    requires created.Some? ==> created.value == fs.state.table[d].inode
    modifies fs
    ensures fs.Valid() && fs.faults >= old(fs.faults)
    ensures fs.state == old(fs.state) || fs.state == old(fs.state).Unlinked(name)
    ensures fs.state != old(fs.state) ==> Named(old(fs.state), name, old(fs.state.table[d].inode))
    ensures fs.faults == old(fs.faults) ==> !Named(fs.state, name, old(fs.state.table[d].inode))
  {
    var state := created;
    if state.None? {
      var again := fs.FStat(d);
      if again.Ok? {
        state := Some(again.value.inode);
      }
    }
    if state.Some? {
      var visible := fs.StatEntry(parent, name);
      if visible.Ok? && visible.value.inode == state.value {
        var _ := fs.Unlink(parent, name);
      }
    }
  }

  /** Fill the file just created as `name`, or drop it again. */
  method FillOrDiscard(fs: Directory, parent: Descriptor, name: Name, d: Descriptor, encoded: Bytes, sha: Hash,
                       ghost s0: State)
    returns (created: Option<Inode>, ghost bytes: Bytes, ghost clean: bool)
    requires fs.Valid() && fs.state.IsDirectory(parent)
    requires s0.WellFormed() && fs.state == s0.Created(name) && d == s0.unused && name !in s0.entries
    modifies fs
    ensures fs.Valid() && fs.faults >= old(fs.faults)
    ensures fs.state.files == s0.files[d := bytes]
    ensures fs.state.table == s0.table[d := FileHandle(d, fs.state.TableOffset(d))]
    ensures created.Some? ==> created.value == d && bytes == encoded && fs.state.entries == s0.entries[name := d]
    ensures created.Some? <==> fs.faults == old(fs.faults)
    ensures created.None? ==> fs.state.entries == s0.entries || (!clean && fs.state.entries == s0.entries[name := d])
    ensures created.Some? ==> ReservationSecured(fs.evidence, parent, name, d, encoded)
    ensures !clean ==> fs.faults > old(fs.faults) + 1
  {
    assert fs.state.NamesOf(d) == {name};
    var ok, inode := FillReservation(fs, parent, name, d, encoded, sha);
    ghost var filled := fs.state;
    bytes := BytesAt(filled, d);
    assert filled.files == s0.files[d := bytes];
    assert filled.table == s0.table[d := FileHandle(d, filled.TableOffset(d))];
    if ok {
      return inode, bytes, true;
    }
    ghost var faults := fs.faults;
    Discard(fs, parent, name, d, inode);
    clean := fs.faults == faults;
    assert filled.entries - {name} == s0.entries;
    return None, bytes, clean;
  }

  /** Create `name` exclusively and fill it; the descriptor is closed again on failure. */
  method CreateFilled(fs: Directory, parent: Descriptor, name: Name, encoded: Bytes, sha: Hash)
    returns (r: Result<(Descriptor, Inode), ArtifactError>, ghost clean: bool)
    requires fs.Valid() && fs.state.IsDirectory(parent)
    modifies fs
    ensures fs.Valid() && fs.faults >= old(fs.faults)
    ensures r.Ok? <==> fs.faults == old(fs.faults) && name !in old(fs.state.entries)
    ensures r.Ok? ==>
      var (d, i) := r.value;
      && d == i == old(fs.state.unused)
      && fs.state.entries == old(fs.state.entries)[name := i]
      && fs.state.files == old(fs.state.files)[i := encoded]
      && fs.state.table == old(fs.state.table)[d := FileHandle(i, fs.state.TableOffset(d))]
    ensures r.Err? ==> fs.state.table == old(fs.state.table)
    ensures r.Err? ==> fs.state.entries == old(fs.state.entries) || (!clean && name !in old(fs.state.entries))
    ensures OthersKept(old(fs.state), fs.state, name)
    ensures r.Ok? ==> ReservationSecured(fs.evidence, parent, name, r.value.1, encoded)
    ensures !clean ==> fs.faults > old(fs.faults) + 1
  {
    ghost var s0 := fs.state;
    clean := true;
    var d := fs.CreateExclusive(parent, name);
    if d.Err? {
      return Err(if d.error == Exists then Refused else Failed), true;
    }
    var created;
    ghost var bytes;
    created, bytes, clean := FillOrDiscard(fs, parent, name, d.value, encoded, sha, s0);
    if created.Some? {
      return Ok((d.value, created.value)), true;
    }
    fs.Close(d.value);
    assert fs.state.table == s0.table;
    return Err(Failed), clean;
  }

  /** `clean` says that no call of the cleanup clause failed. */
  method ReserveJsonArtifact(fs: Directory, name: Name, encoded: Option<Bytes>, sha: Hash)
    returns (r: Result<ReservedJsonArtifact, ArtifactError>, ghost clean: bool)
    requires fs.Valid()
    modifies fs
    ensures fs.Valid()
    ensures r.Ok? <==>
      fs.faults == old(fs.faults) && encoded.Some? && IsFilename(name) && name !in old(fs.state.entries)
    ensures r.Ok? ==>
      var a := r.value;
      && a.fs == fs && a.name == name && !a.closed && fresh(a) && a.Valid()
      && a.reserved !in old(fs.state.files)
      && fs.state.table - {a.reservation, a.parent} == old(fs.state.table)
      && fs.state.entries == old(fs.state.entries)[name := a.reserved]
      && fs.state.files == old(fs.state.files)[a.reserved := encoded.value]
    ensures r.Err? ==> fs.state.table == old(fs.state.table)
    ensures r.Err? && clean ==> fs.state.entries == old(fs.state.entries)
    ensures name in old(fs.state.entries) ==> fs.state.entries == old(fs.state.entries)
    ensures OthersKept(old(fs.state), fs.state, name)
    ensures r.Ok? ==> ReservationSecured(fs.evidence, r.value.parent, name, r.value.reserved, encoded.value)
    ensures !clean ==> fs.faults > old(fs.faults) + 1
    ensures fs.faults >= old(fs.faults)
  {
    clean := true;
    if encoded.None? {
      return Err(NotJson), true;
    }
    if !IsFilename(name) {
      return Err(Refused), true;
    }
    ghost var s0 := fs.state;
    var parent := fs.OpenParent();
    if parent.Err? {
      return Err(Failed), true;
    }
    var created;
    created, clean := CreateFilled(fs, parent.value, name, encoded.value, sha);
    if created.Err? {
      fs.Close(parent.value);
      assert fs.state.table == s0.table;
      return Err(created.error), clean;
    }
    assert fs.state.table - {created.value.0, parent.value} == s0.table;
    var a := new ReservedJsonArtifact(fs, name, parent.value, created.value.0, created.value.1);
    return Ok(a), true;
  }

  /** The life of a reservation. From the moment `ReserveJsonArtifact` returns, an observer of the
   *  name is shown the complete provisional receipt or the complete final JSON; `reserved` says
   *  whether that moment came, and `seen` is what had been shown before it. */
  method ReserveAndFinalize(fs: Directory, name: Name, provisional: Option<Bytes>, final: Option<Bytes>,
                            tokens: seq<string>, sha: Hash)
    returns (reserved: bool, r: Result<Published, ArtifactError>, ghost seen: seq<Option<Bytes>>, ghost clean: bool,
             ghost left: Option<Name>)
    requires fs.Valid() && |tokens| == 100
    modifies fs
    ensures fs.Valid() && fs.state.table == old(fs.state.table)
    ensures reserved && fs.watched == name ==>
      OnlyAdds(seen, fs.seen, {provisional, if final.Some? then final else provisional})
    ensures reserved ==> provisional.Some? && name !in old(fs.state.entries)
    ensures !clean ==> fs.faults > old(fs.faults) + 1
    ensures r.Ok? ==> reserved && fs.state.Shown(name) == final && final.Some?
    ensures reserved && r.Err? ==> fs.state.Shown(name) == provisional || (!clean && fs.state.Shown(name) == final)
    ensures !reserved && clean ==> fs.state.entries == old(fs.state.entries)
    ensures reserved && r.Err? && clean ==>
      fs.state.entries.Keys == old(fs.state.entries.Keys) + {name} + if left.Some? then {left.value} else {}
    ensures OthersKept(old(fs.state), fs.state, name)
  {
    var reservation;
    left := None;
    reservation, clean := ReserveJsonArtifact(fs, name, provisional, sha);
    seen := fs.seen;
    if reservation.Err? {
      return false, Err(reservation.error), seen, clean, None;
    }
    ghost var between := fs.state;
    r, clean, left := reservation.value.Finalize(final, tokens, sha);
    assert fs.state.table == old(fs.state.table);
    return true, r, seen, clean, left;
  }
}
