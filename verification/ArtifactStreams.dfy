/** Bounded writing with a rolling digest, and reading that verifies what it hands out. The
 *  rolling digest is represented by the bytes it was updated with. */
module ArtifactStreams {
  import opened Arithmetic
  import opened Wrappers
  import opened FileSystem
  import opened DescriptorIO
  import opened BufferedStreams

  // ----- The bounded writer --------------------------------------------------------------

  lemma NextSlice(before: Bytes, value: Bytes, written: nat, count: nat)
    requires written + count <= |value|
    ensures before + value[..written] + value[written..][..count] == before + value[..written + count]
  {
    assert value[..written] + value[written..][..count] == value[..written + count];
  }

  /** `_BoundedSequentialRawWriter` */
  class BoundedWriter {
    const fs: Directory
    const descriptor: Descriptor
    const maxBytes: nat
    ghost const inode: Inode
    var byteCount: nat
    var digested: Bytes
    var closed: bool

    ghost predicate Valid()
      reads this, fs
    {
      && fs.Valid()
      && byteCount == |digested| <= maxBytes
      && inode in fs.state.files && fs.state.files[inode] == digested
      && (!closed ==> fs.state.IsFile(descriptor) && fs.state.table[descriptor] == FileHandle(inode, byteCount))
    }

    constructor (fs: Directory, descriptor: Descriptor, maxBytes: nat)
      requires fs.Valid() && fs.state.IsFile(descriptor)
      requires BytesAt(fs.state, descriptor) == [] && fs.state.table[descriptor].offset == 0
      ensures Valid() && this.fs == fs && this.descriptor == descriptor && this.maxBytes == maxBytes
      ensures inode == fs.state.table[descriptor].inode && !closed && digested == []
    {
      this.fs, this.descriptor, this.maxBytes := fs, descriptor, maxBytes;
      inode := fs.state.table[descriptor].inode;
      byteCount, digested, closed := 0, [], false;
    }

    method Sha256(sha: Hash) returns (digest: Digest)
      requires Valid()
      ensures digest == sha(fs.state.files[inode])
    {
      digest := sha(digested);
    }

    /** One write call, counted and digested. */
    method WriteOnce(value: Bytes, ghost start: State, ghost seen: seq<Option<Bytes>>)
      returns (count: Result<nat, IoError>)
      requires Valid() && !closed && value != [] && byteCount + |value| <= maxBytes
      requires start.WellFormed() && start.IsFile(descriptor) && Holds(fs, start, descriptor, digested, byteCount)
      requires Unseen(fs, start, descriptor, seen)
      modifies this, fs
      ensures Valid() && !closed
      ensures Holds(fs, start, descriptor, digested, byteCount) && Unseen(fs, start, descriptor, seen)
      ensures count.Ok? ==> count.value <= |value| && digested == old(digested) + value[..count.value]
      ensures count.Err? ==> digested == old(digested)
      ensures fs.faults == old(fs.faults) + if count.Ok? && count.value > 0 then 0 else 1
    {
      count := AppendOnce(fs, start, seen, descriptor, digested, value);
      if count.Ok? {
        digested := digested + value[..count.value];
        byteCount := byteCount + count.value;
      }
    }

    /** A write that fails half-way has written a prefix, and the count and digest say so; `cut`
     *  is how far it came if a call failed. */
    method Write(value: Bytes) returns (r: Result<nat, ArtifactError>, ghost cut: Option<nat>)
      requires Valid()
      modifies this, fs
      ensures Valid() && closed == old(closed) && fs.faults >= old(fs.faults)
      ensures !closed ==> digested == old(digested) + value[..Sent(old(byteCount), value, maxBytes, cut)]
      ensures cut.None? <==> fs.faults == old(fs.faults)
      ensures r.Ok? <==> !closed && old(byteCount) + |value| <= maxBytes && fs.faults == old(fs.faults)
      ensures r.Ok? ==> r.value == |value| && digested == old(digested) + value
      ensures closed || old(byteCount) + |value| > maxBytes ==> digested == old(digested) && fs.state == old(fs.state)
      ensures !closed ==>
        OnlyTouches(old(fs.state), fs.state, descriptor) && Unseen(fs, old(fs.state), descriptor, old(fs.seen))
      ensures closed ==> fs.seen == old(fs.seen) && fs.faults == old(fs.faults)
    {
      if closed {
        return Err(AlreadyClosed), None;
      }
      ghost var start, seen, before := fs.state, fs.seen, digested;
      WithSameBytes(start, descriptor);
      if byteCount + |value| > maxBytes {
        return Err(Refused), None;
      }
      var written := 0;
      while written < |value|
        invariant 0 <= written <= |value| && Valid() && !closed
        invariant digested == before + value[..written]
        invariant Holds(fs, start, descriptor, digested, byteCount) && Unseen(fs, start, descriptor, seen)
        invariant fs.faults == old(fs.faults)
      {
        var count := WriteOnce(value[written..], start, seen);
        if count.Err? {
          return Err(Failed), Some(written);
        }
        NextSlice(before, value, written, count.value);
        written := written + count.value;
        if count.value == 0 {
          return Err(Failed), Some(written);
        }
      }
      assert value[..written] == value;
      return Ok(written), None;
    }

    method Flush() returns (r: Result<(), ArtifactError>)
      requires Valid()
      modifies fs
      ensures Valid() && fs.state == old(fs.state) && fs.seen == old(fs.seen)
      ensures fs.faults == old(fs.faults) + if r.Ok? then 0 else 1
      ensures r.Ok? && !closed ==> BytesSynced(inode, digested) in fs.evidence
    {
      if closed {
        return Ok(());
      }
      var synced := fs.Sync(descriptor);
      return if synced.Ok? then Ok(()) else Err(Failed);
    }

    method Close()
      requires Valid()
      modifies this, fs
      ensures Valid() && closed && digested == old(digested) && fs.faults == old(fs.faults) && fs.seen == old(fs.seen)
      ensures fs.evidence == old(fs.evidence)
      ensures fs.state == if old(closed) then old(fs.state) else old(fs.state).Closed(descriptor)
    {
      if !closed {
        fs.Close(descriptor);
        closed := true;
      }
    }
  }

  // ----- The verified reader -------------------------------------------------------------

  /** A file somebody may be changing while it is read, with the descriptor it is read through. */
  class WatchedFile {
    const content: Bytes
    var offset: nat
    /** Whether every look at the file so far has shown its content. */
    ghost var intact: bool
    /** How many system calls, and checks of mode, links and identity, have failed. */
    ghost var faults: nat
    /** How many read calls were made, and at which of these counts the file looked right. */
    ghost var readCalls: nat
    ghost var approvals: seq<nat>

    ghost predicate Valid()
      reads this
    {
      intact ==> offset <= |content|
    }

    constructor (content: Bytes)
      ensures Valid() && intact && this.content == content && faults == 0
    {
      this.content, offset, intact, faults, readCalls, approvals := content, 0, true, 0, 0, [];
    }

    /** One read call: the next bytes of the content, or whatever somebody else put there. */
    method Readv(limit: nat) returns (r: Result<Bytes, IoError>)
      requires Valid()
      modifies this
      ensures Valid() && (intact ==> old(intact)) && readCalls == old(readCalls) + 1 && approvals == old(approvals)
      ensures r.Err? ==> faults == old(faults) + 1 && offset == old(offset) && intact == old(intact)
      ensures r.Ok? ==> faults == old(faults) && |r.value| <= limit
      ensures r.Ok? && intact ==> old(offset) <= offset && r.value == content[old(offset)..offset]
      ensures r.Ok? && intact && r.value == [] && limit > 0 ==> offset == |content|
    {
      readCalls := readCalls + 1;
      if * {
        faults := faults + 1;
        return Err(Fault);
      }
      var none: Bytes := [];
      assert |none| <= limit;
      var chunk: Bytes :| |chunk| <= limit;
      if * {
        intact := false;
        return Ok(chunk);
      }
      if offset >= |content| || limit == 0 {
        return Ok([]);
      }
      var most := Min(limit, |content| - offset);
      var end := offset + if 0 < |chunk| < most then |chunk| else most;
      chunk := content[offset..end];
      offset := end;
      return Ok(chunk);
    }

    /** The checks before and after the body, with a digest through a second descriptor. */
    method LooksRight(expected: Digest, expectedSize: int, sha: Hash) returns (ok: bool)
      requires Valid()
      modifies this`intact, this`faults, this`approvals
      ensures Valid() && (intact ==> old(intact)) && faults >= old(faults)
      ensures ok ==> faults == old(faults)
      ensures ok && intact ==> |content| == expectedSize && sha(content) == expected
      ensures !ok && intact && faults == old(faults) ==> |content| != expectedSize || sha(content) != expected
      ensures approvals == old(approvals) + if ok then [readCalls] else []
    {
      if * {
        faults := faults + 1;
        return false;
      }
      ok := |content| == expectedSize && sha(content) == expected;
      if * {
        intact, ok := false, *;
      }
      approvals := approvals + if ok then [readCalls] else [];
    }

    /** Open the descriptor that is read through. */
    method Open() returns (ok: bool)
      requires Valid()
      modifies this
      ensures Valid() && (intact ==> old(intact))
      ensures if ok then offset == 0 && faults == old(faults) else faults > old(faults)
      ensures readCalls == old(readCalls) && approvals == old(approvals)
    {
      if * {
        faults := faults + 1;
        return false;
      }
      offset, ok := 0, true;
    }
  }

  /** `_VerifiedSequentialRawReader` */
  class VerifiedReader {
    const file: WatchedFile
    const expectedSize: nat
    var byteCount: nat
    var digested: Bytes
    var sawEof: bool

    ghost predicate Valid()
      reads this, file
    {
      && byteCount == |digested| <= expectedSize && file.Valid()
      && (Undisturbed() ==> digested == file.content[..file.offset])
    }

    /** Nobody has interfered, and the file is no longer than expected. */
    ghost predicate Undisturbed()
      reads file
    {
      file.intact && |file.content| <= expectedSize
    }

    /** The end was not reported before it was reached. */
    ghost predicate EndIsEnd()
      reads this, file
    {
      sawEof && Undisturbed() ==> file.offset == |file.content|
    }

    constructor (file: WatchedFile, expectedSize: nat)
      requires file.Valid() && file.offset == 0
      ensures Valid() && EndIsEnd() && this.file == file && this.expectedSize == expectedSize
      ensures digested == [] && !sawEof
    {
      this.file, this.expectedSize := file, expectedSize;
      byteCount, digested, sawEof := 0, [], false;
    }

    method ReadInto(limit: nat) returns (r: Result<Bytes, ArtifactError>)
      requires Valid()
      modifies this, file
      ensures Valid() && (old(EndIsEnd()) && limit > 0 ==> EndIsEnd())
      ensures r.Ok? ==> |r.value| <= limit && |r.value| <= 1_048_576 && digested == old(digested) + r.value
      ensures r.Ok? ==> sawEof == (old(sawEof) || r.value == [])
      ensures r.Err? ==> digested == old(digested) && sawEof == old(sawEof)
      ensures (file.intact ==> old(file.intact)) && file.faults >= old(file.faults)
      ensures file.approvals == old(file.approvals)
      ensures r.Ok? ==> file.faults == old(file.faults)
      ensures r.Err? && Undisturbed() ==> file.faults > old(file.faults)
    {
      var chunk := file.Readv(Min(limit, CHUNK_BYTES));
      if chunk.Err? {
        return Err(Failed);
      }
      if chunk.value == [] {
        sawEof := true;
        return Ok([]);
      }
      if byteCount + |chunk.value| > expectedSize {
        return Err(Refused);
      }
      digested := digested + chunk.value;
      byteCount := byteCount + |chunk.value|;
      return Ok(chunk.value);
    }
  }

  /** The largest multiple of the buffer size that is at most `size`. */
  function WholeBlocks(size: nat, bufferSize: nat): (whole: nat)
    requires size >= bufferSize > 0
    ensures 0 < whole <= size
  {
    size - size % bufferSize
  }

  lemma ChunkSplits(held: Bytes, taken: Bytes, out: Bytes, chunk: Bytes, count: nat)
    requires out == held + taken && count <= |chunk|
    ensures out + chunk[..count] + chunk[count..] == held + (taken + chunk)
  {
    assert chunk[..count] + chunk[count..] == chunk;
    assert out + chunk[..count] + chunk[count..] == out + chunk;
  }

  lemma TakenGrows(start: Bytes, middle: Bytes, chunk: Bytes)
    requires |start| <= |middle|
    ensures (middle + chunk)[|start|..] == middle[|start|..] + chunk
  {
  }

  const READ_ALL_BYTES := 8192

  /** Python's buffered reader on top. What a read has in hand when it raises is lost: it is
   *  digested but neither delivered nor held. */
  class BufferedReader {
    const raw: VerifiedReader
    const bufferSize: nat
    var buffer: Bytes
    var closed: bool
    /** The rest of the view, and the calls that led to it. */
    ghost var delivered: Bytes
    ghost var dropped: nat
    ghost var gap: nat
    ghost var calls: seq<ReaderCall>

    ghost function View(): ReaderView
      reads this, raw
    {
      ReaderView(raw.digested, delivered, buffer, dropped, gap)
    }

    ghost predicate Valid()
      reads this, raw, raw.file
    {
      raw.Valid() && raw.EndIsEnd() && bufferSize > 0 && View() == ReaderRun(calls)
    }

    /** Since the call began no call has failed if it succeeded, and if it failed one has, or
     *  somebody interfered. */
    twostate predicate FailsForReason(failed: bool)
      reads raw, raw.file
    {
      && (raw.file.intact ==> old(raw.file.intact)) && raw.file.faults >= old(raw.file.faults)
      && raw.file.approvals == old(raw.file.approvals)
      && (!failed ==> raw.file.faults == old(raw.file.faults))
      && (failed && raw.Undisturbed() ==> raw.file.faults > old(raw.file.faults))
    }

    constructor (raw: VerifiedReader, bufferSize: nat)
      requires raw.Valid() && raw.EndIsEnd() && raw.digested == [] && bufferSize > 0
      ensures Valid() && this.raw == raw && this.bufferSize == bufferSize && !closed
      ensures View() == FRESH_READER && calls == []
    {
      this.raw, this.bufferSize := raw, bufferSize;
      buffer, closed, delivered, dropped, gap, calls := [], false, [], 0, 0, [];
    }

    /** What the raw reader has handed over since it had digested `before`. */
    ghost function TakenSince(before: Bytes): Bytes
      requires |before| <= |raw.digested|
      reads raw
    {
      raw.digested[|before|..]
    }

    /** Read whole blocks past the buffer until less than a block is missing. */
    method ReadBlocks(n: nat, held: Bytes) returns (out: Bytes, atEof: bool, failed: bool)
      requires raw.Valid() && raw.EndIsEnd() && bufferSize > 0 && |held| <= n
      modifies raw, raw.file
      ensures raw.Valid() && raw.EndIsEnd() && old(raw.digested) <= raw.digested && FailsForReason(failed)
      ensures out == held + TakenSince(old(raw.digested)) && |out| <= n
      ensures !failed && !atEof ==> n - |out| < bufferSize
      ensures atEof || old(raw.sawEof) ==> raw.sawEof
    {
      out, atEof, failed := held, false, false;
      while !atEof && n - |out| >= bufferSize
        invariant raw.Valid() && raw.EndIsEnd() && old(raw.digested) <= raw.digested && |out| <= n
        invariant FailsForReason(false)
        invariant out == held + TakenSince(old(raw.digested))
        invariant atEof || old(raw.sawEof) ==> raw.sawEof
        decreases !atEof, raw.expectedSize - raw.byteCount
      {
        var chunk := raw.ReadInto(WholeBlocks(n - |out|, bufferSize));
        if chunk.Err? {
          return out, false, true;
        }
        out := out + chunk.value;
        atEof := chunk.value == [];
      }
    }

    /** Fill the buffer until it holds what is missing. */
    method ReadLastBlock(n: nat, held: Bytes) returns (out: Bytes, rest: Bytes, failed: bool)
      requires raw.Valid() && raw.EndIsEnd() && |held| <= n && n - |held| < bufferSize
      modifies raw, raw.file
      ensures raw.Valid() && raw.EndIsEnd() && old(raw.digested) <= raw.digested && FailsForReason(failed)
      ensures out + rest == held + TakenSince(old(raw.digested)) && |out| <= n
      ensures !failed && |out| < n ==> raw.sawEof && rest == []
      ensures failed ==> rest == []
      ensures old(raw.sawEof) ==> raw.sawEof
    {
      out, rest, failed := held, [], false;
      var filled := 0;
      while |out| < n
        invariant raw.Valid() && raw.EndIsEnd() && old(raw.digested) <= raw.digested && |out| <= n
        invariant FailsForReason(false)
        invariant out + rest == held + TakenSince(old(raw.digested))
        invariant |out| < n ==> rest == [] && n - |out| < bufferSize - filled
        invariant old(raw.sawEof) ==> raw.sawEof
        decreases raw.expectedSize - raw.byteCount
      {
        ghost var digested := raw.digested;
        var chunk := raw.ReadInto(bufferSize - filled);
        if chunk.Err? {
          return out, [], true;
        }
        if chunk.value == [] {
          return out, [], false;
        }
        TakenGrows(old(raw.digested), digested, chunk.value);
        var count := Min(n - |out|, |chunk.value|);
        ChunkSplits(held, digested[|old(raw.digested)|..], out, chunk.value, count);
        out, rest := out + chunk.value[..count], chunk.value[count..];
        filled := filled + |chunk.value|;
      }
    }

    /** A read raised: the consumer gets nothing, and what was in hand is gone. */
    ghost method Drop(before: ReaderView, taken: Bytes)
      requires raw.Valid() && raw.EndIsEnd() && bufferSize > 0
      requires before == ReaderRun(calls) && raw.digested == before.digested + taken
      requires View() == before.(digested := raw.digested, buffer := [])
      modifies this`dropped, this`calls
      ensures Valid() && View() == AfterRead(before, Raises(taken)) && calls == old(calls) + [Raises(taken)]
    {
      dropped := dropped + |before.buffer + taken|;
      ReaderRunGrows(calls, Raises(taken));
      calls := calls + [Raises(taken)];
    }

    /** A read returned `out`. */
    ghost method Deliver(before: ReaderView, taken: Bytes, out: Bytes, n: nat)
      requires raw.Valid() && raw.EndIsEnd() && bufferSize > 0
      requires before == ReaderRun(calls) && raw.digested == before.digested + taken
      requires View() == before.(digested := raw.digested, buffer := buffer)
      requires out + buffer == before.buffer + taken && |out| <= n && (|out| < n ==> buffer == [])
      modifies this`delivered, this`gap, this`calls
      ensures Valid() && View() == AfterRead(before, Delivers(taken, n)) && calls == old(calls) + [Delivers(taken, n)]
      ensures delivered == old(delivered) + out
    {
      ghost var held := before.buffer + taken;
      assert out == held[..Min(n, |held|)] && buffer == held[Min(n, |held|)..];
      delivered := delivered + out;
      gap := if out != [] then dropped else gap;
      ReaderRunGrows(calls, Delivers(taken, n));
      calls := calls + [Delivers(taken, n)];
    }

    /** What `read(n)` takes from the raw reader, and what it can return. */
    method Gather(n: nat) returns (out: Bytes, failed: bool)
      requires raw.Valid() && raw.EndIsEnd() && bufferSize > 0
      modifies this`buffer, raw, raw.file
      ensures raw.Valid() && raw.EndIsEnd() && FailsForReason(failed)
      ensures old(raw.digested) <= raw.digested && (old(raw.sawEof) ==> raw.sawEof)
      ensures failed ==> buffer == []
      ensures !failed ==> out + buffer == old(buffer) + TakenSince(old(raw.digested)) && |out| <= n
      ensures !failed && |out| < n ==> raw.sawEof && buffer == []
    {
      if n <= |buffer| {
        out, buffer, failed := buffer[..n], buffer[n..], false;
        return;
      }
      var atEof;
      out, atEof, failed := ReadBlocks(n, buffer);
      ghost var digested := raw.digested;
      buffer := [];
      if !failed && !atEof {
        out, buffer, failed := ReadLastBlock(n, out);
        TakenGrows(old(raw.digested), digested, TakenSince(digested));
        assert digested + TakenSince(digested) == raw.digested;
      }
    }

    /** `read(n)`: n bytes, fewer only at the end of the file. */
    method Read(n: nat) returns (r: Result<Bytes, ArtifactError>, ghost taken: Bytes)
      requires Valid()
      modifies this, raw, raw.file
      ensures Valid() && closed == old(closed) && (old(raw.sawEof) ==> raw.sawEof)
      ensures FailsForReason(!closed && r.Err?)
      ensures closed ==> r.Err? && View() == old(View())
      ensures r.Ok? ==> delivered == old(delivered) + r.value && View() == AfterRead(old(View()), Delivers(taken, n))
      ensures r.Ok? && |r.value| < n ==> raw.sawEof && buffer == []
      ensures !closed && r.Err? ==> View() == AfterRead(old(View()), Raises(taken))
    {
      if closed {
        return Err(AlreadyClosed), [];
      }
      ghost var before := View();
      var out, failed := Gather(n);
      taken := TakenSince(before.digested);
      assert raw.digested == before.digested + taken;
      if failed {
        Drop(before, taken);
        return Err(Failed), taken;
      }
      Deliver(before, taken, out, n);
      return Ok(out), taken;
    }

    method GatherAll() returns (out: Bytes, failed: bool)
      requires raw.Valid() && raw.EndIsEnd()
      modifies this`buffer, raw, raw.file
      ensures raw.Valid() && raw.EndIsEnd() && FailsForReason(failed)
      ensures old(raw.digested) <= raw.digested && (old(raw.sawEof) ==> raw.sawEof) && buffer == []
      ensures !failed ==> out == old(buffer) + TakenSince(old(raw.digested)) && raw.sawEof
    {
      out, failed, buffer := buffer, false, [];
      var atEof := false;
      while !atEof
        invariant raw.Valid() && raw.EndIsEnd() && FailsForReason(false)
        invariant buffer == [] && old(raw.digested) <= raw.digested && !failed
        invariant out == old(buffer) + TakenSince(old(raw.digested))
        invariant atEof || old(raw.sawEof) ==> raw.sawEof
        decreases !atEof, raw.expectedSize - raw.byteCount
      {
        var chunk := raw.ReadInto(READ_ALL_BYTES);
        if chunk.Err? {
          return [], true;
        }
        out := out + chunk.value;
        atEof := chunk.value == [];
      }
    }

    /** `read()`: everything up to the end of the file. */
    method ReadAll() returns (r: Result<Bytes, ArtifactError>, ghost taken: Bytes)
      requires Valid()
      modifies this, raw, raw.file
      ensures Valid() && closed == old(closed) && (old(raw.sawEof) ==> raw.sawEof)
      ensures FailsForReason(!closed && r.Err?)
      ensures closed ==> r.Err? && View() == old(View())
      ensures r.Ok? ==>
        && delivered == old(delivered) + r.value && r.value == old(buffer) + taken && raw.sawEof
        && View() == AfterRead(old(View()), Delivers(taken, |r.value|))
      ensures !closed && r.Err? ==> View() == AfterRead(old(View()), Raises(taken))
    {
      if closed {
        return Err(AlreadyClosed), [];
      }
      ghost var before := View();
      var out, failed := GatherAll();
      taken := TakenSince(before.digested);
      assert raw.digested == before.digested + taken;
      if failed {
        Drop(before, taken);
        return Err(Failed), taken;
      }
      Deliver(before, taken, out, |out|);
      return Ok(out), taken;
    }

    method Close()
      requires Valid()
      modifies this`closed
      ensures Valid() && closed
    {
      closed := true;
    }
  }

  // ----- A verified reading session ------------------------------------------------------

  /** What the body of the with statement does, one action at a time. A read that raises ends the
   *  body unless the body catches the error and goes on. */
  datatype ConsumerAction = ReadUpTo(n: nat, caught: bool) | ReadToEnd(caught: bool) | CloseReader

  function Concat(chunks: seq<Bytes>): Bytes {
    if chunks == [] then [] else Concat(chunks[..|chunks| - 1]) + chunks[|chunks| - 1]
  }

  predicate IsDigestText(text: string) {
    |text| == 64 && forall k :: 0 <= k < 64 ==> text[k] in "0123456789abcdef"
  }

  /** The arguments that are accepted: 64 digits, by their codes, and positive sizes. */
  lemma AcceptedArguments(expected: Digest, expectedSize: int, maxBytes: int, bufferSize: int)
    ensures ArgumentsAccepted(expected, expectedSize, maxBytes, bufferSize) <==>
      && 1 <= expectedSize <= maxBytes && 1 <= bufferSize && |expected| == 64
      && forall k :: 0 <= k < 64 ==> 48 <= expected[k] as int <= 57 || 97 <= expected[k] as int <= 102
  {
    forall k | 0 <= k < |expected|
      ensures expected[k] in "0123456789abcdef" <==> 48 <= expected[k] as int <= 57 || 97 <= expected[k] as int <= 102
    {
    }
  }

  predicate ArgumentsAccepted(expected: Digest, expectedSize: int, maxBytes: int, bufferSize: int) {
    IsDigestText(expected) && expectedSize > 0 && maxBytes > 0 && bufferSize > 0 && expectedSize <= maxBytes
  }

  predicate Catches(action: ConsumerAction) {
    !action.CloseReader? && action.caught
  }

  predicate CatchesNothing(actions: seq<ConsumerAction>) {
    forall a :: a in actions ==> !Catches(a)
  }

  lemma ConcatGrows(chunks: seq<Bytes>, chunk: Bytes)
    ensures Concat(chunks + [chunk]) == Concat(chunks) + chunk
  {
    assert (chunks + [chunk])[..|chunks|] == chunks;
  }

  // ----- What an undisturbed body reads --------------------------------------------------

  /** How far into the content the actions have come. */
  function Reached(content: Bytes, actions: seq<ConsumerAction>): (position: nat)
    ensures position <= |content|
  {
    if actions == [] then 0
    else
      var before := Reached(content, actions[..|actions| - 1]);
      match actions[|actions| - 1]
      case ReadUpTo(n, _) => Min(before + n, |content|)
      case ReadToEnd(_) => |content|
      case CloseReader => before
  }

  /** Every read gets the slice of the content from where the one before stopped. */
  function Slices(content: Bytes, actions: seq<ConsumerAction>): seq<Bytes> {
    if actions == [] then []
    else
      var before := actions[..|actions| - 1];
      Slices(content, before)
      + if actions[|actions| - 1].CloseReader? then []
        else [content[Min(Reached(content, before), Reached(content, actions))..Reached(content, actions)]]
  }

  lemma SlicesGrow(content: Bytes, actions: seq<ConsumerAction>, action: ConsumerAction)
    requires !action.CloseReader?
    ensures var from, to := Reached(content, actions), Reached(content, actions + [action]);
      from <= to && Slices(content, actions + [action]) == Slices(content, actions) + [content[from..to]]
  {
    assert (actions + [action])[..|actions|] == actions;
  }

  /** The slices are the content up to where the body stopped reading, cut up. */
  lemma {:induction false} SlicesAreContent(content: Bytes, actions: seq<ConsumerAction>)
    ensures Concat(Slices(content, actions)) == content[..Reached(content, actions)]
  {
    if actions != [] {
      var before, last := actions[..|actions| - 1], actions[|actions| - 1];
      SlicesAreContent(content, before);
      assert before + [last] == actions;
      if !last.CloseReader? {
        SlicesGrow(content, before, last);
        var from, to := Reached(content, before), Reached(content, actions);
        ConcatGrows(Slices(content, before), content[from..to]);
        assert content[..from] + content[from..to] == content[..to];
      } else {
        assert Slices(content, actions) == Slices(content, before);
      }
    }
  }

  /** At the end of a file that nobody disturbed everything was digested. */
  lemma DigestedIsContent(raw: VerifiedReader)
    requires raw.Valid() && raw.EndIsEnd() && raw.sawEof
    ensures raw.Undisturbed() ==> raw.digested == raw.file.content
  {
  }

  /** What a reader that dropped nothing and whose file nobody disturbed has delivered. */
  lemma DeliveredIsContent(reader: BufferedReader)
    requires reader.Valid() && reader.dropped == 0 && reader.raw.Undisturbed()
    ensures reader.delivered + reader.buffer == reader.raw.file.content[..reader.raw.file.offset]
    ensures reader.delivered <= reader.raw.file.content
    ensures reader.raw.sawEof && reader.buffer == [] ==> reader.delivered == reader.raw.file.content
  {
    ReaderRunKeeps(reader.calls);
  }

  /** One read of the body. */
  method Fetch(reader: BufferedReader, action: ConsumerAction) returns (r: Result<Bytes, ArtifactError>)
    requires reader.Valid() && !action.CloseReader?
    modifies reader, reader.raw, reader.raw.file
    ensures reader.Valid() && reader.closed == old(reader.closed)
    ensures r.Ok? ==> reader.delivered == old(reader.delivered) + r.value && reader.dropped == old(reader.dropped)
    ensures r.Err? ==> reader.delivered == old(reader.delivered) && reader.gap == old(reader.gap)
    ensures reader.FailsForReason(!reader.closed && r.Err?)
    ensures r.Ok? && action.ReadUpTo? ==>
      |r.value| <= action.n && (|r.value| < action.n ==> reader.raw.sawEof && reader.buffer == [])
    ensures r.Ok? && action.ReadToEnd? ==> reader.raw.sawEof && reader.buffer == []
  {
    ghost var taken;
    match action {
      case ReadUpTo(n, _) => r, taken := reader.Read(n);
      case ReadToEnd(_) => r, taken := reader.ReadAll();
    }
  }

  /** The last read went as far as the action asks. */
  ghost predicate IsRead(reader: BufferedReader, action: ConsumerAction, before: nat)
    reads reader, reader.raw, reader.raw.file
  {
    match action
    case ReadUpTo(n, _) =>
      && |reader.delivered| <= before + n
      && (|reader.delivered| < before + n ==> reader.raw.sawEof && reader.buffer == [])
    case ReadToEnd(_) => reader.raw.sawEof && reader.buffer == []
    case CloseReader => true
  }

  /** One action of the body: what was read so far, or the error the body does not catch;
   *  `failed` says that a caught read failed. */
  method Perform(reader: BufferedReader, action: ConsumerAction, chunks: seq<Bytes>)
    returns (r: Result<seq<Bytes>, ArtifactError>, ghost failed: bool)
    requires reader.Valid() && Concat(chunks) == reader.delivered
    modifies reader, reader.raw, reader.raw.file
    ensures reader.Valid() && (r.Ok? ==> Concat(r.value) == reader.delivered)
    ensures r.Ok? && !failed ==> reader.dropped == old(reader.dropped)
    ensures failed ==> Catches(action)
    ensures old(reader.closed) || action.CloseReader? <==> reader.closed
    ensures reader.FailsForReason(!reader.closed && (r.Err? || failed))
    ensures r.Ok? && !failed && !action.CloseReader? ==>
      && |old(reader.delivered)| <= |reader.delivered| && IsRead(reader, action, |old(reader.delivered)|)
      && r.value == chunks + [reader.delivered[|old(reader.delivered)|..]]
    ensures r.Ok? && action.CloseReader? ==> r.value == chunks
  {
    if action.CloseReader? {
      reader.Close();
      return Ok(chunks), false;
    }
    var chunk := Fetch(reader, action);
    if chunk.Ok? {
      ConcatGrows(chunks, chunk.value);
      return Ok(chunks + [chunk.value]), false;
    }
    return if action.caught then Ok(chunks) else Err(chunk.error), action.caught;
  }

  /** If nobody has interfered and no call has failed since there were `faults` failures, the open
   *  reader has given the body the slices it asked for. */
  ghost predicate KeepsUp(reader: BufferedReader, faults: nat, actions: seq<ConsumerAction>, chunks: seq<Bytes>)
    reads reader, reader.raw, reader.raw.file
  {
    !reader.closed && reader.raw.Undisturbed() && reader.raw.file.faults == faults ==>
      var content := reader.raw.file.content;
      && reader.dropped == 0 && chunks == Slices(content, actions)
      && reader.delivered == content[..Reached(content, actions)]
  }

  lemma OneMoreSlice(reader: BufferedReader, actions: seq<ConsumerAction>, action: ConsumerAction, before: nat)
    requires reader.Valid() && reader.raw.Undisturbed() && reader.dropped == 0 && !action.CloseReader?
    requires before == Reached(reader.raw.file.content, actions) <= |reader.delivered|
    requires IsRead(reader, action, before)
    ensures var content := reader.raw.file.content;
      && reader.delivered == content[..Reached(content, actions + [action])]
      && Slices(content, actions + [action]) == Slices(content, actions) + [reader.delivered[before..]]
  {
    DeliveredIsContent(reader);
    SlicesGrow(reader.raw.file.content, actions, action);
    assert (actions + [action])[..|actions|] == actions;
  }

  /** The body. It returns what it read, and `failures` counts the failed reads it went on
   *  after. */
  method Consume(reader: BufferedReader, actions: seq<ConsumerAction>)
    returns (r: Result<seq<Bytes>, ArtifactError>, ghost failures: nat)
    requires reader.Valid() && reader.delivered == [] && reader.dropped == 0 && !reader.closed
    modifies reader, reader.raw, reader.raw.file
    ensures reader.Valid() && (reader.closed ==> CloseReader in actions)
    ensures r.Ok? ==> Concat(r.value) == reader.delivered && (failures == 0 ==> reader.dropped == 0)
    ensures r.Ok? && CloseReader in actions ==> reader.closed
    ensures CatchesNothing(actions) ==> failures == 0
    ensures reader.raw.file.faults >= old(reader.raw.file.faults)
    ensures reader.raw.file.intact ==> old(reader.raw.file.intact)
    ensures reader.raw.file.approvals == old(reader.raw.file.approvals)
    ensures r.Ok? && failures == 0 ==> reader.raw.file.faults == old(reader.raw.file.faults)
    ensures r.Ok? && !reader.closed && reader.raw.Undisturbed() ==>
      failures <= reader.raw.file.faults - old(reader.raw.file.faults)
    ensures r.Ok? ==> KeepsUp(reader, old(reader.raw.file.faults), actions, r.value)
    ensures r.Err? && !reader.closed ==> reader.FailsForReason(true)
  {
    r, failures := Ok([]), 0;
    ghost var faults := reader.raw.file.faults;
    for k := 0 to |actions|
      invariant reader.Valid() && r.Ok? && Concat(r.value) == reader.delivered
      invariant failures == 0 ==> reader.dropped == 0
      invariant reader.closed <==> CloseReader in actions[..k]
      invariant CatchesNothing(actions) ==> failures == 0
      invariant reader.raw.file.faults >= faults && (reader.raw.file.intact ==> old(reader.raw.file.intact))
      invariant failures == 0 ==> reader.raw.file.faults == faults
      invariant reader.raw.file.approvals == old(reader.raw.file.approvals)
      invariant !reader.closed && reader.raw.Undisturbed() ==> failures <= reader.raw.file.faults - faults
      invariant KeepsUp(reader, faults, actions[..k], r.value)
    {
      ghost var failed;
      ghost var before := |reader.delivered|;
      r, failed := Perform(reader, actions[k], r.value);
      assert actions[..k + 1] == actions[..k] + [actions[k]];
      if r.Err? {
        return;
      }
      if failed {
        failures := failures + 1;
      } else if !reader.closed && reader.raw.Undisturbed() && reader.raw.file.faults == faults {
        OneMoreSlice(reader, actions[..k], actions[k], before);
      }
    }
    assert actions[..|actions|] == actions;
  }

  /** Read the rest, so that the digest covers the whole file. */
  method Drain(reader: BufferedReader) returns (r: Result<(), ArtifactError>)
    requires reader.Valid() && !reader.closed
    modifies reader, reader.raw, reader.raw.file
    ensures reader.Valid() && old(reader.raw.digested) <= reader.raw.digested && reader.FailsForReason(r.Err?)
    ensures r.Ok? ==> reader.buffer == [] && reader.raw.sawEof
  {
    var more := true;
    while more
      invariant reader.Valid() && !reader.closed && old(reader.raw.digested) <= reader.raw.digested
      invariant reader.FailsForReason(false)
      invariant !more ==> reader.buffer == [] && reader.raw.sawEof
      decreases more, reader.raw.expectedSize - |reader.delivered|
    {
      ReaderRunKeeps(reader.calls);
      var chunk;
      ghost var taken;
      chunk, taken := reader.Read(reader.bufferSize);
      if chunk.Err? {
        return Err(chunk.error);
      }
      ReaderRunKeeps(reader.calls);
      more := chunk.value != [];
    }
    return Ok(());
  }

  /** What was read lies in order in `whole`, and `gap` bytes were lost before the last byte read. */
  ghost predicate PartOf(chunks: seq<Bytes>, whole: Bytes, gap: nat) {
    && Subsequence(Concat(chunks), whole)
    && (gap == 0 ==> Concat(chunks) <= whole)
    && (Distinct(whole) ==> (Concat(chunks) <= whole <==> gap == 0))
  }

  lemma RunIsPart(calls: seq<ReaderCall>, chunks: seq<Bytes>, whole: Bytes)
    requires Concat(chunks) == ReaderRun(calls).delivered && ReaderRun(calls).digested <= whole
    ensures PartOf(chunks, whole, ReaderRun(calls).gap)
    ensures ReaderRun(calls).dropped == 0 ==> ReaderRun(calls).gap == 0
  {
    ReaderRunKeeps(calls);
    PrefixIffNoGap(ReaderRun(calls), whole);
    DeliveredInOrder(ReaderRun(calls), whole);
  }

  /** The body and, whatever became of it, the reading of the rest: `complete` says that the bytes
   *  have the expected size and digest and that the end was seen. */
  method ConsumeAll(file: WatchedFile, expected: Digest, expectedSize: nat, bufferSize: nat,
                    actions: seq<ConsumerAction>, sha: Hash)
    returns (consumed: Result<seq<Bytes>, ArtifactError>, complete: bool,
             ghost whole: Bytes, ghost gap: nat, ghost failures: nat)
    requires file.Valid() && file.offset == 0 && bufferSize > 0
    modifies file
    ensures file.approvals == old(file.approvals)
    ensures file.Valid() && file.faults >= old(file.faults) && (file.intact ==> old(file.intact))
    ensures complete ==> |whole| == expectedSize && sha(whole) == expected
    ensures complete && consumed.Ok? ==> CloseReader !in actions && PartOf(consumed.value, whole, gap)
    ensures complete && consumed.Ok? && failures == 0 ==> gap == 0 && file.faults == old(file.faults)
    ensures CatchesNothing(actions) ==> failures == 0
    ensures complete && consumed.Ok? && file.intact && |file.content| <= expectedSize ==>
      failures <= file.faults - old(file.faults)
    ensures complete && file.intact && |file.content| <= expectedSize ==> whole == file.content
    ensures file.intact && file.faults == old(file.faults) && CloseReader !in actions
            && |file.content| == expectedSize && sha(file.content) == expected ==>
      complete && consumed == Ok(Slices(file.content, actions))
  {
    var raw := new VerifiedReader(file, expectedSize);
    var reader := new BufferedReader(raw, bufferSize);
    consumed, failures := Consume(reader, actions);
    ghost var calls := reader.calls;
    complete, whole, gap := false, [], reader.gap;
    if reader.closed {
      return;
    }
    var drained := Drain(reader);
    whole := raw.digested;
    if drained.Ok? {
      DigestedIsContent(raw);
    }
    complete := drained.Ok? && raw.byteCount == expectedSize && sha(raw.digested) == expected && raw.sawEof;
    if consumed.Ok? {
      RunIsPart(calls, consumed.value, whole);
    }
  }

  /** `verified_artifact_reader` around a body that performs `actions`. On a normal exit there is
   *  one string of the expected size and digest that holds, in order, what the body read. It
   *  starts with what the body read if no byte was dropped before the last one read; that is so
   *  if the body went on after no failed read, and for distinct bytes it is necessary. If nobody
   *  changes the file, that string is its content, and a body that leaves the reader open and
   *  catches no error reads its slices exactly if the arguments are accepted, the content is the
   *  expected one and no call fails. */
  method VerifiedSession(file: WatchedFile, expected: Digest, expectedSize: int, maxBytes: int, bufferSize: int,
                         actions: seq<ConsumerAction>, sha: Hash)
    returns (r: Result<seq<Bytes>, ArtifactError>, ghost whole: Bytes, ghost gap: nat, ghost failures: nat)
    requires file.Valid()
    modifies file
    ensures file.Valid() && file.faults >= old(file.faults) && (file.intact ==> old(file.intact))
    ensures r.Ok? ==> ArgumentsAccepted(expected, expectedSize, maxBytes, bufferSize)
    ensures r.Ok? ==> |whole| == expectedSize && sha(whole) == expected && Subsequence(Concat(r.value), whole)
    ensures r.Ok? && gap == 0 ==> Concat(r.value) <= whole
    ensures r.Ok? && Distinct(whole) ==> (Concat(r.value) <= whole <==> gap == 0)
    ensures r.Ok? && failures == 0 ==> gap == 0 && file.faults == old(file.faults)
    ensures CatchesNothing(actions) ==> failures == 0
    ensures CloseReader in actions ==> r.Err?
    ensures r.Ok? ==> file.approvals == old(file.approvals) + [old(file.readCalls), file.readCalls]
    // when nobody interferes
    ensures file.intact && r.Ok? ==> whole == file.content && failures <= file.faults - old(file.faults)
    ensures file.intact && file.faults == old(file.faults) ==>
      if Acceptable(file, expected, expectedSize, maxBytes, bufferSize, sha) && CloseReader !in actions
        then r == Ok(Slices(file.content, actions)) else r.Err?
  {
    whole, gap, failures := [], 0, 0;
    if !ArgumentsAccepted(expected, expectedSize, maxBytes, bufferSize) {
      return Err(Refused), [], 0, 0;
    }
    var isOpen := file.Open();
    if !isOpen {
      return Err(Failed), [], 0, 0;
    }
    var before := file.LooksRight(expected, expectedSize, sha);
    if !before {
      return Err(Failed), [], 0, 0;
    }
    var consumed, complete;
    consumed, complete, whole, gap, failures := ConsumeAll(file, expected, expectedSize, bufferSize, actions, sha);
    if !complete {
      return Err(Failed), [], gap, failures;
    }
    var after := file.LooksRight(expected, expectedSize, sha);
    if !after || consumed.Err? {
      return Err(Failed), [], gap, failures;
    }
    return consumed, whole, gap, failures;
  }

  /** The arguments are accepted and the file holds what is expected. */
  ghost predicate Acceptable(file: WatchedFile, expected: Digest, expectedSize: int, maxBytes: int, bufferSize: int,
                             sha: Hash)
  {
    && ArgumentsAccepted(expected, expectedSize, maxBytes, bufferSize)
    && |file.content| == expectedSize && sha(file.content) == expected
  }

  /** `read_verified_artifact_bytes`. If nobody changes the file, it returns the content exactly if
   *  the arguments are accepted, the content is the expected one and no call fails. */
  method ReadVerifiedBytes(file: WatchedFile, expected: Digest, expectedSize: int, maxBytes: int, sha: Hash)
    returns (r: Result<Bytes, ArtifactError>)
    requires file.Valid()
    modifies file
    ensures r.Ok? ==> ArgumentsAccepted(expected, expectedSize, maxBytes, CHUNK_BYTES)
    ensures r.Ok? ==> |r.value| == expectedSize && sha(r.value) == expected
    ensures file.Valid() && file.faults >= old(file.faults) && (file.intact ==> old(file.intact))
    ensures r.Ok? ==> file.faults == old(file.faults)
    ensures file.intact ==>
      (r == Ok(file.content) <==>
         Acceptable(file, expected, expectedSize, maxBytes, CHUNK_BYTES, sha) && file.faults == old(file.faults))
    ensures file.intact && r.Ok? ==> r.value == file.content
  {
    if maxBytes <= 0 {
      return Err(Refused);
    }
    ghost var whole, gap, failures;
    var chunks;
    var actions := [ReadUpTo(maxBytes + 1, false)];
    chunks, whole, gap, failures := VerifiedSession(file, expected, expectedSize, maxBytes, CHUNK_BYTES, actions, sha);
    if chunks.Err? {
      return Err(chunks.error);
    }
    var payload := Concat(chunks.value);
    if file.intact {
      SlicesAreContent(file.content, actions);
    }
    if |payload| != expectedSize {
      return Err(Refused);
    }
    assert payload == whole;
    return Ok(payload);
  }
}
