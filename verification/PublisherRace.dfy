/** Any number of publishers aimed at one name, as a state machine: every step of the schedule
 *  lets one publisher make its next system call, which may fail without effect. */
module PublisherRace {
  import opened Arithmetic
  import opened Wrappers
  import opened FileSystem
  import opened DescriptorIO

  const PENDING_SUFFIX := ".pending"

  /** The descriptor digest: one seek, reads until the expected size, one read for the end. */
  datatype DigestStep = Seek | ReadMore(got: Bytes) | ReadEnd(got: Bytes)

  /** The next system call of a publisher. */
  datatype Pc =
    | OpenParent | StatTarget | OpenPending(attempt: nat)
    | FstatCreated | Fchmod | Write(written: nat) | FsyncFile | PreDigest(digest: DigestStep) | StatPending | Rename
    | StatFinal | FsyncParent | FstatFile | StatAgain(descriptorHolds: bool) | PostDigest(digest: DigestStep)
    | OpenVerify | FstatParent | FstatVerify | StatVisible
    | Returned(sha256: Digest, size: nat) | Raised

  datatype Publisher = Publisher(
    encoded: Bytes, pc: Pc,
    /** Whether the pending entry was created, and if so its name and inode. */
    created: bool, pending: Name, inode: Inode,
    /** Whether the rename succeeded. */
    renamed: bool)

  datatype Config = Config(target: Name, sha: Hash)

  datatype World = World(entries: map<Name, Inode>, files: map<Inode, Bytes>, unused: Inode,
                         publishers: seq<Publisher>) {
    function BytesOf(i: Inode): Bytes {
      if i in files then files[i] else []
    }

    function NamesOf(i: Inode): set<Name> {
      set n | n in entries && entries[n] == i
    }

    predicate Names(n: Name, i: Inode) {
      n in entries && entries[n] == i
    }

    /** Only the program counter of publisher p changes. */
    function Move(p: nat, pc: Pc): World
      requires p < |publishers|
    {
      this.(publishers := publishers[p := publishers[p].(pc := pc)])
    }
  }

  /** What the system decides: the call fails, or it succeeds; then `token` is the random token
   *  of a pending name and `count` how many bytes a write or read transfers. */
  datatype Choice = Fail | Go(token: string, count: nat)

  function Start(encoded: Bytes): Publisher {
    Publisher(encoded, if encoded == [] then Raised else OpenParent, false, "", 0, false)
  }

  /** One system call of the digest; `after` is where a matching digest leads. */
  function DigestNext(c: Config, w: World, p: nat, step: DigestStep, count: nat, wrap: DigestStep -> Pc,
                      after: Pc): World
    requires p < |w.publishers|
  {
    var me := w.publishers[p];
    var bytes := w.BytesOf(me.inode);
    match step
    case Seek => w.Move(p, wrap(ReadMore([])))
    case ReadMore(got) =>
      if |got| >= |me.encoded| || |got| >= |bytes| then w.Move(p, Raised)
      else
        var limit := Min(Min(CHUNK_BYTES, |me.encoded| - |got|), |bytes| - |got|);
        var longer := got + bytes[|got|..|got| + Min(count + 1, limit)];
        w.Move(p, wrap(if |longer| == |me.encoded| then ReadEnd(longer) else ReadMore(longer)))
    case ReadEnd(got) =>
      w.Move(p, if |bytes| > |got| || c.sha(got) != c.sha(me.encoded) then Raised else after)
  }

  function CreatePending(c: Config, w: World, p: nat, attempt: nat, token: string): World
    requires p < |w.publishers|
  {
    var name := HiddenName(c.target, token, PENDING_SUFFIX);
    if name in w.entries then w.Move(p, if attempt + 1 < ATTEMPTS then OpenPending(attempt + 1) else Raised)
    else
      World(w.entries[name := w.unused], w.files[w.unused := []], w.unused + 1,
            w.publishers[p := w.publishers[p].(
              pc := FstatCreated, created := true, pending := name, inode := w.unused)])
  }

  function WriteSome(w: World, p: nat, written: nat, count: nat): World
    requires p < |w.publishers|
  {
    var me := w.publishers[p];
    if written >= |me.encoded| || count == 0 then w.Move(p, Raised)
    else
      var next := written + Min(count, |me.encoded| - written);
      var w' := w.(files := w.files[me.inode := w.BytesOf(me.inode) + me.encoded[written..next]]);
      w'.Move(p, if next == |me.encoded| then FsyncFile else Write(next))
  }

  function RenameToTarget(c: Config, w: World, p: nat): World
    requires p < |w.publishers|
  {
    var me := w.publishers[p];
    if me.pending !in w.entries || c.target in w.entries then w.Move(p, Raised)
    else
      w.(entries := (w.entries - {me.pending})[c.target := w.entries[me.pending]],
         publishers := w.publishers[p := me.(pc := StatFinal, renamed := true)])
  }

  /** Where a successful call that changes nothing on disk leads. */
  function LookAt(c: Config, w: World, me: Publisher): Pc {
    match me.pc
    case OpenParent => StatTarget
    case StatTarget => if c.target in w.entries then Raised else OpenPending(0)
    case FstatCreated => Fchmod
    case Fchmod => Write(0)
    case FsyncFile => PreDigest(Seek)
    case StatPending => if w.Names(me.pending, me.inode) then Rename else Raised
    case StatFinal => if w.Names(c.target, me.inode) then FsyncParent else Raised
    case FsyncParent => FstatFile
    case FstatFile => StatAgain(|w.BytesOf(me.inode)| == |me.encoded| && |w.NamesOf(me.inode)| == 1)
    case StatAgain(descriptorHolds) =>
      if descriptorHolds && w.Names(c.target, me.inode) && |w.BytesOf(me.inode)| == |me.encoded|
        then PostDigest(Seek) else Raised
    case OpenVerify => FstatParent
    case FstatParent => FstatVerify
    case FstatVerify => StatVisible
    case StatVisible => if w.Names(c.target, me.inode) then Returned(c.sha(me.encoded), |me.encoded|) else Raised
    case other => other
  }

  /** One system call of `publish_bytes_without_overwrite` by publisher p. */
  function Step(c: Config, w: World, p: nat, choice: Choice): World
    requires p < |w.publishers|
  {
    var me := w.publishers[p];
    if me.pc.Returned? || me.pc.Raised? then w
    else if choice.Fail? then w.Move(p, Raised)
    else if me.pc.OpenPending? then CreatePending(c, w, p, me.pc.attempt, choice.token)
    else if me.pc.Write? then WriteSome(w, p, me.pc.written, choice.count)
    else if me.pc.PreDigest? then DigestNext(c, w, p, me.pc.digest, choice.count, s => PreDigest(s), StatPending)
    else if me.pc.PostDigest? then DigestNext(c, w, p, me.pc.digest, choice.count, s => PostDigest(s), OpenVerify)
    else if me.pc.Rename? then RenameToTarget(c, w, p)
    else w.Move(p, LookAt(c, w, me))
  }

  /** A run: which publisher moves next and what the system decides, step after step. */
  function Exec(c: Config, w: World, schedule: seq<(nat, Choice)>): (r: World)
    ensures |r.publishers| == |w.publishers|
  {
    if schedule == [] then w
    else
      var before := Exec(c, w, schedule[..|schedule| - 1]);
      var (p, choice) := schedule[|schedule| - 1];
      if p < |before.publishers| then Step(c, before, p, choice) else before
  }

  // ----- The invariant ---------------------------------------------------------------------

  ghost predicate Initial(w: World) {
    && (forall n :: n in w.entries ==> w.entries[n] in w.files)
    && (forall i :: i in w.files ==> i < w.unused)
    && (forall j :: 0 <= j < |w.publishers| ==> w.publishers[j] == Start(w.publishers[j].encoded))
  }

  predicate DigestFits(step: DigestStep, encoded: Bytes) {
    match step
    case Seek => true
    case ReadMore(got) => |got| < |encoded| && got <= encoded
    case ReadEnd(got) => got == encoded
  }

  /** What the file of a publisher that created one holds, by program counter. */
  predicate ContentFits(c: Config, me: Publisher, bytes: Bytes) {
    match me.pc
    case OpenParent => false
    case StatTarget => false
    case OpenPending(_) => false
    case FstatCreated => bytes == [] && !me.renamed
    case Fchmod => bytes == [] && !me.renamed
    case Write(written) => written < |me.encoded| && bytes == me.encoded[..written] && !me.renamed
    case FsyncFile => bytes == me.encoded && !me.renamed
    case PreDigest(step) => bytes == me.encoded && !me.renamed && DigestFits(step, me.encoded)
    case StatPending => bytes == me.encoded && !me.renamed
    case Rename => bytes == me.encoded && !me.renamed
    case PostDigest(step) => bytes == me.encoded && me.renamed && DigestFits(step, me.encoded)
    case Returned(sha256, size) => bytes == me.encoded && me.renamed && sha256 == c.sha(me.encoded)
      && size == |me.encoded|
    case Raised => bytes <= me.encoded && (me.renamed ==> bytes == me.encoded)
    case _ => bytes == me.encoded && me.renamed
  }

  function Location(c: Config, me: Publisher): Name {
    if me.renamed then c.target else me.pending
  }

  /** A dot, the target, a dot, a token and the suffix. */
  predicate IsPendingName(target: Name, pending: Name) {
    && |pending| >= |target| + 10 && pending[0] == '.' && pending[1..|target| + 1] == target
    && pending[|target| + 1] == '.' && pending[|pending| - 8..] == ".pending"
  }

  /** Publisher j: its file is new, linked exactly where it should be, and holds what the
   *  program counter says. */
  ghost predicate PublisherFits(c: Config, init: World, w: World, j: nat)
    requires j < |w.publishers| == |init.publishers|
  {
    var me := w.publishers[j];
    && me.encoded == init.publishers[j].encoded
    && (!me.created ==> !me.renamed && (me.pc.OpenParent? || me.pc.StatTarget? || me.pc.OpenPending? || me.pc.Raised?))
    && (me.pc.OpenPending? ==> me.pc.attempt < 100)
    && (me.created || !me.pc.Raised? ==> me.encoded != [])
    && (me.created ==>
          && IsPendingName(c.target, me.pending)
          && init.unused <= me.inode < w.unused && me.inode in w.files
          && w.NamesOf(me.inode) == {Location(c, me)}
          && Location(c, me) !in init.entries
          && (!me.renamed ==> me.pending != c.target)
          && ContentFits(c, me, w.files[me.inode]))
  }

  ghost predicate SomeoneRenamed(w: World) {
    exists j :: 0 <= j < |w.publishers| && w.publishers[j].renamed
  }

  ghost predicate Distinct(w: World) {
    forall j, k :: 0 <= j < k < |w.publishers| && w.publishers[j].created && w.publishers[k].created ==>
      w.publishers[j].inode != w.publishers[k].inode
  }

  ghost predicate Invariant(c: Config, init: World, w: World) {
    && |w.publishers| == |init.publishers| && w.unused >= init.unused
    && (forall n :: n in w.entries ==> w.entries[n] in w.files)
    && (forall i :: i in w.files ==> i < w.unused)
    && (forall i :: i in init.files ==> i < init.unused)
    && Kept(init, w) && Distinct(w)
    && (c.target in w.entries && c.target !in init.entries ==> SomeoneRenamed(w))
    && forall j :: 0 <= j < |w.publishers| ==> PublisherFits(c, init, w, j)
  }

  /** Entries and files that existed at the start are exactly what they were. */
  ghost predicate Kept(init: World, w: World) {
    && (forall n :: n in init.entries ==> w.Names(n, init.entries[n]))
    && (forall i :: i in init.files ==> i in w.files && w.files[i] == init.files[i])
  }

  lemma InitialInvariant(c: Config, init: World)
    requires Initial(init)
    ensures Invariant(c, init, init)
  {
  }

  /** A step that only moves the program counter of p to a place that fits. */
  lemma MoveKeeps(c: Config, init: World, w: World, p: nat, pc: Pc)
    requires Invariant(c, init, w) && p < |w.publishers| && !w.publishers[p].pc.Raised?
    requires var me := w.publishers[p].(pc := pc);
      if me.created then ContentFits(c, me, w.BytesOf(me.inode))
      else pc.Raised? || pc.StatTarget? || (pc.OpenPending? && pc.attempt < 100)
    ensures Invariant(c, init, w.Move(p, pc))
  {
    var w' := w.Move(p, pc);
    if SomeoneRenamed(w) {
      var j :| 0 <= j < |w.publishers| && w.publishers[j].renamed;
      assert w'.publishers[j].renamed;
    }
    forall j | 0 <= j < |w'.publishers| ensures PublisherFits(c, init, w', j) {
      assert PublisherFits(c, init, w, j);
      assert w'.NamesOf(w.publishers[j].inode) == w.NamesOf(w.publishers[j].inode);
    }
  }

  lemma RenamersStay(w: World, w': World, p: nat)
    requires p < |w.publishers| == |w'.publishers| && SomeoneRenamed(w)
    requires forall j :: 0 <= j < |w.publishers| && j != p ==> w'.publishers[j] == w.publishers[j]
    requires w.publishers[p].renamed ==> w'.publishers[p].renamed
    ensures SomeoneRenamed(w')
  {
    var j :| 0 <= j < |w.publishers| && w.publishers[j].renamed;
    assert w'.publishers[j].renamed;
  }

  /** A publisher is unaffected by whatever leaves its inode's names and bytes alone. */
  lemma OthersFit(c: Config, init: World, w: World, w': World, j: nat)
    requires Invariant(c, init, w) && j < |w.publishers| == |w'.publishers| && w'.publishers[j] == w.publishers[j]
    requires w'.unused >= w.unused
    requires var me := w.publishers[j];
      me.created && me.inode in w.files ==>
        && me.inode in w'.files && w'.files[me.inode] == w.files[me.inode]
        && w'.NamesOf(me.inode) == w.NamesOf(me.inode)
    ensures PublisherFits(c, init, w', j)
  {
    assert PublisherFits(c, init, w, j);
  }

  lemma HiddenIsPending(target: Name, token: string)
    ensures IsPendingName(target, HiddenName(target, token, PENDING_SUFFIX))
  {
    var pending := HiddenName(target, token, PENDING_SUFFIX);
    assert pending == ['.'] + target + ['.'] + token + ".pending";
    assert pending[1..|target| + 1] == target;
    assert pending[|pending| - 8..] == ".pending";
  }

  lemma CreateKeeps(c: Config, init: World, w: World, p: nat, attempt: nat, token: string)
    requires Invariant(c, init, w) && p < |w.publishers| && w.publishers[p].pc == OpenPending(attempt)
    ensures Invariant(c, init, CreatePending(c, w, p, attempt, token))
  {
    assert PublisherFits(c, init, w, p);
    var name := HiddenName(c.target, token, PENDING_SUFFIX);
    if name in w.entries {
      MoveKeeps(c, init, w, p, if attempt + 1 < ATTEMPTS then OpenPending(attempt + 1) else Raised);
    } else {
      var w' := CreatePending(c, w, p, attempt, token);
      HiddenIsPending(c.target, token);
      forall j | 0 <= j < |w.publishers| && w.publishers[j].created ensures w.publishers[j].inode < w.unused {
        assert PublisherFits(c, init, w, j);
      }
      if SomeoneRenamed(w) {
        RenamersStay(w, w', p);
      }
      forall j | 0 <= j < |w'.publishers| ensures PublisherFits(c, init, w', j) {
        assert PublisherFits(c, init, w, j);
        if j == p {
          assert w'.NamesOf(w.unused) == {name};
        } else {
          if w.publishers[j].created {
            assert w'.NamesOf(w.publishers[j].inode) == w.NamesOf(w.publishers[j].inode);
          }
          OthersFit(c, init, w, w', j);
        }
      }
    }
  }

  lemma WriteKeeps(c: Config, init: World, w: World, p: nat, written: nat, count: nat)
    requires Invariant(c, init, w) && p < |w.publishers| && w.publishers[p].pc == Write(written)
    ensures Invariant(c, init, WriteSome(w, p, written, count))
  {
    assert PublisherFits(c, init, w, p);
    var me := w.publishers[p];
    if count == 0 {
      MoveKeeps(c, init, w, p, Raised);
    } else {
      var w' := WriteSome(w, p, written, count);
      var next := written + Min(count, |me.encoded| - written);
      assert me.encoded[..written] + me.encoded[written..next] == me.encoded[..next];
      assert me.encoded[..|me.encoded|] == me.encoded;
      if SomeoneRenamed(w) {
        RenamersStay(w, w', p);
      }
      forall j | 0 <= j < |w'.publishers| ensures PublisherFits(c, init, w', j) {
        assert PublisherFits(c, init, w, j);
        assert w'.NamesOf(w.publishers[j].inode) == w.NamesOf(w.publishers[j].inode);
        if j != p {
          OthersFit(c, init, w, w', j);
        }
      }
    }
  }

  lemma RenameKeeps(c: Config, init: World, w: World, p: nat)
    requires Invariant(c, init, w) && p < |w.publishers| && w.publishers[p].pc == Rename
    ensures Invariant(c, init, RenameToTarget(c, w, p))
  {
    assert PublisherFits(c, init, w, p);
    var me := w.publishers[p];
    assert me.pending in w.NamesOf(me.inode);
    if c.target in w.entries {
      MoveKeeps(c, init, w, p, Raised);
    } else {
      var w' := RenameToTarget(c, w, p);
      assert w'.publishers[p].renamed;
      forall n | n in init.entries ensures w'.Names(n, init.entries[n]) {
        assert w.Names(n, init.entries[n]);
      }
      forall j | 0 <= j < |w'.publishers| ensures PublisherFits(c, init, w', j) {
        assert PublisherFits(c, init, w, j);
        if j == p {
          assert forall n :: n in w.NamesOf(me.inode) ==> n == me.pending;
          assert w'.NamesOf(me.inode) == {c.target};
        } else {
          if w.publishers[j].created {
            assert w'.NamesOf(w.publishers[j].inode) == w.NamesOf(w.publishers[j].inode);
          }
          OthersFit(c, init, w, w', j);
        }
      }
    }
  }

  /** Where a digest of the right bytes goes next; None when it is complete. */
  function DigestAfter(c: Config, encoded: Bytes, step: DigestStep, count: nat): (next: Option<DigestStep>)
    requires DigestFits(step, encoded) && encoded != []
    ensures next.Some? ==> DigestFits(next.value, encoded)
  {
    match step
    case Seek => Some(ReadMore([]))
    case ReadMore(got) =>
      var longer := got + encoded[|got|..|got| + Min(count + 1, Min(CHUNK_BYTES, |encoded| - |got|))];
      assert longer <= encoded;
      Some(if |longer| == |encoded| then ReadEnd(longer) else ReadMore(longer))
    case ReadEnd(_) => None
  }

  /** A digest step of a publisher whose file holds the right bytes. */
  lemma DigestGoesOn(c: Config, init: World, w: World, p: nat, step: DigestStep, count: nat)
    requires Invariant(c, init, w) && p < |w.publishers|
    requires w.publishers[p].pc == PreDigest(step) || w.publishers[p].pc == PostDigest(step)
    ensures DigestFits(step, w.publishers[p].encoded) && w.publishers[p].encoded != []
    ensures var next := DigestAfter(c, w.publishers[p].encoded, step, count);
      && (w.publishers[p].pc.PreDigest? ==>
            DigestNext(c, w, p, step, count, s => PreDigest(s), StatPending)
            == w.Move(p, if next.Some? then PreDigest(next.value) else StatPending))
      && (w.publishers[p].pc.PostDigest? ==>
            DigestNext(c, w, p, step, count, s => PostDigest(s), OpenVerify)
            == w.Move(p, if next.Some? then PostDigest(next.value) else OpenVerify))
  {
    assert PublisherFits(c, init, w, p);
  }

  lemma DigestKeeps(c: Config, init: World, w: World, p: nat, choice: Choice)
    requires Invariant(c, init, w) && p < |w.publishers| && choice.Go?
    requires w.publishers[p].pc.PreDigest? || w.publishers[p].pc.PostDigest?
    ensures Invariant(c, init, Step(c, w, p, choice))
  {
    var me := w.publishers[p];
    DigestGoesOn(c, init, w, p, me.pc.digest, choice.count);
    assert PublisherFits(c, init, w, p);
    MoveKeeps(c, init, w, p, Step(c, w, p, choice).publishers[p].pc);
  }

  lemma StepKeeps(c: Config, init: World, w: World, p: nat, choice: Choice)
    requires Invariant(c, init, w) && p < |w.publishers|
    ensures Invariant(c, init, Step(c, w, p, choice))
  {
    assert PublisherFits(c, init, w, p);
    var me := w.publishers[p];
    if me.pc.Returned? || me.pc.Raised? {
    } else if choice.Fail? {
      MoveKeeps(c, init, w, p, Raised);
    } else if me.pc.OpenPending? {
      CreateKeeps(c, init, w, p, me.pc.attempt, choice.token);
    } else if me.pc.Write? {
      WriteKeeps(c, init, w, p, me.pc.written, choice.count);
    } else if me.pc.PreDigest? || me.pc.PostDigest? {
      DigestKeeps(c, init, w, p, choice);
    } else if me.pc.Rename? {
      RenameKeeps(c, init, w, p);
    } else {
      MoveKeeps(c, init, w, p, LookAt(c, w, me));
    }
  }

  lemma {:induction false} ExecKeeps(c: Config, init: World, schedule: seq<(nat, Choice)>)
    requires Initial(init)
    ensures Invariant(c, init, Exec(c, init, schedule))
  {
    if schedule == [] {
      InitialInvariant(c, init);
    } else {
      ExecKeeps(c, init, schedule[..|schedule| - 1]);
      var before := Exec(c, init, schedule[..|schedule| - 1]);
      var (p, choice) := schedule[|schedule| - 1];
      if p < |before.publishers| {
        StepKeeps(c, init, before, p, choice);
      }
    }
  }

  // ----- What every run guarantees -----------------------------------------------------------

  /** What an observer of `name` sees. */
  function Shown(w: World, name: Name): Option<Bytes> {
    if name in w.entries then Some(w.BytesOf(w.entries[name])) else None
  }

  predicate Finished(w: World, j: nat)
    requires j < |w.publishers|
  {
    w.publishers[j].pc.Returned? || w.publishers[j].pc.Raised?
  }

  /** At most one publisher ever gets past its rename, so at most one returns. */
  lemma AtMostOneWinner(c: Config, init: World, schedule: seq<(nat, Choice)>, j: nat, k: nat)
    requires Initial(init) && j < |init.publishers| && k < |init.publishers|
    ensures var w := Exec(c, init, schedule);
      (w.publishers[j].renamed || w.publishers[j].pc.Returned?)
      && (w.publishers[k].renamed || w.publishers[k].pc.Returned?)
      ==> j == k
  {
    ExecKeeps(c, init, schedule);
    var w := Exec(c, init, schedule);
    assert PublisherFits(c, init, w, j) && PublisherFits(c, init, w, k);
    if w.publishers[j].renamed && w.publishers[k].renamed {
      assert c.target in w.NamesOf(w.publishers[j].inode) && c.target in w.NamesOf(w.publishers[k].inode);
    }
  }

  /** A publisher that has returned, at any time before the end of the run: the name held
   *  nothing at the start and now is its file, with exactly its bytes and linked once. */
  lemma ReturnedIsPublished(c: Config, init: World, schedule: seq<(nat, Choice)>, j: nat)
    requires Initial(init) && j < |init.publishers|
    requires Exec(c, init, schedule).publishers[j].pc.Returned?
    ensures var w, me := Exec(c, init, schedule), Exec(c, init, schedule).publishers[j];
      && me.encoded == init.publishers[j].encoded && me.encoded != []
      && Shown(w, c.target) == Some(me.encoded) && w.NamesOf(w.entries[c.target]) == {c.target}
      && me.pc == Returned(c.sha(me.encoded), |me.encoded|)
      && c.target !in init.entries
  {
    ExecKeeps(c, init, schedule);
    var w := Exec(c, init, schedule);
    assert PublisherFits(c, init, w, j);
    assert c.target in w.NamesOf(w.publishers[j].inode);
  }

  /** A return is final, and so is an exception: whatever is scheduled afterwards, the publisher
   *  stays as it is. */
  lemma {:induction false} FinishedStays(
    c: Config, init: World, schedule: seq<(nat, Choice)>, later: seq<(nat, Choice)>, j: nat)
    requires j < |init.publishers| && Finished(Exec(c, init, schedule), j)
    ensures Exec(c, init, schedule + later).publishers[j] == Exec(c, init, schedule).publishers[j]
  {
    if later == [] {
      assert schedule + later == schedule;
    } else {
      var shorter, last := later[..|later| - 1], later[|later| - 1];
      FinishedStays(c, init, schedule, shorter, j);
      assert schedule + later == (schedule + shorter) + [last];
      ExecOneMore(c, init, schedule + shorter, last, j);
    }
  }

  lemma ExecOneMore(c: Config, init: World, schedule: seq<(nat, Choice)>, last: (nat, Choice), j: nat)
    requires j < |init.publishers| && Finished(Exec(c, init, schedule), j)
    ensures Exec(c, init, schedule + [last]).publishers[j] == Exec(c, init, schedule).publishers[j]
  {
    assert (schedule + [last])[..|schedule|] == schedule;
    StepLeavesOthers(c, Exec(c, init, schedule), last.0, last.1, j);
  }

  lemma StepLeavesOthers(c: Config, w: World, p: nat, choice: Choice, j: nat)
    requires j < |w.publishers| && (j != p || Finished(w, j))
    ensures p < |w.publishers| ==> Step(c, w, p, choice).publishers[j] == w.publishers[j]
  {
  }

  /** A failing call ends the publisher with an exception, whatever is scheduled afterwards, and
   *  leaves the disk alone. */
  lemma FailureRaises(c: Config, init: World, schedule: seq<(nat, Choice)>, later: seq<(nat, Choice)>, j: nat)
    requires j < |init.publishers| && !Finished(Exec(c, init, schedule), j)
    ensures Exec(c, init, schedule + [(j, Fail)] + later).publishers[j].pc.Raised?
    ensures Exec(c, init, schedule + [(j, Fail)]).entries == Exec(c, init, schedule).entries
    ensures Exec(c, init, schedule + [(j, Fail)]).files == Exec(c, init, schedule).files
  {
    assert (schedule + [(j, Fail)])[..|schedule|] == schedule;
    FinishedStays(c, init, schedule + [(j, Fail)], later, j);
  }

  predicate HasNotPassed(pc: Pc) {
    pc.OpenParent? || pc.StatTarget? || pc.Raised?
  }

  /** Looking at a taken name is the last call. */
  lemma TakenStops(c: Config, w: World, p: nat, choice: Choice)
    requires p < |w.publishers| && c.target in w.entries && HasNotPassed(w.publishers[p].pc)
    ensures var w', me := Step(c, w, p, choice), Step(c, w, p, choice).publishers[p];
      && HasNotPassed(me.pc) && me.created == w.publishers[p].created
      && w'.entries == w.entries && w'.files == w.files
  {
  }

  /** A name that is taken at the start: no publisher gets past its look at the name, whatever
   *  the schedule, so no pending file is ever made and the disk stays as it was. */
  lemma {:induction false} TakenNameIsRefused(c: Config, init: World, schedule: seq<(nat, Choice)>)
    requires Initial(init) && c.target in init.entries
    ensures var w := Exec(c, init, schedule);
      && w.entries == init.entries && w.files == init.files
      && forall j :: 0 <= j < |w.publishers| ==> HasNotPassed(w.publishers[j].pc)
  {
    if schedule != [] {
      var (p, choice) := schedule[|schedule| - 1];
      var before := Exec(c, init, schedule[..|schedule| - 1]);
      TakenNameIsRefused(c, init, schedule[..|schedule| - 1]);
      if p < |before.publishers| {
        TakenStops(c, before, p, choice);
        forall j | 0 <= j < |before.publishers| ensures HasNotPassed(Step(c, before, p, choice).publishers[j].pc) {
          TakenStopsEach(c, before, p, choice, j);
        }
      }
    } else {
      assert forall j :: 0 <= j < |init.publishers| ==> init.publishers[j] == Start(init.publishers[j].encoded);
    }
  }

  /** Nor does one that looks after somebody else's rename: from then on nobody who has not yet
   *  looked creates anything. */
  lemma {:induction false} LateComerIsRefused(
    c: Config, init: World, schedule: seq<(nat, Choice)>, later: seq<(nat, Choice)>, j: nat)
    requires Initial(init) && j < |init.publishers| && c.target in Exec(c, init, schedule).entries
    requires var pc := Exec(c, init, schedule).publishers[j].pc; pc.OpenParent? || pc.StatTarget?
    ensures c.target in Exec(c, init, schedule + later).entries
    ensures var me := Exec(c, init, schedule + later).publishers[j]; !me.created && HasNotPassed(me.pc)
  {
    if later == [] {
      assert schedule + later == schedule;
      ExecKeeps(c, init, schedule);
      NotYetCreated(c, init, Exec(c, init, schedule), j);
    } else {
      var shorter, last := later[..|later| - 1], later[|later| - 1];
      LateComerIsRefused(c, init, schedule, shorter, j);
      assert (schedule + later)[..|schedule + later| - 1] == schedule + shorter;
      ExecKeeps(c, init, schedule + shorter);
      var before := Exec(c, init, schedule + shorter);
      if last.0 < |before.publishers| {
        TargetStays(c, init, before, last.0, last.1);
        TakenStopsEach(c, before, last.0, last.1, j);
      }
    }
  }

  lemma NotYetCreated(c: Config, init: World, w: World, j: nat)
    requires Invariant(c, init, w) && j < |w.publishers|
    requires w.publishers[j].pc.OpenParent? || w.publishers[j].pc.StatTarget?
    ensures !w.publishers[j].created
  {
    assert PublisherFits(c, init, w, j);
  }

  lemma TakenStopsEach(c: Config, w: World, p: nat, choice: Choice, j: nat)
    requires p < |w.publishers| && j < |w.publishers| && c.target in w.entries && HasNotPassed(w.publishers[j].pc)
    ensures var me := Step(c, w, p, choice).publishers[j];
      HasNotPassed(me.pc) && me.created == w.publishers[j].created
  {
    if p == j {
      TakenStops(c, w, j, choice);
    } else {
      StepLeavesOthers(c, w, p, choice, j);
    }
  }

  /** At every moment the name is what it was at the start or one publisher's complete bytes,
   *  and nothing that existed at the start is replaced or altered. */
  lemma NeverPartial(c: Config, init: World, schedule: seq<(nat, Choice)>)
    requires Initial(init)
    ensures var w := Exec(c, init, schedule);
      || Shown(w, c.target) == Shown(init, c.target)
      || (c.target !in init.entries
            && exists j :: 0 <= j < |init.publishers|
                 && w.publishers[j].renamed && Shown(w, c.target) == Some(init.publishers[j].encoded))
    ensures Kept(init, Exec(c, init, schedule))
  {
    ExecKeeps(c, init, schedule);
    var w := Exec(c, init, schedule);
    if c.target in init.entries {
      assert w.Names(c.target, init.entries[c.target]);
    } else if c.target in w.entries {
      var j :| 0 <= j < |w.publishers| && w.publishers[j].renamed;
      assert PublisherFits(c, init, w, j);
      assert c.target in w.NamesOf(w.publishers[j].inode);
    }
  }

  // ----- Every publisher finishes -------------------------------------------------------------

  function DigestWork(step: DigestStep, size: nat): nat {
    match step
    case Seek => size + 2
    case ReadMore(got) => if |got| < size then size - |got| + 1 else 1
    case ReadEnd(_) => 1
  }

  /** How many system calls a publisher of `size` bytes may still make. */
  function Work(pc: Pc, size: nat): nat {
    match pc
    case OpenParent => 3 * size + ATTEMPTS + 24
    case StatTarget => 3 * size + ATTEMPTS + 23
    case OpenPending(attempt) => 3 * size + 22 + if attempt < ATTEMPTS then ATTEMPTS - attempt else 0
    case FstatCreated => 3 * size + 21
    case Fchmod => 3 * size + 20
    case Write(written) => 2 * size + 19 + if written < size then size - written else 0
    case FsyncFile => 2 * size + 19
    case PreDigest(step) => size + 16 + DigestWork(step, size)
    case StatPending => size + 16
    case Rename => size + 15
    case StatFinal => size + 14
    case FsyncParent => size + 13
    case FstatFile => size + 12
    case StatAgain(_) => size + 11
    case PostDigest(step) => 4 + DigestWork(step, size)
    case OpenVerify => 4
    case FstatParent => 3
    case FstatVerify => 2
    case StatVisible => 1
    case Returned(_, _) => 0
    case Raised => 0
  }

  lemma DigestWorks(c: Config, encoded: Bytes, step: DigestStep, count: nat)
    requires DigestFits(step, encoded) && encoded != []
    ensures var next := DigestAfter(c, encoded, step, count);
      next.Some? ==> DigestWork(next.value, |encoded|) < DigestWork(step, |encoded|)
  {
  }

  /** The step made by p, as a change of its program counter. */
  ghost predicate SpendsWork(w: World, w': World, p: nat)
    requires p < |w.publishers| == |w'.publishers|
  {
    && w'.publishers[p].encoded == w.publishers[p].encoded
    && Work(w'.publishers[p].pc, |w.publishers[p].encoded|) < Work(w.publishers[p].pc, |w.publishers[p].encoded|)
  }

  lemma DigestStepWorks(c: Config, init: World, w: World, p: nat, choice: Choice)
    requires Invariant(c, init, w) && p < |w.publishers| && choice.Go?
    requires w.publishers[p].pc.PreDigest? || w.publishers[p].pc.PostDigest?
    ensures SpendsWork(w, Step(c, w, p, choice), p)
  {
    var me := w.publishers[p];
    DigestGoesOn(c, init, w, p, me.pc.digest, choice.count);
    DigestWorks(c, me.encoded, me.pc.digest, choice.count);
  }

  lemma WriteWorks(w: World, p: nat, written: nat, count: nat)
    requires p < |w.publishers| && w.publishers[p].pc == Write(written)
    ensures SpendsWork(w, WriteSome(w, p, written, count), p)
  {
  }

  lemma EntryWorks(c: Config, w: World, p: nat, choice: Choice)
    requires p < |w.publishers| && choice.Go? && (w.publishers[p].pc.OpenPending? || w.publishers[p].pc.Rename?)
    ensures SpendsWork(w, Step(c, w, p, choice), p)
  {
  }

  lemma LookWorks(c: Config, w: World, me: Publisher)
    requires !(me.pc.OpenPending? || me.pc.Write? || me.pc.Rename? || me.pc.PreDigest? || me.pc.PostDigest?)
    requires !me.pc.Returned? && !me.pc.Raised?
    ensures Work(LookAt(c, w, me), |me.encoded|) < Work(me.pc, |me.encoded|)
  {
  }

  lemma StepWorks(c: Config, init: World, w: World, p: nat, choice: Choice)
    requires Invariant(c, init, w) && p < |w.publishers| && !Finished(w, p)
    ensures SpendsWork(w, Step(c, w, p, choice), p)
  {
    var me := w.publishers[p];
    if choice.Fail? {
    } else if me.pc.PreDigest? || me.pc.PostDigest? {
      DigestStepWorks(c, init, w, p, choice);
    } else if me.pc.Write? {
      WriteWorks(w, p, me.pc.written, choice.count);
    } else if me.pc.OpenPending? || me.pc.Rename? {
      EntryWorks(c, w, p, choice);
    } else {
      LookWorks(c, w, me);
    }
  }

  function StepsOf(schedule: seq<(nat, Choice)>, j: nat): nat {
    if schedule == [] then 0
    else StepsOf(schedule[..|schedule| - 1], j) + if schedule[|schedule| - 1].0 == j then 1 else 0
  }

  lemma {:induction false} WorkIsSpent(c: Config, init: World, schedule: seq<(nat, Choice)>, j: nat)
    requires Initial(init) && j < |init.publishers|
    ensures var me := Exec(c, init, schedule).publishers[j];
      || Finished(Exec(c, init, schedule), j)
      || Work(me.pc, |me.encoded|) + StepsOf(schedule, j) <= Work(OpenParent, |init.publishers[j].encoded|)
  {
    if schedule == [] {
      assert init.publishers[j] == Start(init.publishers[j].encoded);
    } else {
      var shorter := schedule[..|schedule| - 1];
      var (p, choice) := schedule[|schedule| - 1];
      var before := Exec(c, init, shorter);
      WorkIsSpent(c, init, shorter, j);
      ExecKeeps(c, init, shorter);
      if p != j {
        StepLeavesOthers(c, before, p, choice, j);
      } else if !Finished(before, j) {
        StepWorks(c, init, before, p, choice);
      }
    }
  }

  /** Whatever the system decides and the others do, a publisher has returned or raised after
   *  at most 3 n + 124 system calls of its own. */
  lemma EveryPublisherFinishes(c: Config, init: World, schedule: seq<(nat, Choice)>, j: nat)
    requires Initial(init) && j < |init.publishers|
    requires StepsOf(schedule, j) >= 3 * |init.publishers[j].encoded| + 124
    ensures Finished(Exec(c, init, schedule), j)
  {
    WorkIsSpent(c, init, schedule, j);
    ExecKeeps(c, init, schedule);
    var w := Exec(c, init, schedule);
    if !Finished(w, j) {
      StepWorks(c, init, w, j, Fail);
    }
  }

  // ----- No call is left out ---------------------------------------------------------------

  function DigestCalls(step: DigestStep): nat {
    match step
    case Seek => 0
    case ReadMore(_) => 1
    case ReadEnd(_) => 2
  }

  /** The fewest calls of its own that bring a publisher to its program counter. */
  function CallsBefore(pc: Pc): nat {
    match pc
    case OpenParent => 0
    case StatTarget => 1
    case OpenPending(attempt) => 2 + attempt
    case FstatCreated => 3
    case Fchmod => 4
    case Write(_) => 5
    case FsyncFile => 6
    case PreDigest(step) => 7 + DigestCalls(step)
    case StatPending => 10
    case Rename => 11
    case StatFinal => 12
    case FsyncParent => 13
    case FstatFile => 14
    case StatAgain(_) => 15
    case PostDigest(step) => 16 + DigestCalls(step)
    case OpenVerify => 19
    case FstatParent => 20
    case FstatVerify => 21
    case StatVisible => 22
    case Returned(_, _) => 23
    case Raised => 0
  }

  function SucceededCalls(schedule: seq<(nat, Choice)>, j: nat): nat {
    if schedule == [] then 0
    else
      var last := schedule[|schedule| - 1];
      SucceededCalls(schedule[..|schedule| - 1], j) + if last.0 == j && last.1.Go? then 1 else 0
  }

  lemma StepIsOneCall(c: Config, w: World, p: nat, choice: Choice)
    requires p < |w.publishers|
    ensures CallsBefore(Step(c, w, p, choice).publishers[p].pc)
      <= CallsBefore(w.publishers[p].pc) + if choice.Go? then 1 else 0
  {
    var me := w.publishers[p];
    if choice.Fail? {
    } else if me.pc.PreDigest? {
      DigestIsOneCall(c, w, p, me.pc.digest, choice.count, s => PreDigest(s), StatPending);
    } else if me.pc.PostDigest? {
      DigestIsOneCall(c, w, p, me.pc.digest, choice.count, s => PostDigest(s), OpenVerify);
    } else if !(me.pc.OpenPending? || me.pc.Write? || me.pc.Rename? || me.pc.Returned? || me.pc.Raised?) {
      LookIsOneCall(c, w, me);
    }
  }

  lemma LookIsOneCall(c: Config, w: World, me: Publisher)
    ensures CallsBefore(LookAt(c, w, me)) <= CallsBefore(me.pc) + 1
  {
  }

  lemma DigestIsOneCall(c: Config, w: World, p: nat, step: DigestStep, count: nat, wrap: DigestStep -> Pc, after: Pc)
    requires p < |w.publishers|
    ensures var pc := DigestNext(c, w, p, step, count, wrap, after).publishers[p].pc;
      || pc == Raised || (pc == after && step.ReadEnd?)
      || exists next :: pc == wrap(next) && DigestCalls(next) <= DigestCalls(step) + 1
  {
    var me := w.publishers[p];
    var pc := DigestNext(c, w, p, step, count, wrap, after).publishers[p].pc;
    match step
    case Seek => assert pc == wrap(ReadMore([]));
    case ReadMore(got) =>
      if pc != Raised {
        var bytes := w.BytesOf(me.inode);
        var limit := Min(Min(CHUNK_BYTES, |me.encoded| - |got|), |bytes| - |got|);
        var longer := got + bytes[|got|..|got| + Min(count + 1, limit)];
        assert pc == wrap(if |longer| == |me.encoded| then ReadEnd(longer) else ReadMore(longer));
      }
    case ReadEnd(_) =>
  }

  /** Every call is made: who has returned has looked at the name, created, restricted, written,
   *  synced and read back its file, renamed it, synced the directory, and looked again at both
   *  the file and the name, 23 successful calls at the least. */
  lemma NoCallIsLeftOut(c: Config, init: World, schedule: seq<(nat, Choice)>, j: nat)
    requires Initial(init) && j < |init.publishers|
    requires Exec(c, init, schedule).publishers[j].pc.Returned?
    ensures 23 <= SucceededCalls(schedule, j) <= StepsOf(schedule, j) <= |schedule|
  {
    StartsWithoutCalls(init, j);
    CallsOfReturned(c, init, schedule, j);
  }

  lemma CallsOfReturned(c: Config, init: World, schedule: seq<(nat, Choice)>, j: nat)
    requires j < |init.publishers| && CallsBefore(init.publishers[j].pc) == 0
    requires Exec(c, init, schedule).publishers[j].pc.Returned?
    ensures 23 <= SucceededCalls(schedule, j) <= StepsOf(schedule, j) <= |schedule|
  {
    CallsAreMade(c, init, schedule, j);
  }

  lemma StartsWithoutCalls(init: World, j: nat)
    requires Initial(init) && j < |init.publishers|
    ensures CallsBefore(init.publishers[j].pc) == 0
  {
    assert init.publishers[j] == Start(init.publishers[j].encoded);
  }

  lemma {:induction false} CallsAreMade(c: Config, init: World, schedule: seq<(nat, Choice)>, j: nat)
    requires j < |init.publishers| && CallsBefore(init.publishers[j].pc) == 0
    ensures CallsBefore(Exec(c, init, schedule).publishers[j].pc) <= SucceededCalls(schedule, j)
    ensures SucceededCalls(schedule, j) <= StepsOf(schedule, j) <= |schedule|
  {
    if schedule != [] {
      var shorter := schedule[..|schedule| - 1];
      var (p, choice) := schedule[|schedule| - 1];
      var before := Exec(c, init, shorter);
      CallsAreMade(c, init, shorter, j);
      if p < |before.publishers| {
        EachIsOneCall(c, before, p, choice, j);
      }
    }
  }

  lemma EachIsOneCall(c: Config, w: World, p: nat, choice: Choice, j: nat)
    requires p < |w.publishers| && j < |w.publishers|
    ensures CallsBefore(Step(c, w, p, choice).publishers[j].pc)
      <= CallsBefore(w.publishers[j].pc) + if p == j && choice.Go? then 1 else 0
  {
    if p == j {
      StepIsOneCall(c, w, p, choice);
    } else {
      StepLeavesOthers(c, w, p, choice, j);
    }
  }

  // ----- Runs in which no call fails -----------------------------------------------------------

  /** The step succeeds, transfers something, and draws a pending name nobody else drew, at the
   *  latest the hundredth time. */
  predicate Smooth(c: Config, w: World, p: nat, choice: Choice) {
    && choice.Go? && choice.count > 0
    && (p < |w.publishers| && w.publishers[p].pc.OpenPending? && w.publishers[p].pc.attempt >= 99 ==>
          HiddenName(c.target, choice.token, PENDING_SUFFIX) !in w.entries)
  }

  predicate SmoothRun(c: Config, init: World, schedule: seq<(nat, Choice)>) {
    schedule == [] ||
      var last := schedule[|schedule| - 1];
      var before := schedule[..|schedule| - 1];
      SmoothRun(c, init, before) && Smooth(c, Exec(c, init, before), last.0, last.1)
  }

  /** Publisher j only ever raised because the name was taken. */
  predicate Untroubled(c: Config, w: World, j: nat)
    requires j < |w.publishers|
  {
    var me := w.publishers[j];
    && (me.pc.Raised? ==> me.encoded == [] || (c.target in w.entries && !me.renamed))
    && (me.pc.StatAgain? ==> me.pc.descriptorHolds)
  }

  lemma SmoothStepRaisesOnlyIfTaken(c: Config, init: World, w: World, p: nat, choice: Choice)
    requires Invariant(c, init, w) && p < |w.publishers| && Untroubled(c, w, p) && Smooth(c, w, p, choice)
    ensures Untroubled(c, Step(c, w, p, choice), p)
  {
    assert PublisherFits(c, init, w, p);
    var me := w.publishers[p];
    if me.created {
      assert Location(c, me) in w.NamesOf(me.inode);
    }
    if me.pc.PreDigest? || me.pc.PostDigest? {
      DigestGoesOn(c, init, w, p, me.pc.digest, choice.count);
    }
  }

  lemma TargetStays(c: Config, init: World, w: World, p: nat, choice: Choice)
    requires Invariant(c, init, w) && p < |w.publishers| && c.target in w.entries
    ensures c.target in Step(c, w, p, choice).entries
  {
    assert PublisherFits(c, init, w, p);
  }

  lemma {:induction false} SmoothRunsAreUntroubled(c: Config, init: World, schedule: seq<(nat, Choice)>, j: nat)
    requires Initial(init) && SmoothRun(c, init, schedule) && j < |init.publishers|
    ensures Untroubled(c, Exec(c, init, schedule), j)
  {
    if schedule == [] {
      assert init.publishers[j] == Start(init.publishers[j].encoded);
    } else {
      var shorter := schedule[..|schedule| - 1];
      var (p, choice) := schedule[|schedule| - 1];
      var before := Exec(c, init, shorter);
      SmoothRunsAreUntroubled(c, init, shorter, j);
      ExecKeeps(c, init, shorter);
      if p == j {
        SmoothStepRaisesOnlyIfTaken(c, init, before, p, choice);
      } else if p < |before.publishers| {
        StepLeavesOthers(c, before, p, choice, j);
        if c.target in before.entries {
          TargetStays(c, init, before, p, choice);
        }
      }
    }
  }

  lemma FinishedAfterRename(c: Config, init: World, schedule: seq<(nat, Choice)>, j: nat)
    requires Initial(init) && SmoothRun(c, init, schedule) && j < |init.publishers|
    requires Exec(c, init, schedule).publishers[j].renamed && Finished(Exec(c, init, schedule), j)
    ensures Exec(c, init, schedule).publishers[j].pc.Returned?
  {
    var w := Exec(c, init, schedule);
    ExecKeeps(c, init, schedule);
    assert PublisherFits(c, init, w, j);
    SmoothRunsAreUntroubled(c, init, schedule, j);
  }

  lemma RaisedAfterRename(c: Config, init: World, schedule: seq<(nat, Choice)>, j: nat) returns (k: nat)
    requires Initial(init) && SmoothRun(c, init, schedule) && c.target !in init.entries
    requires j < |init.publishers| && init.publishers[j].encoded != []
    requires Exec(c, init, schedule).publishers[j].pc.Raised?
    ensures k < |init.publishers| && Exec(c, init, schedule).publishers[k].renamed
  {
    var w := Exec(c, init, schedule);
    ExecKeeps(c, init, schedule);
    assert PublisherFits(c, init, w, j);
    SmoothRunsAreUntroubled(c, init, schedule, j);
    k :| 0 <= k < |w.publishers| && w.publishers[k].renamed;
  }

  /** If no call fails and every publisher has finished, exactly one has returned, provided the
   *  name was free at the start and somebody had bytes to publish. */
  lemma SomeoneWins(c: Config, init: World, schedule: seq<(nat, Choice)>, j: nat) returns (winner: nat)
    requires Initial(init) && SmoothRun(c, init, schedule) && c.target !in init.entries
    requires j < |init.publishers| && init.publishers[j].encoded != []
    requires forall k: nat :: k < |init.publishers| ==> Finished(Exec(c, init, schedule), k)
    ensures winner < |init.publishers| && Exec(c, init, schedule).publishers[winner].pc.Returned?
    ensures forall k :: 0 <= k < |init.publishers| && k != winner ==> Exec(c, init, schedule).publishers[k].pc.Raised?
  {
    var w := Exec(c, init, schedule);
    winner := j;
    assert Finished(w, j);
    if w.publishers[j].pc.Raised? {
      winner := RaisedAfterRename(c, init, schedule, j);
      assert Finished(w, winner);
      FinishedAfterRename(c, init, schedule, winner);
    }
    forall k | 0 <= k < |init.publishers| && k != winner ensures w.publishers[k].pc.Raised? {
      assert Finished(w, k);
      AtMostOneWinner(c, init, schedule, k, winner);
    }
  }

  // ----- Such runs exist -------------------------------------------------------------------------

  lemma {:induction false} LongestName(names: set<Name>) returns (bound: nat)
    ensures forall n :: n in names ==> |n| <= bound
  {
    bound := 0;
    if names != {} {
      var n :| n in names;
      var shorter := LongestName(names - {n});
      bound := Max(|n|, shorter);
      forall m | m in names ensures |m| <= bound {
        assert m == n || m in names - {n};
      }
    }
  }

  /** Among all tokens there is one nobody has drawn, so that the next step of p can be smooth. */
  lemma SmoothChoice(c: Config, w: World, p: nat) returns (choice: Choice)
    ensures Smooth(c, w, p, choice)
  {
    var bound := LongestName(w.entries.Keys);
    var token := seq(bound, _ => 'f');
    assert |HiddenName(c.target, token, PENDING_SUFFIX)| > bound;
    choice := Go(token, 1);
  }

  lemma SmoothRunGrows(c: Config, init: World, schedule: seq<(nat, Choice)>, p: nat, choice: Choice)
    requires SmoothRun(c, init, schedule) && Smooth(c, Exec(c, init, schedule), p, choice) && p < |init.publishers|
    ensures SmoothRun(c, init, schedule + [(p, choice)])
    ensures Exec(c, init, schedule + [(p, choice)]) == Step(c, Exec(c, init, schedule), p, choice)
  {
    assert (schedule + [(p, choice)])[..|schedule|] == schedule;
  }

  /** Publisher p alone moves until it is finished; the others stay where they are. */
  lemma {:induction false} LetFinish(c: Config, init: World, schedule: seq<(nat, Choice)>, p: nat)
    returns (longer: seq<(nat, Choice)>)
    requires Initial(init) && SmoothRun(c, init, schedule) && p < |init.publishers|
    ensures SmoothRun(c, init, longer) && Finished(Exec(c, init, longer), p)
    ensures forall j :: 0 <= j < |init.publishers| && j != p ==>
      Exec(c, init, longer).publishers[j] == Exec(c, init, schedule).publishers[j]
    decreases var me := Exec(c, init, schedule).publishers[p]; Work(me.pc, |me.encoded|)
  {
    var w := Exec(c, init, schedule);
    longer := schedule;
    if !Finished(w, p) {
      ExecKeeps(c, init, schedule);
      var choice := SmoothChoice(c, w, p);
      SmoothRunGrows(c, init, schedule, p, choice);
      StepWorks(c, init, w, p, choice);
      longer := LetFinish(c, init, schedule + [(p, choice)], p);
      forall j | 0 <= j < |init.publishers| && j != p
        ensures Exec(c, init, longer).publishers[j] == w.publishers[j]
      {
        StepLeavesOthers(c, w, p, choice, j);
      }
    }
  }

  /** One publisher after the other finishes without a failing call. */
  lemma {:induction false} LetAllFinish(c: Config, init: World, n: nat) returns (schedule: seq<(nat, Choice)>)
    requires Initial(init) && n <= |init.publishers|
    ensures SmoothRun(c, init, schedule)
    ensures forall j: nat :: j < n ==> Finished(Exec(c, init, schedule), j)
  {
    schedule := [];
    if n > 0 {
      var before := LetAllFinish(c, init, n - 1);
      schedule := LetFinish(c, init, before, n - 1);
      forall j: nat | j < n ensures Finished(Exec(c, init, schedule), j) {
        if j < n - 1 {
          assert Finished(Exec(c, init, before), j);
        }
      }
    }
  }

  /** However many publishers aim at a free name, they can all get to their end without a failing
   *  call, and then exactly one of them has returned. */
  lemma RaceCanBeWon(c: Config, init: World, j: nat) returns (schedule: seq<(nat, Choice)>, winner: nat)
    requires Initial(init) && c.target !in init.entries
    requires j < |init.publishers| && init.publishers[j].encoded != []
    ensures SmoothRun(c, init, schedule)
    ensures forall k: nat :: k < |init.publishers| ==> Finished(Exec(c, init, schedule), k)
    ensures winner < |init.publishers| && Exec(c, init, schedule).publishers[winner].pc.Returned?
    ensures forall k :: 0 <= k < |init.publishers| && k != winner ==> Exec(c, init, schedule).publishers[k].pc.Raised?
  {
    schedule := LetAllFinish(c, init, |init.publishers|);
    winner := SomeoneWins(c, init, schedule, j);
  }
}
