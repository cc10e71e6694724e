/** Rebuilding a database while it is in use, as a machine of interleaved steps.  Writers make two
    file writes an operation, the append of a record and the update of its bucket, with the bucket
    locked in between; the rebuilder copies records one at a time. */
module HashRebuild {
  import opened Common
  import opened HashStore
  import opened HashAppend
  import opened HashInPlace
  import opened RecordSize
  import opened HashDatabase
  import opened HashImport

  const MAX_TRIES := 3
  const BLOCKING_ALLOWANCE := 65536

  datatype Phase =
    | Before(inPlace: bool)                          // nothing done yet
    | Older(end: nat, left: nat, dead: set<Bytes>)   // importing the prefix backward
    | Newer(pos: nat, end: nat, tries: nat)          // importing a section forward
    | Between(begin: nat, tries: nat)                // between two rounds
    | Waiting(begin: nat)                            // about to lock every record
    | Locked(pos: nat, end: nat)                     // last round, with every record locked
    | Swapped                                        // the copy has replaced the file

  /** The file, the file as it will be when the operations under way are linked in, the chains of
      the latter, the buckets of those operations, and what the copy holds. */
  datatype State = State(file: Store, lin: Store, chains: Chains, pending: set<nat>, copy: Contents,
                         phase: Phase)

  /** The file differs from its linked-in form in the heads of pending buckets only. */
  predicate Linking(s: State) {
    && s.file.recs == s.lin.recs && s.file.size == s.lin.size && s.file.base == s.lin.base
    && |s.file.buckets| == |s.lin.buckets|
    && forall b :: 0 <= b < |s.lin.buckets| && b !in s.pending ==>
         s.file.buckets[b] == s.lin.buckets[b]
  }

  // ----- steps of writers -----

  /** Before the switch an in-place database is changed by whole operations. */
  ghost predicate InPlaceWrite(s: State, s': State, bucketOf: Bytes -> nat) {
    && s.phase == Before(true) && s.pending == {}
    && InPlaceInv(s'.lin, s'.chains, bucketOf)
    && s' == State(s'.lin, s'.lin, s'.chains, {}, s.copy, s.phase)
  }

  predicate Unlocked(p: Phase) {
    !p.Locked? && !p.Swapped? && p != Before(true)
  }

  /** The first write of an operation: its record at the end of the file. */
  ghost predicate AppendStep(s: State, s': State, bucketOf: Bytes -> nat, g: Geometry, key: Bytes, proc: Processor,
                             readable: bool) {
    && Unlocked(s.phase)
    && ChainsOk(s.lin, s.chains, bucketOf) && bucketOf(key) < |s.lin.buckets|
    && bucketOf(key) !in s.pending
    && var op := AppendOp(s.lin, s.chains, bucketOf, key, proc, readable, true);
       && op.Some?
       && var (o, v) := op.value;
          var size := WholeSize(g, key, v, 0);
          s' == s.(file := AppendRec(s.file, NewRec(s.lin, s.chains, bucketOf, o, key, v, size)),
                   lin := Appended(s.lin, s.chains, bucketOf, o, key, v, size),
                   chains := NewChains(s.lin, s.chains, bucketOf, key),
                   pending := s.pending + {bucketOf(key)})
  }

  /** The second write: the head of its bucket. */
  predicate LinkStep(s: State, s': State, b: nat) {
    && b in s.pending && b < |s.file.buckets| == |s.lin.buckets|
    && s' == s.(file := SetBucket(s.file, b, s.lin.buckets[b]), pending := s.pending - {b})
  }

  // ----- steps of the rebuilder -----

  /** With every record locked, so with nothing pending: from now on updates are appended, and the
      file up to here is the prefix to import, backward if it was already a log. */
  predicate SwitchStep(s: State, s': State) {
    && s.phase.Before? && s.pending == {}
    && s' == s.(copy := map[],
                phase := if s.phase.inPlace then Newer(s.file.base, s.file.size, 0)
                         else Older(s.file.size,
                                    |NonVoid(s.file.recs, Scan(s.file.recs, s.file.base, s.file.size))|,
                                    {}))
  }

  predicate OlderStep(s: State, s': State) {
    && s.phase.Older? && s.phase.left > 0
    && var offs := NonVoid(s.file.recs, Scan(s.file.recs, s.file.base, s.phase.end));
       && s.phase.left <= |offs|
       && var r := s.file.recs[offs[s.phase.left - 1]];
          && s' == s.(copy := if Live(r) && r.key !in s.phase.dead && r.key !in s.copy
                              then s.copy[r.key := r.value] else s.copy,
                      phase := Older(s.phase.end, s.phase.left - 1,
                                     if !Live(r) && r.key !in s.copy then s.phase.dead + {r.key}
                                     else s.phase.dead))
  }

  predicate NewerStep(s: State, s': State) {
    && s.phase.Newer? && s.phase.pos < s.phase.end && s.phase.pos in s.file.recs
    && var r := s.file.recs[s.phase.pos];
       s' == s.(copy := ApplyRec(s.copy, r),
                phase := Newer(s.phase.pos + r.size, s.phase.end, s.phase.tries))
  }

  /** The end of the prefix, or of a round. */
  predicate RoundStep(s: State, s': State) {
    || (s.phase.Older? && s.phase.left == 0 && s' == s.(phase := Between(s.phase.end, 0)))
    || (s.phase.Newer? && s.phase.pos >= s.phase.end &&
        s' == s.(phase := Between(s.phase.end, s.phase.tries)))
  }

  /** Another round, as long as there is much to catch up with and not too many were made.  The end
      of the file is read when no operation is under way. */
  predicate AgainStep(s: State, s': State) {
    && s.phase.Between? && s.phase.tries < MAX_TRIES && s.pending == {}
    && s.phase.begin < s.file.size - BLOCKING_ALLOWANCE
    && s' == s.(phase := Newer(s.phase.begin, s.file.size, s.phase.tries + 1))
  }

  /** Or no other: too many rounds were made, or little was left to catch up with when the end of
      the file was read. */
  predicate DecideStep(s: State, s': State) {
    && s.phase.Between?
    && (s.phase.tries >= MAX_TRIES ||
        (s.pending == {} && s.phase.begin >= s.file.size - BLOCKING_ALLOWANCE))
    && s' == s.(phase := Waiting(s.phase.begin))
  }

  /** The last round keeps writers out.  However much they have appended since the decision, the
      end of the file is read again. */
  predicate LockStep(s: State, s': State) {
    && s.phase.Waiting? && s.pending == {}
    && s' == s.(phase := Locked(s.phase.begin, s.file.size))
  }

  predicate LockedStep(s: State, s': State) {
    && s.phase.Locked? && s.phase.pos < s.phase.end && s.phase.pos in s.file.recs
    && var r := s.file.recs[s.phase.pos];
       s' == s.(copy := ApplyRec(s.copy, r), phase := Locked(s.phase.pos + r.size, s.phase.end))
  }

  predicate SwapStep(s: State, s': State) {
    s.phase.Locked? && s.phase.pos >= s.phase.end && s' == s.(phase := Swapped)
  }

  ghost predicate Next(s: State, s': State, bucketOf: Bytes -> nat, g: Geometry) {
    || InPlaceWrite(s, s', bucketOf)
    || (exists key, proc, readable :: AppendStep(s, s', bucketOf, g, key, proc, readable))
    || (exists b :: LinkStep(s, s', b))
    || SwitchStep(s, s')
    || OlderStep(s, s')
    || NewerStep(s, s')
    || RoundStep(s, s')
    || AgainStep(s, s')
    || DecideStep(s, s')
    || LockStep(s, s')
    || LockedStep(s, s')
    || SwapStep(s, s')
  }

  ghost predicate Init(s: State, bucketOf: Bytes -> nat) {
    && s.phase.Before? && s.pending == {} && s.file == s.lin
    && (if s.phase.inPlace then InPlaceInv(s.lin, s.chains, bucketOf)
        else Inv(s.lin, s.chains, bucketOf))
  }

  // ----- the invariant -----

  /** `to` is a record boundary of the file. */
  predicate Boundary(s: Store, to: nat) {
    && s.base <= to <= s.size
    && Tiled(s.recs, s.base, to) && Tiled(s.recs, to, s.size)
  }

  /** What the file held when it ended at `to`. */
  function LoggedTo(s: Store, to: nat): Contents {
    Replay(s.recs, Scan(s.recs, s.base, to))
  }

  ghost predicate PhaseOk(file: Store, copy: Contents, phase: Phase) {
    match phase
    case Before(_) => true
    case Older(end, left, dead) =>
      && Boundary(file, end)
      && var offs := NonVoid(file.recs, Scan(file.recs, file.base, end));
         && left <= |offs|
         && Backward(map[], file.recs, offs[left..], copy, dead)
    case Newer(pos, end, _) =>
      Boundary(file, pos) && Boundary(file, end) && pos <= end && Tiled(file.recs, pos, end) &&
      copy == LoggedTo(file, pos)
    case Between(begin, _) => Boundary(file, begin) && copy == LoggedTo(file, begin)
    case Waiting(begin) => Boundary(file, begin) && copy == LoggedTo(file, begin)
    case Locked(pos, end) =>
      Boundary(file, pos) && end == file.size && copy == LoggedTo(file, pos)
    case Swapped => copy == LoggedTo(file, file.size)
  }

  ghost predicate RebuildInv(s: State, bucketOf: Bytes -> nat) {
    && Linking(s)
    && Inv(s.lin, s.chains, bucketOf)
    && (s.phase.Locked? || s.phase.Swapped? || s.phase == Before(true) ==> s.pending == {})
    && (s.phase == Before(true) ==> InPlaceInv(s.lin, s.chains, bucketOf))
    && PhaseOk(s.lin, s.copy, s.phase)
  }

  // ----- what every step keeps -----

  /** An append leaves the records before it as they were. */
  lemma {:induction false} PrefixStable(recs: Records, end: nat, r: Rec, from: nat, to: nat)
    requires to <= end
    ensures Scan(recs[end := r], from, to) == Scan(recs, from, to)
    ensures Tiled(recs[end := r], from, to) == Tiled(recs, from, to)
    decreases if from < to then to - from else 0
  {
    if from < to && from in recs {
      PrefixStable(recs, end, r, from + recs[from].size, to);
    }
  }

  lemma {:induction false} BoundaryStable(s: Store, r: Rec, to: nat)
    requires Boundary(s, to)
    ensures Boundary(AppendRec(s, r), to)
    ensures LoggedTo(AppendRec(s, r), to) == LoggedTo(s, to)
  {
    hide Tiled, Replay, Scan;
    PrefixStable(s.recs, s.size, r, s.base, to);
    ScanAppend(s.recs, to, s.size, r);
    ReplayFrame(s.recs, AppendRec(s, r).recs, Scan(s.recs, s.base, to));
  }

  lemma {:induction false} NonVoidStable(recs: Records, recs1: Records, offs: seq<nat>)
    requires AllIn(recs, offs) && SameAt(recs, recs1, offs)
    ensures NonVoid(recs1, offs) == NonVoid(recs, offs)
    decreases |offs|
  {
    if |offs| > 0 {
      NonVoidStable(recs, recs1, offs[1..]);
    }
  }

  lemma {:induction false} BackwardStable(start: Contents, recs: Records, recs1: Records, offs: seq<nat>,
                                          m: Contents, dead: set<Bytes>)
    requires AllIn(recs, offs) && SameAt(recs, recs1, offs) && Backward(start, recs, offs, m, dead)
    ensures Backward(start, recs1, offs, m, dead)
  {
    hide LastFor;
    forall k
      ensures LastFor(recs1, offs, k) == LastFor(recs, offs, k)
    {
      LastForFrame(recs, recs1, offs, k);
    }
  }

  /** What the rebuilder has done so far is not touched by an append. */
  lemma {:induction false} PhaseStable(s: Store, r: Rec, copy: Contents, phase: Phase)
    requires PhaseOk(s, copy, phase) && s.size !in s.recs && !phase.Locked? && !phase.Swapped?
    ensures PhaseOk(AppendRec(s, r), copy, phase)
  {
    hide Boundary, LoggedTo, Backward, NonVoid;
    match phase
    case Before(_) =>
    case Older(end, left, dead) =>
      BoundaryStable(s, r, end);
      OlderStable(s, r, end, left, copy, dead);
    case Newer(pos, end, _) =>
      BoundaryStable(s, r, pos);
      BoundaryStable(s, r, end);
      BoundaryBelow(s, end);
      PrefixStable(s.recs, s.size, r, pos, end);
    case Between(begin, _) =>
      BoundaryStable(s, r, begin);
    case Waiting(begin) =>
      BoundaryStable(s, r, begin);
  }

  lemma {:induction false} BoundaryBelow(s: Store, to: nat)
    requires Boundary(s, to)
    ensures s.base <= to <= s.size
  {
  }

  lemma {:induction false} OlderStable(s: Store, r: Rec, end: nat, left: nat, copy: Contents, dead: set<Bytes>)
    requires Boundary(s, end) && s.size !in s.recs
    requires var offs := NonVoid(s.recs, Scan(s.recs, s.base, end));
             left <= |offs| && Backward(map[], s.recs, offs[left..], copy, dead)
    ensures var recs1 := AppendRec(s, r).recs;
            var offs := NonVoid(recs1, Scan(recs1, s.base, end));
            left <= |offs| && Backward(map[], recs1, offs[left..], copy, dead)
  {
    hide Tiled, Scan, NonVoid, Backward;
    var all := Scan(s.recs, s.base, end);
    PrefixStable(s.recs, s.size, r, s.base, end);
    NonVoidStable(s.recs, AppendRec(s, r).recs, all);
    BackwardStable(map[], s.recs, AppendRec(s, r).recs, NonVoid(s.recs, all)[left..], copy, dead);
  }

  lemma {:induction false} AppendStepKeeps(s: State, s': State, bucketOf: Bytes -> nat, g: Geometry, key: Bytes,
                                           proc: Processor, readable: bool)
    requires RebuildInv(s, bucketOf) && AppendStep(s, s', bucketOf, g, key, proc, readable)
    ensures RebuildInv(s', bucketOf)
  {
    hide Inv, InPlaceInv, PhaseOk, WholeSize, NewChains, NewRec;
    var (op, v) := AppendOp(s.lin, s.chains, bucketOf, key, proc, readable, true).value;
    var size := WholeSize(g, key, v, 0);
    var r := NewRec(s.lin, s.chains, bucketOf, op, key, v, size);
    AppendKeeps(s.lin, s.chains, bucketOf, op, key, v, size);
    InvEnd(s.lin, s.chains, bucketOf);
    PhaseStable(s.lin, r, s.copy, s.phase);
    PhaseIgnoresBuckets(AppendRec(s.lin, r), s'.lin, s.copy, s.phase);
  }

  lemma {:induction false} InvEnd(s: Store, chains: Chains, bucketOf: Bytes -> nat)
    requires Inv(s, chains, bucketOf)
    ensures s.size !in s.recs && Boundary(s, s.size) && s.base <= s.size
  {
  }

  lemma {:induction false} PhaseIgnoresBuckets(s: Store, s1: Store, copy: Contents, phase: Phase)
    requires PhaseOk(s, copy, phase) && s1 == s.(buckets := s1.buckets)
    ensures PhaseOk(s1, copy, phase)
  {
    hide Backward, NonVoid, Tiled, Scan, Replay;
  }

  lemma {:induction false} LinkStepKeeps(s: State, s': State, bucketOf: Bytes -> nat, b: nat)
    requires RebuildInv(s, bucketOf) && LinkStep(s, s', b)
    ensures RebuildInv(s', bucketOf)
  {
    hide Inv, InPlaceInv, PhaseOk;
  }

  lemma {:induction false} InPlaceWriteKeeps(s: State, s': State, bucketOf: Bytes -> nat)
    requires RebuildInv(s, bucketOf) && InPlaceWrite(s, s', bucketOf)
    ensures RebuildInv(s', bucketOf)
  {
    hide Inv, InPlaceInv;
    InPlaceIsInv(s'.lin, s'.chains, bucketOf);
  }

  lemma {:induction false} SwitchStepKeeps(s: State, s': State, bucketOf: Bytes -> nat)
    requires RebuildInv(s, bucketOf) && SwitchStep(s, s')
    ensures RebuildInv(s', bucketOf)
  {
    hide Inv, InPlaceInv, Backward, NonVoid;
    InvEnd(s.lin, s.chains, bucketOf);
    BackwardStarts(map[], s.lin.recs);
    var offs := NonVoid(s.lin.recs, Scan(s.lin.recs, s.lin.base, s.lin.size));
    assert offs[|offs|..] == [];
  }

  lemma {:induction false} OlderStepKeeps(s: State, s': State, bucketOf: Bytes -> nat)
    requires RebuildInv(s, bucketOf) && OlderStep(s, s')
    ensures RebuildInv(s', bucketOf)
  {
    hide Inv, InPlaceInv, Backward, NonVoid, Tiled, Scan, Replay;
    var recs, left := s.lin.recs, s.phase.left;
    var offs := NonVoid(recs, Scan(recs, s.lin.base, s.phase.end));
    BackwardStep(map[], recs, offs[left - 1], offs[left..], s.copy, s.phase.dead);
    assert [offs[left - 1]] + offs[left..] == offs[left - 1..];
  }

  /** Copying the record at a boundary leads to the next boundary. */
  lemma {:induction false} RecordCopied(s: Store, pos: nat)
    requires Boundary(s, pos) && pos < s.size && pos in s.recs
    ensures Boundary(s, pos + s.recs[pos].size)
    ensures LoggedTo(s, pos + s.recs[pos].size) == ApplyRec(LoggedTo(s, pos), s.recs[pos])
  {
    hide Replay, ApplyRec;
    assert s.recs[pos := s.recs[pos]] == s.recs;
    ScanAppend(s.recs, s.base, pos, s.recs[pos]);
    ReplaySnoc(s.recs, Scan(s.recs, s.base, pos), pos);
  }

  lemma {:induction false} NewerStepKeeps(s: State, s': State, bucketOf: Bytes -> nat)
    requires RebuildInv(s, bucketOf) && NewerStep(s, s')
    ensures RebuildInv(s', bucketOf)
  {
    hide Inv, InPlaceInv, Boundary, LoggedTo;
    BoundaryBelow(s.lin, s.phase.end);
    RecordCopied(s.lin, s.phase.pos);
    TileStep(s.lin.recs, s.phase.pos, s.phase.end);
  }

  lemma {:induction false} LockedStepKeeps(s: State, s': State, bucketOf: Bytes -> nat)
    requires RebuildInv(s, bucketOf) && LockedStep(s, s')
    ensures RebuildInv(s', bucketOf)
  {
    hide Inv, InPlaceInv, Boundary, LoggedTo;
    RecordCopied(s.lin, s.phase.pos);
  }

  lemma {:induction false} RoundStepKeeps(s: State, s': State, bucketOf: Bytes -> nat)
    requires RebuildInv(s, bucketOf) && RoundStep(s, s')
    ensures RebuildInv(s', bucketOf)
  {
    hide Inv, InPlaceInv, Boundary, Backward, NonVoid, Scan;
    if s.phase.Older? {
      var all := Scan(s.lin.recs, s.lin.base, s.phase.end);
      var offs := NonVoid(s.lin.recs, all);
      assert offs[0..] == offs;
      BackwardIsReplay(map[], s.lin.recs, all, s.copy, s.phase.dead);
    }
  }

  /** The choice after a round, the lock with whatever was appended in between, and the swap. */
  lemma {:induction false} WaitStepKeeps(s: State, s': State, bucketOf: Bytes -> nat)
    requires RebuildInv(s, bucketOf)
    requires AgainStep(s, s') || DecideStep(s, s') || LockStep(s, s') || SwapStep(s, s')
    ensures RebuildInv(s', bucketOf)
  {
    hide Inv, InPlaceInv;
    InvEnd(s.lin, s.chains, bucketOf);
  }

  lemma {:induction false} NextKeeps(s: State, s': State, bucketOf: Bytes -> nat, g: Geometry)
    requires RebuildInv(s, bucketOf) && Next(s, s', bucketOf, g)
    ensures RebuildInv(s', bucketOf)
  {
    hide RebuildInv, InPlaceWrite, AppendStep, LinkStep, SwitchStep, OlderStep, NewerStep, RoundStep,
         AgainStep, DecideStep, LockStep, LockedStep, SwapStep;
    if InPlaceWrite(s, s', bucketOf) {
      InPlaceWriteKeeps(s, s', bucketOf);
    } else if key, proc, readable :| AppendStep(s, s', bucketOf, g, key, proc, readable) {
      AppendStepKeeps(s, s', bucketOf, g, key, proc, readable);
    } else if b :| LinkStep(s, s', b) {
      LinkStepKeeps(s, s', bucketOf, b);
    } else if SwitchStep(s, s') {
      SwitchStepKeeps(s, s', bucketOf);
    } else if OlderStep(s, s') {
      OlderStepKeeps(s, s', bucketOf);
    } else if NewerStep(s, s') {
      NewerStepKeeps(s, s', bucketOf);
    } else if RoundStep(s, s') {
      RoundStepKeeps(s, s', bucketOf);
    } else if LockedStep(s, s') {
      LockedStepKeeps(s, s', bucketOf);
    } else {
      WaitStepKeeps(s, s', bucketOf);
    }
  }

  /** A run: any interleaving of steps of the rebuilder and of any number of writers. */
  ghost predicate Run(run: seq<State>, bucketOf: Bytes -> nat, g: Geometry) {
    && |run| > 0
    && Init(run[0], bucketOf)
    && forall i :: 0 <= i < |run| - 1 ==> Next(run[i], run[i + 1], bucketOf, g)
  }

  lemma {:induction false} RunKeeps(run: seq<State>, bucketOf: Bytes -> nat, g: Geometry, i: nat)
    requires Run(run, bucketOf, g) && i < |run|
    ensures RebuildInv(run[i], bucketOf)
  {
    hide Next;
    if i == 0 {
      InitOk(run[0], bucketOf);
    } else {
      RunKeeps(run, bucketOf, g, i - 1);
      NextKeeps(run[i - 1], run[i], bucketOf, g);
    }
  }

  lemma {:induction false} InitOk(s: State, bucketOf: Bytes -> nat)
    requires Init(s, bucketOf)
    ensures RebuildInv(s, bucketOf)
  {
    hide Inv, InPlaceInv;
    if s.phase.inPlace {
      InPlaceIsInv(s.lin, s.chains, bucketOf);
    }
  }

  /** In every interleaving, the copy swapped in holds exactly what the file holds at the swap,
      both by replay and by lookup. */
  lemma {:induction false} SwapIsExact(run: seq<State>, bucketOf: Bytes -> nat, g: Geometry, i: nat)
    requires Run(run, bucketOf, g) && i < |run| && run[i].phase.Swapped?
    ensures run[i].copy == Logged(run[i].file)
    ensures LooksUp(run[i].file, run[i].chains, bucketOf, run[i].copy)
  {
    hide Inv, Next, LooksUp, InPlaceInv;
    RunKeeps(run, bucketOf, g, i);
    var s := run[i];
    assert s.file == s.lin;
    InvLooksUp(s.lin, s.chains, bucketOf);
  }
}
