/** The queue of writers: the front writer leads, commits a group of queued batches as one log record, and
    only then moves the last sequence number.  One state machine over the steps taken between lock releases. */
module GroupCommit {
  import opened InternalKeys
  import opened WriteBatches

  /** A queued write; compactions queue one without a batch. */
  datatype Writer = Writer(batch: Option<seq<Op>>, sync: bool)

  /** How a writer's call ended: its operations got the sequence numbers from start on, or it failed. */
  datatype Outcome = Applied(start: nat) | Failed

  datatype Record = Record(start: nat, ops: seq<Op>)

  /** Where the leader is between two releases of the lock. */
  datatype Phase =
    | Waiting
    | Logging(size: nat, ops: seq<Op>)
    | Syncing(size: nat, ops: seq<Op>)
    | Inserting(size: nat, ops: seq<Op>, done: nat)
    | Failing(size: nat, ops: seq<Op>)

  datatype State = State(
    arrived: seq<Writer>,      // every writer, in the order it joined the queue
    outcomes: seq<Outcome>,    // of those that have left the queue
    phase: Phase,
    last: nat,                 // versions_->LastSequence()
    mem: seq<(nat, Op)>,       // the memtable, in insertion order
    log: seq<Record>,
    synced: nat,               // how many log records a Sync has covered
    broken: bool)              // bg_error_ is set

  datatype Step =
    | Arrive(writer: Writer)
    | Refuse                   // MakeRoomForWrite fails
    | Force                    // a writer without a batch has done its work
    | Lead(size: nat)
    | Append
    | AppendFails
    | Sync
    | SyncFails
    | InsertOne
    | Finish

  // ----- Building a group -----

  const KB: nat := 1024

  function Ops(w: Writer): seq<Op> {
    if w.batch.Some? then w.batch.value else []
  }

  function ByteSize(w: Writer): nat
    requires w.batch.Some?
  {
    HEADER + |OpsBytes(w.batch.value)|
  }

  function TotalSize(ws: seq<Writer>): nat {
    if ws == [] then 0 else
      var w := ws[|ws| - 1];
      TotalSize(ws[..|ws| - 1]) + if w.batch.Some? then ByteSize(w) else 0
  }

  function AllOps(ws: seq<Writer>): seq<Op> {
    if ws == [] then [] else AllOps(ws[..|ws| - 1]) + Ops(ws[|ws| - 1])
  }

  lemma OneMore(ws: seq<Writer>, k: nat)
    requires k < |ws|
    ensures TotalSize(ws[..k + 1]) == TotalSize(ws[..k]) + if ws[k].batch.Some? then ByteSize(ws[k]) else 0
    ensures AllOps(ws[..k + 1]) == AllOps(ws[..k]) + Ops(ws[k])
    ensures k == 0 ==> TotalSize(ws[..k]) == 0 && AllOps(ws[..k]) == []
  {
    assert ws[..k + 1][..k] == ws[..k];
  }

  /** A small first write does not wait for much more than itself. */
  function MaxSize(first: Writer): nat
    requires first.batch.Some?
  {
    if ByteSize(first) <= 128 * KB then ByteSize(first) + 128 * KB else 1024 * KB
  }

  /** May writer k join the group of those before it? */
  predicate Joins(queue: seq<Writer>, k: nat)
    requires 0 < k < |queue| && queue[0].batch.Some?
  {
    && (queue[k].sync ==> queue[0].sync)
    && (queue[k].batch.Some? ==> TotalSize(queue[..k + 1]) <= MaxSize(queue[0]))
  }

  /** The group is the longest run of writers, from the front, each of which may join those before it. */
  ghost predicate IsGroup(queue: seq<Writer>, size: nat) {
    && 0 < size <= |queue| && queue[0].batch.Some?
    && (forall k :: 0 < k < size ==> Joins(queue, k))
    && (size < |queue| ==> !Joins(queue, size))
  }

  /** 128 KB and 1 MB in bytes. */
  lemma JoinsMeans(queue: seq<Writer>)
    requires queue != [] && queue[0].batch.Some?
    ensures var own := 12 + |OpsBytes(queue[0].batch.value)|;
      var limit := if own <= 131072 then own + 131072 else 1048576;
      forall k :: 0 < k < |queue| ==>
        (Joins(queue, k) <==>
         (queue[k].sync ==> queue[0].sync) && (queue[k].batch.Some? ==> TotalSize(queue[..k + 1]) <= limit))
  {
    hide OpsBytes, TotalSize;
  }

  /** BuildBatchGroup: how many writers the front one takes along, and what it writes for all of them. */
  method BuildBatchGroup(queue: seq<Writer>) returns (size: nat, ops: seq<Op>)
    requires queue != [] && queue[0].batch.Some?
    ensures IsGroup(queue, size) && ops == AllOps(queue[..size])
    ensures var own := 12 + |OpsBytes(queue[0].batch.value)|;
      var limit := if own <= 131072 then own + 131072 else 1048576;
      && 1 <= size <= |queue|
      && (forall k :: 1 <= k < size ==> (queue[k].sync ==> queue[0].sync) && (queue[k].batch.Some? ==> TotalSize(queue[..k + 1]) <= limit))
      && (size < |queue| ==> (queue[size].sync && !queue[0].sync) || (queue[size].batch.Some? && TotalSize(queue[..size + 1]) > limit))
  {
    hide OpsBytes, TotalSize, AllOps;
    var first := queue[0];
    OneMore(queue, 0);
    JoinsMeans(queue);
    var bytes := ByteSize(first);
    var maxSize := 1024 * KB;
    if bytes <= 128 * KB {
      maxSize := bytes + 128 * KB;
    }
    size, ops := 1, first.batch.value;
    while size < |queue|
      invariant 1 <= size <= |queue| && bytes == TotalSize(queue[..size]) && ops == AllOps(queue[..size])
      invariant forall k :: 0 < k < size ==> Joins(queue, k)
    {
      var w := queue[size];
      OneMore(queue, size);
      if w.sync && !first.sync {
        break;
      }
      if w.batch.Some? {
        bytes := bytes + ByteSize(w);
        if bytes > maxSize {
          break;
        }
        ops := ops + w.batch.value;
      }
      size := size + 1;
    }
  }

  // ----- Steps -----

  function Queue(s: State): seq<Writer>
    requires |s.outcomes| <= |s.arrived|
  {
    s.arrived[|s.outcomes|..]
  }

  /** What each writer of a group is told when its operations follow one another from start on. */
  function Grants(ws: seq<Writer>, start: nat): (r: seq<Outcome>)
    ensures |r| == |ws|
  {
    if ws == [] then [] else
      var n := |ws| - 1;
      Grants(ws[..n], start) + [Applied(start + |AllOps(ws[..n])|)]
  }

  function Refusals(n: nat): seq<Outcome> {
    seq(n, _ => Failed)
  }

  ghost predicate Init(s: State) {
    s == State([], [], Waiting, s.last, [], [], 0, false)
  }

  ghost predicate Next(s: State, s': State, step: Step)
    requires |s.outcomes| <= |s.arrived|
  {
    match step
    case Arrive(w) => s' == s.(arrived := s.arrived + [w])
    case Refuse =>
      s.phase.Waiting? && Queue(s) != [] && s' == s.(outcomes := s.outcomes + [Failed])
    case Force =>
      s.phase.Waiting? && Queue(s) != [] && Queue(s)[0].batch.None? && !s.broken
      && s' == s.(outcomes := s.outcomes + [Applied(s.last + 1)])
    case Lead(size) =>
      s.phase.Waiting? && !s.broken && IsGroup(Queue(s), size)
      && s' == s.(phase := Logging(size, AllOps(Queue(s)[..size])))
    case Append =>
      s.phase.Logging? && Queue(s) != []
      && s' == s.(log := s.log + [Record(s.last + 1, s.phase.ops)],
                  phase := if Queue(s)[0].sync then Syncing(s.phase.size, s.phase.ops) else Inserting(s.phase.size, s.phase.ops, 0))
    case AppendFails =>
      s.phase.Logging? && s' == s.(phase := Failing(s.phase.size, s.phase.ops))
    case Sync =>
      s.phase.Syncing? && s' == s.(synced := |s.log|, phase := Inserting(s.phase.size, s.phase.ops, 0))
    case SyncFails =>
      s.phase.Syncing? && s' == s.(broken := true, phase := Failing(s.phase.size, s.phase.ops))
    case InsertOne =>
      s.phase.Inserting? && s.phase.done < |s.phase.ops|
      && s' == s.(mem := s.mem + [(s.last + 1 + s.phase.done, s.phase.ops[s.phase.done])],
                  phase := s.phase.(done := s.phase.done + 1))
    case Finish =>
      && (s.phase.Failing? || (s.phase.Inserting? && s.phase.done == |s.phase.ops|))
      && s.phase.size <= |Queue(s)|
      && s' == s.(phase := Waiting, last := s.last + |s.phase.ops|,
                  outcomes := s.outcomes + if s.phase.Failing? then Refusals(s.phase.size)
                                           else Grants(Queue(s)[..s.phase.size], s.last + 1))
  }

  // ----- The invariant -----

  /** The operations of the writers that have left the queue successfully, with their sequence numbers. */
  ghost function Granted(ws: seq<Writer>, outcomes: seq<Outcome>): seq<(nat, Op)>
    requires |outcomes| <= |ws|
    decreases |outcomes|
  {
    if outcomes == [] then [] else
      var n := |outcomes| - 1;
      Granted(ws, outcomes[..n]) + if outcomes[n].Applied? then Numbered(outcomes[n].start, Ops(ws[n])) else []
  }

  ghost function Logged(log: seq<Record>): seq<(nat, Op)> {
    if log == [] then [] else Logged(log[..|log| - 1]) + Numbered(log[|log| - 1].start, log[|log| - 1].ops)
  }

  /** Sequence numbers are given out in queue order, each at most once, and none beyond last. */
  ghost predicate Ascending(ws: seq<Writer>, outcomes: seq<Outcome>, last: int)
    requires |outcomes| <= |ws|
  {
    && (forall i :: 0 <= i < |outcomes| && outcomes[i].Applied? ==> outcomes[i].start + |Ops(ws[i])| <= last + 1)
    && (forall i, j :: 0 <= i < j < |outcomes| && outcomes[i].Applied? && outcomes[j].Applied? ==>
          outcomes[i].start + |Ops(ws[i])| <= outcomes[j].start)
  }

  ghost predicate AllIn(a: seq<(nat, Op)>, b: seq<(nat, Op)>) {
    forall x :: x in a ==> x in b
  }

  /** Every acknowledged sync write is in the synced part of the log. */
  ghost predicate SyncsDurable(s: State)
    requires |s.outcomes| <= |s.arrived| && s.synced <= |s.log|
  {
    forall i :: 0 <= i < |s.outcomes| && s.arrived[i].sync && s.outcomes[i].Applied? ==>
      AllIn(Numbered(s.outcomes[i].start, Ops(s.arrived[i])), Logged(s.log[..s.synced]))
  }

  /** What the running group has put into the memtable. */
  ghost function Partial(s: State): seq<(nat, Op)> {
    if s.phase.Inserting? && s.phase.done <= |s.phase.ops| then Numbered(s.last + 1, s.phase.ops[..s.phase.done]) else []
  }

  ghost predicate GroupInv(s: State)
    requires |s.outcomes| <= |s.arrived|
  {
    s.phase.Waiting? || (
      && s.phase.size <= |Queue(s)| && Queue(s) != [] && s.phase.ops == AllOps(Queue(s)[..s.phase.size])
      && (!Queue(s)[0].sync ==> forall k :: 0 <= k < s.phase.size ==> !Queue(s)[k].sync)
      && (s.phase.Inserting? ==> s.phase.done <= |s.phase.ops|))
  }

  /** The group's record once it is in the log. */
  ghost function InLog(s: State): seq<(nat, Op)> {
    if s.phase.Syncing? || s.phase.Inserting? then Numbered(s.last + 1, s.phase.ops) else []
  }

  ghost predicate LogInv(s: State)
    requires |s.outcomes| <= |s.arrived|
  {
    && s.synced <= |s.log|
    && (!s.broken ==> Logged(s.log) == Granted(s.arrived, s.outcomes) + InLog(s))
    && (s.broken ==> s.phase.Waiting? || s.phase.Failing?)
    && (s.phase.Inserting? && Queue(s) != [] && Queue(s)[0].sync ==> s.synced == |s.log|)
  }

  ghost predicate Inv(s: State) {
    && |s.outcomes| <= |s.arrived| && GroupInv(s) && LogInv(s)
    && s.mem == Granted(s.arrived, s.outcomes) + Partial(s)
    && Ascending(s.arrived, s.outcomes, s.last)
    && SyncsDurable(s)
  }

  lemma {:induction false} GrantedPrefix(ws: seq<Writer>, more: seq<Writer>, outcomes: seq<Outcome>)
    requires |outcomes| <= |ws|
    ensures Granted(ws + more, outcomes) == Granted(ws, outcomes)
    decreases |outcomes|
  {
    if outcomes != [] {
      GrantedPrefix(ws, more, outcomes[..|outcomes| - 1]);
    }
  }

  lemma GrantedSnoc(ws: seq<Writer>, outcomes: seq<Outcome>, o: Outcome)
    requires |outcomes| < |ws|
    ensures Granted(ws, outcomes + [o])
         == Granted(ws, outcomes) + if o.Applied? then Numbered(o.start, Ops(ws[|outcomes|])) else []
  {
    assert (outcomes + [o])[..|outcomes|] == outcomes;
  }

  lemma NumberedConcat(start: nat, a: seq<Op>, b: seq<Op>)
    ensures Numbered(start, a + b) == Numbered(start, a) + Numbered(start + |a|, b)
  {
  }

  lemma AscendingSnoc(ws: seq<Writer>, outcomes: seq<Outcome>, last: nat, o: Outcome, last': nat)
    requires |outcomes| < |ws| && Ascending(ws, outcomes, last) && last <= last'
    requires o.Applied? ==> last < o.start && o.start + |Ops(ws[|outcomes|])| <= last' + 1
    ensures Ascending(ws, outcomes + [o], last')
  {
  }

  lemma GrantsSnoc(ws: seq<Writer>, start: nat)
    requires ws != []
    ensures var n := |ws| - 1;
      && Grants(ws, start) == Grants(ws[..n], start) + [Applied(start + |AllOps(ws[..n])|)]
      && AllOps(ws) == AllOps(ws[..n]) + Ops(ws[n])
  {
  }

  lemma NoGrants(ws: seq<Writer>, outcomes: seq<Outcome>, start: nat)
    requires ws == []
    ensures AllOps(ws) == [] && outcomes + Grants(ws, start) == outcomes && Numbered(start, AllOps(ws)) == []
  {
  }

  /** Finishing a group gives its writers consecutive ranges that together number its operations. */
  lemma {:induction false} GroupGranted(ws: seq<Writer>, outcomes: seq<Outcome>, group: seq<Writer>, last: nat)
    requires |outcomes| + |group| <= |ws| && Ascending(ws, outcomes, last)
    requires forall k :: 0 <= k < |group| ==> group[k] == ws[|outcomes| + k]
    ensures Granted(ws, outcomes + Grants(group, last + 1)) == Granted(ws, outcomes) + Numbered(last + 1, AllOps(group))
    ensures Ascending(ws, outcomes + Grants(group, last + 1), last + |AllOps(group)|)
    decreases |group|
  {
    hide Ascending, Granted, AllOps, Grants, Numbered;
    if group == [] {
      NoGrants(group, outcomes, last + 1);
      assert Granted(ws, outcomes) + [] == Granted(ws, outcomes);
    } else {
      var n := |group| - 1;
      var before := group[..n];
      GroupGranted(ws, outcomes, before, last);
      var told, o := outcomes + Grants(before, last + 1), Applied(last + 1 + |AllOps(before)|);
      GrantsSnoc(group, last + 1);
      assert outcomes + Grants(group, last + 1) == told + [o];
      GrantedSnoc(ws, told, o);
      NumberedConcat(last + 1, AllOps(before), Ops(group[n]));
      Regroup(Granted(ws, outcomes), Numbered(last + 1, AllOps(before)), Numbered(o.start, Ops(group[n])));
      AscendingSnoc(ws, told, last + |AllOps(before)|, o, last + |AllOps(group)|);
    }
  }

  lemma Regroup(a: seq<(nat, Op)>, b: seq<(nat, Op)>, c: seq<(nat, Op)>)
    ensures a + b + c == a + (b + c)
  {
  }

  lemma {:induction false} GroupRefused(ws: seq<Writer>, outcomes: seq<Outcome>, size: nat, last: nat, last': nat)
    requires |outcomes| + size <= |ws| && Ascending(ws, outcomes, last) && last <= last'
    ensures Granted(ws, outcomes + Refusals(size)) == Granted(ws, outcomes)
    ensures Ascending(ws, outcomes + Refusals(size), last')
    decreases size
  {
    if size == 0 {
      assert outcomes + Refusals(size) == outcomes;
    } else {
      GroupRefused(ws, outcomes, size - 1, last, last');
      assert outcomes + Refusals(size) == outcomes + Refusals(size - 1) + [Failed];
      GrantedSnoc(ws, outcomes + Refusals(size - 1), Failed);
    }
  }

  /** A writer's numbered operations are among its group's. */
  lemma {:induction false} MemberOfGroup(ws: seq<Writer>, start: nat, k: nat)
    requires k < |ws|
    ensures Grants(ws, start)[k].Applied?
    ensures AllIn(Numbered(Grants(ws, start)[k].start, Ops(ws[k])), Numbered(start, AllOps(ws)))
    decreases |ws|
  {
    var n := |ws| - 1;
    NumberedConcat(start, AllOps(ws[..n]), Ops(ws[n]));
    if k < n {
      MemberOfGroup(ws[..n], start, k);
    }
  }

  lemma LoggedSnoc(log: seq<Record>, r: Record)
    ensures Logged(log + [r]) == Logged(log) + Numbered(r.start, r.ops)
  {
    assert (log + [r])[..|log|] == log;
  }

  // ----- Every step keeps the invariant -----

  lemma ArriveKeeps(s: State, s': State, w: Writer)
    requires Inv(s) && Next(s, s', Arrive(w))
    ensures Inv(s')
  {
    hide Granted, AllIn, AllOps;
    GrantedPrefix(s.arrived, [w], s.outcomes);
    assert Queue(s') == Queue(s) + [w];
    if !s.phase.Waiting? {
      assert Queue(s')[..s.phase.size] == Queue(s)[..s.phase.size];
    }
  }

  lemma FrontKeeps(s: State, s': State, step: Step)
    requires Inv(s) && Next(s, s', step) && (step.Refuse? || step.Force?)
    ensures Inv(s')
  {
    hide Granted, AllIn, AllOps;
    var o := if step.Refuse? then Failed else Applied(s.last + 1);
    assert Queue(s)[0] == s.arrived[|s.outcomes|];
    GrantedSnoc(s.arrived, s.outcomes, o);
    AscendingSnoc(s.arrived, s.outcomes, s.last, o, s.last);
    if step.Force? {
      assert Numbered(o.start, Ops(s.arrived[|s.outcomes|])) == [];
      NothingIn(Logged(s.log[..s.synced]));
    }
  }

  lemma NothingIn(b: seq<(nat, Op)>)
    ensures AllIn([], b)
  {
  }

  lemma LeaderKeeps(s: State, s': State, step: Step)
    requires Inv(s) && Next(s, s', step)
    requires step.Lead? || step.AppendFails? || step.Sync? || step.SyncFails?
    ensures Inv(s')
  {
    hide Granted, AllIn, AllOps, Ascending;
    if step.Lead? {
      forall k | 0 <= k < step.size && !Queue(s)[0].sync
        ensures !Queue(s')[k].sync
      {
        assert k == 0 || Joins(Queue(s), k);
      }
    }
    if step.Sync? {
      assert s.log[..|s.log|] == s.log;
      SyncKeepsDurable(s, s');
      NoneInserted(s');
    }
  }

  lemma {:induction false} LoggedPrefix(log: seq<Record>, n: nat)
    requires n <= |log|
    ensures AllIn(Logged(log[..n]), Logged(log))
    decreases |log|
  {
    if n < |log| {
      LoggedPrefix(log[..|log| - 1], n);
      assert log[..|log| - 1][..n] == log[..n];
    } else {
      assert log[..n] == log;
    }
  }

  lemma SyncKeepsDurable(s: State, s': State)
    requires |s.outcomes| <= |s.arrived| && s.synced <= |s.log| && SyncsDurable(s)
    requires s'.outcomes == s.outcomes && s'.arrived == s.arrived && s.log <= s'.log && s.synced <= s'.synced <= |s'.log|
    ensures SyncsDurable(s')
  {
    hide Logged;
    LoggedPrefix(s'.log[..s'.synced], s.synced);
    assert s'.log[..s'.synced][..s.synced] == s.log[..s.synced];
  }

  lemma NoneInserted(s: State)
    requires s.phase.Inserting? && s.phase.done == 0
    ensures Partial(s) == []
  {
  }

  lemma AppendKeeps(s: State, s': State)
    requires Inv(s) && Next(s, s', Append)
    ensures Inv(s')
  {
    hide Granted, AllIn, AllOps, Ascending, SyncsDurable;
    LoggedSnoc(s.log, Record(s.last + 1, s.phase.ops));
    SyncKeepsDurable(s, s');
  }

  lemma InsertOneKeeps(s: State, s': State)
    requires Inv(s) && Next(s, s', InsertOne)
    ensures Inv(s')
  {
    hide Granted, AllIn, AllOps, Ascending, SyncsDurable, Logged;
    var done, x := s.phase.done, (s.last + 1 + s.phase.done, s.phase.ops[s.phase.done]);
    assert Numbered(s.last + 1, s.phase.ops[..done + 1]) == Numbered(s.last + 1, s.phase.ops[..done]) + [x];
    assert Partial(s') == Partial(s) + [x];
    Regroup(Granted(s.arrived, s.outcomes), Partial(s), [x]);
    SyncKeepsDurable(s, s');
  }

  lemma FinishKeeps(s: State, s': State)
    requires Inv(s) && Next(s, s', Finish)
    ensures Inv(s')
  {
    hide Granted, AllIn, AllOps, Ascending, SyncsDurable, Logged;
    var n, size := |s.outcomes|, s.phase.size;
    var group := s.arrived[n..][..size];
    if s.phase.Failing? {
      GroupRefused(s.arrived, s.outcomes, size, s.last, s'.last);
      FailedDurable(s, s', size);
    } else {
      GroupGranted(s.arrived, s.outcomes, group, s.last);
      assert s.phase.ops[..s.phase.done] == s.phase.ops;
      GroupDurable(s, s', size);
    }
  }

  lemma FailedDurable(s: State, s': State, size: nat)
    requires |s.outcomes| + size <= |s.arrived| && s.synced <= |s.log| && SyncsDurable(s)
    requires s'.arrived == s.arrived && s'.log == s.log && s'.synced == s.synced && s'.outcomes == s.outcomes + Refusals(size)
    ensures SyncsDurable(s')
  {
    hide AllIn, Logged;
  }

  /** A sync writer rode with a sync leader, so its record is synced before it is told. */
  lemma GroupDurable(s: State, s': State, size: nat)
    requires |s.outcomes| <= |s.arrived| && LogInv(s) && SyncsDurable(s) && GroupInv(s)
    requires s.phase.Inserting? && size == s.phase.size
    requires s'.arrived == s.arrived && s'.log == s.log && s'.synced == s.synced
    requires s'.outcomes == s.outcomes + Grants(Queue(s)[..size], s.last + 1)
    ensures SyncsDurable(s')
  {
    hide Logged, Granted, AllOps, Grants, AllIn;
    var n, group := |s.outcomes|, Queue(s)[..size];
    forall i | n <= i < n + size && s.arrived[i].sync
      ensures s'.outcomes[i].Applied? && AllIn(Numbered(s'.outcomes[i].start, Ops(s.arrived[i])), Logged(s.log[..s.synced]))
    {
      assert Queue(s)[i - n].sync && Queue(s)[0].sync;
      MemberOfGroup(group, s.last + 1, i - n);
      assert s.log[..s.synced] == s.log;
      InWhole(Numbered(s'.outcomes[i].start, Ops(s.arrived[i])), Granted(s.arrived, s.outcomes), Numbered(s.last + 1, AllOps(group)));
    }
  }

  lemma InWhole(a: seq<(nat, Op)>, before: seq<(nat, Op)>, b: seq<(nat, Op)>)
    requires AllIn(a, b)
    ensures AllIn(a, before + b)
  {
  }

  /** Every step keeps the invariant. */
  lemma NextKeepsInv(s: State, s': State, step: Step)
    requires Inv(s) && Next(s, s', step)
    ensures Inv(s')
  {
    hide Inv, Next;
    match step
    case Arrive(w) => ArriveKeeps(s, s', w);
    case Refuse => FrontKeeps(s, s', step);
    case Force => FrontKeeps(s, s', step);
    case Lead(_) => LeaderKeeps(s, s', step);
    case Append => AppendKeeps(s, s');
    case AppendFails => LeaderKeeps(s, s', step);
    case Sync => LeaderKeeps(s, s', step);
    case SyncFails => LeaderKeeps(s, s', step);
    case InsertOne => InsertOneKeeps(s, s');
    case Finish => FinishKeeps(s, s');
  }

  // ----- Every run -----

  ghost predicate Execution(states: seq<State>, steps: seq<Step>) {
    && |states| == |steps| + 1 && Init(states[0])
    && forall i :: 0 <= i < |steps| ==> |states[i].outcomes| <= |states[i].arrived| && Next(states[i], states[i + 1], steps[i])
  }

  /** What holds at every point of every run.  The memtable holds the operations of the acknowledged writers, in
      queue order, each once, and then a beginning of the running group; its sequence numbers ascend; a reader at
      the last sequence sees exactly the finished groups; and acknowledged sync writes are on disk. */
  ghost predicate Safe(s: State) {
    && |s.outcomes| <= |s.arrived| && s.synced <= |s.log|
    && s.mem == Granted(s.arrived, s.outcomes) + Partial(s)
    && Ascending(s.arrived, s.outcomes, s.last)
    && (forall i, j :: 0 <= i < j < |s.mem| ==> s.mem[i].0 < s.mem[j].0)
    && (forall x :: x in Granted(s.arrived, s.outcomes) <==> x in s.mem && x.0 <= s.last)
    && SyncsDurable(s)
  }

  /** Sequence numbers ascend, up to last. */
  ghost predicate AscendTo(g: seq<(nat, Op)>, last: int) {
    && (forall i, j :: 0 <= i < j < |g| ==> g[i].0 < g[j].0)
    && (forall x :: x in g ==> x.0 <= last)
  }

  lemma RangeOnTop(g: seq<(nat, Op)>, start: nat, ops: seq<Op>, last: int)
    requires AscendTo(g, start - 1) && start + |ops| <= last + 1
    ensures AscendTo(g + Numbered(start, ops), last)
  {
    var r := g + Numbered(start, ops);
    forall i, j | 0 <= i < j < |r|
      ensures r[i].0 < r[j].0
    {
      assert i < |g| ==> r[i] in g;
    }
  }

  /** Granted operations ascend and lie at or below last. */
  lemma {:induction false} GrantedAscends(ws: seq<Writer>, outcomes: seq<Outcome>, last: int)
    requires |outcomes| <= |ws| && Ascending(ws, outcomes, last)
    ensures AscendTo(Granted(ws, outcomes), last)
    decreases |outcomes|
  {
    hide Numbered;
    if outcomes != [] {
      var n := |outcomes| - 1;
      var o := outcomes[n];
      if o.Applied? {
        assert Ascending(ws, outcomes[..n], o.start - 1);
        GrantedAscends(ws, outcomes[..n], o.start - 1);
        RangeOnTop(Granted(ws, outcomes[..n]), o.start, Ops(ws[n]), o.start + |Ops(ws[n])| - 1);
        assert o.start + |Ops(ws[n])| - 1 <= last;
      } else {
        assert Ascending(ws, outcomes[..n], last);
        GrantedAscends(ws, outcomes[..n], last);
        assert Granted(ws, outcomes) == Granted(ws, outcomes[..n]);
      }
    }
  }

  lemma InvIsSafe(s: State)
    requires Inv(s)
    ensures Safe(s)
  {
    hide Granted, SyncsDurable, AllOps, Logged, Ascending, Numbered;
    GrantedAscends(s.arrived, s.outcomes, s.last);
    var ops := if s.phase.Inserting? then s.phase.ops[..s.phase.done] else [];
    assert Partial(s) == Numbered(s.last + 1, ops) by {
      NoneNumbered(s.last + 1);
    }
    RangeOnTop(Granted(s.arrived, s.outcomes), s.last + 1, ops, s.last + |ops|);
    RangeAbove(Granted(s.arrived, s.outcomes), s.last, ops);
  }

  lemma NoneNumbered(start: nat)
    ensures Numbered(start, []) == []
  {
  }

  lemma RangeAbove(g: seq<(nat, Op)>, last: nat, ops: seq<Op>)
    requires AscendTo(g, last)
    ensures forall x :: x in g <==> x in g + Numbered(last + 1, ops) && x.0 <= last
  {
  }

  lemma {:induction false} EveryRunIsSafe(states: seq<State>, steps: seq<Step>)
    requires Execution(states, steps)
    ensures forall i :: 0 <= i < |states| ==> Safe(states[i])
  {
    hide Next, Safe, Inv;
    InitInv(states[0]);
    for i := 0 to |steps|
      invariant Inv(states[i])
      invariant forall k :: 0 <= k < i ==> Safe(states[k])
    {
      InvIsSafe(states[i]);
      NextKeepsInv(states[i], states[i + 1], steps[i]);
    }
    InvIsSafe(states[|steps|]);
  }

  lemma InitInv(s: State)
    requires Init(s)
    ensures Inv(s)
  {
  }
}
