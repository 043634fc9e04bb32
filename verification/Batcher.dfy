/**
 * Group commit: clients put operations on a queue and wait; a worker drains the queue, appends
 * the batch, syncs the file once, and then signals the waiting clients one by one.
 */
module Batchers {
  import opened Encoding
  import opened WalCodec
  import opened WalLog
  import WalFile

  /** A queued operation; tickets number the calls in the order they took the queue lock. */
  datatype Pending = Pending(ticket: nat, kind: WalFrameKind)

  datatype Worker =
    | Waiting
    | Holding(batch: seq<Pending>)
    | Appended(batch: seq<Pending>, ok: bool)
    | Signalling(rest: seq<Pending>, ok: bool)

  /** A batch in the log, numbered from `first` on. */
  datatype Group = Group(first: nat, batch: seq<Pending>)

  /** `groups` have been written to the log, the first `synced` of them are on disk; `acks` is what the clients were told. */
  datatype State = State(issued: nat, queue: seq<Pending>, worker: Worker, groups: seq<Group>, synced: nat, acks: map<nat, bool>,
                         nextSequence: nat)

  datatype Event = Enqueue(kind: WalFrameKind) | Drain | Append | Sync | Signal | Finish

  function Kinds(batch: seq<Pending>): (kinds: seq<WalFrameKind>)
    ensures |kinds| == |batch|
  {
    seq(|batch|, i requires 0 <= i < |batch| => batch[i].kind)
  }

  /** Whether the log takes the batch: all of it or nothing. */
  predicate Taken(batch: seq<Pending>, nextSequence: nat)
  {
    var frames := WalFile.GroupFrames(Kinds(batch), nextSequence);
    batch != [] && nextSequence < U64_MAX && forall i :: 0 <= i < |frames| ==> WalFile.Appendable(frames[i])
  }

  /** What one step does; a step that is not enabled does nothing. */
  function Next(s: State, e: Event): State
  {
    match e
    case Enqueue(kind) => s.(issued := s.issued + 1, queue := s.queue + [Pending(s.issued, kind)])
    case Drain =>
      if s.worker.Waiting? && s.queue != [] then s.(queue := [], worker := Holding(s.queue)) else s
    case Append =>
      if !s.worker.Holding? then s
      else
        var ok := Taken(s.worker.batch, s.nextSequence);
        s.(worker := Appended(s.worker.batch, ok),
           groups := s.groups + if ok then [Group(s.nextSequence, s.worker.batch)] else [],
           nextSequence := if s.nextSequence < U64_MAX then s.nextSequence + 1 else s.nextSequence)
    case Sync =>
      if s.worker.Appended? then s.(worker := Signalling(s.worker.batch, s.worker.ok), synced := |s.groups|) else s
    case Signal =>
      if s.worker.Signalling? && s.worker.rest != [] then
        s.(worker := s.worker.(rest := s.worker.rest[1..]), acks := s.acks[s.worker.rest[0].ticket := s.worker.ok])
      else s
    case Finish =>
      if s.worker.Signalling? && s.worker.rest == [] then s.(worker := Waiting) else s
  }

  function Start(nextSequence: nat): State
  {
    State(0, [], Waiting, [], 0, map[], nextSequence)
  }

  /** The state after the events, whatever their interleaving. */
  function After(nextSequence: nat, es: seq<Event>): State
  {
    if es == [] then Start(nextSequence) else Next(After(nextSequence, es[..|es| - 1]), es[|es| - 1])
  }

  /** What the worker has taken and not yet signalled. */
  function InBatch(s: State): seq<Pending>
  {
    match s.worker
    case Waiting => []
    case Holding(batch) => batch
    case Appended(batch, _) => batch
    case Signalling(rest, _) => rest
  }

  /** The operations of the groups, in log order. */
  function Flat(groups: seq<Group>): seq<Pending>
  {
    if groups == [] then [] else Flat(groups[..|groups| - 1]) + groups[|groups| - 1].batch
  }

  ghost predicate Has(ps: seq<Pending>, ticket: nat)
  {
    exists p :: p in ps && p.ticket == ticket
  }

  ghost predicate Ascending(ps: seq<Pending>)
  {
    forall i, j :: 0 <= i < j < |ps| ==> ps[i].ticket < ps[j].ticket
  }

  /** The unacknowledged operations are the last tickets issued, in order: first the batch, then the queue. */
  ghost predicate OpenInOrder(s: State)
  {
    var open := InBatch(s) + s.queue;
    && |open| <= s.issued
    && (forall i :: 0 <= i < |open| ==> open[i].ticket == s.issued - |open| + i)
    && (forall t: nat :: t in s.acks <==> t < s.issued - |open|)
  }

  predicate LogTook(s: State)
  {
    (s.worker.Appended? || s.worker.Signalling?) && s.worker.ok
  }

  /** The log holds exactly what was acknowledged Ok and what is about to be. */
  ghost predicate LogIsAcked(s: State)
  {
    forall t: nat :: Has(Flat(s.groups), t) <==> (t in s.acks && s.acks[t]) || (LogTook(s) && Has(InBatch(s), t))
  }

  /** At most the group being synced is not on disk yet. */
  ghost predicate SyncedBut(s: State)
  {
    if s.worker.Appended? && s.worker.ok then s.synced + 1 == |s.groups| && s.groups[s.synced].batch == s.worker.batch
    else s.synced == |s.groups|
  }

  ghost predicate Inv(s: State)
  {
    OpenInOrder(s) && LogIsAcked(s) && Ascending(Flat(s.groups)) && SyncedBut(s)
  }

  lemma HasAppend(a: seq<Pending>, b: seq<Pending>)
    ensures forall t: nat :: Has(a + b, t) <==> Has(a, t) || Has(b, t)
  {
    assert forall p :: p in a + b <==> p in a || p in b;
  }

  lemma HasCons(a: seq<Pending>)
    requires a != []
    ensures forall t: nat :: Has(a, t) <==> a[0].ticket == t || Has(a[1..], t)
  {
    assert a == [a[0]] + a[1..];
    assert forall p :: p in a <==> p == a[0] || p in a[1..];
  }

  lemma SignalKeeps(s: State)
    requires Inv(s) && s.worker.Signalling? && s.worker.rest != []
    ensures Inv(Next(s, Signal))
  {
    SignalOpen(s);
    SignalLog(s);
    hide Flat;
    hide Ascending;
    hide OpenInOrder;
    hide LogIsAcked;
  }

  lemma SignalOpen(s: State)
    requires OpenInOrder(s) && s.worker.Signalling? && s.worker.rest != []
    ensures OpenInOrder(Next(s, Signal))
  {
    var open, open' := s.worker.rest + s.queue, s.worker.rest[1..] + s.queue;
    assert open' == open[1..] && open[0] == s.worker.rest[0];
  }

  lemma SignalLog(s: State)
    requires OpenInOrder(s) && LogIsAcked(s) && s.worker.Signalling? && s.worker.rest != []
    ensures LogIsAcked(Next(s, Signal))
  {
    var rest, open := s.worker.rest, s.worker.rest + s.queue;
    assert forall i :: 0 <= i < |rest| ==> rest[i] == open[i];
    HasCons(rest);
    NotTwice(rest, s.issued - |open|);
    assert rest[0].ticket !in s.acks;
    hide OpenInOrder;
    hide Has;
    hide Flat;
  }

  lemma NotTwice(rest: seq<Pending>, base: int)
    requires rest != [] && forall i :: 0 <= i < |rest| ==> rest[i].ticket == base + i
    ensures !Has(rest[1..], rest[0].ticket)
  {
  }

  lemma FlatOneMore(groups: seq<Group>, g: Group)
    ensures Flat(groups + [g]) == Flat(groups) + g.batch
  {
    assert (groups + [g])[..|groups|] == groups;
  }

  lemma AppendKeeps(s: State)
    requires Inv(s) && s.worker.Holding?
    ensures Inv(Next(s, Append))
  {
    LogBelow(s);
    AppendLog(s);
    AppendOpen(s);
    hide Ascending;
    hide LogIsAcked;
    hide OpenInOrder;
    hide Taken;
    hide Flat;
  }

  lemma AppendOpen(s: State)
    requires OpenInOrder(s) && s.worker.Holding?
    ensures OpenInOrder(Next(s, Append))
  {
    hide Taken;
    assert InBatch(Next(s, Append)) == InBatch(s);
  }

  lemma AppendLog(s: State)
    requires LogIsAcked(s) && Ascending(Flat(s.groups)) && s.worker.Holding? && Ascending(s.worker.batch)
    requires forall i, j :: 0 <= i < |Flat(s.groups)| && 0 <= j < |s.worker.batch| ==>
               Flat(s.groups)[i].ticket < s.worker.batch[j].ticket
    ensures LogIsAcked(Next(s, Append)) && Ascending(Flat(Next(s, Append).groups))
  {
    hide Flat;
    hide Ascending;
    hide LogIsAcked;
    hide Taken;
    AppendedLog(s);
    AppendedAcks(s, Next(s, Append));
    AscendingJoin(Flat(s.groups), s.worker.batch);
  }

  lemma AppendedAcks(s: State, s': State)
    requires LogIsAcked(s) && s.worker.Holding? && s'.worker.Appended? && s'.worker.batch == s.worker.batch && s'.acks == s.acks
    requires Flat(s'.groups) == if s'.worker.ok then Flat(s.groups) + s.worker.batch else Flat(s.groups)
    ensures LogIsAcked(s')
  {
    HasAppend(Flat(s.groups), s.worker.batch);
    hide Flat;
    hide Has;
  }

  lemma AppendedLog(s: State)
    requires s.worker.Holding?
    ensures Flat(Next(s, Append).groups) ==
            if Taken(s.worker.batch, s.nextSequence) then Flat(s.groups) + s.worker.batch else Flat(s.groups)
  {
    hide Taken;
    hide Flat;
    assert s.groups + [] == s.groups;
    FlatOneMore(s.groups, Group(s.nextSequence, s.worker.batch));
  }

  lemma AscendingJoin(a: seq<Pending>, b: seq<Pending>)
    requires Ascending(a) && Ascending(b)
    requires forall i, j :: 0 <= i < |a| && 0 <= j < |b| ==> a[i].ticket < b[j].ticket
    ensures Ascending(a + b)
  {
  }

  /** Everything in the log was enqueued before the batch that the worker holds. */
  lemma LogBelow(s: State)
    requires Inv(s) && s.worker.Holding?
    ensures forall i, j :: 0 <= i < |Flat(s.groups)| && 0 <= j < |s.worker.batch| ==>
              Flat(s.groups)[i].ticket < s.worker.batch[j].ticket
    ensures Ascending(s.worker.batch)
  {
    hide Flat;
    var open, log := s.worker.batch + s.queue, Flat(s.groups);
    assert forall j :: 0 <= j < |s.worker.batch| ==> s.worker.batch[j] == open[j];
    forall i | 0 <= i < |log|
      ensures log[i].ticket < s.issued - |open|
    {
      assert Has(log, log[i].ticket);
    }
  }

  lemma EnqueueKeeps(s: State, kind: WalFrameKind)
    requires Inv(s)
    ensures Inv(Next(s, Enqueue(kind)))
  {
    hide Has;
    hide Ascending;
    hide Flat;
    var open, s' := InBatch(s) + s.queue, Next(s, Enqueue(kind));
    assert InBatch(s') + s'.queue == open + [Pending(s.issued, kind)];
  }

  lemma OtherKeeps(s: State, e: Event)
    requires Inv(s) && (e.Drain? || e.Sync? || e.Finish?)
    ensures Inv(Next(s, e))
  {
    hide Ascending;
    hide Flat;
    assert [] + s.queue == s.queue == s.queue + [];
  }

  lemma StepKeeps(s: State, e: Event)
    requires Inv(s)
    ensures Inv(Next(s, e))
  {
    hide Inv;
    match e
    case Enqueue(kind) => EnqueueKeeps(s, kind);
    case Append =>
      if s.worker.Holding? {
        AppendKeeps(s);
      }
    case Signal =>
      if s.worker.Signalling? && s.worker.rest != [] {
        SignalKeeps(s);
      }
    case _ => OtherKeeps(s, e);
  }

  lemma {:induction false} AlwaysInv(nextSequence: nat, es: seq<Event>)
    ensures Inv(After(nextSequence, es))
  {
    hide Inv;
    if es == [] {
      StartInv(nextSequence);
    } else {
      AlwaysInv(nextSequence, es[..|es| - 1]);
      StepKeeps(After(nextSequence, es[..|es| - 1]), es[|es| - 1]);
    }
  }

  lemma StartInv(nextSequence: nat)
    ensures Inv(Start(nextSequence))
  {
  }

  /** What an fsync covers. */
  function OnDisk(s: State): seq<Pending>
  {
    if s.synced <= |s.groups| then Flat(s.groups[..s.synced]) else []
  }

  /** An acknowledged operation is in the log exactly when it is on disk. */
  lemma AckedOnDisk(s: State, ticket: nat)
    requires Inv(s) && ticket in s.acks
    ensures s.acks[ticket] <==> Has(OnDisk(s), ticket)
  {
    hide Ascending;
    var open := InBatch(s) + s.queue;
    assert forall i :: 0 <= i < |InBatch(s)| ==> InBatch(s)[i] == open[i];
    TicketsOf(InBatch(s), s.issued - |open|, ticket);
    if s.worker.Appended? && s.worker.ok {
      var n := s.synced;
      assert s.groups[..n] + [s.groups[n]] == s.groups;
      FlatOneMore(s.groups[..n], s.groups[n]);
      HasAppend(Flat(s.groups[..n]), s.groups[n].batch);
    } else {
      assert s.groups[..s.synced] == s.groups;
    }
  }

  /**
   * Group commit, over every interleaving of clients and worker: each operation ever enqueued
   * is in exactly one of the queue, the worker's batch and the acknowledged; one acknowledged
   * Ok is in the log on disk, one acknowledged with an error is not; and the log holds
   * operations in the order they were enqueued.
   */
  lemma GroupCommit(nextSequence: nat, es: seq<Event>, ticket: nat)
    ensures var s := After(nextSequence, es);
            && (ticket < s.issued <==> Has(s.queue, ticket) || Has(InBatch(s), ticket) || ticket in s.acks)
            && !(Has(s.queue, ticket) && Has(InBatch(s), ticket))
            && !(Has(s.queue, ticket) && ticket in s.acks) && !(Has(InBatch(s), ticket) && ticket in s.acks)
            && (ticket in s.acks ==> (s.acks[ticket] <==> Has(OnDisk(s), ticket)))
            && Ascending(Flat(s.groups))
  {
    AlwaysInv(nextSequence, es);
    var s := After(nextSequence, es);
    hide Flat;
    hide OnDisk;
    hide After;
    if ticket in s.acks {
      AckedOnDisk(s, ticket);
    }
    hide LogIsAcked;
    var batch, queue := InBatch(s), s.queue;
    var open := batch + queue;
    var base := s.issued - |open|;
    assert forall i :: 0 <= i < |batch| ==> batch[i] == open[i];
    assert forall i :: 0 <= i < |queue| ==> queue[i] == open[|batch| + i];
    TicketsOf(batch, base, ticket);
    TicketsOf(queue, base + |batch|, ticket);
  }

  lemma TicketsOf(ps: seq<Pending>, base: int, ticket: nat)
    requires forall i :: 0 <= i < |ps| ==> ps[i].ticket == base + i
    ensures Has(ps, ticket) <==> base <= ticket < base + |ps|
  {
    if base <= ticket < base + |ps| {
      assert ps[ticket - base] in ps;
    }
  }

  // -------------------------------------------------------------------------
  // Progress
  // -------------------------------------------------------------------------

  /** The log can frame the operation: a put or a delete whose payload is within 16 MiB. */
  predicate Framable(kind: WalFrameKind)
  {
    match kind
    case Put(key, value) => 8 + |key| + |value| <= 0x100_0000
    case Delete(key) => 4 + |key| <= 0x100_0000
    case _ => false
  }

  /** The log takes a batch exactly when a sequence is left and it can frame every operation. */
  lemma TakenIff(batch: seq<Pending>, nextSequence: nat)
    ensures Taken(batch, nextSequence) <==>
              && batch != [] && nextSequence < 0xFFFF_FFFF_FFFF_FFFF
              && forall i :: 0 <= i < |batch| ==> Framable(batch[i].kind)
  {
    var frames := WalFile.GroupFrames(Kinds(batch), nextSequence);
    forall i | 0 <= i < |batch|
      ensures WalFile.Appendable(frames[i]) <==> Framable(batch[i].kind)
    {
      if batch[i].kind.IsOperation() {
        EncodableOperation(frames[i].sequence, batch[i].kind);
      }
    }
  }

  function From(s: State, es: seq<Event>): State
    decreases |es|
  {
    if es == [] then s else From(Next(s, es[0]), es[1..])
  }

  lemma {:induction false} FromThen(s: State, es: seq<Event>, fs: seq<Event>)
    ensures From(s, es + fs) == From(From(s, es), fs)
    decreases |es|
  {
    hide Next;
    if es == [] {
      assert es + fs == fs;
    } else {
      assert (es + fs)[1..] == es[1..] + fs;
      FromThen(Next(s, es[0]), es[1..], fs);
    }
  }

  function Signals(n: nat): (es: seq<Event>)
    ensures |es| == n
  {
    seq(n, i => Signal)
  }

  /** Once around for the worker, with `n` operations on the queue. */
  function Round(n: nat): seq<Event>
  {
    [Drain, Append, Sync] + Signals(n) + [Finish]
  }

  /** Those waiting have all been answered, and no others. */
  ghost predicate Answered(acks: map<nat, bool>, ps: seq<Pending>, ok: bool, acks': map<nat, bool>)
  {
    forall t: nat ::
      && (t in acks' <==> t in acks || Has(ps, t))
      && (t in acks' ==> acks'[t] == if Has(ps, t) then ok else acks[t])
  }

  lemma {:induction false} SignalsAnswer(s: State, n: nat)
    requires s.worker.Signalling? && |s.worker.rest| == n
    ensures var t := From(s, Signals(n));
            t == s.(worker := Signalling([], s.worker.ok), acks := t.acks) && Answered(s.acks, s.worker.rest, s.worker.ok, t.acks)
    decreases n
  {
    if n > 0 {
      assert Signals(n)[1..] == Signals(n - 1);
      SignalsAnswer(Next(s, Signal), n - 1);
      AnsweredOne(s.acks, s.worker.rest, s.worker.ok, From(s, Signals(n)).acks);
    }
    hide Answered;
  }

  lemma AnsweredOne(acks: map<nat, bool>, ps: seq<Pending>, ok: bool, acks': map<nat, bool>)
    requires ps != [] && Answered(acks[ps[0].ticket := ok], ps[1..], ok, acks')
    ensures Answered(acks, ps, ok, acks')
  {
    HasCons(ps);
    hide Has;
  }

  /**
   * Once around, the worker answers everybody who waited when it drained the queue, all alike: Ok
   * exactly when a sequence was left and the log could frame every operation, and then the
   * operations are in the log as one group, on disk. One sequence is used up either way.
   */
  lemma RoundServes(s: State)
    requires s.worker.Waiting? && s.queue != []
    ensures var t := From(s, Round(|s.queue|));
            var ok := s.nextSequence < 0xFFFF_FFFF_FFFF_FFFF && forall i :: 0 <= i < |s.queue| ==> Framable(s.queue[i].kind);
            && t.worker.Waiting? && t.queue == [] && t.issued == s.issued
            && t.groups == s.groups + (if ok then [Group(s.nextSequence, s.queue)] else []) && t.synced == |t.groups|
            && t.nextSequence == s.nextSequence + (if s.nextSequence < 0xFFFF_FFFF_FFFF_FFFF then 1 else 0)
            && Answered(s.acks, s.queue, ok, t.acks)
  {
    var n := |s.queue|;
    TakenIff(s.queue, s.nextSequence);
    hide Taken;
    hide Framable;
    var s3 := Next(Next(Next(s, Drain), Append), Sync);
    FromThen(s, [Drain, Append, Sync] + Signals(n), [Finish]);
    FromThen(s, [Drain, Append, Sync], Signals(n));
    ThreeEvents(s, Drain, Append, Sync);
    SignalsAnswer(s3, n);
    var s4 := From(s3, Signals(n));
    OneEvent(s4, Finish);
    hide From;
    hide Answered;
  }

  lemma OneEvent(s: State, e: Event)
    ensures From(s, [e]) == Next(s, e)
  {
    hide Next;
    assert [e][1..] == [];
  }

  lemma ThreeEvents(s: State, a: Event, b: Event, c: Event)
    ensures From(s, [a, b, c]) == Next(Next(Next(s, a), b), c)
  {
    hide Next;
    var s1, s2 := Next(s, a), Next(Next(s, a), b);
    assert [a, b, c][1..] == [b, c] && [b, c][1..] == [c];
    assert From(s1, [b, c]) == From(s2, [c]);
    OneEvent(s2, c);
  }

  function Calls(kinds: seq<WalFrameKind>): (es: seq<Event>)
    ensures |es| == |kinds|
  {
    seq(|kinds|, i requires 0 <= i < |kinds| => Enqueue(kinds[i]))
  }

  /** Clients' calls take the next tickets and the last places of the queue, in their order, and change nothing else. */
  lemma {:induction false} CallsQueue(s: State, kinds: seq<WalFrameKind>) returns (ps: seq<Pending>)
    ensures From(s, Calls(kinds)) == s.(issued := s.issued + |kinds|, queue := s.queue + ps)
    ensures |ps| == |kinds| && forall i :: 0 <= i < |ps| ==> ps[i] == Pending(s.issued + i, kinds[i])
    decreases |kinds|
  {
    if kinds == [] {
      ps := [];
      assert s.queue + [] == s.queue;
    } else {
      assert Calls(kinds)[1..] == Calls(kinds[1..]);
      var p := Pending(s.issued, kinds[0]);
      var rest := CallsQueue(Next(s, Enqueue(kinds[0])), kinds[1..]);
      ps := [p] + rest;
      assert s.queue + [p] + rest == s.queue + ps;
    }
  }

  // -------------------------------------------------------------------------
  // What reopening keeps of the groups
  // -------------------------------------------------------------------------

  /** The frames of the groups, in log order. */
  function FramesOf(groups: seq<Group>): Frames
  {
    if groups == [] then []
    else
      var g := groups[|groups| - 1];
      FramesOf(groups[..|groups| - 1]) + WalFile.GroupFrames(Kinds(g.batch), g.first)
  }

  lemma {:induction false} SameLength(groups: seq<Group>)
    ensures |FramesOf(groups)| == |Flat(groups)|
  {
    if groups != [] {
      SameLength(groups[..|groups| - 1]);
    }
  }

  /** Groups are not empty, and numbered apart and within 64 bits. */
  ghost predicate Spaced(groups: seq<Group>)
  {
    && (forall i :: 0 <= i < |groups| ==> groups[i].batch != [] && groups[i].first + |groups[i].batch| <= U64_LIMIT)
    && forall i :: 0 < i < |groups| ==> groups[i - 1].first < groups[i].first
  }

  /** Each group before the `i`-th is followed by one that took the sequence after its last. As the counter
      moves on by one for each append, a group of one must be followed at once, a group of `n` by the `n`-th
      append after it, those between having been refused. */
  ghost predicate Chained(groups: seq<Group>, i: nat)
  {
    i < |groups| && forall j :: 0 <= j < i ==> groups[j + 1].first == groups[j].first + |groups[j].batch|
  }

  function StartOf(groups: seq<Group>, i: nat): nat
    requires i <= |groups|
  {
    |Flat(groups[..i])|
  }

  lemma OneGroup(groups: seq<Group>, g: Group)
    ensures Flat(groups + [g]) == Flat(groups) + g.batch
    ensures FramesOf(groups + [g]) == FramesOf(groups) + WalFile.GroupFrames(Kinds(g.batch), g.first)
    ensures |FramesOf(groups)| == |Flat(groups)|
  {
    SameLength(groups);
    assert (groups + [g])[..|groups|] == groups;
  }

  lemma NumberedIn(g: Group, o: nat)
    requires o < |g.batch| && g.first + |g.batch| <= U64_LIMIT
    ensures WalFile.GroupFrames(Kinds(g.batch), g.first)[o].sequence == g.first + o
  {
    assert (g.first + o) % U64_LIMIT == g.first + o;
  }

  /** Where the operations of a group stand, and how they are numbered. */
  lemma {:induction false} FrameAt(groups: seq<Group>, i: nat, o: nat)
    requires Spaced(groups) && i < |groups| && o < |groups[i].batch|
    ensures StartOf(groups, i) + |groups[i].batch| <= |Flat(groups)| == |FramesOf(groups)|
    ensures FramesOf(groups)[StartOf(groups, i) + o].sequence == groups[i].first + o
    ensures Flat(groups)[StartOf(groups, i) + o] == groups[i].batch[o]
    decreases |groups|
  {
    hide Flat;
    hide FramesOf;
    var n := |groups| - 1;
    assert groups[..n] + [groups[n]] == groups;
    OneGroup(groups[..n], groups[n]);
    SameLength(groups);
    if i < n {
      FrameAt(groups[..n], i, o);
      assert groups[..n][..i] == groups[..i];
    } else {
      NumberedIn(groups[i], o);
    }
  }

  lemma StartZero(groups: seq<Group>)
    ensures StartOf(groups, 0) == 0
  {
    assert groups[..0] == [];
  }

  lemma StartNext(groups: seq<Group>, i: nat)
    requires i < |groups|
    ensures StartOf(groups, i + 1) == StartOf(groups, i) + |groups[i].batch|
    ensures StartOf(groups, i) <= |Flat(groups)|
  {
    hide Flat;
    hide FramesOf;
    OneGroup(groups[..i], groups[i]);
    assert groups[..i] + [groups[i]] == groups[..i + 1];
    FlatPrefix(groups, i);
  }

  lemma {:induction false} FlatPrefix(groups: seq<Group>, i: nat)
    requires i <= |groups|
    ensures |Flat(groups[..i])| <= |Flat(groups)|
    decreases |groups|
  {
    if i < |groups| {
      FlatPrefix(groups[..|groups| - 1], i);
      assert groups[..|groups| - 1][..i] == groups[..i];
    } else {
      assert groups[..i] == groups;
    }
  }

  /** The group that a place in the log belongs to. */
  lemma {:induction false} GroupOf(groups: seq<Group>, p: nat) returns (i: nat, o: nat)
    requires p < |Flat(groups)|
    ensures i < |groups| && o < |groups[i].batch| && p == StartOf(groups, i) + o
    decreases |groups|
  {
    var n := |groups| - 1;
    assert groups[..n] + [groups[n]] == groups;
    OneGroup(groups[..n], groups[n]);
    if p >= |Flat(groups[..n])| {
      i, o := n, p - |Flat(groups[..n])|;
    } else {
      i, o := GroupOf(groups[..n], p);
      assert groups[..n][..i] == groups[..i];
    }
  }

  /** Whether the first frame of a group follows the last of the group before. */
  lemma BetweenGroups(groups: seq<Group>, i: nat)
    requires Spaced(groups) && 0 < i < |groups|
    ensures 0 < StartOf(groups, i) < |FramesOf(groups)|
    ensures FramesOf(groups)[StartOf(groups, i)].sequence == FramesOf(groups)[StartOf(groups, i) - 1].sequence + 1 <==>
              groups[i].first == groups[i - 1].first + |groups[i - 1].batch|
  {
    var n := |groups[i - 1].batch|;
    assert n > 0 && groups[i].batch != [];
    hide *;
    StartNext(groups, i - 1);
    FrameAt(groups, i - 1, n - 1);
    FrameAt(groups, i, 0);
  }

  /** Within a group each frame follows the one before. */
  lemma WithinGroup(groups: seq<Group>, i: nat, o: nat)
    requires Spaced(groups) && i < |groups| && 0 < o < |groups[i].batch|
    ensures StartOf(groups, i) + o < |FramesOf(groups)|
    ensures FramesOf(groups)[StartOf(groups, i) + o].sequence == FramesOf(groups)[StartOf(groups, i) + o - 1].sequence + 1
  {
    hide *;
    FrameAt(groups, i, o);
    FrameAt(groups, i, o - 1);
  }

  /**
   * Exactly which operations of the log are read again after a restart: those of the groups up to
   * and including the first whose successor does not take the sequence after its last.
   */
  lemma AcceptedIff(groups: seq<Group>, i: nat, o: nat)
    requires Spaced(groups) && i < |groups| && o < |groups[i].batch|
    ensures StartOf(groups, i) + o < ScanLength(FramesOf(groups)) <==> Chained(groups, i)
  {
    var f, p := FramesOf(groups), StartOf(groups, i) + o;
    FrameAt(groups, i, o);
    ScanReaches(f, p);
    hide ScanLength;
    hide FramesOf;
    hide StartOf;
    if Chained(groups, i) {
      var g := f[..p + 1];
      forall q | 0 < q < |g|
        ensures g[q].sequence == g[q - 1].sequence + 1
      {
        NoBreak(groups, i, o, q);
      }
    } else {
      var q := Break(groups, i, o);
      assert f[..p + 1][q] == f[q] && f[..p + 1][q - 1] == f[q - 1];
    }
  }

  lemma {:induction false} StartMonotone(groups: seq<Group>, i: nat, j: nat)
    requires Spaced(groups) && i <= j <= |groups|
    ensures StartOf(groups, i) + (j - i) <= StartOf(groups, j)
    decreases j
  {
    if i < j {
      StartMonotone(groups, i, j - 1);
      StartNext(groups, j - 1);
    }
    hide StartOf;
  }

  lemma ChainedAt(groups: seq<Group>, i: nat, j: nat)
    requires Chained(groups, i) && 0 < j <= i
    ensures groups[j].first == groups[j - 1].first + |groups[j - 1].batch|
  {
    assert groups[j - 1 + 1].first == groups[j - 1].first + |groups[j - 1].batch|;
  }

  lemma NoBreak(groups: seq<Group>, i: nat, o: nat, q: nat)
    requires Spaced(groups) && Chained(groups, i) && i < |groups| && o < |groups[i].batch| && 0 < q <= StartOf(groups, i) + o
    ensures q < |FramesOf(groups)| && FramesOf(groups)[q].sequence == FramesOf(groups)[q - 1].sequence + 1
  {
    hide *;
    FrameAt(groups, i, o);
    var j, u := GroupOf(groups, q);
    if j > i {
      StartMonotone(groups, i + 1, j);
      StartNext(groups, i);
    }
    StartZero(groups);
    if u > 0 {
      WithinGroup(groups, j, u);
    } else {
      ChainedAt(groups, i, j);
      BetweenGroups(groups, j);
    }
  }

  lemma Break(groups: seq<Group>, i: nat, o: nat) returns (q: nat)
    requires Spaced(groups) && i < |groups| && o < |groups[i].batch| && !Chained(groups, i)
    ensures 0 < q <= StartOf(groups, i) + o && q < |FramesOf(groups)|
    ensures FramesOf(groups)[q].sequence != FramesOf(groups)[q - 1].sequence + 1
  {
    var j :| 0 <= j < i && groups[j + 1].first != groups[j].first + |groups[j].batch|;
    hide *;
    q := StartOf(groups, j + 1);
    StartMonotone(groups, j + 1, i);
    BetweenGroups(groups, j + 1);
  }

  /** The groups are numbered below the counter, which moves by at most one an event. */
  ghost predicate Numbered(s: State, bound: nat)
  {
    && s.nextSequence + s.issued <= bound <= U64_LIMIT && |InBatch(s) + s.queue| <= s.issued
    && Spaced(s.groups) && (s.groups != [] ==> s.groups[|s.groups| - 1].first < s.nextSequence)
  }

  lemma NumberedStep(s: State, e: Event, bound: nat)
    requires Numbered(s, bound) && bound < U64_LIMIT
    ensures Numbered(Next(s, e), bound + 1)
  {
    if e.Append? && s.worker.Holding? {
      NumberedAppend(s, bound);
    } else {
      hide Spaced;
    }
  }

  lemma NumberedAppend(s: State, bound: nat)
    requires Numbered(s, bound) && bound < U64_LIMIT && s.worker.Holding?
    ensures Numbered(Next(s, Append), bound + 1)
  {
    var g := Group(s.nextSequence, s.worker.batch);
    if Taken(s.worker.batch, s.nextSequence) {
      TakenNotEmpty(s.worker.batch, s.nextSequence);
      SpacedOneMore(s.groups, g);
    }
    hide Taken;
    hide Spaced;
    assert s.groups + [] == s.groups;
  }

  lemma SpacedOneMore(groups: seq<Group>, g: Group)
    requires Spaced(groups) && g.batch != [] && g.first + |g.batch| <= U64_LIMIT
    requires groups != [] ==> groups[|groups| - 1].first < g.first
    ensures Spaced(groups + [g])
  {
  }

  lemma TakenNotEmpty(batch: seq<Pending>, nextSequence: nat)
    requires Taken(batch, nextSequence)
    ensures batch != [] && nextSequence < U64_MAX
  {
  }

  lemma {:induction false} AlwaysNumbered(nextSequence: nat, es: seq<Event>)
    requires nextSequence + |es| <= U64_LIMIT
    ensures Numbered(After(nextSequence, es), nextSequence + |es|)
  {
    hide Numbered;
    if es == [] {
      NumberedStart(nextSequence);
    } else {
      AlwaysNumbered(nextSequence, es[..|es| - 1]);
      NumberedStep(After(nextSequence, es[..|es| - 1]), es[|es| - 1], nextSequence + |es| - 1);
    }
  }

  lemma NumberedStart(nextSequence: nat)
    requires nextSequence <= U64_LIMIT
    ensures Numbered(Start(nextSequence), nextSequence)
  {
  }

  /** A frame that is there is accepted or not whatever follows it. */
  lemma ScanOfPrefix(a: Frames, b: Frames, p: nat)
    requires a <= b && p < |a|
    ensures p < ScanLength(a) <==> p < ScanLength(b)
  {
    ScanReaches(a, p);
    ScanReaches(b, p);
    assert a[..p + 1] == b[..p + 1];
    hide ScanLength;
    hide FramesConsecutive;
  }

  lemma {:induction false} FramesPrefix(groups: seq<Group>, i: nat)
    requires i <= |groups|
    ensures |FramesOf(groups[..i])| == StartOf(groups, i)
  {
    SameLength(groups[..i]);
  }

  /** A ticket stands once in the log. */
  lemma TicketPlace(groups: seq<Group>, i: nat, o: nat, n: nat, ticket: nat)
    requires Spaced(groups) && Ascending(Flat(groups)) && i < |groups| && o < |groups[i].batch| && n <= |Flat(groups)|
    requires groups[i].batch[o].ticket == ticket
    ensures Has(Flat(groups)[..n], ticket) <==> StartOf(groups, i) + o < n
  {
    FrameAt(groups, i, o);
    var log, p := Flat(groups), StartOf(groups, i) + o;
    hide Flat;
    hide StartOf;
    hide FramesOf;
    if p < n {
      assert log[..n][p] == log[p] && log[p] in log[..n];
    } else {
      assert forall q :: 0 <= q < n ==> log[..n][q].ticket < ticket;
    }
  }

  /**
   * What group commit promises after a restart, over every interleaving, for every operation that
   * was acknowledged Ok, and wherever a crash cuts the frames that were not synced: it is read
   * again exactly when each group before its own was followed by one that took the sequence after
   * its last.
   */
  lemma SurvivesIff(nextSequence: nat, es: seq<Event>, found: Frames, ticket: nat) returns (i: nat)
    requires nextSequence + |es| <= U64_LIMIT
    requires var s := After(nextSequence, es);
             && found <= FramesOf(s.groups) && s.synced <= |s.groups| && |FramesOf(s.groups[..s.synced])| <= |found|
             && ticket in s.acks && s.acks[ticket]
    ensures var s := After(nextSequence, es);
            && i < s.synced && Has(s.groups[i].batch, ticket) && |Flat(s.groups)| == |FramesOf(s.groups)|
            && (Has(Flat(s.groups)[..ScanLength(found)], ticket) <==> Chained(s.groups, i))
  {
    var s := After(nextSequence, es);
    AlwaysInv(nextSequence, es);
    AlwaysNumbered(nextSequence, es);
    AckedOnDisk(s, ticket);
    Parts(s, nextSequence + |es|);
    hide *;
    var o: nat;
    i, o := SyncedPlace(s, ticket);
    AcceptedIff(s.groups, i, o);
    FrameAt(s.groups, i, o);
    FramesPrefix(s.groups, s.synced);
    ScanOfPrefix(found, FramesOf(s.groups), StartOf(s.groups, i) + o);
    TicketPlace(s.groups, i, o, ScanLength(found), ticket);
  }

  lemma Parts(s: State, bound: nat)
    requires Inv(s) && Numbered(s, bound)
    ensures Spaced(s.groups) && Ascending(Flat(s.groups))
  {
    hide OpenInOrder;
    hide LogIsAcked;
  }

  lemma SyncedPlace(s: State, ticket: nat) returns (i: nat, o: nat)
    requires s.synced <= |s.groups| && Has(OnDisk(s), ticket)
    ensures i < s.synced && o < |s.groups[i].batch| && s.groups[i].batch[o].ticket == ticket && Has(s.groups[i].batch, ticket)
    ensures StartOf(s.groups, i) + o < StartOf(s.groups, s.synced)
  {
    var gs := s.groups[..s.synced];
    var x :| x in OnDisk(s) && x.ticket == ticket;
    var p :| 0 <= p < |Flat(gs)| && Flat(gs)[p] == x;
    i, o := GroupOf(gs, p);
    PlaceIn(gs, i, o);
    assert gs[..i] == s.groups[..i] && gs[i] == s.groups[i];
    assert s.groups[i].batch[o] in s.groups[i].batch;
  }

  lemma {:induction false} PlaceIn(groups: seq<Group>, i: nat, o: nat)
    requires i < |groups| && o < |groups[i].batch| && StartOf(groups, i) + o < |Flat(groups)|
    ensures Flat(groups)[StartOf(groups, i) + o] == groups[i].batch[o]
    decreases |groups|
  {
    hide Flat;
    hide FramesOf;
    var n := |groups| - 1;
    assert groups[..n] + [groups[n]] == groups;
    OneGroup(groups[..n], groups[n]);
    if i < n {
      StartNext(groups[..n], i);
      StartWithin(groups[..n], i + 1);
      PlaceIn(groups[..n], i, o);
      assert groups[..n][..i] == groups[..i];
    }
  }

  lemma StartWithin(groups: seq<Group>, i: nat)
    requires i <= |groups|
    ensures StartOf(groups, i) <= |Flat(groups)|
  {
    FlatPrefix(groups, i);
  }
}
