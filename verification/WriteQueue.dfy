/** The writer queue: group commit by the writer at the front. */
module WriteQueue {
  import opened Keys
  import opened Coding
  import opened WriteBatches

  /** A thread in DBImpl::Write with the byte size of its batch; a writer without a batch
      forces a memtable switch. */
  datatype Writer = Writer(batch: Option<seq<Update>>, bytes: nat, sync: bool)

  datatype Result = Success | Failure

  /** What MakeRoomForWrite did for the writer at the front: whether there is room now, and
      whether it switched to a new memtable and log on the way. */
  datatype Room = Room(ok: bool, switched: bool)

  /** One log record: the contents of one group. */
  datatype Record = Record(sequence: nat, updates: seq<Update>)

  function BatchSize(w: Writer): nat {
    if w.batch.Some? then w.bytes else 0
  }

  function SizeOf(ws: seq<Writer>): nat {
    if ws == [] then 0 else SizeOf(ws[..|ws| - 1]) + BatchSize(ws[|ws| - 1])
  }

  function Batch(w: Writer): seq<Update> {
    if w.batch.Some? then w.batch.value else []
  }

  function Updates(ws: seq<Writer>): seq<Update> {
    if ws == [] then [] else Updates(ws[..|ws| - 1]) + Batch(ws[|ws| - 1])
  }

  function MaxSize(first: nat): nat {
    if first <= 0x2_0000 then first + 0x2_0000 else 0x10_0000
  }

  /** The writer at `i` cannot join the group that the writer at the front leads. */
  ghost predicate Barred(ws: seq<Writer>, i: nat)
    requires i < |ws|
  {
    || (ws[i].sync && !ws[0].sync)
    || (ws[i].batch.Some? && SizeOf(ws[..i + 1]) > MaxSize(BatchSize(ws[0])))
  }

  /** The first n writers are the group: everyone up to the first who is barred. */
  ghost predicate IsGroup(ws: seq<Writer>, n: nat) {
    && 1 <= n <= |ws|
    && (forall i :: 1 <= i < n ==> !Barred(ws, i))
    && (n < |ws| ==> Barred(ws, n))
  }

  lemma GroupIsUnique(ws: seq<Writer>, m: nat, n: nat)
    requires IsGroup(ws, m) && IsGroup(ws, n)
    ensures m == n
  {
    assert m < |ws| ==> Barred(ws, m);
    assert n < |ws| ==> Barred(ws, n);
  }

  /** The followers' bytes. */
  function Followers(ws: seq<Writer>, n: nat): int
    requires 1 <= n <= |ws|
  {
    SizeOf(ws[..n]) - BatchSize(ws[0])
  }

  /** Behind a leader of at most 128 KB the followers have at most 128 KB together; a group behind
      a larger one has at most 1 MB, or no follower's bytes at all. */
  lemma {:induction false} GroupIsBounded(ws: seq<Writer>, n: nat)
    requires 1 <= n <= |ws| && (forall i :: 1 <= i < n ==> !Barred(ws, i))
    ensures 0 <= Followers(ws, n)
    ensures BatchSize(ws[0]) <= 131072 ==> Followers(ws, n) <= 131072
    ensures BatchSize(ws[0]) > 131072 ==> SizeOf(ws[..n]) <= 1048576 || Followers(ws, n) == 0
    decreases n
  {
    assert ws[..n][..n - 1] == ws[..n - 1];
    if n > 1 {
      GroupIsBounded(ws, n - 1);
      assert !Barred(ws, n - 1);
    } else {
      assert ws[..1] == [ws[0]] && SizeOf(ws[..1][..0]) == 0;
    }
  }

  /** The next writer is left out only for its sync flag, or because with it one of those limits
      would be passed; and then it is. */
  lemma LeftOutIff(ws: seq<Writer>, n: nat)
    requires 1 <= n < |ws| && (forall i :: 1 <= i < n ==> !Barred(ws, i))
    ensures IsGroup(ws, n) <==>
      || (ws[n].sync && !ws[0].sync)
      || (ws[n].batch.Some? && if BatchSize(ws[0]) <= 131072 then Followers(ws, n + 1) > 131072 else SizeOf(ws[..n + 1]) > 1048576)
  {}

  /** A finished group: who was in it, what was numbered from `base` on, its outcome, and whether
      the memtable was switched before it. */
  datatype Group = Group(members: seq<Writer>, base: nat, updates: seq<Update>, logged: bool, result: Result, switched: bool)

  ghost predicate GroupOk(g: Group) {
    && g.members != []
    && (g.updates == Updates(g.members) || (g.updates == [] && |g.members| == 1 && !g.logged))
    && (forall w <- g.members :: w.sync ==> g.members[0].sync)
    && (g.result.Success? && g.members[0].batch.Some? ==> g.logged && g.updates == Updates(g.members))
    && (|g.members| > 1 ==> g.members[0].batch.Some?)
    && (g.result.Success? && g.members[0].batch.None? ==> g.switched)
  }

  /** The first group whose updates are in the memtable: the last one before which it was switched. */
  function LastSwitch(gs: seq<Group>): (r: nat)
    ensures r <= |gs| && (gs != [] ==> r < |gs|)
  {
    if gs == [] then 0 else if gs[|gs| - 1].switched then |gs| - 1 else LastSwitch(gs[..|gs| - 1])
  }

  /** Sequence numbers: each group starts where the one before it ended. */
  ghost predicate Consecutive(gs: seq<Group>, first: nat, last: nat)
    decreases |gs|
  {
    if gs == [] then first == last else
      var g := gs[|gs| - 1];
      last == g.base + |g.updates| && Consecutive(gs[..|gs| - 1], first, g.base)
  }

  function MembersOf(gs: seq<Group>): seq<Writer> {
    if gs == [] then [] else MembersOf(gs[..|gs| - 1]) + gs[|gs| - 1].members
  }

  /** What the groups from `era` on added to the current memtable and log. */
  function Applied(gs: seq<Group>): seq<Stamped> {
    if gs == [] then [] else
      var g := gs[|gs| - 1];
      Applied(gs[..|gs| - 1]) + Additions(g)
  }

  function Logged(gs: seq<Group>): seq<Record> {
    if gs == [] then [] else
      var g := gs[|gs| - 1];
      Logged(gs[..|gs| - 1]) + Records(g)
  }

  ghost predicate AllOk(gs: seq<Group>) {
    forall g <- gs :: GroupOk(g)
  }

  /** A failed sync is the last thing that is ever logged. */
  ghost predicate Stopped(gs: seq<Group>) {
    forall i, j :: 0 <= i < j < |gs| && gs[i].logged && gs[i].result.Failure? ==> !gs[j].logged && gs[j].result.Failure?
  }

  ghost predicate NoneStopped(gs: seq<Group>) {
    forall g <- gs :: g.logged ==> g.result.Success?
  }

  ghost predicate Account(n: nat, gs: seq<Group>, era: nat, first: nat, arrivals: seq<Writer>, writers: seq<Writer>, finished: seq<Result>, last: nat, mem: seq<Stamped>, log: seq<Record>, pending: bool) {
    && AllOk(gs) && Stopped(gs) && Consecutive(gs, first, last)
    && arrivals == MembersOf(gs) + writers && finished == Results(gs)
    && n == |gs| && era == (if pending then n else LastSwitch(gs)) && mem == Applied(gs[era..]) && log == Logged(gs[era..])
  }

  /** What the groups finished so far account for; `pending` is set once the memtable has been
      switched for the writer at the front. */
  ghost predicate History(gs: seq<Group>, era: nat, first: nat, arrivals: seq<Writer>, writers: seq<Writer>, finished: seq<Result>, last: nat, mem: seq<Stamped>, log: seq<Record>, pending: bool) {
    forall n: nat :: n == |gs| ==> Account(n, gs, era, first, arrivals, writers, finished, last, mem, log, pending)
  }

  /** The group being written while the lock is released. */
  datatype Flight = Flight(size: nat, base: nat, updates: seq<Update>, switched: bool)

  ghost predicate SyncLed(ws: seq<Writer>, n: nat)
    requires n <= |ws|
  {
    forall i :: 0 <= i < n && ws[i].sync ==> ws[0].sync
  }

  ghost predicate InFlight(gs: seq<Group>, writers: seq<Writer>, last: nat, f: Flight) {
    && 1 <= f.size <= |writers| && f.base == last && NoneStopped(gs)
    && f.updates == Updates(writers[..f.size]) && writers[0].batch.Some?
    && SyncLed(writers, f.size)
  }

  lemma FlightIsGroup(gs: seq<Group>, writers: seq<Writer>, last: nat, f: Flight, logged: bool, result: Result)
    requires InFlight(gs, writers, last, f) && (result.Success? ==> logged)
    ensures GroupOk(Group(writers[..f.size], f.base, f.updates, logged, result, f.switched))
  {}

  lemma GroupTakesOff(gs: seq<Group>, writers: seq<Writer>, last: nat, n: nat, switched: bool)
    requires IsGroup(writers, n) && NoneStopped(gs) && writers[0].batch.Some?
    ensures InFlight(gs, writers, last, Flight(n, last, Updates(writers[..n]), switched))
  {
    forall i | 0 <= i < n && writers[i].sync
      ensures writers[0].sync
    {
      assert i > 0 ==> !Barred(writers, i);
    }
  }

  ghost predicate NoneBarred(ws: seq<Writer>, n: nat) {
    n <= |ws| && forall i :: 1 <= i < n ==> !Barred(ws, i)
  }

  ghost predicate Prefix(n: nat, ws: seq<Writer>, updates: seq<Update>, size: nat, maxSize: nat) {
    && 1 <= n <= |ws| && NoneBarred(ws, n) && maxSize == MaxSize(BatchSize(ws[0]))
    && updates == Updates(ws[..n]) && size == SizeOf(ws[..n])
  }

  /** What the loop of BuildBatchGroup has gathered from the first n writers. */
  ghost predicate Gathered(ws: seq<Writer>, n: nat, updates: seq<Update>, size: nat, maxSize: nat) {
    forall k: nat :: k == n ==> Prefix(k, ws, updates, size, maxSize)
  }

  lemma StartsWith(ws: seq<Writer>)
    requires ws != [] && ws[0].batch.Some?
    ensures Gathered(ws, 1, ws[0].batch.value, BatchSize(ws[0]), MaxSize(BatchSize(ws[0])))
  {
    GroupStart(ws);
  }

  lemma StopsHere(ws: seq<Writer>, n: nat, updates: seq<Update>, size: nat, maxSize: nat)
    requires Gathered(ws, n, updates, size, maxSize)
    requires n >= |ws| || (ws[n].sync && !ws[0].sync) || (ws[n].batch.Some? && size + BatchSize(ws[n]) > maxSize)
    ensures IsGroup(ws, n) && updates == Updates(ws[..n])
  {
    assert Prefix(n, ws, updates, size, maxSize);
    if n < |ws| {
      GroupStep(ws, n);
    }
  }

  lemma GathersOn(ws: seq<Writer>, n: nat, updates: seq<Update>, size: nat, maxSize: nat)
    requires Gathered(ws, n, updates, size, maxSize) && n < |ws|
    requires !(ws[n].sync && !ws[0].sync) && (ws[n].batch.Some? ==> size + BatchSize(ws[n]) <= maxSize)
    ensures Gathered(ws, n + 1, if ws[n].batch.Some? then updates + ws[n].batch.value else updates, size + BatchSize(ws[n]), maxSize)
  {
    assert Prefix(n, ws, updates, size, maxSize);
    GroupStep(ws, n);
  }

  class Queue {
    var writers: seq<Writer>
    var lastSequence: nat
    var log: seq<Record>
    var mem: seq<Stamped>
    var imm: Option<seq<Stamped>>
    var bgError: bool
    var flight: Option<Flight>
    /** Results handed out, in the order in which writers left. */
    var finished: seq<Result>
    ghost var arrivals: seq<Writer>
    ghost var groups: seq<Group>
    /** The number of groups finished when the current memtable and log were started. */
    ghost var era: nat
    ghost const first: nat

    ghost predicate Valid()
      reads this
    {
      && History(groups, era, first, arrivals, writers, finished, lastSequence, mem, log, Pending())
      && (bgError || NoneStopped(groups))
      && (flight.Some? ==> InFlight(groups, writers, lastSequence, flight.value))
    }

    ghost predicate Pending()
      reads this
    {
      flight.Some? && flight.value.switched
    }

    constructor (sequence: nat)
      ensures Valid() && first == sequence == lastSequence && arrivals == [] && groups == []
      ensures writers == [] && mem == [] && log == [] && imm == None && finished == [] && !bgError && flight == None
    {
      writers, lastSequence, log, mem, imm, bgError, flight, finished := [], sequence, [], [], None, false, None, [];
      arrivals, groups, era, first := [], [], 0, sequence;
    }

    /** A thread calls Write and queues up; this may happen while a group is being written. */
    method Enqueue(w: Writer)
      requires Valid()
      modifies this`writers, this`arrivals
      ensures Valid() && writers == old(writers) + [w] && arrivals == old(arrivals) + [w]
    {
      ghost var before := writers;
      assert Account(|groups|, groups, era, first, arrivals, writers, finished, lastSequence, mem, log, Pending());
      writers := writers + [w];
      arrivals := arrivals + [w];
      assert arrivals == MembersOf(groups) + writers;
      if flight.Some? {
        assert writers[..flight.value.size] == before[..flight.value.size];
      }
    }

    /** BuildBatchGroup. */
    method BuildBatchGroup() returns (n: nat, updates: seq<Update>)
      requires writers != [] && writers[0].batch.Some?
      ensures IsGroup(writers, n) && updates == Updates(writers[..n])
      ensures if BatchSize(writers[0]) <= 131072 then Followers(writers, n) <= 131072 else SizeOf(writers[..n]) <= 1048576 || Followers(writers, n) == 0
    {
      var head := writers[0];
      updates := head.batch.value;
      var size: nat := BatchSize(head);
      var maxSize: nat := MaxSize(size);
      n := 1;
      StartsWith(writers);
      while n < |writers|
        invariant 1 <= n <= |writers|
        invariant Gathered(writers, n, updates, size, maxSize)
      {
        var w := writers[n];
        if w.sync && !head.sync {
          break;
        }
        if w.batch.Some? && size + BatchSize(w) > maxSize {
          break;
        }
        GathersOn(writers, n, updates, size, maxSize);
        if w.batch.Some? {
          updates := updates + w.batch.value;
        }
        size := size + BatchSize(w);
        n := n + 1;
      }
      StopsHere(writers, n, updates, size, maxSize);
      GroupIsBounded(writers, n);
    }

    /** The writer at the front makes room, forms its group and takes sequence numbers; a
        writer without room or without a batch leaves alone.  Without a batch MakeRoomForWrite
        is forced to switch. */
    method Begin(room: Room)
      requires Valid() && writers != [] && flight.None?
      requires bgError ==> room == Room(false, false)
      requires room.switched ==> imm.None?
      requires room.ok && writers[0].batch.None? ==> room.switched
      modifies this`flight, this`log, this`mem, this`imm, this`era, this`writers, this`groups, this`finished
      ensures Valid() && bgError == old(bgError) && arrivals == old(arrivals) && lastSequence == old(lastSequence)
      ensures if room.switched then imm == Some(old(mem)) && mem == [] && log == [] else imm == old(imm) && mem == old(mem) && log == old(log)
      ensures if !room.ok || old(writers[0]).batch.None?
              then writers == old(writers[1..]) && flight.None? && finished == old(finished) + [if room.ok then Success else Failure]
              else writers == old(writers) && finished == old(finished) && flight.Some? && IsGroup(writers, flight.value.size) && flight.value.switched == room.switched
    {
      assert Account(|groups|, groups, era, first, arrivals, writers, finished, lastSequence, mem, log, false);
      if room.switched {
        imm := Some(mem);
        log, mem, era := [], [], |groups|;
      }
      if !room.ok || writers[0].batch.None? {
        LeaveAlone(if room.ok then Success else Failure, room.switched);
      } else {
        var n, updates := BuildBatchGroup();
        GroupTakesOff(groups, writers, lastSequence, n, room.switched);
        flight := Some(Flight(n, lastSequence, updates, room.switched));
      }
    }

    /** The writer at the front leaves without having written anything. */
    method LeaveAlone(result: Result, ghost switched: bool)
      requires writers != [] && flight.None? && (bgError || NoneStopped(groups))
      requires History(groups, era, first, arrivals, writers, finished, lastSequence, mem, log, switched)
      requires result.Failure? || (writers[0].batch.None? && switched && !bgError)
      modifies this`writers, this`groups, this`finished
      ensures Valid() && writers == old(writers[1..]) && finished == old(finished) + [result]
      ensures groups == old(groups) + [Group(old(writers[..1]), lastSequence, [], false, result, switched)]
    {
      ghost var g := Group(writers[..1], lastSequence, [], false, result, switched);
      assert Batch(writers[0]) == [] || result.Failure?;
      HistoryGrows(groups, era, first, arrivals, writers, finished, lastSequence, mem, log, g, 1);
      Contents(g, mem, log);
      groups := groups + [g];
      Pop(1, result);
      assert ResultsOf(result, 1) == [result];
    }

    /** The leader logs and applies its group; then its members leave the queue in order. */
    method Commit(logOk: bool, syncOk: bool)
      requires Valid() && flight.Some?
      modifies this
      ensures Valid() && flight.None? && imm == old(imm) && arrivals == old(arrivals)
      ensures var f := old(flight).value; var result := if logOk && (old(writers[0]).sync ==> syncOk) then Success else Failure;
        && lastSequence == f.base + |f.updates| && writers == old(writers)[f.size..]
        && finished == old(finished) + ResultsOf(result, f.size)
        && log == (if logOk then old(log) + [Record(f.base + 1, f.updates)] else old(log))
        && mem == (if result.Success? then old(mem) + Numbered(f.base + 1, f.updates) else old(mem))
        && bgError == (old(bgError) || (logOk && old(writers[0]).sync && !syncOk))
        && groups == old(groups) + [Group(old(writers)[..f.size], f.base, f.updates, logOk, result, f.switched)]
    {
      var f := flight.value;
      var result := if logOk && (writers[0].sync ==> syncOk) then Success else Failure;
      ghost var g := Group(writers[..f.size], f.base, f.updates, logOk, result, f.switched);
      FlightIsGroup(groups, writers, lastSequence, f, logOk, result);
      HistoryGrows(groups, era, first, arrivals, writers, finished, lastSequence, mem, log, g, f.size);
      ghost var log2, mem2 := log + Records(g), mem + Additions(g);
      Contents(g, mem, log);
      if logOk {
        log := log + [Record(f.base + 1, f.updates)];
        if writers[0].sync && !syncOk {
          bgError := true;
        } else {
          mem := mem + Numbered(f.base + 1, f.updates);
        }
      }
      assert log == log2 && mem == mem2;
      lastSequence := f.base + |f.updates|;
      flight := None;
      groups := groups + [g];
      Pop(f.size, result);
    }

    /** The first n writers are told the result and leave the queue. */
    method Pop(n: nat, result: Result)
      requires n <= |writers|
      modifies this`writers, this`finished
      ensures writers == old(writers[n..]) && finished == old(finished) + ResultsOf(result, n)
    {
      var i := 0;
      while i < n
        invariant i <= n && n - i <= |writers|
        invariant writers == old(writers[i..]) && finished == old(finished) + ResultsOf(result, i)
      {
        writers := writers[1..];
        finished := finished + [result];
        i := i + 1;
      }
    }

    /** A background flush or compaction failed. */
    method BackgroundError()
      requires Valid()
      modifies this`bgError
      ensures Valid() && bgError
    {
      bgError := true;
    }

    /** The immutable memtable has been written to a table. */
    method Flushed()
      requires Valid()
      modifies this`imm
      ensures Valid() && imm.None?
    {
      imm := None;
    }
  }

  lemma AddedMembers(gs: seq<Group>, g: Group, writers: seq<Writer>, arrivals: seq<Writer>, n: nat)
    requires n <= |writers| && g.members == writers[..n] && arrivals == MembersOf(gs) + writers
    ensures arrivals == MembersOf(gs + [g]) + writers[n..]
    ensures Results(gs + [g]) == Results(gs) + ResultsOf(g.result, n)
  {
    assert (gs + [g])[..|gs|] == gs;
    assert writers == writers[..n] + writers[n..];
    assert MembersOf(gs + [g]) == MembersOf(gs) + g.members;
  }

  lemma AddedSequence(gs: seq<Group>, g: Group, first: nat)
    requires Consecutive(gs, first, g.base) && AllOk(gs) && GroupOk(g)
    ensures Consecutive(gs + [g], first, g.base + |g.updates|) && AllOk(gs + [g])
  {
    assert (gs + [g])[..|gs|] == gs;
  }

  lemma AddedStop(gs: seq<Group>, g: Group)
    requires Stopped(gs)
    requires NoneStopped(gs) || (!g.logged && g.result.Failure?)
    ensures Stopped(gs + [g])
    ensures NoneStopped(gs) && (g.logged ==> g.result.Success?) ==> NoneStopped(gs + [g])
  {}

  function Additions(g: Group): seq<Stamped> {
    if g.logged && g.result.Success? then Numbered(g.base + 1, g.updates) else []
  }

  function Records(g: Group): seq<Record> {
    if g.logged then [Record(g.base + 1, g.updates)] else []
  }

  lemma AddedContents(gs: seq<Group>, era: nat, g: Group)
    requires era <= |gs|
    ensures Applied((gs + [g])[era..]) == Applied(gs[era..]) + Additions(g)
    ensures Logged((gs + [g])[era..]) == Logged(gs[era..]) + Records(g)
  {
    var tail := gs[era..] + [g];
    assert (gs + [g])[era..] == tail && tail[..|tail| - 1] == gs[era..];
  }

  lemma Contents(g: Group, mem: seq<Stamped>, log: seq<Record>)
    ensures log + Records(g) == if g.logged then log + [Record(g.base + 1, g.updates)] else log
    ensures mem + Additions(g) == if g.logged && g.result.Success? then mem + Numbered(g.base + 1, g.updates) else mem
  {}

  /** One more finished group keeps the account. */
  lemma HistoryGrows(gs: seq<Group>, era: nat, first: nat, arrivals: seq<Writer>, writers: seq<Writer>, finished: seq<Result>, last: nat, mem: seq<Stamped>, log: seq<Record>, g: Group, n: nat)
    requires History(gs, era, first, arrivals, writers, finished, last, mem, log, g.switched)
    requires GroupOk(g) && g.base == last && n <= |writers| && g.members == writers[..n]
    requires NoneStopped(gs) || (!g.logged && g.result.Failure?)
    ensures History(gs + [g], era, first, arrivals, writers[n..], finished + ResultsOf(g.result, n), last + |g.updates|, mem + Additions(g), log + Records(g), false)
    ensures NoneStopped(gs) && (g.logged ==> g.result.Success?) ==> NoneStopped(gs + [g])
  {
    assert Account(|gs|, gs, era, first, arrivals, writers, finished, last, mem, log, g.switched);
    assert (gs + [g])[..|gs|] == gs;
    AddedMembers(gs, g, writers, arrivals, n);
    AddedSequence(gs, g, first);
    AddedStop(gs, g);
    AddedContents(gs, era, g);
  }

  lemma GroupStart(ws: seq<Writer>)
    requires ws != []
    ensures Updates(ws[..1]) == Batch(ws[0]) && SizeOf(ws[..1]) == BatchSize(ws[0])
  {
    assert ws[..1] == [ws[0]] && [ws[0]][..0] == [];
    assert Updates([]) == [] && [] + Batch(ws[0]) == Batch(ws[0]);
  }

  lemma GroupStep(ws: seq<Writer>, n: nat)
    requires n < |ws|
    ensures Updates(ws[..n + 1]) == Updates(ws[..n]) + Batch(ws[n]) && SizeOf(ws[..n + 1]) == SizeOf(ws[..n]) + BatchSize(ws[n])
    ensures Batch(ws[n]) == [] ==> Updates(ws[..n + 1]) == Updates(ws[..n])
  {
    assert ws[..n + 1][..n] == ws[..n];
  }

  function ResultsOf(r: Result, n: nat): seq<Result> {
    seq(n, _ => r)
  }

  /** One result per writer: that of its group. */
  function Results(gs: seq<Group>): seq<Result> {
    if gs == [] then [] else
      Results(gs[..|gs| - 1]) + ResultsOf(gs[|gs| - 1].result, |gs[|gs| - 1].members|)
  }

  // ---- What every run keeps ----

  /** Sequence ranges of different groups never overlap, and later groups have later ones. */
  lemma {:induction false} RangesAreDisjoint(gs: seq<Group>, first: nat, last: nat, i: nat, j: nat)
    requires Consecutive(gs, first, last) && i < j < |gs|
    ensures first <= gs[i].base && gs[i].base + |gs[i].updates| <= gs[j].base && gs[j].base + |gs[j].updates| <= last
    decreases |gs|
  {
    var front, g := gs[..|gs| - 1], gs[|gs| - 1];
    if j < |gs| - 1 {
      RangesAreDisjoint(front, first, g.base, i, j);
    } else {
      RangeWithin(front, first, g.base, i);
    }
  }

  lemma {:induction false} RangeWithin(gs: seq<Group>, first: nat, last: nat, i: nat)
    requires Consecutive(gs, first, last) && i < |gs|
    ensures first <= gs[i].base && gs[i].base + |gs[i].updates| <= last
    decreases |gs|
  {
    var front, g := gs[..|gs| - 1], gs[|gs| - 1];
    if i < |gs| - 1 {
      RangeWithin(front, first, g.base, i);
    } else if front != [] {
      RangeWithin(front, first, g.base, 0);
    }
  }

  /** The k-th writer to arrive belongs to exactly one group, in order, and gets its result. */
  lemma {:induction false} ResultOfArrival(gs: seq<Group>, k: nat) returns (i: nat, m: nat)
    requires k < |Results(gs)|
    ensures i < |gs| && m < |gs[i].members| && k == |MembersOf(gs[..i])| + m
    ensures |Results(gs)| == |MembersOf(gs)|
    ensures MembersOf(gs)[k] == gs[i].members[m] && Results(gs)[k] == gs[i].result
    decreases |gs|
  {
    var front, g := gs[..|gs| - 1], gs[|gs| - 1];
    SameLength(front);
    if k < |Results(front)| {
      i, m := ResultOfArrival(front, k);
      assert front[..i] == gs[..i];
    } else {
      i, m := |gs| - 1, k - |Results(front)|;
    }
  }

  lemma {:induction false} SameLength(gs: seq<Group>)
    ensures |Results(gs)| == |MembersOf(gs)|
    decreases |gs|
  {
    if gs != [] {
      SameLength(gs[..|gs| - 1]);
    }
  }

  /** Where the writer at position m of a group finds its own updates in those of the group. */
  lemma {:induction false} OwnUpdates(ws: seq<Writer>, m: nat) returns (at: nat)
    requires m < |ws|
    ensures at == |Updates(ws[..m])| && at + |Batch(ws[m])| <= |Updates(ws)|
    ensures Updates(ws)[at..at + |Batch(ws[m])|] == Batch(ws[m])
    decreases |ws|
  {
    var front := ws[..|ws| - 1];
    at := |Updates(ws[..m])|;
    if m < |ws| - 1 {
      var at2 := OwnUpdates(front, m);
      assert front[..m] == ws[..m];
    } else {
      assert front == ws[..m];
    }
  }

  /** The updates in the memtable carry increasing sequence numbers from the finished ranges. */
  lemma {:induction false} AppliedIncreases(gs: seq<Group>, first: nat, last: nat)
    requires Consecutive(gs, first, last)
    ensures first <= last
    ensures forall s <- Applied(gs) :: first < s.sequence <= last
    ensures forall i, j :: 0 <= i < j < |Applied(gs)| ==> Applied(gs)[i].sequence < Applied(gs)[j].sequence
    decreases |gs|
  {
    if gs != [] {
      var front, g := gs[..|gs| - 1], gs[|gs| - 1];
      AppliedIncreases(front, first, g.base);
      var old_, new_ := Applied(front), Additions(g);
      assert Applied(gs) == old_ + new_;
      forall s | s in new_
        ensures g.base < s.sequence <= last
      {}
    }
  }

  /** A writer that asked for a sync and was told that it succeeded is in a synced, logged group. */
  lemma SyncedWriters(gs: seq<Group>, k: nat) returns (i: nat, m: nat)
    requires AllOk(gs) && k < |Results(gs)| && |Results(gs)| == |MembersOf(gs)|
    requires MembersOf(gs)[k].sync && Results(gs)[k].Success?
    ensures i < |gs| && m < |gs[i].members| && gs[i].members[m] == MembersOf(gs)[k]
    ensures gs[i].members[0].sync
    ensures gs[i].members[0].batch.Some? ==> gs[i].logged && gs[i].updates == Updates(gs[i].members)
  {
    i, m := ResultOfArrival(gs, k);
    assert GroupOk(gs[i]);
  }

  // ---- Writers without a batch ----

  /** The memtable when group i has finished. */
  function MemAfter(gs: seq<Group>, i: nat): seq<Stamped>
    requires i < |gs|
  {
    Applied(gs[LastSwitch(gs[..i + 1])..i + 1])
  }

  /** Between two turns of the queue that is the memtable. */
  lemma MemIsLast(q: Queue)
    requires q.Valid() && !q.Pending() && q.groups != []
    ensures q.mem == MemAfter(q.groups, |q.groups| - 1)
  {
    var gs := q.groups;
    assert Account(|gs|, gs, q.era, q.first, q.arrivals, q.writers, q.finished, q.lastSequence, q.mem, q.log, false);
    assert gs[..|gs| - 1 + 1] == gs;
  }

  /** What a writer without a batch waits for: when its group has finished, the memtable holds no
      update of any writer that queued up before it, in its own group or in an earlier one. */
  ghost predicate EarlierOut(gs: seq<Group>, i: nat, m: nat)
    requires i < |gs| && m <= |gs[i].members|
  {
    forall s <- MemAfter(gs, i) :: s.sequence > gs[i].base + |Updates(gs[i].members[..m])|
  }

  lemma {:induction false} ConsecutivePrefix(gs: seq<Group>, first: nat, last: nat, i: nat)
    requires Consecutive(gs, first, last) && i < |gs|
    ensures Consecutive(gs[..i], first, gs[i].base)
    decreases |gs|
  {
    var front := gs[..|gs| - 1];
    if i < |gs| - 1 {
      ConsecutivePrefix(front, first, gs[|gs| - 1].base, i);
      assert front[..i] == gs[..i];
    }
  }

  lemma {:induction false} ConsecutiveSuffix(gs: seq<Group>, first: nat, last: nat, e: nat) returns (f: nat)
    requires Consecutive(gs, first, last) && e <= |gs|
    ensures Consecutive(gs[e..], f, last)
    decreases |gs|
  {
    if e == |gs| {
      f := last;
    } else {
      var front, g := gs[..|gs| - 1], gs[|gs| - 1];
      f := ConsecutiveSuffix(front, first, g.base, e);
      assert gs[e..][..|gs| - e - 1] == front[e..];
    }
  }

  /** Updates of earlier groups carry numbers up to the base of group i. */
  lemma EarlierNumbers(gs: seq<Group>, first: nat, last: nat, e: nat, i: nat)
    requires Consecutive(gs, first, last) && e <= i < |gs|
    ensures forall s <- Applied(gs[e..i]) :: s.sequence <= gs[i].base
  {
    ConsecutivePrefix(gs, first, last, i);
    var f := ConsecutiveSuffix(gs[..i], first, gs[i].base, e);
    assert gs[..i][e..] == gs[e..i];
    AppliedIncreases(gs[e..i], f, gs[i].base);
  }

  /** The first group of the memtable that group i is applied to. */
  function EraOf(gs: seq<Group>, i: nat): (e: nat)
    requires i < |gs|
    ensures e <= i
  {
    if gs[i].switched then i else LastSwitch(gs[..i])
  }

  lemma LastSwitchIs(gs: seq<Group>, i: nat)
    requires i < |gs|
    ensures LastSwitch(gs[..i + 1]) == EraOf(gs, i)
  {
    assert gs[..i + 1][..i] == gs[..i];
  }

  lemma SplitAt(gs: seq<Group>, e: nat, i: nat)
    requires e <= i < |gs|
    ensures gs[..i][e..] == gs[e..i] && (gs[..i] + [gs[i]])[e..] == gs[e..i + 1]
  {}

  lemma MemSplits(gs: seq<Group>, i: nat)
    requires i < |gs|
    ensures MemAfter(gs, i) == Applied(gs[EraOf(gs, i)..i]) + Additions(gs[i])
  {
    var e := EraOf(gs, i);
    LastSwitchIs(gs, i);
    SplitAt(gs, e, i);
    AddedContents(gs[..i], e, gs[i]);
  }

  lemma UpdatesPrefix(ws: seq<Writer>, m: nat)
    requires m <= |ws|
    ensures |Updates(ws[..m])| <= |Updates(ws)|
    decreases |ws|
  {
    if m < |ws| {
      UpdatesPrefix(ws[..|ws| - 1], m);
      assert ws[..|ws| - 1][..m] == ws[..m];
    } else {
      assert ws[..m] == ws;
    }
  }

  lemma {:induction false} LeaderFirst(ws: seq<Writer>, m: nat)
    requires 0 < m <= |ws| && Batch(ws[0]) != []
    ensures Updates(ws[..m]) != []
    decreases m
  {
    assert ws[..m][..m - 1] == ws[..m - 1];
    if m > 1 {
      LeaderFirst(ws, m - 1);
    }
  }

  /** Nothing was there to be switched out: the writers before member m of group i had only empty
      batches, and a switch before the group, or nothing written since the last one, took care
      of the earlier groups. */
  ghost predicate NothingAhead(gs: seq<Group>, i: nat, m: nat)
    requires i < |gs| && m <= |gs[i].members|
  {
    Updates(gs[i].members[..m]) == [] && (gs[i].switched || Applied(gs[LastSwitch(gs[..i])..i]) == [])
  }

  lemma EarlierOutIff(gs: seq<Group>, first: nat, last: nat, i: nat, m: nat)
    requires AllOk(gs) && Consecutive(gs, first, last) && i < |gs| && m < |gs[i].members|
    requires gs[i].members[m].batch.None? && gs[i].result.Success?
    ensures EarlierOut(gs, i, m) <==> m == 0 || NothingAhead(gs, i, m)
  {
    var g := gs[i];
    assert GroupOk(g);
    var e := EraOf(gs, i);
    var u, old_, new_ := Updates(g.members[..m]), Applied(gs[e..i]), Additions(g);
    MemSplits(gs, i);
    EarlierNumbers(gs, first, last, e, i);
    UpdatesPrefix(g.members, m);
    assert forall s <- new_ :: s.sequence > g.base;
    if old_ != [] {
      assert old_[0] in MemAfter(gs, i);
    } else if m > 0 && u != [] {
      assert new_[0] in MemAfter(gs, i) && new_[0].sequence == g.base + 1;
    }
  }

  /** A writer without a batch asks for the memtable to be switched.  Told of success, it finds
      every earlier update out of the memtable if it led its group.  If it joined one, it does so
      only if there was nothing ahead of it, which a leader with an update excludes: the switch
      that such a leader may make comes before its own group is applied. */
  lemma BatchlessWaitsIff(gs: seq<Group>, first: nat, last: nat, k: nat) returns (i: nat, m: nat)
    requires AllOk(gs) && Consecutive(gs, first, last) && k < |Results(gs)| && |Results(gs)| == |MembersOf(gs)|
    requires MembersOf(gs)[k].batch.None? && Results(gs)[k].Success?
    ensures i < |gs| && m < |gs[i].members| && k == |MembersOf(gs[..i])| + m && gs[i].members[m] == MembersOf(gs)[k]
    ensures EarlierOut(gs, i, m) <==> m == 0 || NothingAhead(gs, i, m)
    ensures gs[i].members[0].batch != Some([]) ==> (EarlierOut(gs, i, m) <==> m == 0)
  {
    i, m := ResultOfArrival(gs, k);
    EarlierOutIff(gs, first, last, i, m);
    assert GroupOk(gs[i]);
    if m > 0 && gs[i].members[0].batch != Some([]) {
      LeaderFirst(gs[i].members, m);
    }
  }

  /** Joining without a switch: two batches and a request to switch, all successful, and
      everything still in the same memtable. */
  method JoinsWithoutSwitch(u: Update, v: Update) returns (results: seq<Result>, mem: seq<Stamped>, imm: Option<seq<Stamped>>)
    ensures results == [Success, Success, Success]
    ensures mem == [Stamped(1, u), Stamped(2, v)] && imm == None
  {
    results, mem, imm := JoinsBehind(u, v, false);
  }

  /** Joining behind a leader that switched: the leader's own update is in the new memtable. */
  method JoinsBehindSwitch(u: Update, v: Update) returns (results: seq<Result>, mem: seq<Stamped>, imm: Option<seq<Stamped>>)
    ensures results == [Success, Success, Success]
    ensures mem == [Stamped(2, v)] && imm == Some([Stamped(1, u)])
  {
    results, mem, imm := JoinsBehind(u, v, true);
  }

  method JoinsBehind(u: Update, v: Update, switched: bool) returns (results: seq<Result>, mem: seq<Stamped>, imm: Option<seq<Stamped>>)
    ensures results == [Success, Success, Success]
    ensures if switched then mem == [Stamped(2, v)] && imm == Some([Stamped(1, u)]) else mem == [Stamped(1, u), Stamped(2, v)] && imm == None
  {
    var q := FirstWrite(u);
    q.Enqueue(Writer(Some([v]), 0, false));
    q.Enqueue(Writer(None, 0, false));
    q.Begin(Room(true, switched));
    JoinedGroup(q.writers, q.flight.value.size);
    q.Commit(true, true);
    results, mem, imm := q.finished, q.mem, q.imm;
  }


  method FirstWrite(u: Update) returns (q: Queue)
    ensures fresh(q) && q.Valid() && q.writers == [] && q.flight.None? && !q.bgError && q.imm == None
    ensures q.finished == [Success] && q.mem == [Stamped(1, u)] && q.lastSequence == 1
  {
    q := new Queue(0);
    q.Enqueue(Writer(Some([u]), 0, false));
    q.Begin(Room(true, false));
    OneWriter(q.writers);
    q.Commit(true, true);
  }

  lemma OneWriter(ws: seq<Writer>)
    requires |ws| == 1
    ensures forall n :: IsGroup(ws, n) ==> n == 1
    ensures Updates(ws[..1]) == Batch(ws[0])
  {
    GroupStart(ws);
  }

  lemma JoinedGroup(ws: seq<Writer>, n: nat)
    requires |ws| == 2 && ws[0].batch.Some? && ws[1].batch.None? && !ws[1].sync && IsGroup(ws, n)
    ensures n == 2 && Updates(ws[..n]) == Batch(ws[0])
  {
    assert !Barred(ws, 1);
    GroupStart(ws);
    GroupStep(ws, 1);
  }
}
