/**
 * The Watcher object: the tracked-file map, the slice of subscriber channels,
 * and the methods that update them in place.
 *
 * Every call is one atomic step. A subscriber channel is a Client object and
 * what has been sent on it is its outbox; the HTTP handler that drains the
 * channel is not part of this model.
 */
module FileWatcher {
  import opened Wrappers
  import opened Events
  import opened Scanner
  import opened Registry

  /**
   * One subscriber: the channel of one streaming connection, seen as the
   * messages sent on it. The ghost joined is how many messages the watcher
   * had broadcast when the channel was registered.
   */
  class Client {
    var outbox: seq<string>
    ghost const joined: nat

    constructor (ghost joined: nat)
      ensures outbox == [] && this.joined == joined
    {
      outbox := [];
      this.joined := joined;
    }
  }

  /** One polling round: what the walk reported and which paths os.Stat still finds. */
  datatype Snapshot = Snapshot(walk: seq<Visit>, present: set<string>)

  /** The tracked map after a number of rounds of polling, the last round scanned last. */
  function AfterRounds(prev: Tracked, rounds: seq<Snapshot>): Tracked
    decreases |rounds|
  {
    if rounds == [] then prev
    else
      var n := |rounds| - 1;
      Scan(AfterRounds(prev, rounds[..n]), rounds[n].walk, rounds[n].present).tracked
  }

  /** What one round adds to the error log: its error, if it had one. */
  function Logged(err: Option<WalkError>): (log: seq<WalkError>)
    ensures |log| <= 1
  {
    if err.Some? then [err.value] else []
  }

  /** The errors the polling loop reports, one per failed round, in order. */
  function ErrorLog(rounds: seq<Snapshot>): (log: seq<WalkError>)
    ensures |log| <= |rounds|
    decreases |rounds|
  {
    if rounds == [] then []
    else
      var n := |rounds| - 1;
      ErrorLog(rounds[..n]) + Logged(FirstError(rounds[n].walk))
  }

  /**
   * removals[r] lists, in the order the deletion pass chose, the paths round r
   * removed: each of them exactly once.
   */
  ghost predicate RemovalsFit(prev: Tracked, rounds: seq<Snapshot>, removals: seq<seq<string>>)
    decreases |rounds|
  {
    && |removals| == |rounds|
    && (rounds != [] ==>
          var n := |rounds| - 1;
          && RemovalsFit(prev, rounds[..n], removals[..n])
          && Enumerates(removals[n], Scan(AfterRounds(prev, rounds[..n]), rounds[n].walk, rounds[n].present).removed))
  }

  /**
   * The events the rounds broadcast, round after round: each round's walk
   * events, then one Deleted per path it removed, in the order of removals.
   */
  function RoundEvents(prev: Tracked, rounds: seq<Snapshot>, removals: seq<seq<string>>): seq<Event>
    requires |removals| == |rounds|
    decreases |rounds|
  {
    if rounds == [] then []
    else
      var n := |rounds| - 1;
      var m := AfterRounds(prev, rounds[..n]);
      RoundEvents(prev, rounds[..n], removals[..n])
        + Scan(m, rounds[n].walk, rounds[n].present).changes + Deletions(removals[n])
  }

  /** The log of consecutive stretches of rounds is the concatenation of their logs. */
  lemma {:induction false} ErrorLogConcat(a: seq<Snapshot>, b: seq<Snapshot>)
    ensures ErrorLog(a + b) == ErrorLog(a) + ErrorLog(b)
    decreases |b|
  {
    if b == [] {
      assert a + b == a;
    } else {
      var n := |b| - 1;
      var c := a + b;
      var last := Logged(FirstError(b[n].walk));
      assert c[..|c| - 1] == a + b[..n] && c[|c| - 1] == b[n];
      calc {
        ErrorLog(c);
        ErrorLog(a + b[..n]) + last;
        { ErrorLogConcat(a, b[..n]); }
        (ErrorLog(a) + ErrorLog(b[..n])) + last;
        ErrorLog(a) + (ErrorLog(b[..n]) + last);
      }
    }
  }

  /** One round logs its walk's first error if the walk failed, and nothing otherwise. */
  lemma ErrorLogSingle(s: Snapshot)
    ensures ErrorLog([s]) == if FirstError(s.walk).Some? then [FirstError(s.walk).value] else []
  {
    assert [s][..0] == [];
  }

  /** Nothing is logged exactly when no round's walk failed. */
  lemma {:induction false} ErrorLogEmpty(rounds: seq<Snapshot>)
    ensures ErrorLog(rounds) == [] <==> forall r :: 0 <= r < |rounds| ==> FirstError(rounds[r].walk) == None
    decreases |rounds|
  {
    if rounds != [] {
      var n := |rounds| - 1;
      ErrorLogEmpty(rounds[..n]);
      assert forall r :: 0 <= r < n ==> rounds[..n][r] == rounds[r];
    }
  }

  /** The polling loop's invariant: rounds[..r] have been polled. */
  ghost predicate PolledUpTo(start: Tracked, rounds: seq<Snapshot>, r: nat, m: Tracked, log: seq<WalkError>,
                             removals: seq<seq<string>>, emitted: seq<Event>) {
    && r <= |rounds|
    && |removals| == r
    && m == AfterRounds(start, rounds[..r])
    && log == ErrorLog(rounds[..r])
    && RemovalsFit(start, rounds[..r], removals)
    && emitted == RoundEvents(start, rounds[..r], removals)
  }

  lemma PollBegins(start: Tracked, rounds: seq<Snapshot>)
    ensures PolledUpTo(start, rounds, 0, start, [], [], [])
  {
    assert rounds[..0] == [];
  }

  /**
   * Scanning round r, logging its error if it has one and broadcasting its
   * events moves the polling loop on by one round.
   */
  lemma PollStep(start: Tracked, rounds: seq<Snapshot>, r: nat, m: Tracked, log: seq<WalkError>,
                 removals: seq<seq<string>>, emitted: seq<Event>,
                 m': Tracked, err: Option<WalkError>, log': seq<WalkError>, removed: seq<string>)
    requires PolledUpTo(start, rounds, r, m, log, removals, emitted) && r < |rounds|
    requires m' == Scan(m, rounds[r].walk, rounds[r].present).tracked
    requires err == FirstError(rounds[r].walk)
    requires log' == if err.Some? then log + [err.value] else log
    requires Enumerates(removed, Scan(m, rounds[r].walk, rounds[r].present).removed)
    ensures PolledUpTo(start, rounds, r + 1, m', log', removals + [removed],
                       emitted + (Scan(m, rounds[r].walk, rounds[r].present).changes + Deletions(removed)))
  {
    AfterRoundsSnoc(start, rounds, r);
    ErrorLogSnoc(rounds, r);
    assert log' == log + Logged(err);
    RemovalsFitSnoc(start, rounds, r, removals, removed);
    RoundEventsSnoc(start, rounds, r, removals, removed);
  }

  lemma AfterRoundsSnoc(start: Tracked, rounds: seq<Snapshot>, r: nat)
    requires r < |rounds|
    ensures AfterRounds(start, rounds[..r + 1])
      == Scan(AfterRounds(start, rounds[..r]), rounds[r].walk, rounds[r].present).tracked
  {
    assert rounds[..r + 1][..r] == rounds[..r];
  }

  lemma ErrorLogSnoc(rounds: seq<Snapshot>, r: nat)
    requires r < |rounds|
    ensures ErrorLog(rounds[..r + 1]) == ErrorLog(rounds[..r]) + Logged(FirstError(rounds[r].walk))
  {
    assert rounds[..r + 1][..r] == rounds[..r];
  }

  lemma RemovalsFitSnoc(start: Tracked, rounds: seq<Snapshot>, r: nat, removals: seq<seq<string>>, removed: seq<string>)
    requires r < |rounds| && RemovalsFit(start, rounds[..r], removals)
    requires Enumerates(removed, Scan(AfterRounds(start, rounds[..r]), rounds[r].walk, rounds[r].present).removed)
    ensures RemovalsFit(start, rounds[..r + 1], removals + [removed])
  {
    assert rounds[..r + 1][..r] == rounds[..r];
    assert (removals + [removed])[..r] == removals;
  }

  lemma RoundEventsSnoc(start: Tracked, rounds: seq<Snapshot>, r: nat, removals: seq<seq<string>>, removed: seq<string>)
    requires r < |rounds| && |removals| == r
    ensures RoundEvents(start, rounds[..r + 1], removals + [removed])
      == RoundEvents(start, rounds[..r], removals)
         + (Scan(AfterRounds(start, rounds[..r]), rounds[r].walk, rounds[r].present).changes + Deletions(removed))
  {
    assert rounds[..r + 1][..r] == rounds[..r];
    assert (removals + [removed])[..r] == removals;
  }

  lemma PollEnds(start: Tracked, rounds: seq<Snapshot>, m: Tracked, log: seq<WalkError>,
                 removals: seq<seq<string>>, emitted: seq<Event>)
    requires PolledUpTo(start, rounds, |rounds|, m, log, removals, emitted)
    ensures m == AfterRounds(start, rounds) && log == ErrorLog(rounds)
    ensures RemovalsFit(start, rounds, removals)
    ensures |removals| == |rounds| && emitted == RoundEvents(start, rounds, removals)
  {
    assert rounds[..|rounds|] == rounds;
  }

  function Repeat(s: Snapshot, n: nat): (rs: seq<Snapshot>)
    ensures |rs| == n && forall i :: 0 <= i < n ==> rs[i] == s
  {
    seq(n, _ => s)
  }

  /**
   * Polling an unchanged tree: however many rounds run, the map stays what
   * the first round made it.
   */
  lemma {:induction false} UnchangedTreeSettles(prev: Tracked, s: Snapshot, n: nat)
    requires Agrees(s.walk, s.present)
    requires DistinctPaths(Processed(s.walk))
    requires n >= 1
    ensures AfterRounds(prev, Repeat(s, n)) == Scan(prev, s.walk, s.present).tracked
  {
    assert Repeat(s, n)[..n - 1] == Repeat(s, n - 1);
    if n > 1 {
      UnchangedTreeSettles(prev, s, n - 1);
      RescanIsQuiet(prev, s.walk, s.present);
    }
  }

  /** Once the map reflects an unchanged tree, further rounds keep it. */
  lemma {:induction false} SettledStays(m: Tracked, prev: Tracked, s: Snapshot, n: nat)
    requires Agrees(s.walk, s.present)
    requires DistinctPaths(Processed(s.walk))
    requires m == Scan(prev, s.walk, s.present).tracked
    ensures AfterRounds(m, Repeat(s, n)) == m
  {
    if n > 0 {
      assert Repeat(s, n)[..n - 1] == Repeat(s, n - 1);
      SettledStays(m, prev, s, n - 1);
      RescanIsQuiet(prev, s.walk, s.present);
    }
  }

  /**
   * Once an unchanged tree has been scanned, further rounds broadcast
   * nothing and log nothing, whatever order the deletion passes choose.
   */
  lemma {:induction false} SettledIsSilent(m: Tracked, prev: Tracked, s: Snapshot, n: nat, removals: seq<seq<string>>)
    requires Agrees(s.walk, s.present)
    requires DistinctPaths(Processed(s.walk))
    requires m == Scan(prev, s.walk, s.present).tracked
    requires RemovalsFit(m, Repeat(s, n), removals)
    ensures RoundEvents(m, Repeat(s, n), removals) == [] && ErrorLog(Repeat(s, n)) == []
  {
    if n > 0 {
      var rs := Repeat(s, n);
      assert rs[..n - 1] == Repeat(s, n - 1);
      SettledIsSilent(m, prev, s, n - 1, removals[..n - 1]);
      SettledStays(m, prev, s, n - 1);
      RescanIsQuiet(prev, s.walk, s.present);
      assert rs[n - 1] == s && AfterRounds(m, rs[..n - 1]) == m;
      EnumeratesNothing(removals[n - 1]);
      WalkStopsAtFirstFailure(s.walk);
    }
  }

  class Watcher {
    const dir: string
    var previous: Tracked
    var clients: seq<Client>
    /** Every message the watcher has broadcast, in order. */
    ghost var sent: seq<string>

    /**
     * Every connection registers its own, new channel, and a registered
     * channel has received exactly the messages broadcast since it joined.
     */
    ghost predicate Valid()
      reads this, clients
    {
      && Distinct(clients)
      && forall c :: c in clients ==> c.joined <= |sent| && c.outbox == sent[c.joined..]
    }

    /** NewWatcher: nothing tracked, nobody subscribed. */
    constructor (dir: string)
      ensures Valid()
      ensures this.dir == dir && previous == map[] && clients == [] && sent == []
    {
      this.dir := dir;
      previous := map[];
      clients := [];
      sent := [];
    }

    /** Sends the message on every registered channel, in registry order, and on nothing else. */
    method NotifyClients(message: string)
      requires Valid()
      modifies this`sent, clients
      ensures Valid() && sent == old(sent) + [message]
      ensures forall k :: 0 <= k < |clients| ==> clients[k].outbox == old(clients[k].outbox) + [message]
    {
      for i := 0 to |clients|
        invariant sent == old(sent)
        invariant forall k :: 0 <= k < i ==> clients[k].outbox == old(clients[k].outbox) + [message]
        invariant forall k :: i <= k < |clients| ==> clients[k].outbox == old(clients[k].outbox)
      {
        clients[i].outbox := clients[i].outbox + [message];
      }
      sent := sent + [message];
      forall c | c in clients ensures c.joined <= |sent| && c.outbox == sent[c.joined..] {
        var k :| 0 <= k < |clients| && clients[k] == c;
        assert old(c.joined <= |sent| && c.outbox == sent[c.joined..]);
        assert sent[c.joined..] == old(sent)[c.joined..] + [message];
      }
    }

    /**
     * One scan. The walk's entries are handled in order until the first
     * failure; then every tracked path os.Stat no longer finds is removed.
     * The removed paths are reported in the order the map was visited,
     * which the source leaves unspecified.
     */
    method CheckForChanges(walk: seq<Visit>, present: set<string>)
      returns (err: Option<WalkError>, ghost removed: seq<string>)
      requires Valid()
      modifies this`previous, this`sent, clients
      ensures Valid()
      ensures var o := Scan(old(previous), walk, present);
        && previous == o.tracked
        && err == o.error
        && Enumerates(removed, o.removed)
        && sent == old(sent) + Messages(o.changes + Deletions(removed))
        && forall k :: 0 <= k < |clients| ==>
             clients[k].outbox == old(clients[k].outbox) + Messages(o.changes + Deletions(removed))
    {
      ghost var emitted;
      err, emitted := VisitAll(walk);
      ghost var walked := previous;
      removed := RemoveVanished(present);
      assert Scan(old(previous), walk, present) == Outcome(previous, emitted, walked.Keys - present, err);
      MessagesConcat(emitted, Deletions(removed));
      assert sent[|old(sent)|..] == Messages(emitted + Deletions(removed));
      FanOut();
    }

    /** The walk callback applied to every entry up to the first failure. */
    method VisitAll(walk: seq<Visit>) returns (err: Option<WalkError>, ghost emitted: seq<Event>)
      requires Valid()
      modifies this`previous, this`sent, clients
      ensures Valid()
      ensures previous == WalkMap(old(previous), Processed(walk))
      ensures err == FirstError(walk)
      ensures emitted == WalkEvents(old(previous), Processed(walk))
      ensures sent == old(sent) + Messages(emitted)
    {
      emitted := [];
      var i := 0;
      WalkBegins(previous, walk);
      while i < |walk| && walk[i].Found?
        invariant Valid()
        invariant WalkedUpTo(old(previous), walk, i, previous, emitted)
        invariant sent == old(sent) + Messages(emitted)
      {
        WalkStep(old(previous), walk, i, previous, emitted);
        ghost var evs := HandleEntry(walk[i].entry);
        MessagesConcat(emitted, evs);
        emitted := emitted + evs;
        i := i + 1;
      }
      WalkEnds(old(previous), walk, i, previous, emitted);
      // The callback returns the error it is handed, which stops the walk.
      if i < |walk| {
        err := Some(walk[i].error);
      } else {
        err := None;
      }
    }

    /** The walk callback for one entry it is handed without an error. */
    method HandleEntry(entry: Entry) returns (ghost evs: seq<Event>)
      requires Valid()
      modifies this`previous, this`sent, clients
      ensures Valid()
      ensures previous == Track(old(previous), entry)
      ensures evs == Observe(old(previous), entry)
      ensures sent == old(sent) + Messages(evs)
    {
      evs := [];
      if !entry.isDir {
        if entry.path !in previous {
          NotifyClients(Message(Created(entry.path)));
          evs := [Created(entry.path)];
        } else if entry.modTime > previous[entry.path] {
          NotifyClients(Message(Modified(entry.path)));
          evs := [Modified(entry.path)];
        }
        previous := previous[entry.path := entry.modTime];
      }
    }

    /** The deletion pass: every tracked path os.Stat no longer finds is reported and dropped. */
    method RemoveVanished(present: set<string>) returns (ghost removed: seq<string>)
      requires Valid()
      modifies this`previous, this`sent, clients
      ensures Valid()
      ensures previous == Prune(old(previous), present)
      ensures Enumerates(removed, old(previous).Keys - present)
      ensures sent == old(sent) + Messages(Deletions(removed))
    {
      var keys := previous.Keys;
      removed := [];
      PruneBegins(previous, present);
      while keys != {}
        invariant Valid()
        invariant PrunedUpTo(old(previous), present, keys, previous, removed)
        invariant sent == old(sent) + Messages(Deletions(removed))
        decreases keys
      {
        var p :| p in keys;
        ghost var before, gone := previous, removed;
        if p !in present {
          NotifyClients(Message(Deleted(p)));
          MessagesConcat(Deletions(removed), [Deleted(p)]);
          assert Deletions(removed + [p]) == Deletions(removed) + [Deleted(p)];
          previous := previous - {p};
          removed := removed + [p];
        }
        PruneStep(old(previous), present, keys, before, gone, p, previous, removed);
        keys := keys - {p};
      }
      PruneEnds(old(previous), present, previous, removed);
    }

    /**
     * StartWatching, for a finite number of rounds; a failed round is logged
     * and polling goes on. removals records the order each round's deletion
     * pass chose.
     */
    method StartWatching(rounds: seq<Snapshot>)
      returns (log: seq<WalkError>, ghost removals: seq<seq<string>>, ghost emitted: seq<Event>)
      requires Valid()
      modifies this`previous, this`sent, clients
      ensures Valid()
      ensures previous == AfterRounds(old(previous), rounds)
      ensures log == ErrorLog(rounds)
      ensures |removals| == |rounds| && RemovalsFit(old(previous), rounds, removals)
      ensures emitted == RoundEvents(old(previous), rounds, removals)
      ensures sent == old(sent) + Messages(emitted)
      ensures forall k :: 0 <= k < |clients| ==> clients[k].outbox == old(clients[k].outbox) + Messages(emitted)
    {
      log, removals, emitted := [], [], [];
      PollBegins(previous, rounds);
      for r := 0 to |rounds|
        invariant Valid()
        invariant PolledUpTo(old(previous), rounds, r, previous, log, removals, emitted)
        invariant sent == old(sent) + Messages(emitted)
      {
        ghost var before, logged, sentSoFar := previous, log, sent;
        var err, removed := CheckForChanges(rounds[r].walk, rounds[r].present);
        if err.Some? {
          log := log + [err.value];
        }
        ghost var more := Scan(before, rounds[r].walk, rounds[r].present).changes + Deletions(removed);
        PollStep(old(previous), rounds, r, before, logged, removals, emitted, previous, err, log, removed);
        MessagesExtend(old(sent), sentSoFar, emitted, more, sent);
        emitted := emitted + more;
        removals := removals + [removed];
      }
      PollEnds(old(previous), rounds, previous, log, removals, emitted);
      assert sent[|old(sent)|..] == Messages(emitted);
      FanOut();
    }

    /**
     * Fan-out is exact: between two valid states with the same registry,
     * every registered channel has received exactly the messages broadcast
     * in between, in order, and so all of them received the same stream.
     */
    twostate lemma FanOut()
      requires old(Valid()) && Valid()
      requires clients == old(clients) && old(sent) <= sent
      ensures forall k :: 0 <= k < |clients| ==> clients[k].outbox == old(clients[k].outbox) + sent[|old(sent)|..]
    {
      forall k | 0 <= k < |clients| ensures clients[k].outbox == old(clients[k].outbox) + sent[|old(sent)|..] {
        var c := clients[k];
        assert c in clients;
        assert old(c.joined <= |sent| && c.outbox == sent[c.joined..]);
        assert sent[c.joined..] == old(sent)[c.joined..] + sent[|old(sent)|..];
      }
    }

    /** Registers a new channel at the end of the registry (HandleSSEConnection). */
    method Subscribe() returns (c: Client)
      requires Valid()
      modifies this`clients
      ensures Valid() && fresh(c) && c.outbox == []
      ensures clients == old(clients) + [c]
    {
      c := new Client(|sent|);
      clients := clients + [c];
    }

    /** The position of the first registered channel equal to c. */
    method FindClient(c: Client) returns (found: bool, i: nat)
      ensures found ==> FirstAt(clients, c, i)
      ensures !found ==> c !in clients
    {
      found, i := false, 0;
      while i < |clients|
        invariant i <= |clients|
        invariant c !in clients[..i]
      {
        if clients[i] == c {
          return true, i;
        }
        i := i + 1;
      }
      assert clients[..i] == clients;
    }

    /**
     * The removal the deferred cleanup of HandleSSEConnection performs, keeping
     * the order of the others. In the source the cleanup runs only when the
     * handler returns, i.e. after its range loop over the channel ends, and only
     * the cleanup closes the channel; the model does not say when it is called.
     */
    method Unsubscribe(c: Client)
      requires Valid()
      modifies this`clients
      ensures Valid() && clients == RemoveFirst(old(clients), c)
    {
      var found, i := FindClient(c);
      if found {
        ghost var before := clients;
        RemoveFirstIsSplice(before, c, i);
        SpliceKeepsDistinct(before, i);
        clients := clients[..i] + clients[i + 1..];
        forall x | x in clients ensures x in before {
          var k :| 0 <= k < |clients| && clients[k] == x;
          assert k < i ==> before[k] == x;
          assert k >= i ==> before[k + 1] == x;
        }
      }
    }
  }
}
