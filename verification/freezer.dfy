/** The freezer of main.swift: it reads the blacklist into a table from
    identifier to delay, then watches applications being activated and
    deactivated; a deactivated application whose bundle identifier is in the
    table is sent SIGSTOP after its delay, and an activated one is sent SIGCONT
    at once, cancelling the SIGSTOP still pending for it. */
module Freezer {
  import opened Records
  import TypedCodec
  import GlobCodec

  // ---------------------------------------------------------------------------
  // The delay table (main.swift:9-21)

  /** What one blacklist record does to the table: `Crash` stands for a failing
      `as! String` cast, which ends the program. */
  datatype Step = Crash | Skip | Put(key: string, delay: nat)

  /** One iteration of the configuration loop. */
  function StepOf(rec: Record): Step {
    match StringField(rec, "type")
    case None => Crash
    case Some(kind) =>
      if kind == "bundleID" then
        match StringField(rec, "identifier")
        case None => Crash
        case Some(id) => Put(id, DelayField(rec))
      else if kind == "glob" then
        match StringField(rec, "pattern")
        case None => Crash
        case Some(pattern) => Put(pattern, DelayField(rec))
      else Skip
  }

  /** The table after the loop has run over `list`, or None if it crashed. */
  function Delays(list: seq<Record>): Option<map<string, nat>>
    decreases |list|
  {
    if list == [] then Some(map[])
    else
      match Delays(list[..|list| - 1])
      case None => None
      case Some(d) =>
        match StepOf(list[|list| - 1])
        case Crash => None
        case Skip => Some(d)
        case Put(k, v) => Some(d[k := v])
  }

  ghost predicate PutsKey(list: seq<Record>, i: int, k: string)
    requires 0 <= i < |list|
  {
    StepOf(list[i]).Put? && StepOf(list[i]).key == k
  }

  /** The loop of main.swift:10-21. */
  method LoadDelays(list: seq<Record>) returns (r: Option<map<string, nat>>)
    ensures r == Delays(list)
  {
    var delays: map<string, nat> := map[];
    var i := 0;
    while i < |list|
      invariant 0 <= i <= |list|
      invariant Delays(list[..i]) == Some(delays)
    {
      var e := list[i];
      assert list[..i + 1][..i] == list[..i];
      var kind := StringField(e, "type");
      if kind.None? {
        CrashIsFinal(list, i + 1);
        return None;
      }
      var delay := DelayField(e);
      if kind.value == "bundleID" {
        var id := StringField(e, "identifier");
        if id.None? {
          CrashIsFinal(list, i + 1);
          return None;
        }
        delays := delays[id.value := delay];
      } else if kind.value == "glob" {
        var pattern := StringField(e, "pattern");
        if pattern.None? {
          CrashIsFinal(list, i + 1);
          return None;
        }
        delays := delays[pattern.value := delay];
      }
      i := i + 1;
    }
    assert list[..i] == list;
    r := Some(delays);
  }

  /** Once the loop has crashed, the rest of the list does not matter. */
  lemma {:induction false} CrashIsFinal(list: seq<Record>, n: nat)
    requires n <= |list|
    requires Delays(list[..n]).None?
    ensures Delays(list).None?
    decreases |list| - n
  {
    if n < |list| {
      assert list[..n + 1][..n] == list[..n];
      CrashIsFinal(list, n + 1);
    } else {
      assert list[..n] == list;
    }
  }

  /** Loading fails exactly when some record has no string "type", or is a
      "bundleID" record without a string "identifier", or a "glob" record
      without a string "pattern". */
  lemma {:induction false} DelaysCrash(list: seq<Record>)
    ensures Delays(list).None? <==> exists i | 0 <= i < |list| :: StepOf(list[i]).Crash?
    decreases |list|
  {
    if list != [] {
      var init := list[..|list| - 1];
      DelaysCrash(init);
      if Delays(init).None? {
        var i :| 0 <= i < |init| && StepOf(init[i]).Crash?;
        assert list[i] == init[i];
      }
      if exists i | 0 <= i < |list| :: StepOf(list[i]).Crash? {
        var i :| 0 <= i < |list| && StepOf(list[i]).Crash?;
        if i < |init| {
          assert init[i] == list[i];
        }
      }
    }
  }

  /** A loaded table has a key exactly when some record puts it (a "bundleID"
      record its "identifier", a "glob" record its "pattern"; records of any
      other type put nothing), and the key's delay is that of the LAST record
      that puts it: later records overwrite earlier ones. */
  lemma {:induction false} DelaysLookup(list: seq<Record>, d: map<string, nat>, k: string)
    requires Delays(list) == Some(d)
    ensures k in d <==> exists i | 0 <= i < |list| :: PutsKey(list, i, k)
    ensures forall i | 0 <= i < |list| && PutsKey(list, i, k) &&
                       (forall j | i < j < |list| :: !PutsKey(list, j, k)) ::
              k in d && d[k] == StepOf(list[i]).delay
    decreases |list|
  {
    if list != [] {
      var init := list[..|list| - 1];
      var n := |list| - 1;
      var d' := Delays(init).value;
      DelaysLookup(init, d', k);
      forall i | 0 <= i < n
        ensures PutsKey(list, i, k) == PutsKey(init, i, k)
      {
        assert list[i] == init[i];
      }
      if PutsKey(list, n, k) {
        assert d == d'[k := StepOf(list[n]).delay];
      } else {
        match StepOf(list[n])
        case Skip => assert d == d';
        case Put(k', v) => assert k' != k && d == d'[k' := v];
      }
    }
  }

  /** One more record after a table that loaded: the loop's last iteration. */
  lemma DelaysSnoc(list: seq<Record>, rec: Record, d: map<string, nat>)
    requires Delays(list) == Some(d)
    ensures StepOf(rec).Put? ==> Delays(list + [rec]) == Some(d[StepOf(rec).key := StepOf(rec).delay])
    ensures StepOf(rec).Skip? ==> Delays(list + [rec]) == Some(d)
  {
    assert (list + [rec])[..|list|] == list;
  }

  /** A record written by a typed settings editor never crashes the loop. */
  lemma TypedRecordLoads(e: Entry)
    ensures !StepOf(TypedCodec.RecordOfEntry(e)).Crash?
  {
    var rec := TypedCodec.RecordOfEntry(e);
    assert StringField(rec, "type") == Some(e.kind);
    assert StringField(rec, TypedCodec.IdentifierKey(e.kind)) == Some(e.identifier);
  }

  /** A blacklist written by a typed settings editor always loads: each record
      has a string "type", and the identifier key that type demands. */
  lemma {:induction false} TypedSaveLoads(entries: seq<Entry>)
    ensures Delays(TypedCodec.Save(entries)).Some?
    decreases |entries|
  {
    if entries != [] {
      var init := entries[..|entries| - 1];
      var last := entries[|entries| - 1];
      TypedSaveLoads(init);
      if last.identifier != "" {
        var rec := TypedCodec.RecordOfEntry(last);
        TypedRecordLoads(last);
        assert TypedCodec.Save(entries) == TypedCodec.Save(init) + [rec];
        DelaysSnoc(TypedCodec.Save(init), rec, Delays(TypedCodec.Save(init)).value);
      } else {
        assert TypedCodec.Save(entries) == TypedCodec.Save(init);
      }
    }
  }

  /** A blacklist written by the glob-only preferences editor always loads. */
  lemma {:induction false} GlobSaveLoads(entries: seq<Entry>)
    ensures Delays(GlobCodec.Save(entries)).Some?
    decreases |entries|
  {
    if entries != [] {
      var init := entries[..|entries| - 1];
      var last := entries[|entries| - 1];
      GlobSaveLoads(init);
      if last.identifier != "" {
        var rec := GlobCodec.RecordOfEntry(last);
        assert StringField(rec, "type") == Some("glob");
        assert StringField(rec, "pattern") == Some(last.identifier);
        assert GlobCodec.Save(entries) == GlobCodec.Save(init) + [rec];
        DelaysSnoc(GlobCodec.Save(init), rec, Delays(GlobCodec.Save(init)).value);
      } else {
        assert GlobCodec.Save(entries) == GlobCodec.Save(init);
      }
    }
  }

  // ---------------------------------------------------------------------------
  // The scheduler (main.swift:23-58)

  /** A signal sent with `kill`. */
  datatype Signal = Stop(pid: int) | Cont(pid: int)

  /** A DispatchWorkItem created by a deactivation: it sends SIGSTOP to `pid`
      once `delay` seconds have passed, unless it was cancelled first. */
  datatype WorkItem = WorkItem(pid: int, delay: nat)

  /** The global state of main.swift once the configuration is loaded. Work
      items are named by their position in `items`, the list of every item ever
      created; `cancelled` holds those whose `cancel()` was called and
      `executed` those whose block has run. */
  class Scheduler {
    const delays: map<string, nat>
    var pendingTimers: map<int, nat>
    var items: seq<WorkItem>
    var cancelled: set<nat>
    var executed: set<nat>
    var signals: seq<Signal>

    /** A pid's pending entry names a live item created for that pid: it
        exists, it is not cancelled and it has not run. No item is both
        cancelled and run. */
    ghost predicate Valid()
      reads this
    {
      && (forall p | p in pendingTimers ::
            && pendingTimers[p] < |items|
            && items[pendingTimers[p]].pid == p
            && pendingTimers[p] !in cancelled
            && pendingTimers[p] !in executed)
      && (forall id | id in cancelled :: id < |items|)
      && (forall id | id in executed :: id < |items|)
      && cancelled !! executed
    }

    /** The property the activation observer relies on: every item still
        live (neither cancelled nor run) is the one pending for its pid, so
        cancelling a pid's pending item leaves none live for that pid. */
    ghost predicate NoStrayItems()
      reads this
    {
      forall id | 0 <= id < |items| && id !in cancelled && id !in executed ::
        items[id].pid in pendingTimers && pendingTimers[items[id].pid] == id
    }

    constructor (delays: map<string, nat>)
      ensures Valid() && NoStrayItems()
      ensures this.delays == delays
      ensures pendingTimers == map[] && items == [] && signals == []
      ensures cancelled == {} && executed == {}
    {
      this.delays := delays;
      pendingTimers := map[];
      items := [];
      cancelled := {};
      executed := {};
      signals := [];
    }

    /** The activation observer (main.swift:32-39): cancel and forget the item
        pending for `pid`, then send SIGCONT, whether or not anything was pending. */
    method Activate(pid: int)
      requires Valid()
      modifies this
      ensures Valid()
      ensures pendingTimers == old(pendingTimers) - {pid}
      ensures cancelled == old(cancelled) + (if pid in old(pendingTimers) then {old(pendingTimers)[pid]} else {})
      ensures pid in old(pendingTimers) ==> old(pendingTimers)[pid] !in executed
      ensures items == old(items) && executed == old(executed)
      ensures signals == old(signals) + [Cont(pid)]
      ensures old(NoStrayItems()) ==> NoStrayItems()
      ensures old(NoStrayItems()) ==>
                forall id | 0 <= id < |items| && items[id].pid == pid :: id in cancelled || id in executed
    {
      if pid in pendingTimers {
        cancelled := cancelled + {pendingTimers[pid]};
      }
      pendingTimers := pendingTimers - {pid};
      signals := signals + [Cont(pid)];
    }

    /** The deactivation observer (main.swift:44-57). `bundleId` is the
        application's bundle identifier, None when it has none. Without a match
        in `delays` nothing happens; with one, a new item is created and stored
        for `pid`, and the item stored before it, if any, is overwritten
        without being cancelled. */
    method Deactivate(pid: int, bundleId: Option<string>)
      requires Valid()
      modifies this
      ensures Valid()
      ensures cancelled == old(cancelled) && executed == old(executed) && signals == old(signals)
      ensures bundleId.None? || bundleId.value !in delays ==>
                pendingTimers == old(pendingTimers) && items == old(items)
      ensures bundleId.Some? && bundleId.value in delays ==>
                && items == old(items) + [WorkItem(pid, delays[bundleId.value])]
                && pendingTimers == old(pendingTimers)[pid := |old(items)|]
    {
      if bundleId.None? || bundleId.value !in delays {
        return;
      }
      var delay := delays[bundleId.value];
      var work := |items|;
      items := items + [WorkItem(pid, delay)];
      pendingTimers := pendingTimers[pid := work];
    }

    /** The deactivation observer with the replaced item cancelled before the
        new one is stored, as the activation observer does. This keeps
        `NoStrayItems`, which `Deactivate` does not. */
    method DeactivateCancellingPrevious(pid: int, bundleId: Option<string>)
      requires Valid()
      modifies this
      ensures Valid()
      ensures executed == old(executed) && signals == old(signals)
      ensures bundleId.None? || bundleId.value !in delays ==>
                pendingTimers == old(pendingTimers) && items == old(items) && cancelled == old(cancelled)
      ensures bundleId.Some? && bundleId.value in delays ==>
                && items == old(items) + [WorkItem(pid, delays[bundleId.value])]
                && pendingTimers == old(pendingTimers)[pid := |old(items)|]
                && cancelled == old(cancelled) + (if pid in old(pendingTimers) then {old(pendingTimers)[pid]} else {})
      ensures old(NoStrayItems()) ==> NoStrayItems()
    {
      if bundleId.None? || bundleId.value !in delays {
        return;
      }
      if pid in pendingTimers {
        cancelled := cancelled + {pendingTimers[pid]};
      }
      var delay := delays[bundleId.value];
      var work := |items|;
      items := items + [WorkItem(pid, delay)];
      pendingTimers := pendingTimers[pid := work];
    }

    /** The dispatch queue reaching the deadline of item `id` (main.swift:52-57).
        A cancelled item's block is skipped, and no block runs twice; otherwise
        the block sends SIGSTOP to its pid and removes that pid's entry, whatever
        item the entry holds by now. */
    method Fire(id: nat)
      requires Valid()
      modifies this
      ensures Valid()
      ensures items == old(items) && cancelled == old(cancelled)
      ensures id < |items| && id !in old(cancelled) && id !in old(executed) ==>
                && signals == old(signals) + [Stop(items[id].pid)]
                && pendingTimers == old(pendingTimers) - {items[id].pid}
                && executed == old(executed) + {id}
      ensures !(id < |items| && id !in old(cancelled) && id !in old(executed)) ==>
                && signals == old(signals)
                && pendingTimers == old(pendingTimers)
                && executed == old(executed)
      ensures old(NoStrayItems()) ==> NoStrayItems()
    {
      if id < |items| && id !in cancelled && id !in executed {
        var pid := items[id].pid;
        signals := signals + [Stop(pid)];
        pendingTimers := pendingTimers - {pid};
        executed := executed + {id};
      }
    }
  }

  /** An application deactivated and re-activated before its delay is never
      stopped by the item the deactivation created. */
  method CancelBeforeFire(delays: map<string, nat>, bid: string, pid: int) returns (signals: seq<Signal>)
    requires bid in delays
    ensures signals == [Cont(pid)]
  {
    var s := new Scheduler(delays);
    s.Deactivate(pid, Some(bid));
    var work := |s.items| - 1;
    s.Activate(pid);
    s.Fire(work);
    signals := s.signals;
  }

  /** Because a replaced item is not cancelled, two deactivations in a row leave
      the first item armed: when it fires it also drops the second item's entry,
      so the activation that follows cannot cancel the second item, which then
      stops the application while it is in front. */
  method ReplacedItemOutlivesActivation(delays: map<string, nat>, bid: string, pid: int) returns (signals: seq<Signal>)
    requires bid in delays
    ensures signals == [Stop(pid), Cont(pid), Stop(pid)]
  {
    var s := new Scheduler(delays);
    s.Deactivate(pid, Some(bid));
    s.Deactivate(pid, Some(bid));
    s.Fire(0);
    s.Activate(pid);
    s.Fire(1);
    signals := s.signals;
  }

  /** The same events with the replaced item cancelled: the application is
      only resumed. */
  method ReplacedItemCancelled(delays: map<string, nat>, bid: string, pid: int) returns (signals: seq<Signal>)
    requires bid in delays
    ensures signals == [Cont(pid)]
  {
    var s := new Scheduler(delays);
    s.DeactivateCancellingPrevious(pid, Some(bid));
    s.DeactivateCancellingPrevious(pid, Some(bid));
    s.Fire(0);
    s.Activate(pid);
    s.Fire(1);
    signals := s.signals;
  }
}
