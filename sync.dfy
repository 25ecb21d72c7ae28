/** The reconciliation run as pure functions: for each configured group, scan
    the list directory, and for every list named `prefix + group` read its
    items, build the payload, optionally persist it and write it. The result
    is the trace of calls the run makes. */
module Sync {
  import opened Types
  import opened Resolver
  import opened Diff

  /** What one group's scan needs besides the remote lists: the list name to
      match, the object name to persist under, whether to persist, and the
      desired entries. */
  datatype Target = Target(listName: string, objectName: string, persist: bool, append: seq<ListEntry>)

  /** The calls made so far, and whether a failed read ended the run. */
  datatype Run = Run(events: seq<Event>, aborted: bool)

  function Prepend(events: seq<Event>, r: Run): Run {
    Run(events + r.events, r.aborted)
  }

  /** `a` ends `b`. */
  predicate IsSuffix(a: seq<string>, b: seq<string>) {
    |a| <= |b| && b[|b| - |a|..] == a
  }

  /** A read that ended the run: an item read of a list the store cannot read. */
  predicate FailedRead(e: Event, items: ItemStore) {
    e.ReadItems? && e.listId !in items
  }

  /** Persisting happens when the store switch is truthy or the run is the
      scheduled one. */
  predicate PersistEnabled(cfg: Config, inv: Invocation) {
    cfg.storeR2 || inv == Scheduled
  }

  function TargetFor(cfg: Config, inv: Invocation, group: string, ds: seq<Device>, ms: seq<GroupMembership>): Target {
    Target(cfg.prefix + group, cfg.prefix + group + ".json", PersistEnabled(cfg, inv), Resolve(ds, ms, group))
  }

  /** The calls for one payload: the optional persist, then the write. */
  function Submit(id: string, p: Payload, t: Target): seq<Event> {
    (if t.persist then [Persist(t.objectName, p)] else []) + [Write(id, p)]
  }

  /** One group's scan of the directory, `remove` holding the values collected
      from the matching lists before these. */
  function ScanLists(lists: seq<RemoteList>, items: ItemStore, t: Target, remove: seq<string>): (r: Run)
    ensures r.aborted ==> r.events != [] && FailedRead(r.events[|r.events| - 1], items)
    decreases |lists|
  {
    if lists == [] then Run([], false)
    else if lists[0].name != t.listName then ScanLists(lists[1..], items, t, remove)
    else if lists[0].id !in items then Run([ReadItems(lists[0].id)], true)
    else
      var removed := remove + RemoveValues(items[lists[0].id]);
      Prepend([ReadItems(lists[0].id)] + Submit(lists[0].id, Payload(removed, t.append), t),
              ScanLists(lists[1..], items, t, removed))
  }

  /** The groups in configured order, each with a fresh payload; a failed read
      ends the run. */
  function RunGroups(groups: seq<string>, ds: seq<Device>, ms: seq<GroupMembership>,
                     lists: seq<RemoteList>, items: ItemStore, cfg: Config, inv: Invocation): (r: Run)
    ensures r.aborted ==> r.events != [] && FailedRead(r.events[|r.events| - 1], items)
    decreases |groups|
  {
    if groups == [] then Run([], false)
    else
      var here := ScanLists(lists, items, TargetFor(cfg, inv, groups[0], ds, ms), []);
      if here.aborted then here
      else Prepend(here.events, RunGroups(groups[1..], ds, ms, lists, items, cfg, inv))
  }

  function Reply(inv: Invocation): Option<string> {
    if inv == OnDemand then Some(UpdatedMessage) else None
  }

  /** A whole invocation. */
  function Handle(inv: Invocation, cfg: Config, stores: Stores): Outcome {
    if stores.devicesObject.None? || stores.groupsObject.None? then
      DatasetMissing(NotFoundStatus, NotFoundError)
    else if stores.directory.None? then
      Aborted([ReadDirectory])
    else
      var r := RunGroups(cfg.groups, stores.devicesObject.value, stores.groupsObject.value,
                         stores.directory.value, stores.items, cfg, inv);
      if r.aborted then Aborted([ReadDirectory] + r.events)
      else Finished([ReadDirectory] + r.events, Reply(inv))
  }

  // ---------------------------------------------------------------------
  // Reference definition of one group's calls, without the accumulator.

  /** Some list carrying `listName` cannot be read. */
  predicate Unreadable(lists: seq<RemoteList>, items: ItemStore, listName: string) {
    exists k :: 0 <= k < |lists| && lists[k].name == listName && lists[k].id !in items
  }

  /** The values of every matching, readable list of `lists`, in directory order. */
  function Accumulated(lists: seq<RemoteList>, items: ItemStore, listName: string): seq<string> {
    if lists == [] then []
    else
      var l := lists[|lists| - 1];
      Accumulated(lists[..|lists| - 1], items, listName)
        + (if l.name == listName && l.id in items then RemoveValues(items[l.id]) else [])
  }

  /** The calls of one group: for the matching list at position k, a read and
      a payload whose remove half holds the values of the matching lists at
      positions up to k. */
  function Closed(lists: seq<RemoteList>, items: ItemStore, t: Target): seq<Event> {
    if lists == [] then []
    else
      var l := lists[|lists| - 1];
      Closed(lists[..|lists| - 1], items, t)
        + (if l.name == t.listName
           then [ReadItems(l.id)] + Submit(l.id, Payload(Accumulated(lists, items, t.listName), t.append), t)
           else [])
  }

  /** Every list of the group can be read. */
  predicate Readable(lists: seq<RemoteList>, items: ItemStore, listName: string) {
    !Unreadable(lists, items, listName)
  }

  lemma PrefixStep(lists: seq<RemoteList>, items: ItemStore, t: Target, i: nat)
    requires i < |lists|
    ensures var l := lists[i];
            && Accumulated(lists[..i + 1], items, t.listName)
               == Accumulated(lists[..i], items, t.listName)
                  + (if l.name == t.listName && l.id in items then RemoveValues(items[l.id]) else [])
            && Closed(lists[..i + 1], items, t)
               == Closed(lists[..i], items, t)
                  + (if l.name == t.listName
                     then [ReadItems(l.id)] + Submit(l.id, Payload(Accumulated(lists[..i + 1], items, t.listName), t.append), t)
                     else [])
  {
    assert lists[..i + 1][..i] == lists[..i];
    assert lists[..i + 1][i] == lists[i];
  }

  /** The state of a group's scan after the reference calls of `lists[..i]`. */
  function ScanAfter(lists: seq<RemoteList>, items: ItemStore, t: Target, i: nat): Run
    requires i <= |lists|
  {
    Prepend(Closed(lists[..i], items, t), ScanLists(lists[i..], items, t, Accumulated(lists[..i], items, t.listName)))
  }

  /** One list further: when the list at `i` is not an unreadable one of the
      group, the scan's state moves to position `i + 1` unchanged. */
  lemma ScanAfterStep(lists: seq<RemoteList>, items: ItemStore, t: Target, i: nat)
    requires i < |lists| && (lists[i].name == t.listName ==> lists[i].id in items)
    ensures ScanAfter(lists, items, t, i) == ScanAfter(lists, items, t, i + 1)
  {
    var l := lists[i];
    var acc := Accumulated(lists[..i], items, t.listName);
    var done := Closed(lists[..i], items, t);
    assert lists[i..][0] == l;
    assert lists[i..][1..] == lists[i + 1..];
    PrefixStep(lists, items, t, i);
    if l.name == t.listName {
      var removed := acc + RemoveValues(items[l.id]);
      var step := [ReadItems(l.id)] + Submit(l.id, Payload(removed, t.append), t);
      var rest := ScanLists(lists[i + 1..], items, t, removed);
      assert Accumulated(lists[..i + 1], items, t.listName) == removed;
      assert Closed(lists[..i + 1], items, t) == done + step;
      assert ScanLists(lists[i..], items, t, acc) == Prepend(step, rest);
      assert done + (step + rest.events) == (done + step) + rest.events;
    } else {
      assert Accumulated(lists[..i + 1], items, t.listName) == acc;
      assert Closed(lists[..i + 1], items, t) == done;
    }
  }

  /** Scanning from position `i` after the reference calls of `lists[..i]` is
      scanning from position `k` after those of `lists[..k]`, when the
      matching lists in between can be read. */
  lemma {:induction false} ScanBetween(lists: seq<RemoteList>, items: ItemStore, t: Target, i: nat, k: nat)
    requires i <= k <= |lists| && Readable(lists[..k], items, t.listName)
    ensures ScanAfter(lists, items, t, i) == ScanAfter(lists, items, t, k)
    decreases k - i
  {
    if i < k {
      assert lists[..k][i] == lists[i];
      ScanAfterStep(lists, items, t, i);
      ScanBetween(lists, items, t, i + 1, k);
    }
  }

  /** The state before any list is the scan itself. */
  lemma ScanAfterStart(lists: seq<RemoteList>, items: ItemStore, t: Target)
    ensures ScanAfter(lists, items, t, 0) == ScanLists(lists, items, t, [])
  {
    assert lists[..0] == [];
    assert lists[0..] == lists;
    assert [] + ScanLists(lists, items, t, []).events == ScanLists(lists, items, t, []).events;
  }

  /** The remove half keeps accumulating within a group: when several lists
      carry the group's name, each payload also holds the values of the
      matching lists before it. When every read succeeds, the group's calls
      are the reference ones and the run goes on. */
  lemma ScanAccumulates(lists: seq<RemoteList>, items: ItemStore, t: Target)
    requires Readable(lists, items, t.listName)
    ensures ScanLists(lists, items, t, []) == Run(Closed(lists, items, t), false)
  {
    assert lists[..|lists|] == lists;
    ScanBetween(lists, items, t, 0, |lists|);
    ScanAfterStart(lists, items, t);
    assert lists[|lists|..] == [];
    assert Closed(lists, items, t) + [] == Closed(lists, items, t);
  }

  /** A failed read ends the group: when the first unreadable list of the
      group's name sits at position `k`, the group makes the reference calls
      for the lists before it, then the failed read, and the run stops. */
  lemma ScanAbortsAtFirstUnreadable(lists: seq<RemoteList>, items: ItemStore, t: Target, k: nat)
    requires k < |lists| && lists[k].name == t.listName && lists[k].id !in items
    requires Readable(lists[..k], items, t.listName)
    ensures ScanLists(lists, items, t, []) == Run(Closed(lists[..k], items, t) + [ReadItems(lists[k].id)], true)
  {
    ScanBetween(lists, items, t, 0, k);
    ScanAfterStart(lists, items, t);
    assert lists[k..][0] == lists[k];
  }

  /** A group's scan ends the run exactly when some list of its name cannot
      be read. */
  lemma {:induction false} ScanAbortedIff(lists: seq<RemoteList>, items: ItemStore, t: Target, remove: seq<string>)
    ensures ScanLists(lists, items, t, remove).aborted <==> Unreadable(lists, items, t.listName)
    decreases |lists|
  {
    if lists != [] {
      var l := lists[0];
      var removed := if l.name == t.listName && l.id in items then remove + RemoveValues(items[l.id]) else remove;
      ScanAbortedIff(lists[1..], items, t, removed);
      if Unreadable(lists[1..], items, t.listName) {
        var k :| 0 <= k < |lists[1..]| && lists[1..][k].name == t.listName && lists[1..][k].id !in items;
        assert lists[k + 1] == lists[1..][k];
      }
      if Unreadable(lists, items, t.listName) && !(l.name == t.listName && l.id !in items) {
        var k :| 0 <= k < |lists| && lists[k].name == t.listName && lists[k].id !in items;
        assert k != 0;
        assert lists[1..][k - 1] == lists[k];
      }
    }
  }

  /** A group makes no call and raises no error exactly when no list carries
      its name. */
  lemma {:induction false} ScanSilentIffNoMatch(lists: seq<RemoteList>, items: ItemStore, t: Target, remove: seq<string>)
    ensures ScanLists(lists, items, t, remove) == Run([], false) <==>
              forall k :: 0 <= k < |lists| ==> lists[k].name != t.listName
    decreases |lists|
  {
    if lists != [] {
      ScanSilentIffNoMatch(lists[1..], items, t, remove);
      if lists[0].name != t.listName {
        forall k | 1 <= k < |lists| ensures lists[k] == lists[1..][k - 1] { }
      }
    }
  }

  /** With exactly one list of the group's name, the group reads it and sends
      one payload: append is the whole desired set and remove every value the
      list holds now, overlap or not. */
  lemma {:induction false} SingleListFullReplace(lists: seq<RemoteList>, items: ItemStore, t: Target, j: nat)
    requires j < |lists| && lists[j].name == t.listName && lists[j].id in items
    requires forall k :: 0 <= k < |lists| && k != j ==> lists[k].name != t.listName
    ensures ScanLists(lists, items, t, []) ==
            Run([ReadItems(lists[j].id)] + Submit(lists[j].id, Payload(RemoveValues(items[lists[j].id]), t.append), t), false)
    decreases |lists|
  {
    forall k | 0 <= k < |lists| - 1 && k + 1 != j ensures lists[1..][k].name != t.listName {
      assert lists[1..][k] == lists[k + 1];
    }
    if j == 0 {
      ScanSilentIffNoMatch(lists[1..], items, t, RemoveValues(items[lists[0].id]));
      assert [] + RemoveValues(items[lists[0].id]) == RemoveValues(items[lists[0].id]);
    } else {
      assert lists[1..][j - 1] == lists[j];
      SingleListFullReplace(lists[1..], items, t, j - 1);
    }
  }

  // ---------------------------------------------------------------------
  // What every call of a group's scan is about.

  /** A call of the group's scan: reads and writes name a list carrying the
      group's name; a write carries the whole desired set and ends with every
      value of the list it writes; a persist uses the group's object name and
      happens only when persisting is enabled. */
  ghost predicate Targeted(e: Event, lists: seq<RemoteList>, items: ItemStore, t: Target) {
    match e
    case ReadDirectory => false
    case ReadItems(id) => exists l :: l in lists && l.id == id && l.name == t.listName
    case Persist(n, p) => t.persist && n == t.objectName && p.append == t.append
    case Write(id, p) =>
      (exists l :: l in lists && l.id == id && l.name == t.listName)
      && p.append == t.append && id in items && IsSuffix(RemoveValues(items[id]), p.remove)
  }

  lemma {:induction false} ScanTargeted(lists: seq<RemoteList>, items: ItemStore, t: Target, remove: seq<string>)
    ensures forall e :: e in ScanLists(lists, items, t, remove).events ==> Targeted(e, lists, items, t)
    decreases |lists|
  {
    if lists != [] {
      var l := lists[0];
      var rest := lists[1..];
      if l.name != t.listName {
        ScanTargeted(rest, items, t, remove);
        forall e | e in ScanLists(rest, items, t, remove).events ensures Targeted(e, lists, items, t) {
          assert Targeted(e, rest, items, t);
        }
      } else if l.id !in items {
        assert l in lists;
      } else {
        var removed := remove + RemoveValues(items[l.id]);
        assert removed[|removed| - |RemoveValues(items[l.id])|..] == RemoveValues(items[l.id]);
        ScanTargeted(rest, items, t, removed);
        assert l in lists;
        forall e | e in ScanLists(rest, items, t, removed).events ensures Targeted(e, lists, items, t) {
          assert Targeted(e, rest, items, t);
        }
      }
    }
  }

  /** Full replace, not a minimal diff: every write of a group sends the whole
      desired set, and removes every value the written list holds now, even
      a value that the desired set appends again. */
  lemma {:induction false} WritesReplaceWholeList(lists: seq<RemoteList>, items: ItemStore, t: Target, remove: seq<string>)
    ensures forall e :: e in ScanLists(lists, items, t, remove).events && e.Write? ==>
              && e.body.append == t.append
              && e.listId in items
              && forall v :: v in RemoveValues(items[e.listId]) ==> v in e.body.remove
  {
    ScanTargeted(lists, items, t, remove);
    forall e | e in ScanLists(lists, items, t, remove).events && e.Write?
      ensures e.listId in items && forall v :: v in RemoveValues(items[e.listId]) ==> v in e.body.remove
    {
      assert Targeted(e, lists, items, t);
      var current := RemoveValues(items[e.listId]);
      var sent := e.body.remove;
      forall v | v in current ensures v in sent {
        var k :| 0 <= k < |current| && current[k] == v;
        assert sent[|sent| - |current| + k] == sent[|sent| - |current|..][k];
      }
    }
  }

  /** Every persist is followed at once by a write of the same payload. */
  ghost predicate PersistsPaired(events: seq<Event>) {
    forall k :: 0 <= k < |events| && events[k].Persist? ==>
      k + 1 < |events| && events[k + 1].Write? && events[k + 1].body == events[k].body
  }

  /** Every write comes after a read of the same list. */
  ghost predicate ReadsPrecedeWrites(events: seq<Event>) {
    forall k :: 0 <= k < |events| && events[k].Write? ==>
      exists j :: 0 <= j < k && events[j] == ReadItems(events[k].listId)
  }

  /** The trace shape kept by concatenation. */
  ghost predicate WellOrdered(events: seq<Event>) {
    PersistsPaired(events) && ReadsPrecedeWrites(events) && (events != [] ==> !events[|events| - 1].Persist?)
  }

  lemma WellOrderedAppend(a: seq<Event>, b: seq<Event>)
    requires WellOrdered(a) && WellOrdered(b)
    ensures WellOrdered(a + b)
  {
    var c := a + b;
    forall k | 0 <= k < |c| && c[k].Persist?
      ensures k + 1 < |c| && c[k + 1].Write? && c[k + 1].body == c[k].body
    {
      if k < |a| {
        assert a[k].Persist?;
      } else {
        assert b[k - |a|].Persist?;
      }
    }
    forall k | 0 <= k < |c| && c[k].Write?
      ensures exists j :: 0 <= j < k && c[j] == ReadItems(c[k].listId)
    {
      if k < |a| {
        assert a[k].Write?;
        var j :| 0 <= j < k && a[j] == ReadItems(a[k].listId);
        assert c[j] == a[j];
      } else {
        assert b[k - |a|].Write?;
        var j :| 0 <= j < k - |a| && b[j] == ReadItems(b[k - |a|].listId);
        assert c[j + |a|] == b[j];
      }
    }
    if b == [] {
      assert c == a;
    } else {
      assert c[|c| - 1] == b[|b| - 1];
    }
  }

  lemma StepWellOrdered(id: string, p: Payload, t: Target)
    ensures WellOrdered([ReadItems(id)] + Submit(id, p, t))
  {
    var s := [ReadItems(id)] + Submit(id, p, t);
    forall k | 0 <= k < |s| && s[k].Write?
      ensures exists j :: 0 <= j < k && s[j] == ReadItems(s[k].listId)
    {
      assert s[0] == ReadItems(s[k].listId);
    }
  }

  /** Within a group, a list is read before it is written, and a persisted
      payload is the one written next. */
  lemma {:induction false} ScanWellOrdered(lists: seq<RemoteList>, items: ItemStore, t: Target, remove: seq<string>)
    ensures WellOrdered(ScanLists(lists, items, t, remove).events)
    decreases |lists|
  {
    if lists != [] {
      var l := lists[0];
      if l.name != t.listName {
        ScanWellOrdered(lists[1..], items, t, remove);
      } else if l.id !in items {
        assert WellOrdered([ReadItems(l.id)]);
      } else {
        var removed := remove + RemoveValues(items[l.id]);
        ScanWellOrdered(lists[1..], items, t, removed);
        StepWellOrdered(l.id, Payload(removed, t.append), t);
        WellOrderedAppend([ReadItems(l.id)] + Submit(l.id, Payload(removed, t.append), t),
                          ScanLists(lists[1..], items, t, removed).events);
      }
    }
  }

  /** Every write comes right after the persist of its payload. */
  ghost predicate WritesPersisted(events: seq<Event>) {
    forall k :: 0 <= k < |events| && events[k].Write? ==>
      k >= 1 && events[k - 1].Persist? && events[k - 1].body == events[k].body
  }

  lemma WritesPersistedAppend(a: seq<Event>, b: seq<Event>)
    requires WritesPersisted(a) && WritesPersisted(b)
    ensures WritesPersisted(a + b)
  {
    var c := a + b;
    forall k | 0 <= k < |c| && c[k].Write?
      ensures k >= 1 && c[k - 1].Persist? && c[k - 1].body == c[k].body
    {
      if k < |a| {
        assert a[k].Write?;
      } else {
        assert b[k - |a|].Write?;
        assert c[k - 1] == b[k - |a| - 1];
      }
    }
  }

  /** Every write comes right after the persist of its payload under `objectName`. */
  ghost predicate WritesPersistedUnder(events: seq<Event>, objectName: string) {
    forall k :: 0 <= k < |events| && events[k].Write? ==>
      k >= 1 && events[k - 1] == Persist(objectName, events[k].body)
  }

  /** When persisting is enabled, every write of a group is preceded at once
      by the persist of the same payload under the group's object name. */
  lemma {:induction false} ScanPersistsWhenEnabled(lists: seq<RemoteList>, items: ItemStore, t: Target, remove: seq<string>)
    requires t.persist
    ensures WritesPersistedUnder(ScanLists(lists, items, t, remove).events, t.objectName)
    decreases |lists|
  {
    if lists != [] {
      var l := lists[0];
      if l.name != t.listName {
        ScanPersistsWhenEnabled(lists[1..], items, t, remove);
      } else if l.id in items {
        var removed := remove + RemoveValues(items[l.id]);
        var p := Payload(removed, t.append);
        var step := [ReadItems(l.id), Persist(t.objectName, p), Write(l.id, p)];
        assert step == [ReadItems(l.id)] + Submit(l.id, p, t);
        var rest := ScanLists(lists[1..], items, t, removed).events;
        ScanPersistsWhenEnabled(lists[1..], items, t, removed);
        var ev := step + rest;
        forall k | 0 <= k < |ev| && ev[k].Write? ensures k >= 1 && ev[k - 1] == Persist(t.objectName, ev[k].body) {
          if k >= 3 {
            assert ev[k] == rest[k - 3];
            assert rest[k - 3].Write?;
            assert ev[k - 1] == rest[k - 4];
          }
        }
        assert WritesPersistedUnder(ev, t.objectName);
      }
    }
  }

  lemma ScanWritesPersisted(lists: seq<RemoteList>, items: ItemStore, t: Target, remove: seq<string>)
    requires t.persist
    ensures WritesPersisted(ScanLists(lists, items, t, remove).events)
  {
    ScanPersistsWhenEnabled(lists, items, t, remove);
  }

  // ---------------------------------------------------------------------
  // The groups in order.

  /** Groups run in configured order: the run over `gs1 + gs2` is the run over
      `gs1`, then, unless that ended in a failed read, the run over `gs2`. */
  lemma {:induction false} RunGroupsConcat(gs1: seq<string>, gs2: seq<string>, ds: seq<Device>, ms: seq<GroupMembership>,
                                           lists: seq<RemoteList>, items: ItemStore, cfg: Config, inv: Invocation)
    ensures RunGroups(gs1 + gs2, ds, ms, lists, items, cfg, inv) ==
            (var r1 := RunGroups(gs1, ds, ms, lists, items, cfg, inv);
             if r1.aborted then r1 else Prepend(r1.events, RunGroups(gs2, ds, ms, lists, items, cfg, inv)))
    decreases |gs1|
  {
    if gs1 == [] {
      assert gs1 + gs2 == gs2;
    } else {
      assert (gs1 + gs2)[0] == gs1[0];
      assert (gs1 + gs2)[1..] == gs1[1..] + gs2;
      RunGroupsConcat(gs1[1..], gs2, ds, ms, lists, items, cfg, inv);
    }
  }

  /** Every call of the group loop belongs to a configured group: reads and
      writes go to a list named `prefix + group`, persists to the object
      `prefix + group + ".json"` and only when persisting is enabled. */
  lemma {:induction false} RunGroupsTargeted(groups: seq<string>, ds: seq<Device>, ms: seq<GroupMembership>,
                                             lists: seq<RemoteList>, items: ItemStore, cfg: Config, inv: Invocation)
    ensures forall e :: e in RunGroups(groups, ds, ms, lists, items, cfg, inv).events ==>
              exists g :: g in groups && Targeted(e, lists, items, TargetFor(cfg, inv, g, ds, ms))
    decreases |groups|
  {
    if groups != [] {
      var t := TargetFor(cfg, inv, groups[0], ds, ms);
      ScanTargeted(lists, items, t, []);
      RunGroupsTargeted(groups[1..], ds, ms, lists, items, cfg, inv);
      var r := RunGroups(groups, ds, ms, lists, items, cfg, inv);
      forall e | e in r.events
        ensures exists g :: g in groups && Targeted(e, lists, items, TargetFor(cfg, inv, g, ds, ms))
      {
        if e in ScanLists(lists, items, t, []).events {
          assert groups[0] in groups;
        } else {
          var g :| g in groups[1..] && Targeted(e, lists, items, TargetFor(cfg, inv, g, ds, ms));
          assert g in groups;
        }
      }
    }
  }

  lemma {:induction false} RunGroupsWellOrdered(groups: seq<string>, ds: seq<Device>, ms: seq<GroupMembership>,
                                                lists: seq<RemoteList>, items: ItemStore, cfg: Config, inv: Invocation)
    ensures WellOrdered(RunGroups(groups, ds, ms, lists, items, cfg, inv).events)
    decreases |groups|
  {
    if groups != [] {
      var t := TargetFor(cfg, inv, groups[0], ds, ms);
      ScanWellOrdered(lists, items, t, []);
      RunGroupsWellOrdered(groups[1..], ds, ms, lists, items, cfg, inv);
      WellOrderedAppend(ScanLists(lists, items, t, []).events, RunGroups(groups[1..], ds, ms, lists, items, cfg, inv).events);
    }
  }

  /** When persisting is enabled, every write of the group loop comes right
      after the persist of its payload. */
  lemma {:induction false} RunGroupsPersistsWhenEnabled(groups: seq<string>, ds: seq<Device>, ms: seq<GroupMembership>,
                                                        lists: seq<RemoteList>, items: ItemStore, cfg: Config, inv: Invocation)
    requires PersistEnabled(cfg, inv)
    ensures WritesPersisted(RunGroups(groups, ds, ms, lists, items, cfg, inv).events)
    decreases |groups|
  {
    if groups != [] {
      var t := TargetFor(cfg, inv, groups[0], ds, ms);
      ScanWritesPersisted(lists, items, t, []);
      RunGroupsPersistsWhenEnabled(groups[1..], ds, ms, lists, items, cfg, inv);
      WritesPersistedAppend(ScanLists(lists, items, t, []).events, RunGroups(groups[1..], ds, ms, lists, items, cfg, inv).events);
    }
  }

  /** When no list carries the name of any configured group, the group loop
      makes no call and the run is not aborted. */
  lemma {:induction false} RunGroupsNoMatchingList(groups: seq<string>, ds: seq<Device>, ms: seq<GroupMembership>,
                                                   lists: seq<RemoteList>, items: ItemStore, cfg: Config, inv: Invocation)
    requires forall g, k :: g in groups && 0 <= k < |lists| ==> lists[k].name != cfg.prefix + g
    ensures RunGroups(groups, ds, ms, lists, items, cfg, inv) == Run([], false)
    decreases |groups|
  {
    if groups != [] {
      assert groups[0] in groups;
      ScanSilentIffNoMatch(lists, items, TargetFor(cfg, inv, groups[0], ds, ms), []);
      RunGroupsNoMatchingList(groups[1..], ds, ms, lists, items, cfg, inv);
    }
  }

  /** The group loop ends in a failed read exactly when some configured group
      has a list of its name that cannot be read. */
  lemma {:induction false} RunGroupsAbortedIff(groups: seq<string>, ds: seq<Device>, ms: seq<GroupMembership>,
                                               lists: seq<RemoteList>, items: ItemStore, cfg: Config, inv: Invocation)
    ensures RunGroups(groups, ds, ms, lists, items, cfg, inv).aborted <==>
              exists g :: g in groups && Unreadable(lists, items, cfg.prefix + g)
    decreases |groups|
  {
    if groups != [] {
      ScanAbortedIff(lists, items, TargetFor(cfg, inv, groups[0], ds, ms), []);
      RunGroupsAbortedIff(groups[1..], ds, ms, lists, items, cfg, inv);
      assert groups[0] in groups;
      if exists g :: g in groups && Unreadable(lists, items, cfg.prefix + g) {
        var g :| g in groups && Unreadable(lists, items, cfg.prefix + g);
        if g != groups[0] {
          assert g in groups[1..];
        }
      }
    }
  }

  // ---------------------------------------------------------------------
  // The whole invocation.

  /** A missing dataset is answered with 404 and the fixed error message, and
      only then; that outcome carries no call. */
  lemma MissingDatasetIs404(inv: Invocation, cfg: Config, stores: Stores)
    ensures Handle(inv, cfg, stores).DatasetMissing? <==> stores.devicesObject.None? || stores.groupsObject.None?
    ensures Handle(inv, cfg, stores).DatasetMissing? ==>
              Handle(inv, cfg, stores) == DatasetMissing(404, "File not found in R2 bucket")
  {
  }

  /** When persisting is enabled, every write of a run comes right after the
      persist of its payload. */
  lemma HandleWritesPersisted(inv: Invocation, cfg: Config, stores: Stores)
    requires !Handle(inv, cfg, stores).DatasetMissing?
    ensures PersistEnabled(cfg, inv) ==> WritesPersisted(Handle(inv, cfg, stores).trace)
  {
    if stores.directory.Some? && PersistEnabled(cfg, inv) {
      var r := RunGroups(cfg.groups, stores.devicesObject.value, stores.groupsObject.value,
                         stores.directory.value, stores.items, cfg, inv);
      RunGroupsPersistsWhenEnabled(cfg.groups, stores.devicesObject.value, stores.groupsObject.value,
                                   stores.directory.value, stores.items, cfg, inv);
      WritesPersistedAppend([ReadDirectory], r.events);
    }
  }

  /** A run that gets past the datasets starts with the directory read, keeps
      reads before writes and persists next to their writes, touches only
      lists and objects of configured groups, persists nothing unless enabled,
      and replies only on demand. */
  lemma HandleTrace(inv: Invocation, cfg: Config, stores: Stores)
    requires !Handle(inv, cfg, stores).DatasetMissing?
    ensures var trace := Handle(inv, cfg, stores).trace;
            && trace != [] && trace[0] == ReadDirectory
            && WellOrdered(trace)
            && (forall k :: 1 <= k < |trace| ==>
                  exists g :: g in cfg.groups && Targeted(trace[k], stores.directory.value, stores.items, TargetFor(cfg, inv, g, stores.devicesObject.value, stores.groupsObject.value)))
            && (!PersistEnabled(cfg, inv) ==> forall k :: 0 <= k < |trace| ==> !trace[k].Persist?)
            && (PersistEnabled(cfg, inv) ==> WritesPersisted(trace))
    ensures Handle(inv, cfg, stores).Finished? ==> Handle(inv, cfg, stores).reply == (if inv == OnDemand then Some(UpdatedMessage) else None)
  {
    assert WellOrdered([ReadDirectory]);
    if stores.directory.Some? {
      var r := RunGroups(cfg.groups, stores.devicesObject.value, stores.groupsObject.value,
                         stores.directory.value, stores.items, cfg, inv);
      RunGroupsWellOrdered(cfg.groups, stores.devicesObject.value, stores.groupsObject.value,
                           stores.directory.value, stores.items, cfg, inv);
      WellOrderedAppend([ReadDirectory], r.events);
      HandleTargeted(inv, cfg, stores);
    }
    HandleWritesPersisted(inv, cfg, stores);
  }

  /** Every call after the directory read belongs to a configured group, and
      nothing is persisted unless persisting is enabled. */
  lemma HandleTargeted(inv: Invocation, cfg: Config, stores: Stores)
    requires !Handle(inv, cfg, stores).DatasetMissing? && stores.directory.Some?
    ensures var trace := Handle(inv, cfg, stores).trace;
            && (forall k :: 1 <= k < |trace| ==>
                  exists g :: g in cfg.groups && Targeted(trace[k], stores.directory.value, stores.items, TargetFor(cfg, inv, g, stores.devicesObject.value, stores.groupsObject.value)))
            && (!PersistEnabled(cfg, inv) ==> forall k :: 0 <= k < |trace| ==> !trace[k].Persist?)
  {
    var trace := Handle(inv, cfg, stores).trace;
    var ds, ms := stores.devicesObject.value, stores.groupsObject.value;
    var lists := stores.directory.value;
    var r := RunGroups(cfg.groups, ds, ms, lists, stores.items, cfg, inv);
    assert trace == [ReadDirectory] + r.events;
    RunGroupsTargeted(cfg.groups, ds, ms, lists, stores.items, cfg, inv);
    forall k | 1 <= k < |trace|
      ensures exists g :: g in cfg.groups && Targeted(trace[k], lists, stores.items, TargetFor(cfg, inv, g, ds, ms))
    {
      assert trace[k] == r.events[k - 1];
      assert trace[k] in r.events;
    }
    if !PersistEnabled(cfg, inv) {
      forall k | 0 <= k < |trace| ensures !trace[k].Persist? {
        if k >= 1 {
          var g :| g in cfg.groups && Targeted(trace[k], lists, stores.items, TargetFor(cfg, inv, g, ds, ms));
        }
      }
    }
  }


  /** With both datasets and the directory present and no list named after a
      configured group, the run only reads the directory and finishes. */
  lemma NoMatchingListOnlyReadsDirectory(inv: Invocation, cfg: Config, stores: Stores)
    requires stores.devicesObject.Some? && stores.groupsObject.Some? && stores.directory.Some?
    requires forall g, k :: g in cfg.groups && 0 <= k < |stores.directory.value| ==>
               stores.directory.value[k].name != cfg.prefix + g
    ensures Handle(inv, cfg, stores) == Finished([ReadDirectory], Reply(inv))
  {
    RunGroupsNoMatchingList(cfg.groups, stores.devicesObject.value, stores.groupsObject.value,
                            stores.directory.value, stores.items, cfg, inv);
  }

  /** The run is aborted exactly when both datasets are present and either
      the directory read fails or some configured group has a list of its
      name that cannot be read. */
  lemma HandleAbortedIff(inv: Invocation, cfg: Config, stores: Stores)
    ensures Handle(inv, cfg, stores).Aborted? <==>
              && stores.devicesObject.Some? && stores.groupsObject.Some?
              && (|| stores.directory.None?
                  || exists g :: g in cfg.groups && Unreadable(stores.directory.value, stores.items, cfg.prefix + g))
  {
    if stores.devicesObject.Some? && stores.groupsObject.Some? && stores.directory.Some? {
      RunGroupsAbortedIff(cfg.groups, stores.devicesObject.value, stores.groupsObject.value,
                          stores.directory.value, stores.items, cfg, inv);
    }
  }

  /** An aborted run stops right at the failed read: its trace is the failed
      directory read alone, or ends with an item read the store cannot serve. */
  lemma HandleAbortEndsAtFailedRead(inv: Invocation, cfg: Config, stores: Stores)
    requires Handle(inv, cfg, stores).Aborted?
    ensures var trace := Handle(inv, cfg, stores).trace;
            trace != [] && (trace == [ReadDirectory] || FailedRead(trace[|trace| - 1], stores.items))
  {
    if stores.directory.Some? {
      var r := RunGroups(cfg.groups, stores.devicesObject.value, stores.groupsObject.value,
                         stores.directory.value, stores.items, cfg, inv);
      assert ([ReadDirectory] + r.events)[|r.events|] == r.events[|r.events| - 1];
    }
  }
}
