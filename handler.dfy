/** The request handler as the worker runs it: nested loops that push into the
    update payload and append calls to the trace, each proved equal to the
    pure run of module Sync. */
module Handler {
  import opened Types
  import opened Resolver
  import opened Diff
  import opened Sync

  /** Step 03.a: the entries to append for `group`, devices outer, roster rows
      inner. */
  method BuildAppend(devices: seq<Device>, memberships: seq<GroupMembership>, group: string)
    returns (append: seq<ListEntry>)
    ensures append == Resolve(devices, memberships, group)
  {
    append := [];
    for i := 0 to |devices|
      invariant append == Resolve(devices[..i], memberships, group)
    {
      var device := devices[i];
      for j := 0 to |memberships|
        invariant append == Resolve(devices[..i], memberships, group) + EntriesFor(device, memberships[..j], group)
      {
        var user := memberships[j];
        assert memberships[..j + 1][..j] == memberships[..j];
        if device.email == user.email && user.group == group {
          append := append + [EntryOf(device, user)];
        }
      }
      assert memberships[..|memberships|] == memberships;
      assert devices[..i + 1][..i] == devices[..i];
    }
    assert devices[..|devices|] == devices;
  }

  /** Step 03.b, inner loop: push the value of every item of a read whose
      `result` is not null. */
  method CollectRemove(remove: seq<string>, result: Option<seq<ListEntry>>) returns (removed: seq<string>)
    ensures removed == remove + RemoveValues(result)
  {
    removed := remove;
    if result.Some? {
      var entries := result.value;
      for k := 0 to |entries|
        invariant removed == remove + Values(entries[..k])
      {
        assert entries[..k + 1][..k] == entries[..k];
        removed := removed + [entries[k].value];
      }
      assert entries[..|entries|] == entries;
    }
  }

  /** Step 03.b to step 05 for one group: every list carrying the group's name
      is read, its values join the remove half, and the payload is persisted
      (when enabled) and written. A failed read ends the run. */
  method ReconcileGroup(lists: seq<RemoteList>, items: ItemStore, t: Target)
    returns (events: seq<Event>, aborted: bool)
    ensures Run(events, aborted) == ScanLists(lists, items, t, [])
  {
    events, aborted := [], false;
    var remove: seq<string> := [];
    for k := 0 to |lists|
      invariant Prepend(events, ScanLists(lists[k..], items, t, remove)) == ScanLists(lists, items, t, [])
    {
      var list := lists[k];
      assert lists[k..][0] == list && lists[k..][1..] == lists[k + 1..];
      if list.name == t.listName {
        events := events + [ReadItems(list.id)];
        if list.id !in items {
          aborted := true;
          return;
        }
        remove := CollectRemove(remove, items[list.id]);
        var payload := Payload(remove, t.append);
        if t.persist {
          events := events + [Persist(t.objectName, payload)];
        }
        events := events + [Write(list.id, payload)];
      }
    }
    assert lists[|lists|..] == [];
  }

  /** The whole handler after request routing: the two dataset checks, the
      directory read, then the groups in configured order. */
  method HandleRequest(inv: Invocation, cfg: Config, stores: Stores) returns (outcome: Outcome)
    ensures outcome == Handle(inv, cfg, stores)
  {
    if stores.devicesObject.None? {
      return DatasetMissing(NotFoundStatus, NotFoundError);
    }
    var devices := stores.devicesObject.value;
    if stores.groupsObject.None? {
      return DatasetMissing(NotFoundStatus, NotFoundError);
    }
    var memberships := stores.groupsObject.value;
    var trace := [ReadDirectory];
    if stores.directory.None? {
      return Aborted(trace);
    }
    var lists := stores.directory.value;
    var persist := cfg.storeR2 || inv == Scheduled;
    ghost var whole := RunGroups(cfg.groups, devices, memberships, lists, stores.items, cfg, inv);
    for i := 0 to |cfg.groups|
      invariant Prepend(trace, RunGroups(cfg.groups[i..], devices, memberships, lists, stores.items, cfg, inv))
                == Prepend([ReadDirectory], whole)
    {
      var group := cfg.groups[i];
      assert cfg.groups[i..][0] == group && cfg.groups[i..][1..] == cfg.groups[i + 1..];
      var append := BuildAppend(devices, memberships, group);
      var t := Target(cfg.prefix + group, cfg.prefix + group + ".json", persist, append);
      assert t == TargetFor(cfg, inv, group, devices, memberships);
      var events, aborted := ReconcileGroup(lists, stores.items, t);
      trace := trace + events;
      if aborted {
        return Aborted(trace);
      }
    }
    assert cfg.groups[|cfg.groups|..] == [];
    outcome := Finished(trace, if inv == Scheduled then None else Some(UpdatedMessage));
  }
}
