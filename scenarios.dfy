/** Concrete runs of the model on small inputs. */
module Scenarios {
  import opened Types
  import opened Resolver
  import opened Diff
  import opened Sync

  const Laptop := Device("a@x.com", "d1", "laptop", "10.0.0.1")

  /** One device whose user is in the group gives one entry. */
  lemma OneMatchingPair()
    ensures Resolve([Laptop], [GroupMembership("a@x.com", "g1")], "g1")
            == [ListEntry("USER:a@x.com; DEVICE:d1; TYPE:laptop", "10.0.0.1")]
  {
    var ms := [GroupMembership("a@x.com", "g1")];
    assert ms[..0] == [];
    assert [Laptop][..0] == [];
    assert EntriesFor(Laptop, ms, "g1") == [EntryOf(Laptop, ms[0])];
    assert Resolve([Laptop], ms, "g1") == EntriesFor(Laptop, ms, "g1");
    assert "USER:" + "a@x.com" + "; DEVICE:" + "d1" + "; TYPE:" + "laptop" == "USER:a@x.com; DEVICE:d1; TYPE:laptop";
  }

  /** A user in another group gives nothing. */
  lemma OtherGroupGivesNothing()
    ensures Resolve([Laptop], [GroupMembership("a@x.com", "g2")], "g1") == []
  {
    var ms := [GroupMembership("a@x.com", "g2")];
    assert ms[..0] == [];
    assert [Laptop][..0] == [];
  }

  /** The payload for a list holding two values, one entry desired and no
      persisting: both current values are removed, the new entry appended. */
  lemma ReplaceTwoValues(id: string, desired: seq<ListEntry>)
    ensures var l := RemoteList(id, "zt-g1");
            var current := [ListEntry("", "10.0.0.1"), ListEntry("", "10.0.0.2")];
            var t := Target("zt-g1", "zt-g1.json", false, desired);
            ScanLists([l], map[id := Some(current)], t, [])
              == Run([ReadItems(id), Write(id, Payload(["10.0.0.1", "10.0.0.2"], desired))], false)
  {
    var current := [ListEntry("", "10.0.0.1"), ListEntry("", "10.0.0.2")];
    assert current[..1] == [current[0]];
    assert current[..1][..0] == [];
    assert RemoveValues(Some(current)) == ["10.0.0.1", "10.0.0.2"];
    var l := RemoteList(id, "zt-g1");
    var t := Target("zt-g1", "zt-g1.json", false, desired);
    assert [l][1..] == [];
    assert [] + RemoveValues(Some(current)) == ["10.0.0.1", "10.0.0.2"];
  }

  /** Two lists with the group's name: the second payload also removes the
      first list's values. */
  lemma TwoListsAccumulate(a: RemoteList, b: RemoteList, items: ItemStore, t: Target)
    requires a.name == t.listName && b.name == t.listName && a.id in items && b.id in items
    ensures var va, vb := RemoveValues(items[a.id]), RemoveValues(items[b.id]);
            ScanLists([a, b], items, t, []).events
              == [ReadItems(a.id)] + Submit(a.id, Payload(va, t.append), t)
                 + [ReadItems(b.id)] + Submit(b.id, Payload(va + vb, t.append), t)
  {
    var va, vb := RemoveValues(items[a.id]), RemoveValues(items[b.id]);
    assert [a, b][1..] == [b];
    assert [b][1..] == [];
    assert [] + va == va;
    assert ScanLists([b][1..], items, t, va + vb) == Run([], false);
    var second := ScanLists([b], items, t, va);
    assert second == Prepend([ReadItems(b.id)] + Submit(b.id, Payload(va + vb, t.append), t), Run([], false));
    assert ScanLists([a, b], items, t, []) == Prepend([ReadItems(a.id)] + Submit(a.id, Payload(va, t.append), t), second);
  }

  /** A missing devices object is answered with 404 and no call. */
  lemma MissingDevices(inv: Invocation, cfg: Config, stores: Stores)
    requires stores.devicesObject.None?
    ensures Handle(inv, cfg, stores) == DatasetMissing(404, "File not found in R2 bucket")
  {
  }
}
