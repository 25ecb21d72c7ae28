/** The join of the device inventory with the membership roster: the entries a
    group's list should hold. Devices are enumerated outside, memberships
    inside, and every matching pair gives one entry (no deduplication). */
module Resolver {
  import opened Types

  /** A device belongs in `group`'s list through membership row `m`. */
  predicate Matches(d: Device, m: GroupMembership, group: string) {
    d.email == m.email && m.group == group
  }

  /** The list entry for a matching pair. The description names the user of
      the membership row, then the device's name and type. */
  function EntryOf(d: Device, m: GroupMembership): ListEntry {
    ListEntry("USER:" + m.email + "; DEVICE:" + d.name + "; TYPE:" + d.kind, d.vip)
  }

  /** The entries one device contributes, in roster order. */
  function EntriesFor(d: Device, ms: seq<GroupMembership>, group: string): (r: seq<ListEntry>)
    ensures |r| <= |ms|
    ensures forall k :: 0 <= k < |r| ==> r[k].value == d.vip
  {
    if ms == [] then []
    else
      var m := ms[|ms| - 1];
      EntriesFor(d, ms[..|ms| - 1], group) + (if Matches(d, m, group) then [EntryOf(d, m)] else [])
  }

  /** The desired entries of `group`'s list: device by device, each device's
      entries in roster order. */
  function Resolve(ds: seq<Device>, ms: seq<GroupMembership>, group: string): (r: seq<ListEntry>)
    ensures forall e :: e in r ==> exists d :: d in ds && d.vip == e.value
  {
    if ds == [] then []
    else Resolve(ds[..|ds| - 1], ms, group) + EntriesFor(ds[|ds| - 1], ms, group)
  }

  /** The roster rows of one group, in order. */
  function InGroup(ms: seq<GroupMembership>, group: string): (r: seq<GroupMembership>)
    ensures forall m :: m in r <==> m in ms && m.group == group
  {
    if ms == [] then []
    else
      var m := ms[|ms| - 1];
      InGroup(ms[..|ms| - 1], group) + (if m.group == group then [m] else [])
  }

  // ---------------------------------------------------------------------
  // Reference definition: the cross product of the two datasets, filtered.

  /** The pairs of one device with every roster row, in roster order. */
  function Row(d: Device, ms: seq<GroupMembership>): seq<(Device, GroupMembership)> {
    seq(|ms|, j requires 0 <= j < |ms| => (d, ms[j]))
  }

  /** Every (device, membership) pair, devices outer, memberships inner. */
  function CrossPairs(ds: seq<Device>, ms: seq<GroupMembership>): seq<(Device, GroupMembership)> {
    if ds == [] then []
    else CrossPairs(ds[..|ds| - 1], ms) + Row(ds[|ds| - 1], ms)
  }

  /** The entries of the pairs that match `group`, in the order of `pairs`. */
  function SelectEntries(pairs: seq<(Device, GroupMembership)>, group: string): seq<ListEntry> {
    if pairs == [] then []
    else
      var p := pairs[|pairs| - 1];
      SelectEntries(pairs[..|pairs| - 1], group) + (if Matches(p.0, p.1, group) then [EntryOf(p.0, p.1)] else [])
  }

  lemma {:induction false} MulStep(a: nat, b: nat)
    ensures (a + 1) * b == a * b + b
  {
  }

  /** Position `i * |ms| + j` of the cross product holds device `i` and row `j`:
      the enumeration is devices outer, memberships inner, each pair once. */
  lemma {:induction false} CrossPairsAt(ds: seq<Device>, ms: seq<GroupMembership>, i: nat, j: nat)
    requires i < |ds| && j < |ms|
    ensures |CrossPairs(ds, ms)| == |ds| * |ms|
    ensures i * |ms| + j < |CrossPairs(ds, ms)|
    ensures CrossPairs(ds, ms)[i * |ms| + j] == (ds[i], ms[j])
    decreases |ds|
  {
    var n := |ds| - 1;
    var init := ds[..n];
    CrossPairsLength(init, ms);
    MulStep(n, |ms|);
    if i < n {
      CrossPairsAt(init, ms, i, j);
    } else {
      assert i * |ms| + j == |CrossPairs(init, ms)| + j;
    }
  }

  lemma {:induction false} CrossPairsLength(ds: seq<Device>, ms: seq<GroupMembership>)
    ensures |CrossPairs(ds, ms)| == |ds| * |ms|
    decreases |ds|
  {
    if ds != [] {
      CrossPairsLength(ds[..|ds| - 1], ms);
      MulStep(|ds| - 1, |ms|);
    }
  }

  lemma {:induction false} SelectEntriesAppend(a: seq<(Device, GroupMembership)>, b: seq<(Device, GroupMembership)>, group: string)
    ensures SelectEntries(a + b, group) == SelectEntries(a, group) + SelectEntries(b, group)
    decreases |b|
  {
    if b != [] {
      var n := |b| - 1;
      assert (a + b)[..|a + b| - 1] == a + b[..n];
      SelectEntriesAppend(a, b[..n], group);
    } else {
      assert a + b == a;
    }
  }

  lemma {:induction false} EntriesForIsSelectedRow(d: Device, ms: seq<GroupMembership>, group: string)
    ensures EntriesFor(d, ms, group) == SelectEntries(Row(d, ms), group)
    decreases |ms|
  {
    if ms != [] {
      var n := |ms| - 1;
      assert Row(d, ms)[..n] == Row(d, ms[..n]);
      EntriesForIsSelectedRow(d, ms[..n], group);
    }
  }

  /** The join is the cross product filtered by the group condition, each
      matching pair turned into its entry, in the cross product's order. */
  lemma {:induction false} ResolveIsFilteredCrossProduct(ds: seq<Device>, ms: seq<GroupMembership>, group: string)
    ensures Resolve(ds, ms, group) == SelectEntries(CrossPairs(ds, ms), group)
    decreases |ds|
  {
    if ds != [] {
      var n := |ds| - 1;
      ResolveIsFilteredCrossProduct(ds[..n], ms, group);
      SelectEntriesAppend(CrossPairs(ds[..n], ms), Row(ds[n], ms), group);
      EntriesForIsSelectedRow(ds[n], ms, group);
    }
  }

  // ---------------------------------------------------------------------
  // Which entries appear.

  lemma {:induction false} EntriesForHasRow(d: Device, ms: seq<GroupMembership>, group: string, j: nat)
    requires j < |ms| && Matches(d, ms[j], group)
    ensures EntryOf(d, ms[j]) in EntriesFor(d, ms, group)
    decreases |ms|
  {
    var n := |ms| - 1;
    if j < n {
      assert ms[..n][j] == ms[j];
      EntriesForHasRow(d, ms[..n], group, j);
    }
  }

  lemma {:induction false} EntriesForFromRow(d: Device, ms: seq<GroupMembership>, group: string, e: ListEntry)
    requires e in EntriesFor(d, ms, group)
    ensures exists j :: 0 <= j < |ms| && Matches(d, ms[j], group) && e == EntryOf(d, ms[j])
    decreases |ms|
  {
    var n := |ms| - 1;
    if e in EntriesFor(d, ms[..n], group) {
      EntriesForFromRow(d, ms[..n], group, e);
      var j :| 0 <= j < n && Matches(d, ms[..n][j], group) && e == EntryOf(d, ms[..n][j]);
      assert ms[j] == ms[..n][j];
    } else {
      assert Matches(d, ms[n], group) && e == EntryOf(d, ms[n]);
    }
  }

  /** Every matching pair has its entry in the append set. */
  lemma {:induction false} ResolveHasPair(ds: seq<Device>, ms: seq<GroupMembership>, group: string, i: nat, j: nat)
    requires i < |ds| && j < |ms| && Matches(ds[i], ms[j], group)
    ensures EntryOf(ds[i], ms[j]) in Resolve(ds, ms, group)
    decreases |ds|
  {
    var n := |ds| - 1;
    if i < n {
      assert ds[..n][i] == ds[i];
      ResolveHasPair(ds[..n], ms, group, i, j);
    } else {
      EntriesForHasRow(ds[n], ms, group, j);
    }
  }

  /** Every entry of the append set comes from a matching pair. */
  lemma {:induction false} ResolveFromPair(ds: seq<Device>, ms: seq<GroupMembership>, group: string, e: ListEntry)
    requires e in Resolve(ds, ms, group)
    ensures exists i, j :: 0 <= i < |ds| && 0 <= j < |ms| && Matches(ds[i], ms[j], group) && e == EntryOf(ds[i], ms[j])
    decreases |ds|
  {
    var n := |ds| - 1;
    if e in Resolve(ds[..n], ms, group) {
      ResolveFromPair(ds[..n], ms, group, e);
      var i, j :| 0 <= i < n && 0 <= j < |ms| && Matches(ds[..n][i], ms[j], group) && e == EntryOf(ds[..n][i], ms[j]);
      assert ds[i] == ds[..n][i];
    } else {
      EntriesForFromRow(ds[n], ms, group, e);
    }
  }

  /** An entry is desired for `group` exactly when some device and some roster
      row of `group` share the user's email and the entry is built from them:
      value the device's VIP, description its user, name and type. */
  lemma ResolveMembers(ds: seq<Device>, ms: seq<GroupMembership>, group: string, e: ListEntry)
    ensures e in Resolve(ds, ms, group) <==>
              exists i, j :: 0 <= i < |ds| && 0 <= j < |ms| && Matches(ds[i], ms[j], group) && e == EntryOf(ds[i], ms[j])
  {
    if e in Resolve(ds, ms, group) {
      ResolveFromPair(ds, ms, group, e);
    }
    if exists i, j :: 0 <= i < |ds| && 0 <= j < |ms| && Matches(ds[i], ms[j], group) && e == EntryOf(ds[i], ms[j]) {
      var i, j :| 0 <= i < |ds| && 0 <= j < |ms| && Matches(ds[i], ms[j], group) && e == EntryOf(ds[i], ms[j]);
      ResolveHasPair(ds, ms, group, i, j);
    }
  }

  /** The list of `group` is empty exactly when no device/row pair matches. */
  lemma ResolveEmptyIffNoMatch(ds: seq<Device>, ms: seq<GroupMembership>, group: string)
    ensures Resolve(ds, ms, group) == [] <==>
              forall i, j :: 0 <= i < |ds| && 0 <= j < |ms| ==> !Matches(ds[i], ms[j], group)
  {
    var r := Resolve(ds, ms, group);
    if r != [] {
      ResolveFromPair(ds, ms, group, r[0]);
    }
    if exists i, j :: 0 <= i < |ds| && 0 <= j < |ms| && Matches(ds[i], ms[j], group) {
      var i, j :| 0 <= i < |ds| && 0 <= j < |ms| && Matches(ds[i], ms[j], group);
      ResolveHasPair(ds, ms, group, i, j);
    }
  }

  lemma {:induction false} EntriesForIgnoresOtherGroups(d: Device, ms: seq<GroupMembership>, group: string)
    ensures EntriesFor(d, ms, group) == EntriesFor(d, InGroup(ms, group), group)
    decreases |ms|
  {
    if ms != [] {
      var n := |ms| - 1;
      var m := ms[n];
      var f := InGroup(ms[..n], group);
      EntriesForIgnoresOtherGroups(d, ms[..n], group);
      if m.group == group {
        assert InGroup(ms, group) == f + [m];
        assert (f + [m])[..|f + [m]| - 1] == f;
        assert EntriesFor(d, f + [m], group) == EntriesFor(d, f, group) + (if Matches(d, m, group) then [EntryOf(d, m)] else []);
      } else {
        assert InGroup(ms, group) == f;
        assert !Matches(d, m, group);
      }
    }
  }

  /** Roster rows of other groups never reach `group`'s list: dropping them
      leaves the desired entries unchanged, order included. */
  lemma {:induction false} ResolveIgnoresOtherGroups(ds: seq<Device>, ms: seq<GroupMembership>, group: string)
    ensures Resolve(ds, ms, group) == Resolve(ds, InGroup(ms, group), group)
    decreases |ds|
  {
    if ds != [] {
      var n := |ds| - 1;
      ResolveIgnoresOtherGroups(ds[..n], ms, group);
      EntriesForIgnoresOtherGroups(ds[n], ms, group);
    }
  }

  lemma {:induction false} EntriesForAppend(d: Device, a: seq<GroupMembership>, b: seq<GroupMembership>, group: string)
    ensures EntriesFor(d, a + b, group) == EntriesFor(d, a, group) + EntriesFor(d, b, group)
    decreases |b|
  {
    if b != [] {
      var n := |b| - 1;
      assert (a + b)[..|a + b| - 1] == a + b[..n];
      EntriesForAppend(d, a, b[..n], group);
    } else {
      assert a + b == a;
    }
  }

  /** No deduplication: listing every roster row twice lists every desired
      entry twice as often. */
  lemma {:induction false} DuplicateRowsDuplicateEntries(ds: seq<Device>, ms: seq<GroupMembership>, group: string)
    ensures multiset(Resolve(ds, ms + ms, group)) == multiset(Resolve(ds, ms, group)) + multiset(Resolve(ds, ms, group))
    decreases |ds|
  {
    if ds != [] {
      var n := |ds| - 1;
      DuplicateRowsDuplicateEntries(ds[..n], ms, group);
      EntriesForAppend(ds[n], ms, ms, group);
    }
  }
}
