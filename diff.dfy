/** The remove half of a list update: the values of the items a list holds now.
    The policy is a full replace, so nothing is compared with the desired
    entries. */
module Diff {
  import opened Types

  /** The `value` of every item, in item order. */
  function Values(items: seq<ListEntry>): (r: seq<string>)
    ensures |r| == |items|
    ensures forall k :: 0 <= k < |r| ==> r[k] == items[k].value
  {
    if items == [] then []
    else Values(items[..|items| - 1]) + [items[|items| - 1].value]
  }

  /** The values to delete for one item read: every item's value, or nothing
      when the read's `result` is null. */
  function RemoveValues(result: Option<seq<ListEntry>>): (r: seq<string>)
    ensures result.None? ==> r == []
    ensures result.Some? ==> |r| == |result.value|
    ensures result.Some? ==> forall k :: 0 <= k < |r| ==> r[k] == result.value[k].value
  {
    match result
    case None => []
    case Some(items) => Values(items)
  }

  /** Nothing is removed exactly when the list has no item. */
  lemma RemoveValuesEmpty(result: Option<seq<ListEntry>>)
    ensures RemoveValues(result) == [] <==> result.None? || result.value == []
  {
  }
}
