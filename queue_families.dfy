/** Resolution of the graphics and presentation roles onto queue families. */
module QueueFamilies {
  import opened Wrappers
  import opened VulkanData

  datatype QueueFamilyIndices = QueueFamilyIndices(
    graphicsFamily: Option<UInt32>,
    presentFamily: Option<UInt32>)
  {
    /** Both roles have a family. */
    predicate IsComplete() {
      graphicsFamily.Some? && presentFamily.Some?
    }
  }

  const NO_INDICES := QueueFamilyIndices(None, None)

  function Max(a: int, b: int): int {
    if a < b then b else a
  }

  /** The scan over the families from `idx` on, starting from `acc`: every
      family with the graphics bit overwrites the graphics index, every family
      that can present overwrites the present index, and the scan stops right
      after the first family at which both are set. */
  function ScanFamilies(families: QueueFamilyList, idx: nat, acc: QueueFamilyIndices): QueueFamilyIndices
    requires idx <= |families|
    decreases |families| - idx
  {
    if idx == |families| then acc
    else
      var graphics := if HasGraphics(families[idx]) then Some(idx as UInt32) else acc.graphicsFamily;
      var present := if families[idx].presentSupport then Some(idx as UInt32) else acc.presentFamily;
      var next := QueueFamilyIndices(graphics, present);
      if next.IsComplete() then next else ScanFamilies(families, idx + 1, next)
  }

  /** What `FindQueueFamilies` returns for these families. */
  function QueueFamiliesOf(families: QueueFamilyList): QueueFamilyIndices {
    ScanFamilies(families, 0, NO_INDICES)
  }

  /** `o` is the last graphics family among the first `n`, or None if there is none. */
  ghost predicate LastGraphicsWithin(families: QueueFamilyList, o: Option<UInt32>, n: nat)
    requires n <= |families|
  {
    match o
    case None => forall i :: 0 <= i < n ==> !HasGraphics(families[i])
    case Some(g) => g < n && HasGraphics(families[g]) && forall i :: g < i < n ==> !HasGraphics(families[i])
  }

  /** `o` is the last presenting family among the first `n`, or None if there is none. */
  ghost predicate LastPresentWithin(families: QueueFamilyList, o: Option<UInt32>, n: nat)
    requires n <= |families|
  {
    match o
    case None => forall i :: 0 <= i < n ==> !families[i].presentSupport
    case Some(p) => p < n && families[p].presentSupport && forall i :: p < i < n ==> !families[i].presentSupport
  }

  /** Among the first `n` families some has graphics and some (possibly another) presents. */
  ghost predicate BothSeenWithin(families: QueueFamilyList, n: nat)
    requires n <= |families|
  {
    && (exists i :: 0 <= i < n && HasGraphics(families[i]))
    && (exists j :: 0 <= j < n && families[j].presentSupport)
  }

  /** The outcome of a scan: when complete, the scan stopped at family
      k = max(graphics, present), both indices are the last matches among the
      first k + 1 families, and the first k families did not already hold both
      roles; when incomplete, the indices are the last matches overall. */
  ghost predicate ScanOutcome(families: QueueFamilyList, r: QueueFamilyIndices) {
    if r.IsComplete() then
      var k := Max(r.graphicsFamily.value, r.presentFamily.value);
      && k < |families|
      && LastGraphicsWithin(families, r.graphicsFamily, k + 1)
      && LastPresentWithin(families, r.presentFamily, k + 1)
      && !BothSeenWithin(families, k)
    else
      && LastGraphicsWithin(families, r.graphicsFamily, |families|)
      && LastPresentWithin(families, r.presentFamily, |families|)
  }

  lemma {:induction false} ScanFamiliesOutcome(families: QueueFamilyList, idx: nat, acc: QueueFamilyIndices)
    requires idx <= |families|
    requires LastGraphicsWithin(families, acc.graphicsFamily, idx)
    requires LastPresentWithin(families, acc.presentFamily, idx)
    requires !acc.IsComplete()
    ensures ScanOutcome(families, ScanFamilies(families, idx, acc))
    decreases |families| - idx
  {
    if idx < |families| {
      var graphics := if HasGraphics(families[idx]) then Some(idx as UInt32) else acc.graphicsFamily;
      var present := if families[idx].presentSupport then Some(idx as UInt32) else acc.presentFamily;
      var next := QueueFamilyIndices(graphics, present);
      assert LastGraphicsWithin(families, graphics, idx + 1);
      assert LastPresentWithin(families, present, idx + 1);
      if next.IsComplete() {
        assert Max(graphics.value, present.value) == idx;
        if acc.graphicsFamily.None? {
          assert !BothSeenWithin(families, idx);
        } else {
          assert acc.presentFamily.None?;
          assert !BothSeenWithin(families, idx);
        }
      } else {
        ScanFamiliesOutcome(families, idx + 1, next);
      }
    }
  }

  /** The recorded indices are exactly the ones the overwriting scan with early stop leaves. */
  lemma QueueFamiliesOfOutcome(families: QueueFamilyList)
    ensures ScanOutcome(families, QueueFamiliesOf(families))
  {
    ScanFamiliesOutcome(families, 0, NO_INDICES);
  }

  /** Complete iff some family has graphics and some family (possibly another) can present. */
  lemma QueueFamiliesCompleteIff(families: QueueFamilyList)
    ensures QueueFamiliesOf(families).IsComplete() <==>
      (exists i :: 0 <= i < |families| && HasGraphics(families[i])) &&
      (exists j :: 0 <= j < |families| && families[j].presentSupport)
  {
    var r := QueueFamiliesOf(families);
    QueueFamiliesOfOutcome(families);
    if r.IsComplete() {
      var g, p := r.graphicsFamily.value, r.presentFamily.value;
      assert HasGraphics(families[g]) && families[p].presentSupport;
    }
  }

  /** Every recorded index names an existing family with that capability. */
  lemma QueueFamiliesIndicesValid(families: QueueFamilyList)
    ensures var r := QueueFamiliesOf(families);
      && (r.graphicsFamily.Some? ==> r.graphicsFamily.value < |families| && HasGraphics(families[r.graphicsFamily.value]))
      && (r.presentFamily.Some? ==> r.presentFamily.value < |families| && families[r.presentFamily.value].presentSupport)
  {
    QueueFamiliesOfOutcome(families);
  }

  /** When complete, one of the indices is the stop position k, no index
      exceeds k, each is the last match at or before k, and the families
      before k did not yet hold both roles. */
  lemma QueueFamiliesStopPoint(families: QueueFamilyList)
    requires QueueFamiliesOf(families).IsComplete()
    ensures var r := QueueFamiliesOf(families);
      var g, p := r.graphicsFamily.value, r.presentFamily.value;
      var k := Max(g, p);
      && k < |families|
      && (g == k || p == k)
      && (forall i :: g < i <= k ==> !HasGraphics(families[i]))
      && (forall i :: p < i <= k ==> !families[i].presentSupport)
      && !BothSeenWithin(families, k)
  {
    QueueFamiliesOfOutcome(families);
  }

  /** `FindQueueFamilies`: the loop over the families with the early `break`. */
  method FindQueueFamilies(families: QueueFamilyList) returns (indices: QueueFamilyIndices)
    ensures indices == QueueFamiliesOf(families)
  {
    indices := NO_INDICES;
    var idx: nat := 0;
    while idx < |families|
      invariant idx <= |families|
      invariant !indices.IsComplete()
      invariant ScanFamilies(families, idx, indices) == QueueFamiliesOf(families)
    {
      if HasGraphics(families[idx]) {
        indices := indices.(graphicsFamily := Some(idx as UInt32));
      }
      if families[idx].presentSupport {
        indices := indices.(presentFamily := Some(idx as UInt32));
      }
      if indices.IsComplete() {
        break;
      }
      idx := idx + 1;
    }
  }
}
