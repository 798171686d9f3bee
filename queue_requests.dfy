/** The queue-create requests of `CreateDevice`: one per distinct family. */
module QueueRequests {
  import opened VulkanData

  /** `vk::DeviceQueueCreateInfo`: one family, a queue count and the priority. */
  datatype QueueCreateInfo = QueueCreateInfo(queueFamilyIndex: UInt32, queueCount: nat, priority: real)

  const QUEUE_PRIORITY: real := 1.0

  /** The elements of `std::set<uint32_t>{ a, b }` in the set's iteration order. */
  function UniqueFamilies(a: UInt32, b: UInt32): (order: seq<UInt32>)
    ensures forall f :: f in order <==> f == a || f == b
    ensures forall i, j :: 0 <= i < j < |order| ==> order[i] < order[j]
  {
    if a < b then [a, b] else if b < a then [b, a] else [a]
  }

  /** The requests name exactly the families `graphics` and `present`, once
      each, in ascending family order, each for one queue of priority 1.0. */
  ghost predicate OneRequestPerFamily(infos: seq<QueueCreateInfo>, graphics: UInt32, present: UInt32) {
    && |infos| == (if graphics == present then 1 else 2)
    && (forall i :: 0 <= i < |infos| ==>
          && (infos[i].queueFamilyIndex == graphics || infos[i].queueFamilyIndex == present)
          && infos[i].queueCount == 1
          && infos[i].priority == QUEUE_PRIORITY)
    && (exists i :: 0 <= i < |infos| && infos[i].queueFamilyIndex == graphics)
    && (exists i :: 0 <= i < |infos| && infos[i].queueFamilyIndex == present)
    && (forall i, j :: 0 <= i < j < |infos| ==> infos[i].queueFamilyIndex < infos[j].queueFamilyIndex)
  }

  /** The loop of `CreateDevice` over the set of the two role families, which
      emplaces one request per distinct family. */
  method QueueCreateInfosFor(graphics: UInt32, present: UInt32) returns (infos: seq<QueueCreateInfo>)
    ensures OneRequestPerFamily(infos, graphics, present)
  {
    var families := UniqueFamilies(graphics, present);
    infos := [];
    for k := 0 to |families|
      invariant |infos| == k
      invariant forall i :: 0 <= i < k ==> infos[i] == QueueCreateInfo(families[i], 1, QUEUE_PRIORITY)
    {
      infos := infos + [QueueCreateInfo(families[k], 1, QUEUE_PRIORITY)];
    }
    assert graphics in families && present in families;
  }
}
