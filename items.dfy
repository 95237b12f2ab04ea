/**
 * The monitored items the dashboard shows, and the loop that resolves each
 * of them to an item id (`dash_items`) from the server's replies.
 */
module Items {
  import opened Wrappers

  const KeyRunning: string := "docker.containers.running"
  const KeyExited: string := "docker.containers.exited"
  const KeySwarm: string := "docker.swarm.state"
  const KeyDisk: string := "vfs.fs.size[/hostfs,pfree]"

  /** An item to ensure: display name, key, value type code and optional units. */
  datatype ItemSpec = ItemSpec(name: string, key: string, valueType: int, units: Option<string>)

  /** The items ensured on the host, in the order they are processed. */
  const ItemsToEnsure: seq<ItemSpec> := [
    ItemSpec("Docker: running containers", KeyRunning, 4, None),
    ItemSpec("Docker: exited containers", KeyExited, 4, None),
    ItemSpec("Docker: Swarm state", KeySwarm, 4, None),
    ItemSpec("Disk: /hostfs free %", KeyDisk, 0, Some("%"))
  ]

  /**
   * What the server answers for one item: the id of the first item the
   * lookup by key returned (None for an empty reply), and the id the create
   * call would return (None when that call fails).
   */
  datatype ItemReply = ItemReply(existing: Option<int>, created: Option<int>)

  /** Python truthiness of an optional integer: present and non-zero. */
  predicate Truthy(v: Option<int>) {
    v.Some? && v.value != 0
  }

  /**
   * The id an item resolves to: the existing one if the lookup found it;
   * otherwise, when the host has a (truthy) interface id, the created one if
   * creation succeeded; otherwise none.
   */
  function Resolve(reply: ItemReply, interfaceid: Option<int>): Option<int> {
    if reply.existing.Some? then reply.existing
    else if Truthy(interfaceid) then reply.created
    else None
  }

  /** Whether the i-th item is the first one with its key that resolves. */
  predicate FirstResolved(specs: seq<ItemSpec>, replies: seq<ItemReply>, interfaceid: Option<int>, n: nat, i: nat)
    requires n <= |specs| == |replies|
  {
    && i < n
    && Resolve(replies[i], interfaceid).Some?
    && forall j :: 0 <= j < i && specs[j].key == specs[i].key ==> Resolve(replies[j], interfaceid).None?
  }

  /**
   * The item loop: for each item whose key is not resolved yet, take the
   * existing id or create it, and record the id under the key. A key whose
   * item neither exists nor could be created is left out of the map.
   */
  method EnsureItems(specs: seq<ItemSpec>, replies: seq<ItemReply>, interfaceid: Option<int>)
    returns (dashItems: map<string, int>)
    requires |replies| == |specs|
    ensures forall k :: k in dashItems <==>
              exists i :: 0 <= i < |specs| && specs[i].key == k && Resolve(replies[i], interfaceid).Some?
    ensures forall k :: k in dashItems ==>
              exists i ::
                && 0 <= i < |specs|
                && specs[i].key == k
                && FirstResolved(specs, replies, interfaceid, |specs|, i)
                && Resolve(replies[i], interfaceid) == Some(dashItems[k])
  {
    dashItems := map[];
    for n := 0 to |specs|
      invariant forall k :: k in dashItems <==>
                  exists i :: 0 <= i < n && specs[i].key == k && Resolve(replies[i], interfaceid).Some?
      invariant forall k :: k in dashItems ==>
                  exists i ::
                    && 0 <= i < n
                    && specs[i].key == k
                    && FirstResolved(specs, replies, interfaceid, n, i)
                    && Resolve(replies[i], interfaceid) == Some(dashItems[k])
    {
      var key := specs[n].key;
      if key in dashItems {
        continue;
      }
      var reply := replies[n];
      if reply.existing.Some? {
        dashItems := dashItems[key := reply.existing.value];
      } else if interfaceid.Some? && interfaceid.value != 0 {
        if reply.created.Some? {
          dashItems := dashItems[key := reply.created.value];
        }
      }
    }
  }
}
