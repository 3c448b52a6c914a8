/** The dispatcher's handler registry, as the services see it: an ordered list
    of service nodes, each binding one event to one handler with a context and a
    priority. Registering appends a node; unregistering removes it. How the
    dispatcher orders and calls the nodes is outside this model. */
module Registry {

  /** The UDS events the services of this package subscribe to. */
  datatype Event =
    | RequestDownload
    | TransferData
    | RequestTransferExit
    | SessionTimeout
    | RoutineCtrl
    | ReadDataByIdent
    | WriteDataByIdent

  /** `RTT_UDS_PRIO_HIGHEST` and `RTT_UDS_PRIO_NORMAL`. */
  datatype Priority = PrioHighest | PrioNormal

  /** The static handler functions a node can point at. */
  datatype Handler =
    | RequestDownloadHandler
    | TransferDataHandler
    | TransferExitHandler
    | SessionTimeoutHandler
    | RemoteFalHandler

  /** A service node (`RTT_UDS_SERVICE_NODE_INIT`). `context` identifies the
      service record the node is bound to, and with `name` the node itself. */
  datatype Node = Node(name: string, event: Event, handler: Handler, context: nat, priority: Priority)

  /** `rt_err_t` results of mounting: `RT_EOK` and `-RT_EINVAL`. */
  datatype RtErr = EOk | EInval

  /** `rtt_uds_service_register`: the node joins the end of the list. */
  function Register(nodes: seq<Node>, n: Node): (r: seq<Node>)
    ensures |r| == |nodes| + 1 && r[|nodes|] == n
    ensures forall i :: 0 <= i < |nodes| ==> r[i] == nodes[i]
  {
    nodes + [n]
  }

  /** `rtt_uds_service_unregister`: the node leaves the list; every other node
      stays, in the same order. */
  function Unregister(nodes: seq<Node>, n: Node): (r: seq<Node>)
    ensures n !in r
    ensures forall m :: m in r <==> m in nodes && m != n
    ensures |r| <= |nodes|
    decreases |nodes|
  {
    if |nodes| == 0 then []
    else if nodes[0] == n then Unregister(nodes[1..], n)
    else [nodes[0]] + Unregister(nodes[1..], n)
  }

  /** Unregistering a node that is not registered changes nothing. */
  lemma {:induction false} UnregisterAbsent(nodes: seq<Node>, n: Node)
    requires n !in nodes
    ensures Unregister(nodes, n) == nodes
    decreases |nodes|
  {
    if |nodes| > 0 {
      assert nodes[1..] + [] == nodes[1..];
      UnregisterAbsent(nodes[1..], n);
      assert [nodes[0]] + nodes[1..] == nodes;
    }
  }

  /** Unregistering works piecewise over a concatenation, so it keeps the
      relative order of the remaining nodes. */
  lemma {:induction false} UnregisterAppend(a: seq<Node>, b: seq<Node>, n: Node)
    ensures Unregister(a + b, n) == Unregister(a, n) + Unregister(b, n)
    decreases |a|
  {
    if |a| == 0 {
      assert a + b == b;
    } else {
      assert (a + b)[0] == a[0];
      assert (a + b)[1..] == a[1..] + b;
      UnregisterAppend(a[1..], b, n);
    }
  }

  /** Unregistering the first of some nodes appended after `env`, when it
      occurs nowhere else, leaves `env` and the nodes after it. */
  lemma UnregisterFirstAppended(env: seq<Node>, ns: seq<Node>)
    requires |ns| > 0 && ns[0] !in env && ns[0] !in ns[1..]
    ensures Unregister(env + ns, ns[0]) == env + ns[1..]
  {
    UnregisterAppend(env, ns, ns[0]);
    UnregisterAbsent(env, ns[0]);
    UnregisterAbsent(ns[1..], ns[0]);
  }

  /** Some node of the list is bound to `context`. */
  predicate BoundTo(nodes: seq<Node>, context: nat) {
    exists i :: 0 <= i < |nodes| && nodes[i].context == context
  }
}
