/** src/pktqueue.c: the queue as a value, and the linked list that implements it. */
module PacketQueue {
  import opened Bytes

  // ---------------------------------------------------------------- the queue as a value

  datatype Queue<T> = Queue(items: seq<T>, shutdown: bool, interrupted: bool)

  function Empty<T>(): Queue<T>
  {
    Queue([], false, false)
  }

  /** What the critical section of `pktqueue_pop` comes to. */
  datatype PopOutcome<+T> = Block | Null | Item(item: T)

  function Pushed<T>(q: Queue<T>, x: T): Queue<T>
  {
    q.(items := q.items + [x])
  }

  /** The wait condition holds: nothing queued and no reason to return. */
  predicate MustWait<T>(q: Queue<T>)
  {
    q.items == [] && !q.shutdown && !q.interrupted
  }

  function PopResult<T>(q: Queue<T>): PopOutcome<T>
  {
    if q.items != [] then Item(q.items[0])
    else if MustWait(q) then Block
    else Null
  }

  function Popped<T>(q: Queue<T>): Queue<T>
  {
    if q.items != [] then q.(items := q.items[1..]) else q
  }

  /** A packet comes out when there is one; NULL means empty with a signal pending; signals are left for the caller. */
  lemma PopMeaning<T>(q: Queue<T>)
    ensures match PopResult(q)
      case Item(x) =>
        q.items == [x] + Popped(q).items
        && Popped(q).shutdown == q.shutdown && Popped(q).interrupted == q.interrupted
      case Null => q.items == [] && (q.shutdown || q.interrupted) && Popped(q) == q
      case Block => q.items == [] && !q.shutdown && !q.interrupted && Popped(q) == q
  {
  }

  /** Pushing a whole sequence and popping as often gives it back in order. */
  function PushAll<T>(q: Queue<T>, xs: seq<T>): Queue<T>
    decreases |xs|
  {
    if xs == [] then q else PushAll(Pushed(q, xs[0]), xs[1..])
  }

  function PopMany<T>(q: Queue<T>, n: nat): (seq<T>, Queue<T>)
    requires n <= |q.items|
    decreases n
  {
    if n == 0 then ([], q)
    else
      var (xs, r) := PopMany(Popped(q), n - 1);
      ([q.items[0]] + xs, r)
  }

  lemma {:induction false} PushAllItems<T>(q: Queue<T>, xs: seq<T>)
    ensures PushAll(q, xs) == q.(items := q.items + xs)
    decreases |xs|
  {
    if xs == [] {
      assert q.items + [] == q.items;
    } else {
      PushAllItems(Pushed(q, xs[0]), xs[1..]);
      assert q.items + [xs[0]] + xs[1..] == q.items + xs;
    }
  }

  lemma {:induction false} PopManyItems<T>(q: Queue<T>, n: nat)
    requires n <= |q.items|
    ensures PopMany(q, n) == (q.items[..n], q.(items := q.items[n..]))
    decreases n
  {
    if n > 0 {
      PopManyItems(Popped(q), n - 1);
      assert q.items[..n] == [q.items[0]] + q.items[1..][..n - 1];
    } else {
      assert q.items[0..] == q.items;
    }
  }

  lemma FirstInFirstOut<T>(q: Queue<T>, xs: seq<T>)
    ensures |q.items| + |xs| <= |PushAll(q, xs).items|
    ensures PopMany(PushAll(q, xs), |q.items| + |xs|).0 == q.items + xs
  {
    PushAllItems(q, xs);
    PopManyItems(PushAll(q, xs), |q.items| + |xs|);
  }

  // ---------------------------------------------------------------- the linked list

  class Node<T> {
    var pkt: T
    var next: Node?<T>

    constructor (pkt: T)
      ensures this.pkt == pkt && this.next == null
    {
      this.pkt, this.next := pkt, null;
    }
  }

  class PacketQueue<T> {
    var head: Node?<T>
    var tail: Node?<T>
    var shutdown: bool
    var interrupted: bool
    /** The nodes from head to tail. */
    ghost var nodes: seq<Node<T>>

    /** head and tail are null together, the links run along `nodes` from head to tail, and no node occurs twice. */
    ghost predicate Valid()
      reads this, nodes
    {
      && (head == null <==> nodes == []) && (tail == null <==> nodes == [])
      && (nodes != [] ==> head == nodes[0] && tail == nodes[|nodes| - 1] && tail.next == null)
      && (forall i :: 0 <= i < |nodes| - 1 ==> nodes[i].next == nodes[i + 1])
      && (forall i, j :: 0 <= i < j < |nodes| ==> nodes[i] != nodes[j])
    }

    ghost function View(): (q: Queue<T>)
      reads this, nodes
    {
      Queue(Items(nodes), shutdown, interrupted)
    }

    static ghost function Items(nodes: seq<Node<T>>): (items: seq<T>)
      reads nodes
      ensures |items| == |nodes|
    {
      seq(|nodes|, i requires 0 <= i < |nodes| reads nodes => nodes[i].pkt)
    }

    /** `pktqueue_init`. */
    constructor ()
      ensures Valid() && View() == Empty() && nodes == []
    {
      head, tail, shutdown, interrupted, nodes := null, null, false, false, [];
    }

    /** `pktqueue_push`: fails, leaving the packet with the caller, only when the node cannot be allocated. */
    method Push(pkt: T, hasMemory: bool) returns (ok: bool)
      requires Valid()
      modifies this`head, this`tail, this`nodes, tail
      ensures Valid()
      ensures ok == hasMemory
      ensures View() == if ok then Pushed(old(View()), pkt) else old(View())
      ensures nodes == old(nodes) || (|nodes| == |old(nodes)| + 1 && old(nodes) <= nodes && fresh(nodes[|nodes| - 1]))
    {
      if !hasMemory {
        return false;
      }
      var node := new Node(pkt);
      if tail != null {
        tail.next := node;
        tail := node;
      } else {
        head := node;
        tail := node;
      }
      nodes := nodes + [node];
      return true;
    }

    /** The critical section of `pktqueue_pop`; `Block` means the caller waits on the condition variable and retries. */
    method Pop() returns (r: PopOutcome<T>, ghost freed: seq<Node<T>>)
      requires Valid()
      modifies this`head, this`tail, this`nodes
      ensures Valid()
      ensures r == PopResult(old(View())) && View() == Popped(old(View()))
      ensures old(nodes) == freed + nodes && |freed| == if r.Item? then 1 else 0
    {
      freed := [];
      if head == null && !shutdown && !interrupted {
        return Block, freed;
      }
      if shutdown && head == null {
        return Null, freed;
      }
      if head == null {
        return Null, freed;
      }
      assert |nodes| > 1 ==> nodes[0].next == nodes[1];
      var node := head;
      head := node.next;
      if head == null {
        tail := null;
      }
      freed, nodes := [node], nodes[1..];
      return Item(node.pkt), freed;
    }

    method SignalShutdown()
      requires Valid()
      modifies this`shutdown
      ensures Valid() && View() == old(View()).(shutdown := true)
    {
      shutdown := true;
    }

    method SignalInterrupt()
      requires Valid()
      modifies this`interrupted
      ensures Valid() && View() == old(View()).(interrupted := true)
    {
      interrupted := true;
    }

    /** `pktqueue_check_interrupt`: reads and clears the flag. */
    method CheckInterrupt() returns (was: bool)
      requires Valid()
      modifies this`interrupted
      ensures Valid() && was == old(interrupted) && View() == old(View()).(interrupted := false)
    {
      was := interrupted;
      interrupted := false;
    }

    /** `pktqueue_destroy`: frees every node and its packet, in order, each once. */
    method Destroy() returns (packets: seq<T>, ghost freed: seq<Node<T>>)
      requires Valid()
      modifies this`head, this`tail, this`nodes
      ensures packets == old(View()).items && freed == old(nodes)
      ensures forall i, j :: 0 <= i < j < |freed| ==> freed[i] != freed[j]
      ensures Valid() && View() == old(View()).(items := [])
    {
      var node := head;
      packets, freed := [], [];
      ghost var k := 0;
      while node != null
        invariant 0 <= k <= |nodes| && freed == nodes[..k]
        invariant node == if k < |nodes| then nodes[k] else null
        invariant packets == Items(nodes)[..k]
        decreases |nodes| - k
      {
        var next := node.next;
        packets, freed := packets + [node.pkt], freed + [node];
        k := k + 1;
        node := next;
      }
      head, tail, nodes := null, null, [];
    }
  }
}
