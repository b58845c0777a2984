/** The request queue shared by the server's main loop and its workers: a
    singly linked list with `front`, `rear` and `count` (appserver.h). The
    ghost `Nodes` lists the nodes from front to rear and `Contents` their
    payloads; `Valid` ties both to the three real fields and to the links. */
module RequestQueue {

  /** struct timeval */
  datatype Timeval = Timeval(sec: int, usec: nat)

  /** The payload of one request: the command line, its arrival time and its ID. */
  datatype Entry = Entry(command: string, timeStart: Timeval, requestId: int)

  /** Size of the buffer `push` copies the command into (`strncpy(..., 1024)`). */
  const CommandCapacity: nat := 1024

  /** struct request: a payload fixed at allocation and the link to the next node. */
  class Node {
    const entry: Entry
    var next: Node?

    constructor (e: Entry)
      ensures entry == e && next == null
    {
      entry := e;
      next := null;
    }
  }

  /** struct queue */
  class Queue {
    var count: int
    var front: Node?
    var rear: Node?

    ghost var Nodes: seq<Node>
    ghost var Contents: seq<Entry>
    ghost var Repr: set<object>

    ghost predicate Valid()
      reads this, Repr
    {
      this in Repr && Linked()
    }

    /** The nodes are distinct, in `Repr`, linked front to rear, and carry
        `Contents`; `count`, `front` and `rear` agree with them. */
    ghost predicate Linked()
      reads this, Repr
    {
      && (forall i :: 0 <= i < |Nodes| ==> Nodes[i] in Repr)
      && count == |Nodes| == |Contents|
      && (count == 0 ==> front == null && rear == null)
      && (count > 0 ==> front == Nodes[0] && rear == Nodes[count - 1] && rear.next == null)
      && (forall i :: 0 <= i < count - 1 ==> Nodes[i].next == Nodes[i + 1])
      && (forall i :: 0 <= i < count ==> Nodes[i].entry == Contents[i])
      && (forall i, j :: 0 <= i < j < count ==> Nodes[i] != Nodes[j])
    }

    /** queueInit: no node, both ends NULL, count 0. */
    constructor ()
      ensures Valid() && fresh(Repr)
      ensures Contents == [] && count == 0 && front == null && rear == null
    {
      front := null;
      rear := null;
      count := 0;
      Nodes := [];
      Contents := [];
      Repr := {this};
    }

    /** push(cmd, requestId): a new node carrying `cmd`, `requestId` and the
        arrival time `now` is linked in after the rear. */
    method Push(cmd: string, requestId: int, now: Timeval)
      requires Valid()
      requires |cmd| < CommandCapacity
      modifies Repr
      ensures Valid() && fresh(Repr - old(Repr))
      ensures Contents == old(Contents) + [Entry(cmd, now, requestId)]
      ensures count == old(count) + 1
    {
      var toAdd := new Node(Entry(cmd, now, requestId));
      if count > 0 {
        rear.next := toAdd;
        rear := toAdd;
        count := count + 1;
      } else {
        front := toAdd;
        rear := toAdd;
        count := 1;
      }
      Nodes := Nodes + [toAdd];
      Contents := Contents + [toAdd.entry];
      Repr := Repr + {toAdd};
    }

    /** pop(): on a non-empty queue, unlinks the front node and returns a copy of
        its payload; on an empty one returns a request whose command is NULL
        (here `None`) and leaves the queue as it was. */
    method Pop() returns (r: Option)
      requires Valid()
      modifies this
      ensures Valid() && Repr <= old(Repr)
      ensures old(count) > 0 ==>
        && r == Some(old(Contents)[0])
        && Contents == old(Contents)[1..]
        && count == old(count) - 1
        && front == old(front).next
        && (count == 0 ==> rear == null)
        && (count > 0 ==> rear == old(rear))
      ensures old(count) <= 0 ==>
        r == None && front == old(front) && rear == old(rear) && count == old(count) && Contents == old(Contents)
    {
      if count > 0 {
        assert count > 1 ==> front.next == Nodes[1];
        var temp := front;
        r := Some(front.entry);
        front := front.next;
        if front == null {
          rear := null;
        }
        count := count - 1;
        Nodes := Nodes[1..];
        Contents := Contents[1..];
        Repr := Repr - {temp};
      } else {
        r := None;
      }
    }

    /** The worker's test `q->front != NULL`. */
    method HasFront() returns (b: bool)
      requires Valid()
      ensures b <==> Contents != []
    {
      b := front != null;
    }
  }

  /** What `pop` hands back: `None` stands for the request whose command is NULL. */
  datatype Option = None | Some(value: Entry)
}
