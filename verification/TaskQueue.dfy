// The task queue inside the thread pool (d4np/concurrency/thread_pool.c): a singly-linked list with
// head and tail pointers, only touched under the pool's lock.  It refines the queue of tasks that
// the step system of the pool works on.
module TaskQueue {
  import opened ThreadPool

  class TaskNode {
    var next: TaskNode?
    const task: Task

    constructor (task: Task)
      ensures this.task == task && next == null
    {
      this.task := task;
      next := null;
    }
  }

  function Tasks(nodes: seq<TaskNode>): (ts: seq<Task>)
    ensures |ts| == |nodes|
  {
    seq(|nodes|, i requires 0 <= i < |nodes| => nodes[i].task)
  }

  // The node at position `i`, NULL past the end.
  function NodeAt(nodes: seq<TaskNode>, i: nat): TaskNode? {
    if i < |nodes| then nodes[i] else null
  }

  class TaskQueue {
    var qHead: TaskNode?
    var qTail: TaskNode?
    ghost var nodes: seq<TaskNode>

    ghost predicate Valid()
      reads this, nodes
    {
      && qHead == NodeAt(nodes, 0)
      && qTail == (if nodes == [] then null else nodes[|nodes| - 1])
      && (forall i, j :: 0 <= i < j < |nodes| ==> nodes[i] != nodes[j])
      && (forall i :: 0 <= i < |nodes| ==> nodes[i].next == NodeAt(nodes, i + 1))
    }

    constructor ()
      ensures Valid() && nodes == []
    {
      qHead, qTail := null, null;
      nodes := [];
    }

    // The locked section of submit: the effect `Enqueue` has on the queue.
    method Append(node: TaskNode)
      requires Valid() && node !in nodes && node.next == null
      modifies this, qTail
      ensures Valid() && nodes == old(nodes) + [node]
      ensures Tasks(nodes) == Tasks(old(nodes)) + [node.task]
    {
      if qTail != null {
        qTail.next := node;
      } else {
        qHead := node;
      }
      qTail := node;
      nodes := nodes + [node];
    }

    // The locked section of a worker: the effect `Claim` has on the queue, or NULL for `Exit`.
    method TakeFirst() returns (node: TaskNode?)
      requires Valid()
      modifies this
      ensures Valid()
      ensures node == null <==> old(nodes) == []
      ensures node == null ==> nodes == []
      ensures node != null ==> old(nodes) == [node] + nodes && Tasks(old(nodes)) == [node.task] + Tasks(nodes)
    {
      node := qHead;
      if node == null {
        return;
      }
      assert nodes[0].next == NodeAt(nodes, 1);
      qHead := node.next;
      if qHead == null {
        qTail := null;
      }
      ghost var rest := nodes[1..];
      forall i | 0 <= i < |rest|
        ensures rest[i].next == NodeAt(rest, i + 1)
      {
        assert nodes[i + 1].next == NodeAt(nodes, i + 2);
      }
      nodes := nodes[1..];
    }

    // The drain loop of destroy: visits, and would free, every remaining node.
    method DrainAll() returns (freed: seq<TaskNode>)
      requires Valid()
      modifies this
      ensures Valid() && nodes == [] && freed == old(nodes)
    {
      var node := qHead;
      freed := [];
      while node != null
        invariant |freed| <= |nodes| && freed == nodes[..|freed|]
        invariant node == NodeAt(nodes, |freed|)
        invariant Valid() && nodes == old(nodes)
        decreases |nodes| - |freed|
      {
        assert nodes[|freed|].next == NodeAt(nodes, |freed| + 1);
        var next := node.next;
        freed := freed + [node];
        node := next;
      }
      qHead, qTail := null, null;
      nodes := [];
    }
  }
}
