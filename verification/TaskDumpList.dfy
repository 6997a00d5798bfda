/** the-drip-dry-carbonite/src/task-dump-list.c: a linked list with a tail pointer. */
module TaskDumpLists {
  import opened Basics

  datatype TaskDump = TaskDump(pid: int, uid: int, gid: int, state: string, comm: string, startTime: int)

  class TaskDumpNode {
    const taskDump: Option<TaskDump>   // None: the dump could not be allocated
    var next: TaskDumpNode?

    constructor (dump: Option<TaskDump>)
      ensures taskDump == dump && next == null
    {
      taskDump := dump;
      next := null;
    }
  }

  class TaskDumpList {
    var size: int
    var head: TaskDumpNode?
    var tail: TaskDumpNode?

    ghost var nodes: seq<TaskDumpNode>   // the nodes in list order

    /** The chain from `head` visits each node once and ends at `tail`. */
    ghost predicate Valid()
      reads this, nodes
    {
      && size == |nodes|
      && (nodes == [] ==> head == null && tail == null)
      && (nodes != [] ==> head == nodes[0] && tail == nodes[|nodes| - 1] && nodes[|nodes| - 1].next == null)
      && (forall i :: 0 <= i < |nodes| - 1 ==> nodes[i].next == nodes[i + 1])
      && (forall i, j :: 0 <= i < j < |nodes| ==> nodes[i] != nodes[j])
    }

    ghost function Contents(): (s: seq<Option<TaskDump>>)
      reads `nodes
      ensures |s| == |nodes|
    {
      var ns := nodes;
      seq(|ns|, i requires 0 <= i < |ns| => ns[i].taskDump)
    }

    constructor ()
      ensures Valid() && nodes == [] && Contents() == []
    {
      size := 0;
      head := null;
      tail := null;
      nodes := [];
    }

    /** add_task_dump_to_list; `haveMemory` says whether there was memory for the node. */
    method Add(dump: Option<TaskDump>, haveMemory: bool) returns (ok: bool)
      requires Valid()
      modifies this, tail
      ensures Valid() && ok == haveMemory && (tail == old(tail) || fresh(tail))
      ensures !ok ==> nodes == old(nodes)
      ensures ok ==> |nodes| == |old(nodes)| + 1 && nodes[..|old(nodes)|] == old(nodes) && fresh(nodes[|old(nodes)|])
      ensures Contents() == old(Contents()) + if ok then [dump] else []
    {
      if !haveMemory {
        return false;
      }
      var node := new TaskDumpNode(dump);
      if head == null {
        head := node;
        tail := node;
      } else {
        tail.next := node;
        tail := node;
      }
      size := size + 1;
      nodes := nodes + [node];
      ok := true;
    }

    method GetSize() returns (n: int)
      requires Valid()
      ensures n == |Contents()|
    {
      n := size;
    }

    /** get_task_dump: the n-th appended dump, or NULL outside the list. */
    method GetTaskDump(n: int) returns (dump: Option<TaskDump>)
      requires Valid()
      ensures dump == if 0 <= n < |Contents()| then Contents()[n] else None
    {
      var node := head;
      if n > size {
        return None;
      }
      var left := n;
      ghost var k := 0;
      while left != 0 && node != null
        invariant 0 <= k <= |nodes| && left == n - k && (n >= 0 ==> left >= 0)
        invariant node == if k < |nodes| then nodes[k] else null
        decreases |nodes| - k
      {
        left := left - 1;
        node := node.next;
        k := k + 1;
      }
      if node != null {
        return node.taskDump;
      }
      dump := None;
    }

    /** destroy_task_dump_list: `freed` records the nodes in the order they are freed. */
    method Destroy() returns (ghost freed: seq<TaskDumpNode>)
      requires Valid()
      ensures freed == nodes
    {
      var toDelete := head;
      freed := [];
      while toDelete != null
        invariant |freed| <= |nodes| && freed == nodes[..|freed|]
        invariant toDelete == if |freed| < |nodes| then nodes[|freed|] else null
        decreases |nodes| - |freed|
      {
        ghost var temp := toDelete;
        toDelete := toDelete.next;
        freed := freed + [temp];
      }
    }
  }
}
