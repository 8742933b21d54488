/** The queue of received packets: a linked list with its first task, its last task and its
    length. */
module TaskQueue {
  import opened Bytes

  /** What a task says. */
  datatype Packet = Packet(bytes: seq<byte>, taskType: nat, vfmType: nat)

  class Task {
    const data: array<byte>
    const taskType: nat
    const vfmType: nat
    var next: Task?

    constructor (data: array<byte>, taskType: nat, vfmType: nat)
      ensures this.data == data && this.taskType == taskType && this.vfmType == vfmType
      ensures next == null
    {
      this.data, this.taskType, this.vfmType, next := data, taskType, vfmType, null;
    }

    ghost function Value(): Packet
      reads data
    {
      Packet(data[..], taskType, vfmType)
    }
  }

  class Queue {
    var first: Task?
    var last: Task?
    var num: int
    ghost var tasks: seq<Task>

    ghost predicate Valid()
      reads this, tasks
    {
      && num == |tasks|
      && (|tasks| == 0 ==> first == null && last == null)
      && (|tasks| > 0 ==> first == tasks[0] && last == tasks[|tasks| - 1] && last.next == null)
      && (forall i, j :: 0 <= i < j < |tasks| ==> tasks[i] != tasks[j])
      && (forall i :: 0 <= i < |tasks| - 1 ==> tasks[i].next == tasks[i + 1])
    }

    ghost function Contents(): (r: seq<Packet>)
      reads this, set t | t in tasks :: t.data
    {
      seq(|tasks|, i requires 0 <= i < |tasks| reads this, set t | t in tasks :: t.data => tasks[i].Value())
    }

    constructor ()
      ensures Valid() && Contents() == []
    {
      first, last, num, tasks := null, null, 0, [];
    }

    /** The packet is copied, so the caller may use its buffer again. */
    method AddTask(data: array<byte>, size: nat, taskType: nat, vfmType: nat)
      requires Valid() && size <= data.Length
      modifies this, last
      ensures Valid()
      ensures Contents() == old(Contents()) + [Packet(data[..size], taskType, vfmType)]
      ensures |tasks| == |old(tasks)| + 1 && tasks[..|old(tasks)|] == old(tasks)
      ensures fresh(tasks[|old(tasks)|]) && fresh(tasks[|old(tasks)|].data)
    {
      var copy := new byte[size](i requires 0 <= i < size reads data => data[i]);
      assert copy[..] == data[..size];
      var task := new Task(copy, taskType, vfmType);
      if first == null {
        first := task;
      } else {
        last.next := task;
      }
      last := task;
      tasks := tasks + [task];
      num := num + 1;
    }

    /** One look at the queue: the oldest task, or null when the thread has to wait and look
        again. */
    method GetTask() returns (task: Task?)
      requires Valid()
      modifies this
      ensures Valid()
      ensures task == null <==> old(tasks) == []
      ensures task == null ==> tasks == [] && Contents() == []
      ensures task != null ==> [task.Value()] + Contents() == old(Contents()) && [task] + tasks == old(tasks)
    {
      if num == 0 {
        return null;
      }
      task := first;
      if first != null && first.next != null {
        first := first.next;
      } else {
        last := null;
        first := null;
      }
      tasks := tasks[1..];
      num := num - 1;
      ghost var was := old(Contents());
      assert Contents() == was[1..];
    }
  }
}
