/** The queue of tasks between the dispatcher and the workers, as the thread holding its
mutex sees it (`rena/external/queue/queue.c`, `rena/src/task_manager.c`). */
module TaskQueue {
  import opened Rings

  /** The room of `queue_internal`. */
  const QUEUE_SIZE: nat := 4096

  class Task {
    var fd: int
    const kind: int

    constructor (fd: int, kind: int)
      ensures this.fd == fd && this.kind == kind
    {
      this.fd, this.kind := fd, kind;
    }
  }

  class Queue {
    const buffer: array<Task?>
    var size: nat
    var in_: nat
    var out: nat

    ghost predicate Valid()
      reads this
    {
      && 0 < buffer.Length && out < buffer.Length && size <= buffer.Length
      && in_ == Slot(out, size, buffer.Length)
    }

    /** The queued tasks, oldest first. */
    ghost function Contents(): seq<Task?>
      requires Valid()
      reads this, buffer
    {
      Items(buffer[..], out, size)
    }

    constructor (capacity: nat)
      requires 0 < capacity
      ensures Valid() && fresh(buffer) && buffer.Length == capacity && Contents() == []
    {
      buffer := new Task?[capacity](_ => null);
      size, in_, out := 0, 0, 0;
    }

    /** The part after the wait for room. */
    method Enqueue(value: Task?)
      requires Valid() && size != buffer.Length
      modifies this`size, this`in_, buffer
      ensures Valid() && Contents() == old(Contents()) + [value]
    {
      Push(buffer[..], out, size, value);
      Next(out, size, buffer.Length);
      ghost var was := buffer[..];
      buffer[in_] := value;
      assert buffer[..] == was[in_ := value];
      size := size + 1;
      in_ := in_ + 1;
      in_ := in_ % buffer.Length;
    }

    /** The part after the wait for a task. */
    method Dequeue() returns (value: Task?)
      requires Valid() && size != 0
      modifies this`size, this`out
      ensures Valid() && old(Contents()) == [value] + Contents()
    {
      Drop(buffer[..], out, size, 1);
      SlotIsMod(out, 1, buffer.Length);
      assert Contents() == [Contents()[0]] + Contents()[1..];
      value := buffer[out];
      size := size - 1;
      out := out + 1;
      out := out % buffer.Length;
    }

    /** No queued task has the descriptor. */
    ghost predicate Without(fd: int)
      requires Valid()
      reads this, buffer, set t | t in Contents() && t != null :: t
    {
      forall t :: t in Contents() && t != null ==> t.fd != fd
    }

    /** Marks the queued tasks of a closed descriptor: exactly those, in place, unless the
    queue is full; every other task keeps its descriptor. A full ring has `in == out`, where
    the walk stops before it starts: none of the descriptor's tasks is left exactly when the
    queue had room, or held none of them. */
    method DropFd(fd: int)
      requires Valid()
      modifies (set t | t in Contents() && t != null :: t)`fd
      ensures Contents() == old(Contents())
      ensures size == old(size)
      ensures forall t :: t in Contents() && t != null ==>
        t.fd == if old(size) < buffer.Length && old(t.fd) == fd then -1 else old(t.fd)
      ensures fd != -1 ==> (Without(fd) <==> old(size) < buffer.Length || old(Without(fd)))
    {
      ghost var contents := Contents();
      ghost var i := 0;
      var pos := out;
      while pos != in_
        invariant i <= size && pos == Slot(out, i, buffer.Length)
        invariant i == 0 || size < buffer.Length
        invariant forall t :: t in contents && t != null ==>
          t.fd == if t in contents[..i] && old(t.fd) == fd then -1 else old(t.fd)
        decreases size - i
      {
        assert i < size < buffer.Length;
        var ptr := buffer[pos];
        assert ptr == contents[i];
        assert contents[..i + 1] == contents[..i] + [ptr];
        if ptr != null && ptr.fd == fd {
          ptr.fd := -1;
        }
        Next(out, i, buffer.Length);
        pos := (pos + 1) % buffer.Length;
        i := i + 1;
      }
      if size < buffer.Length {
        assert i == size;
        assert contents[..i] == contents;
      } else {
        assert contents[..i] == [];
      }
    }
  }

  /** The source's queue, filled with tasks for one descriptor: dropping them changes none. */
  method FullQueueKeepsTasks(fd: int) returns (q: Queue)
    requires fd != -1
    ensures fresh(q) && q.Valid() && |q.Contents()| == q.buffer.Length == QUEUE_SIZE
    ensures forall t :: t in q.Contents() ==> t != null && t.fd == fd
  {
    q := new Queue(QUEUE_SIZE);
    while q.size != QUEUE_SIZE
      invariant fresh(q) && fresh(q.buffer) && q.Valid() && q.buffer.Length == QUEUE_SIZE
      invariant forall t :: t in q.Contents() ==> t != null && fresh(t) && t.fd == fd
      decreases QUEUE_SIZE - q.size
    {
      var task := new Task(fd, 0);
      q.Enqueue(task);
    }
    q.DropFd(fd);
  }
}
