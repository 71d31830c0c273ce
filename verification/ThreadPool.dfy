/** `vthread_pool` itself: the fields the lock protects, and each critical section as a method that
    updates them in place as the step system says. */
module ThreadPools {
  import opened Basics
  import opened TaskRing
  import opened PoolSteps

  class ThreadPool {
    const taskList: TaskList
    var threads: array<ThreadState>
    var threadCount: nat
    var threadCapacity: nat
    var normalThreadsWorking: nat
    var infiniteThreadsWorking: nat

    ghost predicate Valid()
      reads this, taskList, taskList.items
    {
      && taskList.Valid()
      && threadCount <= threadCapacity == threads.Length && 0 < threadCapacity
      && normalThreadsWorking < U32 && infiniteThreadsWorking < U32
    }

    ghost function View(): Shared
      reads this, taskList, taskList.items, threads
      requires threadCount <= threads.Length
    {
      Shared(taskList.View(), threads[..threadCount], normalThreadsWorking, infiniteThreadsWorking)
    }

    constructor (numThreads: nat)
      requires 0 < numThreads
      ensures Valid() && fresh(taskList) && fresh(taskList.items) && fresh(threads)
      ensures View() == Initial(numThreads, [], false).sh
    {
      taskList := new TaskList(numThreads);
      threads := new ThreadState[numThreads](_ => Idle);
      threadCount, threadCapacity := numThreads, numThreads;
      normalThreadsWorking, infiniteThreadsWorking := 0, 0;
      new;
      assert threads[..numThreads] == Initial(numThreads, [], false).sh.states;
    }

    method IsAllThreadsInfinite() returns (all: bool)
      requires Valid()
      ensures all <==> AllInfinite(View().states)
    {
      var count := 0;
      for i := 0 to threadCount
        invariant count <= i
        invariant count == i <==> forall j :: 0 <= j < i ==> threads[j] == Infinite
      {
        if threads[i] == Infinite {
          count := count + 1;
        }
      }
      return count == threadCount;
    }

    /** `VThreadPool_AddThread`: the list of threads doubles when it is full. */
    method AddThread()
      requires Valid()
      modifies this
      modifies threads
      ensures Valid() && (threads == old(threads) || fresh(threads))
      ensures View() == old(View()).(states := old(View().states) + [Idle])
    {
      if threadCount >= threadCapacity {
        var more := new ThreadState[threadCapacity * 2](_ => Idle);
        forall i | 0 <= i < threadCapacity {
          more[i] := threads[i];
        }
        threads, threadCapacity := more, threadCapacity * 2;
      }
      threads[threadCount] := Idle;
      threadCount := threadCount + 1;
    }

    /** The section that opens a call of `AddTask`: false when the ring is full and the caller must wait. */
    method EnterEnqueue(task: Task) returns (queued: bool)
      requires Valid()
      modifies this, threads, taskList, taskList.items
      ensures Valid() && (threads == old(threads) || fresh(threads)) && taskList.items == old(taskList.items)
      ensures queued <==> old(taskList.count) < taskList.capacity
      ensures var sh := ThreadAdded(old(View()));
        View() == if queued then sh.(ring := Enqueued(sh.ring, task)) else sh
    {
      var all := IsAllThreadsInfinite();
      if all {
        AddThread();
      }
      queued := RetryEnqueue(task);
    }

    /** The wait loop's test, after each wake-up, and the enqueuing behind it. */
    method RetryEnqueue(task: Task) returns (queued: bool)
      requires Valid()
      modifies taskList, taskList.items
      ensures Valid() && taskList.items == old(taskList.items)
      ensures queued <==> old(taskList.count) < taskList.capacity
      ensures View() == if queued then old(View()).(ring := Enqueued(old(View().ring), task)) else old(View())
    {
      if taskList.count == taskList.capacity {
        return false;
      }
      taskList.Enqueue(task);
      return true;
    }

    /** One look at the ring by worker `w`: nothing when it must wait. */
    method TakeTask(w: nat) returns (task: Option<Task>)
      requires Valid() && w < threadCount
      modifies threads, taskList
      ensures Valid() && taskList.items == old(taskList.items) && View() == Taken(old(View()), w)
      ensures task == if old(taskList.count) == 0 then None else Some(old(Contents(taskList.View()))[0])
    {
      if taskList.count == 0 {
        threads[w] := Idle;
        return None;
      }
      DequeuedTakes(taskList.View());
      var t := taskList.Dequeue();
      return Some(t);
    }

    /** The state write outside of the lock. */
    method MarkThread(w: nat, task: Task)
      requires Valid() && w < threadCount
      modifies threads
      ensures Valid() && View() == old(View()).(states := old(View().states)[w := StateFor(task)])
    {
      threads[w] := Running;
      if task.attr == InfiniteProc {
        threads[w] := Infinite;
      }
    }

    method CountTask(task: Task)
      requires Valid()
      modifies this`normalThreadsWorking, this`infiniteThreadsWorking
      ensures Valid() && View() == Counted(old(View()), task)
    {
      if task.attr == InfiniteProc {
        infiniteThreadsWorking := (infiniteThreadsWorking + 1) % U32;
      } else {
        normalThreadsWorking := (normalThreadsWorking + 1) % U32;
      }
    }

    /** The section after a task has run. */
    method FinishTask(w: nat)
      requires Valid() && w < threadCount
      modifies threads, this`normalThreadsWorking
      ensures Valid() && View() == Finished(old(View()), w)
    {
      threads[w] := Idle;
      normalThreadsWorking := (normalThreadsWorking + U32 - 1) % U32;
    }

    /** Whether the last section of a round signals the waiter. */
    method AllDone() returns (signal: bool)
      requires Valid()
      ensures signal <==> View().normal == 0
    {
      return normalThreadsWorking == 0;
    }

    /** A worker runs a task, marked, counted in and counted out, with nobody in between. */
    method RunTask(w: nat, task: Task)
      requires Valid() && w < threadCount
      modifies this`normalThreadsWorking, this`infiniteThreadsWorking, threads
      ensures Valid()
      ensures var sh := old(View()).(states := old(View().states)[w := Idle]);
        View() == if task.attr == DefaultProc then sh
                  else sh.(normal := PoolSteps.Decremented(sh.normal), infinite := Incremented(sh.infinite))
    {
      ghost var sh := View();
      MarkThread(w, task);
      CountTask(task);
      FinishTask(w);
      CountedOutIff(sh, task, w);
    }

    /** One round of worker `w` that nobody interrupts, from its look at the ring to the section that may
        signal the waiter; nothing when the ring is empty. A default task leaves the counters as they
        were; an infinite one that returns leaves both wrong. */
    method ServeOnce(w: nat) returns (task: Option<Task>, signal: bool)
      requires Valid() && w < threadCount
      modifies this`normalThreadsWorking, this`infiniteThreadsWorking, threads, taskList
      ensures Valid() && taskList.items == old(taskList.items)
      ensures old(Contents(taskList.View())) == [] ==>
                task == None && !signal && View() == old(View()).(states := old(View().states)[w := Idle])
      ensures old(Contents(taskList.View())) != [] ==>
                && task == Some(old(Contents(taskList.View()))[0])
                && Contents(taskList.View()) == old(Contents(taskList.View()))[1..]
                && (signal <==> normalThreadsWorking == 0)
      ensures task.Some? && !Endless(task.value) ==>
                normalThreadsWorking == old(normalThreadsWorking)
                && infiniteThreadsWorking == old(infiniteThreadsWorking)
      ensures task.Some? ==>
                View().states == if task.value.hasProc then old(View().states)[w := Idle] else old(View().states)
    {
      if taskList.count > 0 {
        DequeuedTakes(taskList.View());
      }
      task := TakeTask(w);
      if task == None {
        return None, false;
      }
      if task.value.hasProc {
        RunTask(w, task.value);
      }
      signal := AllDone();
    }
  }
}
