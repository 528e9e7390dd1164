/** The round-robin scheduler over a table of any number of task slots. */
module Task {
  import opened Bytes
  import opened Devices
  import P = Pmm

  // ----- the schedule as a value

  /** The saved stack pointers of the tasks and the task that runs. */
  datatype Tasks = Tasks(esps: seq<u32>, current: nat) {
    predicate Valid() {
      current < |esps|
    }
  }

  datatype Event = Tick(esp: u32) | Create(esp: u32)

  /** The next of n tasks in the circle. */
  function Next(c: nat, n: nat): (r: nat)
    requires c < n
    ensures r < n
  {
    if c + 1 == n then 0 else c + 1
  }

  /** A tick saves the running task's stack pointer and passes to the next task, unless there is only one. */
  function Ticked(s: Tasks, esp: u32): (r: Tasks)
    requires s.Valid()
    ensures r.Valid() && |r.esps| == |s.esps|
  {
    if |s.esps| <= 1 then s else Tasks(s.esps[s.current := esp], Next(s.current, |s.esps|))
  }

  /** The stack pointer that a tick resumes with. */
  function Resumed(s: Tasks, esp: u32): u32
    requires s.Valid()
  {
    if |s.esps| <= 1 then esp else Ticked(s, esp).esps[Ticked(s, esp).current]
  }

  /** The only task is not interrupted, and its stack pointer is not saved. */
  lemma OnlyTask(s: Tasks, esp: u32)
    requires s.Valid() && |s.esps| == 1
    ensures Ticked(s, esp) == s && Resumed(s, esp) == esp
  {
  }

  function Created(s: Tasks, esp: u32, slots: nat): (r: Tasks)
    requires s.Valid()
    ensures r.Valid()
  {
    if |s.esps| >= slots then s else s.(esps := s.esps + [esp])
  }

  function Happened(s: Tasks, e: Event, slots: nat): (r: Tasks)
    requires s.Valid()
    ensures r.Valid() && |s.esps| <= |r.esps|
  {
    match e
    case Tick(esp) => Ticked(s, esp)
    case Create(esp) => Created(s, esp, slots)
  }

  function Replay(s: Tasks, es: seq<Event>, slots: nat): (r: Tasks)
    requires s.Valid()
    ensures r.Valid() && |s.esps| <= |r.esps|
    decreases |es|
  {
    if es == [] then s else Replay(Happened(s, es[0], slots), es[1..], slots)
  }

  function AfterTicks(s: Tasks, esps: seq<u32>): (r: Tasks)
    requires s.Valid()
    ensures r.Valid() && |r.esps| == |s.esps|
    decreases |esps|
  {
    if esps == [] then s else AfterTicks(Ticked(s, esps[0]), esps[1..])
  }

  // ----- fairness

  lemma {:induction false} AtLeastOnce(n: nat, d: nat)
    requires d > 0
    ensures n * d >= n
  {
    if d > 1 {
      AtLeastOnce(n, d - 1);
    }
  }

  lemma NoMultipleBetween(n: nat, d: int)
    requires d != 0
    ensures n * d >= n || n * d + n <= 0
  {
    AtLeastOnce(n, if d > 0 then d else -d);
  }

  lemma ModUnique(x: int, n: nat, q: int, r: int)
    requires n > 0 && x == n * q + r && 0 <= r < n
    ensures x % n == r
  {
    var p, m := x / n, x % n;
    assert x == n * p + m;
    assert n * (q - p) == n * q - n * p;
    if q != p {
      NoMultipleBetween(n, q - p);
    }
  }

  /** The next task in the circle is the next number modulo n. */
  lemma NextModulo(m: nat, n: nat)
    requires n > 0
    ensures (m + 1) % n == Next(m % n, n)
  {
    var q, r := m / n, m % n;
    assert m == n * q + r;
    if r + 1 < n {
      ModUnique(m + 1, n, q, r + 1);
    } else {
      assert m + 1 == n * (q + 1);
      ModUnique(m + 1, n, q + 1, 0);
    }
  }

  lemma {:induction false} AfterTicksSplit(s: Tasks, init: seq<u32>, last: u32)
    requires s.Valid()
    ensures AfterTicks(s, init + [last]) == Ticked(AfterTicks(s, init), last)
    decreases |init|
  {
    if init == [] {
      assert AfterTicks(s, [last]) == AfterTicks(Ticked(s, last), []);
      assert init + [last] == [last];
    } else {
      assert (init + [last])[1..] == init[1..] + [last];
      AfterTicksSplit(Ticked(s, init[0]), init[1..], last);
    }
  }

  /** After any number of ticks, with any number of tasks, the turn has gone round the circle that often. */
  lemma {:induction false} CurrentAfterTicks(s: Tasks, esps: seq<u32>)
    requires s.Valid()
    ensures AfterTicks(s, esps).current == (s.current + |esps|) % |s.esps|
    decreases |esps|
  {
    if esps == [] {
      ModUnique(s.current, |s.esps|, 0, s.current);
    } else {
      var init, last := esps[..|esps| - 1], esps[|esps| - 1];
      CurrentAfterTicks(s, init);
      AfterTicksSplit(s, init, last);
      assert init + [last] == esps;
      NextModulo(s.current + |init|, |s.esps|);
      TickPasses(AfterTicks(s, init), last);
    }
  }

  lemma TickPasses(s: Tasks, esp: u32)
    requires s.Valid()
    ensures Ticked(s, esp).current == Next(s.current, |s.esps|)
  {
  }

  lemma CurrentInRound(s: Tasks, esps: seq<u32>)
    requires s.Valid() && |esps| <= |s.esps|
    ensures AfterTicks(s, esps).current
      == if s.current + |esps| < |s.esps| then s.current + |esps| else s.current + |esps| - |s.esps|
  {
    var n, m := |s.esps|, s.current + |esps|;
    CurrentAfterTicks(s, esps);
    if m < n {
      ModUnique(m, n, 0, m);
    } else {
      ModUnique(m, n, 1, m - n);
    }
  }

  /** In as many consecutive ticks as there are tasks, every task gets the processor exactly once. */
  lemma EveryTaskRunsOnce(s: Tasks, esps: seq<u32>, t: nat)
    requires s.Valid() && |esps| == |s.esps| && t < |s.esps|
    ensures exists k :: 1 <= k <= |esps| && AfterTicks(s, esps[..k]).current == t
    ensures forall j, k :: 1 <= j < k <= |esps| && AfterTicks(s, esps[..j]).current == t ==>
      AfterTicks(s, esps[..k]).current != t
  {
    var n, c := |s.esps|, s.current;
    forall k | 1 <= k <= n
      ensures AfterTicks(s, esps[..k]).current == if c + k < n then c + k else c + k - n
    {
      CurrentInRound(s, esps[..k]);
    }
    var k := if t > c then t - c else t - c + n;
    assert AfterTicks(s, esps[..k]).current == t;
  }

  // ----- every task goes on where it stopped

  /** The task t is not preempted in the run. */
  predicate Waits(s: Tasks, es: seq<Event>, slots: nat, t: nat)
    requires s.Valid()
    decreases |es|
  {
    es == [] || ((es[0].Tick? ==> s.current != t) && Waits(Happened(s, es[0], slots), es[1..], slots, t))
  }

  /** While a task waits its saved stack pointer stays, whatever ticks and creations happen. */
  lemma {:induction false} SavedWhileWaiting(s: Tasks, es: seq<Event>, slots: nat, t: nat)
    requires s.Valid() && t < |s.esps| && Waits(s, es, slots, t)
    ensures Replay(s, es, slots).esps[t] == s.esps[t]
    decreases |es|
  {
    if es != [] {
      SavedWhileWaiting(Happened(s, es[0], slots), es[1..], slots, t);
    }
  }

  /** A task that is preempted with a stack pointer, then waits through any events, and is passed to by a tick,
      resumes with exactly that stack pointer. */
  lemma ResumesWhereItStopped(s: Tasks, esp: u32, es: seq<Event>, last: u32, slots: nat)
    requires s.Valid() && |s.esps| > 1
    requires Waits(Ticked(s, esp), es, slots, s.current)
    requires var r := Replay(Ticked(s, esp), es, slots); r.current != s.current && Ticked(r, last).current == s.current
    ensures Resumed(Replay(Ticked(s, esp), es, slots), last) == esp
  {
    SavedWhileWaiting(Ticked(s, esp), es, slots, s.current);
  }

  /** A task that was created with a stack pointer starts with exactly that one. */
  lemma StartsWhereItWasCreated(s: Tasks, esp: u32, es: seq<Event>, last: u32, slots: nat)
    requires s.Valid() && |s.esps| < slots
    requires Waits(Created(s, esp, slots), es, slots, |s.esps|)
    requires var r := Replay(Created(s, esp, slots), es, slots);
      r.current != |s.esps| && |r.esps| > 1 && Ticked(r, last).current == |s.esps|
    ensures Resumed(Replay(Created(s, esp, slots), es, slots), last) == esp
  {
    SavedWhileWaiting(Created(s, esp, slots), es, slots, |s.esps|);
  }

  // ----- the stack of a new task

  /** Eleven words are pushed to the end of the frame at this address. */
  function StackTop(address: nat): nat {
    address + P.FRAME_SIZE - 44
  }

  /** The frame that a new task gets, at address 0 if none is free. */
  ghost function FrameFor(taken: set<P.frame>): nat {
    var f := P.LowestFree(taken, 0);
    if f == P.FRAMES then 0 else P.Address(f)
  }

  /** Its stack pointer stays inside the frame that was free before and is taken then. */
  lemma StackIsInItsFrame(taken: set<P.frame>)
    requires exists f: P.frame :: f !in taken
    ensures P.LowestFree(taken, 0) < P.FRAMES && P.LowestFree(taken, 0) !in taken
    ensures P.TakenAfter(taken, P.Alloc) == taken + {P.LowestFree(taken, 0)}
    ensures FrameFor(taken) == P.Address(P.LowestFree(taken, 0))
    ensures StackTop(FrameFor(taken)) == FrameFor(taken) + 4052 && FrameFor(taken) + 4096 <= 0x100_0000
  {
  }

  // ----- the stacks of all tasks

  /** The tasks, the frames that are outstanding, and the frame of each task that was created while one was free. */
  datatype System = System(tasks: Tasks, outstanding: set<P.frame>, stacks: map<nat, P.frame>)

  /** A tick, a creation, or a call of the allocator by the rest of the kernel. */
  datatype Action = Preempt(esp: u32) | Spawn | Use(op: P.Operation)

  /** A creation takes a frame exactly if a slot is left, and with address 0 if no frame is free. */
  ghost function Spawned(s: System, slots: nat): System
    requires s.tasks.Valid()
  {
    if |s.tasks.esps| >= slots then s
    else
      var f := P.LowestFree(P.Reserved() + s.outstanding, 0);
      System(Created(s.tasks, StackTop(FrameFor(P.Reserved() + s.outstanding)), slots),
             P.After(s.outstanding, P.Alloc),
             if f == P.FRAMES then s.stacks else s.stacks[|s.tasks.esps| := f])
  }

  ghost function Acted(s: System, e: Action, slots: nat): (r: System)
    requires s.tasks.Valid()
    ensures r.tasks.Valid()
  {
    match e
    case Preempt(esp) => s.(tasks := Ticked(s.tasks, esp))
    case Spawn => Spawned(s, slots)
    case Use(op) => s.(outstanding := P.After(s.outstanding, op))
  }

  /** Every stack is an outstanding frame that the kernel does not occupy, and no two tasks have the same. */
  ghost predicate Separate(s: System) {
    && s.tasks.Valid() && s.outstanding !! P.Reserved()
    && (forall t :: t in s.stacks ==> t < |s.tasks.esps| && s.stacks[t] in s.outstanding)
    && (forall t, u :: t in s.stacks && u in s.stacks && t != u ==> s.stacks[t] != s.stacks[u])
  }

  /** The rest of the kernel frees only frames that are outstanding, and no stack. */
  ghost predicate Orderly(s: System, e: Action) {
    e.Use? && e.op.Free? ==> e.op.frame in s.outstanding && e.op.frame !in s.stacks.Values
  }

  lemma ActionKeeps(s: System, e: Action, slots: nat)
    requires Separate(s) && Orderly(s, e)
    ensures Separate(Acted(s, e, slots))
    ensures forall t :: t in s.stacks ==> t in Acted(s, e, slots).stacks && Acted(s, e, slots).stacks[t] == s.stacks[t]
  {
  }

  ghost predicate AllOrderly(s: System, es: seq<Action>, slots: nat)
    requires s.tasks.Valid()
    decreases |es|
  {
    es == [] || (Orderly(s, es[0]) && AllOrderly(Acted(s, es[0], slots), es[1..], slots))
  }

  ghost function Course(s: System, es: seq<Action>, slots: nat): (r: System)
    requires s.tasks.Valid()
    ensures r.tasks.Valid()
    decreases |es|
  {
    if es == [] then s else Course(Acted(s, es[0], slots), es[1..], slots)
  }

  lemma {:induction false} CourseKeeps(s: System, es: seq<Action>, slots: nat)
    requires Separate(s) && AllOrderly(s, es, slots)
    ensures Separate(Course(s, es, slots))
    decreases |es|
  {
    if es != [] {
      ActionKeeps(s, es[0], slots);
      CourseKeeps(Acted(s, es[0], slots), es[1..], slots);
    }
  }

  /** Over every orderly run of ticks, creations, allocations and frees: the stacks of any two tasks that were created
      while a frame was free do not overlap, and lie outside the kernel's frames and below 16 MiB. */
  lemma StacksAreDisjoint(s: System, es: seq<Action>, slots: nat, t: nat, u: nat)
    requires Separate(s) && AllOrderly(s, es, slots)
    requires var r := Course(s, es, slots); t in r.stacks && u in r.stacks && t != u
    ensures var r := Course(s, es, slots);
      var a, b := P.Address(r.stacks[t]), P.Address(r.stacks[u]);
      && r.stacks[t] !in P.Reserved() && 0x10_0000 <= a && a + 4096 <= 0x100_0000
      && (a + 4096 <= b || b + 4096 <= a)
  {
    CourseKeeps(s, es, slots);
    var r := Course(s, es, slots);
    P.FramesAreDisjoint(r.outstanding, r.stacks[t], r.stacks[u]);
  }

  /** The stack pointer that a creation stores lies eleven words below the end of the frame that it records. */
  lemma SpawnedStack(s: System, slots: nat)
    requires Separate(s) && |s.tasks.esps| < slots && P.LowestFree(P.Reserved() + s.outstanding, 0) != P.FRAMES
    ensures var r, id := Spawned(s, slots), |s.tasks.esps|;
      && id in r.stacks && |r.tasks.esps| == id + 1
      && r.tasks.esps[id] == 4096 * r.stacks[id] as int + 4052
  {
  }

  // ----- the code

  function FullMessage(): message {
    Ascii("Error: Max of tasks reached.\n")
  }

  datatype Pcb = Pcb(esp: u32, id: int, active: int)

  function Esps(s: seq<Pcb>): seq<u32> {
    seq(|s|, i requires 0 <= i < |s| => s[i].esp)
  }

  class Scheduler {
    const tasks: array<Pcb>
    const frames: P.Allocator
    const console: Console
    var currentTask: int
    var taskCount: int

    constructor (slots: nat, frames: P.Allocator, console: Console)
      ensures tasks.Length == slots && fresh(tasks) && this.frames == frames && this.console == console
    {
      tasks := new Pcb[slots];
      this.frames, this.console := frames, console;
      currentTask, taskCount := 0, 0;
    }

    /** The active slots are exactly the first taskCount ones. */
    predicate Valid()
      reads this, tasks
    {
      && 1 <= taskCount <= tasks.Length && 0 <= currentTask < taskCount
      && forall i :: 0 <= i < tasks.Length ==> (tasks[i].active != 0 <==> i < taskCount)
    }

    function View(): (s: Tasks)
      requires Valid()
      reads this, tasks
    {
      Tasks(Esps(tasks[..taskCount]), currentTask)
    }

    /** With no slot at all the table update would be out of bounds. */
    method InitMultitasking()
      requires tasks.Length > 0
      modifies this, tasks
      ensures Valid() && View() == Tasks([old(tasks[0].esp)], 0)
    {
      for i := 0 to tasks.Length
        invariant forall j :: 0 <= j < i ==> tasks[j] == old(tasks[j]).(active := 0)
        invariant forall j :: i <= j < tasks.Length ==> tasks[j] == old(tasks[j])
      {
        tasks[i] := tasks[i].(active := 0);
      }
      tasks[0] := tasks[0].(id := 0, active := 1);
      taskCount := 1;
      currentTask := 0;
    }

    method Schedule(currentEsp: u32) returns (esp: u32)
      requires Valid()
      modifies this`currentTask, tasks
      ensures Valid() && View() == Ticked(old(View()), currentEsp)
      ensures esp == Resumed(old(View()), currentEsp)
    {
      if taskCount <= 1 {
        return currentEsp;
      }
      tasks[currentTask] := tasks[currentTask].(esp := currentEsp);
      NextActive();
      esp := tasks[currentTask].esp;
    }

    /** The inner loop ends at the next task in the circle. */
    method NextActive()
      requires Valid()
      modifies this`currentTask
      ensures Valid() && currentTask == Next(old(currentTask), taskCount)
    {
      ghost var start := currentTask;
      currentTask := currentTask + 1;
      if currentTask >= tasks.Length {
        currentTask := 0;
      }
      while tasks[currentTask].active == 0
        invariant start + 1 <= currentTask < tasks.Length || currentTask == 0
        invariant start + 1 < taskCount ==> currentTask == start + 1
        invariant start + 1 == taskCount ==> currentTask == 0 || currentTask >= taskCount
        decreases if currentTask == 0 then 0 else tasks.Length - currentTask
      {
        currentTask := currentTask + 1;
        if currentTask >= tasks.Length {
          currentTask := 0;
        }
      }
    }

    /** create_task, without the contents of the stack. */
    method CreateTask()
      requires Valid() && frames.memoryBitmap.Length == P.WORDS
      modifies this`taskCount, tasks, frames.memoryBitmap, console
      ensures Valid()
      ensures old(taskCount) >= tasks.Length ==>
        && View() == old(View()) && frames.TakenSet() == old(frames.TakenSet())
        && console.out == old(console.out) + [Ascii("Error: Max of tasks reached.\n")]
      ensures old(taskCount) < tasks.Length ==>
        && View() == Created(old(View()), StackTop(FrameFor(old(frames.TakenSet()))), tasks.Length)
        && frames.TakenSet() == P.TakenAfter(old(frames.TakenSet()), P.Alloc)
        && console.out == old(console.out)
    {
      if taskCount >= tasks.Length {
        console.Print(FullMessage());
        return;
      }
      var address := frames.AllocFrame();
      AddTask(StackTop(address));
    }

    /** Its update of the table. */
    method AddTask(stack: u32)
      requires Valid() && taskCount < tasks.Length
      modifies this`taskCount, tasks
      ensures Valid() && View() == Created(old(View()), stack, tasks.Length)
    {
      var id := taskCount;
      tasks[id] := Pcb(stack, id, 1);
      taskCount := taskCount + 1;
    }
  }
}
