/**
 * The buffer of tasks (`TaskAssigner.java`): a first-in first-out queue of tasks
 * shared by every assigner, and the hand-over of its head to an idle
 * vehicle. The static `buffer` is the state of one `TaskAssigner` object;
 * the iteration order of the vehicle map, which Java leaves to the hash
 * map, is a parameter.
 */
module TaskAssigners {
  import opened Wrappers
  import opened Tasks
  import opened Vehicles

  /** `buffer.poll()`: the head of the queue and what is left, or no task
      and the empty queue. */
  function Poll(q: seq<Task>): (r: (Option<Task>, seq<Task>))
    ensures r.0.None? <==> q == []
    ensures r.0.Some? ==> q == [r.0.value] + r.1
    ensures r.0.None? ==> r.1 == []
  {
    if q == [] then (None, []) else (Some(q[0]), q[1..])
  }

  /** The tasks successive polls return until the queue is empty. */
  function Drained(q: seq<Task>): seq<Task>
    decreases |q|
  {
    match Poll(q)
    case (None, _) => []
    case (Some(t), rest) => [t] + Drained(rest)
  }

  /** Tasks leave the queue in the order they entered it. */
  lemma {:induction false} DrainedInOrder(q: seq<Task>)
    ensures Drained(q) == q
    decreases |q|
  {
    if q != [] {
      DrainedInOrder(q[1..]);
    }
  }

  /** A task added behind others is polled only after all of them. */
  lemma AddedLast(q: seq<Task>, t: Task)
    ensures Drained(q + [t]) == Drained(q) + [t]
  {
    DrainedInOrder(q + [t]);
    DrainedInOrder(q);
  }

  /** The position in `order` of the first vehicle that is not moving, or
      `|order|` when all of them move. */
  function FirstIdle(evMap: map<string, EV>, order: seq<string>): (i: nat)
    requires forall k :: k in order ==> k in evMap
    reads evMap.Values
    ensures i <= |order|
    ensures forall j :: 0 <= j < i ==> evMap[order[j]].moving
    ensures i < |order| ==> !evMap[order[i]].moving
  {
    if order == [] then 0
    else if !evMap[order[0]].moving then 0
    else 1 + FirstIdle(evMap, order[1..])
  }

  /** `order` lists every key of `evMap` once: an iteration order of the
      map. */
  ghost predicate Enumerates(evMap: map<string, EV>, order: seq<string>)
  {
    (forall k :: k in order <==> k in evMap) &&
    (forall i, j :: 0 <= i < j < |order| ==> order[i] != order[j])
  }

  /** Some vehicle is idle exactly when the scan finds one. */
  lemma IdleFound(evMap: map<string, EV>, order: seq<string>)
    requires Enumerates(evMap, order)
    ensures FirstIdle(evMap, order) < |order| <==> exists k :: k in evMap && !evMap[k].moving
  {
    if k :| k in evMap && !evMap[k].moving {
      var i :| 0 <= i < |order| && order[i] == k;
      assert FirstIdle(evMap, order) <= i;
    }
  }

  class TaskAssigner {
    /** The static `buffer`, head first. */
    var buffer: seq<Task>

    /** `new TaskAssigner()`: the shared buffer starts empty. */
    constructor ()
      ensures buffer == []
    {
      buffer := [];
    }

    /** `getInstance()`: as `instance` is never assigned, every call runs the
        constructor again, which empties the shared buffer. */
    method GetInstance()
      modifies this`buffer
      ensures buffer == []
    {
      buffer := [];
    }

    /** `assignTask()`: poll the buffer. */
    method AssignTask() returns (task: Option<Task>)
      modifies this`buffer
      ensures (task, buffer) == Poll(old(buffer))
    {
      if buffer == [] {
        return None;
      }
      task := Some(buffer[0]);
      buffer := buffer[1..];
    }

    /** `giveTask(evMap)`: the first vehicle of the iteration that is not
        moving receives the polled task (none when the buffer is empty) and
        starts moving; when every vehicle moves nothing changes. */
    method GiveTask(evMap: map<string, EV>, order: seq<string>)
      requires Enumerates(evMap, order)
      modifies this`buffer, evMap.Values`task, evMap.Values`moving
      ensures var i := old(FirstIdle(evMap, order));
        if i == |order| then
          buffer == old(buffer) && forall e :: e in evMap.Values ==> e.task == old(e.task) && e.moving == old(e.moving)
        else
          var ev, polled := evMap[order[i]], Poll(old(buffer));
          && (ev.task, buffer) == polled && ev.moving
          && forall e :: e in evMap.Values && e != ev ==> e.task == old(e.task) && e.moving == old(e.moving)
    {
      var i := 0;
      while i < |order|
        invariant 0 <= i <= |order|
        invariant forall j :: 0 <= j < i ==> evMap[order[j]].moving
        invariant i <= FirstIdle(evMap, order)
      {
        var ev := evMap[order[i]];
        if !ev.moving {
          var task := AssignTask();
          ev.task := task;
          ev.moving := true;
          return;
        }
        i := i + 1;
      }
    }

    /** `addTask(string_task, start_x, end_x, start_y, end_y, evMap)`: the
        new task, whose fields take the arguments of the same names, joins
        the tail of the buffer, and `giveTask` runs. */
    method AddTask(name: string, startX: int, endX: int, startY: int, endY: int,
                   evMap: map<string, EV>, order: seq<string>)
      requires Enumerates(evMap, order)
      modifies this`buffer, evMap.Values`task, evMap.Values`moving
      ensures var queued := old(buffer) + [Task(name, startX, startY, endX, endY)];
        var i := old(FirstIdle(evMap, order));
        if i == |order| then
          buffer == queued && forall e :: e in evMap.Values ==> e.task == old(e.task) && e.moving == old(e.moving)
        else
          var ev := evMap[order[i]];
          && (ev.task, buffer) == Poll(queued) && ev.moving
          && forall e :: e in evMap.Values && e != ev ==> e.task == old(e.task) && e.moving == old(e.moving)
    {
      buffer := buffer + [Task(name, startX, startY, endX, endY)];
      GiveTask(evMap, order);
    }
  }
}
