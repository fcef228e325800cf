// Whose turn it is: find_running_thread of src/multitasking/thread.c.

module Scheduling {
  const MAX_THREADS: nat := 1024
  const MAX_PROCESSES: nat := 1024
  const NO_THREAD: nat := 0xFFFF_FFFF

  datatype State = Free | Alloced | Running | Sleeping | Ended | Ending | Error

  datatype Thread = Thread(state: State, pid: nat)

  // Both tables, as they are at one call.
  datatype Tables = Tables(threads: seq<Thread>, processes: seq<State>)

  predicate TablesOk(t: Tables) {
    && |t.threads| == MAX_THREADS && |t.processes| == MAX_PROCESSES
    && forall i | 0 <= i < MAX_THREADS :: t.threads[i].pid < MAX_PROCESSES
  }

  predicate Runnable(t: Tables, i: nat)
    requires TablesOk(t) && i < MAX_THREADS
  {
    t.threads[i].state == Running && t.processes[t.threads[i].pid] == Running
  }

  // How many steps after place c place i comes up: from 1 to MAX_THREADS.
  function Steps(c: nat, i: nat): (n: nat)
    requires c < MAX_THREADS && i < MAX_THREADS
    ensures 1 <= n <= MAX_THREADS
  {
    if c < i then i - c else i + MAX_THREADS - c
  }

  // The thread whose turn it is when c had the last one.
  predicate IsNext(t: Tables, c: nat, i: nat)
    requires TablesOk(t) && c < MAX_THREADS
  {
    if i == NO_THREAD then
      forall j | 0 <= j < MAX_THREADS :: !Runnable(t, j)
    else
      && i < MAX_THREADS && Runnable(t, i)
      && forall j | 0 <= j < MAX_THREADS && Runnable(t, j) :: Steps(c, i) <= Steps(c, j)
  }

  // In plain fields: a running thread of a running process, and the first one behind place c, or
  // nothing, and then there is none.
  lemma NextPlainly(t: Tables, c: nat, i: nat)
    requires TablesOk(t) && c < MAX_THREADS && IsNext(t, c, i)
    ensures i != 0xFFFF_FFFF ==>
      i < 1024 && t.threads[i].state == Running && t.processes[t.threads[i].pid] == Running
    ensures forall j | 0 <= j < 1024 && t.threads[j].state == Running && t.processes[t.threads[j].pid] == Running ::
              i != 0xFFFF_FFFF && !(if c < i then c < j < i else c < j || j < i)
  {
    forall j | 0 <= j < 1024 && t.threads[j].state == Running && t.processes[t.threads[j].pid] == Running
      ensures i != 0xFFFF_FFFF && !(if c < i then c < j < i else c < j || j < i)
    {
      assert Runnable(t, j);
    }
  }

  // Who had the last turn.
  function LastTurn(c: nat, picked: seq<nat>): nat {
    if picked == [] then c
    else if picked[|picked| - 1] == NO_THREAD then LastTurn(c, picked[..|picked| - 1])
    else picked[|picked| - 1]
  }

  function After(c: nat, tid: nat): nat {
    if tid == NO_THREAD then c else tid
  }

  // The results of calls on tables that change from one call to the next.
  ghost predicate Schedule(worlds: seq<Tables>, c: nat, picked: seq<nat>) {
    && |picked| == |worlds| && c < MAX_THREADS
    && (worlds != [] ==>
         && TablesOk(worlds[0]) && IsNext(worlds[0], c, picked[0])
         && Schedule(worlds[1..], After(c, picked[0]), picked[1..]))
  }

  lemma {:induction false} LastTurnOfRest(c: nat, picked: seq<nat>)
    requires picked != []
    ensures LastTurn(c, picked) == LastTurn(After(c, picked[0]), picked[1..])
  {
    var n := |picked| - 1;
    if n > 0 {
      LastTurnOfRest(c, picked[..n]);
      assert picked[1..][..n - 1] == picked[..n][1..];
    }
  }

  lemma {:induction false} ScheduleMore(worlds: seq<Tables>, c: nat, picked: seq<nat>, t: Tables, tid: nat)
    requires Schedule(worlds, c, picked) && TablesOk(t)
    requires LastTurn(c, picked) < MAX_THREADS && IsNext(t, LastTurn(c, picked), tid)
    ensures Schedule(worlds + [t], c, picked + [tid])
    ensures LastTurn(c, picked + [tid]) == After(LastTurn(c, picked), tid)
  {
    assert (picked + [tid])[..|picked|] == picked;
    if worlds == [] {
      assert (worlds + [t])[1..] == [] && (picked + [tid])[1..] == [];
      assert Schedule([], After(c, tid), []);
    } else {
      assert (worlds + [t])[1..] == worlds[1..] + [t] && (picked + [tid])[1..] == picked[1..] + [tid];
      LastTurnOfRest(c, picked);
      ScheduleMore(worlds[1..], After(c, picked[0]), picked[1..], t, tid);
    }
  }

  class Scheduler {
    var threads: array<Thread>
    var processes: array<State>
    var lastFound: nat

    ghost predicate Valid()
      reads this, threads, processes
    {
      TablesOk(Tables(threads[..], processes[..])) && lastFound < MAX_THREADS
    }

    constructor (tables: Tables)
      requires TablesOk(tables)
      ensures Valid() && lastFound == MAX_THREADS - 1 && fresh(threads) && fresh(processes)
    {
      threads := new Thread[MAX_THREADS](i requires 0 <= i < MAX_THREADS => tables.threads[i]);
      processes := new State[MAX_PROCESSES](i requires 0 <= i < MAX_PROCESSES => tables.processes[i]);
      lastFound := MAX_THREADS - 1;
      new;
      assert threads[..] == tables.threads && processes[..] == tables.processes;
    }

    // The loop of find_running_thread.
    method Search() returns (tid: nat)
      requires Valid()
      modifies this`lastFound
      ensures Valid() && IsNext(Tables(threads[..], processes[..]), old(lastFound), tid)
      ensures lastFound == if tid == NO_THREAD then old(lastFound) else tid
    {
      ghost var t := Tables(threads[..], processes[..]);
      var i: nat := lastFound;
      ghost var n: nat := 0;
      while true
        invariant i < MAX_THREADS && n < MAX_THREADS
        invariant if n == 0 then i == lastFound else n == Steps(lastFound, i)
        invariant forall j | 0 <= j < MAX_THREADS && Steps(lastFound, j) <= n :: !Runnable(t, j)
        decreases MAX_THREADS - n
      {
        i := (i + 1) % MAX_THREADS;
        n := n + 1;
        assert forall j | 0 <= j < MAX_THREADS && j != i :: Steps(lastFound, j) != Steps(lastFound, i);
        if threads[i].state == Running {
          if processes[threads[i].pid] == Running {
            lastFound := i;
            return i;
          }
        }
        if i == lastFound {
          break;
        }
      }
      return NO_THREAD;
    }

    // find_running_thread
    method FindRunningThread() returns (tid: nat)
      requires Valid()
      modifies this`lastFound
      ensures Valid() && IsNext(Tables(threads[..], processes[..]), old(lastFound), tid)
      ensures lastFound == if tid == NO_THREAD then old(lastFound) else tid
      ensures tid != 0xFFFF_FFFF ==>
        && tid < 1024 && threads[tid].state == Running
        && threads[tid].pid < processes.Length && processes[threads[tid].pid] == Running
      ensures forall j | 0 <= j < 1024 && threads[j].state == Running && threads[j].pid < processes.Length ::
                processes[threads[j].pid] == Running ==>
                  && tid != 0xFFFF_FFFF
                  && !(if old(lastFound) < tid then old(lastFound) < j < tid else old(lastFound) < j || j < tid)
    {
      hide IsNext;
      ghost var t, c := Tables(threads[..], processes[..]), lastFound;
      tid := Search();
      NextPlainly(t, c, tid);
      assert forall j | 0 <= j < 1024 :: t.threads[j] == threads[j];
      assert forall j | 0 <= j < 1024 :: t.processes[j] == processes[j];
    }

    method SetTables(t: Tables)
      requires Valid() && TablesOk(t)
      modifies threads, processes
      ensures Valid() && threads[..] == t.threads && processes[..] == t.processes
    {
      forall i | 0 <= i < MAX_THREADS {
        threads[i] := t.threads[i];
      }
      forall i | 0 <= i < MAX_PROCESSES {
        processes[i] := t.processes[i];
      }
      assert threads[..] == t.threads && processes[..] == t.processes;
    }

    // One call after another, with anything at all done to the tables before each of them.
    method Rounds(worlds: seq<Tables>) returns (picked: seq<nat>)
      requires Valid()
      requires forall k | 0 <= k < |worlds| :: TablesOk(worlds[k])
      modifies this`lastFound, threads, processes
      ensures Valid() && Schedule(worlds, old(lastFound), picked)
    {
      hide IsNext;
      picked := [];
      var k: nat := 0;
      while k < |worlds|
        invariant k <= |worlds| && Valid()
        invariant Schedule(worlds[..k], old(lastFound), picked) && lastFound == LastTurn(old(lastFound), picked)
      {
        SetTables(worlds[k]);
        var tid := FindRunningThread();
        ScheduleMore(worlds[..k], old(lastFound), picked, worlds[k], tid);
        assert worlds[..k + 1] == worlds[..k] + [worlds[k]];
        picked := picked + [tid];
        k := k + 1;
      }
      assert worlds[..k] == worlds;
    }
  }

  // A thread that stays runnable has its turn within the steps that it is away, which are
  // MAX_THREADS at most, and until then nobody has a turn twice.
  lemma {:induction false} BoundedWaiting(worlds: seq<Tables>, c: nat, picked: seq<nat>, i: nat) returns (k: nat)
    requires Schedule(worlds, c, picked) && i < MAX_THREADS && Steps(c, i) <= |worlds|
    requires forall j | 0 <= j < |worlds| ::
               && TablesOk(worlds[j]) && worlds[j].threads[i].state == Running
               && worlds[j].processes[worlds[j].threads[i].pid] == Running
    ensures k < Steps(c, i) == (if c < i then i - c else i + 1024 - c) <= 1024 && picked[k] == i
    ensures forall a, b | 0 <= a < b <= k :: picked[a] != picked[b]
    ensures forall b | 0 <= b <= k :: picked[b] < MAX_THREADS && Steps(c, picked[b]) <= Steps(c, i)
  {
    assert Runnable(worlds[0], i);
    var p := picked[0];
    if p == i {
      return 0;
    }
    var rest := BoundedWaiting(worlds[1..], p, picked[1..], i);
    k := rest + 1;
    forall b | 1 <= b <= k
      ensures picked[b] < MAX_THREADS && Steps(c, picked[b]) == Steps(c, p) + Steps(p, picked[b]) <= Steps(c, i)
    {
      assert picked[b] == picked[1..][b - 1];
    }
    forall a, b | 0 <= a < b <= k ensures picked[a] != picked[b] {
      if 0 < a {
        assert picked[a] == picked[1..][a - 1] && picked[b] == picked[1..][b - 1];
      }
    }
  }
}
