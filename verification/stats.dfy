/** The three counters of frontend/src/components/Stats.js, derived from the
    current list of tasks on every render. */
module Stats {
  import opened Tasks

  datatype Counts = Counts(total: nat, completed: nat, pending: int)

  /** `tasks.filter(task => task.completed)`: the completed tasks, in order. */
  function CompletedTasks(tasks: seq<Task>): (r: seq<Task>)
    ensures |r| <= |tasks|
    ensures forall t :: t in r ==> t in tasks && t.completed
    ensures forall t :: t in tasks && t.completed ==> t in r
  {
    if tasks == [] then []
    else if tasks[0].completed then [tasks[0]] + CompletedTasks(tasks[1..])
    else CompletedTasks(tasks[1..])
  }

  /** The counts `update` writes: total, completed, and pending as their difference. */
  function Update(tasks: seq<Task>): (c: Counts)
    ensures c.total == |tasks|
    ensures c.completed <= c.total
    ensures c.pending == c.total - c.completed && c.pending >= 0
    ensures c.completed == 0 <==> forall i :: 0 <= i < |tasks| ==> !tasks[i].completed
    ensures c.pending == 0 <==> forall i :: 0 <= i < |tasks| ==> tasks[i].completed
  {
    var total := |tasks|;
    var completed := |CompletedTasks(tasks)|;
    CountAllCompleted(tasks);
    Counts(total, completed, total - completed)
  }

  /** The completed count is the tasks' total exactly when every task is
      completed, and zero exactly when none is. */
  lemma {:induction false} CountAllCompleted(tasks: seq<Task>)
    ensures |CompletedTasks(tasks)| == |tasks| <==> forall i :: 0 <= i < |tasks| ==> tasks[i].completed
    ensures |CompletedTasks(tasks)| == 0 <==> forall i :: 0 <= i < |tasks| ==> !tasks[i].completed
  {
    if tasks != [] {
      CountAllCompleted(tasks[1..]);
      assert forall i :: 1 <= i < |tasks| ==> tasks[i] == tasks[1..][i - 1];
      if !tasks[0].completed {
        assert |CompletedTasks(tasks)| <= |tasks[1..]|;
      }
    }
  }

  lemma {:induction false} CompletedAppend(a: seq<Task>, b: seq<Task>)
    ensures CompletedTasks(a + b) == CompletedTasks(a) + CompletedTasks(b)
  {
    if a == [] {
      assert a + b == b;
    } else {
      assert (a + b)[1..] == a[1..] + b;
      CompletedAppend(a[1..], b);
    }
  }

  /** A list is the task at `j` together with the list without it. */
  lemma MultisetRemoveAt(b: seq<Task>, j: nat)
    requires j < |b|
    ensures multiset(b) == multiset(b[..j] + b[j + 1..]) + multiset{b[j]}
  {
    assert b == b[..j] + [b[j]] + b[j + 1..];
  }

  lemma CompletedRemoveAt(b: seq<Task>, j: nat)
    requires j < |b|
    ensures |CompletedTasks(b)| == |CompletedTasks(b[..j] + b[j + 1..])| + (if b[j].completed then 1 else 0)
  {
    assert b == b[..j] + ([b[j]] + b[j + 1..]);
    CompletedAppend(b[..j], [b[j]] + b[j + 1..]);
    CompletedAppend([b[j]], b[j + 1..]);
    CompletedAppend(b[..j], b[j + 1..]);
  }

  lemma {:induction false} CompletedCountPermutation(a: seq<Task>, b: seq<Task>)
    requires multiset(a) == multiset(b)
    ensures |CompletedTasks(a)| == |CompletedTasks(b)|
    decreases |a|
  {
    if a != [] {
      assert a[0] in multiset(b);
      var j :| 0 <= j < |b| && b[j] == a[0];
      var b' := b[..j] + b[j + 1..];
      RemoveMatching(a, b, j);
      CompletedCountPermutation(a[1..], b');
      CompletedRemoveAt(a, 0);
      CompletedRemoveAt(b, j);
      assert a[..0] + a[1..] == a[1..];
    } else {
      assert |b| == |multiset(b)| == 0;
    }
  }

  /** Taking the same task out of two permutations of each other leaves two
      permutations of each other. */
  lemma RemoveMatching(a: seq<Task>, b: seq<Task>, j: nat)
    requires a != [] && j < |b| && b[j] == a[0]
    requires multiset(a) == multiset(b)
    ensures multiset(a[1..]) == multiset(b[..j] + b[j + 1..])
  {
    MultisetHead(a);
    MultisetRemoveAt(b, j);
    Cancel(multiset(a[1..]), multiset(b[..j] + b[j + 1..]), a[0]);
  }

  /** All three counts depend only on which tasks there are, not on their
      order: any permutation of the list gives the same counts. */
  lemma UpdatePermutation(a: seq<Task>, b: seq<Task>)
    requires multiset(a) == multiset(b)
    ensures Update(a) == Update(b)
  {
    assert |a| == |multiset(a)| == |multiset(b)| == |b|;
    CompletedCountPermutation(a, b);
  }

  /** The positions of the completed tasks. */
  function CompletedIndices(tasks: seq<Task>): set<nat> {
    set i: nat | i < |tasks| && tasks[i].completed
  }

  /** The completed count is the number of positions holding a completed task. */
  lemma {:induction false} CompletedCountIsIndexCount(tasks: seq<Task>)
    ensures Update(tasks).completed == |CompletedIndices(tasks)|
    decreases |tasks|
  {
    if tasks != [] {
      var n := |tasks| - 1;
      var init, last := tasks[..n], tasks[n];
      assert tasks == init + [last];
      CompletedAppend(init, [last]);
      CompletedCountIsIndexCount(init);
      IndicesSnoc(init, last);
    }
  }

  /** Appending a task adds its position to the completed ones exactly when it
      is completed. */
  lemma IndicesSnoc(init: seq<Task>, last: Task)
    ensures |CompletedIndices(init + [last])|
            == |CompletedIndices(init)| + (if last.completed then 1 else 0)
  {
    var n := |init|;
    var ts := init + [last];
    var before := CompletedIndices(init);
    assert n !in before;
    forall i: nat | i < n ensures ts[i] == init[i] {}
    if last.completed {
      assert CompletedIndices(ts) == before + {n};
    } else {
      assert CompletedIndices(ts) == before;
    }
  }

  /** An empty list shows three zeros. */
  lemma UpdateEmpty()
    ensures Update([]) == Counts(0, 0, 0)
  {
  }
}
