/** The one entity of the application, the task row, shared by the backend table
    and the browser's list, with the by-id lookups both sides perform. */
module Tasks {

  datatype Option<+T> = None | Some(value: T)

  /** A row of the `tasks` table and the JSON object the API exchanges:
      `id` is the serial key, `createdAt` the insertion timestamp (an abstract
      clock reading). */
  datatype Task = Task(id: int, title: string, completed: bool, createdAt: nat)

  /** No two tasks share an id. */
  predicate DistinctIds(ts: seq<Task>) {
    forall i, j :: 0 <= i < j < |ts| ==> ts[i].id != ts[j].id
  }

  predicate HasId(ts: seq<Task>, id: int) {
    exists i :: 0 <= i < |ts| && ts[i].id == id
  }

  /** The index of the first task carrying `id`, as `Array.prototype.find` and a
      keyed SQL lookup see it; `None` exactly when no task carries it. */
  function FirstIndexOf(ts: seq<Task>, id: int): (r: Option<nat>)
    ensures r.None? <==> !HasId(ts, id)
    ensures r.Some? ==> r.value < |ts| && ts[r.value].id == id
    ensures r.Some? ==> forall j :: 0 <= j < r.value ==> ts[j].id != id
  {
    if ts == [] then None
    else if ts[0].id == id then Some(0)
    else
      match FirstIndexOf(ts[1..], id)
      case None => None
      case Some(k) => Some(k + 1)
  }

  /** `ts.filter(t => t.id !== id)` and `DELETE ... WHERE id = $1`: the tasks
      not carrying `id`, in their original order. */
  function WithoutId(ts: seq<Task>, id: int): (r: seq<Task>)
    ensures |r| <= |ts|
    ensures !HasId(r, id)
    ensures forall t :: t in r ==> t in ts
    ensures forall t :: t in ts && t.id != id ==> t in r
    ensures HasId(ts, id) ==> |r| < |ts|
    ensures !HasId(ts, id) ==> r == ts
  {
    if ts == [] then []
    else if ts[0].id == id then WithoutId(ts[1..], id)
    else [ts[0]] + WithoutId(ts[1..], id)
  }

  /** Filtering distributes over concatenation, so the kept tasks stay in order. */
  lemma {:induction false} WithoutIdAppend(a: seq<Task>, b: seq<Task>, id: int)
    ensures WithoutId(a + b, id) == WithoutId(a, id) + WithoutId(b, id)
  {
    if a == [] {
      assert a + b == b;
    } else {
      assert (a + b)[1..] == a[1..] + b;
      WithoutIdAppend(a[1..], b, id);
    }
  }

  /** Removing the task at the first index of `id` from a list where ids are
      distinct is the same as filtering `id` out. */
  lemma WithoutIdOfUnique(ts: seq<Task>, id: int, k: nat)
    requires k < |ts| && ts[k].id == id
    requires DistinctIds(ts)
    ensures WithoutId(ts, id) == ts[..k] + ts[k + 1..]
  {
    var before, rest := ts[..k], ts[k + 1..];
    OnlyAt(ts, id, k);
    assert ts == before + ([ts[k]] + rest);
    WithoutIdAppend(before, [ts[k]] + rest, id);
    WithoutIdAppend([ts[k]], rest, id);
    assert WithoutId([ts[k]], id) == [];
  }

  /** With distinct ids, the task at `k` is the only one carrying its id. */
  lemma OnlyAt(ts: seq<Task>, id: int, k: nat)
    requires k < |ts| && ts[k].id == id
    requires DistinctIds(ts)
    ensures !HasId(ts[..k], id) && !HasId(ts[k + 1..], id)
  {
    var before, rest := ts[..k], ts[k + 1..];
    forall i | 0 <= i < |before| ensures before[i].id != id {
      assert before[i] == ts[i];
    }
    forall i | 0 <= i < |rest| ensures rest[i].id != id {
      assert rest[i] == ts[k + 1 + i];
    }
  }

  /** Filtering keeps ids distinct. */
  lemma {:induction false} WithoutIdDistinct(ts: seq<Task>, id: int)
    requires DistinctIds(ts)
    ensures DistinctIds(WithoutId(ts, id))
  {
    if ts != [] {
      var rest := ts[1..];
      assert DistinctIds(rest) by {
        forall i, j | 0 <= i < j < |rest| ensures rest[i].id != rest[j].id {
          assert rest[i] == ts[i + 1] && rest[j] == ts[j + 1];
        }
      }
      WithoutIdDistinct(rest, id);
      if ts[0].id != id {
        var r := WithoutId(rest, id);
        forall t | t in r ensures t.id != ts[0].id {
          var k :| 0 <= k < |rest| && rest[k] == t;
          assert ts[k + 1] == t;
        }
        assert WithoutId(ts, id) == [ts[0]] + r;
      }
    }
  }

  /** A list is its head together with its tail. */
  lemma MultisetHead(ts: seq<Task>)
    requires ts != []
    ensures multiset(ts) == multiset(ts[1..]) + multiset{ts[0]}
  {
    assert ts == [ts[0]] + ts[1..];
  }

  /** The same task taken from two equal multisets leaves equal multisets. */
  lemma Cancel(x: multiset<Task>, y: multiset<Task>, t: Task)
    requires x + multiset{t} == y + multiset{t}
    ensures x == y
  {
    forall u ensures x[u] == y[u] {
      assert (x + multiset{t})[u] == (y + multiset{t})[u];
    }
  }
}
