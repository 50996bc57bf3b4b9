/**
 The vocabulary shared by the screen and its rows: the `Task` record, the
 requests a row sends to the screen through its callback props, the answer to
 the removal confirmation, and the predicates the rest of the model states its
 contracts with.
 */
module Tasks {

  /** One to-do entry. `id` is a clock reading taken when the task was added. */
  datatype Task = Task(id: int, title: string, done: bool)

  datatype Option<+T> = None | Some(value: T)

  /** The callbacks a row invokes, each carrying the id of its task. */
  datatype Action =
    | Toggle(id: int)
    | Remove(id: int)
    | Edit(id: int, title: string)

  /** The two buttons of the removal dialog: "Não" and "Sim". */
  datatype Choice = No | Yes

  /** Some task of `tasks` carries exactly this title (case-sensitive). */
  predicate HasTitle(tasks: seq<Task>, title: string) {
    exists i :: 0 <= i < |tasks| && tasks[i].title == title
  }

  /** Some task of `tasks` carries this id. */
  predicate HasId(tasks: seq<Task>, id: int) {
    exists i :: 0 <= i < |tasks| && tasks[i].id == id
  }

  /** The set of ids present in `tasks`. */
  function Ids(tasks: seq<Task>): set<int> {
    set i | 0 <= i < |tasks| :: tasks[i].id
  }

  /** No two tasks share a title: the invariant the add flow enforces. */
  ghost predicate DistinctTitles(tasks: seq<Task>) {
    forall i, j :: 0 <= i < j < |tasks| ==> tasks[i].title != tasks[j].title
  }

  /** No two tasks share an id. */
  ghost predicate DistinctIds(tasks: seq<Task>) {
    forall i, j :: 0 <= i < j < |tasks| ==> tasks[i].id != tasks[j].id
  }

  /** The number of tasks carrying `id`. */
  function CountId(tasks: seq<Task>, id: int): nat {
    if tasks == [] then 0
    else (if tasks[0].id == id then 1 else 0) + CountId(tasks[1..], id)
  }

  /** `a` is `b` with some elements dropped and the rest kept in order. */
  ghost predicate IsSubsequence(a: seq<Task>, b: seq<Task>)
    decreases |b|
  {
    if a == [] then true
    else if b == [] then false
    else (a[0] == b[0] && IsSubsequence(a[1..], b[1..])) || IsSubsequence(a, b[1..])
  }

  /** No task carries `id` exactly when the count of `id` is zero. */
  lemma {:induction false} CountIdZero(tasks: seq<Task>, id: int)
    ensures CountId(tasks, id) == 0 <==> !HasId(tasks, id)
    ensures HasId(tasks, id) <==> id in Ids(tasks)
  {
    if tasks != [] {
      CountIdZero(tasks[1..], id);
      if tasks[0].id != id && HasId(tasks, id) {
        var i :| 0 <= i < |tasks| && tasks[i].id == id;
        assert tasks[1..][i - 1].id == id;
      }
      if HasId(tasks[1..], id) {
        var i :| 0 <= i < |tasks[1..]| && tasks[1..][i].id == id;
        assert tasks[i + 1].id == id;
      }
    }
  }
}
