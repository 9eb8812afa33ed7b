/** Create, partial update and delete over the repository. The random id and
    the current time are parameters. */
module TodoService {
  import opened Wrappers
  import opened TodoModel
  import opened TodoRepository

  /** What `update` does to a Todo: a non-null argument replaces its field. */
  function Patched(v: TodoValue, title: Option<string>, completed: Option<bool>): TodoValue
  {
    v.(title := if title.Some? then title else v.title,
       completed := completed.GetOr(v.completed))
  }

  /** An update keeps the id and the creation time, keeps a field whose
      argument is null and sets a field whose argument is not. */
  lemma PatchedFields(v: TodoValue, title: Option<string>, completed: Option<bool>)
    ensures Patched(v, title, completed).id == v.id
    ensures Patched(v, title, completed).createdAt == v.createdAt
    ensures title.None? ==> Patched(v, title, completed).title == v.title
    ensures title.Some? ==> Patched(v, title, completed).title == title
    ensures completed.None? ==> Patched(v, title, completed).completed == v.completed
    ensures completed.Some? ==> Patched(v, title, completed).completed == completed.value
  {
  }

  /** Repeating an update changes nothing more. */
  lemma PatchedIdempotent(v: TodoValue, title: Option<string>, completed: Option<bool>)
    ensures Patched(Patched(v, title, completed), title, completed) == Patched(v, title, completed)
  {
  }

  class TodoService {
    const repo: InMemoryTodoRepository

    constructor (repo: InMemoryTodoRepository)
      ensures this.repo == repo
    {
      this.repo := repo;
    }

    ghost predicate Valid()
      reads this, repo, repo.store.Values
    {
      repo.Valid()
    }

    function GetAll(): (r: set<Todo>)
      reads this, repo
      ensures r == set k | k in repo.store :: repo.store[k]
    {
      repo.FindAll()
    }

    /** Stores a new Todo under `id`, created at `now`, not completed unless
        `completed` says so. */
    method Create(title: Option<string>, completed: Option<bool>, id: string, now: Instant) returns (t: Todo)
      modifies repo
      ensures fresh(t)
      ensures t.Value() == TodoValue(Some(id), title, completed.GetOr(false), Some(now))
      ensures repo.store == old(repo.store)[id := t]
      ensures id !in old(repo.store) ==> |repo.store| == old(|repo.store|) + 1
      ensures old(Valid()) ==> Valid()
      ensures old(Valid()) ==> repo.Contents() == old(repo.Contents())[id := t.Value()]
    {
      var done := completed.GetOr(false);
      var todo := new Todo(Some(id), title, done, Some(now));
      t := repo.Save(todo);
    }

    /** Applies the non-null arguments to the Todo stored under `id`, if any. */
    method Update(id: string, title: Option<string>, completed: Option<bool>) returns (r: Option<Todo>)
      requires Valid()
      modifies repo, repo.store.Values
      ensures Valid()
      ensures repo.store == old(repo.store)
      ensures id !in old(repo.store) ==> r == None && repo.Contents() == old(repo.Contents())
      ensures id in old(repo.store) ==>
        r == Some(old(repo.store)[id]) &&
        repo.Contents() == old(repo.Contents())[id := Patched(old(repo.Contents())[id], title, completed)]
    {
      var existing := repo.FindById(id);
      if existing.None? {
        return None;
      }
      var t := existing.value;
      repo.ValidIsInjective();
      if title.Some? {
        t.SetTitle(title);
      }
      if completed.Some? {
        t.SetCompleted(completed.value);
      }
      repo.ContentsAfterChangeAt(id);
      ghost var patched := repo.Contents();
      var _ := repo.Save(t);
      assert repo.store == old(repo.store);
      assert repo.Contents() == patched;
      r := Some(t);
    }

    /** Removes the Todo stored under `id`; reports whether there was one. */
    method Delete(id: string) returns (found: bool)
      modifies repo
      ensures found <==> id in old(repo.store)
      ensures repo.store == old(repo.store) - {id}
      ensures !found ==> repo.store == old(repo.store)
      ensures old(Valid()) ==> Valid()
      ensures old(Valid()) ==> repo.Contents() == old(repo.Contents()) - {id}
    {
      var existing := repo.FindById(id);
      if existing.None? {
        return false;
      }
      repo.DeleteById(id);
      return true;
    }
  }
}
