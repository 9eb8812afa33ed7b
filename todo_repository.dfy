/** The in-memory store of Todos, a map from id to the stored object. */
module TodoRepository {
  import opened Wrappers
  import opened TodoModel

  /** A map whose values are all different objects has as many values as keys. */
  lemma {:induction false} ValuesOfInjective(m: map<string, Todo>)
    requires forall k, k' :: k in m && k' in m && m[k] == m[k'] ==> k == k'
    ensures |m.Values| == |m.Keys|
    decreases |m.Keys|
  {
    if m.Keys != {} {
      var k :| k in m.Keys;
      var rest := m - {k};
      assert rest.Keys == m.Keys - {k};
      assert rest.Values == m.Values - {m[k]} by {
        forall v ensures v in rest.Values <==> v in m.Values - {m[k]} {
          if v in rest.Values {
            var k' :| k' in rest && rest[k'] == v;
            assert m[k'] == v;
          }
          if v in m.Values - {m[k]} {
            var k' :| k' in m && m[k'] == v;
            assert k' in rest;
          }
        }
      }
      ValuesOfInjective(rest);
    }
  }

  class InMemoryTodoRepository {
    var store: map<string, Todo>

    constructor ()
      ensures store == map[]
    {
      store := map[];
    }

    /** Every stored Todo carries the id it is stored under. */
    ghost predicate Valid()
      reads this, store.Values
    {
      forall k :: k in store ==> store[k].id == Some(k)
    }

    /** The values of the stored Todos, by id. */
    ghost function Contents(): map<string, TodoValue>
      reads this, store.Values
    {
      map k | k in store :: store[k].Value()
    }

    /** Under `Valid`, different ids hold different objects. */
    lemma ValidIsInjective()
      requires Valid()
      ensures forall k, k' :: k in store && k' in store && store[k] == store[k'] ==> k == k'
    {
    }

    /** Changing the Todo stored under `id`, and no other stored Todo,
        changes `Contents` at `id` only. */
    twostate lemma ContentsAfterChangeAt(id: string)
      requires old(Valid()) && store == old(store) && id in store
      requires store[id].id == Some(id)
      requires forall k :: k in store && k != id ==> unchanged(store[k])
      ensures Valid()
      ensures Contents() == old(Contents())[id := store[id].Value()]
    {
    }

    function FindAll(): (r: set<Todo>)
      reads this
      ensures r == set k | k in store :: store[k]
    {
      store.Values
    }

    /** `findAll` yields one Todo per stored id. */
    lemma FindAllOnePerKey()
      requires Valid()
      ensures |FindAll()| == |store|
    {
      ValidIsInjective();
      ValuesOfInjective(store);
    }

    function FindById(id: string): (r: Option<Todo>)
      reads this
      ensures r.Some? <==> id in store
      ensures r.Some? ==> r.value == store[id]
    {
      if id in store then Some(store[id]) else None
    }

    /** Stores `todo` under its id, replacing what was there. The id must not
        be null. */
    method Save(todo: Todo) returns (r: Todo)
      requires todo.id.Some?
      modifies this
      ensures store == old(store)[todo.id.value := todo] && r == todo
      ensures FindById(todo.id.value) == Some(todo)
      ensures old(Valid()) ==> Valid()
    {
      store := store[todo.id.value := todo];
      r := todo;
    }

    /** Removes `id`; an absent id leaves the store as it was. */
    method DeleteById(id: string)
      modifies this
      ensures store == old(store) - {id}
      ensures id !in old(store) ==> store == old(store)
      ensures FindById(id) == None
      ensures old(Valid()) ==> Valid()
    {
      store := store - {id};
    }
  }
}
