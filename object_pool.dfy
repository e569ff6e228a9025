/** The generic object pool: a first-in first-out queue of inactive objects ready for reuse,
    and the list of objects currently in the game. */
module ObjectPools {

  /** A pooled component; `active` is the `activeSelf` flag of its game object. */
  class Component {
    var active: bool

    /** An instance of the prefab, as the factory makes it. */
    constructor ()
    {
      active := false;
    }
  }

  /** `List.Remove`: the list without the first occurrence of `x`, unchanged when `x` does not
      occur. */
  function RemoveFirst<T(==)>(s: seq<T>, x: T): seq<T>
  {
    if s == [] then []
    else if s[0] == x then s[1..]
    else [s[0]] + RemoveFirst(s[1..], x)
  }

  /** The position of the first occurrence of `x`. */
  function IndexOf<T(==)>(s: seq<T>, x: T): (i: nat)
    requires x in s
    ensures i < |s| && s[i] == x && x !in s[..i]
  {
    if s[0] == x then 0
    else
      var i := IndexOf(s[1..], x);
      assert s[..i + 1] == [s[0]] + s[1..][..i];
      i + 1
  }

  /** `RemoveFirst` cuts out exactly the first occurrence and keeps everything else in order. */
  lemma {:induction false} RemoveFirstCutsFirst<T>(s: seq<T>, x: T)
    ensures x !in s ==> RemoveFirst(s, x) == s
    ensures x in s ==> RemoveFirst(s, x) == s[..IndexOf(s, x)] + s[IndexOf(s, x) + 1..]
  {
    if s != [] && s[0] != x {
      RemoveFirstCutsFirst(s[1..], x);
      if x in s {
        var i := IndexOf(s[1..], x);
        assert s[..i + 1] == [s[0]] + s[1..][..i];
        assert s[i + 2..] == s[1..][i + 1..];
      } else {
        assert s == [s[0]] + s[1..];
      }
    }
  }

  /** `RemoveFirst` takes one `x` away from the contents when there is one, and nothing else. */
  lemma {:induction false} RemoveFirstCount<T>(s: seq<T>, x: T)
    ensures x in s ==> multiset(RemoveFirst(s, x)) == multiset(s) - multiset{x}
    ensures x !in s ==> multiset(RemoveFirst(s, x)) == multiset(s)
    ensures |RemoveFirst(s, x)| == if x in s then |s| - 1 else |s|
  {
    if s != [] {
      assert s == [s[0]] + s[1..];
      if s[0] != x {
        RemoveFirstCount(s[1..], x);
      }
    }
  }

  /** The pool's two collections, as values. */
  datatype Contents = Contents(available: seq<Component>, inGame: seq<Component>)

  /** What `Get` leaves when it reuses an object: the front of the queue moves to the back of
      the list. */
  function Reused(p: Contents): (q: Contents)
    requires p.available != []
  {
    Contents(p.available[1..], p.inGame + [p.available[0]])
  }

  /** What `Get` leaves when the queue is empty and `obj` is newly made. */
  function Created(p: Contents, obj: Component): (q: Contents)
  {
    Contents(p.available, p.inGame + [obj])
  }

  /** What `Return(obj)` leaves: `obj` leaves the list and joins the back of the queue. */
  function Returned(p: Contents, obj: Component): (q: Contents)
  {
    Contents(p.available + [obj], RemoveFirst(p.inGame, obj))
  }

  /** Every object the pool holds, counted with multiplicity. */
  function Held(p: Contents): multiset<Component> {
    multiset(p.available) + multiset(p.inGame)
  }

  /** Reusing an object moves it without losing or duplicating anything, and the list grows by
      exactly one. */
  lemma ReuseKeepsHeld(p: Contents)
    requires p.available != []
    ensures Held(Reused(p)) == Held(p)
    ensures |Reused(p).inGame| == |p.inGame| + 1 && |Reused(p).available| == |p.available| - 1
  {
    assert p.available == [p.available[0]] + p.available[1..];
  }

  /** Returning an object that is in the game moves it without losing or duplicating anything;
      returning one that is not adds it to the pool. */
  lemma ReturnKeepsHeld(p: Contents, obj: Component)
    ensures obj in p.inGame ==> Held(Returned(p, obj)) == Held(p)
    ensures obj !in p.inGame ==> Held(Returned(p, obj)) == Held(p) + multiset{obj}
  {
    RemoveFirstCount(p.inGame, obj);
  }

  /** Returned to an empty queue, an object is the one the next `Get` hands out, and it ends
      up at the back of the list. */
  lemma ReturnThenGet(p: Contents, obj: Component)
    requires p.available == []
    ensures Returned(p, obj).available != [] && Returned(p, obj).available[0] == obj
    ensures Reused(Returned(p, obj)) == Contents([], RemoveFirst(p.inGame, obj) + [obj])
  {
  }

  /** The queue is first-in first-out: objects returned one after another come back by `Get`
      in the order they were returned. */
  lemma {:induction false} ReturnsComeBackInOrder(p: Contents, objs: seq<Component>)
    ensures ReturnAll(p, objs).available == p.available + objs
  {
    if objs != [] {
      ReturnsComeBackInOrder(p, objs[..|objs| - 1]);
      assert p.available + objs == p.available + objs[..|objs| - 1] + [objs[|objs| - 1]];
    }
  }

  /** The contents after returning every object of `objs`, first to last. */
  function ReturnAll(p: Contents, objs: seq<Component>): Contents
  {
    if objs == [] then p else Returned(ReturnAll(p, objs[..|objs| - 1]), objs[|objs| - 1])
  }

  /** `ObjectPool<T>`: the available queue and the in-game list. */
  class ObjectPool {
    var objectsAvailable: seq<Component>
    var objectInGame: seq<Component>

    function State(): Contents
      reads this
    {
      Contents(objectsAvailable, objectInGame)
    }

    /** A new pool holds nothing. */
    constructor ()
      ensures State() == Contents([], [])
    {
      objectsAvailable := [];
      objectInGame := [];
    }

    /** `Get`: an object from `GetObject`, added to the in-game list. */
    method Get() returns (obj: Component)
      modifies this, objectsAvailable
      ensures obj.active
      ensures old(objectsAvailable) != [] ==> obj == old(objectsAvailable[0]) && State() == Reused(old(State()))
      ensures old(objectsAvailable) == [] ==> fresh(obj) && State() == Created(old(State()), obj)
      ensures forall c :: c in old(objectsAvailable) && c != obj ==> c.active == old(c.active)
    {
      obj := GetObject();
      objectInGame := objectInGame + [obj];
    }

    /** `GetObject`: the front of the queue, reactivated, or a new object when the queue is
        empty. The in-game list is not touched. */
    method GetObject() returns (obj: Component)
      modifies this`objectsAvailable, objectsAvailable
      ensures obj.active
      ensures old(objectsAvailable) != [] ==> obj == old(objectsAvailable[0]) && objectsAvailable == old(objectsAvailable[1..])
      ensures old(objectsAvailable) == [] ==> fresh(obj) && objectsAvailable == []
      ensures forall c :: c in old(objectsAvailable) && c != obj ==> c.active == old(c.active)
    {
      if |objectsAvailable| == 0 {
        obj := AddObject();
        return;
      }
      obj := objectsAvailable[0];
      objectsAvailable := objectsAvailable[1..];
      obj.active := true;
    }

    /** `AddObject`: a new object from the factory, activated. */
    method AddObject() returns (obj: Component)
      ensures fresh(obj) && obj.active
    {
      obj := new Component();
      obj.active := true;
    }

    /** `Return(obj)`: deactivated, removed from the in-game list (its first occurrence, if
        any) and put at the back of the queue. */
    method Return(obj: Component)
      modifies this, obj
      ensures !obj.active
      ensures State() == Returned(old(State()), obj)
    {
      obj.active := false;
      objectInGame := RemoveFirst(objectInGame, obj);
      objectsAvailable := objectsAvailable + [obj];
    }
  }
}
