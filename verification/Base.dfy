/** Shared result types, the smaller of two numbers, and facts about collections. */
module Base {

  datatype Option<+T> = None | Some(value: T)

  datatype Result<+T, +E> = Ok(value: T) | Err(error: E)

  function Min(a: int, b: int): int {
    if a < b then a else b
  }

  lemma {:induction false} EmptyIfNone<T>(s: set<T>)
    requires forall x :: x !in s
    ensures s == {}
  {
  }

  lemma {:induction false} ConcatIsAssociative<T>(a: seq<T>, b: seq<T>, c: seq<T>)
    ensures a + (b + c) == (a + b) + c
  {
  }

  /** Some element of a set that has one. */
  ghost function Pick<T>(s: set<T>): (x: T)
    requires s != {}
    ensures x in s
  {
    assert exists x :: x in s by {
      if forall x :: x !in s { EmptyIfNone(s); }
    }
    var x :| x in s;
    x
  }
}
