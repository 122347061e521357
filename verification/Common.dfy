/** Datatypes and small functions shared by every component. */
module Common {

  datatype Option<+T> = None | Some(value: T)

  /** The HTTP errors the services throw. */
  datatype HttpError = BadRequest | Forbidden | NotFound | Conflict

  datatype Result<+T> = Ok(value: T) | Err(error: HttpError)

  ghost predicate NoDuplicates<T>(s: seq<T>) {
    forall i, j :: 0 <= i < j < |s| ==> s[i] != s[j]
  }

  ghost predicate Ascending(s: seq<int>) {
    forall i, j :: 0 <= i < j < |s| ==> s[i] < s[j]
  }

  function Min(a: int, b: int): int { if a <= b then a else b }

  function Max(a: int, b: int): int { if a >= b then a else b }

  /** Math.round: the nearest integer, a half upwards. */
  function Round(x: real): (n: int)
    ensures x - 0.5 < n as real <= x + 0.5
  {
    (x + 0.5).Floor
  }

  lemma SameSets<T>(a: set<T>, b: set<T>)
    requires forall x :: x in a <==> x in b
    ensures a == b
  {
    assert forall x :: x in a ==> x in b;
    assert forall x :: x in b ==> x in a;
    assert a <= b <= a;
  }

  lemma SameInts(a: set<int>, b: set<int>)
    requires forall n :: n in a ==> n in b
    requires forall n :: n in b ==> n in a
    ensures a == b
  {
    forall n | n in a
      ensures n in b
    {
    }
    forall n | n in b
      ensures n in a
    {
    }
    assert a <= b <= a;
  }
}
