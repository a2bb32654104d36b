/** What several components share. */
module Common {

  datatype Option<T> = None | Some(value: T)

  function Sqr(x: int): int { x * x }

  lemma Regroup<T>(a: seq<T>, b: seq<T>, c: seq<T>)
    ensures a + (b + c) == a + b + c
  {
  }
}
