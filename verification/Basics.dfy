/** Shared result types and facts about sequences. */
module Basics {

  datatype Option<+T> = None | Some(value: T)

  lemma TailOfAppend<T>(xs: seq<T>, ys: seq<T>)
    requires xs != []
    ensures (xs + ys)[1..] == xs[1..] + ys && (xs + ys)[0] == xs[0]
  {
  }

  lemma Associative<T>(a: seq<T>, b: seq<T>, c: seq<T>)
    ensures (a + b) + c == a + (b + c)
  {
  }
}
