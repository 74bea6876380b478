/** Regrouping of concatenations, which the verifier does not do by itself. */
module Sequences {

  lemma Regroup<T>(a: seq<T>, b: seq<T>, c: seq<T>)
    ensures a + (b + c) == a + b + c
  {
  }

  lemma Regroup3<T>(a: seq<T>, b: seq<T>, c: seq<T>, rest: seq<T>)
    ensures a + (b + c) + rest == a + (b + (c + rest))
  {
  }

  lemma Regroup4<T>(a: seq<T>, b: seq<T>, c: seq<T>, d: seq<T>, e: seq<T>, rest: seq<T>)
    ensures a + (b + (c + (d + e))) + rest == a + (b + (c + (d + (e + rest))))
  {
    Regroup3(c, d, e, rest);
    Regroup3(a, b, c + (d + e), rest);
  }

  lemma Enclose<T>(open: seq<T>, list: seq<T>, close: seq<T>, rest: seq<T>)
    ensures open + list + close + rest == open + (list + (close + rest))
  {
  }
}
