/** Regrouping of sequence concatenations, stated once for every module
    that rebuilds a string or a list piece by piece. */
module Sequences {

  lemma SeqAssoc<X>(a: seq<X>, b: seq<X>, c: seq<X>)
    ensures a + (b + c) == a + b + c
  {
  }

  lemma SeqAssoc4<X>(a: seq<X>, b: seq<X>, c: seq<X>, e: seq<X>)
    ensures a + b + c + e == a + (b + c + e)
  {
  }

  lemma SeqAssoc4Mid<X>(a: seq<X>, b: seq<X>, c: seq<X>, e: seq<X>)
    ensures a + b + c + e == a + (b + c) + e
  {
  }

  lemma SeqRegroup5<X>(x: seq<X>, p: seq<X>, o: seq<X>, a: seq<X>, r: seq<X>)
    ensures x + (p + o + a) + r == x + p + o + (a + r)
  {
  }

  lemma EmptyCat<X>(s: seq<X>)
    ensures [] + s == s && s + [] == s
  {
  }
}
