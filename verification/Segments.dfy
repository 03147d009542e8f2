/** Cutting a sequence into consecutive segments, the common ground of the matchers. */
module Segments {

  ghost function Flatten<T>(w: seq<seq<T>>): seq<T> {
    if w == [] then [] else w[0] + Flatten(w[1..])
  }

  lemma {:induction false} FlattenAppend<T>(w: seq<seq<T>>, last: seq<T>)
    ensures Flatten(w + [last]) == Flatten(w) + last
  {
    if w == [] {
      assert [] + [last] == [last];
      assert Flatten([last]) == last + Flatten<T>([]);
    } else {
      assert (w + [last])[1..] == w[1..] + [last];
      FlattenAppend(w[1..], last);
    }
  }

  lemma FlattenCons<T>(first: seq<T>, w: seq<seq<T>>)
    ensures Flatten([first] + w) == first + Flatten(w)
  {
    assert ([first] + w)[1..] == w;
  }

  lemma FlattenSnoc<T>(w: seq<seq<T>>)
    requires w != []
    ensures Flatten(w) == Flatten(w[..|w| - 1]) + w[|w| - 1]
  {
    assert w == w[..|w| - 1] + [w[|w| - 1]];
    FlattenAppend(w[..|w| - 1], w[|w| - 1]);
  }

  lemma Associate<T>(a: seq<T>, b: seq<T>, c: seq<T>)
    ensures (a + b) + c == a + (b + c)
  {
  }
}
