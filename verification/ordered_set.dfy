/** The contents of a JavaScript `Set` filled by successive `add` calls, as
    `Array.from` lists them: each distinct value once, in the order of its
    first insertion. */
module OrderedSet {

  predicate NoDuplicates<T(==)>(s: seq<T>) {
    forall i, j :: 0 <= i < j < |s| ==> s[i] != s[j]
  }

  /** The values of `xs` in order of first occurrence, each once. Defined
      from the back: the last value is new exactly when it is not among the
      earlier ones. */
  function FirstOccurrences<T(==)>(xs: seq<T>): (r: seq<T>)
    decreases |xs|
  {
    if xs == [] then []
    else
      var init := FirstOccurrences(xs[..|xs| - 1]);
      if xs[|xs| - 1] in xs[..|xs| - 1] then init else init + [xs[|xs| - 1]]
  }

  /** The index of the first occurrence of `x` in `xs`. */
  function FirstIndex<T(==)>(xs: seq<T>, x: T): (k: nat)
    requires x in xs
    ensures k < |xs| && xs[k] == x && x !in xs[..k]
  {
    if xs[0] == x then 0
    else
      assert x in xs[1..];
      var k := FirstIndex(xs[1..], x);
      assert xs[..k + 1] == [xs[0]] + xs[1..][..k];
      k + 1
  }

  /** Adding the values one at a time keeps each once, loses none and adds
      nothing else. */
  lemma {:induction false} FirstOccurrencesElements<T>(xs: seq<T>)
    ensures forall x :: x in FirstOccurrences(xs) <==> x in xs
    ensures NoDuplicates(FirstOccurrences(xs))
    decreases |xs|
  {
    if xs != [] {
      var init := xs[..|xs| - 1];
      FirstOccurrencesElements(init);
      assert xs == init + [xs[|xs| - 1]];
    }
  }

  /** The values come out in the order in which they first went in. */
  lemma {:induction false} FirstOccurrencesOrder<T>(xs: seq<T>)
    ensures forall x :: x in FirstOccurrences(xs) ==> x in xs
    ensures forall i, j :: 0 <= i < j < |FirstOccurrences(xs)| ==>
              FirstIndex(xs, FirstOccurrences(xs)[i]) < FirstIndex(xs, FirstOccurrences(xs)[j])
    decreases |xs|
  {
    FirstOccurrencesElements(xs);
    if xs != [] {
      var init := xs[..|xs| - 1];
      var last := xs[|xs| - 1];
      FirstOccurrencesOrder(init);
      FirstOccurrencesElements(init);
      var r := FirstOccurrences(xs);
      var ri := FirstOccurrences(init);
      forall y | y in init
        ensures FirstIndex(xs, y) == FirstIndex(init, y)
      {
        var k := FirstIndex(init, y);
        assert xs[..k] == init[..k];
        FirstIndexUnique(xs, y, k);
      }
      forall i, j | 0 <= i < j < |r|
        ensures FirstIndex(xs, r[i]) < FirstIndex(xs, r[j])
      {
        if j < |ri| {
          assert r[i] == ri[i] && r[j] == ri[j];
        } else {
          assert r[j] == last && last !in init;
          assert r[i] == ri[i] && r[i] in init;
          FirstIndexUnique(xs, last, |xs| - 1);
        }
      }
    }
  }

  lemma FirstIndexUnique<T>(xs: seq<T>, x: T, k: nat)
    requires k < |xs| && xs[k] == x && x !in xs[..k]
    ensures FirstIndex(xs, x) == k
  {
  }
}
