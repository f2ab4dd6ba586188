/** Sets of words as `std::set` keeps them, smallest first. */
module WordSets {
  import opened Words

  /** `std::set::begin`: the smallest word. */
  ghost predicate IsFirst(s: set<Word>, v: Word) {
    v in s && forall w :: w in s ==> v <= w
  }

  lemma FirstExists(s: set<Word>)
    requires s != {}
    ensures exists v :: IsFirst(s, v)
  {
    var v :| v in s;
    if s == {v} {
      assert IsFirst(s, v);
    } else {
      FirstExists(s - {v});
      var w :| IsFirst(s - {v}, w);
      assert forall x :: x in s ==> x == v || x in s - {v};
      assert IsFirst(s, if v < w then v else w);
    }
  }

  function First(s: set<Word>): (v: Word)
    requires s != {}
    ensures IsFirst(s, v)
  {
    FirstExists(s);
    FirstUnique(s);
    var v: Word :| v in s && forall w :: w in s ==> v <= w;
    v
  }

  lemma FirstUnique(s: set<Word>)
    ensures forall v, w :: IsFirst(s, v) && IsFirst(s, w) ==> v == w
  {
  }

  /** The order in which a `std::set` is walked. */
  function Sorted(s: set<Word>): (r: seq<Word>)
    ensures forall v :: v in s <==> v in r
  {
    if s == {} then [] else [First(s)] + Sorted(s - {First(s)})
  }

  lemma {:induction false} SortedInOrder(s: set<Word>)
    ensures forall i, j :: 0 <= i < j < |Sorted(s)| ==> Sorted(s)[i] < Sorted(s)[j]
  {
    if s != {} {
      var rest := Sorted(s - {First(s)});
      SortedInOrder(s - {First(s)});
      forall i | 0 <= i < |rest| ensures First(s) < rest[i] {
        assert rest[i] in rest;
      }
    }
  }
}
