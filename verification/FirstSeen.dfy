/** A list without its repetitions, each element kept where it first appears, and the places of an element. */
module FirstOccurrences {

  function FirstSeen<T(==,!new)>(s: seq<T>): (r: seq<T>)
    ensures forall x :: x in r <==> x in s
  {
    if s == [] then []
    else
      var front := s[..|s| - 1];
      FirstSeen(front) + if s[|s| - 1] in front then [] else [s[|s| - 1]]
  }

  lemma FirstSeenOne<T(!new)>(s: seq<T>, x: T)
    ensures FirstSeen(s + [x]) == FirstSeen(s) + if x in s then [] else [x]
  {
    assert (s + [x])[..|s|] == s;
  }

  /** What follows is kept alike behind lists with the same first occurrences. */
  lemma {:induction false} SameBehind<T(!new)>(a: seq<T>, b: seq<T>, more: seq<T>)
    requires FirstSeen(a) == FirstSeen(b)
    ensures FirstSeen(a + more) == FirstSeen(b + more)
    decreases |more|
  {
    if more == [] {
      assert a + more == a && b + more == b;
    } else {
      var front, x := more[..|more| - 1], more[|more| - 1];
      SameBehind(a, b, front);
      assert a + more == (a + front) + [x] && b + more == (b + front) + [x];
      FirstSeenOne(a + front, x);
      FirstSeenOne(b + front, x);
      assert x in FirstSeen(a + front) <==> x in FirstSeen(b + front);
    }
  }

  /** A list without repetitions is its own. */
  lemma {:induction false} DistinctIsFirstSeen<T(!new)>(s: seq<T>)
    requires forall i, j :: 0 <= i < j < |s| ==> s[i] != s[j]
    ensures FirstSeen(s) == s
  {
    if s != [] {
      var n := |s| - 1;
      DistinctIsFirstSeen(s[..n]);
      assert s == s[..n] + [s[n]];
      assert s[n] !in s[..n];
    }
  }

  /** Appending elements that are all there already changes nothing. */
  lemma {:induction false} NothingNew<T(!new)>(s: seq<T>, more: seq<T>)
    requires forall x :: x in more ==> x in s
    ensures FirstSeen(s + more) == FirstSeen(s)
    decreases |more|
  {
    if more == [] {
      assert s + more == s;
    } else {
      var front, x := more[..|more| - 1], more[|more| - 1];
      assert forall y :: y in front ==> y in more;
      NothingNew(s, front);
      assert s + more == (s + front) + [x];
      FirstSeenOne(s + front, x);
      assert x in more;
    }
  }

  lemma {:induction false} FirstSeenIsDistinct<T(!new)>(s: seq<T>)
    ensures forall i, j :: 0 <= i < j < |FirstSeen(s)| ==> FirstSeen(s)[i] != FirstSeen(s)[j]
  {
    if s != [] {
      var front := s[..|s| - 1];
      FirstSeenIsDistinct(front);
      forall i | 0 <= i < |FirstSeen(front)|
        ensures FirstSeen(front)[i] in front
      {
        assert FirstSeen(front)[i] in FirstSeen(front);
      }
    }
  }

  // ----- counting places -----

  /** Where the element stands. */
  ghost function Places<T>(s: seq<T>, x: T): set<int> {
    set k | 0 <= k < |s| && s[k] == x
  }

  lemma OneMorePlace<T>(s: seq<T>, x: T)
    requires s != []
    ensures |Places(s, x)| == |Places(s[..|s| - 1], x)| + if s[|s| - 1] == x then 1 else 0
  {
    var n := |s| - 1;
    var before := Places(s[..n], x);
    if s[n] == x {
      assert Places(s, x) == before + {n};
    } else {
      assert Places(s, x) == before;
    }
  }

  lemma NoPlaces<T>(x: T)
    ensures Places([], x) == {}
  {
  }
}
