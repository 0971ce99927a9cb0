/** Maxima and stable sorting by a key. */
module Orders {

  /** The last position of the highest score, as the library's maximum picks. */
  function LastMaximum(scores: seq<real>): (k: nat)
    requires scores != []
    ensures k < |scores|
    ensures forall i :: 0 <= i < |scores| ==> scores[i] <= scores[k]
    ensures forall i :: k < i < |scores| ==> scores[i] < scores[k]
  {
    var last := |scores| - 1;
    if last == 0 then 0 else
      var best := LastMaximum(scores[..last]);
      if scores[best] <= scores[last] then last else best
  }

  // ----- Stable sorting -----

  predicate Ascending<T(!new)>(s: seq<T>, key: T -> real) {
    forall i, k :: 0 <= i < k < |s| ==> key(s[i]) <= key(s[k])
  }

  /** Puts `x` behind every element whose key is not higher. */
  function Insert<T(!new)>(sorted: seq<T>, key: T -> real, x: T): seq<T> {
    if sorted == [] || key(sorted[|sorted| - 1]) <= key(x) then sorted + [x]
    else Insert(sorted[..|sorted| - 1], key, x) + [sorted[|sorted| - 1]]
  }

  /** The library's stable sort, as a specification of what it returns. */
  function Sort<T(!new)>(s: seq<T>, key: T -> real): seq<T> {
    if s == [] then [] else Insert(Sort(s[..|s| - 1], key), key, s[|s| - 1])
  }

  /** The elements with key `at`, in order. */
  function WithKey<T(!new)>(s: seq<T>, key: T -> real, at: real): seq<T> {
    if s == [] then [] else
      WithKey(s[..|s| - 1], key, at) + if key(s[|s| - 1]) == at then [s[|s| - 1]] else []
  }

  lemma {:induction false} InsertPermutes<T(!new)>(sorted: seq<T>, key: T -> real, x: T)
    ensures multiset(Insert(sorted, key, x)) == multiset(sorted) + multiset{x}
  {
    if sorted != [] {
      assert sorted == sorted[..|sorted| - 1] + [sorted[|sorted| - 1]];
      InsertPermutes(sorted[..|sorted| - 1], key, x);
    }
  }

  lemma {:induction false} InsertedMember<T(!new)>(sorted: seq<T>, key: T -> real, x: T, y: T)
    requires y in Insert(sorted, key, x)
    ensures y == x || y in sorted
  {
    InsertPermutes(sorted, key, x);
    assert y in multiset(Insert(sorted, key, x));
  }

  lemma {:induction false} InsertSorts<T(!new)>(sorted: seq<T>, key: T -> real, x: T)
    requires Ascending(sorted, key)
    ensures Ascending(Insert(sorted, key, x), key)
  {
    if sorted != [] && key(x) < key(sorted[|sorted| - 1]) {
      var front, last := sorted[..|sorted| - 1], sorted[|sorted| - 1];
      InsertSorts(front, key, x);
      var r := Insert(front, key, x);
      forall i | 0 <= i < |r| ensures key(r[i]) <= key(last) {
        InsertedMember(front, key, x, r[i]);
      }
    }
  }

  lemma {:induction false} WithKeySnoc<T(!new)>(s: seq<T>, key: T -> real, x: T, at: real)
    ensures WithKey(s + [x], key, at) == WithKey(s, key, at) + if key(x) == at then [x] else []
  {
    assert (s + [x])[..|s|] == s;
  }

  /** Insertion keeps elements with one key in order, the new one last. */
  lemma {:induction false} InsertIsStable<T(!new)>(sorted: seq<T>, key: T -> real, x: T, at: real)
    ensures WithKey(Insert(sorted, key, x), key, at) == WithKey(sorted, key, at) + if key(x) == at then [x] else []
  {
    if sorted == [] || key(sorted[|sorted| - 1]) <= key(x) {
      WithKeySnoc(sorted, key, x, at);
    } else {
      var front, last := sorted[..|sorted| - 1], sorted[|sorted| - 1];
      InsertIsStable(front, key, x, at);
      WithKeySnoc(Insert(front, key, x), key, last, at);
    }
  }

  /** Sorting sorts, keeps exactly the elements, and keeps those with equal keys in
      their order. */
  lemma {:induction false} SortSorts<T(!new)>(s: seq<T>, key: T -> real)
    ensures Ascending(Sort(s, key), key) && multiset(Sort(s, key)) == multiset(s)
    ensures forall at :: WithKey(Sort(s, key), key, at) == WithKey(s, key, at)
  {
    if s != [] {
      var front, last := s[..|s| - 1], s[|s| - 1];
      assert s == front + [last];
      SortSorts(front, key);
      InsertSorts(Sort(front, key), key, last);
      InsertPermutes(Sort(front, key), key, last);
      forall at ensures WithKey(Sort(s, key), key, at) == WithKey(s, key, at) {
        InsertIsStable(Sort(front, key), key, last, at);
      }
    }
  }

  lemma {:induction false} SortedSize<T(!new)>(s: seq<T>, key: T -> real)
    ensures |Sort(s, key)| == |s|
  {
    SortSorts(s, key);
    assert |multiset(Sort(s, key))| == |multiset(s)|;
  }

  lemma {:induction false} SortedMembers<T(!new)>(s: seq<T>, key: T -> real, x: T)
    ensures x in Sort(s, key) <==> x in s
  {
    SortSorts(s, key);
    assert x in multiset(Sort(s, key)) <==> x in multiset(s);
  }

  // ----- Sorting and selecting -----

  function Selected<T(!new)>(s: seq<T>, wanted: T -> bool): seq<T> {
    if s == [] then [] else
      Selected(s[..|s| - 1], wanted) + if wanted(s[|s| - 1]) then [s[|s| - 1]] else []
  }

  lemma {:induction false} SelectedMembers<T(!new)>(s: seq<T>, wanted: T -> bool)
    ensures forall x :: x in Selected(s, wanted) <==> x in s && wanted(x)
  {
    if s != [] {
      SelectedMembers(s[..|s| - 1], wanted);
      assert s == s[..|s| - 1] + [s[|s| - 1]];
    }
  }

  lemma {:induction false} SelectedAdds<T(!new)>(s: seq<T>, t: seq<T>, wanted: T -> bool)
    ensures Selected(s + t, wanted) == Selected(s, wanted) + Selected(t, wanted)
  {
    if t == [] {
      assert s + t == s;
    } else {
      assert (s + t)[..|s + t| - 1] == s + t[..|t| - 1];
      SelectedAdds(s, t[..|t| - 1], wanted);
    }
  }

  lemma {:induction false} AllOrNothing<T(!new)>(s: seq<T>, wanted: T -> bool)
    ensures (forall x :: x in s ==> wanted(x)) ==> Selected(s, wanted) == s
    ensures (forall x :: x in s ==> !wanted(x)) ==> Selected(s, wanted) == []
  {
    if s != [] {
      AllOrNothing(s[..|s| - 1], wanted);
      assert s == s[..|s| - 1] + [s[|s| - 1]];
    }
  }

  lemma {:induction false} InsertAtEnd<T(!new)>(sorted: seq<T>, key: T -> real, x: T)
    requires forall y :: y in sorted ==> key(y) <= key(x)
    ensures Insert(sorted, key, x) == sorted + [x]
  {
  }

  lemma {:induction false} SelectedSnoc<T(!new)>(s: seq<T>, x: T, wanted: T -> bool)
    ensures Selected(s + [x], wanted) == if wanted(x) then Selected(s, wanted) + [x] else Selected(s, wanted)
  {
    assert (s + [x])[..|s|] == s;
  }

  lemma {:induction false} InsertSnoc<T(!new)>(s: seq<T>, last: T, key: T -> real, x: T)
    ensures Insert(s + [last], key, x) == if key(last) <= key(x) then s + [last] + [x] else Insert(s, key, x) + [last]
  {
    assert (s + [last])[..|s|] == s;
  }

  lemma {:induction false} SortSnoc<T(!new)>(s: seq<T>, key: T -> real, x: T)
    ensures Sort(s + [x], key) == Insert(Sort(s, key), key, x)
  {
    assert (s + [x])[..|s|] == s;
  }

  lemma {:induction false} InsertSelects<T(!new)>(sorted: seq<T>, key: T -> real, x: T, wanted: T -> bool)
    requires Ascending(sorted, key)
    ensures Selected(Insert(sorted, key, x), wanted) ==
      if wanted(x) then Insert(Selected(sorted, wanted), key, x) else Selected(sorted, wanted)
  {
    if sorted == [] || key(sorted[|sorted| - 1]) <= key(x) {
      SelectedMembers(sorted, wanted);
      InsertAtEnd(sorted, key, x);
      InsertAtEnd(Selected(sorted, wanted), key, x);
      hide Insert, Selected;
      SelectedSnoc(sorted, x, wanted);
    } else {
      var front, last := sorted[..|sorted| - 1], sorted[|sorted| - 1];
      hide Insert, Selected;
      InsertSelects(front, key, x, wanted);
      assert sorted == front + [last];
      InsertSnoc(front, last, key, x);
      SelectedSnoc(Insert(front, key, x), last, wanted);
      SelectedSnoc(front, last, wanted);
      InsertSnoc(Selected(front, wanted), last, key, x);
    }
  }

  /** Sorting and then selecting is selecting and then sorting. */
  lemma {:induction false} SortSelects<T(!new)>(s: seq<T>, key: T -> real, wanted: T -> bool)
    ensures Selected(Sort(s, key), wanted) == Sort(Selected(s, wanted), key)
  {
    if s != [] {
      var front, last := s[..|s| - 1], s[|s| - 1];
      hide Insert, Selected, Sort, Ascending;
      SortSelects(front, key, wanted);
      SortSorts(front, key);
      InsertSelects(Sort(front, key), key, last, wanted);
      assert s == front + [last];
      SortSnoc(front, key, last);
      SelectedSnoc(front, last, wanted);
      SortSnoc(Selected(front, wanted), key, last);
    }
  }

  lemma {:induction false} SortOfSorted<T(!new)>(s: seq<T>, key: T -> real)
    requires Ascending(s, key)
    ensures Sort(s, key) == s
  {
    if s != [] {
      SortOfSorted(s[..|s| - 1], key);
      InsertAtEnd(s[..|s| - 1], key, s[|s| - 1]);
    }
  }
}
