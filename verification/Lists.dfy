/** Linked lists as sequences: entries are on a list at most once, and may be unlinked from the middle. */
module Lists {

  ghost predicate NoRepeats<T>(list: seq<T>) {
    forall i, j :: 0 <= i < j < |list| ==> list[i] != list[j]
  }

  function Without<T(==)>(list: seq<T>, x: T): seq<T> {
    if list == [] then [] else if list[0] == x then list[1..] else [list[0]] + Without(list[1..], x)
  }

  lemma {:induction false} WithoutFits<T>(list: seq<T>, x: T)
    requires NoRepeats(list) && x in list
    ensures |Without(list, x)| == |list| - 1 && NoRepeats(Without(list, x))
    ensures forall y :: y in Without(list, x) <==> y in list && y != x
    decreases |list|
  {
    if list[0] != x {
      var rest := list[1..];
      assert list == [list[0]] + rest;
      WithoutFits(rest, x);
      assert list[0] !in rest;
    }
  }

  lemma HeadFits<T>(list: seq<T>)
    requires NoRepeats(list) && list != []
    ensures NoRepeats(list[1..]) && forall y :: y in list[1..] <==> y in list && y != list[0]
  {
  }

  /** A list without repetitions is as long as its set of entries is large. */
  lemma {:induction false} CountOnce<T>(list: seq<T>, entries: set<T>)
    requires NoRepeats(list) && forall x :: x in list <==> x in entries
    ensures |list| == |entries|
    decreases |list|
  {
    if list == [] {
      assert entries == {};
    } else {
      HeadFits(list);
      CountOnce(list[1..], entries - {list[0]});
    }
  }
}
