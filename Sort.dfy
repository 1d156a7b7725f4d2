/**
 * `sortObjListByProp(prop)(objList)`: copy the list, then sort the copy in
 * place with a comparator on `person[prop]`.
 */
module Sort {
  import opened People
  import opened Strings

  /**
   * The comparator handed to `result.sort`: -1 when `a[prop] < b[prop]`,
   * 1 when `a[prop] > b[prop]`, and 1 again when the two keys are equal.
   */
  function Compare(prop: Prop, a: Person, b: Person): (r: int)
    ensures r == -1 || r == 1
    ensures r < 0 <==> LexLess(Key(prop, a), Key(prop, b))
  {
    if LexLess(Key(prop, a), Key(prop, b)) then -1
    else if LexLess(Key(prop, b), Key(prop, a)) then 1
    else 1
  }

  /**
   * On equal keys the comparator answers "greater" in both argument orders,
   * so it is not a consistent comparator in the sense of `Array.prototype.sort`.
   */
  lemma CompareTiesBothGreater(prop: Prop, a: Person, b: Person)
    requires Key(prop, a) == Key(prop, b)
    ensures Compare(prop, a, b) == 1 && Compare(prop, b, a) == 1
  {
    LexLessIrreflexive(Key(prop, a));
  }

  /** Away from ties the comparator is antisymmetric. */
  lemma CompareAntisymmetricOnDistinctKeys(prop: Prop, a: Person, b: Person)
    requires Key(prop, a) != Key(prop, b)
    ensures Compare(prop, a, b) == -Compare(prop, b, a)
  {
    LexLessTotal(Key(prop, a), Key(prop, b));
    LexLessAsymmetric(Key(prop, a), Key(prop, b));
  }

  /** `a` may come before `b`: its key is not greater. */
  predicate KeyLe(prop: Prop, a: Person, b: Person)
  {
    LexLe(Key(prop, a), Key(prop, b))
  }

  /** Every earlier person's key is at most every later person's key. */
  ghost predicate Sorted(prop: Prop, s: seq<Person>)
  {
    forall i, j :: 0 <= i < j < |s| ==> KeyLe(prop, s[i], s[j])
  }

  /** Each adjacent pair is in order. */
  ghost predicate AdjacentSorted(prop: Prop, s: seq<Person>)
  {
    forall i :: 0 < i < |s| ==> KeyLe(prop, s[i - 1], s[i])
  }

  /** For this key order, checking adjacent pairs is the same as checking all pairs. */
  lemma {:induction false} SortedIffAdjacentSorted(prop: Prop, s: seq<Person>)
    ensures Sorted(prop, s) <==> AdjacentSorted(prop, s)
  {
    if AdjacentSorted(prop, s) && |s| > 1 {
      SortedIffAdjacentSorted(prop, s[1..]);
      assert AdjacentSorted(prop, s[1..]) by {
        forall i | 0 < i < |s| - 1 ensures KeyLe(prop, s[1..][i - 1], s[1..][i]) {
          assert s[1..][i - 1] == s[i] && s[1..][i] == s[i + 1];
        }
      }
      forall j | 0 < j < |s| ensures KeyLe(prop, s[0], s[j]) {
        if j > 1 {
          assert KeyLe(prop, s[1..][0], s[1..][j - 1]);
          LexLeTransitive(Key(prop, s[0]), Key(prop, s[1]), Key(prop, s[j]));
        }
      }
      forall i, j | 0 <= i < j < |s| ensures KeyLe(prop, s[i], s[j]) {
        if i > 0 {
          assert KeyLe(prop, s[1..][i - 1], s[1..][j - 1]);
        }
      }
    }
  }

  /** Swaps two cells of `a`, leaving the others alone. */
  method Swap(a: array<Person>, i: int, j: int)
    requires 0 <= i < a.Length && 0 <= j < a.Length
    modifies a
    ensures a[..] == old(a[..])[i := old(a[j])][j := old(a[i])]
    ensures multiset(a[..]) == old(multiset(a[..]))
  {
    a[i], a[j] := a[j], a[i];
  }

  /**
   * One pass of the sort: with `a[..i]` already in order, moves `a[i]` left
   * past every neighbour the comparator calls greater, so `a[..i + 1]` is in order.
   */
  method InsertInto(prop: Prop, a: array<Person>, i: int)
    requires 0 <= i < a.Length
    requires forall k, l :: 0 <= k < l < i ==> KeyLe(prop, a[k], a[l])
    modifies a
    ensures forall k, l :: 0 <= k < l <= i ==> KeyLe(prop, a[k], a[l])
    ensures multiset(a[..]) == old(multiset(a[..]))
  {
    var j := i;
    while j > 0 && Compare(prop, a[j - 1], a[j]) > 0
      invariant 0 <= j <= i
      invariant forall k, l :: 0 <= k < l <= i && k != j && l != j ==> KeyLe(prop, a[k], a[l])
      invariant forall l :: j < l <= i ==> KeyLe(prop, a[j], a[l])
      invariant multiset(a[..]) == old(multiset(a[..]))
    {
      Swap(a, j - 1, j);
      j := j - 1;
    }
    if j > 0 {
      LexLessImpliesLe(Key(prop, a[j - 1]), Key(prop, a[j]));
      forall k | 0 <= k < j - 1 ensures KeyLe(prop, a[k], a[j]) {
        LexLeTransitive(Key(prop, a[k]), Key(prop, a[j - 1]), Key(prop, a[j]));
      }
    }
  }

  /** Sorts `a` in place by `person[prop]` (an insertion sort driven by `Compare`). */
  method SortInPlace(prop: Prop, a: array<Person>)
    modifies a
    ensures Sorted(prop, a[..])
    ensures multiset(a[..]) == old(multiset(a[..]))
  {
    var i := 0;
    while i < a.Length
      invariant 0 <= i <= a.Length
      invariant forall k, l :: 0 <= k < l < i ==> KeyLe(prop, a[k], a[l])
      invariant multiset(a[..]) == old(multiset(a[..]))
    {
      InsertInto(prop, a, i);
      i := i + 1;
    }
  }

  /**
   * `sortObjListByProp(prop)(objList)` as written: the copy is
   * `objList.slice(1)`, so the result is a sorted permutation of the list
   * without its first element. The input is a value and stays as it was;
   * the order among equal keys is not promised.
   */
  method SortObjListByProp(prop: Prop, objList: seq<Person>) returns (result: seq<Person>)
    ensures Sorted(prop, result)
    ensures multiset(result) == multiset(SliceFromOne(objList))
  {
    var copy := ToArray(SliceFromOne(objList));
    SortInPlace(prop, copy);
    result := copy[..];
  }

  /** `sortByFirstName = sortObjListByProp("firstName")`. */
  method SortByFirstName(personList: seq<Person>) returns (result: seq<Person>)
    ensures Sorted(FirstName, result)
    ensures multiset(result) == multiset(SliceFromOne(personList))
  {
    result := SortObjListByProp(FirstName, personList);
  }

  /** `sortByLastName = sortObjListByProp("lastName")`. */
  method SortByLastName(personList: seq<Person>) returns (result: seq<Person>)
    ensures Sorted(LastName, result)
    ensures multiset(result) == multiset(SliceFromOne(personList))
  {
    result := SortObjListByProp(LastName, personList);
  }

  /**
   * The copy the comment asks for: all of `objList`, so the result is a
   * sorted permutation of the whole input.
   */
  method SortCopyByProp(prop: Prop, objList: seq<Person>) returns (result: seq<Person>)
    ensures Sorted(prop, result)
    ensures multiset(result) == multiset(objList)
  {
    var copy := ToArray(objList);
    SortInPlace(prop, copy);
    result := copy[..];
  }

  /** Every list sorted by first name that holds Bob Jones and Amy Zane once each starts with Amy. */
  lemma {:induction false} SortScenarioBobAmy(r: seq<Person>)
    requires Sorted(FirstName, r)
    requires multiset(r) == multiset([Person("Bob", "Jones", Headshot("")), Person("Amy", "Zane", Headshot(""))])
    ensures r == [Person("Amy", "Zane", Headshot("")), Person("Bob", "Jones", Headshot(""))]
  {
    assert |r| == 2 by {
      assert |multiset(r)| == 2;
    }
    assert r[0] in multiset(r) && r[1] in multiset(r);
    assert r == [r[0], r[1]];
    assert multiset(r) == multiset{r[0], r[1]};
    assert LexLess("Amy", "Bob");
    assert KeyLe(FirstName, r[0], r[1]);
  }

  /** As written, sorting Bob Jones and Amy Zane by first name returns Amy alone. */
  lemma SortAsWrittenScenarioBobAmy(r: seq<Person>)
    requires Sorted(FirstName, r)
    requires multiset(r) == multiset(SliceFromOne([Person("Bob", "Jones", Headshot("")), Person("Amy", "Zane", Headshot(""))]))
    ensures r == [Person("Amy", "Zane", Headshot(""))]
  {
    var bob, amy := Person("Bob", "Jones", Headshot("")), Person("Amy", "Zane", Headshot(""));
    assert SliceFromOne([bob, amy]) == [amy];
    assert |r| == 1 by {
      assert |multiset(r)| == 1;
    }
    assert r[0] in multiset(r);
    assert r == [r[0]];
  }

  /**
   * The documented example `[Sam, Jon, Kevin]` (its `name` read here as the
   * first name): every sorted rearrangement of all three is `[Jon, Kevin, Sam]`.
   */
  lemma {:induction false} SortDocExample(r: seq<Person>)
    requires Sorted(FirstName, r)
    requires multiset(r) == multiset([Person("Sam", "", Headshot("")), Person("Jon", "", Headshot("")), Person("Kevin", "", Headshot(""))])
    ensures r == [Person("Jon", "", Headshot("")), Person("Kevin", "", Headshot("")), Person("Sam", "", Headshot(""))]
  {
    assert |r| == 3 by {
      assert |multiset(r)| == 3;
    }
    assert r == [r[0], r[1], r[2]];
    assert multiset(r) == multiset{r[0], r[1], r[2]};
    assert r[0] in multiset(r) && r[1] in multiset(r) && r[2] in multiset(r);
    assert LexLess("Jon", "Kevin") && LexLess("Kevin", "Sam") && LexLess("Jon", "Sam");
    assert KeyLe(FirstName, r[0], r[1]) && KeyLe(FirstName, r[1], r[2]) && KeyLe(FirstName, r[0], r[2]);
  }

  /**
   * As written, the same example loses Sam: the sorted copy of
   * `[Sam, Jon, Kevin].slice(1)` is `[Jon, Kevin]`.
   */
  lemma SortAsWrittenDocExample(r: seq<Person>)
    requires Sorted(FirstName, r)
    requires multiset(r) == multiset(SliceFromOne([Person("Sam", "", Headshot("")), Person("Jon", "", Headshot("")), Person("Kevin", "", Headshot(""))]))
    ensures r == [Person("Jon", "", Headshot("")), Person("Kevin", "", Headshot(""))]
  {
    var sam, jon, kevin := Person("Sam", "", Headshot("")), Person("Jon", "", Headshot("")), Person("Kevin", "", Headshot(""));
    assert SliceFromOne([sam, jon, kevin]) == [jon, kevin];
    assert |r| == 2 by {
      assert |multiset(r)| == 2;
    }
    assert r == [r[0], r[1]];
    assert r[0] in multiset(r) && r[1] in multiset(r);
    assert LexLess("Jon", "Kevin");
    assert KeyLe(FirstName, r[0], r[1]);
  }
}
