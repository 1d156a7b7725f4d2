/** `filterByName`: keep the people whose first or last name contains the query. */
module Filter {
  import opened People
  import opened Strings

  /** The predicate `filterByName` hands to `Array.prototype.filter`. */
  predicate MatchesName(query: string, person: Person)
  {
    Includes(Lower(person.firstName), Lower(query)) || Includes(Lower(person.lastName), Lower(query))
  }

  /** Reference condition: the lower-cased query is a substring of a lower-cased name. */
  ghost predicate NameContains(query: string, person: Person)
  {
    IsSubstring(Lower(query), Lower(person.firstName)) || IsSubstring(Lower(query), Lower(person.lastName))
  }

  lemma MatchesNameIsNameContains(query: string, person: Person)
    ensures MatchesName(query, person) <==> NameContains(query, person)
  {
    IncludesIsSubstring(Lower(person.firstName), Lower(query));
    IncludesIsSubstring(Lower(person.lastName), Lower(query));
  }

  /** `personList.filter(...)`: the matching people, first to last. */
  function FilterByName(query: string, personList: seq<Person>): (r: seq<Person>)
    ensures |r| <= |personList|
    ensures forall p :: p in r ==> p in personList && MatchesName(query, p)
    ensures forall p :: p in personList && MatchesName(query, p) ==> p in r
  {
    if personList == [] then []
    else if MatchesName(query, personList[0]) then [personList[0]] + FilterByName(query, personList[1..])
    else FilterByName(query, personList[1..])
  }

  /** `a` can be obtained from `b` by deleting elements, keeping the rest in order. */
  predicate IsSubsequence<T(==)>(a: seq<T>, b: seq<T>)
    decreases |b|
  {
    if a == [] then true
    else if b == [] then false
    else (a[0] == b[0] && IsSubsequence(a[1..], b[1..])) || IsSubsequence(a, b[1..])
  }

  /** The filtered list keeps the original relative order. */
  lemma {:induction false} FilterIsSubsequence(query: string, personList: seq<Person>)
    ensures IsSubsequence(FilterByName(query, personList), personList)
  {
    if personList != [] {
      FilterIsSubsequence(query, personList[1..]);
      var r := FilterByName(query, personList);
      if MatchesName(query, personList[0]) {
        assert r[0] == personList[0] && r[1..] == FilterByName(query, personList[1..]);
      } else if r != [] {
        assert r == FilterByName(query, personList[1..]);
      }
    }
  }

  /**
   * Membership in both directions, stated with the reference substring
   * relation: a person is kept exactly when the case-folded query occurs in
   * the case-folded first or last name.
   */
  lemma FilterKeepsExactlyMatches(query: string, personList: seq<Person>, p: Person)
    ensures p in FilterByName(query, personList) <==> p in personList && NameContains(query, p)
  {
    MatchesNameIsNameContains(query, p);
  }

  /** Duplicates too: each kept person appears as often as in the input, the others not at all. */
  lemma {:induction false} FilterMultiplicity(query: string, personList: seq<Person>, p: Person)
    ensures multiset(FilterByName(query, personList))[p]
         == if MatchesName(query, p) then multiset(personList)[p] else 0
  {
    if personList != [] {
      FilterMultiplicity(query, personList[1..], p);
      assert personList == [personList[0]] + personList[1..];
    }
  }

  /** The empty query is included in every name, so nothing is removed. */
  lemma {:induction false} FilterEmptyQuery(personList: seq<Person>)
    ensures FilterByName("", personList) == personList
  {
    if personList != [] {
      IncludesEmpty(Lower(personList[0].firstName));
      FilterEmptyQuery(personList[1..]);
    }
  }

  /** Only the lower-cased query matters. */
  lemma {:induction false} FilterCaseInsensitive(query: string, personList: seq<Person>)
    ensures FilterByName(Lower(query), personList) == FilterByName(query, personList)
  {
    LowerIdempotent(query);
    if personList != [] {
      FilterCaseInsensitive(query, personList[1..]);
    }
  }

  /** Filtering an already filtered list by the same query changes nothing. */
  lemma {:induction false} FilterIdempotent(query: string, personList: seq<Person>)
    ensures FilterByName(query, FilterByName(query, personList)) == FilterByName(query, personList)
  {
    if personList != [] {
      FilterIdempotent(query, personList[1..]);
    }
  }

  /** No name of Viju Legard contains "juj", so the result is empty. */
  lemma FilterScenarioNoMatch()
    ensures FilterByName("juj", [Person("Viju", "Legard", Headshot(""))]) == []
  {
    var viju := Person("Viju", "Legard", Headshot(""));
    assert Lower("juj") == "juj" by { LowerOfLower("juj"); }
    assert Lower("Viju") == "viju";
    assert Lower("Legard") == "legard";
    NoJujInViju();
    NoJujInLegard();
    assert !MatchesName("juj", viju);
  }

  /** A string with no upper-case letter is its own lower-case form. */
  lemma LowerOfLower(s: string)
    requires forall k :: 0 <= k < |s| ==> !IsUpper(s[k])
    ensures Lower(s) == s
  {
  }

  lemma NoJujInViju()
    ensures !Includes("viju", "juj")
  {
    IncludesIsSubstring("viju", "juj");
    forall i ensures !OccursAt("juj", "viju", i) {
      if 0 <= i && i + 3 <= 4 {
        assert "viju"[i] != 'j' || "viju"[i + 1] != 'u';
      }
    }
  }

  lemma NoJujInLegard()
    ensures !Includes("legard", "juj")
  {
    IncludesIsSubstring("legard", "juj");
    forall i ensures !OccursAt("juj", "legard", i) {
      if 0 <= i && i + 3 <= 6 {
        assert "legard"[i] != 'j';
      }
    }
  }
}
