/** The person records returned by the profiles endpoint, and the accessors on them. */
module People {

  /** The `headshot` object of a profile; only its scheme-relative `url` is used. */
  datatype Headshot = Headshot(url: string)

  /** One profile: `{ firstName, lastName, headshot: { url } }`. */
  datatype Person = Person(firstName: string, lastName: string, headshot: Headshot)

  /** The property names the list transforms sort by ("firstName" and "lastName"). */
  datatype Prop = FirstName | LastName

  function GetFirstName(person: Person): string
  {
    person.firstName
  }

  function GetLastName(person: Person): string
  {
    person.lastName
  }

  /** `person[prop]`: the value a comparator reads for the given property name. */
  function Key(prop: Prop, person: Person): string
  {
    match prop
    case FirstName => GetFirstName(person)
    case LastName => GetLastName(person)
  }

  const HttpScheme: string := "http:"

  /** The thumbnail address: the scheme-relative headshot URL with "http:" in front. */
  function GetImageUrl(person: Person): (r: string)
    ensures |r| == |HttpScheme| + |person.headshot.url|
    ensures r[..|HttpScheme|] == HttpScheme
    ensures r[|HttpScheme|..] == person.headshot.url
  {
    HttpScheme + person.headshot.url
  }

  /** Two people get the same thumbnail address exactly when their headshot URLs agree. */
  lemma ImageUrlInjective(p: Person, q: Person)
    ensures GetImageUrl(p) == GetImageUrl(q) <==> p.headshot.url == q.headshot.url
  {
    if GetImageUrl(p) == GetImageUrl(q) {
      assert p.headshot.url == GetImageUrl(p)[|HttpScheme|..];
    }
  }

  /** `Array.prototype.slice(1)`: a copy without element 0 (empty for an empty list). */
  function SliceFromOne<T>(s: seq<T>): (r: seq<T>)
    ensures |s| == 0 ==> r == []
    ensures |s| > 0 ==> |r| == |s| - 1 && forall k :: 0 <= k < |r| ==> r[k] == s[k + 1]
  {
    if |s| == 0 then [] else s[1..]
  }

  /** The copy keeps every remaining element, each at most as often as the original. */
  lemma SliceFromOneSubMultiset<T>(s: seq<T>)
    ensures multiset(SliceFromOne(s)) <= multiset(s)
  {
    if |s| > 0 {
      assert s == [s[0]] + s[1..];
    }
  }

  /** A fresh array holding `s` (the array a list value lives in). */
  method ToArray<T>(s: seq<T>) returns (a: array<T>)
    ensures fresh(a) && a[..] == s
  {
    a := new T[|s|](k requires 0 <= k < |s| => s[k]);
  }
}
