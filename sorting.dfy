/** The sort behind the sort endpoint: Python's stable `sorted` over the
    store's records, keyed by `record.get(field, 0)`, optionally reversed.
 */
module Sorting {
  import opened Results
  import opened Patients

  /** A sort key: an integer, a string, or a value Python cannot order (null, a list). */
  datatype Key = Num(n: int) | Text(s: string) | NoOrder

  /** The key of a record: the field's value, or 0 when the record lacks the field. */
  function KeyOf(r: Record, field: Field): Key {
    if field !in r then Num(0)
    else match r[field]
      case Int(n) => Num(n)
      case Str(s) => Text(s)
      case _ => NoOrder
  }

  /** Python's string order: code point by code point, a proper prefix first. */
  predicate StrLe(a: string, b: string) {
    if a == [] then true
    else if b == [] then false
    else if a[0] != b[0] then a[0] < b[0]
    else StrLe(a[1..], b[1..])
  }

  lemma {:induction false} StrLeRefl(a: string)
    ensures StrLe(a, a)
  {
    if a != [] { StrLeRefl(a[1..]); }
  }

  lemma {:induction false} StrLeTotal(a: string, b: string)
    ensures StrLe(a, b) || StrLe(b, a)
  {
    if a != [] && b != [] && a[0] == b[0] { StrLeTotal(a[1..], b[1..]); }
  }

  lemma {:induction false} StrLeAntisym(a: string, b: string)
    requires StrLe(a, b) && StrLe(b, a)
    ensures a == b
  {
    if a != [] && b != [] {
      StrLeAntisym(a[1..], b[1..]);
      assert a == [a[0]] + a[1..] && b == [b[0]] + b[1..];
    }
  }

  lemma {:induction false} StrLeTrans(a: string, b: string, c: string)
    requires StrLe(a, b) && StrLe(b, c)
    ensures StrLe(a, c)
  {
    if a != [] && b != [] && c != [] && a[0] == b[0] && b[0] == c[0] {
      StrLeTrans(a[1..], b[1..], c[1..]);
    }
  }

  function Rank(k: Key): nat {
    match k
    case Num(_) => 0
    case Text(_) => 1
    case NoOrder => 2
  }

  /** The order on keys. Python orders integers among themselves and strings
      among themselves only; the order between kinds given by Rank never decides
      a result, because the sort fails before it compares keys of two kinds. */
  predicate KeyLe(a: Key, b: Key) {
    if Rank(a) != Rank(b) then Rank(a) < Rank(b)
    else match a
      case Num(x) => x <= b.n
      case Text(x) => StrLe(x, b.s)
      case NoOrder => true
  }

  /** May a record with key a come before one with key b in the output?
      Ascending order, or descending when `desc` (Python's reverse=True). */
  predicate Before(a: Key, b: Key, desc: bool) {
    if desc then KeyLe(b, a) else KeyLe(a, b)
  }

  lemma BeforeRefl(a: Key, desc: bool)
    ensures Before(a, a, desc)
  {
    if a.Text? { StrLeRefl(a.s); }
  }

  lemma BeforeTotal(a: Key, b: Key, desc: bool)
    ensures Before(a, b, desc) || Before(b, a, desc)
  {
    if a.Text? && b.Text? { StrLeTotal(a.s, b.s); }
  }

  lemma BeforeTrans(a: Key, b: Key, c: Key, desc: bool)
    requires Before(a, b, desc) && Before(b, c, desc)
    ensures Before(a, c, desc)
  {
    if a.Text? && b.Text? && c.Text? {
      if desc { StrLeTrans(c.s, b.s, a.s); } else { StrLeTrans(a.s, b.s, c.s); }
    }
  }

  /** Every record may come before every later one. */
  predicate Sorted<T>(s: seq<T>, key: T -> Key, desc: bool) {
    forall i, j :: 0 <= i < j < |s| ==> Before(key(s[i]), key(s[j]), desc)
  }

  /** The elements of s whose key is k, in the order of s. */
  function Filter<T>(s: seq<T>, key: T -> Key, k: Key): seq<T> {
    if s == [] then []
    else if key(s[0]) == k then [s[0]] + Filter(s[1..], key, k)
    else Filter(s[1..], key, k)
  }

  lemma FilterCons<T>(x: T, s: seq<T>, key: T -> Key, k: Key)
    ensures Filter([x] + s, key, k) == if key(x) == k then [x] + Filter(s, key, k) else Filter(s, key, k)
  {
    assert ([x] + s)[1..] == s;
  }

  /** Inserts x in front of the first record it may come before. */
  function Insert<T>(x: T, s: seq<T>, key: T -> Key, desc: bool): (r: seq<T>)
    ensures multiset(r) == multiset(s) + multiset{x}
  {
    if s == [] then [x]
    else if Before(key(x), key(s[0]), desc) then [x] + s
    else
      assert s == [s[0]] + s[1..];
      [s[0]] + Insert(x, s[1..], key, desc)
  }

  /** The stable sort: the records of s by key, equal keys in the order of s. */
  function StableSort<T>(s: seq<T>, key: T -> Key, desc: bool): (r: seq<T>)
    ensures multiset(r) == multiset(s)
  {
    if s == [] then []
    else
      assert s == [s[0]] + s[1..];
      Insert(s[0], StableSort(s[1..], key, desc), key, desc)
  }

  lemma SortedCons<T>(y: T, t: seq<T>, key: T -> Key, desc: bool)
    requires Sorted(t, key, desc)
    requires forall j :: 0 <= j < |t| ==> Before(key(y), key(t[j]), desc)
    ensures Sorted([y] + t, key, desc)
  {
    var r := [y] + t;
    forall i, j | 0 <= i < j < |r| ensures Before(key(r[i]), key(r[j]), desc) {
      assert r[j] == t[j - 1];
      if i > 0 { assert r[i] == t[i - 1]; }
    }
  }

  lemma SortedTail<T>(s: seq<T>, key: T -> Key, desc: bool)
    requires s != [] && Sorted(s, key, desc)
    ensures Sorted(s[1..], key, desc)
    ensures forall j :: 0 <= j < |s[1..]| ==> Before(key(s[0]), key(s[1..][j]), desc)
  {
    forall i, j | 0 <= i < j < |s| - 1 ensures Before(key(s[1..][i]), key(s[1..][j]), desc) {
      assert s[1..][i] == s[i + 1] && s[1..][j] == s[j + 1];
    }
    forall j | 0 <= j < |s| - 1 ensures Before(key(s[0]), key(s[1..][j]), desc) {
      assert s[1..][j] == s[j + 1];
    }
  }

  lemma {:induction false} InsertSorted<T>(x: T, s: seq<T>, key: T -> Key, desc: bool)
    requires Sorted(s, key, desc)
    ensures Sorted(Insert(x, s, key, desc), key, desc)
  {
    var kx := key(x);
    if s == [] {
      assert Insert(x, s, key, desc) == [x];
    } else if Before(kx, key(s[0]), desc) {
      assert Insert(x, s, key, desc) == [x] + s;
      forall j | 0 <= j < |s| ensures Before(kx, key(s[j]), desc) {
        if j > 0 { BeforeTrans(kx, key(s[0]), key(s[j]), desc); }
      }
      SortedCons(x, s, key, desc);
    } else {
      var t := Insert(x, s[1..], key, desc);
      assert Insert(x, s, key, desc) == [s[0]] + t;
      BeforeTotal(kx, key(s[0]), desc);
      SortedTail(s, key, desc);
      InsertSorted(x, s[1..], key, desc);
      forall j | 0 <= j < |t| ensures Before(key(s[0]), key(t[j]), desc) {
        assert t[j] in multiset(t);
        if t[j] != x {
          assert t[j] in multiset(s[1..]);
          var m :| 0 <= m < |s[1..]| && s[1..][m] == t[j];
        }
      }
      SortedCons(s[0], t, key, desc);
    }
  }

  lemma {:induction false} StableSortSorted<T>(s: seq<T>, key: T -> Key, desc: bool)
    ensures Sorted(StableSort(s, key, desc), key, desc)
  {
    if s != [] {
      StableSortSorted(s[1..], key, desc);
      InsertSorted(s[0], StableSort(s[1..], key, desc), key, desc);
    }
  }

  lemma {:induction false} FilterInsert<T>(x: T, s: seq<T>, key: T -> Key, desc: bool, k: Key)
    ensures Filter(Insert(x, s, key, desc), key, k)
         == if key(x) == k then [x] + Filter(s, key, k) else Filter(s, key, k)
  {
    if s == [] {
      FilterCons(x, s, key, k);
    } else if Before(key(x), key(s[0]), desc) {
      assert Insert(x, s, key, desc) == [x] + s;
      FilterCons(x, s, key, k);
    } else {
      var t := Insert(x, s[1..], key, desc);
      assert Insert(x, s, key, desc) == [s[0]] + t;
      FilterInsert(x, s[1..], key, desc, k);
      FilterCons(s[0], t, key, k);
      if key(x) == k {
        BeforeRefl(key(x), desc);
        assert key(s[0]) != k;
      }
    }
  }

  /** Stability: the records with any one key keep their relative order. */
  lemma {:induction false} StableSortStable<T>(s: seq<T>, key: T -> Key, desc: bool, k: Key)
    ensures Filter(StableSort(s, key, desc), key, k) == Filter(s, key, k)
  {
    if s != [] {
      StableSortStable(s[1..], key, desc, k);
      FilterInsert(s[0], StableSort(s[1..], key, desc), key, desc, k);
    }
  }

  /** When every record has the same key, the sort returns the records as they were. */
  lemma {:induction false} StableSortOneKey<T>(s: seq<T>, key: T -> Key, desc: bool, k: Key)
    requires forall i :: 0 <= i < |s| ==> key(s[i]) == k
    ensures StableSort(s, key, desc) == s
  {
    if s != [] {
      StableSortOneKey(s[1..], key, desc, k);
      BeforeRefl(k, desc);
      if |s| > 1 {
        assert key(s[1..][0]) == k;
      }
      assert s == [s[0]] + s[1..];
    }
  }

  /** Python compares keys only when there are two records or more, and then
      fails unless all keys are integers or all keys are strings. */
  predicate OneKind(s: seq<Record>, field: Field) {
    || |s| <= 1
    || (forall i :: 0 <= i < |s| ==> KeyOf(s[i], field).Num?)
    || (forall i :: 0 <= i < |s| ==> KeyOf(s[i], field).Text?)
  }

  /** The key function `lambda x: x.get(field, 0)`. */
  function KeyFn(field: Field): Record -> Key {
    r => KeyOf(r, field)
  }

  /** `sorted(s, key=lambda x: x.get(field, 0), reverse=desc)`. */
  function SortBy(s: seq<Record>, field: Field, desc: bool): (r: Result<seq<Record>>)
    ensures r.Failure? <==> !OneKind(s, field)
    ensures r.Failure? ==> r.error == Unorderable
    ensures r.Success? ==> Sorted(r.value, KeyFn(field), desc)
    ensures r.Success? ==> multiset(r.value) == multiset(s)
    ensures r.Success? ==> forall k :: Filter(r.value, KeyFn(field), k) == Filter(s, KeyFn(field), k)
  {
    if !OneKind(s, field) then Failure(Unorderable)
    else
      var out := StableSort(s, KeyFn(field), desc);
      StableSortSorted(s, KeyFn(field), desc);
      assert forall k :: Filter(out, KeyFn(field), k) == Filter(s, KeyFn(field), k) by {
        forall k { StableSortStable(s, KeyFn(field), desc, k); }
      }
      Success(out)
  }

  /** When no record has the field, every key is the default 0 and the sort
      returns the records in their own order. */
  lemma SortByDefaultKeys(s: seq<Record>, field: Field, desc: bool)
    requires forall i :: 0 <= i < |s| ==> field !in s[i]
    ensures SortBy(s, field, desc) == Success(s)
  {
    forall i | 0 <= i < |s| ensures KeyOf(s[i], field) == Num(0) && KeyFn(field)(s[i]) == Num(0) {
    }
    StableSortOneKey(s, KeyFn(field), desc, Num(0));
  }

  /** An update may set age to null; once such a record sits among two or more,
      sorting by age fails, in either direction. */
  lemma NullAgeBreaksAgeSort(s: seq<Record>, i: int)
    requires |s| >= 2 && 0 <= i < |s| && Age in s[i] && s[i][Age] == Null
    ensures SortBy(s, Age, true) == Failure(Unorderable)
    ensures SortBy(s, Age, false) == Failure(Unorderable)
  {
    assert KeyOf(s[i], Age) == NoOrder;
  }
}
