/** The LINQ operators the repository composes, on finite sequences: Where,
    Select, OrderByDescending and SingleOrDefault. A deferred query is modelled
    by the sequence it yields when it is run. */
module Linq {
  import opened Wrappers

  /** Where: the elements that satisfy `keep`, in their original order. */
  function Where<T(!new)>(s: seq<T>, keep: T -> bool): (r: seq<T>)
    ensures |r| <= |s|
    ensures forall x :: x in r <==> x in s && keep(x)
    ensures forall x :: multiset(r)[x] == if keep(x) then multiset(s)[x] else 0
  {
    if s == [] then []
    else
      assert s == [s[0]] + s[1..];
      if keep(s[0]) then [s[0]] + Where(s[1..], keep) else Where(s[1..], keep)
  }

  /** The conjunction of two filters. */
  function Both<T>(p: T -> bool, q: T -> bool): T -> bool {
    x => p(x) && q(x)
  }

  /** Chaining two Where calls is filtering once by their conjunction. */
  lemma {:induction false} WhereWhere<T(!new)>(s: seq<T>, p: T -> bool, q: T -> bool)
    ensures Where(Where(s, p), q) == Where(s, Both(p, q))
  {
    if s != [] {
      WhereWhere(s[1..], p, q);
    }
  }

  /** Where depends only on the values its filter takes. */
  lemma {:induction false} WhereExtensional<T(!new)>(s: seq<T>, f: T -> bool, g: T -> bool)
    requires forall x :: f(x) == g(x)
    ensures Where(s, f) == Where(s, g)
  {
    if s != [] {
      WhereExtensional(s[1..], f, g);
    }
  }

  /** Select: `f` applied to every element, in order. */
  function Select<T, U>(s: seq<T>, f: T -> U): (r: seq<U>)
    ensures |r| == |s|
    ensures forall i :: 0 <= i < |s| ==> r[i] == f(s[i])
  {
    seq(|s|, i requires 0 <= i < |s| => f(s[i]))
  }

  /** Every element's key is at least the key of every element after it. */
  ghost predicate NonIncreasing<T>(s: seq<T>, key: T -> int) {
    forall i, j :: 0 <= i < j < |s| ==> key(s[i]) >= key(s[j])
  }

  /** Places `x` into a sequence sorted by descending key: after the elements
      with a larger key and before those with an equal or smaller one. */
  function InsertDescending<T(!new)>(x: T, s: seq<T>, key: T -> int): (r: seq<T>)
    requires NonIncreasing(s, key)
    ensures NonIncreasing(r, key)
    ensures forall k :: 0 <= k < |r| ==> r[k] == x || r[k] in s
  {
    if s == [] then [x]
    else if key(s[0]) > key(x) then
      var rest := InsertDescending(x, s[1..], key);
      assert forall k :: 0 <= k < |rest| ==> key(rest[k]) <= key(s[0]) by {
        forall k | 0 <= k < |rest| ensures key(rest[k]) <= key(s[0]) {
          if rest[k] != x {
            var j :| 0 <= j < |s[1..]| && s[1..][j] == rest[k];
            assert s[j + 1] == rest[k];
          }
        }
      }
      [s[0]] + rest
    else
      [x] + s
  }

  /** Inserting adds exactly the one element. */
  lemma {:induction false} InsertDescendingAdds<T(!new)>(x: T, s: seq<T>, key: T -> int)
    requires NonIncreasing(s, key)
    ensures multiset(InsertDescending(x, s, key)) == multiset(s) + multiset{x}
  {
    if s != [] && key(s[0]) > key(x) {
      InsertDescendingAdds(x, s[1..], key);
      assert s == [s[0]] + s[1..];
    }
  }

  /** OrderByDescending: the same elements, by non-increasing key. Inserting
      each element in front of the later ones with an equal key keeps ties in
      input order, as LINQ's sort does; a database may order ties otherwise. */
  function OrderByDescending<T(!new)>(s: seq<T>, key: T -> int): (r: seq<T>)
    ensures NonIncreasing(r, key)
    ensures multiset(r) == multiset(s)
    ensures |r| == |s|
  {
    if s == [] then []
    else
      var rest := OrderByDescending(s[1..], key);
      InsertDescendingAdds(s[0], rest, key);
      assert s == [s[0]] + s[1..];
      InsertDescending(s[0], rest, key)
  }

  /** Only whether an element matters counts for SingleOrDefault. */
  ghost predicate OnlyMatchAt<T>(s: seq<T>, keep: T -> bool, i: int) {
    0 <= i < |s| && keep(s[i]) && forall j :: 0 <= j < |s| && j != i ==> !keep(s[j])
  }

  /** SingleOrDefault(keep): the one element that satisfies `keep`, or
      nothing when none does; InvalidOperationException when two or more do. */
  function SingleOrDefault<T>(s: seq<T>, keep: T -> bool): (r: Result<Option<T>, Exception>)
    ensures r == Success(None) <==> forall i :: 0 <= i < |s| ==> !keep(s[i])
    ensures r.Failure? <==> exists i, j :: 0 <= i < j < |s| && keep(s[i]) && keep(s[j])
    ensures r.Failure? ==> r.error == InvalidOperation
    ensures forall i :: OnlyMatchAt(s, keep, i) ==> r == Success(Some(s[i]))
    ensures r.Success? && r.value.Some? ==> exists i :: OnlyMatchAt(s, keep, i) && s[i] == r.value.value
  {
    if s == [] then Success(None)
    else
      var rest := SingleOrDefault(s[1..], keep);
      if !keep(s[0]) then
        assert forall i :: 1 <= i < |s| ==> s[i] == s[1..][i - 1];
        assert forall i :: OnlyMatchAt(s, keep, i) ==> OnlyMatchAt(s[1..], keep, i - 1);
        assert forall i :: OnlyMatchAt(s[1..], keep, i) ==> OnlyMatchAt(s, keep, i + 1);
        rest
      else if rest == Success(None) then
        assert forall i :: 1 <= i < |s| ==> s[i] == s[1..][i - 1];
        assert OnlyMatchAt(s, keep, 0);
        Success(Some(s[0]))
      else
        assert forall i :: 1 <= i < |s| ==> s[i] == s[1..][i - 1];
        assert exists j :: 0 <= j < |s[1..]| && keep(s[1..][j]);
        Failure(InvalidOperation)
  }

  /** SingleOrDefault() with no filter, as called at the end of a query. */
  function Single<T>(s: seq<T>): Result<Option<T>, Exception> {
    SingleOrDefault(s, _ => true)
  }

  /** Filtering first and asking for the single element is SingleOrDefault with
      that filter. */
  lemma {:induction false} SingleOfWhere<T(!new)>(s: seq<T>, keep: T -> bool)
    ensures Single(Where(s, keep)) == SingleOrDefault(s, keep)
  {
    if s != [] {
      SingleOfWhere(s[1..], keep);
      var w := Where(s[1..], keep);
      if keep(s[0]) {
        assert Where(s, keep) == [s[0]] + w;
        assert ([s[0]] + w)[1..] == w;
      }
    }
  }

  /** Mapping an optional value. */
  function MapOption<T, U>(o: Option<T>, f: T -> U): (r: Option<U>)
    ensures r.Some? <==> o.Some?
    ensures o.Some? ==> r.value == f(o.value)
  {
    match o
    case None => None
    case Some(v) => Some(f(v))
  }

  /** Projecting before SingleOrDefault() is projecting its answer. */
  lemma {:induction false} SingleOfSelect<T, U>(s: seq<T>, f: T -> U)
    ensures Single(Select(s, f)) ==
      match Single(s)
      case Success(o) => Success(MapOption(o, f))
      case Failure(e) => Failure(e)
  {
    if s != [] {
      SingleOfSelect(s[1..], f);
      assert Select(s, f)[1..] == Select(s[1..], f);
    }
  }
}
