/**
 * The array operations the handlers use: `find` by identifier, `filter` by
 * identifier, `map` and `slice(0, n)`.
 */
module Sequences {
  import opened Wrappers

  /** The request field `wanted` names `x`: it is present and equal to x's identifier. */
  predicate Matches<T>(x: T, idOf: T -> string, wanted: Option<string>)
  {
    wanted == Some(idOf(x))
  }

  /** No two elements share an identifier. */
  predicate DistinctIds<T>(s: seq<T>, idOf: T -> string)
  {
    forall i, j :: 0 <= i < j < |s| ==> idOf(s[i]) != idOf(s[j])
  }

  /** Index of the first element named by `wanted`, as `Array.prototype.find` picks it. */
  function Find<T>(s: seq<T>, idOf: T -> string, wanted: Option<string>): (r: Option<nat>)
    ensures r.Some? ==> r.value < |s| && Matches(s[r.value], idOf, wanted)
    ensures r.Some? ==> forall k :: 0 <= k < r.value ==> !Matches(s[k], idOf, wanted)
    ensures r.None? <==> forall k :: 0 <= k < |s| ==> !Matches(s[k], idOf, wanted)
  {
    if s == [] then None
    else if Matches(s[0], idOf, wanted) then Some(0)
    else match Find(s[1..], idOf, wanted)
      case None => None
      case Some(i) => Some(i + 1)
  }

  /** The elements not named by `wanted`, in their original order (`filter` with `!==`). */
  function Without<T>(s: seq<T>, idOf: T -> string, wanted: Option<string>): (r: seq<T>)
    ensures |r| <= |s|
    ensures forall k :: 0 <= k < |r| ==> r[k] in s && !Matches(r[k], idOf, wanted)
    ensures forall k :: 0 <= k < |s| && !Matches(s[k], idOf, wanted) ==> s[k] in r
  {
    if s == [] then []
    else if Matches(s[0], idOf, wanted) then Without(s[1..], idOf, wanted)
    else [s[0]] + Without(s[1..], idOf, wanted)
  }

  /** One step of the filter: the head is kept exactly when it is not named. */
  lemma WithoutCons<T>(x: T, s: seq<T>, idOf: T -> string, wanted: Option<string>)
    ensures Without([x] + s, idOf, wanted) == (if Matches(x, idOf, wanted) then [] else [x]) + Without(s, idOf, wanted)
  {
    assert ([x] + s)[0] == x && ([x] + s)[1..] == s;
  }

  /**
   * Filtering works element by element and keeps the order: filtering a
   * concatenation is concatenating the filtered parts.
   */
  lemma {:induction false} WithoutAppend<T>(a: seq<T>, b: seq<T>, idOf: T -> string, wanted: Option<string>)
    ensures Without(a + b, idOf, wanted) == Without(a, idOf, wanted) + Without(b, idOf, wanted)
  {
    if a == [] {
      assert a + b == b;
    } else {
      var rest := a[1..];
      var head := if Matches(a[0], idOf, wanted) then [] else [a[0]];
      assert a == [a[0]] + rest;
      assert a + b == [a[0]] + (rest + b);
      calc {
        Without(a + b, idOf, wanted);
        { WithoutCons(a[0], rest + b, idOf, wanted); }
        head + Without(rest + b, idOf, wanted);
        { WithoutAppend(rest, b, idOf, wanted); }
        head + (Without(rest, idOf, wanted) + Without(b, idOf, wanted));
        (head + Without(rest, idOf, wanted)) + Without(b, idOf, wanted);
        { WithoutCons(a[0], rest, idOf, wanted); }
        Without(a, idOf, wanted) + Without(b, idOf, wanted);
      }
    }
  }

  /** A single element survives the filter exactly when it is not named. */
  lemma WithoutSingle<T>(x: T, idOf: T -> string, wanted: Option<string>)
    ensures Without([x], idOf, wanted) == if Matches(x, idOf, wanted) then [] else [x]
  {
  }

  /** Filtering out a name nothing carries changes nothing. */
  lemma {:induction false} WithoutNothing<T>(s: seq<T>, idOf: T -> string, wanted: Option<string>)
    requires forall k :: 0 <= k < |s| ==> !Matches(s[k], idOf, wanted)
    ensures Without(s, idOf, wanted) == s
  {
    if s != [] {
      WithoutNothing(s[1..], idOf, wanted);
    }
  }

  /**
   * With distinct identifiers, filtering out the identifier of element `i`
   * removes exactly that element and keeps the others in their order.
   */
  lemma {:induction false} WithoutExactlyOne<T>(s: seq<T>, idOf: T -> string, i: nat)
    requires i < |s| && DistinctIds(s, idOf)
    ensures Without(s, idOf, Some(idOf(s[i]))) == s[..i] + s[i + 1..]
  {
    var wanted := Some(idOf(s[i]));
    if i == 0 {
      WithoutNothing(s[1..], idOf, wanted);
    } else {
      assert !Matches(s[0], idOf, wanted);
      WithoutExactlyOne(s[1..], idOf, i - 1);
      assert s[1..][i - 1] == s[i];
      assert s[..i] == [s[0]] + s[1..][..i - 1];
      assert s[i + 1..] == s[1..][i..];
    }
  }

  /** `find` looks only at identifiers: sequences with the same identifiers position by position give the same answer. */
  lemma FindSameIds<T>(s: seq<T>, s': seq<T>, idOf: T -> string, wanted: Option<string>)
    requires |s| == |s'|
    requires forall k :: 0 <= k < |s| ==> idOf(s[k]) == idOf(s'[k])
    ensures Find(s, idOf, wanted) == Find(s', idOf, wanted)
  {
  }

  /** `Array.prototype.map`. */
  function Map<A, B>(f: A -> B, s: seq<A>): (r: seq<B>)
    ensures |r| == |s|
    ensures forall k :: 0 <= k < |s| ==> r[k] == f(s[k])
  {
    if s == [] then [] else [f(s[0])] + Map(f, s[1..])
  }

  /** `slice(0, n)`: the first n elements, or all of them when there are fewer. */
  function Take<T>(s: seq<T>, n: nat): (r: seq<T>)
    ensures |r| == if |s| < n then |s| else n
    ensures r == s[..|r|]
  {
    if |s| <= n then s else s[..n]
  }
}
