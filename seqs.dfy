/**
 * Sequence combinators for the source's loops: order-preserving filtering (an `if`-guarded
 * append), mapping, and a traversal that stops at the first error raised.
 */
module Seqs {
  import opened Wrappers

  /** The elements of `s` that satisfy `p`, in their original order. */
  function Filter<T>(s: seq<T>, p: T -> bool): (r: seq<T>)
    ensures |r| <= |s|
    ensures forall k :: 0 <= k < |r| ==> p(r[k])
  {
    if s == [] then []
    else Filter(s[..|s| - 1], p) + (if p(s[|s| - 1]) then [s[|s| - 1]] else [])
  }

  /** How many elements of `s` satisfy `p`. */
  function Count<T>(s: seq<T>, p: T -> bool): nat {
    if s == [] then 0
    else Count(s[..|s| - 1], p) + (if p(s[|s| - 1]) then 1 else 0)
  }

  lemma FilterAppend<T>(s: seq<T>, x: T, p: T -> bool)
    ensures Filter(s + [x], p) == Filter(s, p) + (if p(x) then [x] else [])
  {
    assert (s + [x])[..|s|] == s;
  }

  lemma {:induction false} FilterLength<T>(s: seq<T>, p: T -> bool)
    ensures |Filter(s, p)| == Count(s, p)
  {
    if s != [] {
      FilterLength(s[..|s| - 1], p);
    }
  }

  lemma {:induction false} FilterMembers<T>(s: seq<T>, p: T -> bool, x: T)
    ensures x in Filter(s, p) <==> x in s && p(x)
  {
    if s != [] {
      var init := s[..|s| - 1];
      FilterMembers(init, p, x);
      assert s == init + [s[|s| - 1]];
    }
  }

  /**
   * The element at position `k` of `s`, when it satisfies `p`, is found in the filtered
   * sequence at the index given by the number of satisfying elements before it.
   */
  lemma {:induction false} FilterPosition<T>(s: seq<T>, p: T -> bool, k: nat)
    requires k < |s| && p(s[k])
    ensures Count(s[..k], p) < |Filter(s, p)| && Filter(s, p)[Count(s[..k], p)] == s[k]
  {
    var init := s[..|s| - 1];
    FilterLength(init, p);
    if k == |s| - 1 {
      assert s[..k] == init;
    } else {
      FilterPosition(init, p, k);
      assert init[..k] == s[..k];
    }
  }

  lemma {:induction false} FilterNoneSatisfy<T>(s: seq<T>, p: T -> bool)
    ensures Filter(s, p) == [] <==> forall k :: 0 <= k < |s| ==> !p(s[k])
  {
    if s != [] {
      FilterNoneSatisfy(s[..|s| - 1], p);
      assert forall k :: 0 <= k < |s| - 1 ==> s[..|s| - 1][k] == s[k];
    }
  }

  /** `[f(x) for x in s]` */
  function Map<A, B>(s: seq<A>, f: A -> B): (r: seq<B>)
    ensures |r| == |s|
    ensures forall k :: 0 <= k < |s| ==> r[k] == f(s[k])
  {
    seq(|s|, k requires 0 <= k < |s| => f(s[k]))
  }

  lemma MapAppend<A, B>(s: seq<A>, x: A, f: A -> B)
    ensures Map(s + [x], f) == Map(s, f) + [f(x)]
  {
  }

  /**
   * Applies `f` to the elements of `s` in order and collects the results, or gives the
   * error of the first element on which `f` fails (a loop whose body may raise).
   */
  function MapAll<A, B, E>(s: seq<A>, f: A -> Result<B, E>): (r: Result<seq<B>, E>)
    ensures r.Success? ==> |r.value| == |s|
  {
    if s == [] then Success([])
    else
      match MapAll(s[..|s| - 1], f)
      case Failure(e) => Failure(e)
      case Success(init) =>
        match f(s[|s| - 1])
        case Failure(e) => Failure(e)
        case Success(y) => Success(init + [y])
  }

  lemma MapAllAppend<A, B, E>(s: seq<A>, x: A, f: A -> Result<B, E>)
    ensures MapAll(s + [x], f) ==
            match MapAll(s, f)
            case Failure(e) => Failure(e)
            case Success(init) =>
              match f(x)
              case Failure(e) => Failure(e)
              case Success(y) => Success(init + [y])
  {
    assert (s + [x])[..|s|] == s;
  }

  /** `f` succeeds on every element exactly when the traversal succeeds, with `f`'s results in order. */
  lemma {:induction false} MapAllSuccess<A, B, E>(s: seq<A>, f: A -> Result<B, E>)
    ensures MapAll(s, f).Success? <==> forall k :: 0 <= k < |s| ==> f(s[k]).Success?
    ensures MapAll(s, f).Success? ==>
              forall k :: 0 <= k < |s| ==> f(s[k]) == Success(MapAll(s, f).value[k])
  {
    if s != [] {
      var init := s[..|s| - 1];
      MapAllSuccess(init, f);
      assert forall k :: 0 <= k < |init| ==> init[k] == s[k];
    }
  }

  /** A failed traversal reports the error of the first element on which `f` fails. */
  lemma {:induction false} MapAllFirstError<A, B, E>(s: seq<A>, f: A -> Result<B, E>, k: nat)
    requires k < |s| && f(s[k]).Failure?
    requires forall j :: 0 <= j < k ==> f(s[j]).Success?
    ensures MapAll(s, f) == Failure(f(s[k]).error)
  {
    var init := s[..|s| - 1];
    if k == |s| - 1 {
      MapAllSuccess(init, f);
    } else {
      MapAllFirstError(init, f, k);
    }
  }

  /** Once a prefix fails, the whole traversal fails with the same error. */
  lemma {:induction false} MapAllPrefixFailure<A, B, E>(s: seq<A>, i: nat, f: A -> Result<B, E>)
    requires i <= |s| && MapAll(s[..i], f).Failure?
    ensures MapAll(s, f) == MapAll(s[..i], f)
    decreases |s| - i
  {
    if i < |s| {
      MapAllAppend(s[..i], s[i], f);
      assert s[..i + 1] == s[..i] + [s[i]];
      MapAllPrefixFailure(s, i + 1, f);
    } else {
      assert s[..i] == s;
    }
  }

  /** The position in `s` of element `j` of the filtered sequence. */
  lemma FilterSource<T>(s: seq<T>, p: T -> bool, j: nat) returns (k: nat)
    requires j < |Filter(s, p)|
    ensures k < |s| && p(s[k]) && Filter(s, p)[j] == s[k]
  {
    FilterMembers(s, p, Filter(s, p)[j]);
    k :| 0 <= k < |s| && s[k] == Filter(s, p)[j];
  }

  /** One more step of the traversal: it stops with the error of `s[i]`, or extends the results by one. */
  lemma MapAllStep<A, B, E>(s: seq<A>, i: nat, f: A -> Result<B, E>, done: seq<B>)
    requires i < |s| && MapAll(s[..i], f) == Success(done)
    ensures f(s[i]).Failure? ==> MapAll(s, f) == Failure(f(s[i]).error)
    ensures f(s[i]).Success? ==> MapAll(s[..i + 1], f) == Success(done + [f(s[i]).value])
  {
    MapAllAppend(s[..i], s[i], f);
    assert s[..i + 1] == s[..i] + [s[i]];
    if f(s[i]).Failure? {
      MapAllPrefixFailure(s, i + 1, f);
    }
  }
}
