/**
 * The shape shared by getSecrets, getConfigmaps and getPVCs: walk a slice in
 * order and append something to the result for those elements that contribute.
 * FilterMap is that loop's meaning; the lemmas say which output position each
 * contributing element lands in, and that nothing else lands anywhere.
 */
module Seqs {
  import opened Wrappers

  /** The payload of an Option as a sequence of length zero or one. */
  function OptionSeq<U>(o: Option<U>): (r: seq<U>)
    ensures |r| <= 1
    ensures o.Some? <==> |r| == 1
    ensures o.Some? ==> r[0] == o.value
  {
    match o
    case Some(u) => [u]
    case None => []
  }

  /** f can be applied to every element of s. */
  ghost predicate DefinedOn<T, U>(s: seq<T>, f: T --> Option<U>)
  {
    forall i :: 0 <= i < |s| ==> f.requires(s[i])
  }

  /** How many elements of s contribute (are mapped to Some by f). */
  function Hits<T, U>(s: seq<T>, f: T --> Option<U>): (n: nat)
    requires DefinedOn(s, f)
    ensures n <= |s|
  {
    if |s| == 0 then 0
    else Hits(s[..|s| - 1], f) + (if f(s[|s| - 1]).Some? then 1 else 0)
  }

  /** The contributions of the elements of s, in the order of s. */
  function FilterMap<T, U>(s: seq<T>, f: T --> Option<U>): (r: seq<U>)
    requires DefinedOn(s, f)
    ensures |r| == Hits(s, f)
  {
    if |s| == 0 then []
    else FilterMap(s[..|s| - 1], f) + OptionSeq(f(s[|s| - 1]))
  }

  /** One more loop iteration appends exactly the contribution of the new element. */
  lemma FilterMapSnoc<T, U>(s: seq<T>, x: T, f: T --> Option<U>)
    requires DefinedOn(s, f) && f.requires(x)
    ensures DefinedOn(s + [x], f)
    ensures FilterMap(s + [x], f) == FilterMap(s, f) + OptionSeq(f(x))
    ensures Hits(s + [x], f) == Hits(s, f) + |OptionSeq(f(x))|
  {
    assert (s + [x])[..|s|] == s;
  }

  /**
   * Order: a contributing element at index i lands at position Hits(s[..i], f),
   * i.e. after the contributions of exactly the elements before it.
   */
  lemma {:induction false} FilterMapAt<T, U>(s: seq<T>, f: T --> Option<U>, i: nat)
    requires DefinedOn(s, f)
    requires i < |s| && f(s[i]).Some?
    ensures Hits(s[..i], f) < |FilterMap(s, f)|
    ensures FilterMap(s, f)[Hits(s[..i], f)] == f(s[i]).value
  {
    var p := s[..|s| - 1];
    if i == |s| - 1 {
      assert s[..i] == p;
    } else {
      assert p[..i] == s[..i] && p[i] == s[i];
      FilterMapAt(p, f, i);
    }
  }

  /** Conversely, every output position k comes from a contributing element i with Hits(s[..i], f) == k. */
  lemma {:induction false} FilterMapOrigin<T, U>(s: seq<T>, f: T --> Option<U>, k: nat) returns (i: nat)
    requires DefinedOn(s, f)
    requires k < |FilterMap(s, f)|
    ensures i < |s|
    ensures f(s[i]) == Some(FilterMap(s, f)[k])
    ensures Hits(s[..i], f) == k
  {
    var p := s[..|s| - 1];
    if k < |FilterMap(p, f)| {
      i := FilterMapOrigin(p, f, k);
      assert p[..i] == s[..i] && p[i] == s[i];
    } else {
      i := |s| - 1;
      assert s[..i] == p;
    }
  }

  /** A value is in the output exactly when some element contributes it. */
  lemma FilterMapMembership<T, U>(s: seq<T>, f: T --> Option<U>, x: U)
    requires DefinedOn(s, f)
    ensures x in FilterMap(s, f) <==> exists i :: 0 <= i < |s| && f(s[i]) == Some(x)
  {
    var r := FilterMap(s, f);
    if x in r {
      var k :| 0 <= k < |r| && r[k] == x;
      var i := FilterMapOrigin(s, f, k);
    }
    if exists i :: 0 <= i < |s| && f(s[i]) == Some(x) {
      var i :| 0 <= i < |s| && f(s[i]) == Some(x);
      FilterMapAt(s, f, i);
    }
  }
}
