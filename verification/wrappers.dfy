/** The optional value that Rust's `Option` provides; in this model `None` also stands
    for a call that panics (`expect`, `unwrap`, `panic!`) instead of returning. */
module Wrappers {

  datatype Option<+T> = None | Some(value: T)

  /** The values of the `Some` entries, in order: what a loop keeps when it skips the
      entries that did not parse. */
  function Somes<T>(os: seq<Option<T>>): (r: seq<T>)
    ensures |r| <= |os|
  {
    if os == [] then []
    else
      var init := Somes(os[..|os| - 1]);
      match os[|os| - 1]
      case Some(v) => init + [v]
      case None => init
  }

  /** Every kept value comes from some entry. */
  lemma {:induction false} SomesFrom<T>(os: seq<Option<T>>)
    ensures forall k :: 0 <= k < |Somes(os)| ==> Some(Somes(os)[k]) in os
  {
    if os != [] {
      var n := |os| - 1;
      SomesFrom(os[..n]);
      assert os == os[..n] + [os[n]];
    }
  }

  lemma SomesSnoc<T>(os: seq<Option<T>>, k: nat)
    requires k < |os|
    ensures os[k].None? ==> Somes(os[..k + 1]) == Somes(os[..k])
    ensures os[k].Some? ==> Somes(os[..k + 1]) == Somes(os[..k]) + [os[k].value]
  {
    assert os[..k + 1][..k] == os[..k];
  }

  /** When every entry is a `Some`, nothing is skipped. */
  lemma {:induction false} SomesAll<T>(os: seq<Option<T>>, vs: seq<T>)
    requires |os| == |vs|
    requires forall k :: 0 <= k < |os| ==> os[k] == Some(vs[k])
    ensures Somes(os) == vs
  {
    if os != [] {
      var n := |os| - 1;
      SomesAll(os[..n], vs[..n]);
      assert vs == vs[..n] + [vs[n]];
    }
  }

  /** The values of all the entries, or None as soon as one entry is None: what
      collecting a sequence of results gives when any failure panics. */
  function AllSome<T>(os: seq<Option<T>>): Option<seq<T>>
  {
    if os == [] then Some([])
    else
      match (AllSome(os[..|os| - 1]), os[|os| - 1])
      case (Some(init), Some(v)) => Some(init + [v])
      case _ => None
  }

  /** AllSome keeps every value in order, and fails exactly when some entry is None. */
  lemma {:induction false} AllSomeSpec<T>(os: seq<Option<T>>)
    ensures var r := AllSome(os);
      && (r.None? <==> exists k :: 0 <= k < |os| && os[k].None?)
      && (r.Some? ==> |r.value| == |os| && forall k :: 0 <= k < |os| ==> os[k] == Some(r.value[k]))
  {
    if os != [] {
      var n := |os| - 1;
      AllSomeSpec(os[..n]);
      assert os == os[..n] + [os[n]];
      if AllSome(os[..n]).None? {
        var k :| 0 <= k < n && os[..n][k].None?;
        assert os[k] == os[..n][k];
      }
    }
  }

  /** When every entry holds the matching value, AllSome gives all the values. */
  lemma AllSomeOf<T>(os: seq<Option<T>>, vs: seq<T>)
    requires |os| == |vs|
    requires forall k :: 0 <= k < |os| ==> os[k] == Some(vs[k])
    ensures AllSome(os) == Some(vs)
  {
    AllSomeSpec(os);
    assert forall k :: 0 <= k < |os| ==> os[k].Some?;
    assert AllSome(os).value == vs;
  }
}
