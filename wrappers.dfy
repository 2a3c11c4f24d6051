/** The optional value used for Python's `None`, and the two ways the
    scraper consumes a sequence of results: collecting the present ones into
    a set, and finding the first position that holds. */
module Wrappers {

  datatype Option<+T> = None | Some(value: T) {

    /** Python's `x or default` for a value that is either absent or truthy. */
    function GetOr(default: T): T {
      if Some? then value else default
    }
  }

  /** The values present among `opts`: the set a loop fills by adding each
      present value in turn. */
  function Collect<T(==)>(opts: seq<Option<T>>): set<T> {
    if opts == [] then {} else Collect(opts[..|opts| - 1]) + (if opts[|opts| - 1].Some? then {opts[|opts| - 1].value} else {})
  }

  lemma {:induction false} CollectIff<T>(opts: seq<Option<T>>, u: T)
    ensures u in Collect(opts) <==> Some(u) in opts
  {
    if opts != [] {
      var init := opts[..|opts| - 1];
      CollectIff(init, u);
      assert opts == init + [opts[|opts| - 1]];
    }
  }

  lemma CollectStep<T>(opts: seq<Option<T>>, i: nat)
    requires i < |opts|
    ensures Collect(opts[..i + 1]) == Collect(opts[..i]) + (if opts[i].Some? then {opts[i].value} else {})
  {
    assert opts[..i + 1][..i] == opts[..i];
  }

  /** The first position at or after `from` that holds `true`. */
  function FirstTrue(bs: seq<bool>, from: nat): (r: Option<nat>)
    requires from <= |bs|
    ensures r.Some? ==> from <= r.value < |bs| && bs[r.value]
    ensures forall k :: from <= k < |bs| && (r.None? || k < r.value) ==> !bs[k]
    decreases |bs| - from
  {
    if from == |bs| then None
    else if bs[from] then Some(from)
    else FirstTrue(bs, from + 1)
  }
}
