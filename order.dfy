/**
  Python's ordering of strings (code point by code point, a proper prefix
  first) and `sorted(...)` applied to a set of strings.
*/
module Order {

  /** `a < b` on Python strings. */
  predicate Below(a: string, b: string) {
    if a == [] then b != []
    else if b == [] then false
    else if a[0] != b[0] then a[0] < b[0]
    else Below(a[1..], b[1..])
  }

  lemma {:induction false} BelowIrreflexive(a: string)
    ensures !Below(a, a)
  {
    if a != [] {
      BelowIrreflexive(a[1..]);
    }
  }

  lemma {:induction false} BelowTransitive(a: string, b: string, c: string)
    requires Below(a, b) && Below(b, c)
    ensures Below(a, c)
  {
    if a != [] && b != [] && c != [] && a[0] == b[0] && b[0] == c[0] {
      BelowTransitive(a[1..], b[1..], c[1..]);
    }
  }

  lemma {:induction false} BelowTotal(a: string, b: string)
    requires a != b
    ensures Below(a, b) || Below(b, a)
  {
    if a != [] && b != [] && a[0] == b[0] {
      assert a == [a[0]] + a[1..] && b == [b[0]] + b[1..];
      BelowTotal(a[1..], b[1..]);
    }
  }

  /** Ascending with no repeats. */
  predicate StrictlySorted(s: seq<string>) {
    forall i, j :: 0 <= i < j < |s| ==> Below(s[i], s[j])
  }

  lemma SortedDistinct(s: seq<string>)
    requires StrictlySorted(s)
    ensures forall i, j :: 0 <= i < j < |s| ==> s[i] != s[j]
  {
    forall i, j | 0 <= i < j < |s|
      ensures s[i] != s[j]
    {
      BelowIrreflexive(s[i]);
    }
  }

  /** Puts `x` into its place in a sorted list, unless it is there already. */
  function Insert(s: seq<string>, x: string): (r: seq<string>)
    requires StrictlySorted(s)
    ensures StrictlySorted(r)
    ensures forall u :: u in r <==> u in s || u == x
  {
    if s == [] then [x]
    else if x == s[0] then s
    else if Below(x, s[0]) then
      assert forall j :: 0 <= j < |s| ==> Below(x, s[j]) by {
        forall j | 0 < j < |s| ensures Below(x, s[j]) {
          BelowTransitive(x, s[0], s[j]);
        }
      }
      [x] + s
    else
      BelowTotal(x, s[0]);
      var rest := Insert(s[1..], x);
      assert forall u :: u in rest ==> Below(s[0], u);
      [s[0]] + rest
  }

  /** The head of a sorted list is not below any element of an equal-membership
      sorted list. */
  lemma HeadNotBelow(s: seq<string>, t: seq<string>)
    requires StrictlySorted(s) && StrictlySorted(t) && s != [] && t != []
    requires forall u :: u in s <==> u in t
    ensures !Below(s[0], t[0])
  {
    if Below(s[0], t[0]) {
      assert s[0] in t;
      var j :| 0 <= j < |t| && t[j] == s[0];
      BelowIrreflexive(s[0]);
      if j != 0 {
        BelowTransitive(t[0], t[j], t[0]);
        BelowIrreflexive(t[0]);
      }
    }
  }

  /** A list whose elements all occur in `t` leaves `t` non-empty unless it is
      empty itself. */
  lemma NonEmptyMembers(s: seq<string>, t: seq<string>)
    requires forall u :: u in s ==> u in t
    ensures s != [] ==> t != []
  {
    if s != [] {
      assert s[0] in s;
    }
  }

  /** Two sorted lists with the same elements are the same list. */
  lemma {:induction false} SortedUnique(s: seq<string>, t: seq<string>)
    requires StrictlySorted(s) && StrictlySorted(t)
    requires forall u :: u in s <==> u in t
    ensures s == t
  {
    if s == [] && t == [] {
    } else if s == [] {
      NonEmptyMembers(t, s);
    } else if t == [] {
      NonEmptyMembers(s, t);
    } else {
      HeadNotBelow(s, t);
      HeadNotBelow(t, s);
      if s[0] != t[0] {
        BelowTotal(s[0], t[0]);
      }
      forall u ensures u in s[1..] <==> u in t[1..] {
        if u in s[1..] {
          var i :| 0 <= i < |s| - 1 && s[1..][i] == u;
          BelowIrreflexive(u);
          assert Below(s[0], s[i + 1]) && s[i + 1] == u && u in s;
          assert u in t;
          var j :| 0 <= j < |t| && t[j] == u;
          assert j != 0;
          assert t[1..][j - 1] == u;
        }
        if u in t[1..] {
          var i :| 0 <= i < |t| - 1 && t[1..][i] == u;
          BelowIrreflexive(u);
          assert Below(t[0], t[i + 1]) && t[i + 1] == u && u in t;
          assert u in s;
          var j :| 0 <= j < |s| && s[j] == u;
          assert j != 0;
          assert s[1..][j - 1] == u;
        }
      }
      SortedUnique(s[1..], t[1..]);
    }
  }

  /** `sorted(xs)` for a set `xs` of strings: its elements in ascending order,
      each once. */
  method SortedList(xs: set<string>) returns (r: seq<string>)
    ensures StrictlySorted(r)
    ensures forall u :: u in r <==> u in xs
  {
    r := [];
    var rest := xs;
    while rest != {}
      invariant StrictlySorted(r)
      invariant forall u :: u in r || u in rest <==> u in xs
      decreases |rest|
    {
      var x :| x in rest;
      r := Insert(r, x);
      rest := rest - {x};
    }
  }
}
