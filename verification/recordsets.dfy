/** The two recordset operations the account-move rules rely on, on
    recordsets seen as ordered sequences of record ids (duplicates kept, as
    the framework keeps them):

    - `Filtered(s, p)`, the framework's `s.filtered(p)`;
    - `Difference(s, t)`, the framework's `s - t`: the records of `s` whose id
      is not in `t`, in `s`'s order.
 */
module Recordsets {

  /** A record's database id. */
  type Id = nat

  function Filtered(s: seq<Id>, p: Id -> bool): (r: seq<Id>)
    ensures |r| <= |s|
    ensures |s| == 1 ==> r == if p(s[0]) then s else []
    ensures forall x :: x in r <==> x in s && p(x)
    ensures forall x :: p(x) ==> multiset(r)[x] == multiset(s)[x]
    ensures forall x :: !p(x) ==> multiset(r)[x] == 0
  {
    if s == [] then []
    else
      var rest := Filtered(s[1..], p);
      assert s == [s[0]] + s[1..];
      assert multiset(s) == multiset{s[0]} + multiset(s[1..]);
      if p(s[0]) then [s[0]] + rest else rest
  }

  function Difference(s: seq<Id>, t: seq<Id>): (r: seq<Id>)
    ensures forall x :: x in r <==> x in s && x !in t
    ensures forall x :: x !in t ==> multiset(r)[x] == multiset(s)[x]
  {
    Filtered(s, x => x !in t)
  }

  /** Filtering keeps the recordset's order: filtering a concatenation is
      filtering each side. With the one-record case of `Filtered`'s contract
      this fixes the result, record by record, as the matching records of
      `s` in `s`'s order. */
  lemma {:induction false} FilteredAppend(a: seq<Id>, b: seq<Id>, p: Id -> bool)
    ensures Filtered(a + b, p) == Filtered(a, p) + Filtered(b, p)
  {
    if a == [] {
      assert a + b == b;
    } else {
      assert (a + b)[0] == a[0];
      assert (a + b)[1..] == a[1..] + b;
      FilteredAppend(a[1..], b, p);
    }
  }

  /** Splitting a recordset by a predicate and removing the matching part
      from the whole leaves exactly the rest: every record of `s` is in one
      of the two parts, as many times as it is in `s`. */
  lemma FilteredAndDifference(s: seq<Id>, p: Id -> bool)
    ensures var matching := Filtered(s, p);
      multiset(matching) + multiset(Difference(s, matching)) == multiset(s)
    ensures var matching := Filtered(s, p);
      forall x :: x in Difference(s, matching) <==> x in s && !p(x)
  {
    var matching := Filtered(s, p);
    var rest := Difference(s, matching);
    forall x
      ensures (multiset(matching) + multiset(rest))[x] == multiset(s)[x]
    {
      if p(x) {
        if x in s {
          assert x in matching;
          assert multiset(rest)[x] == 0;
        } else {
          assert multiset(s)[x] == 0;
        }
      } else {
        assert x !in matching;
        assert multiset(rest)[x] == multiset(s)[x];
      }
    }
    assert multiset(matching) + multiset(rest) == multiset(s);
  }
}
