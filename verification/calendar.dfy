/**
 Calendar helpers: a calendar date is modelled as an integer day number, so that
 `date + timedelta(n)` is `d + n` and `(end - start).days` is `end - start`.
 */
module Calendar {

  /** The generator `daterange(start, end)`: the days start, start+1, ..., end-1. */
  function DateRange(start: int, end: int): (r: seq<int>)
    ensures |r| == if start < end then end - start else 0
    ensures forall i :: 0 <= i < |r| ==> r[i] == start + i
    ensures forall d :: d in r <==> start <= d < end
    decreases end - start
  {
    if end <= start then [] else [start] + DateRange(start + 1, end)
  }

  lemma EmptyWhenNoMember(s: set<int>)
    requires forall y :: y !in s
    ensures s == {}
  {
    assert forall y :: y in s <==> y in {};
  }

  /** Some element of a non-empty set. */
  lemma Element(s: set<int>) returns (x: int)
    requires s != {}
    ensures x in s
  {
    if forall y :: y !in s {
      EmptyWhenNoMember(s);
      assert false;
    }
    x :| x in s;
  }

  lemma {:induction false} MinExists(s: set<int>)
    requires s != {}
    ensures exists m :: m in s && forall y :: y in s ==> m <= y
    decreases s
  {
    var x := Element(s);
    if s == {x} {
      assert forall y :: y in s ==> x <= y;
    } else {
      MinExists(s - {x});
      var m :| m in s - {x} && forall y :: y in s - {x} ==> m <= y;
      var least := if x < m then x else m;
      forall y | y in s
        ensures least <= y
      {
        if y != x {
          assert y in s - {x};
        }
      }
      assert least in s;
    }
  }

  lemma {:induction false} MaxExists(s: set<int>)
    requires s != {}
    ensures exists m :: m in s && forall y :: y in s ==> y <= m
    decreases s
  {
    var x := Element(s);
    if s == {x} {
      assert forall y :: y in s ==> y <= x;
    } else {
      MaxExists(s - {x});
      var m :| m in s - {x} && forall y :: y in s - {x} ==> y <= m;
      var greatest := if m < x then x else m;
      forall y | y in s
        ensures y <= greatest
      {
        if y != x {
          assert y in s - {x};
        }
      }
      assert greatest in s;
    }
  }

  /** Python's `min(dates)` on a non-empty set of days. */
  function SetMin(s: set<int>): (m: int)
    requires s != {}
    ensures m in s
    ensures forall y :: y in s ==> m <= y
  {
    MinExists(s);
    var m :| m in s && forall y :: y in s ==> m <= y;
    m
  }

  /** Python's `max(dates)` on a non-empty set of days. */
  function SetMax(s: set<int>): (m: int)
    requires s != {}
    ensures m in s
    ensures forall y :: y in s ==> y <= m
  {
    MaxExists(s);
    var m :| m in s && forall y :: y in s ==> y <= m;
    m
  }

  /** Python's `reversed(days)`, used to show the newest day first. */
  function Reverse<T>(s: seq<T>): (r: seq<T>)
    ensures |r| == |s|
    ensures forall i :: 0 <= i < |s| ==> r[i] == s[|s| - 1 - i]
  {
    if s == [] then [] else Reverse(s[1..]) + [s[0]]
  }
}
