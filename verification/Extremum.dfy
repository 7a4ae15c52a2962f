/** Least and greatest members of finite sets of integers. */
module Extremum {
  lemma Inhabited(s: set<int>)
    ensures s == {} || exists y :: y in s
  {
    if forall y :: y !in s { assert s == {}; }
  }

  ghost predicate IsLeast(s: set<int>, x: int) {
    x in s && forall y | y in s :: x <= y
  }

  lemma {:induction false} LeastExists(s: set<int>)
    requires s != {}
    ensures exists x :: IsLeast(s, x)
    decreases |s|
  {
    Inhabited(s);
    var y :| y in s;
    var rest := s - {y};
    if rest == {} {
      assert s == {y};
      assert IsLeast(s, y);
    } else {
      LeastExists(rest);
      var x :| IsLeast(rest, x);
      assert forall z | z in s :: z == y || z in rest;
      assert IsLeast(s, if x < y then x else y);
    }
  }

  ghost function Least(s: set<int>): (x: int)
    requires s != {}
    ensures IsLeast(s, x)
  {
    LeastExists(s);
    var x :| IsLeast(s, x);
    x
  }

  ghost predicate IsGreatest(s: set<int>, x: int) {
    x in s && forall y | y in s :: y <= x
  }

  lemma {:induction false} GreatestExists(s: set<int>)
    requires s != {}
    ensures exists x :: IsGreatest(s, x)
    decreases |s|
  {
    Inhabited(s);
    var y :| y in s;
    var rest := s - {y};
    if rest == {} {
      assert s == {y};
      assert IsGreatest(s, y);
    } else {
      GreatestExists(rest);
      var x :| IsGreatest(rest, x);
      assert forall z | z in s :: z == y || z in rest;
      assert IsGreatest(s, if x > y then x else y);
    }
  }

  ghost function Greatest(s: set<int>): (x: int)
    requires s != {}
    ensures IsGreatest(s, x)
  {
    GreatestExists(s);
    var x :| IsGreatest(s, x);
    x
  }
}
