/** The least key of a non-empty key set: where std::map iteration starts. */
module Keys {
  ghost function Pick<T>(s: set<T>): (a: T)
    requires s != {}
    ensures a in s
  {
    var a :| a in s;
    a
  }

  lemma LeastExists(s: set<int>)
    requires s != {}
    ensures exists k :: k in s && forall x | x in s :: k <= x
  {
    var a := Pick(s);
    var t := s - {a};
    if t != {} {
      LeastExists(t);
      var b :| b in t && forall x | x in t :: b <= x;
      var k := if a <= b then a else b;
      assert k in s && forall x | x in s :: x == a || x in t;
    } else {
      assert s == {a};
    }
  }

  ghost function Least(s: set<int>): (k: int)
    requires s != {}
    ensures k in s && forall x | x in s :: k <= x
  {
    LeastExists(s);
    var k :| k in s && forall x | x in s :: k <= x;
    k
  }
}
