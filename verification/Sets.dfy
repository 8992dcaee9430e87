/** Largest elements and sizes of finite sets. */
module Sets {
  lemma {:induction false} LargestExists(all: set<int>, some: int)
    requires some in all
    ensures exists d :: d in all && d >= some && forall x :: x in all ==> x <= d
    decreases all
  {
    if larger :| larger in all && larger > some {
      LargestExists(all - {some}, larger);
      assert forall x :: x in all ==> x == some || x in all - {some};
    }
  }

  /** MAX of values, one of which is known. */
  function Largest(all: set<int>, some: int): (d: int)
    requires some in all
    ensures d in all && forall x :: x in all ==> x <= d
  {
    LargestExists(all, some);
    var d :| d in all && forall x :: x in all ==> x <= d;
    d
  }

  function Range(n: nat): (r: set<int>)
    ensures |r| == n && forall k :: k in r <==> 0 <= k < n
  {
    if n == 0 then {} else Range(n - 1) + {n - 1}
  }

  lemma Gather<T>(a: set<T>, b: set<T>, x: T)
    ensures a + b + {x} == a + (b + {x})
    ensures x !in a + b ==> |a + b + {x}| == |a + b| + 1
  {
  }
}
