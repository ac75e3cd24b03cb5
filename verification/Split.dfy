/** Cutting a text at every separator, as JWT::verify and QRPayload::decode do. */
module Split {

  predicate Free<T(==)>(t: seq<T>, sep: T) {
    forall i :: 0 <= i < |t| ==> t[i] != sep
  }

  /** One character: a separator opens a part, any other joins the last part. */
  function Take<T(==)>(p: seq<seq<T>>, x: T, sep: T): (q: seq<seq<T>>)
    requires |p| > 0
    ensures |q| > 0
  {
    if x == sep then p + [[]] else p[..|p| - 1] + [p[|p| - 1] + [x]]
  }

  /** The parts of t between separators; there is always at least one. */
  function Parts<T(==)>(t: seq<T>, sep: T): (p: seq<seq<T>>)
    ensures |p| > 0
  {
    if t == [] then [[]] else Take(Parts(t[..|t| - 1], sep), t[|t| - 1], sep)
  }

  /** The text that has the given parts. */
  function Join<T>(p: seq<seq<T>>, sep: T): seq<T>
    requires |p| > 0
  {
    if |p| == 1 then p[0] else Join(p[..|p| - 1], sep) + [sep] + p[|p| - 1]
  }

  lemma {:induction false} PartsAreFree<T>(t: seq<T>, sep: T)
    ensures forall i :: 0 <= i < |Parts(t, sep)| ==> Free(Parts(t, sep)[i], sep)
  {
    if t != [] {
      PartsAreFree(t[..|t| - 1], sep);
    }
  }

  lemma JoinOfTake<T>(p: seq<seq<T>>, x: T, sep: T)
    requires |p| > 0
    ensures Join(Take(p, x, sep), sep) == Join(p, sep) + [x]
  {
    if x == sep {
      LastJoined(p, [], sep);
    } else if |p| == 1 {
      assert Take(p, x, sep) == [p[0] + [x]];
    } else {
      var init, last := p[..|p| - 1], p[|p| - 1];
      InitAndLast(p);
      LastJoined(init, last, sep);
      LastJoined(init, last + [x], sep);
    }
  }

  lemma InitAndLast<T>(p: seq<T>)
    requires |p| > 0
    ensures p == p[..|p| - 1] + [p[|p| - 1]]
  {
  }

  lemma LastJoined<T>(p: seq<seq<T>>, part: seq<T>, sep: T)
    requires |p| > 0
    ensures Join(p + [part], sep) == Join(p, sep) + [sep] + part
  {
    assert (p + [part])[..|p|] == p;
  }

  /** Splitting loses nothing. */
  lemma {:induction false} JoinOfParts<T>(t: seq<T>, sep: T)
    ensures Join(Parts(t, sep), sep) == t
  {
    if t != [] {
      var init, last := t[..|t| - 1], t[|t| - 1];
      JoinOfParts(init, sep);
      JoinOfTake(Parts(init, sep), last, sep);
    }
  }

  lemma {:induction false} PartsOfFree<T>(t: seq<T>, sep: T)
    requires Free(t, sep)
    ensures Parts(t, sep) == [t]
  {
    if t != [] {
      PartsOfFree(t[..|t| - 1], sep);
      assert t == t[..|t| - 1] + [t[|t| - 1]];
    }
  }

  lemma PartsAppend<T>(t: seq<T>, x: T, sep: T)
    ensures Parts(t + [x], sep) == Take(Parts(t, sep), x, sep)
  {
    assert (t + [x])[..|t|] == t;
  }

  /** A separator splits the parts in two. */
  lemma {:induction false} PartsOfConcat<T>(a: seq<T>, b: seq<T>, sep: T)
    ensures Parts(a + [sep] + b, sep) == Parts(a, sep) + Parts(b, sep)
  {
    hide Take, Parts;
    if b == [] {
      assert a + [sep] + b == a + [sep];
      PartsAppend(a, sep, sep);
      SeparatorTaken(Parts(a, sep), sep);
    } else {
      var init, last := b[..|b| - 1], b[|b| - 1];
      assert b == init + [last] && a + [sep] + b == a + [sep] + init + [last];
      PartsAppend(a + [sep] + init, last, sep);
      PartsAppend(init, last, sep);
      PartsOfConcat(a, init, sep);
      TakeOfConcat(Parts(a, sep), Parts(init, sep), last, sep);
    }
  }

  lemma SeparatorTaken<T>(p: seq<seq<T>>, sep: T)
    requires |p| > 0
    ensures Take(p, sep, sep) == p + Parts([], sep)
  {
  }

  lemma TakeOfConcat<T>(p: seq<seq<T>>, q: seq<seq<T>>, x: T, sep: T)
    requires |q| > 0
    ensures Take(p + q, x, sep) == p + Take(q, x, sep)
  {
    var pq := p + q;
    assert pq[..|pq| - 1] == p + q[..|q| - 1];
  }

  /** The splitting loop. */
  method SplitAt<T(==)>(t: seq<T>, sep: T) returns (parts: seq<seq<T>>, current: seq<T>)
    ensures parts + [current] == Parts(t, sep)
  {
    parts, current := [], [];
    for i := 0 to |t|
      invariant parts + [current] == Parts(t[..i], sep)
    {
      assert t[..i + 1][..i] == t[..i];
      if t[i] == sep {
        parts := parts + [current];
        current := [];
      } else {
        current := current + [t[i]];
      }
    }
    assert t[..|t|] == t;
  }

  /** The parts that were joined are found again. */
  lemma {:induction false} PartsOfJoin<T>(p: seq<seq<T>>, sep: T)
    requires |p| > 0 && forall i :: 0 <= i < |p| ==> Free(p[i], sep)
    ensures Parts(Join(p, sep), sep) == p
  {
    hide Parts, Free;
    var n := |p| - 1;
    PartsOfFree(p[n], sep);
    if n > 0 {
      assert forall i :: 0 <= i < n ==> p[..n][i] == p[i];
      PartsOfJoin(p[..n], sep);
      PartsOfConcat(Join(p[..n], sep), p[n], sep);
      InitAndLast(p);
    } else {
      assert p == [p[0]];
    }
  }
}
