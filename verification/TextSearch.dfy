/** std::string::find and the whitespace-delimited extraction of a stream. */
module TextSearch {
  import opened Options
  import opened Spaces

  /** The first place where p occurs in t. */
  function Find(t: string, p: string): (i: Option<nat>)
    ensures i.Some? ==> i.value + |p| <= |t| && p <= t[i.value..]
  {
    if |t| < |p| then None
    else if p <= t then Some(0)
    else if t == [] then None
    else
      var i := Find(t[1..], p);
      if i.None? then None else Some(i.value + 1)
  }

  function Shifted(i: Option<nat>, n: nat): Option<nat> {
    if i.None? then None else Some(i.value + n)
  }

  lemma FindStep(t: string, p: string)
    requires p != [] && t != [] && !(p <= t)
    ensures Find(t, p) == Shifted(Find(t[1..], p), 1)
  {
  }

  /** No occurrence of p in a + t starts inside a. */
  ghost predicate StartsNowhere(a: string, t: string, p: string) {
    forall i :: 0 <= i < |a| ==> !(p <= a[i..] + t)
  }

  lemma StartsNowhereBehind(a: string, t: string, p: string)
    requires a != [] && StartsNowhere(a, t, p)
    ensures !(p <= a + t) && StartsNowhere(a[1..], t, p)
  {
    assert a[0..] == a;
    assert forall i :: 0 <= i < |a[1..]| ==> a[1..][i..] == a[i + 1..];
  }

  /** Nothing is found before a stretch where no occurrence starts has been passed. */
  lemma {:induction false} FindSkips(a: string, t: string, p: string)
    requires p != [] && StartsNowhere(a, t, p)
    ensures Find(a + t, p) == Shifted(Find(t, p), |a|)
  {
    hide Find, StartsNowhere;
    if a == [] {
      assert a + t == t;
    } else {
      StartsNowhereBehind(a, t, p);
      FindSkips(a[1..], t, p);
      FindStep(a + t, p);
      assert (a + t)[1..] == a[1..] + t;
    }
  }

  lemma {:induction false} FindMeansNone(t: string, p: string)
    requires p != []
    ensures Find(t, p).None? <==> forall i :: 0 <= i < |t| ==> !(p <= t[i..])
  {
    if t != [] {
      FindMeansNone(t[1..], p);
      assert forall i :: 0 <= i < |t[1..]| ==> t[1..][i..] == t[i + 1..];
      if Find(t, p).None? {
        forall i | 0 <= i < |t| ensures !(p <= t[i..]) {
          if i > 0 {
            assert t[1..][i - 1..] == t[i..];
          }
        }
      } else if |t| >= |p| && !(p <= t) {
        var i :| 0 <= i < |t[1..]| && p <= t[1..][i..];
        assert p <= t[i + 1..];
      }
    }
  }

  // ----- operator>> into a string

  predicate IsSpace(c: char) { IsSpaceCode(c as int) }

  function SkipSpaces(t: string): string { DropWhile(t, IsSpace) }

  function Word(t: string): (w: string)
    ensures w <= t
  {
    if t == [] || IsSpace(t[0]) then [] else [t[0]] + Word(t[1..])
  }

  predicate IsWord(w: string) {
    w != [] && forall i :: 0 <= i < |w| ==> !IsSpace(w[i])
  }

  lemma {:induction false} WordIs(w: string, t: string)
    requires IsWord(w) && (t != [] ==> IsSpace(t[0]))
    ensures Word(w + t) == w && SkipSpaces(w + t) == w + t
  {
    if |w| == 1 {
      assert (w + t)[1..] == t;
      assert Word(t) == [];
    } else {
      assert (w + t)[1..] == w[1..] + t;
      WordIs(w[1..], t);
    }
  }

  predicate AllSpaces(t: string) {
    forall i :: 0 <= i < |t| ==> t[i] as int in {9, 10, 11, 12, 13, 32}
  }

  lemma {:induction false} AllSpacesSkipped(spaces: string, rest: string)
    requires AllSpaces(spaces) && rest != [] && !IsSpace(rest[0])
    ensures SkipSpaces(spaces + rest) == rest
    ensures spaces != [] ==> IsSpace(spaces[0])
  {
    if spaces == [] {
      assert spaces + rest == rest;
    } else {
      assert (spaces + rest)[1..] == spaces[1..] + rest;
      AllSpacesSkipped(spaces[1..], rest);
    }
  }

  lemma FirstOfWord(w: string)
    requires IsWord(w)
    ensures w != [] && !IsSpace(w[0])
  {
  }
}
