/** Route templates, matching, and dispatch of routeRequest in src/backend/HttpServer.cpp. */
module Router {
  import opened Options
  import opened Pairs
  import opened Split
  import opened TextSearch

  /** A compiled template: the regular expression's literal characters and its named "([^/]+)" groups. */
  datatype Token = Lit(c: char) | Capture(name: string)

  // ----- compiling a template

  /**
   The loop over the pattern. None stands for a brace that is never closed: its text is not a
   regular expression, and the route is skipped.
   */
  function Compiled(pattern: string): Option<seq<Token>>
    decreases |pattern|
  {
    if pattern == [] then Some([])
    else if pattern[0] == '{' then
      var end := Find(pattern, "}");
      if end.None? then None
      else
        var others := Compiled(pattern[end.value + 1..]);
        if others.None? then None else Some([Capture(pattern[1..end.value])] + others.value)
    else
      var others := Compiled(pattern[1..]);
      if others.None? then None else Some([Lit(pattern[0])] + others.value)
  }

  /** The template text of tokens. */
  function Printed(tokens: seq<Token>): string {
    if tokens == [] then []
    else
      (match tokens[0]
       case Lit(c) => [c]
       case Capture(name) => "{" + name + "}") + Printed(tokens[1..])
  }

  /** No literal opens a brace and no name closes one. */
  predicate Printable(tokens: seq<Token>) {
    forall i :: 0 <= i < |tokens| ==>
      match tokens[i]
      case Lit(c) => c != '{'
      case Capture(name) => Free(name, '}')
  }

  function NameOf(t: Token): seq<string> {
    if t.Capture? then [t.name] else []
  }

  function Names(tokens: seq<Token>): seq<string> {
    if tokens == [] then [] else NameOf(tokens[0]) + Names(tokens[1..])
  }

  lemma BraceFound(name: string, rest: string)
    requires Free(name, '}')
    ensures Find("{" + name + "}" + rest, "}") == Some(|name| + 1)
  {
    var a, t := "{" + name, "}" + rest;
    assert a + t == "{" + name + "}" + rest;
    forall i | 0 <= i < |a| ensures !("}" <= a[i..] + t) {
      assert (a[i..] + t)[0] == a[i];
    }
    FindSkips(a, t, "}");
    assert Find(t, "}") == Some(0);
  }

  lemma CompiledLiteral(c: char, rest: string)
    requires c != '{' && Compiled(rest).Some?
    ensures Compiled([c] + rest) == Some([Lit(c)] + Compiled(rest).value)
  {
    hide Find;
    assert ([c] + rest)[1..] == rest;
  }

  lemma CompiledGroup(name: string, rest: string)
    requires Free(name, '}') && Compiled(rest).Some?
    ensures Compiled("{" + name + "}" + rest) == Some([Capture(name)] + Compiled(rest).value)
  {
    hide Find;
    BraceFound(name, rest);
    GroupText(name, rest);
  }

  lemma GroupText(name: string, rest: string)
    ensures var text := "{" + name + "}" + rest;
            text[0] == '{' && text[1..|name| + 1] == name && text[|name| + 2..] == rest
  {
  }

  /** Compiling a template's text gives its tokens back. */
  lemma {:induction false} CompiledPrinted(tokens: seq<Token>)
    requires Printable(tokens)
    ensures Compiled(Printed(tokens)) == Some(tokens)
  {
    hide Find, Compiled;
    if tokens == [] {
      NothingCompiled();
    } else {
      var others := tokens[1..];
      assert Printable(others) by {
        assert forall i :: 0 <= i < |others| ==> others[i] == tokens[i + 1];
      }
      CompiledPrinted(others);
      assert tokens == [tokens[0]] + others;
      match tokens[0]
      case Lit(c) => CompiledLiteral(c, Printed(others));
      case Capture(name) => CompiledGroup(name, Printed(others));
    }
  }

  lemma NothingCompiled()
    ensures Compiled([]) == Some([])
  {
  }

  lemma BraceAtOnce(t: string)
    requires t != [] && t[0] == '}'
    ensures Find(t, "}") == Some(0)
  {
  }

  /** Where the first closing brace is found, one is, and none before it. */
  lemma {:induction false} FirstBrace(t: string, n: nat)
    requires Find(t, "}") == Some(n)
    ensures n < |t| && t[n] == '}' && forall i :: 0 <= i < n ==> t[i] != '}'
    decreases n, 1
  {
    assert "}" <= t[n..] && "}"[0] == t[n..][0];
    if n > 0 {
      if t[0] == '}' {
        BraceAtOnce(t);
        assert false;
      }
      FirstBraceBehind(t, n);
    }
  }

  lemma {:induction false} FirstBraceBehind(t: string, n: nat)
    requires n > 0 && Find(t, "}") == Some(n) && t[0] != '}'
    ensures forall i :: 0 <= i < n ==> t[i] != '}'
    decreases n, 0
  {
    FindStep(t, "}");
    FirstBrace(t[1..], n - 1);
    hide Find;
    assert forall i :: 0 < i < n ==> t[i] == t[1..][i - 1];
  }

  /** The text of a group and what follows it. */
  lemma GroupSplit(pattern: string, end: nat)
    requires pattern != [] && pattern[0] == '{' && Find(pattern, "}") == Some(end)
    ensures 1 <= end < |pattern| && Free(pattern[1..end], '}')
    ensures pattern == "{" + pattern[1..end] + "}" + pattern[end + 1..]
  {
    FirstBrace(pattern, end);
    hide Find;
    hide Free;
    SliceFree(pattern, end);
    Reassembled(pattern, end);
    OneCharacter(pattern[0], pattern[end]);
  }

  lemma OneCharacter(a: char, b: char)
    ensures a == '{' ==> [a] == "{"
    ensures b == '}' ==> [b] == "}"
  {
  }

  lemma SliceFree(t: string, n: nat)
    requires 1 <= n <= |t| && forall i :: 0 <= i < n ==> t[i] != '}'
    ensures Free(t[1..n], '}')
  {
    var name := t[1..n];
    assert forall i :: 0 <= i < |name| ==> name[i] == t[i + 1];
  }

  lemma Reassembled(t: string, n: nat)
    requires 1 <= n < |t|
    ensures t == [t[0]] + t[1..n] + [t[n]] + t[n + 1..]
  {
  }

  /** Whatever compiles has a printable form, and it is the pattern. */
  lemma {:induction false} CompiledSound(pattern: string)
    requires Compiled(pattern).Some?
    ensures Printable(Compiled(pattern).value) && Printed(Compiled(pattern).value) == pattern
    decreases |pattern|
  {
    hide Find;
    if pattern == [] {
    } else if pattern[0] == '{' {
      var end := Find(pattern, "}").value;
      GroupSplit(pattern, end);
      CompiledSound(pattern[end + 1..]);
      TokenInFront(Capture(pattern[1..end]), Compiled(pattern[end + 1..]).value);
    } else {
      CompiledSound(pattern[1..]);
      assert pattern == [pattern[0]] + pattern[1..];
      TokenInFront(Lit(pattern[0]), Compiled(pattern[1..]).value);
    }
  }

  lemma TokenInFront(t: Token, others: seq<Token>)
    requires Printable(others)
    requires match t case Lit(c) => c != '{' case Capture(name) => Free(name, '}')
    ensures Printable([t] + others)
    ensures Printed([t] + others) ==
            (match t case Lit(c) => [c] case Capture(name) => "{" + name + "}") + Printed(others)
  {
    assert ([t] + others)[1..] == others;
  }

  /** A pattern compiles to exactly the tokens whose text it is, and to none if there are no such. */
  lemma CompiledExactly(pattern: string, tokens: seq<Token>)
    ensures Compiled(pattern) == Some(tokens) <==> Printable(tokens) && Printed(tokens) == pattern
  {
    hide Compiled, Printable, Printed;
    if Compiled(pattern).Some? {
      CompiledSound(pattern);
    }
    if Printable(tokens) && Printed(tokens) == pattern {
      CompiledPrinted(tokens);
    }
  }

  // ----- matching, as a relation

  /** What a group "([^/]+)" can hold. */
  predicate Segment(v: string) {
    v != [] && Free(v, '/')
  }

  function Captures(tokens: seq<Token>): nat { |Names(tokens)| }

  /** The path with the given values put into the groups. */
  function Fill(tokens: seq<Token>, values: seq<string>): string
    requires |values| == Captures(tokens)
  {
    if tokens == [] then []
    else if tokens[0].Lit? then [tokens[0].c] + Fill(tokens[1..], values)
    else values[0] + Fill(tokens[1..], values[1..])
  }

  predicate Segments(values: seq<string>) {
    forall i :: 0 <= i < |values| ==> Segment(values[i])
  }

  /** The whole path matches, with these captures. */
  predicate Matches(tokens: seq<Token>, path: string, values: seq<string>) {
    |values| == Captures(tokens) && Segments(values) && Fill(tokens, values) == path
  }

  // ----- matching, as the engine does it: each group takes as much as it can and gives back on failure

  /** The length of the longest prefix without '/'. */
  function Run(t: string): (n: nat)
    ensures n <= |t| && Free(t[..n], '/')
    ensures n < |t| ==> t[n] == '/'
  {
    if t == [] || t[0] == '/' then 0 else Run(t[1..]) + 1
  }

  function Greedy(tokens: seq<Token>, path: string): Option<seq<string>>
    decreases |tokens|, 1, 0
  {
    if tokens == [] then if path == [] then Some([]) else None
    else if tokens[0].Lit? then
      if path != [] && path[0] == tokens[0].c then Greedy(tokens[1..], path[1..]) else None
    else Longest(tokens, path, Run(path))
  }

  function Longest(tokens: seq<Token>, path: string, n: nat): Option<seq<string>>
    requires tokens != [] && n <= |path|
    decreases |tokens|, 0, n
  {
    if n == 0 then None
    else
      var others := Greedy(tokens[1..], path[n..]);
      if others.Some? then Some([path[..n]] + others.value) else Longest(tokens, path, n - 1)
  }

  lemma SlashFreePrefix(path: string, n: nat)
    requires n <= |path|
    ensures n <= Run(path) <==> Free(path[..n], '/')
  {
    var r := Run(path);
    if n <= r {
      assert forall i :: 0 <= i < n ==> path[..n][i] == path[..r][i];
    } else {
      assert path[..n][r] == '/';
    }
  }

  /** What the engine reports is a match. */
  lemma {:induction false} GreedySound(tokens: seq<Token>, path: string)
    requires Greedy(tokens, path).Some?
    ensures Matches(tokens, path, Greedy(tokens, path).value)
    decreases |tokens|, 1, 0
  {
    if tokens == [] {
    } else if tokens[0].Lit? {
      GreedySound(tokens[1..], path[1..]);
    } else {
      LongestSound(tokens, path, Run(path));
    }
  }

  lemma {:induction false} LongestSound(tokens: seq<Token>, path: string, n: nat)
    requires tokens != [] && tokens[0].Capture? && n <= Run(path) && Longest(tokens, path, n).Some?
    ensures Matches(tokens, path, Longest(tokens, path, n).value)
    decreases |tokens|, 0, n
  {
    var others := Greedy(tokens[1..], path[n..]);
    if others.Some? {
      GreedySound(tokens[1..], path[n..]);
      SlashFreePrefix(path, n);
      var values := [path[..n]] + others.value;
      assert values[1..] == others.value;
      assert path == path[..n] + path[n..];
    } else {
      LongestSound(tokens, path, n - 1);
    }
  }

  lemma {:induction false} LongestReaches(tokens: seq<Token>, path: string, n: nat, k: nat)
    requires tokens != [] && 0 < k <= n <= |path| && Greedy(tokens[1..], path[k..]).Some?
    ensures Longest(tokens, path, n).Some?
  {
    if n > k {
      LongestReaches(tokens, path, n - 1, k);
    }
  }

  /** The engine finds a match whenever there is one. */
  lemma {:induction false} GreedyComplete(tokens: seq<Token>, path: string, values: seq<string>)
    requires Matches(tokens, path, values)
    ensures Greedy(tokens, path).Some?
    decreases |tokens|
  {
    if tokens == [] {
    } else if tokens[0].Lit? {
      assert path[1..] == Fill(tokens[1..], values);
      GreedyComplete(tokens[1..], path[1..], values);
    } else {
      var k := |values[0]|;
      assert Segment(values[0]);
      assert path[..k] == values[0] && path[k..] == Fill(tokens[1..], values[1..]);
      SlashFreePrefix(path, k);
      GreedyComplete(tokens[1..], path[k..], values[1..]);
      LongestReaches(tokens, path, Run(path), k);
    }
  }

  // ----- which match it is: the longest captures, the earlier ones first

  /** Where the captures first differ, those of a are longer. */
  ghost predicate LongerFirst(a: seq<string>, b: seq<string>) {
    |a| == |b| && (a == b || exists k :: 0 <= k < |a| && a[..k] == b[..k] && |a[k]| > |b[k]|)
  }

  lemma LongerFirstCons(x: string, a: seq<string>, b: seq<string>)
    requires LongerFirst(a, b)
    ensures LongerFirst([x] + a, [x] + b)
  {
    if k :| 0 <= k < |a| && a[..k] == b[..k] && |a[k]| > |b[k]| {
      var c, e := [x] + a, [x] + b;
      assert c[..k + 1] == [x] + a[..k] && e[..k + 1] == [x] + b[..k];
      assert |c[k + 1]| > |e[k + 1]|;
    }
  }

  lemma SamePrefix(a: seq<string>, b: seq<string>, n: nat, i: nat)
    requires i < n <= |a| && n <= |b| && a[..n] == b[..n]
    ensures a[i] == b[i]
  {
    assert a[..n][i] == b[..n][i];
  }

  lemma LongerFirstOnce(a: seq<string>, b: seq<string>)
    requires LongerFirst(a, b) && LongerFirst(b, a)
    ensures a == b
  {
    if a != b {
      var k :| 0 <= k < |a| && a[..k] == b[..k] && |a[k]| > |b[k]|;
      var j :| 0 <= j < |b| && b[..j] == a[..j] && |b[j]| > |a[j]|;
      if k < j {
        SamePrefix(a, b, j, k);
      } else if j < k {
        SamePrefix(a, b, k, j);
      }
      assert false;
    }
  }

  /** The first capture is at least as long as any that lets the rest match, and decides the rest. */
  lemma {:induction false} LongestTakes(tokens: seq<Token>, path: string, n: nat, k: nat)
    requires tokens != [] && 0 < k <= n <= |path| && Greedy(tokens[1..], path[k..]).Some?
    ensures Longest(tokens, path, n).Some?
    ensures var v := Longest(tokens, path, n).value;
            && v != [] && |v[0]| >= k
            && (|v[0]| == k ==> v == [path[..k]] + Greedy(tokens[1..], path[k..]).value)
  {
    if n > k {
      LongestTakes(tokens, path, n - 1, k);
    }
  }

  /** What the engine reports beats every match: the first capture is as long as it can be, then the next. */
  lemma {:induction false} GreedyLongest(tokens: seq<Token>, path: string, values: seq<string>)
    requires Matches(tokens, path, values)
    ensures Greedy(tokens, path).Some? && LongerFirst(Greedy(tokens, path).value, values)
    decreases |tokens|
  {
    hide LongerFirst;
    if tokens == [] {
      NothingLonger();
    } else if tokens[0].Lit? {
      assert path[1..] == Fill(tokens[1..], values);
      GreedyLongest(tokens[1..], path[1..], values);
    } else {
      var k := |values[0]|;
      assert Segment(values[0]);
      assert path[..k] == values[0] && path[k..] == Fill(tokens[1..], values[1..]);
      SlashFreePrefix(path, k);
      GreedyLongest(tokens[1..], path[k..], values[1..]);
      LongestTakes(tokens, path, Run(path), k);
      GreedySound(tokens, path);
      var v := Greedy(tokens, path).value;
      assert values == [values[0]] + values[1..];
      if |v[0]| == k {
        LongerFirstCons(values[0], Greedy(tokens[1..], path[k..]).value, values[1..]);
      } else {
        FirstLonger(v, values);
      }
    }
  }

  lemma NothingLonger()
    ensures LongerFirst([], [])
  {
  }

  lemma FirstLonger(a: seq<string>, b: seq<string>)
    requires |a| == |b| > 0 && |a[0]| > |b[0]|
    ensures LongerFirst(a, b)
  {
    assert a[..0] == b[..0];
  }

  /** The engine reports exactly the match that beats every match. */
  lemma GreedyExactly(tokens: seq<Token>, path: string, values: seq<string>)
    ensures Greedy(tokens, path) == Some(values) <==>
            Matches(tokens, path, values) && forall w :: Matches(tokens, path, w) ==> LongerFirst(values, w)
  {
    hide LongerFirst, Matches, Greedy;
    var g := Greedy(tokens, path);
    if g == Some(values) {
      GreedySound(tokens, path);
      forall w | Matches(tokens, path, w) ensures LongerFirst(values, w) {
        GreedyLongest(tokens, path, w);
      }
    } else if Matches(tokens, path, values) && forall w :: Matches(tokens, path, w) ==> LongerFirst(values, w) {
      GreedyLongest(tokens, path, values);
      GreedySound(tokens, path);
      LongerFirstOnce(values, g.value);
      assert false;
    }
  }

  /** Every group is followed by a slash or by the end. */
  predicate Separated(tokens: seq<Token>) {
    forall i :: 0 <= i < |tokens| && tokens[i].Capture? ==> i + 1 == |tokens| || tokens[i + 1] == Lit('/')
  }

  /** The first group of a separated template ends where the next slash is. */
  lemma FirstSegment(tokens: seq<Token>, values: seq<string>, path: string)
    requires Separated(tokens) && tokens != [] && tokens[0].Capture? && Matches(tokens, path, values)
    ensures Run(path) == |values[0]| && path[..Run(path)] == values[0]
  {
    var k, rest := |values[0]|, Fill(tokens[1..], values[1..]);
    assert Segment(values[0]);
    assert path[..k] == values[0] && path[k..] == rest;
    SlashFreePrefix(path, k);
    if |tokens| == 1 {
      assert rest == [];
    } else {
      assert tokens[1] == Lit('/');
      assert rest[0] == '/' && path[k] == '/';
      assert path[..k + 1][k] == '/';
      SlashFreePrefix(path, k + 1);
    }
  }

  /** A path matches a separated template in at most one way. */
  lemma {:induction false} MatchUnique(tokens: seq<Token>, path: string, a: seq<string>, b: seq<string>)
    requires Separated(tokens) && Matches(tokens, path, a) && Matches(tokens, path, b)
    ensures a == b
    decreases |tokens|
  {
    if tokens != [] {
      assert Separated(tokens[1..]) by {
        assert forall i :: 0 <= i < |tokens[1..]| ==> tokens[1..][i] == tokens[i + 1];
      }
      if tokens[0].Lit? {
        assert path[1..] == Fill(tokens[1..], a) == Fill(tokens[1..], b);
        MatchUnique(tokens[1..], path[1..], a, b);
      } else {
        FirstSegment(tokens, a, path);
        FirstSegment(tokens, b, path);
        var rest := path[Run(path)..];
        assert rest == Fill(tokens[1..], a[1..]) == Fill(tokens[1..], b[1..]);
        MatchUnique(tokens[1..], rest, a[1..], b[1..]);
        assert a == [a[0]] + a[1..] && b == [b[0]] + b[1..];
      }
    }
  }

  // ----- path parameters

  /** pathParams[name] = capture, in order. */
  function Bound(m: map<string, string>, names: seq<string>, values: seq<string>): map<string, string>
    requires |names| == |values|
    decreases names
  {
    if names == [] then m else Bound(m[names[0] := values[0]], names[1..], values[1..])
  }

  predicate AllDifferent(names: seq<string>) {
    forall i, j :: 0 <= i < j < |names| ==> names[i] != names[j]
  }

  lemma {:induction false} BoundMeaning(m: map<string, string>, names: seq<string>, values: seq<string>)
    requires |names| == |values| && AllDifferent(names)
    ensures var b := Bound(m, names, values);
            && (forall i :: 0 <= i < |names| ==> names[i] in b && b[names[i]] == values[i])
            && (forall k :: k !in names ==> (k in b <==> k in m) && (k in b ==> b[k] == m[k]))
    decreases names
  {
    if names != [] {
      var m1 := m[names[0] := values[0]];
      var others := names[1..];
      assert forall i :: 0 <= i < |others| ==> others[i] == names[i + 1];
      assert names[0] !in others;
      BoundMeaning(m1, others, values[1..]);
      var b := Bound(m, names, values);
      assert b[names[0]] == values[0];
      forall i | 0 <= i < |names| ensures names[i] in b && b[names[i]] == values[i] {
        if i > 0 {
          assert others[i - 1] == names[i] && values[1..][i - 1] == values[i];
        }
      }
      forall k | k !in names ensures (k in b <==> k in m) && (k in b ==> b[k] == m[k]) {
        assert k !in others && k != names[0];
      }
    }
  }

  // ----- the query string

  function QueryPair(m: map<string, string>, pair: string): map<string, string> {
    var eq := Find(pair, "=");
    if eq.None? then m else m[pair[..eq.value] := pair[eq.value + 1..]]
  }

  function QueryPairs(m: map<string, string>, pairs: seq<string>): map<string, string>
    decreases pairs
  {
    if pairs == [] then m else QueryPairs(QueryPair(m, pairs[0]), pairs[1..])
  }

  /** The path without its query, and the parameters of the query. */
  function Target(path: string): (string, map<string, string>) {
    var q := Find(path, "?");
    if q.None? then (path, map[])
    else (path[..q.value], QueryPairs(map[], Parts(path[q.value + 1..], '&')))
  }

  lemma CharFound(a: string, c: char, rest: string)
    requires Free(a, c)
    ensures Find(a + [c] + rest, [c]) == Some(|a|)
  {
    var t := [c] + rest;
    assert a + t == a + [c] + rest;
    forall i | 0 <= i < |a| ensures !([c] <= a[i..] + t) {
      assert (a[i..] + t)[0] == a[i];
    }
    FindSkips(a, t, [c]);
    assert Find(t, [c]) == Some(0);
  }

  lemma CharNotFound(a: string, c: char)
    requires Free(a, c)
    ensures Find(a, [c]).None?
  {
    FindMeansNone(a, [c]);
    forall i | 0 <= i < |a| ensures !([c] <= a[i..]) {
      assert a[i..][0] == a[i];
    }
  }

  predicate QuerySafe(p: Pair) {
    Free(p.key, '=') && Free(p.key, '&') && Free(p.value, '&')
  }

  function PairText(p: Pair): string { p.key + "=" + p.value }

  function QueryText(params: seq<Pair>): string
    requires params != []
  {
    if |params| == 1 then PairText(params[0]) else PairText(params[0]) + "&" + QueryText(params[1..])
  }

  lemma PairRead(m: map<string, string>, p: Pair)
    requires QuerySafe(p)
    ensures Free(PairText(p), '&') && QueryPair(m, PairText(p)) == m[p.key := p.value]
  {
    var t := PairText(p);
    CharFound(p.key, '=', p.value);
    assert t == p.key + ['='] + p.value;
    assert t[..|p.key|] == p.key && t[|p.key| + 1..] == p.value;
  }

  /** Reading a query gives the parameters it was written from; the last of equal keys wins. */
  lemma {:induction false} QueryRead(m: map<string, string>, params: seq<Pair>)
    requires params != [] && forall i :: 0 <= i < |params| ==> QuerySafe(params[i])
    ensures QueryPairs(m, Parts(QueryText(params), '&')) == Denoted(m, params)
    decreases params
  {
    hide Find, QuerySafe, PairText, QueryPair;
    var first := PairText(params[0]);
    PairRead(m, params[0]);
    PartsOfFree(first, '&');
    if |params| == 1 {
      assert [first][1..] == [];
    } else {
      var others := params[1..];
      assert QueryText(params) == first + ['&'] + QueryText(others);
      PartsOfConcat(first, QueryText(others), '&');
      var parts := Parts(QueryText(others), '&');
      assert ([first] + parts)[1..] == parts;
      QueryRead(m[params[0].key := params[0].value], others);
    }
  }

  /** A request for path with the query that the parameters are written as. */
  predicate Asks(target: string, path: string, params: seq<Pair>) {
    && params != [] && (forall i :: 0 <= i < |params| ==> QuerySafe(params[i]))
    && '?' !in path && target == path + "?" + QueryText(params)
  }

  /** The path is what stands before the question mark, and the query gives its parameters back. */
  lemma TargetRead(target: string, path: string, params: seq<Pair>)
    requires Asks(target, path, params)
    ensures Target(target) == (path, Denoted(map[], params))
  {
    hide Find, QuerySafe, QueryPairs, Parts, QueryText;
    var text := QueryText(params);
    assert target == path + ['?'] + text;
    CharFound(path, '?', text);
    assert target[..|path|] == path && target[|path| + 1..] == text;
    QueryRead(map[], params);
  }

  lemma TargetPlain(path: string)
    requires '?' !in path
    ensures Target(path) == (path, map[])
  {
    hide Find;
    CharNotFound(path, '?');
  }

  // ----- dispatch

  datatype Route = Route(verb: string, template: string)

  datatype Answer =
    | Preflight
    | NotFound
    | Handled(route: nat, pathParams: map<string, string>, queryParams: map<string, string>)

  /** The captures of one route for a path, if it matches. */
  function RouteMatch(route: Route, path: string): Option<map<string, string>> {
    var tokens := Compiled(route.template);
    if tokens.None? then None
    else
      var values := Greedy(tokens.value, path);
      if values.None? then None
      else
        GreedySound(tokens.value, path);
        Some(Bound(map[], Names(tokens.value), values.value))
  }

  predicate Serves(route: Route, verb: string, target: string) {
    (route.verb == verb || route.verb == "*") && RouteMatch(route, Target(target).0).Some?
  }

  /** What the loop has read and what it will make of the rest is the whole expression. */
  ghost predicate CompilesOn(pattern: string, regex: seq<Token>, i: nat)
    requires i <= |pattern|
  {
    var others := Compiled(pattern[i..]);
    Compiled(pattern) == if others.None? then None else Some(regex + others.value)
  }

  lemma CompilesGroup(pattern: string, regex: seq<Token>, i: nat, end: nat)
    requires i < |pattern| && pattern[i] == '{' && CompilesOn(pattern, regex, i)
    requires Find(pattern[i..], "}") == Some(end)
    ensures 1 <= end && i + end + 1 <= |pattern|
    ensures CompilesOn(pattern, regex + [Capture(pattern[i..][1..end])], i + end + 1)
  {
    var rest := pattern[i..];
    assert end != 0 && end + 1 <= |rest|;
    assert rest[end + 1..] == pattern[i + end + 1..];
    var token, others := Capture(rest[1..end]), Compiled(pattern[i + end + 1..]);
    hide Find;
    assert others.Some? ==> regex + ([token] + others.value) == regex + [token] + others.value;
  }

  lemma CompilesLiteral(pattern: string, regex: seq<Token>, i: nat)
    requires i < |pattern| && pattern[i] != '{' && CompilesOn(pattern, regex, i)
    ensures CompilesOn(pattern, regex + [Lit(pattern[i])], i + 1)
  {
    assert pattern[i..][1..] == pattern[i + 1..];
    var token, others := Lit(pattern[i]), Compiled(pattern[i + 1..]);
    hide Find;
    assert others.Some? ==> regex + ([token] + others.value) == regex + [token] + others.value;
  }

  lemma CompilesNothing(pattern: string, regex: seq<Token>, i: nat)
    requires i < |pattern| && pattern[i] == '{' && CompilesOn(pattern, regex, i)
    requires Find(pattern[i..], "}").None?
    ensures Compiled(pattern).None?
  {
    hide Find;
  }

  lemma CompilesAll(pattern: string, regex: seq<Token>)
    ensures CompilesOn(pattern, [], 0)
    ensures CompilesOn(pattern, regex, |pattern|) ==> Compiled(pattern) == Some(regex)
  {
    assert pattern[0..] == pattern && pattern[|pattern|..] == [];
    assert regex + [] == regex;
    var all := Compiled(pattern);
    assert all.Some? ==> [] + all.value == all.value;
  }

  /** The loop that builds the expression and the parameter names. */
  method CompileTemplate(pattern: string) returns (tokens: Option<seq<Token>>, names: seq<string>)
    ensures tokens == Compiled(pattern)
    ensures tokens.Some? ==> names == Names(tokens.value)
  {
    hide Find, Compiled, CompilesOn, Names;
    var regex: seq<Token> := [];
    names := [];
    assert Names([]) == [] by {
      NoNames();
    }
    CompilesAll(pattern, []);
    var i := 0;
    while i < |pattern|
      invariant i <= |pattern|
      invariant names == Names(regex)
      invariant CompilesOn(pattern, regex, i)
      decreases |pattern| - i
    {
      if pattern[i] == '{' {
        var rest := pattern[i..];
        var end := Find(rest, "}");
        if end.None? {
          CompilesNothing(pattern, regex, i);
          return None, [];
        }
        CompilesGroup(pattern, regex, i, end.value);
        var name := rest[1..end.value];
        NamesAppend(regex, Capture(name));
        names := names + [name];
        regex := regex + [Capture(name)];
        i := i + end.value + 1;
      } else {
        CompilesLiteral(pattern, regex, i);
        NamesAppend(regex, Lit(pattern[i]));
        regex := regex + [Lit(pattern[i])];
        i := i + 1;
      }
    }
    CompilesAll(pattern, regex);
    tokens := Some(regex);
  }

  lemma NoNames()
    ensures Names([]) == []
  {
  }

  lemma {:induction false} NamesAppend(tokens: seq<Token>, t: Token)
    ensures Names(tokens + [t]) == Names(tokens) + NameOf(t)
  {
    hide Names, NameOf;
    var all := tokens + [t];
    NamesStep(all);
    NoNames();
    if tokens == [] {
      assert all == [t] && all[1..] == [];
      assert NameOf(t) + [] == NameOf(t) == [] + NameOf(t);
    } else {
      NamesAppend(tokens[1..], t);
      NamesStep(tokens);
      assert all[0] == tokens[0] && all[1..] == tokens[1..] + [t];
      assert NameOf(tokens[0]) + (Names(tokens[1..]) + NameOf(t)) == NameOf(tokens[0]) + Names(tokens[1..]) + NameOf(t);
    }
  }

  lemma NamesStep(tokens: seq<Token>)
    requires tokens != []
    ensures Names(tokens) == NameOf(tokens[0]) + Names(tokens[1..])
  {
  }

  /** What the contract of RouteRequest says of an answer. */
  predicate AnswerOf(verb: string, path: string, routes: seq<Route>, a: Answer) {
    && (a == Preflight <==> verb == "OPTIONS")
    && (a == NotFound <==> verb != "OPTIONS" && forall i :: 0 <= i < |routes| ==> !Serves(routes[i], verb, path))
    && (a.Handled? ==>
          && a.route < |routes| && Serves(routes[a.route], verb, path)
          && (forall i :: 0 <= i < a.route ==> !Serves(routes[i], verb, path))
          && Some(a.pathParams) == RouteMatch(routes[a.route], Target(path).0)
          && a.queryParams == Target(path).1)
  }

  /** The first registered route with an equal or "*" verb whose template matches is the one that answers. */
  method RouteRequest(verb: string, path: string, routes: seq<Route>) returns (a: Answer)
    ensures a == Preflight <==> verb == "OPTIONS"
    ensures a == NotFound <==> verb != "OPTIONS" && forall i :: 0 <= i < |routes| ==> !Serves(routes[i], verb, path)
    ensures a.Handled? ==>
              && a.route < |routes| && Serves(routes[a.route], verb, path)
              && (forall i :: 0 <= i < a.route ==> !Serves(routes[i], verb, path))
              && Some(a.pathParams) == RouteMatch(routes[a.route], Target(path).0)
              && a.queryParams == Target(path).1
    ensures AnswerOf(verb, path, routes, a)
    ensures a.Handled? && '?' !in path ==> a.queryParams == map[]
    ensures forall p: string, params: seq<Pair> :: Asks(path, p, params) && a.Handled? ==>
              a.queryParams == Denoted(map[], params)
  {
    hide Compiled, Target, Greedy, Find, Asks;
    forall p: string, params: seq<Pair> | Asks(path, p, params) ensures Target(path) == (p, Denoted(map[], params)) {
      TargetRead(path, p, params);
    }
    if '?' !in path {
      TargetPlain(path);
    }
    if verb == "OPTIONS" {
      return Preflight;
    }
    for k := 0 to |routes|
      invariant forall i :: 0 <= i < k ==> !Serves(routes[i], verb, path)
    {
      var route := routes[k];
      if route.verb != verb && route.verb != "*" {
        continue;
      }
      var (reqPath, query) := Target(path);
      var tokens, names := CompileTemplate(route.template);
      if tokens.None? {
        continue;
      }
      var values := Greedy(tokens.value, reqPath);
      if values.Some? {
        GreedySound(tokens.value, reqPath);
        return Handled(k, Bound(map[], names, values.value), query);
      }
    }
    return NotFound;
  }

  // ----- filling and matching

  lemma {:induction false} FillIsFree(tokens: seq<Token>, values: seq<string>, c: char)
    requires |values| == Captures(tokens)
    requires forall i :: 0 <= i < |tokens| ==> tokens[i] != Lit(c)
    requires forall i :: 0 <= i < |values| ==> Free(values[i], c)
    ensures Free(Fill(tokens, values), c)
    decreases |tokens|
  {
    if tokens != [] {
      assert forall i :: 0 <= i < |tokens[1..]| ==> tokens[1..][i] == tokens[i + 1];
      assert tokens[0] != Lit(c);
      if tokens[0].Lit? {
        FillIsFree(tokens[1..], values, c);
      } else {
        FillIsFree(tokens[1..], values[1..], c);
      }
    }
  }

  lemma TargetOfFilled(filled: string, query: string)
    requires Free(filled, '?') && (query == [] || query[0] == '?')
    ensures Target(filled + query).0 == filled
  {
    hide Find, Parts, QueryPairs;
    if query == [] {
      assert filled + query == filled;
      CharNotFound(filled, '?');
    } else {
      var path := filled + query;
      assert path == filled + ['?'] + query[1..];
      CharFound(filled, '?', query[1..]);
      assert path[..|filled|] == filled;
    }
  }

  lemma MatchOfFilled(tokens: seq<Token>, values: seq<string>)
    requires Separated(tokens) && |values| == Captures(tokens) && Segments(values)
    ensures Greedy(tokens, Fill(tokens, values)) == Some(values)
  {
    hide Greedy, Fill, Separated, Segments, Names;
    var filled := Fill(tokens, values);
    GreedyComplete(tokens, filled, values);
    GreedySound(tokens, filled);
    MatchUnique(tokens, filled, values, Greedy(tokens, filled).value);
  }

  /** Does m bind exactly these names, to these values? */
  ghost predicate Binds(m: map<string, string>, names: seq<string>, values: seq<string>)
    requires |names| == |values|
  {
    && (forall i :: 0 <= i < |names| ==> names[i] in m && m[names[i]] == values[i])
    && (forall k :: k in m ==> k in names)
  }

  /**
   A template with distinct names, each followed by a slash or the end, filled with values free
   of '/' and '?', is matched with exactly those values, with or without a query behind it.
   */
  lemma FilledIsMatched(verb: string, tokens: seq<Token>, values: seq<string>, query: string)
    requires Printable(tokens) && Separated(tokens) && AllDifferent(Names(tokens))
    requires forall i :: 0 <= i < |tokens| ==> tokens[i] != Lit('?')
    requires |values| == Captures(tokens) && Segments(values) && forall i :: 0 <= i < |values| ==> Free(values[i], '?')
    requires query == [] || query[0] == '?'
    ensures var m := RouteMatch(Route(verb, Printed(tokens)), Target(Fill(tokens, values) + query).0);
            m.Some? && Binds(m.value, Names(tokens), values)
  {
    hide Compiled, Printed, Greedy, Fill, Target, Bound, Separated, Segments, Printable;
    FillIsFree(tokens, values, '?');
    TargetOfFilled(Fill(tokens, values), query);
    CompiledPrinted(tokens);
    MatchOfFilled(tokens, values);
    BoundMeaning(map[], Names(tokens), values);
  }

  /** A route is out of the question for a path: another verb, or no filling of its template. */
  predicate PassesBy(route: Route, verb: string, path: string) {
    (route.verb != verb && route.verb != "*") || RouteMatch(route, path).None?
  }

  /**
   The request that fills a route's template with values and has a query: when no route before it wants
   the request, this one answers, with exactly the values as path parameters and the query's parameters.
   */
  lemma FilledIsAnswered(verb: string, routes: seq<Route>, i: nat, tokens: seq<Token>, values: seq<string>,
          params: seq<Pair>, target: string, a: Answer)
    requires Printable(tokens) && Separated(tokens) && AllDifferent(Names(tokens))
    requires forall k :: 0 <= k < |tokens| ==> tokens[k] != Lit('?')
    requires |values| == Captures(tokens) && Segments(values) && forall k :: 0 <= k < |values| ==> Free(values[k], '?')
    requires Asks(target, Fill(tokens, values), params) && verb != "OPTIONS"
    requires i < |routes| && routes[i].template == Printed(tokens) && (routes[i].verb == verb || routes[i].verb == "*")
    requires forall j :: 0 <= j < i ==> PassesBy(routes[j], verb, Fill(tokens, values))
    requires AnswerOf(verb, target, routes, a)
    ensures a.Handled? && a.route == i && Binds(a.pathParams, Names(tokens), values)
    ensures a.queryParams == Denoted(map[], params)
  {
    hide Printable, Separated, AllDifferent, Segments, Fill, Asks, RouteMatch, Binds, Printed, Target, Captures;
    TargetRead(target, Fill(tokens, values), params);
    FilledIsMatched(verb, tokens, values, []);
    assert Fill(tokens, values) + [] == Fill(tokens, values);
    QuestionFree(tokens, values);
    TargetPlain(Fill(tokens, values));
    VerbIrrelevant(routes[i], Route(verb, Printed(tokens)), Fill(tokens, values));
    assert Serves(routes[i], verb, target);
    forall j | 0 <= j < i ensures !Serves(routes[j], verb, target) {
      assert PassesBy(routes[j], verb, Fill(tokens, values));
    }
  }

  lemma VerbIrrelevant(r: Route, q: Route, path: string)
    requires r.template == q.template
    ensures RouteMatch(r, path) == RouteMatch(q, path)
  {
  }

  lemma QuestionFree(tokens: seq<Token>, values: seq<string>)
    requires |values| == Captures(tokens)
    requires forall i :: 0 <= i < |tokens| ==> tokens[i] != Lit('?')
    requires forall i :: 0 <= i < |values| ==> Free(values[i], '?')
    ensures '?' !in Fill(tokens, values)
  {
    hide Fill;
    FillIsFree(tokens, values, '?');
  }

  /** Whatever route answers, its captures are non-empty, slash-free and rebuild the path. */
  lemma CapturesRebuildPath(route: Route, path: string)
    requires RouteMatch(route, path).Some?
    ensures exists tokens: seq<Token>, values: seq<string> ::
              Compiled(route.template) == Some(tokens) && Matches(tokens, path, values) &&
              RouteMatch(route, path) == Some(Bound(map[], Names(tokens), values))
  {
    var tokens := Compiled(route.template).value;
    GreedySound(tokens, path);
    assert Matches(tokens, path, Greedy(tokens, path).value);
  }

  /** A route matches exactly when some filling of its template gives the path. */
  lemma RouteMatchExactly(route: Route, path: string)
    ensures RouteMatch(route, path).Some? <==>
            Compiled(route.template).Some? &&
            exists values: seq<string> :: Matches(Compiled(route.template).value, path, values)
  {
    if RouteMatch(route, path).Some? {
      GreedySound(Compiled(route.template).value, path);
    }
    if Compiled(route.template).Some? {
      if values: seq<string> :| Matches(Compiled(route.template).value, path, values) {
        GreedyComplete(Compiled(route.template).value, path, values);
      }
    }
  }
}
