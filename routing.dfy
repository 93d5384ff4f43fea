/** The request gate of src/utils/routing.ts: the wildcard path matcher
    `matchPath` and the middleware that consults a capped cache of exempt
    paths before scanning the rule list. */
module Routing {
  import opened JsString

  /** What `matchPath` does: it returns a boolean, or it throws a TypeError
      when the pattern has no non-empty `**`-fragment (reading `includes` of
      `undefined`). */
  datatype Outcome = Value(matched: bool) | TypeError

  /** The middleware's two ways out, plus the exception escaping it:
      `Allow` is `next()`, `Delegate` is the call to the session-cookie
      verifier, `Fault` is a TypeError thrown by `matchPath` inside `some`. */
  datatype Decision = Allow | Delegate | Fault

  /** The size below which an exempt path is still remembered. */
  const Capacity := 1000

  /** `if (path.endsWith('/')) path = path.slice(0, -1)`: exactly one
      trailing slash goes. */
  function StripTrailingSlash(path: string): (p: string)
    ensures EndsWith(path, '/') ==> path == p + "/"
    ensures !EndsWith(path, '/') ==> p == path
  {
    if EndsWith(path, '/') then path[..|path| - 1] else path
  }

  /** `pattern.split('**').filter(Boolean)`: the non-empty pieces between
      markers, none of which holds a marker. */
  function Fragments(pattern: string): (fs: seq<string>)
    ensures forall i :: 0 <= i < |fs| ==> fs[i] != "" && !Occurs(fs[i], "**")
  {
    SplitPiecesAvoidSeparator(pattern, "**");
    var fs := NonEmpty(Split(pattern, "**"));
    assert forall i :: 0 <= i < |fs| ==> fs[i] in Split(pattern, "**");
    fs
  }

  /** `path.split('/').filter(Boolean)`: the non-empty segments, none of
      which holds a `/`. */
  function Segments(path: string): (segs: seq<string>)
    ensures forall i :: 0 <= i < |segs| ==> segs[i] != "" && '/' !in segs[i]
  {
    SplitPiecesAvoidChar(path, '/');
    var segs := NonEmpty(Split(path, "/"));
    assert forall i :: 0 <= i < |segs| ==> segs[i] in Split(path, ['/']);
    segs
  }

  /** The number of `true`s the `map` callback of the segmented walk
      produces on `segs`, when the first of them is compared with fragment
      number `j` (that is, `index - offset`). A missing fragment gives
      `false`; a fragment holding `*` gives `undefined` and leaves `offset`
      alone; a mismatch bumps `offset`, so the next segment meets the same
      fragment again. */
  function WalkCount(frags: seq<string>, segs: seq<string>, j: nat): (n: nat)
    ensures n <= |segs|
    decreases |segs|
  {
    if segs == [] then 0
    else if j >= |frags| then WalkCount(frags, segs[1..], j + 1)
    else
      var f := RemoveFirst(frags[j], '/');
      if '*' in f then WalkCount(frags, segs[1..], j + 1)
      else if StartsWith(segs[0], f) then 1 + WalkCount(frags, segs[1..], j + 1)
      else WalkCount(frags, segs[1..], j)
  }

  /** One step of the walk, at segment `index`. */
  lemma WalkUnfold(frags: seq<string>, segs: seq<string>, index: nat, j: nat)
    requires index < |segs|
    ensures WalkCount(frags, segs[index..], j) ==
      if j >= |frags| || '*' in RemoveFirst(frags[j], '/') then WalkCount(frags, segs[index + 1..], j + 1)
      else if StartsWith(segs[index], RemoveFirst(frags[j], '/')) then 1 + WalkCount(frags, segs[index + 1..], j + 1)
      else WalkCount(frags, segs[index + 1..], j)
  {
    assert segs[index..][1..] == segs[index + 1..];
  }

  /** The value `matchPath(pattern, path)` returns or the error it throws. */
  function Match(pattern: string, path: string): (o: Outcome)
    ensures o == TypeError <==> '*' in pattern && Fragments(pattern) == []
  {
    var p := StripTrailingSlash(path);
    if '*' !in pattern then Value(p == pattern)
    else
      var frags := Fragments(pattern);
      if frags == [] then TypeError
      else if '*' !in frags[0] && |frags| == 1 then Value(StartsWith(p, frags[0]))
      else Value(WalkCount(frags, Segments(p), 0) == |frags|)
  }

  /** The segmented walk of `matchPath` (its `map` and `filter`), as the
      loop it is: `offset` counts the mismatches so far and `matches` the
      callback's `true`s. The fragment position `index - offset` never
      moves back (`fragmentBefore` is its value at the start of the last
      step), and every match moves it on, so no fragment is matched twice. */
  method Walk(greedy: seq<string>, segs: seq<string>) returns (matches: nat)
    ensures matches == WalkCount(greedy, segs, 0)
  {
    var offset, index := 0, 0;
    matches := 0;
    ghost var fragmentBefore := 0;
    while index < |segs|
      invariant 0 <= offset <= index <= |segs|
      invariant fragmentBefore <= index - offset
      invariant matches <= index - offset
      invariant matches + WalkCount(greedy, segs[index..], index - offset) == WalkCount(greedy, segs, 0)
    {
      WalkUnfold(greedy, segs, index, index - offset);
      var k := index - offset;
      fragmentBefore := k;
      if k < |greedy| {
        var g := RemoveFirst(greedy[k], '/');
        if '*' !in g {
          if !StartsWith(segs[index], g) {
            offset := offset + 1;
          } else {
            matches := matches + 1;
          }
        }
      }
      index := index + 1;
    }
  }

  /** `matchPath(pattern, path)`. */
  method MatchPath(pattern: string, path: string) returns (o: Outcome)
    ensures o == Match(pattern, path)
  {
    var p := path;
    if EndsWith(p, '/') {
      p := p[..|p| - 1];
    }
    assert p == StripTrailingSlash(path);
    if '*' !in pattern {
      return Value(p == pattern);
    }
    var greedy := Fragments(pattern);
    if |greedy| == 0 {
      return TypeError;
    }
    if '*' !in greedy[0] && |greedy| == 1 {
      return Value(StartsWith(p, greedy[0]));
    }
    var matches := Walk(greedy, Segments(p));
    o := Value(matches == |greedy|);
  }

  /** `unprotectedRoutes.some(route => matchPath(route, path))`: rules are
      tried in order, the first match stops the scan, and a TypeError from
      any rule tried escapes. */
  function AnyMatches(rules: seq<string>, path: string): (o: Outcome)
    ensures o == Value(false) <==> forall i :: 0 <= i < |rules| ==> Match(rules[i], path) == Value(false)
    ensures o == Value(true) ==> exists i :: 0 <= i < |rules| && Match(rules[i], path) == Value(true)
    ensures o == TypeError ==> exists i :: 0 <= i < |rules| && Match(rules[i], path) == TypeError
  {
    if rules == [] then Value(false)
    else
      match Match(rules[0], path)
      case TypeError => TypeError
      case Value(true) => Value(true)
      case Value(false) =>
        var rest := AnyMatches(rules[1..], path);
        assert forall i :: 1 <= i < |rules| ==> rules[i] == rules[1..][i - 1];
        rest
  }

  /** The scan of the rule list, one `matchPath` call per rule. */
  method ScanRules(rules: seq<string>, path: string) returns (o: Outcome)
    ensures o == AnyMatches(rules, path)
  {
    var i := 0;
    while i < |rules|
      invariant 0 <= i <= |rules|
      invariant AnyMatches(rules[i..], path) == AnyMatches(rules, path)
    {
      assert rules[i..][1..] == rules[i + 1..];
      var m := MatchPath(rules[i], path);
      if m != Value(false) {
        return m;
      }
      i := i + 1;
    }
    return Value(false);
  }

  /** The decision the gate should reach for `path` from the rules alone. */
  function Classify(rules: seq<string>, path: string): (d: Decision)
    ensures d == Delegate <==> forall i :: 0 <= i < |rules| ==> Match(rules[i], path) == Value(false)
    ensures d == Allow ==> exists i :: 0 <= i < |rules| && Match(rules[i], path) == Value(true)
    ensures d == Fault ==> exists i :: 0 <= i < |rules| && Match(rules[i], path) == TypeError
  {
    match AnyMatches(rules, path)
    case Value(true) => Allow
    case Value(false) => Delegate
    case TypeError => Fault
  }

  /** The cache invariant: bounded by the capacity, and only paths that the
      rules exempt are in it. */
  ghost predicate CacheInvariant(rules: seq<string>, cache: set<string>) {
    |cache| <= Capacity &&
    forall p :: p in cache ==> AnyMatches(rules, p) == Value(true)
  }

  /** One middleware call on a cache: the decision and the cache after it. */
  function GateStep(rules: seq<string>, cache: set<string>, path: string): (r: (Decision, set<string>))
    ensures path in cache ==> r == (Allow, cache)
    ensures path !in cache ==> r.0 == Classify(rules, path)
    ensures cache <= r.1 <= cache + {path}
    ensures r.1 != cache ==> r.0 == Allow && |cache| < Capacity
  {
    if path in cache then (Allow, cache)
    else
      match AnyMatches(rules, path)
      case Value(true) => (Allow, if |cache| < Capacity then cache + {path} else cache)
      case Value(false) => (Delegate, cache)
      case TypeError => (Fault, cache)
  }

  /** The middleware together with its module-level `recentUnprotectedRoutes`
      set. The rule list is fixed when the gate is made. */
  class RouteGate {
    const rules: seq<string>
    var cache: set<string>

    ghost predicate Valid()
      reads this
    {
      CacheInvariant(rules, cache)
    }

    constructor (rules: seq<string>)
      ensures Valid()
      ensures this.rules == rules && cache == {}
    {
      this.rules := rules;
      cache := {};
    }

    /** `protectAppicableroutesMiddleware` on a request for `path`. A cached
        path is let through before any rule is looked at. */
    method Gate(path: string) returns (d: Decision)
      requires Valid()
      modifies this
      ensures Valid()
      ensures (d, cache) == GateStep(rules, old(cache), path)
      ensures d == Classify(rules, path)
      ensures old(cache) <= cache && cache - old(cache) <= {path}
    {
      if path in cache {
        return Allow;
      }
      var o := ScanRules(rules, path);
      if o == Value(true) {
        if |cache| < Capacity {
          cache := cache + {path};
        }
        return Allow;
      } else if o == Value(false) {
        return Delegate;
      }
      return Fault;
    }
  }
}
