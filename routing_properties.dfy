/** What `matchPath` and the gate of src/utils/routing.ts do, stated and
    proved regime by regime: exact comparison, prefix test, segmented walk,
    the TypeError, and the cache the gate keeps. */
module RoutingProperties {
  import opened JsString
  import opened Routing

  // ---------------------------------------------------------------------
  // Exact regime
  // ---------------------------------------------------------------------

  /** A pattern without `*` is compared for equality after one trailing
      slash is dropped from the path: the path must be the pattern, or the
      pattern followed by exactly one `/` (a path ending in `/` matches only
      as the slashed form). */
  lemma ExactRegime(pattern: string, path: string)
    requires '*' !in pattern
    ensures Match(pattern, path) == Value(path == pattern + "/" || (path == pattern && !EndsWith(pattern, '/')))
  {
    if EndsWith(path, '/') {
      assert path == path[..|path| - 1] + "/";
    } else if path == pattern + "/" {
      assert EndsWith(path, '/');
    }
  }

  // ---------------------------------------------------------------------
  // Splitting a pattern on `**`
  // ---------------------------------------------------------------------

  /** Every `*` of `p` is followed, inside `p`, by a character other than
      `*`: so `p` holds no `**` and does not end in `*`. */
  predicate StarsIsolated(p: string) {
    forall i :: 0 <= i < |p| && p[i] == '*' ==> i + 1 < |p| && p[i + 1] != '*'
  }

  /** A piece with isolated stars, then `**`: the split cuts exactly there. */
  lemma {:induction false} SplitAtMarker(p: string, q: string)
    requires StarsIsolated(p)
    ensures Split(p + "**" + q, "**") == [p] + Split(q, "**")
    decreases |p|
  {
    var s := p + "**" + q;
    if p == [] {
      assert s == "**" + q;
      assert s[..2] == "**" && s[2..] == q;
    } else {
      assert s[..2] != "**" by {
        if p[0] == '*' { assert s[1] == p[1]; } else { assert s[0] == p[0]; }
      }
      assert s[1..] == p[1..] + "**" + q;
      assert StarsIsolated(p[1..]) by {
        forall i | 0 <= i < |p[1..]| && p[1..][i] == '*'
          ensures i + 1 < |p[1..]| && p[1..][i + 1] != '*'
        {
          assert p[i + 1] == '*';
        }
      }
      SplitAtMarker(p[1..], q);
      assert [s[0]] + p[1..] == p;
    }
  }

  /** A leading `**` leaves an empty first piece, which is filtered out, so
      it changes nothing once the pattern holds a `*` anyway. */
  lemma LeadingMarkerDropped(x: string, path: string)
    requires '*' in x
    ensures Match("**" + x, path) == Match(x, path)
  {
    var s := "**" + x;
    assert s[..2] == "**" && s[2..] == x;
    assert Split(s, "**") == [""] + Split(x, "**");
    NonEmptyAppend([""], Split(x, "**"));
    assert '*' in s by { assert s[0] == '*'; }
  }

  // ---------------------------------------------------------------------
  // Prefix regime
  // ---------------------------------------------------------------------

  /** A literal prefix followed by a single `**` is a `startsWith` test on
      the slash-stripped path. */
  lemma PrefixRegime(prefix: string, path: string)
    requires prefix != "" && '*' !in prefix
    ensures Match(prefix + "**", path) == Value(StartsWith(StripTrailingSlash(path), prefix))
  {
    SplitAtMarker(prefix, "");
    assert prefix + "**" + "" == prefix + "**";
    assert Split("", "**") == [""];
    assert Fragments(prefix + "**") == [prefix] by {
      NonEmptyAppend([prefix], [""]);
    }
    assert (prefix + "**")[|prefix|] == '*';
  }

  // `**/vendor/**` is the prefix test for `/vendor/`.
  lemma VendorPattern(path: string)
    ensures Match("**/vendor/**", path) == Value(StartsWith(StripTrailingSlash(path), "/vendor/"))
  {
    assert "**/vendor/**" == "**" + ("/vendor/" + "**");
    assert ("/vendor/" + "**")[8] == '*';
    LeadingMarkerDropped("/vendor/" + "**", path);
    PrefixRegime("/vendor/", path);
  }

  // `/images/**` does not match `/images`, nor `/images/` once its slash
  // is dropped: the prefix kept is `/images/`.
  lemma ImagesPrefixExcludesBareDirectory()
    ensures Match("/images/**", "/images") == Value(false)
    ensures Match("/images/**", "/images/") == Value(false)
  {
    var pre := "/images/";
    assert "/images/**" == pre + "**";
    PrefixRegime(pre, "/images");
    PrefixRegime(pre, "/images/");
    assert StripTrailingSlash("/images/") == "/images";
  }

  // `/images/**` matches `/images/cat.png` but not `/img/cat.png`.
  lemma ImagesPrefixExamples()
    ensures Match("/images/**", "/images/cat.png") == Value(true)
    ensures Match("/images/**", "/img/cat.png") == Value(false)
  {
    var pre := "/images/";
    assert "/images/**" == pre + "**";
    PrefixRegime(pre, "/images/cat.png");
    PrefixRegime(pre, "/img/cat.png");
    assert "/images/cat.png"[..8] == pre;
    assert "/img/cat.png"[..8] != pre by { assert "/img/cat.png"[3] != pre[3]; }
  }

  // ---------------------------------------------------------------------
  // The TypeError
  // ---------------------------------------------------------------------

  /** The pattern is a non-empty run of `**` markers and nothing else. */
  predicate OnlyMarkers(pattern: string) {
    |pattern| > 0 && |pattern| % 2 == 0 && forall i :: 0 <= i < |pattern| ==> pattern[i] == '*'
  }

  /** An even run of stars splits into empty pieces only. */
  lemma {:induction false} MarkerRunSplitsEmpty(s: string)
    requires |s| % 2 == 0 && forall i :: 0 <= i < |s| ==> s[i] == '*'
    ensures forall i :: 0 <= i < |Split(s, "**")| ==> Split(s, "**")[i] == ""
    decreases |s|
  {
    if |s| >= 2 {
      assert s[..2] == "**";
      MarkerRunSplitsEmpty(s[2..]);
      assert Split(s, "**") == [""] + Split(s[2..], "**");
    }
  }

  /** Joining empty pieces with `**` gives an even run of stars. */
  lemma {:induction false} JoinOfEmptyPieces(pieces: seq<string>)
    requires |pieces| > 0 && forall i :: 0 <= i < |pieces| ==> pieces[i] == ""
    ensures |Join(pieces, "**")| == 2 * (|pieces| - 1)
    ensures forall i :: 0 <= i < |Join(pieces, "**")| ==> Join(pieces, "**")[i] == '*'
  {
    if |pieces| > 1 {
      JoinOfEmptyPieces(pieces[1..]);
      assert Join(pieces, "**") == "**" + Join(pieces[1..], "**");
    }
  }

  /** Filtering leaves nothing exactly when every string is empty. */
  lemma NonEmptyIsEmpty(xs: seq<string>)
    ensures NonEmpty(xs) == [] <==> forall i :: 0 <= i < |xs| ==> xs[i] == ""
  {
    if NonEmpty(xs) != [] {
      assert NonEmpty(xs)[0] in NonEmpty(xs);
    } else {
      forall i | 0 <= i < |xs| ensures xs[i] == "" {
        assert xs[i] in xs;
      }
    }
  }

  /** A run of markers throws. */
  lemma OnlyMarkersThrows(pattern: string, path: string)
    requires OnlyMarkers(pattern)
    ensures Match(pattern, path) == TypeError
  {
    MarkerRunSplitsEmpty(pattern);
    NonEmptyIsEmpty(Split(pattern, "**"));
    assert pattern[0] == '*';
  }

  /** Only a run of markers throws. */
  lemma ThrowsOnlyForMarkers(pattern: string, path: string)
    requires Match(pattern, path) == TypeError
    ensures OnlyMarkers(pattern)
  {
    var pieces := Split(pattern, "**");
    assert '*' in pattern && Fragments(pattern) == [];
    NonEmptyIsEmpty(pieces);
    SplitJoin(pattern, "**");
    JoinOfEmptyPieces(pieces);
  }

  /** `matchPath` throws exactly for the patterns made of `**` markers only
      (`**`, `****`, …), whatever the path. */
  lemma TypeErrorIff(pattern: string, path: string)
    ensures Match(pattern, path) == TypeError <==> OnlyMarkers(pattern)
  {
    if OnlyMarkers(pattern) {
      OnlyMarkersThrows(pattern, path);
    }
    if Match(pattern, path) == TypeError {
      ThrowsOnlyForMarkers(pattern, path);
    }
  }

  // ---------------------------------------------------------------------
  // Segmented walk
  // ---------------------------------------------------------------------

  /** The walk counts at most one match per segment and per fragment left. */
  lemma {:induction false} WalkBound(frags: seq<string>, segs: seq<string>, j: nat)
    ensures WalkCount(frags, segs, j) <= |segs|
    ensures j <= |frags| ==> WalkCount(frags, segs, j) <= |frags| - j
    ensures j >= |frags| ==> WalkCount(frags, segs, j) == 0
    decreases |segs|
  {
    if segs != [] {
      WalkBound(frags, segs[1..], j + 1);
      WalkBound(frags, segs[1..], j);
    }
  }

  /** A fragment holding `*` is never matched, so it is always missing from
      the count. */
  lemma {:induction false} StarFragmentBlocks(frags: seq<string>, segs: seq<string>, j: nat, k: nat)
    requires j <= k < |frags| && '*' in frags[k]
    ensures WalkCount(frags, segs, j) < |frags| - j
    decreases |segs|
  {
    if segs != [] {
      var f := RemoveFirst(frags[j], '/');
      if '*' in f {
        if j == k {
          WalkBound(frags, segs[1..], j + 1);
        } else {
          StarFragmentBlocks(frags, segs[1..], j + 1, k);
        }
      } else if StartsWith(segs[0], f) {
        assert j != k;
        StarFragmentBlocks(frags, segs[1..], j + 1, k);
      } else {
        StarFragmentBlocks(frags, segs[1..], j, k);
      }
    }
  }

  /** `ks` places fragments `j`, `j+1`, … (first `/` removed) at strictly
      increasing segment positions, each segment starting with its fragment. */
  ghost predicate IsEmbedding(ks: seq<nat>, frags: seq<string>, j: nat, segs: seq<string>) {
    j <= |frags| && |ks| == |frags| - j &&
    (forall i :: 0 <= i < |ks| ==> ks[i] < |segs| && StartsWith(segs[ks[i]], RemoveFirst(frags[j + i], '/'))) &&
    (forall a, b :: 0 <= a < b < |ks| ==> ks[a] < ks[b])
  }

  function Shift(ks: seq<nat>): (r: seq<nat>)
    ensures |r| == |ks| && forall i :: 0 <= i < |ks| ==> r[i] == ks[i] + 1
  {
    seq(|ks|, i requires 0 <= i < |ks| => ks[i] + 1)
  }

  /** A walk that matched every remaining fragment found an embedding. */
  lemma {:induction false} WalkFindsEmbedding(frags: seq<string>, segs: seq<string>, j: nat)
    requires j <= |frags| && WalkCount(frags, segs, j) == |frags| - j
    ensures exists ks :: IsEmbedding(ks, frags, j, segs)
    decreases |segs|
  {
    if j == |frags| {
      assert IsEmbedding([], frags, j, segs);
    } else {
      assert segs != [];
      var f := RemoveFirst(frags[j], '/');
      if '*' in f {
        WalkBound(frags, segs[1..], j + 1);
        assert false;
      } else if StartsWith(segs[0], f) {
        WalkFindsEmbedding(frags, segs[1..], j + 1);
        var ks' :| IsEmbedding(ks', frags, j + 1, segs[1..]);
        var ks := [0] + Shift(ks');
        forall i | 0 <= i < |ks|
          ensures ks[i] < |segs| && StartsWith(segs[ks[i]], RemoveFirst(frags[j + i], '/'))
        {
          if i > 0 {
            assert ks[i] == ks'[i - 1] + 1;
            assert segs[ks[i]] == segs[1..][ks'[i - 1]];
            assert j + i == (j + 1) + (i - 1);
          }
        }
        assert IsEmbedding(ks, frags, j, segs);
      } else {
        WalkFindsEmbedding(frags, segs[1..], j);
        var ks' :| IsEmbedding(ks', frags, j, segs[1..]);
        var ks := Shift(ks');
        forall i | 0 <= i < |ks|
          ensures ks[i] < |segs| && StartsWith(segs[ks[i]], RemoveFirst(frags[j + i], '/'))
        {
          assert segs[ks[i]] == segs[1..][ks'[i]];
        }
        assert IsEmbedding(ks, frags, j, segs);
      }
    }
  }

  function Unshift(ks: seq<nat>): (r: seq<nat>)
    requires forall i :: 0 <= i < |ks| ==> ks[i] >= 1
    ensures |r| == |ks| && forall i :: 0 <= i < |ks| ==> r[i] + 1 == ks[i]
  {
    seq(|ks|, i requires 0 <= i < |ks| => ks[i] - 1)
  }

  /** With star-free fragments, any embedding makes the greedy walk match
      every remaining fragment: greedy choice loses nothing. */
  lemma {:induction false} EmbeddingGuidesWalk(frags: seq<string>, segs: seq<string>, j: nat, ks: seq<nat>)
    requires IsEmbedding(ks, frags, j, segs)
    requires forall k :: j <= k < |frags| ==> '*' !in frags[k]
    ensures WalkCount(frags, segs, j) == |frags| - j
    decreases |segs|
  {
    if j == |frags| {
      WalkBound(frags, segs, j);
    } else {
      assert ks[0] < |segs|;
      var f := RemoveFirst(frags[j], '/');
      assert '*' !in f;
      if StartsWith(segs[0], f) {
        forall i | 0 <= i < |ks[1..]| ensures ks[1..][i] >= 1 {
          assert ks[0] < ks[i + 1];
        }
        var ks' := Unshift(ks[1..]);
        forall i | 0 <= i < |ks'|
          ensures ks'[i] < |segs[1..]| && StartsWith(segs[1..][ks'[i]], RemoveFirst(frags[(j + 1) + i], '/'))
        {
          assert segs[1..][ks'[i]] == segs[ks[i + 1]];
          assert (j + 1) + i == j + (i + 1);
        }
        forall a, b | 0 <= a < b < |ks'| ensures ks'[a] < ks'[b] {
          assert ks[a + 1] < ks[b + 1];
        }
        assert IsEmbedding(ks', frags, j + 1, segs[1..]);
        EmbeddingGuidesWalk(frags, segs[1..], j + 1, ks');
      } else {
        assert ks[0] != 0;
        forall i | 0 <= i < |ks| ensures ks[i] >= 1 {
          if i > 0 { assert ks[0] < ks[i]; }
        }
        var ks' := Unshift(ks);
        forall i | 0 <= i < |ks'|
          ensures ks'[i] < |segs[1..]| && StartsWith(segs[1..][ks'[i]], RemoveFirst(frags[j + i], '/'))
        {
          assert segs[1..][ks'[i]] == segs[ks[i]];
        }
        forall a, b | 0 <= a < b < |ks'| ensures ks'[a] < ks'[b] {
          assert ks[a] < ks[b];
        }
        assert IsEmbedding(ks', frags, j, segs[1..]);
        EmbeddingGuidesWalk(frags, segs[1..], j, ks');
      }
    }
  }

  /** The walk accepts exactly when no fragment holds `*` and the fragments,
      each with its first `/` removed, can be laid on the segments in order,
      each on a later segment that starts with it. */
  lemma WalkIffEmbedding(frags: seq<string>, segs: seq<string>)
    ensures WalkCount(frags, segs, 0) == |frags| <==>
      (forall k :: 0 <= k < |frags| ==> '*' !in frags[k]) && exists ks :: IsEmbedding(ks, frags, 0, segs)
  {
    if WalkCount(frags, segs, 0) == |frags| {
      forall k | 0 <= k < |frags| ensures '*' !in frags[k] {
        if '*' in frags[k] { StarFragmentBlocks(frags, segs, 0, k); }
      }
      WalkFindsEmbedding(frags, segs, 0);
    }
    if (forall k :: 0 <= k < |frags| ==> '*' !in frags[k]) && exists ks :: IsEmbedding(ks, frags, 0, segs) {
      var ks :| IsEmbedding(ks, frags, 0, segs);
      EmbeddingGuidesWalk(frags, segs, 0, ks);
    }
  }

  /** A pattern that reaches the walk matches iff its fragments embed into
      the path's segments; a match needs as many segments as fragments. */
  lemma SegmentedRegime(pattern: string, path: string)
    requires '*' in pattern
    requires Fragments(pattern) != []
    requires '*' in Fragments(pattern)[0] || |Fragments(pattern)| > 1
    ensures Match(pattern, path) == Value(
      (forall k :: 0 <= k < |Fragments(pattern)| ==> '*' !in Fragments(pattern)[k]) &&
      exists ks :: IsEmbedding(ks, Fragments(pattern), 0, Segments(StripTrailingSlash(path))))
    ensures Match(pattern, path) == Value(true) ==>
      |Segments(StripTrailingSlash(path))| >= |Fragments(pattern)|
  {
    var segs := Segments(StripTrailingSlash(path));
    WalkIffEmbedding(Fragments(pattern), segs);
    WalkBound(Fragments(pattern), segs, 0);
  }

  /** A pattern in the walk with a `*` in one of its fragments never
      matches. */
  lemma StarInWalkNeverMatches(pattern: string, path: string, k: nat)
    requires '*' in pattern
    requires k < |Fragments(pattern)| && '*' in Fragments(pattern)[k]
    ensures Match(pattern, path) == Value(false)
  {
    StarFragmentBlocks(Fragments(pattern), Segments(StripTrailingSlash(path)), 0, k);
  }

  // `*/folder/**`, one of the examples in the matcher's own comment, is
  // false for every path.
  lemma FolderPatternNeverMatches(path: string)
    ensures Match("*/folder/**", path) == Value(false)
  {
    var p := "*/folder/";
    assert StarsIsolated(p) by {
      forall i | 0 <= i < |p| && p[i] == '*' ensures i + 1 < |p| && p[i + 1] != '*' {
        assert i == 0;
      }
    }
    SplitAtMarker(p, "");
    assert p + "**" + "" == "*/folder/**";
    NonEmptyAppend([p], [""]);
    assert Fragments("*/folder/**") == [p];
    assert p[0] == '*';
    StarInWalkNeverMatches("*/folder/**", path, 0);
  }

  /** Segments without `/` do not start with a text holding one. */
  lemma SlashFreeSegmentsReject(segs: seq<string>, f: string)
    requires forall i :: 0 <= i < |segs| ==> '/' !in segs[i]
    requires '/' in f
    ensures forall i :: 0 <= i < |segs| ==> !StartsWith(segs[i], f)
  {
  }

  /** A fragment that keeps a `/` after stripping has nowhere to go among
      slash-free segments, so no placement of the fragments exists. */
  lemma NoPlacementForSlash(frags: seq<string>, segs: seq<string>, k: nat)
    requires k < |frags| && '/' in RemoveFirst(frags[k], '/')
    requires forall i :: 0 <= i < |segs| ==> '/' !in segs[i]
    ensures forall ks :: !IsEmbedding(ks, frags, 0, segs)
  {
    SlashFreeSegmentsReject(segs, RemoveFirst(frags[k], '/'));
    forall ks | |ks| == |frags| ensures !IsEmbedding(ks, frags, 0, segs) {
      var placed := ks[k];
    }
  }

  // Only the first `/` of a fragment is removed before it is compared with
  // a segment, so a walk fragment that keeps a second `/` (such as the
  // `/a/` of `/a/**/b`) can never be matched.
  lemma SecondSlashNeverMatches(pattern: string, path: string, k: nat)
    requires '*' in pattern
    requires Fragments(pattern) != []
    requires '*' in Fragments(pattern)[0] || |Fragments(pattern)| > 1
    requires k < |Fragments(pattern)| && '/' in RemoveFirst(Fragments(pattern)[k], '/')
    ensures Match(pattern, path) == Value(false)
  {
    var frags := Fragments(pattern);
    var segs := Segments(StripTrailingSlash(path));
    SegmentedRegime(pattern, path);
    NoPlacementForSlash(frags, segs, k);
  }

  // `/a/**/b` is false for every path.
  lemma InteriorSlashPatternNeverMatches(path: string)
    ensures Match("/a/**/b", path) == Value(false)
  {
    assert StarsIsolated("/a/");
    SplitAtMarker("/a/", "/b");
    assert "/a/" + "**" + "/b" == "/a/**/b";
    assert Split("/b", "**") == ["/b"] by {
      var s := "/b";
      assert s[..2] != "**" by { assert s[0] != '*'; }
      assert s[1..] == "b";
      assert Split("b", "**") == ["b"];
      assert ['/'] + "b" == s;
      assert Split(s, "**") == [['/'] + "b"] + ["b"][1..];
    }
    NonEmptyAppend(["/a/"], ["/b"]);
    assert Fragments("/a/**/b") == ["/a/", "/b"];
    assert RemoveFirst("/a/", '/') == "a/";
    assert "/a/**/b"[3] == '*';
    SecondSlashNeverMatches("/a/**/b", path, 0);
  }

  // ---------------------------------------------------------------------
  // Scanning the rules
  // ---------------------------------------------------------------------

  /** `some` stops at the first rule that does not return false: when the
      scan does not come back false, it returns what that rule returned, and
      every rule before it returned false. */
  lemma {:induction false} FirstHitIndex(rules: seq<string>, path: string) returns (i: nat)
    requires AnyMatches(rules, path) != Value(false)
    ensures i < |rules| && Match(rules[i], path) == AnyMatches(rules, path)
    ensures forall k :: 0 <= k < i ==> Match(rules[k], path) == Value(false)
  {
    if Match(rules[0], path) == Value(false) {
      var i' := FirstHitIndex(rules[1..], path);
      i := i' + 1;
      forall k | 0 <= k < i ensures Match(rules[k], path) == Value(false) {
        if k > 0 { assert rules[k] == rules[1..][k - 1]; }
      }
    } else {
      i := 0;
    }
  }

  /** Conversely, a rule that does not return false, preceded only by rules
      that do, decides the scan. */
  lemma {:induction false} FirstHitDecides(rules: seq<string>, path: string, i: nat)
    requires i < |rules| && Match(rules[i], path) != Value(false)
    requires forall k :: 0 <= k < i ==> Match(rules[k], path) == Value(false)
    ensures AnyMatches(rules, path) == Match(rules[i], path)
  {
    if i > 0 {
      forall k | 0 <= k < i - 1 ensures Match(rules[1..][k], path) == Value(false) {
        assert rules[1..][k] == rules[k + 1];
      }
      assert rules[1..][i - 1] == rules[i];
      FirstHitDecides(rules[1..], path, i - 1);
    }
  }

  /** With no rule made only of `**` markers, the scan never throws and
      allows exactly when some rule matches. */
  lemma AnyMatchesWithoutFaults(rules: seq<string>, path: string)
    requires forall i :: 0 <= i < |rules| ==> !OnlyMarkers(rules[i])
    ensures AnyMatches(rules, path) == Value(exists i :: 0 <= i < |rules| && Match(rules[i], path) == Value(true))
  {
    forall i | 0 <= i < |rules| ensures Match(rules[i], path) != TypeError {
      TypeErrorIff(rules[i], path);
    }
    if AnyMatches(rules, path) == Value(false) {
      assert forall i :: 0 <= i < |rules| ==> Match(rules[i], path) == Value(false);
    }
  }

  // ---------------------------------------------------------------------
  // The cache
  // ---------------------------------------------------------------------

  /** One gate call keeps the cache invariant, removes nothing, adds at most
      the requested path, and decides as the rules alone decide. An exempt
      path is added iff it was missing and the cache had room; a path not
      exempt is never added. */
  lemma GateStepKeepsInvariant(rules: seq<string>, cache: set<string>, path: string)
    requires CacheInvariant(rules, cache)
    ensures CacheInvariant(rules, GateStep(rules, cache, path).1)
    ensures GateStep(rules, cache, path).0 == Classify(rules, path)
    ensures cache <= GateStep(rules, cache, path).1
    ensures GateStep(rules, cache, path).1 == (
      if path !in cache && Classify(rules, path) == Allow && |cache| < Capacity
      then cache + {path} else cache)
  {
    if path !in cache && Classify(rules, path) == Allow && |cache| < Capacity {
      assert |cache + {path}| == |cache| + 1;
    }
  }

  /** Asking twice in a row gives the same answer, and the second call does
      not touch the cache. */
  lemma GateStepIdempotent(rules: seq<string>, cache: set<string>, path: string)
    requires CacheInvariant(rules, cache)
    ensures GateStep(rules, GateStep(rules, cache, path).1, path) ==
            (GateStep(rules, cache, path).0, GateStep(rules, cache, path).1)
  {
    GateStepKeepsInvariant(rules, cache, path);
  }

  /** A run of gate calls from a cache: the decisions and the last cache. */
  function Replay(rules: seq<string>, cache: set<string>, paths: seq<string>): (seq<Decision>, set<string>)
    decreases |paths|
  {
    if paths == [] then ([], cache)
    else
      var step := GateStep(rules, cache, paths[0]);
      var rest := Replay(rules, step.1, paths[1..]);
      ([step.0] + rest.0, rest.1)
  }

  /** Over any run of requests, whatever traffic came before, each decision
      is the rules' classification of its path, and the cache stays within
      the invariant and only grows. */
  lemma {:induction false} ReplayClassifies(rules: seq<string>, cache: set<string>, paths: seq<string>)
    requires CacheInvariant(rules, cache)
    ensures |Replay(rules, cache, paths).0| == |paths|
    ensures forall i :: 0 <= i < |paths| ==> Replay(rules, cache, paths).0[i] == Classify(rules, paths[i])
    ensures CacheInvariant(rules, Replay(rules, cache, paths).1)
    ensures cache <= Replay(rules, cache, paths).1
    decreases |paths|
  {
    if paths != [] {
      var step := GateStep(rules, cache, paths[0]);
      GateStepKeepsInvariant(rules, cache, paths[0]);
      ReplayClassifies(rules, step.1, paths[1..]);
      var r := Replay(rules, cache, paths);
      forall i | 0 <= i < |paths| ensures r.0[i] == Classify(rules, paths[i]) {
        if i > 0 { assert paths[i] == paths[1..][i - 1]; }
      }
    }
  }
}

