/** The rule list of src/config/unprotectedRoutes.ts and what the gate
    decides with it. */
module UnprotectedRoutes {
  import opened JsString
  import opened Routing
  import opened RoutingProperties

  /** The exported list, in its order. */
  const Rules: seq<string> := [
    "/login",
    "/login_session",
    "/logout",
    "/signup",
    "/verify-session",
    "/@**",
    "/node_modules/**",
    "/src/**",
    "/favicon**",
    "/fonts/**",
    "/images/**",
    "/_astro/**"
  ]

  /** The entries compared exactly. */
  const ExactRoutes: seq<string> := ["/login", "/login_session", "/logout", "/signup", "/verify-session"]

  /** The literal prefixes of the wildcard entries. */
  const PrefixRoutes: seq<string> := ["/@", "/node_modules/", "/src/", "/favicon", "/fonts/", "/images/", "/_astro/"]

  /** The first five entries hold no `*`; each of the other seven is a
      non-empty literal prefix without `*` followed by one `**`. */
  lemma RulesShape()
    ensures |Rules| == |ExactRoutes| + |PrefixRoutes|
    ensures forall i :: 0 <= i < |ExactRoutes| ==>
      Rules[i] == ExactRoutes[i] && '*' !in ExactRoutes[i] && !EndsWith(ExactRoutes[i], '/')
    ensures forall i :: 0 <= i < |PrefixRoutes| ==>
      Rules[|ExactRoutes| + i] == PrefixRoutes[i] + "**" && PrefixRoutes[i] != "" && '*' !in PrefixRoutes[i]
  {
    assert Rules[..5] == ExactRoutes;
    forall i | 0 <= i < |ExactRoutes| ensures '*' !in ExactRoutes[i] && !EndsWith(ExactRoutes[i], '/') {
      assert ExactRoutes[i] in ExactRoutes;
    }
    forall i | 0 <= i < |PrefixRoutes| ensures PrefixRoutes[i] != "" && '*' !in PrefixRoutes[i] {
      assert PrefixRoutes[i] in PrefixRoutes;
    }
    forall i | 0 <= i < |PrefixRoutes| ensures Rules[|ExactRoutes| + i] == PrefixRoutes[i] + "**" {
      if i == 0 {
        assert Rules[5] == "/@" + "**";
      } else if i == 1 {
        assert Rules[6] == "/node_modules/" + "**";
      } else if i == 2 {
        assert Rules[7] == "/src/" + "**";
      } else if i == 3 {
        assert Rules[8] == "/favicon" + "**";
      } else if i == 4 {
        assert Rules[9] == "/fonts/" + "**";
      } else if i == 5 {
        assert Rules[10] == "/images/" + "**";
      } else {
        assert Rules[11] == "/_astro/" + "**";
      }
    }
  }

  /** Every entry is handled by the exact or the prefix branch of
      `matchPath`; none reaches the segmented walk and none throws. */
  lemma RulesUseExactOrPrefix(path: string)
    ensures forall i :: 0 <= i < |ExactRoutes| ==>
      Match(Rules[i], path) == Value(StripTrailingSlash(path) == ExactRoutes[i])
    ensures forall i :: 0 <= i < |PrefixRoutes| ==>
      Match(Rules[|ExactRoutes| + i], path) == Value(StartsWith(StripTrailingSlash(path), PrefixRoutes[i]))
    ensures forall i :: 0 <= i < |Rules| ==> !OnlyMarkers(Rules[i])
  {
    RulesShape();
    forall i | 0 <= i < |PrefixRoutes|
      ensures Match(Rules[|ExactRoutes| + i], path) == Value(StartsWith(StripTrailingSlash(path), PrefixRoutes[i]))
    {
      PrefixRegime(PrefixRoutes[i], path);
    }
    forall i | 0 <= i < |Rules| ensures !OnlyMarkers(Rules[i]) {
      if i < |ExactRoutes| {
        assert '*' !in Rules[i];
        if |Rules[i]| > 0 { assert Rules[i][0] != '*'; }
      } else {
        var q := PrefixRoutes[i - |ExactRoutes|];
        assert Rules[i] == q + "**";
        assert Rules[i][0] == q[0];
      }
    }
  }

  /** The paths the configured list exempts: the slash-stripped path is one
      of the exact entries or starts with one of the prefixes. */
  predicate ExemptByConfig(path: string) {
    var p := StripTrailingSlash(path);
    p in ExactRoutes || exists q :: q in PrefixRoutes && StartsWith(p, q)
  }

  /** With the configured list the gate never faults: it allows exactly the
      exempt paths and delegates every other one. */
  lemma ConfiguredDecision(path: string)
    ensures Classify(Rules, path) == if ExemptByConfig(path) then Allow else Delegate
  {
    RulesShape();
    RulesUseExactOrPrefix(path);
    AnyMatchesWithoutFaults(Rules, path);
    var p := StripTrailingSlash(path);
    if ExemptByConfig(path) {
      if p in ExactRoutes {
        var i :| 0 <= i < |ExactRoutes| && ExactRoutes[i] == p;
        assert Match(Rules[i], path) == Value(true);
      } else {
        var q :| q in PrefixRoutes && StartsWith(p, q);
        var i :| 0 <= i < |PrefixRoutes| && PrefixRoutes[i] == q;
        assert Match(Rules[|ExactRoutes| + i], path) == Value(true);
      }
    } else {
      forall i | 0 <= i < |Rules| ensures Match(Rules[i], path) != Value(true) {
        if i < |ExactRoutes| {
          assert ExactRoutes[i] in ExactRoutes;
        } else {
          assert PrefixRoutes[i - |ExactRoutes|] in PrefixRoutes;
        }
      }
    }
  }

  /** A path whose slash-stripped form starts with prefix number `i` is
      allowed. */
  lemma ExemptViaPrefix(path: string, i: nat)
    requires i < |PrefixRoutes| && StartsWith(StripTrailingSlash(path), PrefixRoutes[i])
    ensures Classify(Rules, path) == Allow
  {
    assert PrefixRoutes[i] in PrefixRoutes;
    ConfiguredDecision(path);
  }

  /** Each exact entry is exempt as written and with one trailing slash. */
  lemma ExactEntriesExempt()
    ensures forall r :: r in ExactRoutes ==> Classify(Rules, r) == Allow && Classify(Rules, r + "/") == Allow
  {
    forall r | r in ExactRoutes ensures Classify(Rules, r) == Allow && Classify(Rules, r + "/") == Allow {
      RulesShape();
      var i :| 0 <= i < |ExactRoutes| && ExactRoutes[i] == r;
      assert StripTrailingSlash(r + "/") == r;
      ConfiguredDecision(r);
      ConfiguredDecision(r + "/");
    }
  }

  /** `/login/` matches `/login`, `/login//` does not. */
  lemma LoginTrailingSlashes()
    ensures Match("/login", "/login/") == Value(true)
    ensures Match("/login", "/login//") == Value(false)
    ensures Match("/login", "/login/x") == Value(false)
  {
    ExactRegime("/login", "/login/");
    ExactRegime("/login", "/login//");
    ExactRegime("/login", "/login/x");
    assert "/login//" != "/login" + "/" by { assert |"/login//"| != |"/login" + "/"|; }
    assert "/login/x" != "/login" + "/" by { assert |"/login/x"| != |"/login" + "/"|; }
  }

  /** Vite's client is exempt through `/@**`. */
  lemma ViteClientExempt()
    ensures Classify(Rules, "/@vite/client") == Allow
  {
    assert StartsWith(StripTrailingSlash("/@vite/client"), PrefixRoutes[0]) by {}
    ExemptViaPrefix("/@vite/client", 0);
  }

  /** Vite's source files are exempt through `/@**`. */
  lemma ViteSourceExempt()
    ensures Classify(Rules, "/@fs/src/main.ts") == Allow
  {
    assert StartsWith(StripTrailingSlash("/@fs/src/main.ts"), PrefixRoutes[0]) by {}
    ExemptViaPrefix("/@fs/src/main.ts", 0);
  }

  // An image is exempt through `/images/**`.
  lemma ImageExempt()
    ensures Classify(Rules, "/images/logo.svg") == Allow
  {
    assert StartsWith(StripTrailingSlash("/images/logo.svg"), PrefixRoutes[5]) by {}
    ExemptViaPrefix("/images/logo.svg", 5);
  }

  /** The favicon is exempt through `/favicon**`. */
  lemma FaviconExempt()
    ensures Classify(Rules, "/favicon.ico") == Allow
  {
    assert StartsWith(StripTrailingSlash("/favicon.ico"), PrefixRoutes[3]) by {}
    ExemptViaPrefix("/favicon.ico", 3);
  }

  /** The second character of each prefix. */
  lemma PrefixSecondCharacters(q: string)
    requires q in PrefixRoutes
    ensures |q| >= 2 && q[0] == '/'
    ensures q[1] in "@nsfi_"
    ensures q[1] == 'i' ==> q == "/images/"
  {
  }

  /** A path whose second character begins no prefix, and which is not
      under `/images/`, starts with no prefix. */
  lemma NoPrefixFits(p: string)
    requires |p| >= 2 && p[1] !in "@nsf_"
    requires p[1] == 'i' ==> !StartsWith(p, "/images/")
    ensures forall q :: q in PrefixRoutes ==> !StartsWith(p, q)
  {
    forall q | q in PrefixRoutes ensures !StartsWith(p, q) {
      PrefixSecondCharacters(q);
    }
  }

  /** `/images` itself matches no entry: the session verifier decides it. */
  lemma BareImagesDelegated()
    ensures Classify(Rules, "/images") == Delegate
  {
    NoPrefixFits("/images");
    ConfiguredDecision("/images");
  }

  /** `/graphql` matches no entry: the session verifier decides it. */
  lemma GraphqlDelegated()
    ensures Classify(Rules, "/graphql") == Delegate
  {
    NoPrefixFits("/graphql");
    ConfiguredDecision("/graphql");
  }

  /** `/dashboard` matches no entry: the session verifier decides it. */
  lemma DashboardDelegated()
    ensures Classify(Rules, "/dashboard") == Delegate
  {
    NoPrefixFits("/dashboard");
    ConfiguredDecision("/dashboard");
  }
}
