/** The three regular expressions the userscripts match against a page's
    path: the sub-folder of the forum, the profile's user name, and the test
    for a profile summary route. The API base appears in all three files; the
    user name and the route test only in progress.js and progress.user.js. */
module Paths {
  import opened JsValues

  /** The longest prefix of `s` holding none of the characters in `stops`:
      what a greedy `[^...]+`-style class consumes. */
  function Run(s: string, stops: set<char>): (r: string)
    ensures r <= s
    ensures forall i :: 0 <= i < |r| ==> r[i] !in stops
    ensures |r| < |s| ==> s[|r|] in stops
  {
    if s == [] || s[0] in stops then [] else [s[0]] + Run(s[1..], stops)
  }

  /** Any prefix free of `stops` that ends where `s` ends or at a stop
      character is the run: backtracking a greedy class yields nothing else.
      It follows from the three clauses of `Run`'s contract. */
  lemma RunUnique(s: string, stops: set<char>, p: string)
    requires p <= s
    requires forall i :: 0 <= i < |p| ==> p[i] !in stops
    requires |p| == |s| || s[|p|] in stops
    ensures p == Run(s, stops)
  {
  }

  const Slash: set<char> := {'/'}
  const NameStops: set<char> := {'/', '?', '#'}

  predicate SlashFree(seg: string)
  {
    forall i :: 0 <= i < |seg| ==> seg[i] != '/'
  }

  /** The path begins `/seg/u/`: `^\/([^/]+)\/u\/` matches with `seg`. */
  predicate SubfolderPrefix(path: string, seg: string)
  {
    |seg| > 0 && SlashFree(seg) && "/" + seg + "/u/" <= path
  }

  /** `getApiBase` / `apiBase`: the origin, followed by `/seg` on a forum
      installed in the sub-folder `seg`. */
  function ApiBase(origin: string, path: string): (base: string)
    ensures origin <= base
    ensures base != origin ==> exists seg :: SubfolderPrefix(path, seg) && base == origin + "/" + seg
  {
    if |path| > 0 && path[0] == '/' then
      var seg := Run(path[1..], Slash);
      if |seg| > 0 && "/u/" <= path[1 + |seg|..] then
        assert path[..1 + |seg| + 3] == "/" + seg + "/u/";
        assert SubfolderPrefix(path, seg);
        origin + "/" + seg
      else origin
    else origin
  }

  /** A path of the form `/seg/u/...` gives `origin + "/" + seg`. */
  lemma ApiBaseSubfolder(origin: string, path: string, seg: string)
    requires SubfolderPrefix(path, seg)
    ensures ApiBase(origin, path) == origin + "/" + seg
  {
    var tail := path[1..];
    assert seg <= tail by {
      assert forall i :: 0 <= i < |seg| ==> tail[i] == path[i + 1] == ("/" + seg + "/u/")[i + 1] == seg[i];
    }
    assert tail[|seg|] == path[|seg| + 1] == ("/" + seg + "/u/")[|seg| + 1] == '/';
    RunUnique(tail, Slash, seg);
    assert path[1 + |seg|..][..3] == ("/" + seg + "/u/")[1 + |seg|..] == "/u/";
  }

  /** `ApiBase` returns the bare origin exactly when the path has no
      sub-folder prefix. */
  lemma ApiBaseOrigin(origin: string, path: string)
    ensures ApiBase(origin, path) == origin <==> forall seg :: !SubfolderPrefix(path, seg)
  {
    if |path| > 0 && path[0] == '/' {
      var seg := Run(path[1..], Slash);
      if |seg| > 0 && "/u/" <= path[1 + |seg|..] {
        assert path[..1 + |seg| + 3] == "/" + seg + "/u/";
        assert SubfolderPrefix(path, seg);
        assert |ApiBase(origin, path)| > |origin|;
      } else {
        forall s | SubfolderPrefix(path, s) ensures false {
          ApiBaseSubfolder(origin, path, s);
        }
      }
    } else {
      forall s | SubfolderPrefix(path, s) ensures false { }
    }
  }

  /** The sub-folder may itself be called `u`: `/u/u/...` has base `/u`. */
  lemma ApiBaseFolderNamedU(origin: string, rest: string)
    ensures ApiBase(origin, "/u/u/" + rest) == origin + "/u"
  {
    assert ("/" + "u" + "/u/") <= "/u/u/" + rest;
    ApiBaseSubfolder(origin, "/u/u/" + rest, "u");
  }

  /** `/u/seg/` occurs at index i with `seg` non-empty and free of `/`, `?`
      and `#`: `\/u\/([^/?#]+)\/` matches there, capturing `seg`. */
  predicate UsernameAt(path: string, i: int, seg: string)
  {
    && 0 <= i
    && |seg| > 0
    && (forall j :: 0 <= j < |seg| ==> seg[j] !in NameStops)
    && i + |seg| + 4 <= |path|
    && path[i..i + |seg| + 4] == "/u/" + seg + "/"
  }

  /** At a given index the captured name, if any, is determined. */
  lemma UsernameAtIsRun(path: string, i: int, seg: string)
    requires UsernameAt(path, i, seg)
    ensures seg == Run(path[i + 3..], NameStops)
    ensures path[i..i + 3] == "/u/" && path[i + 3 + |seg|] == '/'
  {
    assert path[i..i + 3] == path[i..i + |seg| + 4][..3];
    var tail := path[i + 3..];
    forall j | 0 <= j < |seg| ensures tail[j] == seg[j] {
      assert tail[j] == path[i..i + |seg| + 4][j + 3];
    }
    assert tail[|seg|] == path[i..i + |seg| + 4][|seg| + 3] == '/';
    RunUnique(tail, NameStops, seg);
  }

  /** The leftmost match at or after index `from`, with its index. */
  function UsernameMatch(path: string, from: nat): Option<(nat, string)>
    decreases |path| - from
  {
    if from + 3 > |path| then None
    else
      if MatchesAt(path, from) then Some((from, Run(path[from + 3..], NameStops)))
      else UsernameMatch(path, from + 1)
  }

  /** Whether the match is at `from` itself. */
  predicate MatchesAt(path: string, from: nat)
    requires from + 3 <= |path|
  {
    var seg := Run(path[from + 3..], NameStops);
    path[from..from + 3] == "/u/" && |seg| > 0 && from + 3 + |seg| < |path| && path[from + 3 + |seg|] == '/'
  }

  lemma MatchesAtSpec(path: string, from: nat)
    requires from + 3 <= |path|
    ensures MatchesAt(path, from) ==> UsernameAt(path, from, Run(path[from + 3..], NameStops))
    ensures !MatchesAt(path, from) ==> forall s :: !UsernameAt(path, from, s)
  {
    var seg := Run(path[from + 3..], NameStops);
    if MatchesAt(path, from) {
      assert path[from + 3..][..|seg|] == seg;
      assert path[from..from + |seg| + 4] == path[from..from + 3] + path[from + 3..][..|seg|] + [path[from + 3 + |seg|]];
    } else {
      forall s | UsernameAt(path, from, s) ensures false {
        UsernameAtIsRun(path, from, s);
      }
    }
  }

  lemma {:induction false} UsernameMatchSpec(path: string, from: nat)
    ensures UsernameMatch(path, from).Some? ==>
      var (i, seg) := UsernameMatch(path, from).value;
      && from <= i && UsernameAt(path, i, seg)
      && forall j, s :: from <= j < i ==> !UsernameAt(path, j, s)
    ensures UsernameMatch(path, from).None? ==>
      forall j, s :: from <= j ==> !UsernameAt(path, j, s)
    decreases |path| - from
  {
    if from + 3 <= |path| {
      MatchesAtSpec(path, from);
      if !MatchesAt(path, from) {
        UsernameMatchSpec(path, from + 1);
      }
    }
  }

  /** `getUsername`: the name in the leftmost `/u/<name>/`, or null. */
  function Username(path: string): (name: Option<string>)
    ensures name.Some? ==> |name.value| > 0 && forall j :: 0 <= j < |name.value| ==> name.value[j] !in NameStops
  {
    UsernameMatchSpec(path, 0);
    match UsernameMatch(path, 0)
    case None => None
    case Some((_, seg)) => Some(seg)
  }

  /** `Username` finds the leftmost occurrence, and finds one whenever there
      is one: a name must be followed by `/` to count. */
  lemma UsernameSpec(path: string)
    ensures Username(path).Some? ==>
      exists i :: UsernameAt(path, i, Username(path).value) &&
        forall j, s :: 0 <= j < i ==> !UsernameAt(path, j, s)
    ensures Username(path).None? <==> forall i, s :: !UsernameAt(path, i, s)
  {
    UsernameMatchSpec(path, 0);
    if UsernameMatch(path, 0).Some? {
      var (i, seg) := UsernameMatch(path, 0).value;
      assert UsernameAt(path, i, seg);
    }
  }

  /** `/u/seg/summary` occurs at index i with `seg` non-empty and slash-free. */
  predicate RouteAt(url: string, i: int, seg: string)
  {
    && 0 <= i
    && |seg| > 0
    && SlashFree(seg)
    && i + |seg| + 11 <= |url|
    && url[i..i + |seg| + 11] == "/u/" + seg + "/summary"
  }

  function RouteFrom(url: string, from: nat): bool
    decreases |url| - from
  {
    if from + 3 > |url| then false
    else
      var seg := Run(url[from + 3..], Slash);
      (url[from..from + 3] == "/u/" && |seg| > 0 && "/summary" <= url[from + 3 + |seg|..])
      || RouteFrom(url, from + 1)
  }

  /** `/\/u\/[^/]+\/summary/.test(url)`: the test that triggers a refresh
      after the single-page application changes its route. */
  predicate IsSummaryRoute(url: string)
  {
    RouteFrom(url, 0)
  }

  lemma RouteAtIsRun(url: string, i: int, seg: string)
    requires RouteAt(url, i, seg)
    ensures seg == Run(url[i + 3..], Slash)
    ensures "/summary" <= url[i + 3 + |seg|..]
    ensures url[i..i + 3] == "/u/"
  {
    assert url[i..i + 3] == url[i..i + |seg| + 11][..3];
    var tail := url[i + 3..];
    forall j | 0 <= j < |seg| ensures tail[j] == seg[j] {
      assert tail[j] == url[i..i + |seg| + 11][j + 3];
    }
    assert tail[|seg|] == url[i..i + |seg| + 11][|seg| + 3] == '/';
    RunUnique(tail, Slash, seg);
    forall j | 0 <= j < 8 ensures url[i + 3 + |seg|..][j] == "/summary"[j] {
      assert url[i + 3 + |seg|..][j] == url[i..i + |seg| + 11][|seg| + 3 + j];
    }
  }

  lemma {:induction false} RouteFromSpec(url: string, from: nat)
    ensures RouteFrom(url, from) <==> exists i, seg :: from <= i && RouteAt(url, i, seg)
    decreases |url| - from
  {
    if from + 3 > |url| {
      forall i, seg | from <= i && RouteAt(url, i, seg) ensures false { }
    } else {
      RouteFromSpec(url, from + 1);
      var seg := Run(url[from + 3..], Slash);
      if url[from..from + 3] == "/u/" && |seg| > 0 && "/summary" <= url[from + 3 + |seg|..] {
        assert url[from..from + |seg| + 11] == "/u/" + seg + "/summary" by {
          assert url[from + 3..][..|seg|] == seg;
          assert url[from..from + |seg| + 11]
              == url[from..from + 3] + url[from + 3..][..|seg|] + url[from + 3 + |seg|..][..8];
        }
        assert RouteAt(url, from, seg);
      } else {
        forall s | RouteAt(url, from, s) ensures false {
          RouteAtIsRun(url, from, s);
        }
      }
    }
  }

  /** A refresh is triggered exactly for the URLs that contain
      `/u/<non-empty slash-free seg>/summary`. */
  lemma IsSummaryRouteSpec(url: string)
    ensures IsSummaryRoute(url) <==> exists i, seg :: RouteAt(url, i, seg)
  {
    RouteFromSpec(url, 0);
  }

  /** The name of a profile summary path. */
  lemma UsernameExample()
    ensures Username("/u/alice/summary") == Some("alice")
  {
    var path := "/u/alice/summary";
    assert path[0..9] == "/u/" + "alice" + "/";
    assert UsernameAt(path, 0, "alice");
    UsernameSpec(path);
    var i :| UsernameAt(path, i, Username(path).value) && forall j, s :: 0 <= j < i ==> !UsernameAt(path, j, s);
    assert i == 0;
    UsernameAtIsRun(path, 0, "alice");
    UsernameAtIsRun(path, 0, Username(path).value);
  }

  /** Without a slash after the name there is no user name. */
  lemma UsernameNeedsTrailingSlash()
    ensures Username("/u/alice") == None
  {
    var path := "/u/alice";
    forall i, s | UsernameAt(path, i, s) ensures false {
      UsernameAtIsRun(path, i, s);
    }
    UsernameSpec(path);
  }

  /** A sub-folder install is recognised. */
  lemma ApiBaseSubfolderExample(origin: string)
    ensures ApiBase(origin, "/forum/u/alice/summary") == origin + "/forum"
  {
    var path := "/forum/u/alice/summary";
    assert "/" + "forum" + "/u/" == "/forum/u/";
    assert "/forum/u/" == path[..9];
    assert SubfolderPrefix(path, "forum");
    ApiBaseSubfolder(origin, path, "forum");
    assert origin + "/" + "forum" == origin + ("/" + "forum");
  }

  /** On a root install the profile's own `/u/` is not taken for a folder. */
  lemma ApiBaseRootExample(origin: string)
    ensures ApiBase(origin, "/u/alice/summary") == origin
  {
    var path := "/u/alice/summary";
    assert "u" <= path[1..] && path[1..][1] == '/';
    RunUnique(path[1..], Slash, "u");
    assert path[2..][..3][1] == 'a';
  }
}
