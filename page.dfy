/** The widget page: where assets are loaded from, the sound and
    celebration services the widgets call back into, and the registry of
    widgets that receive resize notifications. */
module Page {
  import opened Wrappers

  /** The page-wide course configuration. */
  const Course := "ai-story-studio-6-8"
  const Project := "ai-story-studio-6-8"

  /** The asset root for a page served from the developer's machine. */
  const DevelopmentRoot := "../.."

  /** The asset root for a page served from the course site (note the
      trailing slash, which the path builder strips). */
  const ProductionRoot := "/assets/courses/" + Course + "/" + Project + "/assets/widgets/"

  /** Host names that count as a development environment. */
  predicate IsDevelopmentHost(hostname: string)
  {
    hostname == "localhost" || hostname == "127.0.0.1"
  }

  /** The asset root chosen for the page's host name. */
  function Root(hostname: string): (root: string)
    ensures root == DevelopmentRoot <==> IsDevelopmentHost(hostname)
    ensures root == ProductionRoot <==> !IsDevelopmentHost(hostname)
  {
    if IsDevelopmentHost(hostname) then DevelopmentRoot else ProductionRoot
  }

  predicate AllSlashes(s: string)
  {
    forall i :: 0 <= i < |s| ==> s[i] == '/'
  }

  /** True when `s` neither starts nor ends with a slash. */
  predicate Trimmed(s: string)
  {
    s == [] || (s[0] != '/' && s[|s| - 1] != '/')
  }

  /** Removes the run of slashes at the start of `s` (the pattern `^\/+`). */
  function TrimLeadingSlashes(s: string): string
  {
    if |s| > 0 && s[0] == '/' then TrimLeadingSlashes(s[1..]) else s
  }

  /** Removes the run of slashes at the end of `s` (the pattern `\/+$`). */
  function TrimTrailingSlashes(s: string): string
  {
    if |s| > 0 && s[|s| - 1] == '/' then TrimTrailingSlashes(s[..|s| - 1]) else s
  }

  /** Removes the slashes at both ends of `s` (the global pattern
      `^\/+|\/+$`). */
  function TrimSlashes(s: string): string
  {
    TrimTrailingSlashes(TrimLeadingSlashes(s))
  }

  /** What leading trimming keeps is a suffix of `s` that does not start
      with a slash, and what it drops is slashes only. */
  lemma {:induction false} TrimLeadingSlashesSpec(s: string)
    ensures var r := TrimLeadingSlashes(s);
      |r| <= |s| && r == s[|s| - |r|..] && AllSlashes(s[..|s| - |r|]) && (r == [] || r[0] != '/')
  {
    if |s| > 0 && s[0] == '/' {
      var t := s[1..];
      TrimLeadingSlashesSpec(t);
      var r := TrimLeadingSlashes(t);
      assert s[|s| - |r|..] == t[|t| - |r|..];
      assert s[..|s| - |r|] == [s[0]] + t[..|t| - |r|];
    }
  }

  /** What trailing trimming keeps is a prefix of `s` that does not end
      with a slash, and what it drops is slashes only. */
  lemma {:induction false} TrimTrailingSlashesSpec(s: string)
    ensures var r := TrimTrailingSlashes(s);
      |r| <= |s| && r == s[..|r|] && AllSlashes(s[|r|..]) && (r == [] || r[|r| - 1] != '/')
  {
    if |s| > 0 && s[|s| - 1] == '/' {
      var t := s[..|s| - 1];
      TrimTrailingSlashesSpec(t);
      var r := TrimTrailingSlashes(t);
      assert s[..|r|] == t[..|r|];
      assert s[|r|..] == t[|r|..] + [s[|s| - 1]];
    }
  }

  /** Trimming both ends keeps an unchanged slice of `s` with no slash at
      either end, and cuts away only slashes on either side. */
  lemma TrimSlashesSpec(s: string)
    ensures Trimmed(TrimSlashes(s))
    ensures exists i :: 0 <= i <= |s| - |TrimSlashes(s)| && TrimSlashes(s) == s[i..i + |TrimSlashes(s)|]
              && AllSlashes(s[..i]) && AllSlashes(s[i + |TrimSlashes(s)|..])
  {
    var u := TrimLeadingSlashes(s);
    var r := TrimTrailingSlashes(u);
    TrimLeadingSlashesSpec(s);
    TrimTrailingSlashesSpec(u);
    var i := |s| - |u|;
    assert s[i..] == u;
    assert r == s[i..i + |r|] by { assert u[..|r|] == s[i..i + |r|]; }
    assert s[i + |r|..] == u[|r|..];
  }

  /** The path of an asset: the host's root without its trailing slashes,
      then the prefix and the file name without slashes at their ends,
      joined by single slashes. */
  function GetAssetPath(hostname: string, filename: string, prefix: string): (path: string)
    ensures IsDevelopmentHost(hostname) ==>
      path == "../../" + TrimSlashes(prefix) + "/" + TrimSlashes(filename)
    ensures !IsDevelopmentHost(hostname) ==>
      path == ProductionRoot + TrimSlashes(prefix) + "/" + TrimSlashes(filename)
  {
    var cleanRoot := TrimTrailingSlashes(Root(hostname));
    var path := cleanRoot + "/" + TrimSlashes(prefix) + "/" + TrimSlashes(filename);
    if IsDevelopmentHost(hostname) then
      CleanDevelopmentRoot();
      path
    else
      CleanProductionRoot();
      path
  }

  /** The development root has no trailing slash to strip. */
  lemma CleanDevelopmentRoot()
    ensures TrimTrailingSlashes(DevelopmentRoot) == DevelopmentRoot
  {
    TrailingOfPadded(DevelopmentRoot, "");
  }

  /** Stripping the production root leaves it without its one trailing slash. */
  lemma CleanProductionRoot()
    ensures TrimTrailingSlashes(ProductionRoot) + "/" == ProductionRoot
  {
    var base := ProductionRoot[..|ProductionRoot| - 1];
    assert ProductionRoot == base + "/";
    TrailingOfPadded(base, "/");
  }

  lemma {:induction false} LeadingOfPadded(a: string, u: string)
    requires AllSlashes(a) && (u == [] || u[0] != '/')
    ensures TrimLeadingSlashes(a + u) == u
  {
    if a != [] {
      assert (a + u)[1..] == a[1..] + u;
      LeadingOfPadded(a[1..], u);
    } else {
      assert a + u == u;
    }
  }

  lemma {:induction false} TrailingOfPadded(u: string, b: string)
    requires AllSlashes(b) && (u == [] || u[|u| - 1] != '/')
    ensures TrimTrailingSlashes(u + b) == u
  {
    if b != [] {
      assert (u + b)[..|u + b| - 1] == u + b[..|b| - 1];
      TrailingOfPadded(u, b[..|b| - 1]);
    } else {
      assert u + b == u;
    }
  }

  /** Trimming undoes padding: a part with no slash at either end, padded
      with any runs of slashes, trims back to itself. */
  lemma TrimSlashesOfPadded(a: string, t: string, b: string)
    requires AllSlashes(a) && AllSlashes(b) && Trimmed(t)
    ensures TrimSlashes(a + t + b) == t
  {
    if t == [] {
      assert a + t + b == (a + b) + [];
      LeadingOfPadded(a + b, []);
    } else {
      assert a + t + b == a + (t + b);
      LeadingOfPadded(a, t + b);
      TrailingOfPadded(t, b);
    }
  }

  /** Trimming is idempotent. */
  lemma TrimSlashesIdempotent(s: string)
    ensures TrimSlashes(TrimSlashes(s)) == TrimSlashes(s)
  {
    TrimSlashesSpec(s);
    TrimmedIsFixed(TrimSlashes(s));
  }

  /** Slashes around the prefix and the file name never reach the path:
      whatever runs of slashes pad them, the path joins the bare parts with
      single slashes. */
  lemma AssetPathOfPaddedParts(hostname: string, a: string, prefix: string, b: string,
                               c: string, filename: string, d: string)
    requires AllSlashes(a) && AllSlashes(b) && AllSlashes(c) && AllSlashes(d)
    requires Trimmed(prefix) && Trimmed(filename)
    ensures GetAssetPath(hostname, c + filename + d, a + prefix + b)
      == (if IsDevelopmentHost(hostname) then "../../" else ProductionRoot) + prefix + "/" + filename
  {
    TrimSlashesOfPadded(a, prefix, b);
    TrimSlashesOfPadded(c, filename, d);
  }

  /** Parts that already have no slash at either end are joined verbatim. */
  lemma AssetPathOfCleanParts(hostname: string, filename: string, prefix: string)
    requires Trimmed(filename) && Trimmed(prefix)
    ensures GetAssetPath(hostname, filename, prefix)
      == (if IsDevelopmentHost(hostname) then "../../" else ProductionRoot) + prefix + "/" + filename
  {
    TrimmedIsFixed(prefix);
    TrimmedIsFixed(filename);
  }

  lemma TrimmedIsFixed(t: string)
    requires Trimmed(t)
    ensures TrimSlashes(t) == t
  {
    assert [] + t + [] == t;
    TrimSlashesOfPadded([], t, []);
  }

  /** The widgets a registration adds: the successfully constructed ones,
      in container order. `None` stands for a construction that threw. */
  function Constructed(attempts: seq<Option<object>>): seq<object>
  {
    if attempts == [] then []
    else (if attempts[0].Some? then [attempts[0].value] else []) + Constructed(attempts[1..])
  }

  lemma {:induction false} ConstructedAppend(a: seq<Option<object>>, b: seq<Option<object>>)
    ensures Constructed(a + b) == Constructed(a) + Constructed(b)
  {
    if a == [] {
      assert a + b == b;
    } else {
      var head := if a[0].Some? then [a[0].value] else [];
      assert (a + b)[0] == a[0] && (a + b)[1..] == a[1..] + b;
      assert Constructed(a + b) == head + Constructed(a[1..] + b);
      ConstructedAppend(a[1..], b);
      assert head + (Constructed(a[1..]) + Constructed(b)) == (head + Constructed(a[1..])) + Constructed(b);
    }
  }

  /** A widget is registered exactly when its construction succeeded. */
  lemma {:induction false} ConstructedMembers(attempts: seq<Option<object>>, w: object)
    ensures w in Constructed(attempts) <==> Some(w) in attempts
  {
    if attempts != [] {
      ConstructedMembers(attempts[1..], w);
      assert attempts == [attempts[0]] + attempts[1..];
    }
  }

  /** Nothing is lost when every construction succeeds: one widget per
      container, in container order. */
  lemma {:induction false} ConstructedAllSucceed(attempts: seq<Option<object>>)
    requires forall i :: 0 <= i < |attempts| ==> attempts[i].Some?
    ensures |Constructed(attempts)| == |attempts|
    ensures forall i :: 0 <= i < |attempts| ==> Constructed(attempts)[i] == attempts[i].value
  {
    if attempts != [] {
      ConstructedAllSucceed(attempts[1..]);
    }
  }

  /** The page: the host object that widgets call back into. Sound
      playback and the confetti celebration are kept as call counters. */
  class WidgetPage {
    const title: string
    const hostname: string
    const correctSoundPath: string
    const actionSoundPath: string
    const incorrectSoundPath: string

    var correctSounds: nat
    var actionSounds: nat
    var incorrectSounds: nat
    var celebrations: nat

    /** The registered widgets, in registration order. */
    var widgets: seq<object>
    /** Every `onResize` call made so far, in call order. */
    var resizeCalls: seq<object>

    constructor (title: string, hostname: string)
      ensures this.title == title && this.hostname == hostname
      ensures correctSoundPath == GetAssetPath(hostname, "correct.mp3", "shared")
      ensures actionSoundPath == GetAssetPath(hostname, "action.mp3", "shared")
      ensures incorrectSoundPath == GetAssetPath(hostname, "incorrect.wav", "shared")
      ensures correctSounds == actionSounds == incorrectSounds == celebrations == 0
      ensures widgets == [] && resizeCalls == []
    {
      this.title := title;
      this.hostname := hostname;
      correctSoundPath := GetAssetPath(hostname, "correct.mp3", "shared");
      actionSoundPath := GetAssetPath(hostname, "action.mp3", "shared");
      incorrectSoundPath := GetAssetPath(hostname, "incorrect.wav", "shared");
      correctSounds, actionSounds, incorrectSounds, celebrations := 0, 0, 0, 0;
      widgets, resizeCalls := [], [];
    }

    method PlayCorrectSound()
      modifies this`correctSounds
      ensures correctSounds == old(correctSounds) + 1
    {
      correctSounds := correctSounds + 1;
    }

    method PlayActionSound()
      modifies this`actionSounds
      ensures actionSounds == old(actionSounds) + 1
    {
      actionSounds := actionSounds + 1;
    }

    method PlayIncorrectSound()
      modifies this`incorrectSounds
      ensures incorrectSounds == old(incorrectSounds) + 1
    {
      incorrectSounds := incorrectSounds + 1;
    }

    method Celebrate()
      modifies this`celebrations
      ensures celebrations == old(celebrations) + 1
    {
      celebrations := celebrations + 1;
    }

    /** Registers one widget per matching container. `attempts[i]` is the
        outcome of constructing the widget over the i-th container. */
    method RegisterWidget(attempts: seq<Option<object>>) returns (registered: seq<object>)
      modifies this`widgets
      ensures widgets == old(widgets) + Constructed(attempts)
      ensures registered == widgets
    {
      var i := 0;
      while i < |attempts|
        invariant 0 <= i <= |attempts|
        invariant widgets == old(widgets) + Constructed(attempts[..i])
      {
        ConstructedAppend(attempts[..i], [attempts[i]]);
        assert attempts[..i + 1] == attempts[..i] + [attempts[i]];
        if attempts[i].Some? {
          widgets := widgets + [attempts[i].value];
        }
        i := i + 1;
      }
      assert attempts[..i] == attempts;
      registered := widgets;
    }

    /** Notifies every registered widget of a window resize. */
    method HandleResize()
      modifies this`resizeCalls
      ensures resizeCalls == old(resizeCalls) + widgets
    {
      for i := 0 to |widgets|
        invariant resizeCalls == old(resizeCalls) + widgets[..i]
      {
        assert widgets[..i + 1] == widgets[..i] + [widgets[i]];
        resizeCalls := resizeCalls + [widgets[i]];
      }
      assert widgets[..|widgets|] == widgets;
    }
  }
}


/** Worked examples of the page's asset paths. */
module PageExamples {
  import opened Page

  /** The correct-answer sound of a production page. */
  lemma ProductionSoundPath(hostname: string)
    requires !IsDevelopmentHost(hostname)
    ensures var file, dir := "correct.mp3", "shared";
      GetAssetPath(hostname, file, dir) == ProductionRoot + "shared/correct.mp3"
  {
    var file, dir := "correct.mp3", "shared";
    AssetPathOfCleanParts(hostname, file, dir);
  }

  /** Stray slashes around the prefix and the file name do not double up. */
  lemma DevelopmentPathWithStraySlashes()
    ensures GetAssetPath("localhost", "/" + "correct.mp3" + "/", "//" + "shared" + "/") == "../../shared/correct.mp3"
  {
    AssetPathOfPaddedParts("localhost", "//", "shared", "/", "/", "correct.mp3", "/");
    assert "../../" + "shared" + "/" + "correct.mp3" == "../../shared/correct.mp3";
  }
}
