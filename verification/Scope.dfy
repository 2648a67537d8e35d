/** The glob language of repository, package and artifact scopes. */
module Scope {
  import opened Text

  predicate StartsWith(s: string, prefix: string) {
    prefix <= s
  }

  predicate EndsWith(s: string, suffix: string) {
    |suffix| <= |s| && s[|s| - |suffix|..] == suffix
  }

  // "*" matches everything, "acme/*" matches "acme" and all below it, "acme*" is a prefix,
  // anything else is literal.
  predicate PatternMatches(pattern: string, name: string) {
    if pattern == "*" then true
    else if EndsWith(pattern, "/*") then
      var prefix := pattern[..|pattern| - 2];
      name == prefix || StartsWith(name, prefix + "/")
    else if EndsWith(pattern, "*") then
      StartsWith(name, pattern[..|pattern| - 1])
    else pattern == name
  }

  /** Every name the inner pattern matches, the outer one matches too. */
  ghost predicate Contains(outer: string, inner: string) {
    forall name :: PatternMatches(inner, name) ==> PatternMatches(outer, name)
  }

  // What a pattern requires literally: the text before its trailing "*" or "/*".
  function Stem(pattern: string): string {
    if EndsWith(pattern, "/*") then pattern[..|pattern| - 2]
    else if EndsWith(pattern, "*") then pattern[..|pattern| - 1]
    else pattern
  }

  // The literal part of a glob does not itself end in a star, as it does in "a**" or "a*/*".
  predicate StarOnlyLast(pattern: string) {
    pattern == "*" || !EndsWith(pattern, "*") || !EndsWith(Stem(pattern), "*")
  }

  /** Read as a name, every pattern is one of the names it matches. */
  lemma MatchesItself(pattern: string)
    ensures PatternMatches(pattern, pattern)
  {
  }

  lemma MatchContains(outer: string, inner: string, name: string)
    requires StarOnlyLast(outer) && PatternMatches(outer, inner) && PatternMatches(inner, name)
    ensures PatternMatches(outer, name)
  {
    if outer == "*" || !EndsWith(inner, "*") || !EndsWith(outer, "*") {
    } else if EndsWith(outer, "/*") {
      var prefix := outer[..|outer| - 2];
      assert inner != prefix;
      assert !EndsWith(prefix + "/", "*");
    } else {
      var prefix := outer[..|outer| - 1];
    }
  }

  /**
   Matching a pattern read as a name decides containment of the two languages, for every inner
   pattern, exactly when the outer pattern's literal part does not end in a star.
   */
  lemma MatchDecidesContainmentIff(outer: string)
    ensures StarOnlyLast(outer) <==> forall inner :: PatternMatches(outer, inner) <==> Contains(outer, inner)
  {
    forall inner | Contains(outer, inner)
      ensures PatternMatches(outer, inner)
    {
      MatchesItself(inner);
    }
    if StarOnlyLast(outer) {
      forall inner, name | PatternMatches(outer, inner) && PatternMatches(inner, name)
        ensures PatternMatches(outer, name)
      {
        MatchContains(outer, inner, name);
      }
    } else {
      var inner := Stem(outer);
      assert PatternMatches(outer, inner);
      var name := if inner == "*" then "" else ShortestMatch(inner);
      assert PatternMatches(inner, name) && |name| < |inner|;
      assert !PatternMatches(outer, name);
    }
  }

  function ShortestMatch(glob: string): (name: string)
    requires EndsWith(glob, "*")
    ensures PatternMatches(glob, name) && |name| < |glob|
  {
    if EndsWith(glob, "/*") then glob[..|glob| - 2] else glob[..|glob| - 1]
  }

  // ----- which repositories a grant's pattern may mean -----

  datatype Repository = Repository(id: string, name: string, mountPath: string)

  predicate ScopeMayTargetRepo(pattern: string, repo: Repository) {
    if PatternMatches(pattern, repo.name) then true
    else
      var slash := IndexOf(repo.mountPath, '/');
      var mountRelative := if slash >= 0 then repo.mountPath[slash + 1..] else "";
      if mountRelative == "" then false
      else if PatternMatches(pattern, mountRelative) || StartsWith(pattern, mountRelative + "/") then true
      else if EndsWith(pattern, "*") then
        var prefix := pattern[..|pattern| - 1];
        StartsWith(prefix, mountRelative + "/") || StartsWith(mountRelative, prefix)
      else false
  }

  /** A path itself, or something below it. */
  predicate AtOrBelow(name: string, path: string) {
    name == path || path + "/" <= name
  }

  lemma SlashesNest(a: string, b: string, name: string)
    requires AtOrBelow(name, a) && AtOrBelow(name, b)
    ensures AtOrBelow(a, b) || AtOrBelow(b, a)
  {
    if |a| < |b| {
      assert name[..|a|] == a && b == name[..|b|];
      assert name[|a|] == '/';
    } else if |b| < |a| {
      assert name[..|b|] == b && a == name[..|a|];
      assert name[|b|] == '/';
    } else {
      assert a == name[..|a|] && b == name[..|b|];
    }
  }

  /** A pattern that matches something at or below a path either matches the path or starts below it. */
  lemma MatchNearPath(pattern: string, path: string, name: string)
    requires AtOrBelow(name, path) && PatternMatches(pattern, name)
    ensures PatternMatches(pattern, path) || path + "/" <= pattern
  {
    if pattern != "*" && EndsWith(pattern, "/*") {
      var prefix := pattern[..|pattern| - 2];
      SlashesNest(prefix, path, name);
      if AtOrBelow(prefix, path) && prefix != path {
        assert prefix <= pattern;
      }
      if prefix == path {
        assert PatternMatches(pattern, path);
      }
    } else if pattern != "*" && EndsWith(pattern, "*") {
      var prefix := pattern[..|pattern| - 1];
      if |prefix| <= |path| {
        assert prefix == name[..|prefix|] && path == name[..|path|];
        assert prefix == path[..|prefix|];
      } else if name != path {
        assert path + "/" == name[..|path| + 1] && prefix == name[..|prefix|];
        assert path + "/" == prefix[..|path| + 1];
      }
    }
  }

  /**
   A pattern may mean a repository exactly when it matches the repository's name, or matches some
   name at or below what its mount path has after the first slash, if that is anything.
   */
  lemma MayTargetIff(pattern: string, id: string, name: string, mount: string, relative: string)
    requires '/' !in mount
    ensures ScopeMayTargetRepo(pattern, Repository(id, name, mount + "/" + relative)) <==>
            PatternMatches(pattern, name)
            || (relative != "" && exists below :: AtOrBelow(below, relative) && PatternMatches(pattern, below))
  {
    MountRead(mount, relative);
    if relative != "" {
      if below :| AtOrBelow(below, relative) && PatternMatches(pattern, below) {
        MatchNearPath(pattern, relative, below);
      }
      if PatternMatches(pattern, relative) {
        assert AtOrBelow(relative, relative);
      }
      if StartsWith(pattern, relative + "/") {
        MatchesItself(pattern);
        assert AtOrBelow(pattern, relative);
      }
      if EndsWith(pattern, "*") {
        var prefix := pattern[..|pattern| - 1];
        assert prefix <= pattern;
        if StartsWith(relative, prefix) {
          PrefixMatches(pattern, relative);
        }
      }
    }
  }

  lemma PrefixMatches(pattern: string, name: string)
    requires EndsWith(pattern, "*") && pattern[..|pattern| - 1] <= name
    ensures PatternMatches(pattern, name)
  {
    if EndsWith(pattern, "/*") {
      assert pattern[..|pattern| - 1] == pattern[..|pattern| - 2] + "/";
    }
  }

  lemma MountRead(mount: string, relative: string)
    requires '/' !in mount
    ensures var path := mount + "/" + relative; IndexOf(path, '/') == |mount| && path[|mount| + 1..] == relative
  {
    IndexOfAt(mount, '/', relative);
    assert mount + "/" + relative == mount + ['/'] + relative;
  }

  /** A mount path without a slash has nothing after it: only the name counts. */
  lemma NameAloneTargets(pattern: string, repo: Repository)
    requires '/' !in repo.mountPath
    ensures ScopeMayTargetRepo(pattern, repo) <==> PatternMatches(pattern, repo.name)
  {
  }
}
