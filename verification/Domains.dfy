/**
  Matching a queried domain against the flagged ones (backend/repositories/dnsLogs.repo.js:21-30).
  Domains are compared as exact strings.
 */
module Domains {

  function Dots(s: string): nat {
    if s == [] then 0 else Dots(s[..|s| - 1]) + if s[|s| - 1] == '.' then 1 else 0
  }

  function Labels(s: string): nat { Dots(s) + 1 }

  /** SUBSTRING_INDEX(s, '.', -n): what is to the right of the n-th dot from the right, all of `s` if there
      are fewer dots. */
  function SubstringIndex(s: string, n: nat): string
    requires n > 0
  {
    if s == [] then []
    else
      var front, last := s[..|s| - 1], s[|s| - 1];
      if last == '.' && n == 1 then []
      else SubstringIndex(front, if last == '.' then n - 1 else n) + [last]
  }

  /** The six-way EXISTS of the query. */
  predicate FastMatch(domain: string, flagged: set<string>) {
    || domain in flagged
    || SubstringIndex(domain, 2) in flagged
    || SubstringIndex(domain, 3) in flagged
    || SubstringIndex(domain, 4) in flagged
    || SubstringIndex(domain, 5) in flagged
    || SubstringIndex(domain, 6) in flagged
  }

  predicate EndsWith(s: string, tail: string) {
    |tail| <= |s| && s[|s| - |tail|..] == tail
  }

  /** The domain is the flagged one, or lies below it. */
  predicate Below(domain: string, f: string) {
    domain == f || EndsWith(domain, "." + f)
  }

  lemma {:induction false} FewDots(s: string, n: nat)
    requires n > 0 && Dots(s) < n
    ensures SubstringIndex(s, n) == s
  {
    if s != [] {
      FewDots(s[..|s| - 1], if s[|s| - 1] == '.' then n - 1 else n);
      assert s == s[..|s| - 1] + [s[|s| - 1]];
    }
  }

  /** With enough dots, the result has n labels and a dot stands before it. */
  lemma {:induction false} ManyDots(s: string, n: nat)
    requires n > 0 && Dots(s) >= n
    ensures var r := SubstringIndex(s, n); Labels(r) == n && EndsWith(s, "." + r)
  {
    var front, last := s[..|s| - 1], s[|s| - 1];
    assert s == front + [last];
    if last == '.' && n == 1 {
      assert s[|s| - 1..] == ".";
    } else {
      var m := if last == '.' then n - 1 else n;
      ManyDots(front, m);
      var r := SubstringIndex(front, m);
      assert (r + [last])[..|r|] == r;
      TailGrows(front, r, last);
    }
  }

  lemma TailGrows(s: string, r: string, c: char)
    requires EndsWith(s, "." + r)
    ensures EndsWith(s + [c], "." + (r + [c]))
  {
    assert "." + (r + [c]) == ("." + r) + [c];
    assert (s + [c])[|s| - |r| - 1..] == s[|s| - |r| - 1..] + [c];
  }

  /** Conversely, whatever follows a dot is found by its own number of labels. */
  lemma {:induction false} EveryTailIsFound(s: string, f: string)
    requires EndsWith(s, "." + f)
    ensures SubstringIndex(s, Labels(f)) == f && Dots(s) >= Labels(f)
  {
    var front, last := s[..|s| - 1], s[|s| - 1];
    if f == [] {
      assert last == ("." + f)[0];
    } else {
      var g := f[..|f| - 1];
      assert f == g + [f[|f| - 1]];
      assert "." + f == ("." + g) + [f[|f| - 1]];
      assert last == ("." + f)[|f|];
      assert front[|front| - |g| - 1..] == s[|s| - |f| - 1..][..|f|] == "." + g;
      EveryTailIsFound(front, g);
    }
  }

  lemma IndexMatches(domain: string, flagged: set<string>, n: nat)
    requires 2 <= n <= 6
    ensures SubstringIndex(domain, n) in flagged ==>
              domain in flagged || exists f :: f in flagged && Labels(f) == n && EndsWith(domain, "." + f)
  {
    if Dots(domain) < n {
      FewDots(domain, n);
    } else {
      ManyDots(domain, n);
    }
  }

  /** The indexed query finds a domain exactly when some flagged domain is equal to it, or has two to six
      labels and the queried domain lies below it. */
  lemma FastMatchIsSuffixMatch(domain: string, flagged: set<string>)
    ensures FastMatch(domain, flagged) <==>
            exists f :: f in flagged && (f == domain || (2 <= Labels(f) <= 6 && EndsWith(domain, "." + f)))
  {
    IndexMatches(domain, flagged, 2);
    IndexMatches(domain, flagged, 3);
    IndexMatches(domain, flagged, 4);
    IndexMatches(domain, flagged, 5);
    IndexMatches(domain, flagged, 6);
    forall f | f in flagged && 2 <= Labels(f) <= 6 && EndsWith(domain, "." + f)
      ensures FastMatch(domain, flagged)
    {
      EveryTailIsFound(domain, f);
    }
  }

  /** It is the plain rule "equal to or below a flagged domain" exactly when it is not the case that every
      flagged domain above this one is a bare top-level name or deeper than six labels. */
  lemma FastMatchMissesExactly(domain: string, flagged: set<string>)
    ensures FastMatch(domain, flagged) ==> exists f :: f in flagged && Below(domain, f)
    ensures (exists f :: f in flagged && Below(domain, f)) && !FastMatch(domain, flagged) <==>
            (exists f :: f in flagged && Below(domain, f)) &&
            (forall f :: f in flagged && Below(domain, f) ==> f != domain && (Labels(f) == 1 || Labels(f) > 6))
  {
    FastMatchIsSuffixMatch(domain, flagged);
    assert forall f :: f in flagged && Below(domain, f) ==> Below(domain, f);
  }

  /** A flagged top-level name does not reach the domains below it. */
  lemma TopLevelIsMissed()
    ensures Below("a.test", "test") && !FastMatch("a.test", {"test"})
  {
    assert "a.test"[|"a.test"| - |".test"|..] == ".test";
    FastMatchIsSuffixMatch("a.test", {"test"});
    assert Labels("test") == 1 by {
      NoDots("test");
    }
  }

  lemma {:induction false} NoDots(s: string)
    requires '.' !in s
    ensures Dots(s) == 0
  {
    if s != [] {
      NoDots(s[..|s| - 1]);
    }
  }
}
