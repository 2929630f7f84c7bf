/** Path strings: splitting at slashes, and the prefix that names the parent directory. */
module Paths {
  import opened Layout

  /** The components of a canonical path: none empty, none with a slash in it. */
  predicate Canonical(p: Path) {
    forall i :: 0 <= i < |p| ==> p[i] != [] && '/' !in p[i]
  }

  /** The length of the longest prefix without a slash. */
  function RunLen(s: string): (n: nat)
    ensures n <= |s| && '/' !in s[..n] && (n < |s| ==> s[n] == '/')
  {
    if s == [] || s[0] == '/' then 0 else 1 + RunLen(s[1..])
  }

  /** The non-empty pieces between slashes, as strtok delivers them. */
  function Tokens(s: string): seq<string>
    decreases |s|
  {
    if s == [] then []
    else if s[0] == '/' then Tokens(s[1..])
    else [s[..RunLen(s)]] + Tokens(s[RunLen(s)..])
  }

  lemma {:induction false} TokensCanonical(s: string)
    ensures Canonical(Tokens(s))
    decreases |s|
  {
    if s != [] {
      TokensCanonical(if s[0] == '/' then s[1..] else s[RunLen(s)..]);
    }
  }

  /** "/a/b" for [a, b]; nothing for no components. */
  function Render(p: Path): string {
    if p == [] then [] else "/" + p[0] + Render(p[1..])
  }

  /** The canonical string of a path; the root is a lone slash. */
  function PathString(p: Path): string {
    if p == [] then "/" else Render(p)
  }

  lemma {:induction false} RunOf(t: string, s: string)
    requires '/' !in t && (s == [] || s[0] == '/')
    ensures RunLen(t + s) == |t|
    decreases |t|
  {
    if t == [] {
      assert t + s == s;
    } else {
      assert (t + s)[0] == t[0] && (t + s)[1..] == t[1..] + s;
      RunOf(t[1..], s);
    }
  }

  lemma TokensHead(t: string, rest: string)
    requires t != [] && '/' !in t && (rest == [] || rest[0] == '/')
    ensures Tokens("/" + t + rest) == [t] + Tokens(rest)
  {
    var u := t + rest;
    assert "/" + t + rest == "/" + u && ("/" + u)[1..] == u;
    assert u[0] == t[0];
    RunOf(t, rest);
    assert u[..|t|] == t && u[|t|..] == rest;
  }

  /** Splitting a rendered path gives its components back, with or without a closing slash. */
  lemma {:induction false} TokensRender(p: Path, end: string)
    requires Canonical(p) && (end == [] || end == "/")
    ensures Tokens(Render(p) + end) == p
    decreases |p|
  {
    if p == [] {
      assert Render(p) + end == end;
      if end == "/" {
        assert end[1..] == [];
      }
    } else {
      var rest := Render(p[1..]) + end;
      assert Render(p) + end == "/" + p[0] + rest;
      TokensRender(p[1..], end);
      TokensHead(p[0], rest);
    }
  }

  lemma {:induction false} RenderSnoc(p: Path, t: string)
    ensures Render(p + [t]) == Render(p) + "/" + t
    decreases |p|
  {
    if p == [] {
      assert [t][1..] == [];
      assert Render([t]) == "/" + t + Render([]);
    } else {
      assert (p + [t])[1..] == p[1..] + [t];
      RenderSnoc(p[1..], t);
    }
  }

  /** What create, mkdir, unlink, rmdir and rename compute as the length of the parent prefix:
      the lengths of all components but the last, plus one each, plus one. */
  function PrefixLen(p: Path): nat {
    if p == [] then 1 else SumLens(Parent(p)) + 1
  }

  function SumLens(p: Path): nat {
    if p == [] then 0 else SumLens(Parent(p)) + |Last(p)| + 1
  }

  lemma {:induction false} RenderLen(p: Path)
    ensures |Render(p)| == SumLens(p)
    decreases |p|
  {
    if p != [] {
      assert p == Parent(p) + [Last(p)];
      RenderSnoc(Parent(p), Last(p));
      RenderLen(Parent(p));
    }
  }

  /** For every canonical path the computed prefix is inside the string and splits into exactly
      the components of the parent directory. */
  lemma ParentPrefix(p: Path)
    requires Canonical(p)
    ensures PrefixLen(p) <= |PathString(p)|
    ensures Tokens(PathString(p)[..PrefixLen(p)]) == Parent(p)
    ensures PathString(p)[0] == '/' && Tokens(PathString(p)) == p
  {
    TokensRender(p, "");
    assert Render(p) + "" == Render(p);
    TokensRender([], "/");
    assert Render([]) + "/" == "/";
    if p != [] {
      assert p == Parent(p) + [Last(p)];
      RenderSnoc(Parent(p), Last(p));
      RenderLen(Parent(p));
      TokensRender(Parent(p), "/");
      assert Render(p)[..PrefixLen(p)] == Render(Parent(p)) + "/";
    }
  }

  predicate NoDouble(s: string) {
    |s| < 2 || (!(s[0] == '/' && s[1] == '/') && NoDouble(s[1..]))
  }

  /** A string FUSE may pass: it starts with a slash, has no two in a row, and ends with one only
      if it is the root. */
  predicate Clean(s: string) {
    s != [] && s[0] == '/' && NoDouble(s) && (|s| > 1 ==> s[|s| - 1] != '/')
  }

  lemma {:induction false} NoDoubleDrop(s: string, n: nat)
    requires n <= |s| && NoDouble(s)
    ensures NoDouble(s[n..])
    decreases n
  {
    if n > 0 {
      NoDoubleDrop(s[1..], n - 1);
      assert s[1..][n - 1..] == s[n..];
    }
  }

  lemma {:induction false} RenderTokens(s: string)
    requires s == [] || (Clean(s) && |s| > 1)
    ensures Render(Tokens(s)) == s
    decreases |s|
  {
    if s != [] {
      var t := s[1..];
      var n := RunLen(t);
      assert t[0] == s[1] != '/';
      var rest := t[n..];
      assert rest == s[1 + n..];
      NoDoubleDrop(s, 1 + n);
      if rest != [] {
        assert rest[|rest| - 1] == s[|s| - 1] && |rest| > 1;
      }
      RenderTokens(rest);
      assert s == "/" + t[..n] + rest;
      TokensHead(t[..n], rest);
    }
  }

  /** Every string FUSE may pass is the canonical string of its components. */
  lemma CleanString(s: string)
    requires Clean(s)
    ensures Canonical(Tokens(s)) && PathString(Tokens(s)) == s
    ensures s != [] && s[0] == '/' && (s == "/" <==> Tokens(s) == [])
  {
    TokensCanonical(s);
    if |s| > 1 {
      RenderTokens(s);
    } else {
      assert s == "/" && s[1..] == [];
    }
  }
}
