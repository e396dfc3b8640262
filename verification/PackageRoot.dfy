/**
 Import specifiers of scripts/check_architecture.py: which package a specifier belongs to,
 and whether it names a UI runtime.
 */
module PackageRoot {

  /** Python's `s.split("/")`. */
  function Split(s: string): (parts: seq<string>)
    ensures parts != []
  {
    var i := FirstSlash(s);
    if i == |s| then [s] else [s[..i]] + Split(s[i + 1..])
  }

  /** Position of the first slash, or the length when there is none. */
  function FirstSlash(s: string): (i: nat)
    ensures i <= |s| && '/' !in s[..i] && (i < |s| ==> s[i] == '/')
  {
    if s == "" || s[0] == '/' then 0 else
      var i := 1 + FirstSlash(s[1..]);
      assert s[..i] == [s[0]] + s[1..][..i - 1];
      i
  }

  function Root(specifier: string): (root: string) {
    if "@" <= specifier then
      var parts := Split(specifier);
      if |parts| >= 2 then parts[0] + "/" + parts[1] else specifier
    else specifier[..FirstSlash(specifier)]
  }

  predicate IsUiRuntime(specifier: string, uiRuntimePackages: set<string>) {
    Root(specifier) in uiRuntimePackages
  }

  predicate IsForbiddenProduct(specifier: string, forbidden: seq<string>) {
    exists i :: 0 <= i < |forbidden| && forbidden[i] <= specifier
  }

  /** Unscoped without a slash, or scoped with exactly one. */
  predicate WellFormedRoot(r: string) {
    if "@" <= r then |Split(r)| == 2 else '/' !in r
  }

  /** What may follow a piece: nothing, or a slash and more. */
  predicate Ends(rest: string) {
    rest == "" || rest[0] == '/'
  }

  /** A slash-free piece that ends there is the first piece of the split. */
  lemma {:induction false} FirstPiece(piece: string, rest: string)
    requires '/' !in piece && Ends(rest)
    ensures FirstSlash(piece + rest) == |piece|
    ensures (piece + rest)[..|piece|] == piece == Split(piece + rest)[0]
  {
    if piece == "" {
      assert piece + rest == rest;
    } else {
      FirstPiece(piece[1..], rest);
      assert (piece + rest)[1..] == piece[1..] + rest;
    }
  }

  lemma ScopedRoot(scope: string, name: string, rest: string)
    requires "@" <= scope && '/' !in scope && '/' !in name && Ends(rest)
    ensures Root(scope + "/" + name + rest) == scope + "/" + name
  {
    var s := scope + "/" + name + rest;
    assert s == scope + ("/" + name + rest);
    FirstPiece(scope, "/" + name + rest);
    FirstPiece(name, rest);
    hide FirstSlash;
    assert s[|scope| + 1..] == name + rest;
    assert Split(s) == [scope] + Split(name + rest);
    hide Split;
    assert "@" <= s;
  }

  /** Every specifier is its root and an ending. */
  lemma RootEnds(s: string) returns (rest: string)
    ensures s == Root(s) + rest && Ends(rest)
    ensures Root(s) == s || WellFormedRoot(Root(s))
  {
    var i := FirstSlash(s);
    if "@" <= s && i < |s| {
      var scope, more := s[..i], s[i + 1..];
      var j := FirstSlash(more);
      var name := more[..j];
      rest := more[j..];
      assert s == scope + "/" + name + rest;
      ScopedRoot(scope, name, rest);
      ScopedIsWellFormed(scope, name);
    } else if "@" <= s {
      rest := "";
    } else {
      rest := s[i..];
    }
  }

  lemma ScopedIsWellFormed(scope: string, name: string)
    requires "@" <= scope && '/' !in scope && '/' !in name
    ensures WellFormedRoot(scope + "/" + name)
  {
    var r := scope + "/" + name;
    assert r == scope + ("/" + name);
    FirstPiece(scope, "/" + name);
    assert r[|scope| + 1..] == name;
    FirstPiece(name, "");
    assert name + "" == name;
  }

  /** A well-formed root followed by an ending has that root. */
  lemma RootOfExtension(r: string, rest: string)
    requires WellFormedRoot(r) && Ends(rest)
    ensures Root(r + rest) == r
  {
    if "@" <= r {
      var i := FirstSlash(r);
      var scope, name := r[..i], r[i + 1..];
      assert r == scope + "/" + name;
      assert |Split(name)| == 1;
      assert name == name[..FirstSlash(name)];
      ScopedRoot(scope, name, rest);
    } else {
      FirstPiece(r, rest);
    }
  }

  /** The root of a specifier is `r` exactly when it is `r` or a subpath of `r`. */
  lemma RootMeansSubpath(r: string, s: string)
    requires WellFormedRoot(r)
    ensures Root(s) == r <==> s == r || r + "/" <= s
  {
    if s == r || r + "/" <= s {
      var rest := s[|r|..];
      assert s == r + rest;
      RootOfExtension(r, rest);
    }
    if Root(s) == r {
      var rest := RootEnds(s);
    }
  }

  lemma RootIdempotent(s: string)
    ensures Root(Root(s)) == Root(s)
  {
    var _ := RootEnds(s);
    if Root(s) != s {
      RootOfExtension(Root(s), "");
      assert Root(s) + "" == Root(s);
    }
  }

  /** With well-formed entries the UI check catches every subpath import and nothing else. */
  lemma UiRuntimeCatchesSubpaths(s: string, packages: set<string>)
    requires forall p :: p in packages ==> WellFormedRoot(p)
    ensures IsUiRuntime(s, packages) <==> exists p :: p in packages && (s == p || p + "/" <= s)
  {
    forall p | p in packages
      ensures Root(s) == p <==> s == p || p + "/" <= s
    {
      RootMeansSubpath(p, s);
    }
  }

  /** A specifier is a forbidden product exactly when it is a listed token followed by anything. */
  lemma ForbiddenIsExtension(specifier: string, forbidden: seq<string>)
    ensures IsForbiddenProduct(specifier, forbidden)
       <==> exists token, rest :: token in forbidden && specifier == token + rest
  {
    if IsForbiddenProduct(specifier, forbidden) {
      var i :| 0 <= i < |forbidden| && forbidden[i] <= specifier;
      assert specifier == forbidden[i] + specifier[|forbidden[i]|..];
    }
    forall token, rest | token in forbidden && specifier == token + rest
      ensures IsForbiddenProduct(specifier, forbidden)
    {
      var i :| 0 <= i < |forbidden| && forbidden[i] == token;
      assert forbidden[i] <= specifier;
    }
  }
}
