/**
 * Rewriting route templates: `path.replace(/:([A-Za-z0-9_]+)/g, "{$1}")`, as the
 * validator and the builder both do it.
 */
module RoutePaths {

  predicate WordChar(c: char) {
    'A' <= c <= 'Z' || 'a' <= c <= 'z' || '0' <= c <= '9' || c == '_'
  }

  /** How many word characters a string starts with: a match takes them all. */
  function WordLength(s: string): (n: nat)
    ensures n <= |s|
    ensures forall i :: 0 <= i < n ==> WordChar(s[i])
    ensures n < |s| ==> !WordChar(s[n])
  {
    if s != "" && WordChar(s[0]) then 1 + WordLength(s[1..]) else 0
  }

  function Normalize(path: string): string
    decreases |path|
  {
    if path == "" then ""
    else
      var n := WordLength(path[1..]);
      if path[0] == ':' && n > 0 then "{" + path[1..n + 1] + "}" + Normalize(path[n + 1..])
      else [path[0]] + Normalize(path[1..])
  }

  /** A string that does not start with a word character: a name before it ends there. */
  predicate EndsName(s: string) {
    s != "" ==> !WordChar(s[0])
  }

  predicate Name(s: string) {
    s != "" && forall i :: 0 <= i < |s| ==> WordChar(s[i])
  }

  /** A parameter in braces from `i` to `j`, which a colon in the place of the first would end alike. */
  predicate BracedAt(s: string, i: nat, j: nat) {
    && i + 1 < j < |s| && s[i] == '{' && s[j] == '}'
    && (forall k :: i < k < j ==> WordChar(s[k]))
    && (j + 1 < |s| ==> !WordChar(s[j + 1]))
  }

  /** The length of the name in `{name}` at the start, or 0; what follows must end a name too. */
  function BracedLength(s: string): (n: nat)
    ensures n > 0 ==> BracedAt(s, 0, n + 1)
  {
    if s == "" || s[0] != '{' then 0
    else
      var n := WordLength(s[1..]);
      if n + 1 < |s| && s[n + 1] == '}' && EndsName(s[n + 2..]) then n else 0
  }

  /** The template with each braced parameter written with a colon. */
  function Denormalize(s: string): string
    decreases |s|
  {
    if s == "" then ""
    else
      var n := BracedLength(s);
      if n > 0 then ":" + s[1..n + 1] + Denormalize(s[n + 2..])
      else [s[0]] + Denormalize(s[1..])
  }

  ghost predicate Braced(s: string) {
    exists i: nat, j: nat :: BracedAt(s, i, j)
  }

  /** No colon is followed by a word character: there is nothing left to rewrite. */
  predicate Settled(s: string) {
    forall i :: 0 <= i < |s| - 1 && s[i] == ':' ==> !WordChar(s[i + 1])
  }

  lemma {:induction false} WordLengthOf(name: string, rest: string)
    requires (forall i :: 0 <= i < |name| ==> WordChar(name[i])) && EndsName(rest)
    ensures WordLength(name + rest) == |name|
  {
    if name != "" {
      assert (name + rest)[1..] == name[1..] + rest;
      WordLengthOf(name[1..], rest);
    } else {
      assert name + rest == rest;
    }
  }

  // How a template starts, as the one and the other rewriting see it.

  /** The name a template's first character introduces, if it is a colon before one. */
  lemma NormalizeParts(path: string) returns (name: string, rest: string)
    requires path != ""
    ensures name != "" ==>
              && Name(name) && EndsName(rest)
              && path == ":" + name + rest && Normalize(path) == "{" + name + "}" + Normalize(rest)
    ensures name == "" ==>
              && path == [path[0]] + rest && Normalize(path) == [path[0]] + Normalize(rest)
              && (path[0] == ':' ==> EndsName(rest))
    ensures |rest| < |path|
  {
    var n := WordLength(path[1..]);
    if path[0] == ':' && n > 0 {
      name, rest := path[1..n + 1], path[n + 1..];
    } else {
      name, rest := "", path[1..];
    }
  }

  lemma NormalizeParam(name: string, rest: string)
    requires Name(name) && EndsName(rest)
    ensures Normalize(":" + name + rest) == "{" + name + "}" + Normalize(rest)
  {
    var path := ":" + name + rest;
    assert path[1..] == name + rest;
    WordLengthOf(name, rest);
    assert path[1..|name| + 1] == name && path[|name| + 1..] == rest;
  }

  lemma NormalizeChar(c: char, rest: string)
    requires c == ':' ==> EndsName(rest)
    ensures Normalize([c] + rest) == [c] + Normalize(rest)
  {
    assert ([c] + rest)[1..] == rest;
  }

  lemma DenormalizeParts(path: string) returns (name: string, rest: string)
    requires path != ""
    ensures name != "" ==>
              && Name(name) && EndsName(rest)
              && path == "{" + name + "}" + rest && Denormalize(path) == ":" + name + Denormalize(rest)
    ensures name == "" ==>
              && path == [path[0]] + rest && Denormalize(path) == [path[0]] + Denormalize(rest)
              && BracedLength(path) == 0
    ensures |rest| < |path|
  {
    var n := BracedLength(path);
    if n > 0 {
      name, rest := path[1..n + 1], path[n + 2..];
    } else {
      name, rest := "", path[1..];
    }
  }

  lemma Slices(a: char, name: string, b: char, rest: string)
    ensures var path := [a] + name + [b] + rest;
            && |path| == |name| + |rest| + 2 && path[0] == a && path[1..] == name + ([b] + rest)
            && path[1..|name| + 1] == name && path[|name| + 1] == b && path[|name| + 2..] == rest
  {
  }

  lemma DenormalizeParam(name: string, rest: string)
    requires Name(name) && EndsName(rest)
    ensures Denormalize("{" + name + "}" + rest) == ":" + name + Denormalize(rest)
  {
    Slices('{', name, '}', rest);
    WordLengthOf(name, "}" + rest);
  }

  lemma DenormalizeChar(c: char, rest: string)
    requires BracedLength([c] + rest) == 0
    ensures Denormalize([c] + rest) == [c] + Denormalize(rest)
  {
    assert ([c] + rest)[1..] == rest;
  }

  /** The characters of `[A-Za-z0-9_]`, one by one. */
  ghost const CAPITALS: set<char> :=
    {'A', 'B', 'C', 'D', 'E', 'F', 'G', 'H', 'I', 'J', 'K', 'L', 'M',
     'N', 'O', 'P', 'Q', 'R', 'S', 'T', 'U', 'V', 'W', 'X', 'Y', 'Z'}
  ghost const SMALL_LETTERS: set<char> :=
    {'a', 'b', 'c', 'd', 'e', 'f', 'g', 'h', 'i', 'j', 'k', 'l', 'm',
     'n', 'o', 'p', 'q', 'r', 's', 't', 'u', 'v', 'w', 'x', 'y', 'z'}
  ghost const DIGITS: set<char> := {'0', '1', '2', '3', '4', '5', '6', '7', '8', '9'}
  ghost const NAME_CHARS: set<char> := CAPITALS + SMALL_LETTERS + DIGITS + {'_'}

  lemma CapitalIff(c: char)
    ensures 'A' <= c <= 'Z' <==> c in CAPITALS
  {
    if 'A' <= c <= 'Z' {
      assert c as int in {65, 66, 67, 68, 69, 70, 71, 72, 73, 74, 75, 76, 77,
                          78, 79, 80, 81, 82, 83, 84, 85, 86, 87, 88, 89, 90};
    }
  }

  lemma SmallLetterIff(c: char)
    ensures 'a' <= c <= 'z' <==> c in SMALL_LETTERS
  {
    if 'a' <= c <= 'z' {
      assert c as int in {97, 98, 99, 100, 101, 102, 103, 104, 105, 106, 107, 108, 109,
                          110, 111, 112, 113, 114, 115, 116, 117, 118, 119, 120, 121, 122};
    }
  }

  lemma DigitIff(c: char)
    ensures '0' <= c <= '9' <==> c in DIGITS
  {
    if '0' <= c <= '9' {
      assert c as int in {48, 49, 50, 51, 52, 53, 54, 55, 56, 57};
    }
  }

  lemma WordCharIff(c: char)
    ensures WordChar(c) <==> c in NAME_CHARS
  {
    CapitalIff(c);
    SmallLetterIff(c);
    DigitIff(c);
  }

  /**
   * What rewriting does, from the left: a colon and the longest name after it
   * become the name in braces, and everything else stays.
   */
  lemma NormalizeMeans(name: string, c: char, rest: string)
    ensures Normalize("") == ""
    ensures name != "" && (forall i :: 0 <= i < |name| ==> name[i] in NAME_CHARS)
            && (rest != "" ==> rest[0] !in NAME_CHARS) ==>
              Normalize(":" + name + rest) == "{" + name + "}" + Normalize(rest)
    ensures c != ':' || rest == "" || rest[0] !in NAME_CHARS ==> Normalize([c] + rest) == [c] + Normalize(rest)
  {
    forall d: char
      ensures WordChar(d) <==> d in NAME_CHARS
    {
      WordCharIff(d);
    }
    if Name(name) && EndsName(rest) {
      NormalizeParam(name, rest);
    }
    if c == ':' ==> EndsName(rest) {
      NormalizeChar(c, rest);
    }
  }

  /** Neither rewriting changes where names end: a first character stays, or a colon and a brace change places. */
  lemma HeadsKept(s: string)
    ensures s == "" <==> Normalize(s) == ""
    ensures s == "" <==> Denormalize(s) == ""
    ensures EndsName(Normalize(s)) <==> EndsName(s)
    ensures EndsName(Denormalize(s)) <==> EndsName(s)
    ensures s != "" ==> Normalize(s)[0] == s[0] || (s[0] == ':' && Normalize(s)[0] == '{')
  {
  }

  lemma SplitFirst(a: string, b: string)
    requires a != ""
    ensures a + b == [a[0]] + (a[1..] + b)
  {
  }

  lemma {:induction false} NormalizeName(name: string, rest: string)
    requires forall i :: 0 <= i < |name| ==> WordChar(name[i])
    ensures Normalize(name + rest) == name + Normalize(rest)
  {
    if name == "" {
      assert name + rest == rest;
    } else {
      SplitFirst(name, rest);
      SplitFirst(name, Normalize(rest));
      NormalizeName(name[1..], rest);
      NormalizeChar(name[0], name[1..] + rest);
    }
  }

  lemma {:induction false} DenormalizeName(name: string, rest: string)
    requires forall i :: 0 <= i < |name| ==> WordChar(name[i])
    ensures Denormalize(name + rest) == name + Denormalize(rest)
  {
    if name == "" {
      assert name + rest == rest;
    } else {
      SplitFirst(name, rest);
      SplitFirst(name, Denormalize(rest));
      DenormalizeName(name[1..], rest);
      DenormalizeChar(name[0], name[1..] + rest);
    }
  }

  lemma Reassociate(a: string, b: string, c: string, d: string)
    ensures a + b + c + d == a + (b + (c + d)) && a + (b + d) == a + b + d
  {
  }

  /** A braced parameter is left as it is. */
  lemma NormalizeBraced(name: string, rest: string)
    requires Name(name)
    ensures Normalize("{" + name + "}" + rest) == "{" + name + "}" + Normalize(rest)
  {
    Reassociate("{", name, "}", rest);
    Reassociate("{", name, "}", Normalize(rest));
    NormalizeChar('{', name + ("}" + rest));
    NormalizeName(name, "}" + rest);
    NormalizeChar('}', rest);
  }

  /** A colon parameter is left as it is. */
  lemma DenormalizeColon(name: string, rest: string)
    requires Name(name)
    ensures Denormalize(":" + name + rest) == ":" + name + Denormalize(rest)
  {
    Reassociate(":", name, "", rest);
    Reassociate(":", name, "", Denormalize(rest));
    DenormalizeChar(':', name + rest);
    DenormalizeName(name, rest);
  }

  lemma BracedLengthOf(name: string, after: string)
    requires (forall i :: 0 <= i < |name| ==> WordChar(name[i])) && EndsName(after)
    ensures BracedLength("{" + (name + after)) > 0
       <==> name != "" && after != "" && after[0] == '}' && EndsName(after[1..])
  {
    var s := "{" + (name + after);
    assert s[1..] == name + after;
    WordLengthOf(name, after);
    if after != "" {
      assert s[|name| + 1] == after[0] && s[|name| + 2..] == after[1..];
    }
  }

  lemma NormalizeTail(s: string)
    requires s != "" && s[0] != ':'
    ensures Normalize(s)[1..] == Normalize(s[1..])
  {
  }

  /** Rewriting makes no braced parameter of a brace that did not start one. */
  lemma BracedKept(rest: string)
    ensures BracedLength("{" + rest) == 0 <==> BracedLength("{" + Normalize(rest)) == 0
  {
    var n := WordLength(rest);
    var name, after := rest[..n], rest[n..];
    assert rest == name + after;
    NormalizeName(name, after);
    HeadsKept(after);
    BracedLengthOf(name, after);
    BracedLengthOf(name, Normalize(after));
    if after != "" && after[0] == '}' {
      NormalizeTail(after);
      HeadsKept(after[1..]);
    }
  }

  // Each rewriting undoes the other.

  /** Writing the braces back as colons changes nothing in how a template is rewritten. */
  lemma {:induction false} NormalizeDenormalize(path: string)
    ensures Normalize(Denormalize(path)) == Normalize(path)
    decreases |path|
  {
    if path != "" {
      var name, rest := NormalizeParts(path);
      var braced, after := DenormalizeParts(path);
      HeadsKept(rest);
      HeadsKept(after);
      NormalizeDenormalize(rest);
      NormalizeDenormalize(after);
      if name != "" {
        DenormalizeColon(name, rest);
        NormalizeParam(name, Denormalize(rest));
      } else if braced != "" {
        NormalizeBraced(braced, after);
        NormalizeParam(braced, Denormalize(after));
      } else {
        NormalizeChar(path[0], Denormalize(rest));
      }
    }
  }

  /** Of a rewritten template the colons come back, and those of its braced parameters with them. */
  lemma {:induction false} DenormalizeNormalize(path: string)
    ensures Denormalize(Normalize(path)) == Denormalize(path)
    decreases |path|
  {
    if path != "" {
      var name, rest := NormalizeParts(path);
      var braced, after := DenormalizeParts(path);
      HeadsKept(rest);
      HeadsKept(after);
      DenormalizeNormalize(rest);
      DenormalizeNormalize(after);
      if name != "" {
        DenormalizeColon(name, rest);
        DenormalizeParam(name, Normalize(rest));
      } else if braced != "" {
        NormalizeBraced(braced, after);
        DenormalizeParam(braced, Normalize(after));
      } else {
        BracedKept(rest);
        DenormalizeChar(path[0], Normalize(rest));
      }
    }
  }

  /** Templates are rewritten alike exactly when they are the same with every parameter written with a colon. */
  lemma NormalizeAlikeIff(p: string, q: string)
    ensures Normalize(p) == Normalize(q) <==> Denormalize(p) == Denormalize(q)
  {
    DenormalizeNormalize(p);
    DenormalizeNormalize(q);
    NormalizeDenormalize(p);
    NormalizeDenormalize(q);
  }

  lemma BracedHere(name: string, rest: string)
    requires Name(name) && EndsName(rest)
    ensures Braced("{" + name + "}" + rest)
  {
    assert BracedAt("{" + name + "}" + rest, 0, |name| + 1);
  }

  lemma BracedLater(s: string, n: nat)
    requires n <= |s| && Braced(s[n..])
    ensures Braced(s)
  {
    var i: nat, j: nat :| BracedAt(s[n..], i, j);
    assert BracedAt(s, i + n, j + n);
  }

  lemma BracedFirst(s: string, i: nat, j: nat)
    requires BracedAt(s, i, j) && s != ""
    ensures i == 0 ==> BracedLength(s) > 0
    ensures i > 0 ==> Braced(s[1..])
  {
    if i > 0 {
      assert BracedAt(s[1..], i - 1, j - 1);
    } else {
      assert s[1..] == s[1..j] + s[j..];
      WordLengthOf(s[1..j], s[j..]);
    }
  }

  /** Exactly the templates without a braced parameter are written with colons as they are. */
  lemma {:induction false} DenormalizeFixedIff(s: string)
    ensures |Denormalize(s)| <= |s|
    ensures Denormalize(s) == s <==> !Braced(s)
    ensures Denormalize(s) == s <==> |Denormalize(s)| == |s|
    decreases |s|
  {
    if s != "" {
      var name, rest := DenormalizeParts(s);
      DenormalizeFixedIff(rest);
      if name != "" {
        BracedHere(name, rest);
      } else {
        assert rest == s[1..];
        if i: nat, j: nat :| BracedAt(s, i, j) {
          BracedFirst(s, i, j);
        }
        if Braced(rest) {
          BracedLater(s, 1);
        }
      }
    }
  }

  /** Templates without braced parameters are rewritten alike exactly when they are equal. */
  lemma NormalizeInjective(p: string, q: string)
    requires !Braced(p) && !Braced(q)
    ensures Normalize(p) == Normalize(q) <==> p == q
  {
    NormalizeAlikeIff(p, q);
    DenormalizeFixedIff(p);
    DenormalizeFixedIff(q);
  }

  /** With braces they need not be: a braced template and a colon template meet. */
  lemma BracesCollide()
    ensures Normalize("/:a") == Normalize("/{a}") && "/:a" != "/{a}"
  {
    NormalizeParam("a", "");
    NormalizeBraced("a", "");
    NormalizeChar('/', ":a");
    NormalizeChar('/', "{a}");
    assert ":a" == ":" + "a" + "" && "{a}" == "{" + "a" + "}" + "";
    assert "/:a" == ['/'] + ":a" && "/{a}" == ['/'] + "{a}";
  }

  lemma SettledTail(s: string)
    requires s != ""
    ensures Settled(s) <==> Settled(s[1..]) && (s[0] == ':' ==> EndsName(s[1..]))
  {
    if Settled(s) {
      forall i | 0 <= i < |s[1..]| - 1 && s[1..][i] == ':'
        ensures !WordChar(s[1..][i + 1])
      {
        assert s[i + 1] == ':';
      }
    } else {
      var i :| 0 <= i < |s| - 1 && s[i] == ':' && WordChar(s[i + 1]);
      if i > 0 {
        assert s[1..][i - 1] == ':';
      }
    }
  }

  /** Exactly the settled templates are left alone, and a template that is not ends up with a braced parameter. */
  lemma {:induction false} NormalizeFixedIff(s: string)
    ensures Normalize(s) == s <==> Settled(s)
    ensures !Settled(s) ==> Braced(Normalize(s))
    decreases |s|
  {
    if s != "" {
      SettledTail(s);
      var name, rest := NormalizeParts(s);
      HeadsKept(rest);
      if name != "" {
        BracedHere(name, Normalize(rest));
      } else {
        NormalizeFixedIff(rest);
        if !Settled(s) {
          assert Normalize(s)[1..] == Normalize(rest);
          BracedLater(Normalize(s), 1);
        }
      }
    }
  }

  lemma SettledJoin(a: string, b: string)
    requires Settled(a) && Settled(b)
    requires a != "" && a[|a| - 1] == ':' ==> EndsName(b)
    ensures Settled(a + b)
  {
  }

  lemma {:induction false} NormalizeSettles(path: string)
    ensures Settled(Normalize(path))
    decreases |path|
  {
    if path != "" {
      var name, rest := NormalizeParts(path);
      NormalizeSettles(rest);
      HeadsKept(rest);
      if name != "" {
        SettledJoin("{" + name + "}", Normalize(rest));
      } else {
        SettledJoin([path[0]], Normalize(rest));
      }
    }
  }

  /** Rewriting twice is rewriting once, on every path. */
  lemma NormalizeIdempotent(path: string)
    ensures Normalize(Normalize(path)) == Normalize(path)
  {
    NormalizeSettles(path);
    NormalizeFixedIff(Normalize(path));
  }

  /**
   * A template can be told from every other exactly when nothing in it is
   * rewritten and nothing in it looks rewritten.
   */
  lemma ToldApartIff(p: string)
    ensures (forall q :: Normalize(q) == Normalize(p) ==> q == p) <==> Settled(p) && !Braced(p)
  {
    NormalizeFixedIff(p);
    DenormalizeFixedIff(p);
    if Settled(p) && !Braced(p) {
      forall q | Normalize(q) == Normalize(p)
        ensures q == p
      {
        NormalizeFixedIff(q);
      }
    } else {
      NormalizeDenormalize(p);
      NormalizeIdempotent(p);
      assert Normalize(Normalize(p)) == Normalize(p) && Normalize(Denormalize(p)) == Normalize(p);
    }
  }
}
