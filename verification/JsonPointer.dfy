/**
 * Printing and reading JSON Pointers in their URI fragment form: the string
 * passes of `escapeJsonPointerSegment`, `buildReference` and `resolveReference`.
 */
module JsonPointer {
  import opened Wrappers

  /** `replaceAll`: every occurrence, from the left, without overlap. */
  function ReplaceAll(s: string, pattern: string, replacement: string): string
    requires pattern != ""
  {
    if |s| < |pattern| then s
    else if s[..|pattern|] == pattern then replacement + ReplaceAll(s[|pattern|..], pattern, replacement)
    else [s[0]] + ReplaceAll(s[1..], pattern, replacement)
  }

  function Escape(segment: string): string {
    ReplaceAll(ReplaceAll(segment, "~", "~0"), "/", "~1")
  }

  function Unescape(segment: string): string {
    ReplaceAll(ReplaceAll(segment, "~1", "/"), "~0", "~")
  }

  /** `join("/")`. */
  function Join(parts: seq<string>): string {
    if parts == [] then ""
    else if |parts| == 1 then parts[0]
    else parts[0] + "/" + Join(parts[1..])
  }

  /** `split("/")`. */
  function Split(s: string): (parts: seq<string>)
    ensures parts != []
  {
    if s == "" then [""]
    else
      var rest := Split(s[1..]);
      if s[0] == '/' then [""] + rest else [[s[0]] + rest[0]] + rest[1..]
  }

  function EscapeEach(pointer: seq<string>): (segments: seq<string>)
    ensures |segments| == |pointer|
  {
    if pointer == [] then [] else [Escape(pointer[0])] + EscapeEach(pointer[1..])
  }

  function UnescapeEach(segments: seq<string>): (pointer: seq<string>)
    ensures |pointer| == |segments|
  {
    if segments == [] then [] else [Unescape(segments[0])] + UnescapeEach(segments[1..])
  }

  function BuildReference(pointer: seq<string>): string {
    "#/" + Join(EscapeEach(pointer))
  }

  /** The keys a reference names, or None for a reference outside the document. */
  function ParseReference(ref: string): Option<seq<string>> {
    if |ref| >= 2 && ref[..2] == "#/" then Some(UnescapeEach(Split(ref[2..]))) else None
  }

  // What the passes compute, one character at a time.

  function Escaped(c: char): string {
    if c == '~' then "~0" else if c == '/' then "~1" else [c]
  }

  lemma TildeCons(c: char, s: string)
    ensures ReplaceAll([c] + s, "~", "~0") == (if c == '~' then "~0" else [c]) + ReplaceAll(s, "~", "~0")
  {
  }

  lemma EscapeCons(c: char, s: string)
    ensures Escape([c] + s) == (if c == '~' then "~0" else if c == '/' then "~1" else [c]) + Escape(s)
  {
    var once := ReplaceAll(s, "~", "~0");
    assert ([c] + s)[1..] == s;
    if c == '~' {
      var both := "~0" + once;
      assert both[1..] == "0" + once && both[1..][1..] == once;
      assert ReplaceAll(both[1..], "/", "~1") == "0" + ReplaceAll(once, "/", "~1");
    } else {
      assert ([c] + once)[1..] == once;
    }
  }

  lemma ReplaceTwo(a: char, b: char, s: string, pattern: string, replacement: string)
    requires |pattern| == 2
    ensures ReplaceAll([a, b] + s, pattern, replacement)
         == if [a, b] == pattern then replacement + ReplaceAll(s, pattern, replacement)
            else [a] + ReplaceAll([b] + s, pattern, replacement)
  {
    var whole := [a, b] + s;
    assert whole[..2] == [a, b] && whole[2..] == s && whole[1..] == [b] + s;
  }

  lemma ReplaceOther(c: char, s: string, pattern: string, replacement: string)
    requires |pattern| == 2 && c != pattern[0]
    ensures ReplaceAll([c] + s, pattern, replacement) == [c] + ReplaceAll(s, pattern, replacement)
  {
  }

  lemma TildeStays(tail: string)
    ensures ReplaceAll("~0" + tail, "~1", "/") == "~0" + ReplaceAll(tail, "~1", "/")
  {
    ReplaceTwo('~', '0', tail, "~1", "/");
    ReplaceOther('0', tail, "~1", "/");
    var rest := ReplaceAll(tail, "~1", "/");
    assert ['~', '0'] == "~0" && ['~'] + (['0'] + rest) == ['~', '0'] + rest;
  }

  /** What the first pass of `Unescape` does with one escaped character. */
  lemma SlashComesBack(c: char, tail: string)
    ensures ReplaceAll(Escaped(c) + tail, "~1", "/") == (if c == '~' then "~0" else [c]) + ReplaceAll(tail, "~1", "/")
  {
    if c == '~' {
      TildeStays(tail);
    } else if c == '/' {
      ReplaceTwo('~', '1', tail, "~1", "/");
      assert ['~', '1'] == "~1";
    } else {
      ReplaceOther(c, tail, "~1", "/");
    }
  }

  /** The first pass of `Unescape` turns the slashes back and touches nothing else. */
  lemma {:induction false} SlashesComeBack(s: string)
    ensures ReplaceAll(Escape(s), "~1", "/") == ReplaceAll(s, "~", "~0")
  {
    if s != "" {
      var c, rest := s[0], s[1..];
      assert s == [c] + rest;
      EscapeCons(c, rest);
      TildeCons(c, rest);
      SlashesComeBack(rest);
      SlashComesBack(c, Escape(rest));
    }
  }

  lemma {:induction false} TildesComeBack(s: string)
    ensures ReplaceAll(ReplaceAll(s, "~", "~0"), "~0", "~") == s
  {
    if s != "" {
      var c, rest := s[0], s[1..];
      var tail := ReplaceAll(rest, "~", "~0");
      assert s == [c] + rest;
      TildeCons(c, rest);
      TildesComeBack(rest);
      if c == '~' {
        assert "~0" + tail == ['~', '0'] + tail;
        ReplaceTwo('~', '0', tail, "~0", "~");
      } else {
        ReplaceOther(c, tail, "~0", "~");
      }
    }
  }

  /** The four passes undo each other on every string. */
  lemma UnescapeEscape(s: string)
    ensures Unescape(Escape(s)) == s
  {
    SlashesComeBack(s);
    TildesComeBack(s);
  }

  lemma {:induction false} EscapeHasNoSlash(s: string)
    ensures '/' !in Escape(s)
  {
    if s != "" {
      assert s == [s[0]] + s[1..];
      EscapeCons(s[0], s[1..]);
      EscapeHasNoSlash(s[1..]);
    }
  }

  lemma {:induction false} SplitFirst(part: string, rest: string)
    requires '/' !in part
    ensures Split(part + "/" + rest) == [part] + Split(rest)
    ensures Split(part) == [part]
  {
    var whole := part + "/" + rest;
    if part == "" {
      assert whole == "/" + rest && whole[1..] == rest;
    } else {
      SplitFirst(part[1..], rest);
      assert whole[1..] == part[1..] + "/" + rest;
      assert part == [part[0]] + part[1..];
    }
  }

  lemma {:induction false} SplitJoin(parts: seq<string>)
    requires parts != [] && forall part :: part in parts ==> '/' !in part
    ensures Split(Join(parts)) == parts
  {
    if |parts| == 1 {
      SplitFirst(parts[0], "");
    } else {
      SplitFirst(parts[0], Join(parts[1..]));
      SplitJoin(parts[1..]);
    }
  }

  lemma {:induction false} UnescapeEscapeEach(pointer: seq<string>)
    ensures UnescapeEach(EscapeEach(pointer)) == pointer
    ensures forall part :: part in EscapeEach(pointer) ==> '/' !in part
  {
    if pointer != [] {
      UnescapeEscape(pointer[0]);
      EscapeHasNoSlash(pointer[0]);
      UnescapeEscapeEach(pointer[1..]);
    }
  }

  /**
   * A printed reference reads back as the keys it was printed from. The empty
   * list is the one exception: it prints as the reference to the empty key.
   */
  lemma ParseBuild(pointer: seq<string>)
    ensures ParseReference(BuildReference(pointer)) == Some(if pointer == [] then [""] else pointer)
  {
    var segments := EscapeEach(pointer);
    var ref := BuildReference(pointer);
    assert ref[..2] == "#/" && ref[2..] == Join(segments);
    UnescapeEscapeEach(pointer);
    if pointer != [] {
      SplitJoin(segments);
    } else {
      assert Unescape("") == "" && ref[2..] == "";
      assert [""][1..] == [];
      assert UnescapeEach([""]) == [Unescape("")] + UnescapeEach([]) == [""];
    }
  }

  /** Two lists of keys print alike exactly when they are equal, or are the empty list and the empty key. */
  lemma BuildReferenceInjective(p: seq<string>, q: seq<string>)
    ensures BuildReference(p) == BuildReference(q)
       <==> p == q || (p in {[], [""]} && q in {[], [""]})
  {
    ParseBuild(p);
    ParseBuild(q);
    assert Escape("") == "";
    assert EscapeEach([""]) == [""];
  }

  // The other way round: which references print back as they were.

  predicate EscapedAt(s: string, i: nat)
    requires i < |s|
  {
    s[i] == '~' ==> i + 1 < |s| && (s[i + 1] == '0' || s[i + 1] == '1')
  }

  /** The escapes section 3 of RFC 6901 allows: a tilde is followed by 0 or 1. */
  predicate WellEscaped(s: string) {
    forall i :: 0 <= i < |s| ==> EscapedAt(s, i)
  }

  lemma WellEscapedCons(c: char, s: string)
    ensures WellEscaped([c] + s) <==> WellEscaped(s) && (c == '~' ==> s != "" && (s[0] == '0' || s[0] == '1'))
  {
    var whole := [c] + s;
    assert EscapedAt(whole, 0) <==> (c == '~' ==> s != "" && (s[0] == '0' || s[0] == '1'));
    forall i: nat | i < |s|
      ensures EscapedAt(whole, i + 1) == EscapedAt(s, i)
    {
      assert whole[i + 1] == s[i];
    }
    if WellEscaped(s) && EscapedAt(whole, 0) {
      forall j: nat | j < |whole|
        ensures EscapedAt(whole, j)
      {
        if j > 0 {
          assert EscapedAt(s, j - 1);
        }
      }
    }
  }

  lemma UnescapeCons(c: char, s: string)
    requires c != '~'
    ensures Unescape([c] + s) == [c] + Unescape(s)
  {
    ReplaceOther(c, s, "~1", "/");
    ReplaceOther(c, ReplaceAll(s, "~1", "/"), "~0", "~");
  }

  lemma UnescapePair(d: char, s: string)
    ensures Unescape(['~', d] + s)
         == if d == '0' then "~" + Unescape(s) else if d == '1' then "/" + Unescape(s) else "~" + Unescape([d] + s)
  {
    var once := ReplaceAll(s, "~1", "/");
    ReplaceTwo('~', d, s, "~1", "/");
    if d == '1' {
      ReplaceOther('/', once, "~0", "~");
    } else if d == '~' {
      var next := ReplaceAll([d] + s, "~1", "/");
      assert next[0] == '~' || next[0] == '/';
      assert next == [next[0]] + next[1..];
      ReplaceTwo('~', next[0], next[1..], "~0", "~");
    } else {
      ReplaceOther(d, s, "~1", "/");
      assert ['~'] + ([d] + once) == ['~', d] + once;
      ReplaceTwo('~', d, once, "~0", "~");
      ReplaceOther(d, once, "~0", "~");
      ReplaceOther(d, s, "~1", "/");
    }
  }

  /** Without slashes, exactly the well-escaped strings are what escaping what they mean prints. */
  lemma {:induction false} EscapeUnescapeIff(s: string)
    requires '/' !in s
    ensures Escape(Unescape(s)) == s <==> WellEscaped(s)
    decreases |s|
  {
    if s == "" {
    } else if s[0] != '~' {
      var c, rest := s[0], s[1..];
      assert s == [c] + rest;
      UnescapeCons(c, rest);
      EscapeCons(c, Unescape(rest));
      EscapeUnescapeIff(rest);
      WellEscapedCons(c, rest);
    } else if |s| == 1 {
      assert Unescape(s) == s;
      EscapeCons('~', "");
      assert !EscapedAt(s, 0);
    } else {
      var d, rest := s[1], s[2..];
      assert s == ['~', d] + rest;
      UnescapePair(d, rest);
      WellEscapedCons('~', [d] + rest);
      WellEscapedCons(d, rest);
      assert s == ['~'] + ([d] + rest);
      if d == '0' || d == '1' {
        EscapeCons(if d == '0' then '~' else '/', Unescape(rest));
        EscapeUnescapeIff(rest);
      } else {
        EscapeCons('~', Unescape([d] + rest));
        assert Escape(Unescape(s))[1] == '0';
      }
    }
  }

  lemma JoinFirst(first: string, rest: seq<string>)
    ensures Join([first] + rest) == if rest == [] then first else first + "/" + Join(rest)
  {
    assert ([first] + rest)[1..] == rest;
  }

  lemma Associate(a: string, b: string, c: string, d: string)
    ensures (a + b) + c + d == a + (b + c + d)
  {
  }

  lemma JoinLonger(c: char, parts: seq<string>)
    requires parts != []
    ensures Join([[c] + parts[0]] + parts[1..]) == [c] + Join(parts)
  {
    var first, rest := parts[0], parts[1..];
    assert parts == [first] + rest;
    JoinFirst(first, rest);
    JoinFirst([c] + first, rest);
    Associate([c], first, "/", Join(rest));
  }

  /** Splitting keeps everything between the slashes. */
  lemma {:induction false} JoinSplit(s: string)
    ensures Join(Split(s)) == s
  {
    if s != "" {
      var rest := Split(s[1..]);
      JoinSplit(s[1..]);
      JoinFirst("", rest);
      JoinLonger(s[0], rest);
      assert s == [s[0]] + s[1..];
    }
  }

  lemma {:induction false} SplitHasNoSlash(s: string)
    ensures forall part :: part in Split(s) ==> '/' !in part
  {
    if s != "" {
      SplitHasNoSlash(s[1..]);
    }
  }

  lemma {:induction false} SplitWellEscaped(s: string)
    ensures WellEscaped(s) <==> forall part :: part in Split(s) ==> WellEscaped(part)
    ensures s == "" || s[0] == '/' ==> Split(s)[0] == ""
    ensures s != "" && s[0] != '/' ==> Split(s)[0] != "" && Split(s)[0][0] == s[0]
  {
    if s != "" {
      var c, rest := s[0], s[1..];
      var first, others := Split(rest)[0], Split(rest)[1..];
      SplitWellEscaped(rest);
      WellEscapedCons(c, rest);
      assert s == [c] + rest;
      assert Split(rest) == [first] + others;
      if c == '/' {
        assert Split(s) == [""] + Split(rest);
      } else {
        assert Split(s) == [[c] + first] + others;
        WellEscapedCons(c, first);
      }
    }
  }

  lemma {:induction false} EscapeUnescapeEach(segments: seq<string>)
    requires forall part :: part in segments ==> '/' !in part
    ensures EscapeEach(UnescapeEach(segments)) == segments <==> forall part :: part in segments ==> WellEscaped(part)
  {
    if segments != [] {
      var first, others := segments[0], segments[1..];
      assert segments == [first] + others;
      EscapeUnescapeIff(first);
      EscapeUnescapeEach(others);
      var again := EscapeEach(UnescapeEach(segments));
      assert again == [Escape(Unescape(first))] + EscapeEach(UnescapeEach(others));
      assert again == segments <==> again[0] == first && again[1..] == others;
    }
  }

  /** A reference within the document prints back as it was exactly when it is well escaped. */
  lemma BuildParseIff(ref: string)
    requires ParseReference(ref).Some?
    ensures BuildReference(ParseReference(ref).value) == ref <==> WellEscaped(ref)
  {
    var body := ref[2..];
    var segments := Split(body);
    var printed := EscapeEach(UnescapeEach(segments));
    assert ref == "#/" + body && ref == ['#'] + (['/'] + body);
    WellEscapedCons('/', body);
    WellEscapedCons('#', ['/'] + body);
    JoinSplit(body);
    SplitHasNoSlash(body);
    SplitWellEscaped(body);
    EscapeUnescapeEach(segments);
    UnescapeEscapeEach(UnescapeEach(segments));
    SplitJoin(printed);
    assert ("#/" + Join(printed))[2..] == Join(printed);
  }
}
