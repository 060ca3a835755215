/** The Python string built-ins the catalog scraper's helpers rely on, as functions over
    `seq<char>`: `str.isspace`, `str.strip`, `str.split` and `re.split` on single
    characters, `str.lower` on ASCII, `str.replace` of one character, the `in` test for
    substrings and the root half of `os.path.splitext` on POSIX paths. */
module Text {

  /** `c.isspace()`: the characters Python counts as whitespace. */
  predicate IsSpace(c: char) {
    c == ' ' || '\t' <= c <= '\r' || '\U{1C}' <= c <= '\U{1F}' || c == '\U{85}' || c == '\U{A0}' ||
    c == '\U{1680}' || '\U{2000}' <= c <= '\U{200A}' || c == '\U{2028}' || c == '\U{2029}' ||
    c == '\U{202F}' || c == '\U{205F}' || c == '\U{3000}'
  }

  /** How many whitespace characters `s` starts with. */
  function LeadingSpace(s: string): (n: nat)
    ensures n <= |s| && (n < |s| ==> !IsSpace(s[n]))
  {
    if s != [] && IsSpace(s[0]) then
      var m := LeadingSpace(s[1..]);
      assert m < |s| - 1 ==> s[1..][m] == s[m + 1];
      1 + m
    else 0
  }

  /** The leading run is all whitespace. */
  lemma {:induction false} LeadingSpaceAll(s: string)
    ensures forall i :: 0 <= i < LeadingSpace(s) ==> IsSpace(s[i])
  {
    if s != [] && IsSpace(s[0]) {
      LeadingSpaceAll(s[1..]);
      assert forall i :: 1 <= i < LeadingSpace(s) ==> s[i] == s[1..][i - 1];
    }
  }

  /** Where the whitespace `s` ends with begins. */
  function TrailingSpace(s: string): (n: nat)
    ensures n <= |s| && (n > 0 ==> !IsSpace(s[n - 1]))
  {
    if s != [] && IsSpace(s[|s| - 1]) then
      var m := TrailingSpace(s[..|s| - 1]);
      assert m > 0 ==> s[..|s| - 1][m - 1] == s[m - 1];
      m
    else |s|
  }

  /** The trailing run is all whitespace. */
  lemma {:induction false} TrailingSpaceAll(s: string)
    ensures forall i :: TrailingSpace(s) <= i < |s| ==> IsSpace(s[i])
  {
    if s != [] && IsSpace(s[|s| - 1]) {
      TrailingSpaceAll(s[..|s| - 1]);
      assert forall i :: TrailingSpace(s) <= i < |s| - 1 ==> s[i] == s[..|s| - 1][i];
    }
  }

  /** `s.lstrip()`. */
  function TrimStart(s: string): string {
    s[LeadingSpace(s)..]
  }

  /** `s.rstrip()`. */
  function TrimEnd(s: string): string {
    s[..TrailingSpace(s)]
  }

  /** `s.strip()`. */
  function Strip(s: string): string {
    TrimEnd(TrimStart(s))
  }

  /** What stripping does: it keeps a middle slice of `s` that neither starts nor ends
      with whitespace, and drops only whitespace around it. */
  lemma StripSpec(s: string)
    ensures exists i, j :: 0 <= i <= j <= |s| && Strip(s) == s[i..j] &&
              (forall k :: 0 <= k < i ==> IsSpace(s[k])) && (forall k :: j <= k < |s| ==> IsSpace(s[k]))
    ensures Strip(s) == [] || (!IsSpace(Strip(s)[0]) && !IsSpace(Strip(s)[|Strip(s)| - 1]))
  {
    var i := LeadingSpace(s);
    var t := s[i..];
    var b := TrailingSpace(t);
    LeadingSpaceAll(s);
    TrailingSpaceAll(t);
    var j := i + b;
    assert Strip(s) == s[i..j];
    forall k | j <= k < |s| ensures IsSpace(s[k]) {
      assert s[k] == t[k - i];
    }
    if b > 0 {
      assert Strip(s)[0] == s[i];
      assert Strip(s)[b - 1] == t[b - 1];
    }
  }

  /** Stripping a stripped string changes nothing. */
  lemma StripIdempotent(s: string)
    ensures Strip(Strip(s)) == Strip(s)
  {
    var r := Strip(s);
    StripSpec(s);
    if r != [] {
      assert TrimStart(r) == r;
    }
  }

  /** A string strips to nothing exactly when it is all whitespace. */
  lemma StripEmpty(s: string)
    ensures Strip(s) == [] <==> forall k :: 0 <= k < |s| ==> IsSpace(s[k])
  {
    StripSpec(s);
  }

  /** Every character of a stripped string is a character of the string. */
  lemma StripChars(s: string)
    ensures forall c :: c in Strip(s) ==> c in s
  {
    var i := LeadingSpace(s);
    var r := Strip(s);
    assert r == s[i..][..TrailingSpace(s[i..])];
    forall c | c in r ensures c in s {
      var k :| 0 <= k < |r| && r[k] == c;
      assert s[i + k] == c;
    }
  }

  /** `s.split(c)` for one separator character, and `re.split('[...]', s)` for a
      character class: the pieces between separators, empty ones included, in order. */
  function Split(s: string, seps: set<char>): (r: seq<string>)
    ensures |r| >= 1
  {
    if s == [] then [[]]
    else
      var rest := Split(s[1..], seps);
      if s[0] in seps then [[]] + rest else [[s[0]] + rest[0]] + rest[1..]
  }

  /** No piece holds a separator. */
  lemma {:induction false} SplitPieces(s: string, seps: set<char>)
    ensures forall p, c :: p in Split(s, seps) && c in p ==> c !in seps
  {
    if s != [] {
      SplitPieces(s[1..], seps);
      var rest := Split(s[1..], seps);
      if s[0] !in seps {
        assert forall c :: c in [s[0]] + rest[0] ==> c == s[0] || c in rest[0];
        assert forall p :: p in rest[1..] ==> p in rest;
      }
    }
  }

  /** Every character of a piece is a character of the string. */
  lemma {:induction false} SplitChars(s: string, seps: set<char>)
    ensures forall p, c :: p in Split(s, seps) && c in p ==> c in s
  {
    if s != [] {
      SplitChars(s[1..], seps);
      var rest := Split(s[1..], seps);
      assert forall c :: c in s[1..] ==> c in s;
      if s[0] !in seps {
        assert forall c :: c in [s[0]] + rest[0] ==> c == s[0] || c in rest[0];
        assert forall p :: p in rest[1..] ==> p in rest;
      }
    }
  }

  /** The pieces joined back with the separator between them. */
  function Join(ps: seq<string>, c: char): string
    requires |ps| >= 1
  {
    if |ps| == 1 then ps[0] else ps[0] + [c] + Join(ps[1..], c)
  }

  /** Splitting on one character and joining with it gives the string back. */
  lemma {:induction false} SplitJoin(s: string, c: char)
    ensures Join(Split(s, {c}), c) == s
  {
    if s != [] {
      var rest := Split(s[1..], {c});
      SplitJoin(s[1..], c);
      if s[0] != c {
        if |rest| == 1 {
        } else {
          assert ([s[0]] + rest[0]) + [c] + Join(rest[1..], c) == [s[0]] + (rest[0] + [c] + Join(rest[1..], c));
        }
        assert ([[s[0]] + rest[0]] + rest[1..])[1..] == rest[1..];
      }
      assert s == [s[0]] + s[1..];
    }
  }

  /** A string without separators is one piece. */
  lemma {:induction false} SplitNone(s: string, seps: set<char>)
    requires forall c :: c in s ==> c !in seps
    ensures Split(s, seps) == [s]
  {
    if s != [] {
      SplitNone(s[1..], seps);
      assert s == [s[0]] + s[1..];
    }
  }

  /** `c.lower()` for ASCII letters. */
  function LowerChar(c: char): char {
    if 'A' <= c <= 'Z' then (c as int + 32) as char else c
  }

  /** `s.lower()`, letter by letter. */
  function Lower(s: string): (r: string)
    ensures |r| == |s|
  {
    if s == [] then [] else [LowerChar(s[0])] + Lower(s[1..])
  }

  /** Lowering works letter by letter. */
  lemma {:induction false} LowerAt(s: string)
    ensures forall i :: 0 <= i < |s| ==> Lower(s)[i] == LowerChar(s[i])
  {
    if s != [] {
      LowerAt(s[1..]);
      assert forall i :: 1 <= i < |s| ==> Lower(s)[i] == Lower(s[1..])[i - 1] && s[i] == s[1..][i - 1];
    }
  }

  /** Lowering a lowered string changes nothing, and no upper-case ASCII letter is left. */
  lemma LowerIdempotent(s: string)
    ensures Lower(Lower(s)) == Lower(s)
    ensures forall c :: c in Lower(s) ==> !('A' <= c <= 'Z')
  {
    LowerAt(s);
    LowerAt(Lower(s));
  }

  /** `s.replace(a, b)` for single characters. */
  function Replace(s: string, a: char, b: char): (r: string)
    ensures |r| == |s|
  {
    if s == [] then [] else [if s[0] == a then b else s[0]] + Replace(s[1..], a, b)
  }

  /** Replacing works character by character, and leaves no `a` behind when `a != b`. */
  lemma {:induction false} ReplaceAt(s: string, a: char, b: char)
    ensures forall i :: 0 <= i < |s| ==> Replace(s, a, b)[i] == if s[i] == a then b else s[i]
    ensures a != b ==> a !in Replace(s, a, b)
  {
    if s != [] {
      ReplaceAt(s[1..], a, b);
      assert forall i :: 1 <= i < |s| ==> Replace(s, a, b)[i] == Replace(s[1..], a, b)[i - 1] && s[i] == s[1..][i - 1];
    }
  }

  /** `needle in hay` for strings. */
  predicate Contains(hay: string, needle: string) {
    needle <= hay || (hay != [] && Contains(hay[1..], needle))
  }

  /** `needle` occurs in `hay` at position `i`. */
  predicate OccursAt(hay: string, needle: string, i: int) {
    0 <= i && i + |needle| <= |hay| && hay[i..i + |needle|] == needle
  }

  /** `needle in hay` holds exactly when `needle` occurs at some position of `hay`. */
  lemma {:induction false} ContainsAt(hay: string, needle: string)
    ensures Contains(hay, needle) <==> exists i :: OccursAt(hay, needle, i)
  {
    if needle <= hay {
      assert OccursAt(hay, needle, 0);
    } else if hay != [] {
      ContainsAt(hay[1..], needle);
      if Contains(hay[1..], needle) {
        var i :| OccursAt(hay[1..], needle, i);
        assert OccursAt(hay, needle, i + 1);
      }
      if exists i :: OccursAt(hay, needle, i) {
        var i :| OccursAt(hay, needle, i);
        assert i != 0;
        assert OccursAt(hay[1..], needle, i - 1);
      }
    } else {
      assert forall i :: !OccursAt(hay, needle, i);
    }
  }

  /** The position of the last `c` in `s`, or -1 (`str.rfind`). */
  function LastIndex(s: string, c: char): (r: int)
    ensures -1 <= r < |s| && (r >= 0 ==> s[r] == c)
  {
    if s == [] then -1
    else if s[|s| - 1] == c then |s| - 1
    else LastIndex(s[..|s| - 1], c)
  }

  /** No `c` follows the last one. */
  lemma {:induction false} LastIndexLast(s: string, c: char)
    ensures forall i :: LastIndex(s, c) < i < |s| ==> s[i] != c
  {
    if s != [] && s[|s| - 1] != c {
      LastIndexLast(s[..|s| - 1], c);
      assert forall i :: LastIndex(s, c) < i < |s| - 1 ==> s[i] == s[..|s| - 1][i];
    }
  }

  /** `os.path.splitext(p)[0]` with `/` as the only separator: the path without the part
      from its last dot, when that dot lies in the last path component and is not one of
      the component's leading dots. */
  function StripExtension(p: string): (r: string)
  {
    var slash := LastIndex(p, '/');
    var dot := LastIndex(p, '.');
    if dot > slash && exists i :: slash + 1 <= i < dot && p[i] != '.' then p[..dot] else p
  }

  /** The root is a prefix of the path; what it leaves off is a single extension: a dot
      followed by neither a dot nor a separator. */
  lemma StripExtensionSpec(p: string)
    ensures StripExtension(p) <= p
    ensures StripExtension(p) != p ==>
              var r := StripExtension(p);
              p[|r|] == '.' && r != [] && forall i :: |r| < i < |p| ==> p[i] != '.' && p[i] != '/'
    ensures (forall i :: 0 <= i < |p| ==> p[i] != '.') ==> StripExtension(p) == p
  {
    var slash := LastIndex(p, '/');
    var dot := LastIndex(p, '.');
    LastIndexLast(p, '/');
    LastIndexLast(p, '.');
    if dot > slash && exists i :: slash + 1 <= i < dot && p[i] != '.' {
      var i :| slash + 1 <= i < dot && p[i] != '.';
      assert p[..dot][i] == p[i];
    }
  }
}
