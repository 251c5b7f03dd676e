/** The string operations the optimizer borrows from Python's `str`:
    `strip()`, `upper()`, `split(sep)`, and the ordering `<` that
    `sorted` uses on port codes. */
module Text {

  /** Python's `str.isspace()` on one character: the characters that
      `strip()` with no argument removes. */
  predicate IsSpace(c: char) {
    ('\t' <= c <= '\r') || ('\U{1C}' <= c <= '\U{1F}') || c == ' '
    || c == '\U{85}' || c == '\U{A0}' || c == '\U{1680}'
    || ('\U{2000}' <= c <= '\U{200A}') || c == '\U{2028}' || c == '\U{2029}'
    || c == '\U{202F}' || c == '\U{205F}' || c == '\U{3000}'
  }

  ghost predicate AllSpace(s: string) {
    forall i :: 0 <= i < |s| ==> IsSpace(s[i])
  }

  /** `s.lstrip()`: the suffix of `s` left after its leading whitespace. */
  function TrimStart(s: string): (r: string)
    ensures |r| <= |s| && r == s[|s| - |r|..]
    ensures AllSpace(s[..|s| - |r|])
    ensures r == [] || !IsSpace(r[0])
  {
    if s != [] && IsSpace(s[0]) then
      var r := TrimStart(s[1..]);
      assert s[..|s| - |r|] == [s[0]] + s[1..][..|s| - 1 - |r|];
      r
    else
      assert s[..0] == [];
      s
  }

  /** `s.rstrip()`: the prefix of `s` left after its trailing whitespace. */
  function TrimEnd(s: string): (r: string)
    ensures |r| <= |s| && r == s[..|r|]
    ensures AllSpace(s[|r|..])
    ensures r == [] || !IsSpace(r[|r| - 1])
  {
    if s != [] && IsSpace(s[|s| - 1]) then
      var r := TrimEnd(s[..|s| - 1]);
      assert s[|r|..] == s[..|s| - 1][|r|..] + [s[|s| - 1]];
      r
    else
      assert s[|s|..] == [];
      s
  }

  /** `s.strip()`. */
  function Strip(s: string): string {
    TrimEnd(TrimStart(s))
  }

  /** Stripping gives the empty string exactly when every character is
      whitespace (the `if overrides_raw:` test after `.strip()`). */
  lemma StripEmptyIffAllSpace(s: string)
    ensures Strip(s) == [] <==> AllSpace(s)
  {
    var t := TrimStart(s);
    if Strip(s) == [] {
      assert t == [];
      assert s[..|s|] == s;
    } else {
      var r := Strip(s);
      assert !IsSpace(r[0]);
      assert r[0] == t[0] == s[|s| - |t|];
    }
  }

  /** A string with no whitespace at either end is its own strip. */
  lemma StripOfStripped(s: string)
    requires s == [] || (!IsSpace(s[0]) && !IsSpace(s[|s| - 1]))
    ensures Strip(s) == s
  {
  }

  /** Left-stripping a string that ends in a non-space character keeps
      that character, and what follows it, at the end. */
  lemma {:induction false} TrimStartAppend(s: string, c: char)
    requires s != [] && !IsSpace(s[|s| - 1])
    ensures TrimStart(s + [c]) == TrimStart(s) + [c]
    ensures TrimStart(s) != [] && TrimStart(s)[|TrimStart(s)| - 1] == s[|s| - 1]
  {
    var sc := s + [c];
    assert sc[0] == s[0];
    if IsSpace(s[0]) {
      var t := s[1..];
      assert |s| >= 2;
      assert t[|t| - 1] == s[|s| - 1];
      assert sc[1..] == t + [c];
      TrimStartAppend(t, c);
      assert TrimStart(s) == TrimStart(t);
      assert TrimStart(sc) == TrimStart(t + [c]);
    } else {
      assert TrimStart(s) == s;
      assert TrimStart(sc) == sc;
    }
  }

  /** Appending a non-space character to a string that ends in one
      appends it to the strip. */
  lemma StripAppendNonSpace(s: string, c: char)
    requires s != [] && !IsSpace(s[|s| - 1])
    requires !IsSpace(c)
    ensures Strip(s) != []
    ensures Strip(s + [c]) == Strip(s) + [c]
  {
    TrimStartAppend(s, c);
    var t := TrimStart(s);
    assert (t + [c])[|t + [c]| - 1] == c;
    assert TrimEnd(t + [c]) == t + [c];
    assert TrimEnd(t) == t;
  }

  /** Python's `upper()` on one character, for the letters it maps to a
      single ASCII capital: the ASCII lower-case letters, the dotless i
      (U+0131, to `I`) and the long s (U+017F, to `S`). Every other
      character is kept. */
  function UpperChar(c: char): (r: char)
    ensures 'a' <= c <= 'z' ==> r as int == c as int - 32
    ensures c == '\U{131}' ==> r == 'I'
    ensures c == '\U{17F}' ==> r == 'S'
    ensures !('a' <= c <= 'z') && c != '\U{131}' && c != '\U{17F}' ==> r == c
    ensures !('a' <= r <= 'z')
    ensures 'A' <= r <= 'Z' <==> 'A' <= c <= 'Z' || 'a' <= c <= 'z' || c == '\U{131}' || c == '\U{17F}'
  {
    if 'a' <= c <= 'z' then (c as int - 32) as char
    else if c == '\U{131}' then 'I'
    else if c == '\U{17F}' then 'S'
    else c
  }

  /** `s.upper()`, character by character. */
  function Upper(s: string): (r: string)
    ensures |r| == |s|
    ensures forall i :: 0 <= i < |s| ==> r[i] == UpperChar(s[i])
  {
    if s == [] then [] else [UpperChar(s[0])] + Upper(s[1..])
  }

  /** Upper-casing twice is upper-casing once. */
  lemma {:induction false} UpperIdempotent(s: string)
    ensures Upper(Upper(s)) == Upper(s)
  {
    if s != [] {
      UpperIdempotent(s[1..]);
      assert Upper(s)[1..] == Upper(s[1..]);
    }
  }

  /** Joins `parts` with `sep` between consecutive parts, the inverse of
      `Split`. */
  function Join(parts: seq<string>, sep: char): string {
    if |parts| == 0 then []
    else if |parts| == 1 then parts[0]
    else parts[0] + [sep] + Join(parts[1..], sep)
  }

  /** `s.split(sep)` for a one-character separator: the pieces between
      separators, empty pieces included. */
  function Split(s: string, sep: char): (r: seq<string>)
    ensures |r| >= 1
    ensures forall i :: 0 <= i < |r| ==> sep !in r[i]
  {
    if s == [] then [[]]
    else
      var rest := Split(s[1..], sep);
      if s[0] == sep then [[]] + rest
      else [[s[0]] + rest[0]] + rest[1..]
  }

  /** Joining the pieces of a split with the separator gives back the
      string. */
  lemma {:induction false} SplitJoin(s: string, sep: char)
    ensures Join(Split(s, sep), sep) == s
  {
    if s != [] {
      SplitJoin(s[1..], sep);
      var rest := Split(s[1..], sep);
      var r := Split(s, sep);
      if s[0] == sep {
        assert r == [[]] + rest;
        JoinCons([], rest, sep);
      } else {
        assert r == [[s[0]] + rest[0]] + rest[1..];
        if |rest| == 1 {
          assert Join(r, sep) == [s[0]] + rest[0];
        } else {
          assert rest == [rest[0]] + rest[1..];
          JoinCons([s[0]] + rest[0], rest[1..], sep);
          JoinCons(rest[0], rest[1..], sep);
        }
      }
      assert s == [s[0]] + s[1..];
    }
  }

  lemma JoinCons(a: string, t: seq<string>, sep: char)
    requires |t| >= 1
    ensures Join([a] + t, sep) == a + [sep] + Join(t, sep)
  {
    assert ([a] + t)[1..] == t;
  }

  /** There is one piece more than there are separators. */
  lemma {:induction false} SplitCount(s: string, sep: char)
    ensures |Split(s, sep)| == multiset(s)[sep] + 1
  {
    if s != [] {
      SplitCount(s[1..], sep);
      assert s == [s[0]] + s[1..];
    }
  }

  /** A separator at the end adds one empty piece and changes no other
      piece (a trailing comma in the override field). */
  lemma {:induction false} SplitAppendSeparator(s: string, sep: char)
    ensures Split(s + [sep], sep) == Split(s, sep) + [[]]
  {
    if s == [] {
      assert [sep][1..] == [];
    } else {
      var t := s + [sep];
      assert t[0] == s[0];
      assert t[1..] == s[1..] + [sep];
      SplitAppendSeparator(s[1..], sep);
      var rest := Split(s[1..], sep);
      assert Split(t[1..], sep) == rest + [[]];
      if s[0] != sep {
        assert (rest + [[]])[0] == rest[0];
        assert (rest + [[]])[1..] == rest[1..] + [[]];
      }
    }
  }

  /** The first piece of a split is everything before the first
      separator; the rest is the split of what follows it. */
  lemma {:induction false} SplitAtSeparator(a: string, b: string, sep: char)
    requires sep !in a
    ensures Split(a + [sep] + b, sep) == [a] + Split(b, sep)
  {
    var s := a + [sep] + b;
    if a == [] {
      assert s == [sep] + b;
      assert s[1..] == b;
    } else {
      var t := a[1..];
      SplitAtSeparator(t, b, sep);
      assert s[0] == a[0];
      assert s[1..] == t + [sep] + b;
      assert [a[0]] + t == a;
    }
  }

  /** A string without the separator splits into itself alone. */
  lemma {:induction false} SplitWithoutSeparator(s: string, sep: char)
    requires sep !in s
    ensures Split(s, sep) == [s]
  {
    if s != [] {
      SplitWithoutSeparator(s[1..], sep);
      assert s == [s[0]] + s[1..];
    }
  }

  /** Python's `<=` on strings: lexicographic by code point, a proper
      prefix before any extension of it. */
  predicate LexLe(a: string, b: string) {
    if a == [] then true
    else if b == [] then false
    else if a[0] != b[0] then a[0] < b[0]
    else LexLe(a[1..], b[1..])
  }

  /** Any two strings are ordered one way or the other. */
  lemma {:induction false} LexLeTotal(a: string, b: string)
    ensures LexLe(a, b) || LexLe(b, a)
  {
    if a != [] && b != [] && a[0] == b[0] {
      LexLeTotal(a[1..], b[1..]);
    }
  }

  /** Two strings ordered both ways are equal. */
  lemma {:induction false} LexLeAntisymmetric(a: string, b: string)
    requires LexLe(a, b) && LexLe(b, a)
    ensures a == b
  {
    if a != [] && b != [] {
      LexLeAntisymmetric(a[1..], b[1..]);
      assert a == [a[0]] + a[1..] && b == [b[0]] + b[1..];
    }
  }
}
