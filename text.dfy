/** String operations the stages rely on: prefix tests, ASCII case mapping,
    word title-casing, left-to-right substring replacement and code-point
    ordering of strings. */
module Text {

  predicate StartsWith(s: string, prefix: string)
  {
    |prefix| <= |s| && s[..|prefix|] == prefix
  }

  predicate EndsWith(s: string, suffix: string)
  {
    |suffix| <= |s| && s[|s| - |suffix|..] == suffix
  }

  predicate IsUpper(c: char) { 'A' <= c <= 'Z' }

  predicate IsLower(c: char) { 'a' <= c <= 'z' }

  predicate IsAlnum(c: char)
  {
    IsUpper(c) || IsLower(c) || '0' <= c <= '9'
  }

  function LowerChar(c: char): (d: char)
    ensures !IsUpper(d)
    ensures IsAlnum(d) == IsAlnum(c)
    ensures !IsUpper(c) ==> d == c
  {
    if IsUpper(c) then (c as int + 32) as char else c
  }

  function UpperChar(c: char): (d: char)
    ensures !IsLower(d)
    ensures IsAlnum(d) == IsAlnum(c)
    ensures !IsLower(c) ==> d == c
  {
    if IsLower(c) then (c as int - 32) as char else c
  }

  /** ASCII lower-casing, character by character. */
  function ToLower(s: string): (r: string)
    ensures |r| == |s|
    ensures forall i :: 0 <= i < |s| ==> r[i] == LowerChar(s[i])
    ensures forall i :: 0 <= i < |r| ==> !IsUpper(r[i])
  {
    seq(|s|, i requires 0 <= i < |s| => LowerChar(s[i]))
  }

  // ---------------------------------------------------------------------------
  // Title case

  /** Character `i` of `s` begins a word: it is the first character, or the one
      before it is neither an ASCII letter nor a digit. */
  predicate StartsWord(s: string, i: int)
    requires 0 <= i < |s|
  {
    i == 0 || !IsAlnum(s[i - 1])
  }

  /** Title-cases `s`; `inWord` says whether the character before `s` was part of a word. */
  function TitleFrom(s: string, inWord: bool): string
    decreases |s|
  {
    if s == [] then []
    else [if inWord then LowerChar(s[0]) else UpperChar(s[0])] + TitleFrom(s[1..], IsAlnum(s[0]))
  }

  lemma {:induction false} TitleFromAt(s: string, inWord: bool)
    ensures |TitleFrom(s, inWord)| == |s|
    ensures forall i :: 0 < i < |s| ==>
      TitleFrom(s, inWord)[i] == if StartsWord(s, i) then UpperChar(s[i]) else LowerChar(s[i])
    ensures |s| > 0 ==> TitleFrom(s, inWord)[0] == if inWord then LowerChar(s[0]) else UpperChar(s[0])
    decreases |s|
  {
    if s != [] {
      var t := s[1..];
      TitleFromAt(t, IsAlnum(s[0]));
      var r := TitleFrom(s, inWord);
      assert r == [if inWord then LowerChar(s[0]) else UpperChar(s[0])] + TitleFrom(t, IsAlnum(s[0]));
      forall i | 0 < i < |s|
        ensures r[i] == if StartsWord(s, i) then UpperChar(s[i]) else LowerChar(s[i])
      {
        assert r[i] == TitleFrom(t, IsAlnum(s[0]))[i - 1];
        assert t[i - 1] == s[i];
        if i > 1 {
          assert t[i - 2] == s[i - 1];
        }
      }
    }
  }

  /** Upper-cases the first character of every word and lower-cases the rest:
      each character of the result is the upper-case form of the input character
      where a word starts and its lower-case form elsewhere. */
  function TitleCase(s: string): (r: string)
    ensures |r| == |s|
    ensures forall i :: 0 <= i < |s| ==> r[i] == if StartsWord(s, i) then UpperChar(s[i]) else LowerChar(s[i])
  {
    TitleFromAt(s, false);
    TitleFrom(s, false)
  }

  /** Title-casing an already title-cased string changes nothing. */
  lemma TitleCaseIdempotent(s: string)
    ensures TitleCase(TitleCase(s)) == TitleCase(s)
  {
    var t := TitleCase(s);
    forall i | 0 <= i < |t|
      ensures TitleCase(t)[i] == t[i]
    {
      if i > 0 {
        assert IsAlnum(t[i - 1]) == IsAlnum(s[i - 1]);
      }
    }
  }

  /** The categories of the transformation's test: "electronics", "clothing" and
      "books" get a capital initial, and the empty category stays empty. */
  lemma TitleCaseExamples(e: string, c: string, b: string)
    requires e == "electronics" && c == "clothing" && b == "books"
    ensures TitleCase(e) == "Electronics"
    ensures TitleCase(c) == "Clothing"
    ensures TitleCase(b) == "Books"
    ensures TitleCase("") == ""
  {
    assert forall i :: 0 <= i < |e| ==> IsLower(e[i]);
    assert forall i :: 0 <= i < |c| ==> IsLower(c[i]);
    assert forall i :: 0 <= i < |b| ==> IsLower(b[i]);
    TitleCaseWord(e);
    TitleCaseWord(c);
    TitleCaseWord(b);
    assert UpperChar('e') == 'E' && UpperChar('c') == 'C' && UpperChar('b') == 'B';
    assert e[1..] == "lectronics" && c[1..] == "lothing" && b[1..] == "ooks";
  }

  /** A word of lower-case letters gets only its first letter upper-cased. */
  lemma TitleCaseWord(w: string)
    requires |w| > 0 && forall i :: 0 <= i < |w| ==> IsLower(w[i])
    ensures TitleCase(w) == [UpperChar(w[0])] + w[1..]
  {
    var e := [UpperChar(w[0])] + w[1..];
    forall i | 0 <= i < |w|
      ensures TitleCase(w)[i] == e[i]
    {
      if i > 0 {
        assert IsAlnum(w[i - 1]);
      }
    }
  }

  // ---------------------------------------------------------------------------
  // Substring replacement

  /** `p` occurs in `s` starting at index `i`. */
  predicate OccursAt(s: string, p: string, i: int)
  {
    0 <= i && i + |p| <= |s| && s[i..i + |p|] == p
  }

  ghost predicate Contains(s: string, p: string)
  {
    exists i :: OccursAt(s, p, i)
  }

  /** `str.replace`: every occurrence of the non-empty `pat`, found left to right
      without overlap, is replaced by `rep`. */
  function ReplaceAll(s: string, pat: string, rep: string): (r: string)
    requires pat != []
    ensures |rep| <= |pat| ==> |r| <= |s|
    ensures |rep| >= |pat| ==> |r| >= |s|
    decreases |s|
  {
    if |s| < |pat| then s
    else if s[..|pat|] == pat then rep + ReplaceAll(s[|pat|..], pat, rep)
    else [s[0]] + ReplaceAll(s[1..], pat, rep)
  }

  /** A string without an occurrence of the pattern is returned unchanged. */
  lemma {:induction false} ReplaceAllAbsent(s: string, pat: string, rep: string)
    requires pat != []
    requires !Contains(s, pat)
    ensures ReplaceAll(s, pat, rep) == s
    decreases |s|
  {
    if |s| >= |pat| {
      assert !OccursAt(s, pat, 0);
      assert s[0..|pat|] == s[..|pat|];
      if Contains(s[1..], pat) {
        var i :| OccursAt(s[1..], pat, i);
        assert s[1..][i..i + |pat|] == s[i + 1..i + 1 + |pat|];
        assert OccursAt(s, pat, i + 1);
        assert false;
      }
      ReplaceAllAbsent(s[1..], pat, rep);
    }
  }

  const ParquetExt: string := ".parquet"
  const JsonExt: string := ".json"

  /** The first character after the rewrite: the dot of `.json` where a
      `.parquet` starts the string, the string's own first character otherwise. */
  lemma ReplaceAllFirst(t: string)
    requires t != []
    ensures ReplaceAll(t, ParquetExt, JsonExt) != []
    ensures ReplaceAll(t, ParquetExt, JsonExt)[0] ==
      if |t| >= |ParquetExt| && t[..|ParquetExt|] == ParquetExt then '.' else t[0]
  {
  }

  /** If replacing turns `t` into a string that starts with a dot-free `w`, then
      `t` itself started with `w`: every replacement starts with a dot. */
  lemma {:induction false} ReplacedPrefix(t: string, w: string)
    requires '.' !in w
    ensures StartsWith(ReplaceAll(t, ParquetExt, JsonExt), w) ==> StartsWith(t, w)
    decreases |w|
  {
    var r := ReplaceAll(t, ParquetExt, JsonExt);
    if w != [] && |t| >= |ParquetExt| && StartsWith(r, w) {
      ReplaceAllFirst(t);
      assert w[0] == r[0];
      assert t[..|ParquetExt|] != ParquetExt;
      assert r == [t[0]] + ReplaceAll(t[1..], ParquetExt, JsonExt);
      assert StartsWith(ReplaceAll(t[1..], ParquetExt, JsonExt), w[1..]) by {
        assert r[1..|w|] == w[1..];
      }
      ReplacedPrefix(t[1..], w[1..]);
      assert t[..|w|] == [t[0]] + t[1..][..|w| - 1];
    }
  }

  /** After rewriting `.parquet` to `.json` no `.parquet` is left in the string. */
  lemma {:induction false} NoParquetLeft(s: string)
    ensures !Contains(ReplaceAll(s, ParquetExt, JsonExt), ParquetExt)
    decreases |s|
  {
    var r := ReplaceAll(s, ParquetExt, JsonExt);
    if |s| < |ParquetExt| {
      assert r == s;
    } else if s[..|ParquetExt|] == ParquetExt {
      NoParquetLeft(s[|ParquetExt|..]);
      assert r == JsonExt + ReplaceAll(s[|ParquetExt|..], ParquetExt, JsonExt);
      JsonThenNoParquet(ReplaceAll(s[|ParquetExt|..], ParquetExt, JsonExt));
    } else {
      NoParquetLeft(s[1..]);
      assert r == [s[0]] + ReplaceAll(s[1..], ParquetExt, JsonExt);
      CharThenNoParquet(s);
    }
  }

  /** `.json` followed by a string without `.parquet` has no `.parquet`: none can
      start inside `.json`. */
  lemma JsonThenNoParquet(rest: string)
    requires !Contains(rest, ParquetExt)
    ensures !Contains(JsonExt + rest, ParquetExt)
  {
    var r := JsonExt + rest;
    forall i | 0 <= i && i + |ParquetExt| <= |r|
      ensures !OccursAt(r, ParquetExt, i)
    {
      if i == 0 {
        assert r[i..i + |ParquetExt|][1] == 'j';
      } else if i < |JsonExt| {
        assert r[i..i + |ParquetExt|][0] != '.';
      } else {
        assert r[i..i + |ParquetExt|] == rest[i - |JsonExt|..i - |JsonExt| + |ParquetExt|];
        assert !OccursAt(rest, ParquetExt, i - |JsonExt|);
      }
    }
  }

  /** A first character kept by the rewrite cannot start a `.parquet` in the
      result: where it is a dot, the rest of the input did not start with
      `parquet`, and so neither does the rest of the result. */
  lemma CharThenNoParquet(s: string)
    requires |s| >= |ParquetExt| && s[..|ParquetExt|] != ParquetExt
    requires !Contains(ReplaceAll(s[1..], ParquetExt, JsonExt), ParquetExt)
    ensures !Contains([s[0]] + ReplaceAll(s[1..], ParquetExt, JsonExt), ParquetExt)
  {
    var rest := ReplaceAll(s[1..], ParquetExt, JsonExt);
    var r := [s[0]] + rest;
    forall i | 0 <= i && i + |ParquetExt| <= |r|
      ensures !OccursAt(r, ParquetExt, i)
    {
      if i == 0 {
        FirstCharNotParquet(s);
      } else {
        assert r[i..i + |ParquetExt|] == rest[i - 1..i - 1 + |ParquetExt|];
        assert !OccursAt(rest, ParquetExt, i - 1);
      }
    }
  }

  lemma FirstCharNotParquet(s: string)
    requires |s| >= |ParquetExt| && s[..|ParquetExt|] != ParquetExt
    ensures var r := [s[0]] + ReplaceAll(s[1..], ParquetExt, JsonExt);
            |r| >= |ParquetExt| ==> r[..|ParquetExt|] != ParquetExt
  {
    var rest := ReplaceAll(s[1..], ParquetExt, JsonExt);
    var r := [s[0]] + rest;
    if |r| >= |ParquetExt| {
      assert |ParquetExt| == 8;
      assert r[..8] == [s[0]] + rest[..7];
      assert ParquetExt == ['.'] + "parquet";
      if s[0] == '.' {
        ReplacedPrefix(s[1..], "parquet");
        assert s[..|ParquetExt|] == [s[0]] + s[1..][..7];
        assert !StartsWith(rest, "parquet");
        assert ([s[0]] + rest[..7])[1..] == rest[..7];
      } else {
        assert r[..8][0] != ParquetExt[0];
      }
    }
  }

  /** A non-empty string shorter than `.parquet`, followed by `.parquet`, does not
      start with `.parquet`: the suffix's dot falls where `.parquet` has a letter. */
  lemma ShortPrefixNotParquet(p: string)
    requires 0 < |p| < |ParquetExt|
    ensures (p + ParquetExt)[..|ParquetExt|] != ParquetExt
  {
    var s := p + ParquetExt;
    assert s[|p|] == '.';
    assert forall k :: 0 < k < |ParquetExt| ==> ParquetExt[k] != '.';
    assert s[..|ParquetExt|][|p|] != ParquetExt[|p|];
  }

  /** A path ending in `.parquet` ends in `.json` after the rewrite, and the part
      before it is rewritten on its own. */
  lemma {:induction false} ReplaceParquetSuffix(p: string)
    ensures ReplaceAll(p + ParquetExt, ParquetExt, JsonExt) == ReplaceAll(p, ParquetExt, JsonExt) + JsonExt
    decreases |p|
  {
    var s := p + ParquetExt;
    if p == [] {
      assert s[..|ParquetExt|] == ParquetExt;
      assert s[|ParquetExt|..] == [];
    } else if |p| < |ParquetExt| {
      ShortPrefixNotParquet(p);
      assert s[1..] == p[1..] + ParquetExt;
      ReplaceParquetSuffix(p[1..]);
      assert ReplaceAll(p, ParquetExt, JsonExt) == p;
      assert ReplaceAll(p[1..], ParquetExt, JsonExt) == p[1..];
    } else if p[..|ParquetExt|] == ParquetExt {
      assert s[..|ParquetExt|] == ParquetExt;
      assert s[|ParquetExt|..] == p[|ParquetExt|..] + ParquetExt;
      ReplaceParquetSuffix(p[|ParquetExt|..]);
    } else {
      assert s[..|ParquetExt|] == p[..|ParquetExt|];
      assert s[1..] == p[1..] + ParquetExt;
      ReplaceParquetSuffix(p[1..]);
    }
  }

  // ---------------------------------------------------------------------------
  // Ordering

  /** Python's string order: lexicographic by code point, a proper prefix first. */
  predicate StrLess(a: string, b: string)
    decreases |a|
  {
    if a == [] then b != []
    else if b == [] then false
    else if a[0] != b[0] then a[0] < b[0]
    else StrLess(a[1..], b[1..])
  }

  predicate StrictlySorted(s: seq<string>)
  {
    forall i, j :: 0 <= i < j < |s| ==> StrLess(s[i], s[j])
  }

  lemma {:induction false} StrLessIrreflexive(a: string)
    ensures !StrLess(a, a)
    decreases |a|
  {
    if a != [] {
      StrLessIrreflexive(a[1..]);
    }
  }

  /** A strictly sorted sequence holds no element twice. */
  lemma StrictlySortedDistinct(s: seq<string>)
    requires StrictlySorted(s)
    ensures forall i, j :: 0 <= i < j < |s| ==> s[i] != s[j]
  {
    forall i, j | 0 <= i < j < |s|
      ensures s[i] != s[j]
    {
      StrLessIrreflexive(s[i]);
    }
  }
}
