/** The Python string methods the wrapper relies on, with the meaning Python
    gives them: `strip()` with and without an argument, `rstrip(chars)`, and
    `split(sep)` on a one-character separator, together with the join that
    undoes that split. */
module PyStr {

  /** The characters for which Python's `str.isspace()` holds: the ones
      `str.strip()` without an argument removes from both ends. */
  const Whitespace: set<char> := {
    '\t', '\n', '\U{0B}', '\U{0C}', '\r', '\U{1C}', '\U{1D}', '\U{1E}', '\U{1F}', ' ',
    '\U{85}', '\U{A0}', '\U{1680}',
    '\U{2000}', '\U{2001}', '\U{2002}', '\U{2003}', '\U{2004}', '\U{2005}',
    '\U{2006}', '\U{2007}', '\U{2008}', '\U{2009}', '\U{200A}',
    '\U{2028}', '\U{2029}', '\U{202F}', '\U{205F}', '\U{3000}'
  }

  /** `s.lstrip(cs)`: drop the longest prefix made only of characters in cs. */
  function LStrip(s: string, cs: set<char>): (r: string)
    ensures |r| <= |s| && r == s[|s| - |r|..]
    ensures r == [] || r[0] !in cs
    ensures forall k :: 0 <= k < |s| - |r| ==> s[k] in cs
    decreases |s|
  {
    if |s| > 0 && s[0] in cs then LStrip(s[1..], cs) else s
  }

  /** `s.rstrip(cs)`: drop the longest suffix made only of characters in cs. */
  function RStrip(s: string, cs: set<char>): (r: string)
    ensures |r| <= |s| && r == s[..|r|]
    ensures r == [] || r[|r| - 1] !in cs
    ensures forall k :: |r| <= k < |s| ==> s[k] in cs
    decreases |s|
  {
    if |s| > 0 && s[|s| - 1] in cs then RStrip(s[..|s| - 1], cs) else s
  }

  /** r is s[i..i + |r|], everything cut off on either side is in cs, and r
      neither starts nor ends with a character of cs. */
  ghost predicate StrippedAt(r: string, s: string, cs: set<char>, i: nat)
  {
    && i + |r| <= |s|
    && r == s[i..i + |r|]
    && (forall k :: 0 <= k < i ==> s[k] in cs)
    && (forall k :: i + |r| <= k < |s| ==> s[k] in cs)
    && (r == [] || (r[0] !in cs && r[|r| - 1] !in cs))
  }

  /** The meaning of `s.strip(cs)`, independent of how it is computed. */
  ghost predicate StrippedOf(r: string, s: string, cs: set<char>)
  {
    exists i: nat :: StrippedAt(r, s, cs, i)
  }

  /** `s.strip(cs)`; `s.strip()` is `Strip(s, Whitespace)`. */
  function Strip(s: string, cs: set<char>): (r: string)
    ensures StrippedOf(r, s, cs)
    ensures r == [] || (r[0] !in cs && r[|r| - 1] !in cs)
  {
    var l := LStrip(s, cs);
    StrippedAtIntro(RStrip(l, cs), l, s, cs);
    RStrip(l, cs)
  }

  /** A left strip l of s followed by a right strip r of l strips s at the
      position where l starts. */
  lemma StrippedAtIntro(r: string, l: string, s: string, cs: set<char>)
    requires |l| <= |s| && l == s[|s| - |l|..]
    requires forall k :: 0 <= k < |s| - |l| ==> s[k] in cs
    requires l == [] || l[0] !in cs
    requires |r| <= |l| && r == l[..|r|]
    requires r == [] || r[|r| - 1] !in cs
    requires forall k :: |r| <= k < |l| ==> l[k] in cs
    ensures StrippedAt(r, s, cs, |s| - |l|)
  {
    var i := |s| - |l|;
    assert r == s[i..i + |r|];
    forall k | i + |r| <= k < |s| ensures s[k] in cs {
      assert s[k] == l[k - i];
    }
    if r != [] {
      assert r[0] == l[0];
    }
  }

  /** Stripping a text made of a prefix and a suffix from cs around a body
      that neither starts nor ends with a character of cs gives the body. */
  lemma StripAround(pre: string, body: string, post: string, cs: set<char>)
    requires forall k :: 0 <= k < |pre| ==> pre[k] in cs
    requires forall k :: 0 <= k < |post| ==> post[k] in cs
    requires body == [] || (body[0] !in cs && body[|body| - 1] !in cs)
    ensures Strip(pre + body + post, cs) == body
  {
    var s := pre + body + post;
    assert s[|pre|..|pre| + |body|] == body;
    forall k | |pre| + |body| <= k < |s| ensures s[k] in cs {
      assert s[k] == post[k - |pre| - |body|];
    }
    assert StrippedAt(body, s, cs, |pre|);
    StrippedUnique(Strip(s, cs), body, s, cs);
  }

  /** StrippedOf pins its first argument down: there is only one stripping of s. */
  lemma StrippedUnique(a: string, b: string, s: string, cs: set<char>)
    requires StrippedOf(a, s, cs) && StrippedOf(b, s, cs)
    ensures a == b
  {
    var i: nat :| StrippedAt(a, s, cs, i);
    var j: nat :| StrippedAt(b, s, cs, j);
    if a != [] && b != [] {
      assert s[i] == a[0] && s[j] == b[0];
      assert i == j;
      assert s[i + |a| - 1] == a[|a| - 1] && s[j + |b| - 1] == b[|b| - 1];
      assert |a| == |b|;
    }
  }

  /** Stripping twice strips nothing more. */
  lemma StripIdempotent(s: string, cs: set<char>)
    ensures Strip(Strip(s, cs), cs) == Strip(s, cs)
  {
    var r := Strip(s, cs);
    assert LStrip(r, cs) == r;
    assert RStrip(r, cs) == r;
  }

  /** Stripping removes exactly the leading and trailing whitespace of a
      runner's output. */
  lemma StripExample()
    ensures Strip("  value\n", Whitespace) == "value"
  {
    assert 'v' !in Whitespace && 'e' !in Whitespace;
    assert LStrip("value\n", Whitespace) == "value\n";
    assert LStrip(" value\n", Whitespace) == "value\n" by {
      assert " value\n"[1..] == "value\n";
    }
    assert LStrip("  value\n", Whitespace) == "value\n" by {
      assert "  value\n"[1..] == " value\n";
    }
    assert RStrip("value", Whitespace) == "value";
    assert RStrip("value\n", Whitespace) == "value" by {
      assert "value\n"[..5] == "value";
    }
  }

  /** The words of ws with d between every neighbouring pair. */
  function Join(ws: seq<string>, d: char): string
    decreases |ws|
  {
    if |ws| == 0 then "" else if |ws| == 1 then ws[0] else ws[0] + [d] + Join(ws[1..], d)
  }

  /** `s.split(d)` for a one-character separator d: never empty, no piece
      contains d, and joining the pieces with d gives s back. */
  function Split(s: string, d: char): (r: seq<string>)
    ensures |r| >= 1
    ensures forall k :: 0 <= k < |r| ==> d !in r[k]
    ensures Join(r, d) == s
    decreases |s|
  {
    if |s| == 0 then [""]
    else
      var rest := Split(s[1..], d);
      if s[0] == d then
        assert ([""] + rest)[1..] == rest;
        [""] + rest
      else
        var r := [[s[0]] + rest[0]] + rest[1..];
        assert r[1..] == rest[1..];
        assert Join(r, d) == s by {
          if |rest| > 1 {
            assert Join(rest, d) == rest[0] + [d] + Join(rest[1..], d);
            assert Join(r, d) == [s[0]] + rest[0] + [d] + Join(rest[1..], d);
          }
        }
        r
  }

  /** The text of s before its first d, or all of s when there is no d. */
  function UpTo(s: string, d: char): (r: string)
    ensures |r| <= |s| && r == s[..|r|]
    ensures d !in r
    ensures |r| == |s| || s[|r|] == d
    decreases |s|
  {
    if |s| == 0 || s[0] == d then "" else [s[0]] + UpTo(s[1..], d)
  }

  lemma {:induction false} JoinStartsWithFirst(ws: seq<string>, d: char)
    requires |ws| >= 1
    ensures |ws[0]| <= |Join(ws, d)| && Join(ws, d)[..|ws[0]|] == ws[0]
  {
    if |ws| > 1 {
      assert Join(ws, d) == ws[0] + ([d] + Join(ws[1..], d));
    }
  }

  lemma {:induction false} JoinEndsWithLast(ws: seq<string>, d: char)
    requires |ws| >= 1
    ensures var last := ws[|ws| - 1];
      |last| <= |Join(ws, d)| && Join(ws, d)[|Join(ws, d)| - |last|..] == last
    decreases |ws|
  {
    if |ws| > 1 {
      JoinEndsWithLast(ws[1..], d);
      assert ws[1..][|ws[1..]| - 1] == ws[|ws| - 1];
      var j := Join(ws[1..], d);
      assert Join(ws, d) == (ws[0] + [d]) + j;
    }
  }

  /** A text without d is a single piece. */
  lemma {:induction false} SplitWithoutSeparator(s: string, d: char)
    requires d !in s
    ensures Split(s, d) == [s]
    decreases |s|
  {
    if |s| > 0 {
      SplitWithoutSeparator(s[1..], d);
      assert [s[0]] + s[1..] == s;
    }
  }

  /** Splitting at the first separator: the piece before it, then the pieces of
      the rest. */
  lemma {:induction false} SplitAtFirst(a: string, b: string, d: char)
    requires d !in a
    ensures Split(a + [d] + b, d) == [a] + Split(b, d)
    decreases |a|
  {
    var s := a + [d] + b;
    if |a| == 0 {
      assert s[1..] == b;
    } else {
      assert s[1..] == a[1..] + [d] + b;
      SplitAtFirst(a[1..], b, d);
      assert [a[0]] + a[1..] == a;
    }
  }

  /** Splitting a joined text returns the words, when no word holds the
      separator. */
  lemma {:induction false} SplitJoin(ws: seq<string>, d: char)
    requires |ws| >= 1
    requires forall k :: 0 <= k < |ws| ==> d !in ws[k]
    ensures Split(Join(ws, d), d) == ws
    decreases |ws|
  {
    if |ws| == 1 {
      SplitWithoutSeparator(ws[0], d);
    } else {
      SplitJoin(ws[1..], d);
      SplitAtFirst(ws[0], Join(ws[1..], d), d);
      assert [ws[0]] + ws[1..] == ws;
    }
  }

  /** Splitting a joined text gives back exactly the words if and only if no
      word holds the separator. */
  lemma SplitJoinExactly(ws: seq<string>, d: char)
    requires |ws| >= 1
    ensures Split(Join(ws, d), d) == ws <==> forall k :: 0 <= k < |ws| ==> d !in ws[k]
  {
    if forall k :: 0 <= k < |ws| ==> d !in ws[k] {
      SplitJoin(ws, d);
    }
  }

  /** The first piece of a split is the text before the first separator. */
  lemma {:induction false} SplitHead(s: string, d: char)
    ensures Split(s, d)[0] == UpTo(s, d)
    decreases |s|
  {
    if |s| > 0 && s[0] != d {
      SplitHead(s[1..], d);
    }
  }

  /** Splitting at the first separator, stated by its position. */
  lemma SplitAtIndex(s: string, d: char, i: nat)
    requires i < |s| && s[i] == d && d !in s[..i]
    ensures Split(s, d) == [s[..i]] + Split(s[i + 1..], d)
  {
    assert s == s[..i] + [d] + s[i + 1..];
    SplitAtFirst(s[..i], s[i + 1..], d);
  }
}
