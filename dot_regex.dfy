/** The part of RE2 that `regexp.MatchString` needs for the patterns AddConfigs
    builds: a literal string in which every `.` stands for any character except
    a newline. Patterns with other metacharacters are outside the model. */
module DotRegex {
  import opened Text

  /** RE2 metacharacters other than `.`. */
  const Meta: set<char> := {'\\', '+', '*', '?', '(', ')', '|', '[', ']', '{', '}', '^', '$'}

  /** A pattern made of literal characters and unescaped dots only. */
  predicate Plain(p: string) {
    forall i :: 0 <= i < |p| ==> p[i] !in Meta
  }

  predicate CharMatches(pc: char, c: char) {
    if pc == '.' then c != '\n' else pc == c
  }

  /** The pattern matches at the start of s. */
  predicate PrefixMatch(s: string, pat: string)
    decreases |pat|
  {
    pat == [] || (s != [] && CharMatches(pat[0], s[0]) && PrefixMatch(s[1..], pat[1..]))
  }

  /** regexp.MatchString(pat, s): the pattern matches somewhere in s. */
  predicate Found(s: string, pat: string)
    decreases |s|
  {
    PrefixMatch(s, pat) || (s != [] && Found(s[1..], pat))
  }

  /** Every pattern matches its own text: a `.` matches the dot itself. */
  lemma {:induction false} MatchesItself(pat: string, rest: string)
    ensures PrefixMatch(pat + rest, pat)
    decreases |pat|
  {
    if pat != [] {
      assert (pat + rest)[1..] == pat[1..] + rest;
      MatchesItself(pat[1..], rest);
    }
  }

  /** A match in a suffix is a match in the whole text. */
  lemma {:induction false} FoundAfter(a: string, b: string, pat: string)
    requires PrefixMatch(b, pat)
    ensures Found(a + b, pat)
    decreases |a|
  {
    if a == [] {
      assert a + b == b;
    } else {
      assert (a + b)[1..] == a[1..] + b;
      FoundAfter(a[1..], b, pat);
    }
  }

  /** A match stays a match when text is appended. */
  lemma {:induction false} FoundExtend(a: string, b: string, pat: string)
    requires Found(a, pat)
    ensures Found(a + b, pat)
    decreases |a|
  {
    if PrefixMatch(a, pat) {
      PrefixMatchExtend(a, b, pat);
    } else {
      assert (a + b)[1..] == a[1..] + b;
      FoundExtend(a[1..], b, pat);
    }
  }

  lemma {:induction false} PrefixMatchExtend(a: string, b: string, pat: string)
    requires PrefixMatch(a, pat)
    ensures PrefixMatch(a + b, pat)
    decreases |pat|
  {
    if pat != [] {
      assert (a + b)[1..] == a[1..] + b;
      PrefixMatchExtend(a[1..], b, pat[1..]);
    }
  }

  /** A match of `x` then a newline, where x holds no newline, ends at the first
      newline of the text: it needs at least |x| newline-free characters first. */
  lemma {:induction false} PrefixMatchLine(s: string, x: string)
    requires NoNewline(x)
    requires PrefixMatch(s, x + "\n")
    ensures |x| < |s| && s[|x|] == '\n'
    ensures forall j :: 0 <= j < |x| ==> s[j] != '\n'
    decreases |x|
  {
    if x == [] {
      assert (x + "\n")[0] == '\n';
    } else {
      assert (x + "\n")[1..] == x[1..] + "\n";
      assert (x + "\n")[0] == x[0];
      PrefixMatchLine(s[1..], x[1..]);
    }
  }

  lemma {:induction false} NotFoundWithoutNewline(s: string, x: string)
    requires NoNewline(s) && NoNewline(x)
    ensures !Found(s, x + "\n")
    decreases |s|
  {
    if PrefixMatch(s, x + "\n") {
      PrefixMatchLine(s, x);
    }
    if s != [] {
      NotFoundWithoutNewline(s[1..], x);
    }
  }

  /** The line l ends in a match of x. */
  predicate EndMatch(l: string, x: string) {
    |x| <= |l| && PrefixMatch(l[|l| - |x|..], x)
  }

  /** A match only looks at as many characters as the pattern has. */
  lemma {:induction false} PrefixMatchTake(s: string, pat: string)
    requires |pat| <= |s|
    ensures PrefixMatch(s, pat) == PrefixMatch(s[..|pat|], pat)
    decreases |pat|
  {
    if pat != [] {
      assert s[..|pat|][1..] == s[1..][..|pat| - 1];
      PrefixMatchTake(s[1..], pat[1..]);
    }
  }

  /** A match of a pattern is a match of each of its prefixes. */
  lemma {:induction false} PrefixMatchShorter(s: string, x: string, y: string)
    requires PrefixMatch(s, x + y)
    ensures PrefixMatch(s, x)
    decreases |x|
  {
    if x != [] {
      assert (x + y)[0] == x[0];
      assert (x + y)[1..] == x[1..] + y;
      PrefixMatchShorter(s[1..], x[1..], y);
    }
  }

  /** In a newline-free line followed by a newline, a match of x and a newline
      either ends exactly at the end of the line or lies entirely after it. */
  lemma {:induction false} FoundInLine(a: string, b: string, x: string)
    requires NoNewline(a) && NoNewline(x)
    requires Found(a + "\n" + b, x + "\n")
    ensures EndMatch(a, x) || Found(b, x + "\n")
    decreases |a|
  {
    var s := a + "\n" + b;
    assert s[|a|] == '\n';
    assert forall j :: 0 <= j < |a| ==> s[j] == a[j];
    if PrefixMatch(s, x + "\n") {
      PrefixMatchLine(s, x);
      assert |x| == |a|;
      PrefixMatchShorter(s, x, "\n");
      PrefixMatchTake(s, x);
      assert s[..|x|] == a;
      assert a[|a| - |x|..] == a;
    } else if a == [] {
      assert s[1..] == b;
    } else {
      assert s[1..] == a[1..] + "\n" + b;
      FoundInLine(a[1..], b, x);
      if EndMatch(a[1..], x) {
        assert a[1..][|a| - 1 - |x|..] == a[|a| - |x|..];
      }
    }
  }

  /** A match of x and a newline, where x holds no newline, lies at the end of
      one line: in a text where no line but the last ends in a match of x it is
      never found. */
  lemma {:induction false} NotFoundInLines(ls: seq<string>, x: string)
    requires NoNewline(x)
    requires forall k :: 0 <= k < |ls| ==> NoNewline(ls[k])
    requires forall k :: 0 <= k < |ls| - 1 ==> !EndMatch(ls[k], x)
    ensures !Found(Unlines(ls), x + "\n")
    decreases |ls|
  {
    if |ls| <= 1 {
      if ls == [] {
        assert Unlines(ls) == "";
      }
      NotFoundWithoutNewline(Unlines(ls), x);
    } else {
      NotFoundInLines(ls[1..], x);
      assert Unlines(ls) == ls[0] + "\n" + Unlines(ls[1..]);
      if Found(Unlines(ls), x + "\n") {
        FoundInLine(ls[0], Unlines(ls[1..]), x);
      }
    }
  }
}
