/** String helpers shared by the netrc and goauth models: the behaviour of the
    `strings` package functions the source relies on. */
module Text {

  /** strings.HasPrefix */
  predicate StartsWith(s: string, p: string) {
    |p| <= |s| && s[..|p|] == p
  }

  /** strings.Contains */
  predicate Contains(s: string, p: string)
    decreases |s|
  {
    StartsWith(s, p) || (s != [] && Contains(s[1..], p))
  }

  /** strings.Index for a pattern known to occur: the first occurrence. */
  function IndexOf(s: string, p: string): (i: nat)
    requires Contains(s, p)
    ensures i + |p| <= |s| && s[i..i + |p|] == p
    ensures forall j :: 0 <= j < i ==> !StartsWith(s[j..], p)
    decreases |s|
  {
    if StartsWith(s, p) then 0
    else
      var i := IndexOf(s[1..], p);
      IndexOfStep(s, p, i);
      i + 1
  }

  /** The first occurrence in s[1..], moved one place to the right. */
  lemma IndexOfStep(s: string, p: string, i: nat)
    requires s != [] && !StartsWith(s, p)
    requires i + |p| <= |s| - 1 && s[1..][i..i + |p|] == p
    requires forall j :: 0 <= j < i ==> !StartsWith(s[1..][j..], p)
    ensures i + 1 + |p| <= |s| && s[i + 1..i + 1 + |p|] == p
    ensures forall j :: 0 <= j < i + 1 ==> !StartsWith(s[j..], p)
  {
    assert s[1..][i..i + |p|] == s[i + 1..i + 1 + |p|];
    forall j | 1 <= j < i + 1
      ensures !StartsWith(s[j..], p)
    {
      assert s[j..] == s[1..][j - 1..];
    }
  }

  /** strings.Split(s, string(sep)): never empty, and no piece holds the separator. */
  function Split(s: string, sep: char): (r: seq<string>)
    ensures |r| >= 1
    ensures forall i :: 0 <= i < |r| ==> sep !in r[i]
    decreases |s|
  {
    if s == [] then [""]
    else
      var rest := Split(s[1..], sep);
      if s[0] == sep then [""] + rest else [[s[0]] + rest[0]] + rest[1..]
  }

  /** strings.Join(ls, string(sep)) */
  function Join(ls: seq<string>, sep: char): string
    decreases |ls|
  {
    if ls == [] then ""
    else if |ls| == 1 then ls[0]
    else ls[0] + [sep] + Join(ls[1..], sep)
  }

  /** The lines of a text: the pieces between newline characters. */
  function Lines(s: string): seq<string> {
    Split(s, '\n')
  }

  function Unlines(ls: seq<string>): string {
    Join(ls, '\n')
  }

  predicate NoNewline(s: string) {
    '\n' !in s
  }

  lemma {:induction false} SplitNoSeparator(s: string, sep: char)
    requires sep !in s
    ensures Split(s, sep) == [s]
    decreases |s|
  {
    if s != [] {
      SplitNoSeparator(s[1..], sep);
      assert [s[0]] + s[1..] == s;
    }
  }

  /** Splitting distributes over a separator: Split(a + sep + b) is Split(a) followed by Split(b). */
  lemma {:induction false} SplitConcat(a: string, b: string, sep: char)
    ensures Split(a + [sep] + b, sep) == Split(a, sep) + Split(b, sep)
    decreases |a|
  {
    if a == [] {
      assert a + [sep] + b == [sep] + b;
      assert ([sep] + b)[1..] == b;
    } else {
      var s := a + [sep] + b;
      assert s[0] == a[0] && s[1..] == a[1..] + [sep] + b;
      SplitConcat(a[1..], b, sep);
      var ra, rb := Split(a[1..], sep), Split(b, sep);
      var rest := Split(s[1..], sep);
      assert rest == ra + rb;
      if a[0] != sep {
        assert rest[0] == ra[0];
        assert rest[1..] == ra[1..] + rb;
        assert Split(s, sep) == [[a[0]] + ra[0]] + (ra[1..] + rb);
        assert Split(a, sep) == [[a[0]] + ra[0]] + ra[1..];
      }
    }
  }

  /** Joining undoes splitting. */
  lemma {:induction false} JoinSplit(s: string, sep: char)
    ensures Join(Split(s, sep), sep) == s
    decreases |s|
  {
    if s != [] {
      JoinSplit(s[1..], sep);
      var rest := Split(s[1..], sep);
      if s[0] == sep {
        assert Split(s, sep) == [""] + rest;
        assert ([""] + rest)[1..] == rest;
        assert s == [sep] + s[1..];
      } else {
        var r := Split(s, sep);
        assert r == [[s[0]] + rest[0]] + rest[1..];
        if |rest| == 1 {
          assert s == [s[0]] + rest[0];
        } else {
          assert r[1..] == rest[1..];
          assert Join(rest, sep) == rest[0] + [sep] + Join(rest[1..], sep);
          assert s == [s[0]] + s[1..];
        }
      }
    }
  }

  /** Splitting undoes joining, when no piece holds the separator. */
  lemma {:induction false} SplitJoin(ls: seq<string>, sep: char)
    requires |ls| >= 1
    requires forall i :: 0 <= i < |ls| ==> sep !in ls[i]
    ensures Split(Join(ls, sep), sep) == ls
    decreases |ls|
  {
    SplitNoSeparator(ls[0], sep);
    if |ls| > 1 {
      SplitJoin(ls[1..], sep);
      SplitConcat(ls[0], Join(ls[1..], sep), sep);
      assert [ls[0]] + ls[1..] == ls;
    }
  }

  lemma LinesUnlines(ls: seq<string>)
    requires |ls| >= 1
    requires forall i :: 0 <= i < |ls| ==> NoNewline(ls[i])
    ensures Lines(Unlines(ls)) == ls
  {
    SplitJoin(ls, '\n');
  }

  /** Joining two non-empty runs of pieces puts one separator between them. */
  lemma {:induction false} JoinConcat(a: seq<string>, b: seq<string>, sep: char)
    requires a != [] && b != []
    ensures Join(a + b, sep) == Join(a, sep) + [sep] + Join(b, sep)
    decreases |a|
  {
    if |a| == 1 {
      assert (a + b)[1..] == b;
    } else {
      assert (a + b)[1..] == a[1..] + b;
      JoinConcat(a[1..], b, sep);
    }
  }

  /** The two halves of a concatenation. */
  lemma ConcatParts(a: string, b: string)
    ensures StartsWith(a + b, a) && (a + b)[|a|..] == b
  {
    assert (a + b)[..|a|] == a;
  }
}
