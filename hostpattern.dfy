/** A host pattern is a `fmt.Sprintf` format with exactly one `%s` verb and
    no other `%`: text before the verb, the location, text after it. */
module HostPatterns {
  import opened Results

  datatype HostPattern = HostPattern(prefix: string, suffix: string)

  /** Neither side holds a `%`, so the format has no verb but the one `%s`. */
  predicate Valid(p: HostPattern) {
    '%' !in p.prefix && '%' !in p.suffix
  }

  /** The format string the pattern stands for. */
  function Template(p: HostPattern): string {
    p.prefix + "%s" + p.suffix
  }

  /** fmt.Sprintf(hostPattern, l) */
  function Host(p: HostPattern, l: string): string {
    p.prefix + l + p.suffix
  }

  /** "%s-go.pkg.dev", the default of both command-line tools. */
  const Default := HostPattern("", "-go.pkg.dev")

  /** strings.Count(s, "%s"): occurrences of `%s`, which never overlap. */
  function CountVerbs(s: string): nat
    decreases |s|
  {
    if |s| < 2 then 0
    else if s[0] == '%' && s[1] == 's' then 1 + CountVerbs(s[2..])
    else CountVerbs(s[1..])
  }

  /** Index of the first `%`. */
  function FirstPercent(s: string): (i: nat)
    requires '%' in s
    ensures i < |s| && s[i] == '%' && '%' !in s[..i]
    decreases |s|
  {
    if s[0] == '%' then 0
    else
      assert s[1..][..FirstPercent(s[1..])] == s[1..FirstPercent(s[1..]) + 1];
      1 + FirstPercent(s[1..])
  }

  /** Splits a format string at its only verb; None when it is not such a format. */
  function Parse(s: string): (r: Option<HostPattern>)
    ensures r.Some? ==> Valid(r.value) && Template(r.value) == s
  {
    if '%' !in s then None
    else
      var i := FirstPercent(s);
      if i + 1 < |s| && s[i + 1] == 's' && '%' !in s[i + 2..] then
        assert s == s[..i] + "%s" + s[i + 2..];
        Some(HostPattern(s[..i], s[i + 2..]))
      else
        None
  }

  /** Where the parts of a valid pattern sit in its format string. */
  lemma TemplateParts(p: HostPattern)
    requires Valid(p)
    ensures '%' in Template(p) && FirstPercent(Template(p)) == |p.prefix|
    ensures Template(p)[|p.prefix| + 1] == 's'
    ensures Template(p)[..|p.prefix|] == p.prefix && Template(p)[|p.prefix| + 2..] == p.suffix
  {
    var s := Template(p);
    assert s[|p.prefix|] == '%';
    assert s[..|p.prefix|] == p.prefix;
    var i := FirstPercent(s);
    NoneBefore(s, i);
    NoneBefore(s, |p.prefix|);
  }

  lemma NoneBefore(s: string, i: nat)
    requires i <= |s| && '%' !in s[..i]
    ensures forall j :: 0 <= j < i ==> s[j] != '%'
  {
    forall j | 0 <= j < i
      ensures s[j] != '%'
    {
      assert s[..i][j] == s[j];
    }
  }

  lemma {:induction false} CountWithoutPercent(s: string)
    requires '%' !in s
    ensures CountVerbs(s) == 0
    decreases |s|
  {
    if |s| >= 2 {
      assert s[1..][0] == s[1];
      CountWithoutPercent(s[1..]);
    }
  }

  lemma {:induction false} CountAfterPlainText(a: string, b: string)
    requires '%' !in a
    ensures CountVerbs(a + b) == CountVerbs(b)
    decreases |a|
  {
    if a != [] {
      assert (a + b)[1..] == a[1..] + b;
      if |a + b| >= 2 {
        assert (a + b)[0] == a[0];
      }
      CountAfterPlainText(a[1..], b);
    } else {
      assert a + b == b;
    }
  }

  /** A valid pattern passes the `strings.Count(hostPattern, "%s") != 1` guard of the auth tool. */
  lemma TemplateHasOneVerb(p: HostPattern)
    requires Valid(p)
    ensures CountVerbs(Template(p)) == 1
  {
    var s := "%s" + p.suffix;
    assert Template(p) == p.prefix + s;
    CountAfterPlainText(p.prefix, s);
    assert s[2..] == p.suffix;
    CountWithoutPercent(p.suffix);
  }

  /** Parsing undoes Template: with the ensures of Parse, Parse(s) == Some(p)
      exactly when p is valid and s == Template(p). */
  lemma ParseTemplate(p: HostPattern)
    requires Valid(p)
    ensures Parse(Template(p)) == Some(p)
  {
    TemplateParts(p);
  }

  /** Different locations give different hosts under one pattern. */
  lemma HostInjective(p: HostPattern, l1: string, l2: string)
    requires Host(p, l1) == Host(p, l2)
    ensures l1 == l2
  {
    var h := Host(p, l1);
    assert h[|p.prefix|..|h| - |p.suffix|] == l1;
    assert Host(p, l2)[|p.prefix|..|h| - |p.suffix|] == l2;
  }

  /** The default pattern parses from the tools' default flag value. */
  lemma DefaultParses()
    ensures Parse("%s-go.pkg.dev") == Some(Default)
  {
    assert Template(Default) == "%s-go.pkg.dev";
    ParseTemplate(Default);
  }
}
