/** The AddConfigs cases of pkg/netrc/netrc_test.go, each proved about the model.
    The general lemmas first; each case then instantiates them with its hosts. */
module PkgNetrcExamples {
  import opened Results
  import opened Text
  import opened DotRegex
  import opened Stanza
  import opened HostPatterns
  import opened PkgNetrc

  const TokenTail := "\nlogin oauth2accesstoken\npassword <oauth2accesstoken>\n"

  /** The hand-edited stanza of the existing-file cases, its placeholder missing the '>'. */
  function Edited(h: string): string {
    Render(Entry(h, OAuthToken, "<oauth2accesstoken"))
  }

  lemma NothingInEmpty(h: string)
    ensures !Present("", h)
  {
  }

  /** One location that is not present yet. */
  lemma AddOneFresh(l: string, netrc: string, p: HostPattern, keyPath: string, key: Result<string>)
    requires !Present(netrc, Host(p, l))
    ensures var c := Config(Host(p, l), keyPath, key);
      AddAll([l], netrc, p, keyPath, key) == if c.Err? then c else Ok(Append(netrc, c.value))
  {
    assert [l][0] == l && [l][1..] == [];
  }

  /** Two token locations, the second checked against the text the first produced. */
  lemma AddTwo(l1: string, l2: string, netrc: string, p: HostPattern, key: Result<string>, mid: string)
    requires mid == (if Present(netrc, Host(p, l1)) then netrc else Append(netrc, TokenPlaceholder(Host(p, l1))))
    requires !Present(mid, Host(p, l2))
    ensures AddAll([l1, l2], netrc, p, "", key) == Ok(Append(mid, TokenPlaceholder(Host(p, l2))))
  {
    var locs := [l1, l2];
    assert locs[0] == l1 && locs[1..] == [l2];
    assert AddAll(locs, netrc, p, "", key) == AddAll([l2], mid, p, "", key);
    AddOneFresh(l2, mid, p, "", key);
  }

  /** A placeholder stanza for a shorter host holds no line ending in `machine <h>`. */
  lemma PlaceholderAbsent(h: string, other: string)
    requires NoNewline(h) && NoNewline(other)
    requires |h| > 20 && |other| < |h|
    ensures !Present(TokenPlaceholder(other), h)
  {
    TokenPlaceholderLines(other);
    AbsentByLines(TokenPlaceholder(other), h);
  }

  lemma EditedLinesDoNotEndIn(h0: string, h: string)
    requires !EndMatch("machine " + h0, "machine " + h)
    requires !EndMatch("login oauth2accesstoken", "machine " + h)
    requires !EndMatch("password <oauth2accesstoken", "machine " + h)
    ensures forall k :: 0 <= k < 3 ==> !EndMatch(EntryLines(Entry(h0, OAuthToken, "<oauth2accesstoken"))[k], "machine " + h)
  {
    var ls := EntryLines(Entry(h0, OAuthToken, "<oauth2accesstoken"));
    assert ls[1] == "login oauth2accesstoken" by {
      assert "login " + TokenLogin == "login oauth2accesstoken";
    }
    assert ls[2] == "password <oauth2accesstoken" by {
      assert "password " + "<oauth2accesstoken" == "password <oauth2accesstoken";
    }
  }

  /** The edited stanza of h0 does not configure h when none of its lines ends in `machine <h>`. */
  lemma EditedAbsent(h0: string, h: string)
    requires NoNewline(h0) && NoNewline(h)
    requires !EndMatch("machine " + h0, "machine " + h)
    requires !EndMatch("login oauth2accesstoken", "machine " + h)
    requires !EndMatch("password <oauth2accesstoken", "machine " + h)
    ensures !Present(Edited(h0), h)
  {
    var e := Entry(h0, OAuthToken, "<oauth2accesstoken");
    RenderLines(e);
    EditedLinesDoNotEndIn(h0, h);
    AbsentByLines(Render(e), h);
  }

  /** An edited stanza present at the start of the text. */
  lemma EditedPresent(h: string)
    ensures Present(Edited(h), h)
  {
    var rest := "login " + TokenLogin + "\npassword " + "<oauth2accesstoken" + "\n";
    assert Edited(h) == "" + (MachinePattern(h) + rest);
    MatchesItself(MachinePattern(h), rest);
    FoundAfter("", MachinePattern(h) + rest, MachinePattern(h));
  }

  /** An edited stanza followed by a placeholder, both for hosts shorter than h. */
  lemma EditedThenPlaceholderAbsent(h0: string, h1: string, h: string)
    requires NoNewline(h0) && NoNewline(h1) && NoNewline(h)
    requires |h| > 20 && |h0| < |h| && |h1| < |h|
    ensures !Present(Edited(h0) + "\n" + TokenPlaceholder(h1), h)
  {
    var e0 := Entry(h0, OAuthToken, "<oauth2accesstoken");
    var e1 := Entry(h1, OAuthToken, TokenPlaceholderSecret);
    RenderLines(e0);
    RenderLines(e1);
    SplitConcat(Render(e0), Render(e1), '\n');
    AbsentByLines(Edited(h0) + "\n" + TokenPlaceholder(h1), h);
  }

  const UsHost := "us-west1-go.pkg.dev"
  const EuHost := "europe-east1-go.pkg.dev"
  const AsiaHost := "asia-south1-go.pkg.dev"
  const DifferentHost := "us-west1-different-go.pkg.dev"
  const Different := HostPattern("", "-different-go.pkg.dev")

  // The hosts of the test cases and their machine lines, each fact on its own.

  lemma UsLiterals()
    ensures Host(Default, "us-west1") == UsHost && "machine " + UsHost == "machine us-west1-go.pkg.dev"
  {
  }

  lemma EuLiterals()
    ensures Host(Default, "europe-east1") == EuHost && "machine " + EuHost == "machine europe-east1-go.pkg.dev"
  {
  }

  lemma AsiaLiterals()
    ensures "machine " + AsiaHost == "machine asia-south1-go.pkg.dev"
  {
  }


  lemma DifferentHostLiteral()
    ensures Host(Different, "us-west1") == DifferentHost
  {
  }

  lemma DifferentMachineLiteral()
    ensures "machine " + DifferentHost == "machine us-west1-different-go.pkg.dev"
  {
  }

  /** The line lengths alone rule these out: a machine line ends in `machine <h>` only for h itself. */
  lemma AsiaDoesNotEndInUs()
    ensures !EndMatch("machine " + AsiaHost, "machine " + UsHost)
  {
    AsiaLiterals();
    UsLiterals();
    assert !CharMatches(("machine " + UsHost)[0], ("machine " + AsiaHost)[|AsiaHost| - |UsHost|]);
  }

  lemma UsDoesNotEndInEu()
    ensures !EndMatch("machine " + UsHost, "machine " + EuHost)
  {
  }

  /** Lines shorter than `machine <h>` cannot end in it. */
  lemma ShortLinesDoNotEndInMachine(h: string)
    requires |h| >= 19
    ensures !EndMatch("login oauth2accesstoken", "machine " + h)
    ensures !EndMatch("password <oauth2accesstoken", "machine " + h)
  {
    var l := "password <oauth2accesstoken";
    if |h| == 19 {
      assert l[|l| - |"machine " + h|..] == l;
      assert !CharMatches(("machine " + h)[0], l[0]);
    }
  }

  /** One token location added to an empty text. */
  lemma AddToEmpty(l: string, p: HostPattern, key: Result<string>)
    ensures AddAll([l], "", p, "", key) == Ok("machine " + Host(p, l) + TokenTail)
  {
    var h := Host(p, l);
    NothingInEmpty(h);
    AddOneFresh(l, "", p, "", key);
    assert Append("", TokenPlaceholder(h)) == TokenPlaceholder(h);
    TokenPlaceholderText(h);
  }


  /** "add the first location" */
  lemma AddFirstLocation(key: Result<string>)
    ensures AddAll(["us-west1"], "", Default, "", key) == Ok("machine us-west1-go.pkg.dev" + TokenTail)
  {
    AddToEmpty("us-west1", Default, key);
    UsLiterals();
  }

  /** "add the first location with host pattern" */
  lemma AddFirstLocationWithPattern(key: Result<string>)
    ensures AddAll(["us-west1"], "", Different, "", key) == Ok("machine us-west1-different-go.pkg.dev" + TokenTail)
  {
    AddToEmpty("us-west1", Different, key);
    DifferentHostLiteral();
    DifferentMachineLiteral();
  }

  /** "add the first location with json key" */
  lemma AddFirstLocationWithKey(key: string)
    requires key == "ewogICAgInRlc3Qta2V5IjogInRlc3QtdmFsdWUiCn0="
    ensures AddAll(["us-west1"], "", Default, "testdata/key.json", Ok(key)) ==
      Ok("machine us-west1-go.pkg.dev" + "\nlogin _json_key_base64\npassword " + key + "\n")
  {
    UsLiterals();
    NothingInEmpty(UsHost);
    AddOneFresh("us-west1", "", Default, "testdata/key.json", Ok(key));
    assert Append("", JsonKeyConfig(UsHost, key)) == JsonKeyConfig(UsHost, key);
    JsonKeyConfigText(UsHost, key);
  }

  /** "json key does not exist" */
  lemma MissingKey(e: string)
    ensures AddAll(["us-west1"], "", Default, "testdata/not-a-key.json", Err(e)) == Err("AddConfigs: " + e)
  {
    UsLiterals();
    NothingInEmpty(UsHost);
    AddOneFresh("us-west1", "", Default, "testdata/not-a-key.json", Err(e));
  }

  /** "add two locations" */
  lemma AddTwoLocations(key: Result<string>)
    ensures AddAll(["us-west1", "europe-east1"], "", Default, "", key) ==
      Ok("machine us-west1-go.pkg.dev" + TokenTail + "\n" + "machine europe-east1-go.pkg.dev" + TokenTail)
  {
    UsLiterals();
    EuLiterals();
    NothingInEmpty(UsHost);
    assert Append("", TokenPlaceholder(UsHost)) == TokenPlaceholder(UsHost);
    PlaceholderAbsent(EuHost, UsHost);
    AddTwo("us-west1", "europe-east1", "", Default, key, TokenPlaceholder(UsHost));
    AppendUsEu("");
    assert "" + "" + "machine us-west1-go.pkg.dev" == "machine us-west1-go.pkg.dev";
  }

  /** The two default-pattern placeholder stanzas of the test cases, as text. */
  lemma UsPlaceholderText()
    ensures TokenPlaceholder(UsHost) == "machine us-west1-go.pkg.dev" + TokenTail
  {
    UsLiterals();
    TokenPlaceholderText(UsHost);
  }

  lemma EuPlaceholderText()
    ensures TokenPlaceholder(EuHost) == "machine europe-east1-go.pkg.dev" + TokenTail
  {
    EuLiterals();
    TokenPlaceholderText(EuHost);
  }

  lemma AppendUsEu(x: string)
    ensures Append(Append(x, TokenPlaceholder(UsHost)), TokenPlaceholder(EuHost)) ==
      x + (if x != "" then "\n" else "") + "machine us-west1-go.pkg.dev" + TokenTail + "\n" + "machine europe-east1-go.pkg.dev" + TokenTail
  {
    UsPlaceholderText();
    EuPlaceholderText();
    var a := Append(x, TokenPlaceholder(UsHost));
    assert a == x + (if x != "" then "\n" else "") + TokenPlaceholder(UsHost);
    assert Append(a, TokenPlaceholder(EuHost)) == a + "\n" + TokenPlaceholder(EuHost);
    assert a + "\n" + ("machine europe-east1-go.pkg.dev" + TokenTail) == a + "\n" + "machine europe-east1-go.pkg.dev" + TokenTail;
    assert x + (if x != "" then "\n" else "") + ("machine us-west1-go.pkg.dev" + TokenTail) == x + (if x != "" then "\n" else "") + "machine us-west1-go.pkg.dev" + TokenTail;
  }

  /** The us-west1 and europe-east1 hosts are absent from the asia-south1 test file. */
  lemma AbsentFromAsiaFile()
    ensures !Present(Edited(AsiaHost), UsHost)
    ensures !Present(Append(Edited(AsiaHost), TokenPlaceholder(UsHost)), EuHost)
  {
    AsiaDoesNotEndInUs();
    ShortLinesDoNotEndInMachine(UsHost);
    EditedAbsent(AsiaHost, UsHost);
    assert Append(Edited(AsiaHost), TokenPlaceholder(UsHost)) == Edited(AsiaHost) + "\n" + TokenPlaceholder(UsHost);
    EditedThenPlaceholderAbsent(AsiaHost, UsHost, EuHost);
  }

  /** "add locations to existing config" */
  lemma AddToExisting(key: Result<string>)
    ensures AddAll(["us-west1", "europe-east1"], Edited(AsiaHost), Default, "", key) ==
      Ok(Edited(AsiaHost) + "\n" + "machine us-west1-go.pkg.dev" + TokenTail + "\n" + "machine europe-east1-go.pkg.dev" + TokenTail)
  {
    UsLiterals();
    EuLiterals();
    var existing := Edited(AsiaHost);
    AbsentFromAsiaFile();
    AddTwo("us-west1", "europe-east1", existing, Default, key, Append(existing, TokenPlaceholder(UsHost)));
    AppendUsEu(existing);
  }

  /** The us-west1 test file configures us-west1 and not europe-east1. */
  lemma UsFileHosts()
    ensures Present(Edited(UsHost), UsHost)
    ensures !Present(Edited(UsHost), EuHost)
  {
    EditedPresent(UsHost);
    UsDoesNotEndInEu();
    ShortLinesDoNotEndInMachine(EuHost);
    EditedAbsent(UsHost, EuHost);
  }

  lemma AppendEu(x: string)
    requires x != ""
    ensures Append(x, TokenPlaceholder(EuHost)) == x + "\n" + "machine europe-east1-go.pkg.dev" + TokenTail
  {
    EuPlaceholderText();
    assert Append(x, TokenPlaceholder(EuHost)) == x + "\n" + TokenPlaceholder(EuHost);
    assert x + "\n" + ("machine europe-east1-go.pkg.dev" + TokenTail) == x + "\n" + "machine europe-east1-go.pkg.dev" + TokenTail;
  }

  /** "skip existing configs" */
  lemma SkipExisting(key: Result<string>)
    ensures AddAll(["us-west1", "europe-east1"], Edited(UsHost), Default, "", key) ==
      Ok(Edited(UsHost) + "\n" + "machine europe-east1-go.pkg.dev" + TokenTail)
  {
    UsFileHosts();
    UsLiterals();
    EuLiterals();
    var existing := Edited(UsHost);
    AddTwo("us-west1", "europe-east1", existing, Default, key, existing);
    assert |existing| > 0;
    AppendEu(existing);
  }
}
