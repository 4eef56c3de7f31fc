/** Where internal AddConfigs and the expectations of internal/netrc/netrc_test.go
    part ways: the tests expect the pkg/netrc behaviour (no newline before the
    first stanza of an empty file, no stanza for a host already present), which
    the pkg model meets (PkgNetrcExamples) and the internal model does not. */
module InternalNetrcExamples {
  import opened Results
  import opened Stanza
  import opened HostPatterns
  import opened PkgNetrc
  import opened PkgNetrcExamples
  import opened InternalNetrc

  /** Regrouping a concatenation, kept separate so that the example proofs
      below stay small. */
  lemma Associate(a: string, b: string, c: string)
    ensures a + (b + c) == a + b + c
  {
  }

  lemma OneBlock(l: string, p: HostPattern, keyText: string)
    ensures Appended(Blocks([l], p, "", keyText)) == "\n" + TokenPlaceholder(Host(p, l))
  {
    var bs := Blocks([l], p, "", keyText);
    assert bs[1..] == [];
    assert Appended(bs) == "\n" + Render(bs[0]) + "";
  }

  lemma TwoBlocks(l1: string, l2: string, p: HostPattern, keyText: string)
    ensures Appended(Blocks([l1, l2], p, "", keyText)) == "\n" + TokenPlaceholder(Host(p, l1)) + "\n" + TokenPlaceholder(Host(p, l2))
  {
    var bs := Blocks([l1, l2], p, "", keyText);
    var rest := bs[1..];
    assert rest[1..] == [];
    assert Appended(rest) == "\n" + TokenPlaceholder(Host(p, l2)) + "";
    assert Appended(bs) == "\n" + TokenPlaceholder(Host(p, l1)) + Appended(rest);
    Associate("\n" + TokenPlaceholder(Host(p, l1)), "\n", TokenPlaceholder(Host(p, l2)));
  }

  /** "add the first location": on an empty file the internal version writes a
      leading newline, so its text is not the expected one. */
  lemma InternalFirstLocation(key: Result<string>)
    ensures AddedAlways(["us-west1"], "", Default, "", key) == Ok("\n" + "machine us-west1-go.pkg.dev" + TokenTail)
    ensures AddedAlways(["us-west1"], "", Default, "", key) != AddAll(["us-west1"], "", Default, "", key)
  {
    OneBlock("us-west1", Default, KeyText(key));
    UsLiterals();
    assert "" + ("\n" + TokenPlaceholder(UsHost)) == "\n" + TokenPlaceholder(UsHost);
    UsPlaceholderText();
    Associate("\n", "machine us-west1-go.pkg.dev", TokenTail);
    AddFirstLocation(key);
    assert ("\n" + "machine us-west1-go.pkg.dev" + TokenTail)[0] != ("machine us-west1-go.pkg.dev" + TokenTail)[0];
  }

  /** "skip existing configs": the internal version appends a second us-west1
      stanza, so its text is longer than the expected one. */
  lemma InternalSkipExisting(key: Result<string>)
    ensures AddedAlways(["us-west1", "europe-east1"], Edited(UsHost), Default, "", key) ==
      Ok(Edited(UsHost) + "\n" + TokenPlaceholder(UsHost) + "\n" + TokenPlaceholder(EuHost))
    ensures AddedAlways(["us-west1", "europe-east1"], Edited(UsHost), Default, "", key) !=
      AddAll(["us-west1", "europe-east1"], Edited(UsHost), Default, "", key)
  {
    UsLiterals();
    EuLiterals();
    TwoBlocks("us-west1", "europe-east1", Default, KeyText(key));
    Associate(Edited(UsHost), "\n" + TokenPlaceholder(UsHost) + "\n", TokenPlaceholder(EuHost));
    Associate(Edited(UsHost), "\n" + TokenPlaceholder(UsHost), "\n");
    Associate(Edited(UsHost), "\n", TokenPlaceholder(UsHost));
    SkipExisting(key);
    EuPlaceholderText();
    var expected := Edited(UsHost) + "\n" + "machine europe-east1-go.pkg.dev" + TokenTail;
    assert |expected| == |Edited(UsHost)| + 1 + |TokenPlaceholder(EuHost)|;
  }

  /** "json key does not exist": both versions fail with the key error. */
  lemma InternalMissingKey(e: string)
    ensures AddedAlways(["us-west1"], "", Default, "testdata/not-a-key.json", Err(e)) == Err("AddConfigs: " + e)
  {
  }

  /** "add locations to existing config": here the two versions agree. */
  lemma InternalAddToExisting(key: Result<string>)
    ensures AddedAlways(["us-west1", "europe-east1"], Edited(AsiaHost), Default, "", key) ==
      AddAll(["us-west1", "europe-east1"], Edited(AsiaHost), Default, "", key)
  {
    UsLiterals();
    EuLiterals();
    TwoBlocks("us-west1", "europe-east1", Default, KeyText(key));
    AddToExisting(key);
    var e, us, eu := Edited(AsiaHost), TokenPlaceholder(UsHost), TokenPlaceholder(EuHost);
    AppendUsEu(e);
    assert e != "";
    assert Append(Append(e, us), eu) == e + "\n" + us + "\n" + eu;
    Associate(e, "\n" + us + "\n", eu);
    Associate(e, "\n" + us, "\n");
    Associate(e, "\n", us);
  }
}
