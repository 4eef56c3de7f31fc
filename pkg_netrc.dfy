/** AddConfigs of pkg/netrc: for each location, in order, add a stanza for its
    host unless `machine <host>\n` already matches the text; stanzas are
    separated by one newline, and an empty text gets no leading newline. */
module PkgNetrc {
  import opened Results
  import opened Text
  import opened DotRegex
  import opened Stanza
  import opened HostPatterns

  /** The pattern handed to regexp.MatchString for a host. */
  function MachinePattern(h: string): string {
    "machine " + h + "\n"
  }

  /** The text already configures the host, by AddConfigs' test. */
  predicate Present(netrc: string, h: string) {
    Found(netrc, MachinePattern(h))
  }

  /** Every host the locations give is a dot-literal pattern, so the pattern compiles. */
  predicate PlainHosts(locs: seq<string>, p: HostPattern) {
    forall i :: 0 <= i < |locs| ==> Plain(Host(p, locs[i]))
  }

  /** A newline goes before the new stanza only when the text is not empty. */
  function Append(netrc: string, cfg: string): string {
    (if netrc != "" then netrc + "\n" else netrc) + cfg
  }

  /** The loop of AddConfigs over the locations still to do. */
  function AddAll(locs: seq<string>, netrc: string, p: HostPattern, keyPath: string, key: Result<string>): Result<string>
    decreases |locs|
  {
    if locs == [] then Ok(netrc)
    else
      var h := Host(p, locs[0]);
      if Present(netrc, h) then AddAll(locs[1..], netrc, p, keyPath, key)
      else
        match Config(h, keyPath, key)
        case Err(e) => Err(e)
        case Ok(cfg) => AddAll(locs[1..], Append(netrc, cfg), p, keyPath, key)
  }

  /** AddConfigs(locations, netrc, hostPattern, jsonKeyPath), with the result of
      auth.EncodeJsonKey(jsonKeyPath) given as key. */
  method AddConfigs(locations: seq<string>, netrc: string, p: HostPattern, keyPath: string, key: Result<string>)
    returns (r: Result<string>)
    requires PlainHosts(locations, p)
    ensures r == AddAll(locations, netrc, p, keyPath, key)
  {
    var acc := netrc;
    for i := 0 to |locations|
      invariant AddAll(locations, netrc, p, keyPath, key) == AddAll(locations[i..], acc, p, keyPath, key)
    {
      assert locations[i..][0] == locations[i] && locations[i..][1..] == locations[i + 1..];
      var h := Host(p, locations[i]);
      var present := Found(acc, "machine " + h + "\n");
      if present {
        continue;
      }
      var cfg: string;
      if keyPath == "" {
        cfg := TokenPlaceholder(h);
      } else {
        if key.Err? {
          return Err("AddConfigs: " + key.error);
        }
        cfg := JsonKeyConfig(h, key.value);
      }
      if acc != "" {
        acc := acc + "\n";
      }
      acc := acc + cfg;
    }
    return Ok(acc);
  }

  // ----- The shape of the output -----

  /** xs is ys with some elements left out, order kept. */
  predicate Sublist<T(==)>(xs: seq<T>, ys: seq<T>)
    decreases |ys|
  {
    xs == [] || (ys != [] && ((xs[0] == ys[0] && Sublist(xs[1..], ys[1..])) || Sublist(xs, ys[1..])))
  }

  /** The text followed by a stanza file: one newline between, none before a first stanza. */
  function Extend(netrc: string, added: seq<Entry>): string {
    if added == [] then netrc else Append(netrc, RenderFile(added))
  }

  lemma ExtendOne(netrc: string, e: Entry, added: seq<Entry>)
    ensures Extend(Append(netrc, Render(e)), added) == Extend(netrc, [e] + added)
  {
    if added != [] {
      assert ([e] + added)[0] == e && ([e] + added)[1..] == added;
      RenderNotEmpty(e);
    }
  }

  /** On success the input is kept as a prefix and followed by the new stanzas,
      in location order, each after a single newline (none when the input was empty). */
  lemma {:induction false} AddAllShape(locs: seq<string>, netrc: string, p: HostPattern, keyPath: string, keyText: string, out: string)
    requires AddAll(locs, netrc, p, keyPath, Ok(keyText)) == Ok(out)
    ensures exists added :: Sublist(added, Blocks(locs, p, keyPath, keyText)) && out == Extend(netrc, added)
    ensures StartsWith(out, netrc)
    decreases |locs|
  {
    if locs == [] {
      assert Sublist([], Blocks(locs, p, keyPath, keyText));
    } else {
      var h := Host(p, locs[0]);
      var bs := Blocks(locs, p, keyPath, keyText);
      assert bs[1..] == Blocks(locs[1..], p, keyPath, keyText);
      if Present(netrc, h) {
        AddAllShape(locs[1..], netrc, p, keyPath, keyText, out);
        var added :| Sublist(added, bs[1..]) && out == Extend(netrc, added);
        assert Sublist(added, bs);
      } else {
        var e := Block(h, keyPath, keyText);
        ConfigIsBlock(h, keyPath, keyText);
        var next := Append(netrc, Render(e));
        AddAllShape(locs[1..], next, p, keyPath, keyText, out);
        var added :| Sublist(added, bs[1..]) && out == Extend(next, added);
        ExtendOne(netrc, e, added);
        assert ([e] + added)[0] == bs[0] && ([e] + added)[1..] == added;
        assert Sublist([e] + added, bs);
        assert StartsWith(next, netrc);
      }
    }
  }

  /** Line by line: the input's lines (none for an empty input), then four per new stanza. */
  lemma ExtendLines(netrc: string, added: seq<Entry>)
    requires added != [] && AllClean(added)
    ensures Lines(Extend(netrc, added)) == (if netrc == "" then [] else Lines(netrc)) + FileLines(added)
  {
    RenderFileLines(added);
    if netrc != "" {
      assert Extend(netrc, added) == netrc + "\n" + RenderFile(added);
      SplitConcat(netrc, RenderFile(added), '\n');
    } else {
      assert Extend(netrc, added) == RenderFile(added);
    }
  }

  // ----- Presence of the hosts -----

  lemma PresentExtend(netrc: string, h: string, cfg: string)
    requires Present(netrc, h)
    ensures Present(Append(netrc, cfg), h)
  {
    var a := if netrc != "" then netrc + "\n" else netrc;
    FoundExtend(netrc, if netrc != "" then "\n" + cfg else cfg, MachinePattern(h));
    assert Append(netrc, cfg) == netrc + (if netrc != "" then "\n" + cfg else cfg);
  }

  lemma PresentAfterAdding(netrc: string, h: string, keyPath: string, keyText: string)
    ensures Present(Append(netrc, Render(Block(h, keyPath, keyText))), h)
  {
    var e := Block(h, keyPath, keyText);
    var rest := "login " + LoginName(e.login) + "\npassword " + e.secret + "\n";
    assert Render(e) == MachinePattern(h) + rest;
    MatchesItself(MachinePattern(h), rest);
    FoundAfter(if netrc != "" then netrc + "\n" else netrc, Render(e), MachinePattern(h));
  }

  /** A host is absent when no line of the text but the last ends in `machine <host>`. */
  lemma AbsentByLines(netrc: string, h: string)
    requires NoNewline(h)
    requires forall k :: 0 <= k < |Lines(netrc)| - 1 ==> !EndMatch(Lines(netrc)[k], "machine " + h)
    ensures !Present(netrc, h)
  {
    JoinSplit(netrc, '\n');
    NotFoundInLines(Lines(netrc), "machine " + h);
    assert MachinePattern(h) == ("machine " + h) + "\n";
  }

  /** Presence survives the whole run. */
  lemma {:induction false} AddAllKeepsPresent(locs: seq<string>, netrc: string, p: HostPattern, keyPath: string, keyText: string, out: string, h: string)
    requires AddAll(locs, netrc, p, keyPath, Ok(keyText)) == Ok(out)
    requires Present(netrc, h)
    ensures Present(out, h)
    decreases |locs|
  {
    if locs != [] {
      var h0 := Host(p, locs[0]);
      if !Present(netrc, h0) {
        var cfg := Render(Block(h0, keyPath, keyText));
        PresentExtend(netrc, h, cfg);
        AddAllKeepsPresent(locs[1..], Append(netrc, cfg), p, keyPath, keyText, out, h);
      } else {
        AddAllKeepsPresent(locs[1..], netrc, p, keyPath, keyText, out, h);
      }
    }
  }

  /** After a successful run every location's host is configured. */
  lemma {:induction false} AddAllCovers(locs: seq<string>, netrc: string, p: HostPattern, keyPath: string, keyText: string, out: string)
    requires AddAll(locs, netrc, p, keyPath, Ok(keyText)) == Ok(out)
    ensures forall i :: 0 <= i < |locs| ==> Present(out, Host(p, locs[i]))
    decreases |locs|
  {
    if locs != [] {
      var h0 := Host(p, locs[0]);
      var next := if Present(netrc, h0) then netrc else Append(netrc, Render(Block(h0, keyPath, keyText)));
      if !Present(netrc, h0) {
        PresentAfterAdding(netrc, h0, keyPath, keyText);
      }
      AddAllKeepsPresent(locs[1..], next, p, keyPath, keyText, out, h0);
      AddAllCovers(locs[1..], next, p, keyPath, keyText, out);
      forall i | 1 <= i < |locs|
        ensures Present(out, Host(p, locs[i]))
      {
        assert locs[1..][i - 1] == locs[i];
      }
    }
  }

  /** Locations already present are skipped: the rest is processed as if they were absent. */
  lemma {:induction false} AddAllSkipsPresent(a: seq<string>, b: seq<string>, netrc: string, p: HostPattern, keyPath: string, key: Result<string>)
    requires forall i :: 0 <= i < |a| ==> Present(netrc, Host(p, a[i]))
    ensures AddAll(a + b, netrc, p, keyPath, key) == AddAll(b, netrc, p, keyPath, key)
    decreases |a|
  {
    if a == [] {
      assert a + b == b;
    } else {
      assert (a + b)[0] == a[0] && (a + b)[1..] == a[1..] + b;
      forall i | 0 <= i < |a| - 1
        ensures Present(netrc, Host(p, a[1..][i]))
      {
        assert a[1..][i] == a[i + 1];
      }
      AddAllSkipsPresent(a[1..], b, netrc, p, keyPath, key);
    }
  }

  /** Running AddConfigs again with the same locations on its own output changes nothing. */
  lemma AddAllIdempotent(locs: seq<string>, netrc: string, p: HostPattern, keyPath: string, key: Result<string>, out: string)
    requires AddAll(locs, netrc, p, keyPath, key) == Ok(out)
    ensures AddAll(locs, out, p, keyPath, key) == Ok(out)
  {
    var keyText := if key.Ok? then key.value else "";
    if keyPath != "" && key.Err? {
      AddAllKeyFailure(locs, netrc, p, keyPath, key);
      AddAllSkipsPresent(locs, [], netrc, p, keyPath, key);
      assert locs + [] == locs;
    } else {
      AddAllKeyIrrelevant(locs, netrc, p, keyPath, key, Ok(keyText));
      AddAllCovers(locs, netrc, p, keyPath, keyText, out);
      AddAllSkipsPresent(locs, [], out, p, keyPath, key);
      assert locs + [] == locs;
    }
  }

  // ----- The key -----

  /** Without a key path the key is never read. */
  lemma {:induction false} AddAllKeyIrrelevant(locs: seq<string>, netrc: string, p: HostPattern, keyPath: string, key1: Result<string>, key2: Result<string>)
    requires keyPath == "" || key1 == key2
    ensures AddAll(locs, netrc, p, keyPath, key1) == AddAll(locs, netrc, p, keyPath, key2)
    decreases |locs|
  {
    if locs != [] {
      var h := Host(p, locs[0]);
      AddAllKeyIrrelevant(locs[1..], netrc, p, keyPath, key1, key2);
      if !Present(netrc, h) && Config(h, keyPath, key1).Ok? {
        AddAllKeyIrrelevant(locs[1..], Append(netrc, Config(h, keyPath, key1).value), p, keyPath, key1, key2);
      }
    }
  }

  /** With a key path and an unreadable key, AddConfigs fails exactly when some
      location is not yet present; otherwise it returns the text unchanged. */
  lemma {:induction false} AddAllKeyFailure(locs: seq<string>, netrc: string, p: HostPattern, keyPath: string, key: Result<string>)
    requires keyPath != "" && key.Err?
    ensures AddAll(locs, netrc, p, keyPath, key) ==
      if forall i :: 0 <= i < |locs| ==> Present(netrc, Host(p, locs[i])) then Ok(netrc)
      else Err("AddConfigs: " + key.error)
    decreases |locs|
  {
    if locs != [] {
      AddAllKeyFailure(locs[1..], netrc, p, keyPath, key);
      if Present(netrc, Host(p, locs[0])) {
        forall i | 1 <= i < |locs|
          ensures locs[1..][i - 1] == locs[i]
        {
        }
        assert (forall i :: 0 <= i < |locs| ==> Present(netrc, Host(p, locs[i]))) <==>
          (forall i :: 0 <= i < |locs| - 1 ==> Present(netrc, Host(p, locs[1..][i])));
      }
    }
  }

  /** A readable key, or none needed, means AddConfigs succeeds. */
  lemma {:induction false} AddAllSucceeds(locs: seq<string>, netrc: string, p: HostPattern, keyPath: string, key: Result<string>)
    requires keyPath == "" || key.Ok?
    ensures AddAll(locs, netrc, p, keyPath, key).Ok?
    decreases |locs|
  {
    if locs != [] {
      var h := Host(p, locs[0]);
      AddAllSucceeds(locs[1..], netrc, p, keyPath, key);
      if !Present(netrc, h) {
        AddAllSucceeds(locs[1..], Append(netrc, Config(h, keyPath, key).value), p, keyPath, key);
      }
    }
  }
}
