/** Refresh: the one global replacement of the `arTokenConfigRegexp` pattern
    `machine (.*go.pkg.dev)\nlogin oauth2accesstoken\npassword (.*)`, stated
    over the lines of the file. `.` never matches a newline, so a match covers
    three consecutive lines L1, L2, L3: L1 holds `machine ` followed by a host
    that runs to the end of the line and ends in `go?pkg?dev` (the dots are
    unescaped, so each stands for any non-newline character), L2 is exactly
    `login oauth2accesstoken`, and L3 begins with `password `. The replacement
    writes L1 and L2 back unchanged and L3 as `password ` plus the token.
    Matches are found left to right and never overlap. */
module Refresh {
  import opened Text
  import opened Stanza

  const MachinePrefix := "machine "
  const LoginLine := "login oauth2accesstoken"
  const PasswordPrefix := "password "

  /** The last ten characters of a matched host: `go.pkg.dev` with wildcard dots. */
  predicate DomainSuffix(t: string) {
    && |t| == 10
    && t[0] == 'g' && t[1] == 'o' && t[2] != '\n'
    && t[3] == 'p' && t[4] == 'k' && t[5] == 'g' && t[6] != '\n'
    && t[7] == 'd' && t[8] == 'e' && t[9] == 'v'
  }

  /** A host the pattern's first group accepts. */
  predicate ServiceHost(h: string) {
    |h| >= 10 && DomainSuffix(h[|h| - 10..])
  }

  /** L1: `machine ` followed by at least ten characters that end the line in the domain pattern. */
  predicate MachineLine(l: string) {
    |l| >= 18 && DomainSuffix(l[|l| - 10..]) && Contains(l[..|l| - 10], MachinePrefix)
  }

  /** Lines k, k+1, k+2 form a token stanza the pattern matches. */
  predicate StanzaAt(ls: seq<string>, k: nat) {
    k + 2 < |ls| && MachineLine(ls[k]) && ls[k + 1] == LoginLine && StartsWith(ls[k + 2], PasswordPrefix)
  }

  /** Reference definition of the matches ReplaceAllString takes, read backwards:
      the stanza at k is replaced unless the match two lines earlier was taken
      (an overlap one line earlier is impossible, since a login line never
      holds `machine `). */
  ghost predicate Replaced(ls: seq<string>, k: nat)
    decreases k
  {
    StanzaAt(ls, k) && !(k >= 2 && Replaced(ls, k - 2))
  }

  /** The lines after the replacement, by the reference definition. */
  ghost function Swept(ls: seq<string>, token: string): seq<string> {
    seq(|ls|, i requires 0 <= i < |ls| => if i >= 2 && Replaced(ls, i - 2) then PasswordPrefix + token else ls[i])
  }

  /** The left-to-right scan of ReplaceAllString over the lines. */
  function RefreshLines(ls: seq<string>, token: string): seq<string>
    decreases |ls|
  {
    if StanzaAt(ls, 0) then ls[..2] + [PasswordPrefix + token] + RefreshLines(ls[3..], token)
    else if ls == [] then []
    else [ls[0]] + RefreshLines(ls[1..], token)
  }

  /** Refresh(netrc, token). A `$` in the token would be expanded by
      ReplaceAllString as a group reference, which the model leaves out. */
  function Refresh(netrc: string, token: string): (r: string)
    requires '$' !in token
    ensures r == Unlines(Swept(Lines(netrc), token))
  {
    RefreshLinesSwept(Lines(netrc), token);
    Unlines(RefreshLines(Lines(netrc), token))
  }

  /** The first capture group: the text after the first `machine ` that leaves room for the domain. */
  function MatchHost(l: string): string
    requires MachineLine(l)
  {
    l[IndexOf(l[..|l| - 10], MachinePrefix) + |MachinePrefix|..]
  }

  /** The (host, password) capture groups of every match, in file order. */
  function Matches(ls: seq<string>): seq<(string, string)>
    decreases |ls|
  {
    if StanzaAt(ls, 0) then [(MatchHost(ls[0]), ls[2][|PasswordPrefix|..])] + Matches(ls[3..])
    else if ls == [] then []
    else Matches(ls[1..])
  }

  // ---------------------------------------------------------------------
  // Lines that can never take more than one role

  lemma LoginIsNotPassword(l: string)
    requires l == LoginLine
    ensures !StartsWith(l, PasswordPrefix)
  {
    assert l[0] != PasswordPrefix[0];
  }

  lemma MachineIsNotPassword(l: string)
    requires StartsWith(l, MachinePrefix)
    ensures !StartsWith(l, PasswordPrefix) && l != LoginLine
  {
    assert l[0] == 'm';
  }

  lemma MachineLineOfHost(h: string)
    ensures MachineLine(MachinePrefix + h) <==> ServiceHost(h)
    ensures ServiceHost(h) ==> MatchHost(MachinePrefix + h) == h
  {
    var l := MachinePrefix + h;
    if |h| >= 10 {
      assert l[|l| - 10..] == h[|h| - 10..];
      assert StartsWith(l[..|l| - 10], MachinePrefix) by {
        assert l[..|l| - 10][..8] == MachinePrefix;
      }
      if ServiceHost(h) {
        assert IndexOf(l[..|l| - 10], MachinePrefix) == 0;
        assert l[8..] == h;
      }
    }
  }

  lemma LoginLinesAreNotMachineLines()
    ensures !MachineLine("login " + TokenLogin) && !MachineLine("login " + KeyLogin)
  {
    var a, b := "login " + TokenLogin, "login " + KeyLogin;
    assert a[|a| - 10..][0] == a[13] == 'c';
    assert b[|b| - 10..][0] == b[12] == 'k';
  }

  // ---------------------------------------------------------------------
  // The scan agrees with the reference definition

  lemma {:induction false} StanzaAtShift(ls: seq<string>, d: nat, k: nat)
    requires d <= |ls| && k >= d
    ensures StanzaAt(ls, k) == StanzaAt(ls[d..], k - d)
  {
    if k + 2 < |ls| {
      assert ls[d..][k - d] == ls[k] && ls[d..][k - d + 1] == ls[k + 1] && ls[d..][k - d + 2] == ls[k + 2];
    }
  }

  lemma {:induction false} ReplacedAfterSkip(ls: seq<string>, k: nat)
    requires ls != [] && !StanzaAt(ls, 0) && k >= 1
    ensures Replaced(ls, k) == Replaced(ls[1..], k - 1)
    decreases k
  {
    StanzaAtShift(ls, 1, k);
    if k >= 3 {
      ReplacedAfterSkip(ls, k - 2);
    }
  }

  lemma {:induction false} ReplacedAfterMatch(ls: seq<string>, k: nat)
    requires StanzaAt(ls, 0) && k >= 3
    ensures Replaced(ls, k) == Replaced(ls[3..], k - 3)
    decreases k
  {
    StanzaAtShift(ls, 3, k);
    if k >= 5 {
      ReplacedAfterMatch(ls, k - 2);
    } else {
      NoReplacementInsideMatch(ls);
    }
  }

  /** Lines 1 and 2 of a taken match cannot start another match. */
  lemma NoReplacementInsideMatch(ls: seq<string>)
    requires StanzaAt(ls, 0)
    ensures !Replaced(ls, 1) && !Replaced(ls, 2)
  {
    LoginIsNotPassword(ls[1]);
    assert !StanzaAt(ls, 1);
  }

  /** The reference lines after a match at line 0: its password replaced, the rest swept alone. */
  lemma SweptAfterMatch(ls: seq<string>, token: string)
    requires StanzaAt(ls, 0)
    ensures Swept(ls, token) == ls[..2] + [PasswordPrefix + token] + Swept(ls[3..], token)
  {
    var w, v := Swept(ls, token), ls[..2] + [PasswordPrefix + token] + Swept(ls[3..], token);
    NoReplacementInsideMatch(ls);
    forall i | 0 <= i < |ls|
      ensures w[i] == v[i]
    {
      if i >= 5 {
        ReplacedAfterMatch(ls, i - 2);
      }
    }
  }

  /** The reference lines when line 0 starts no match: line 0 kept, the rest swept alone. */
  lemma SweptAfterSkip(ls: seq<string>, token: string)
    requires ls != [] && !StanzaAt(ls, 0)
    ensures Swept(ls, token) == [ls[0]] + Swept(ls[1..], token)
  {
    var w, v := Swept(ls, token), [ls[0]] + Swept(ls[1..], token);
    forall i | 0 <= i < |ls|
      ensures w[i] == v[i]
    {
      if i >= 3 {
        ReplacedAfterSkip(ls, i - 2);
      }
    }
  }

  lemma {:induction false} RefreshLinesSwept(ls: seq<string>, token: string)
    ensures RefreshLines(ls, token) == Swept(ls, token)
    decreases |ls|
  {
    if StanzaAt(ls, 0) {
      RefreshLinesSwept(ls[3..], token);
      SweptAfterMatch(ls, token);
    } else if ls != [] {
      RefreshLinesSwept(ls[1..], token);
      SweptAfterSkip(ls, token);
    }
  }

  // ---------------------------------------------------------------------
  // What Refresh promises

  /** A newline-free token keeps the line structure: the output lines are the reference lines. */
  lemma RefreshLinesOfText(netrc: string, token: string)
    requires '$' !in token && NoNewline(token)
    ensures Lines(Refresh(netrc, token)) == Swept(Lines(netrc), token)
    ensures |Lines(Refresh(netrc, token))| == |Lines(netrc)|
  {
    var w := Swept(Lines(netrc), token);
    assert forall i :: 0 <= i < |w| ==> NoNewline(w[i]);
    LinesUnlines(w);
  }

  /** Only the password line of a matched stanza changes, and it becomes `password ` + token. */
  lemma RefreshChangesOnlyPasswords(netrc: string, token: string)
    requires '$' !in token && NoNewline(token)
    ensures |Lines(Refresh(netrc, token))| == |Lines(netrc)|
    ensures forall i :: 0 <= i < |Lines(netrc)| && Lines(Refresh(netrc, token))[i] != Lines(netrc)[i] ==>
              i >= 2 && StanzaAt(Lines(netrc), i - 2) && Lines(Refresh(netrc, token))[i] == PasswordPrefix + token
  {
    RefreshLinesOfText(netrc, token);
  }

  /** Every matched stanza gets the token, unless its machine line is itself the
      password line of the match taken two lines earlier (the matches of
      ReplaceAllString do not overlap). */
  lemma RefreshSetsEveryMatch(netrc: string, token: string)
    requires '$' !in token && NoNewline(token)
    ensures |Lines(Refresh(netrc, token))| == |Lines(netrc)|
    ensures forall k :: 0 <= k < |Lines(netrc)| && StanzaAt(Lines(netrc), k) && !(k >= 2 && Replaced(Lines(netrc), k - 2)) ==>
              Lines(Refresh(netrc, token))[k] == Lines(netrc)[k]
              && Lines(Refresh(netrc, token))[k + 1] == Lines(netrc)[k + 1]
              && Lines(Refresh(netrc, token))[k + 2] == PasswordPrefix + token
  {
    RefreshLinesOfText(netrc, token);
    var ls, out := Lines(netrc), Lines(Refresh(netrc, token));
    forall k | 0 <= k < |ls| && StanzaAt(ls, k) && !(k >= 2 && Replaced(ls, k - 2))
      ensures out[k] == ls[k] && out[k + 1] == ls[k + 1] && out[k + 2] == PasswordPrefix + token
    {
      SweptAtMatch(ls, token, k);
    }
  }

  lemma SweptAtMatch(ls: seq<string>, token: string, k: nat)
    requires StanzaAt(ls, k) && !(k >= 2 && Replaced(ls, k - 2))
    ensures Swept(ls, token)[k] == ls[k] && Swept(ls, token)[k + 1] == ls[k + 1]
    ensures Swept(ls, token)[k + 2] == PasswordPrefix + token
  {
    MatchTaken(ls, k);
    SweptAt(ls, token, k);
    SweptAt(ls, token, k + 1);
    SweptAt(ls, token, k + 2);
  }

  lemma SweptAt(ls: seq<string>, token: string, i: nat)
    requires i < |ls|
    ensures Swept(ls, token)[i] == if i >= 2 && Replaced(ls, i - 2) then PasswordPrefix + token else ls[i]
  {
  }

  /** A stanza whose machine line is no password line is taken, and so are
      neither of the two stanzas just before it. */
  /** A match not overlapped by the one taken two lines earlier is taken, and
      no match is taken on the line just before it. */
  lemma MatchTaken(ls: seq<string>, k: nat)
    requires StanzaAt(ls, k) && !(k >= 2 && Replaced(ls, k - 2))
    ensures Replaced(ls, k) && !(k >= 1 && Replaced(ls, k - 1))
  {
    if k >= 1 {
      NoAdjacentStanzas(ls, k);
    }
  }

  /** A login line is never a machine line, so two matches never start on adjacent lines. */
  lemma NoAdjacentStanzas(ls: seq<string>, k: nat)
    requires k >= 1 && StanzaAt(ls, k)
    ensures !StanzaAt(ls, k - 1)
  {
    if ls[k] == LoginLine {
      LoginLinesAreNotMachineLines();
    }
  }

  /** Without a token stanza the file comes back unchanged. */
  lemma RefreshWithoutStanza(netrc: string, token: string)
    requires '$' !in token
    requires forall k :: 0 <= k < |Lines(netrc)| ==> !StanzaAt(Lines(netrc), k)
    ensures Refresh(netrc, token) == netrc
  {
    var ls := Lines(netrc);
    assert Swept(ls, token) == ls;
    JoinSplit(netrc, '\n');
  }

  /** Applying Refresh twice with the same newline-free token is applying it once. */
  lemma RefreshIdempotent(netrc: string, token: string)
    requires '$' !in token && NoNewline(token)
    ensures Refresh(Refresh(netrc, token), token) == Refresh(netrc, token)
  {
    var ls := Lines(netrc);
    RefreshLinesOfText(netrc, token);
    RefreshLinesSwept(ls, token);
    RefreshLinesIdempotent(ls, token);
  }

  lemma {:induction false} RefreshLinesIdempotent(ls: seq<string>, token: string)
    ensures RefreshLines(RefreshLines(ls, token), token) == RefreshLines(ls, token)
    decreases |ls|
  {
    var r := RefreshLines(ls, token);
    if StanzaAt(ls, 0) {
      RefreshLinesIdempotent(ls[3..], token);
      assert StanzaAt(r, 0) by {
        assert r[..2] == ls[..2] && r[2] == PasswordPrefix + token;
        assert (PasswordPrefix + token)[..|PasswordPrefix|] == PasswordPrefix;
      }
      assert r[3..] == RefreshLines(ls[3..], token);
      assert r[..2] + [PasswordPrefix + token] + r[3..] == r;
    } else if ls != [] {
      RefreshLinesIdempotent(ls[1..], token);
      RefreshLinesSwept(ls[1..], token);
      assert !StanzaAt(r, 0) by {
        if |ls| >= 3 {
          assert r[1] == ls[1] && r[2] == ls[2];
        }
      }
      assert r[1..] == RefreshLines(ls[1..], token);
    }
  }

  /** Refresh keeps every matched host and sets every matched password to the token. */
  lemma {:induction false} RefreshLinesMatches(ls: seq<string>, token: string)
    ensures Matches(RefreshLines(ls, token)) == WithSecret(Matches(ls), token)
    decreases |ls|
  {
    var r := RefreshLines(ls, token);
    if StanzaAt(ls, 0) {
      RefreshLinesMatches(ls[3..], token);
      assert StanzaAt(r, 0) by {
        assert r[..2] == ls[..2] && r[2] == PasswordPrefix + token;
        assert (PasswordPrefix + token)[..|PasswordPrefix|] == PasswordPrefix;
      }
      assert r[3..] == RefreshLines(ls[3..], token);
      assert r[2][|PasswordPrefix|..] == token;
    } else if ls != [] {
      RefreshLinesMatches(ls[1..], token);
      RefreshLinesSwept(ls[1..], token);
      assert !StanzaAt(r, 0) by {
        if |ls| >= 3 {
          assert r[1] == ls[1] && r[2] == ls[2];
        }
      }
      assert r[1..] == RefreshLines(ls[1..], token);
    }
  }

  function WithSecret(ms: seq<(string, string)>, token: string): (r: seq<(string, string)>)
    ensures |r| == |ms| && forall i :: 0 <= i < |ms| ==> r[i] == (ms[i].0, token)
    decreases |ms|
  {
    if ms == [] then [] else [(ms[0].0, token)] + WithSecret(ms[1..], token)
  }

  lemma RefreshMatches(netrc: string, token: string)
    requires '$' !in token && NoNewline(token)
    ensures Matches(Lines(Refresh(netrc, token))) == WithSecret(Matches(Lines(netrc)), token)
  {
    RefreshLinesOfText(netrc, token);
    RefreshLinesSwept(Lines(netrc), token);
    RefreshLinesMatches(Lines(netrc), token);
  }

  /** A stanza whose machine line is not a match, or whose login is not the
      token login, keeps all three lines. */
  lemma RefreshKeepsForeignStanza(netrc: string, token: string, k: nat)
    requires '$' !in token && NoNewline(token)
    requires k + 2 < |Lines(netrc)| && StartsWith(Lines(netrc)[k], MachinePrefix)
    requires Lines(netrc)[k + 1] != LoginLine || !MachineLine(Lines(netrc)[k])
    ensures |Lines(Refresh(netrc, token))| == |Lines(netrc)|
    ensures Lines(Refresh(netrc, token))[k..k + 3] == Lines(netrc)[k..k + 3]
  {
    var ls := Lines(netrc);
    RefreshLinesOfText(netrc, token);
    MachineIsNotPassword(ls[k]);
    assert !StanzaAt(ls, k);
  }

  /** `example.com` is not a host the pattern's first group accepts. */
  lemma ExampleComIsForeign()
    ensures !ServiceHost("example.com")
  {
    var h := "example.com";
    assert h[|h| - 10..][0] == h[1] == 'x';
  }

  // ---------------------------------------------------------------------
  // Round trips through the codec

  /** The four lines of one stanza for a service host hold exactly one match. */
  lemma {:induction false} StanzaMatched(ls: seq<string>, host: string, secret: string)
    requires ServiceHost(host)
    requires ls == [MachinePrefix + host, LoginLine, PasswordPrefix + secret, ""]
    ensures Matches(ls) == [(host, secret)]
  {
    MachineLineOfHost(host);
    assert StanzaAt(ls, 0);
    assert (PasswordPrefix + secret)[|PasswordPrefix|..] == secret;
    assert ls[3..] == [""];
    assert !StanzaAt([""], 0);
    assert Matches([""]) == Matches([]) == [];
  }

  /** A placeholder stanza for a service host is recognised with its host and placeholder secret. */
  lemma {:induction false} PlaceholderMatched(host: string)
    requires NoNewline(host) && ServiceHost(host)
    ensures Matches(Lines(TokenPlaceholder(host))) == [(host, TokenPlaceholderSecret)]
  {
    TokenPlaceholderLines(host);
    PlaceholderPasswordLine();
    StanzaMatched(Lines(TokenPlaceholder(host)), host, TokenPlaceholderSecret);
  }

  /** Refresh turns a placeholder stanza for a service host into a token stanza
      for the same host, which is recognised with that host and the token. */
  lemma {:induction false} PlaceholderRoundTrip(host: string, token: string)
    requires NoNewline(host) && ServiceHost(host) && '$' !in token
    ensures Refresh(TokenPlaceholder(host), token) == Render(Entry(host, OAuthToken, token))
    ensures NoNewline(token) ==> Matches(Lines(Refresh(TokenPlaceholder(host), token))) == [(host, token)]
  {
    var e := Entry(host, OAuthToken, TokenPlaceholderSecret);
    RefreshFile([e], token);
    assert RenderFile([e]) == TokenPlaceholder(host);
    assert RefreshEntries([e], token) == [Entry(host, OAuthToken, token)];
    if NoNewline(token) {
      PlaceholderMatched(host);
      RefreshMatches(TokenPlaceholder(host), token);
    }
  }

  lemma {:induction false} NoStanzaNoMatches(ls: seq<string>)
    requires forall k :: 0 <= k < |ls| ==> !StanzaAt(ls, k)
    ensures Matches(ls) == []
    decreases |ls|
  {
    if ls != [] {
      forall k | 0 <= k < |ls| - 1
        ensures !StanzaAt(ls[1..], k)
      {
        StanzaAtShift(ls, 1, k + 1);
      }
      NoStanzaNoMatches(ls[1..]);
    }
  }

  /** A key stanza is never matched and Refresh leaves it byte for byte. */
  lemma {:induction false} JsonKeyUntouched(host: string, key: string, token: string)
    requires NoNewline(host) && NoNewline(key) && '$' !in token
    ensures Matches(Lines(JsonKeyConfig(host, key))) == []
    ensures Refresh(JsonKeyConfig(host, key), token) == JsonKeyConfig(host, key)
  {
    var ls := Lines(JsonKeyConfig(host, key));
    JsonKeyConfigLines(host, key);
    LoginLinesAreNotMachineLines();
    assert forall k :: 0 <= k < |ls| ==> !StanzaAt(ls, k);
    NoStanzaNoMatches(ls);
    RefreshWithoutStanza(JsonKeyConfig(host, key), token);
  }

  // ---------------------------------------------------------------------
  // The structured reading: on a file of stanzas, Refresh is a map over entries

  /** The entry-wise refresh of one entry: only a token entry for a service host changes. */
  function RefreshEntry(e: Entry, token: string): Entry {
    if e.login == OAuthToken && ServiceHost(e.host) then e.(secret := token) else e
  }

  function RefreshEntries(es: seq<Entry>, token: string): (r: seq<Entry>)
    ensures |r| == |es| && forall i :: 0 <= i < |es| ==> r[i] == RefreshEntry(es[i], token)
    decreases |es|
  {
    if es == [] then [] else [RefreshEntry(es[0], token)] + RefreshEntries(es[1..], token)
  }

  lemma RefreshLinesAfterBlank(rest: seq<string>, token: string)
    ensures RefreshLines([""] + rest, token) == [""] + RefreshLines(rest, token)
  {
    assert !StanzaAt([""] + rest, 0);
    assert ([""] + rest)[1..] == rest;
  }

  lemma RefreshLinesSkip(ls: seq<string>, token: string)
    requires ls != [] && !StanzaAt(ls, 0)
    ensures RefreshLines(ls, token) == [ls[0]] + RefreshLines(ls[1..], token)
  {
  }

  /** One entry's four lines followed by the rest of the file. */
  lemma RefreshEntryLines(e: Entry, rest: seq<string>, token: string)
    requires Clean(e)
    ensures RefreshLines(EntryLines(e) + rest, token) == EntryLines(RefreshEntry(e, token)) + RefreshLines(rest, token)
  {
    MachineLineOfHost(e.host);
    if e.login == OAuthToken && ServiceHost(e.host) {
      RefreshTokenEntryLines(e, rest, token);
    } else {
      RefreshOtherEntryLines(e, rest, token);
    }
  }

  lemma RefreshTokenEntryLines(e: Entry, rest: seq<string>, token: string)
    requires e.login == OAuthToken && MachineLine(MachinePrefix + e.host)
    ensures RefreshLines(EntryLines(e) + rest, token) == EntryLines(e.(secret := token)) + RefreshLines(rest, token)
  {
    var ls := EntryLines(e) + rest;
    assert ls[0] == MachinePrefix + e.host && ls[1] == LoginLine;
    assert ls[2] == PasswordPrefix + e.secret;
    assert StanzaAt(ls, 0);
    assert ls[3..] == [""] + rest;
    RefreshLinesAfterBlank(rest, token);
  }

  lemma RefreshOtherEntryLines(e: Entry, rest: seq<string>, token: string)
    requires e.login != OAuthToken || !MachineLine(MachinePrefix + e.host)
    ensures RefreshLines(EntryLines(e) + rest, token) == EntryLines(e) + RefreshLines(rest, token)
  {
    var ls := EntryLines(e) + rest;
    var blank := [""] + rest;
    LoginLinesAreNotMachineLines();
    var l1 := ls[1..];
    var l2 := l1[1..];
    assert l2 == [ls[2]] + blank;
    assert l2[1..] == blank;
    assert l1[1..] == l2;
    RefreshLinesAfterBlank(rest, token);
    assert !StanzaAt(l2, 0);
    RefreshLinesSkip(l2, token);
    assert !StanzaAt(l1, 0);
    RefreshLinesSkip(l1, token);
    assert ls[0] == MachinePrefix + e.host;
    assert !StanzaAt(ls, 0);
    RefreshLinesSkip(ls, token);
  }

  lemma {:induction false} RefreshFileLines(es: seq<Entry>, token: string)
    requires AllClean(es)
    ensures RefreshLines(FileLines(es), token) == FileLines(RefreshEntries(es, token))
    decreases |es|
  {
    if es != [] {
      RefreshFileLines(es[1..], token);
      RefreshEntryLines(es[0], FileLines(es[1..]), token);
      assert RefreshEntries(es, token)[1..] == RefreshEntries(es[1..], token);
    }
  }

  /** On a well-formed file of stanzas the regex replacement equals the
      entry-by-entry refresh: token entries for service hosts get the token,
      every other entry stays as it was. */
  lemma RefreshFile(es: seq<Entry>, token: string)
    requires AllClean(es) && '$' !in token
    ensures Refresh(RenderFile(es), token) == RenderFile(RefreshEntries(es, token))
  {
    if es == [] {
      assert Lines("") == [""];
    } else {
      RenderFileLines(es);
      RefreshFileLines(es, token);
      RefreshLinesSwept(FileLines(es), token);
      UnlinesFileLines(RefreshEntries(es, token));
    }
  }

  lemma {:induction false} UnlinesFileLines(es: seq<Entry>)
    requires es != []
    ensures Unlines(FileLines(es)) == RenderFile(es)
    decreases |es|
  {
    UnlinesEntryLines(es[0]);
    if |es| > 1 {
      UnlinesFileLines(es[1..]);
      JoinConcat(EntryLines(es[0]), FileLines(es[1..]), '\n');
    } else {
      assert FileLines(es) == EntryLines(es[0]);
    }
  }
}
