/** The entry codec: the three-line `machine` / `login` / `password` stanza
    both netrc packages write, and the file made of such stanzas. */
module Stanza {
  import opened Results
  import opened Text
  import opened HostPatterns

  const TokenLogin := "oauth2accesstoken"
  const KeyLogin := "_json_key_base64"
  const TokenPlaceholderSecret := "<oauth2accesstoken>"

  /** The two login names the tools write. */
  datatype Login = OAuthToken | JsonKey

  function LoginName(l: Login): string {
    match l
    case OAuthToken => TokenLogin
    case JsonKey => KeyLogin
  }

  datatype Entry = Entry(host: string, login: Login, secret: string)

  /** Host and secret hold no newline, so the entry is exactly three lines. */
  predicate Clean(e: Entry) {
    NoNewline(e.host) && NoNewline(e.secret)
  }

  /** The shared shape of both format strings. */
  function Render(e: Entry): string {
    "machine " + e.host + "\nlogin " + LoginName(e.login) + "\npassword " + e.secret + "\n"
  }

  /** The lines of a rendered entry, the empty piece after its final newline included. */
  function EntryLines(e: Entry): seq<string> {
    ["machine " + e.host, "login " + LoginName(e.login), "password " + e.secret, ""]
  }

  /** arTokenConfigPlaceholder(host) */
  function TokenPlaceholder(host: string): string {
    Render(Entry(host, OAuthToken, TokenPlaceholderSecret))
  }

  /** arJsonKeyConfig(host, base64key) */
  function JsonKeyConfig(host: string, key: string): string {
    Render(Entry(host, JsonKey, key))
  }

  lemma UnlinesEntryLines(e: Entry)
    ensures Unlines(EntryLines(e)) == Render(e)
  {
    var ls := EntryLines(e);
    assert Unlines(ls[3..]) == "";
    assert Unlines(ls[2..]) == ls[2] + "\n";
    assert Unlines(ls[1..]) == ls[1] + "\n" + ls[2] + "\n";
  }

  /** A rendered entry is exactly three newline-terminated lines. */
  lemma RenderLines(e: Entry)
    requires Clean(e)
    ensures Lines(Render(e)) == EntryLines(e)
  {
    UnlinesEntryLines(e);
    LinesUnlines(EntryLines(e));
  }

  /** A rendered entry is its machine line followed by the rest of the stanza. */
  lemma RenderSplit(e: Entry)
    ensures Render(e) == "machine " + e.host + ("\nlogin " + LoginName(e.login) + "\npassword " + e.secret + "\n")
  {
  }

  lemma TokenTail1()
    ensures "\nlogin " + TokenLogin == "\nlogin oauth2accesstoken"
  {
  }

  lemma TokenTail2()
    ensures "\nlogin oauth2accesstoken" + "\npassword " == "\nlogin oauth2accesstoken\npassword "
  {
  }

  lemma TokenTail3()
    ensures "\nlogin oauth2accesstoken\npassword " + TokenPlaceholderSecret == "\nlogin oauth2accesstoken\npassword <oauth2accesstoken>"
  {
  }

  lemma TokenTail4()
    ensures "\nlogin oauth2accesstoken\npassword <oauth2accesstoken>" + "\n" == "\nlogin oauth2accesstoken\npassword <oauth2accesstoken>\n"
  {
  }

  /** arTokenConfigPlaceholder's text, character for character. */
  lemma TokenPlaceholderText(host: string)
    ensures TokenPlaceholder(host) == "machine " + host + "\nlogin oauth2accesstoken\npassword <oauth2accesstoken>\n"
  {
    RenderSplit(Entry(host, OAuthToken, TokenPlaceholderSecret));
    TokenTail1();
    TokenTail2();
    TokenTail3();
    TokenTail4();
  }

  lemma KeyMiddle1()
    ensures "\nlogin " + KeyLogin == "\nlogin _json_key_base64"
  {
  }

  lemma KeyMiddle2()
    ensures "\nlogin _json_key_base64" + "\npassword " == "\nlogin _json_key_base64\npassword "
  {
  }

  /** arJsonKeyConfig's text, character for character. */
  lemma JsonKeyConfigText(host: string, key: string)
    ensures JsonKeyConfig(host, key) == "machine " + host + "\nlogin _json_key_base64\npassword " + key + "\n"
  {
    RenderSplit(Entry(host, JsonKey, key));
    KeyMiddle1();
    KeyMiddle2();
    var mid := "\nlogin _json_key_base64\npassword ";
    assert "machine " + host + (mid + key + "\n") == "machine " + host + mid + key + "\n";
  }

  lemma TokenLoginLine()
    ensures "login " + TokenLogin == "login oauth2accesstoken"
  {
  }

  lemma PlaceholderPasswordLine()
    ensures "password " + TokenPlaceholderSecret == "password <oauth2accesstoken>"
  {
  }

  lemma KeyLoginLine()
    ensures "login " + KeyLogin == "login _json_key_base64"
  {
  }

  /** arTokenConfigPlaceholder writes the token login and the placeholder secret, one per line. */
  lemma {:induction false} TokenPlaceholderLines(host: string)
    requires NoNewline(host)
    ensures Lines(TokenPlaceholder(host))
         == ["machine " + host, "login oauth2accesstoken", "password <oauth2accesstoken>", ""]
  {
    var e := Entry(host, OAuthToken, TokenPlaceholderSecret);
    RenderLines(e);
    TokenLoginLine();
    PlaceholderPasswordLine();
  }

  /** arJsonKeyConfig writes the key login and the encoded key, one per line. */
  lemma {:induction false} JsonKeyConfigLines(host: string, key: string)
    requires NoNewline(host) && NoNewline(key)
    ensures Lines(JsonKeyConfig(host, key)) == ["machine " + host, "login _json_key_base64", "password " + key, ""]
  {
    RenderLines(Entry(host, JsonKey, key));
    KeyLoginLine();
  }

  /** A file of stanzas separated by one blank line, as AddConfigs writes it. */
  function RenderFile(es: seq<Entry>): string
    decreases |es|
  {
    if es == [] then ""
    else if |es| == 1 then Render(es[0])
    else Render(es[0]) + "\n" + RenderFile(es[1..])
  }

  function FileLines(es: seq<Entry>): seq<string>
    decreases |es|
  {
    if es == [] then [] else EntryLines(es[0]) + FileLines(es[1..])
  }

  predicate AllClean(es: seq<Entry>) {
    forall i :: 0 <= i < |es| ==> Clean(es[i])
  }

  /** The lines of a stanza file are its entries' lines, four per entry. */
  lemma {:induction false} RenderFileLines(es: seq<Entry>)
    requires |es| >= 1 && AllClean(es)
    ensures Lines(RenderFile(es)) == FileLines(es)
    ensures |FileLines(es)| == 4 * |es|
    decreases |es|
  {
    RenderLines(es[0]);
    if |es| > 1 {
      RenderFileLines(es[1..]);
      SplitConcat(Render(es[0]), RenderFile(es[1..]), '\n');
    }
  }

  /** The file form is kept when an entry is appended after one newline. */
  lemma {:induction false} RenderFileAppend(es: seq<Entry>, e: Entry)
    requires es != []
    ensures RenderFile(es + [e]) == RenderFile(es) + "\n" + Render(e)
    decreases |es|
  {
    if |es| > 1 {
      assert (es + [e])[1..] == es[1..] + [e];
      RenderFileAppend(es[1..], e);
    } else {
      assert (es + [e])[1..] == [e];
    }
  }

  lemma RenderNotEmpty(e: Entry)
    ensures Render(e) != ""
  {
  }

  // ---------------------------------------------------------------------
  // The stanza AddConfigs writes for a location (both versions)

  /** The stanza for one host; the secret is read only when a key path is given. */
  function Config(h: string, keyPath: string, key: Result<string>): Result<string> {
    if keyPath == "" then Ok(TokenPlaceholder(h))
    else if key.Err? then Err("AddConfigs: " + key.error)
    else Ok(JsonKeyConfig(h, key.value))
  }

  /** The stanza written for a host, given the key text. */
  function Block(h: string, keyPath: string, keyText: string): Entry {
    if keyPath == "" then Entry(h, OAuthToken, TokenPlaceholderSecret) else Entry(h, JsonKey, keyText)
  }

  /** One stanza per location, in order: what AddConfigs writes when nothing is skipped. */
  function Blocks(locs: seq<string>, p: HostPattern, keyPath: string, keyText: string): (r: seq<Entry>)
    ensures |r| == |locs| && forall i :: 0 <= i < |locs| ==> r[i] == Block(Host(p, locs[i]), keyPath, keyText)
    decreases |locs|
  {
    if locs == [] then [] else [Block(Host(p, locs[0]), keyPath, keyText)] + Blocks(locs[1..], p, keyPath, keyText)
  }

  /** One more location gives one more stanza at the end. */
  lemma BlocksSnoc(locs: seq<string>, i: nat, p: HostPattern, keyPath: string, keyText: string)
    requires i < |locs|
    ensures Blocks(locs[..i + 1], p, keyPath, keyText) == Blocks(locs[..i], p, keyPath, keyText) + [Block(Host(p, locs[i]), keyPath, keyText)]
  {
    var a, b := Blocks(locs[..i + 1], p, keyPath, keyText), Blocks(locs[..i], p, keyPath, keyText);
    assert forall j :: 0 <= j < i ==> locs[..i + 1][j] == locs[..i][j];
    assert a[i] == Block(Host(p, locs[i]), keyPath, keyText);
  }

  lemma ConfigIsBlock(h: string, keyPath: string, keyText: string)
    ensures Config(h, keyPath, Ok(keyText)) == Ok(Render(Block(h, keyPath, keyText)))
  {
  }
}
