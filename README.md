# netrc reconciliation engine of artifact-registry-go-tools, in Dafny

This project models the part of artifact-registry-go-tools that keeps a user's
`.netrc` credential file up to date for Artifact Registry Go endpoints, and
proves properties of that model. It covers three source files.

- `pkg/netrc/netrc.go` and `internal/netrc/netrc.go` are two drifted copies of
  the netrc package. Each copy has:
  - the stanza renderers `arTokenConfigPlaceholder` and `arJsonKeyConfig`;
  - `Refresh`, one global regular-expression replacement that puts a new token
    into every token stanza of an Artifact Registry host;
  - `AddConfigs`, a loop that appends one stanza per location.
  The pkg copy skips a host whose `machine <host>\n` already matches the text.
  It puts a newline before a new stanza only when the text is not empty. The
  internal copy appends a newline and a stanza for every location, always.
  The internal copy also has `Save`, which rotates a `-old` backup and writes
  the file.
- `cmd/goauth/main.go` prints the repository URL of a location and an HTTP
  Basic `Authorization` header for it. The header is `Basic ` followed by the
  base64 encoding of `user:password`, per section 4 of RFC 4648. The model has
  its own verified encoder and decoder for that encoding.

In the netrc packages a Go string is a Dafny `string`. In goauth the header is
built from bytes, so the user name and secret there are `seq<byte>`.

The renderers and `Refresh` of the internal copy are the same text as the pkg
copy: internal/netrc/netrc.go:29-43 and 89-91 repeat pkg/netrc/netrc.go:30-44
and 94-96. They are modelled once, in the `Stanza` and `Refresh` modules, and
both AddConfigs models use them.

Module by module:

- `Text` holds the few `strings` functions the code relies on, and splitting
  a text into lines.
- `HostPatterns` models a host pattern as `prefix + "%s" + suffix`, which is
  what the single-`%s` check at cmd/auth/main.go:83 admits. `fmt.Sprintf` then
  gives `prefix + location + suffix`.
- `Stanza` is the entry codec: a stanza renders as the three lines `machine H`,
  `login L`, `password P`, and a file of stanzas has a blank line between any
  two.
- `Refresh` models the pattern
  `machine (.*go.pkg.dev)\nlogin oauth2accesstoken\npassword (.*)` on lines.
  - `.` never matches a newline, so a match covers three consecutive lines.
  - The first line holds `machine ` and a host ending in `go?pkg?dev`, where
    each `?` is any non-newline character because the dots are unescaped.
  - The second line is exactly `login oauth2accesstoken`.
  - The third line starts with `password `.

  Matches are taken left to right and never overlap. The left-to-right scan
  `RefreshLines` is proved equal to a reference definition read backwards
  (`Replaced`/`Swept`).
- `DotRegex` models `regexp.MatchString` for a pattern made of literal
  characters and `.` wildcards. This is the skip test of pkg AddConfigs.
- `PkgNetrc` and `InternalNetrc` hold the two AddConfigs loops as methods,
  each proved equal to a specification function. `InternalNetrc` also holds
  Save, as a `FileSystem` class whose field maps paths to file contents.
- `Base64` and `GoAuth` model the goauth helpers.
- `PkgNetrcExamples` and `InternalNetrcExamples` prove the AddConfigs cases of
  the two `netrc_test.go` files against the two models.

Three points about the code shape the model:

- **Skip test.** pkg AddConfigs decides whether a host is present with
  `regexp.MatchString` on `machine <host>\n` (pkg/netrc/netrc.go:103). The
  host is not escaped, so a `.` in it matches any character. `DotRegex`
  models exactly this.
- **Duplicate locations.** The internal copy logs that a machine "is already
  in the .netrc file, skipping" (internal/netrc/netrc.go:98-100), but does
  not skip: the stanza is still appended. Its own test
  (internal/netrc/netrc_test.go:83-98) expects the skip. The model follows
  the code; see Findings.
- **Save without a file.** Load treats a missing file as one to be created
  (internal/netrc/netrc.go:58-60), but Save renames the file to its backup
  unconditionally (internal/netrc/netrc.go:79-81), so it fails when there is
  no file yet. The model follows the code; see Findings.

## Model

| member | source | states |
|---|---|---|
| Stanza.TokenPlaceholderText | pkg/netrc/netrc.go:32-37 | the placeholder stanza is exactly `machine H`, `login oauth2accesstoken`, `password <oauth2accesstoken>`, each ended by a newline |
| Stanza.JsonKeyConfigText | pkg/netrc/netrc.go:39-44 | the key stanza is exactly `machine H`, `login _json_key_base64`, `password K`, each ended by a newline |
| Stanza.TokenPlaceholderLines | pkg/netrc/netrc.go:32-37 | for a newline-free host, the placeholder stanza splits into those three lines and the empty piece after the last newline |
| Stanza.JsonKeyConfigLines | pkg/netrc/netrc.go:39-44 | for a newline-free host and key, the key stanza splits into its three lines and an empty piece |
| Stanza.RenderLines | pkg/netrc/netrc.go:32-44 | a stanza with a newline-free host and secret is exactly three lines, and splitting its text gives them back |
| Stanza.UnlinesEntryLines | pkg/netrc/netrc.go:32-44 | joining a stanza's lines with newlines gives its rendered text |
| Stanza.RenderFileLines | pkg/netrc/netrc.go:122-125 | a file of stanzas separated by one newline splits into the stanzas' lines in order, four per stanza |
| Stanza.RenderFileAppend | pkg/netrc/netrc.go:122-125 | appending a newline and a stanza to a stanza file gives the file with that stanza added at the end |
| Stanza.Blocks | pkg/netrc/netrc.go:101-121 | one stanza per location, in location order: the i-th is the stanza for the i-th location's host, token or key kind as the key path selects |
| Stanza.BlocksSnoc | internal/netrc/netrc.go:96-113 | one more location gives one more stanza, at the end |
| Stanza.ConfigIsBlock | pkg/netrc/netrc.go:112-121 | with a readable key, the stanza chosen for a host is the rendering of its entry |
| HostPatterns.Parse | cmd/auth/main.go:83-87 | a format string that parses is valid, and is the template of the pattern it parses to |
| HostPatterns.ParseTemplate | cmd/auth/main.go:83 | parsing the template of a valid pattern gives the pattern back |
| HostPatterns.TemplateHasOneVerb | cmd/auth/main.go:83 | the template of a valid pattern holds exactly one `%s`, so it passes the tool's check |
| HostPatterns.HostInjective | pkg/netrc/netrc.go:102 | under one pattern, different locations give different hosts |
| HostPatterns.DefaultParses | cmd/goauth/main.go:40 | the default `%s-go.pkg.dev` parses to the empty prefix and the suffix `-go.pkg.dev` |
| DotRegex.MatchesItself | pkg/netrc/netrc.go:103 | a dot-literal pattern matches its own text, because `.` matches a dot too |
| DotRegex.FoundAfter | pkg/netrc/netrc.go:103 | a match in a suffix of the text is a match in the text |
| DotRegex.FoundExtend | pkg/netrc/netrc.go:103 | a match is kept when text is appended |
| DotRegex.NotFoundWithoutNewline | pkg/netrc/netrc.go:103 | `machine h\n` never matches in text without a newline |
| DotRegex.FoundInLine | pkg/netrc/netrc.go:103 | a match of `x\n` across a line break ends the first line or lies after it |
| DotRegex.NotFoundInLines | pkg/netrc/netrc.go:103 | `x\n` is not found when no line but the last ends in a match of x |
| Refresh.Refresh | pkg/netrc/netrc.go:94-96 | Refresh's output is the reference sweep of the input's lines: each password line of a match that is taken becomes `password ` + token |
| Refresh.RefreshLinesSwept | pkg/netrc/netrc.go:95 | the left-to-right scan with non-overlapping matches equals the reference definition on every list of lines |
| Refresh.MachineLineOfHost | pkg/netrc/netrc.go:30 | `machine h` is a first line of the pattern exactly when h ends in `go?pkg?dev`, and the first group then captures h |
| Refresh.NoAdjacentStanzas | pkg/netrc/netrc.go:30 | two matches never start on adjacent lines, since a login line is never a machine line |
| Refresh.RefreshLinesOfText | pkg/netrc/netrc.go:95 | with a newline-free token, the output's lines are the reference lines, and there are as many as the input has |
| Refresh.RefreshChangesOnlyPasswords | pkg/netrc/netrc.go:95 | with a newline-free token, the line count is kept, and every changed line is the third line of a match and becomes `password ` + token |
| Refresh.RefreshSetsEveryMatch | pkg/netrc/netrc.go:95 | every match that is not overlapped by the match taken two lines earlier keeps its machine and login lines, and its password line becomes `password ` + token |
| Refresh.SweptAtMatch | pkg/netrc/netrc.go:95 | the same, on the reference lines of one such match |
| Refresh.MatchTaken | pkg/netrc/netrc.go:95 | a match not overlapped by the match taken two lines earlier is taken, and no match is taken on the line just before it |
| Refresh.RefreshWithoutStanza | pkg/netrc/netrc.go:94-96 | a text with no match comes back unchanged |
| Refresh.RefreshIdempotent | pkg/netrc/netrc.go:95 | with a newline-free token, Refresh twice equals Refresh once |
| Refresh.RefreshLinesIdempotent | pkg/netrc/netrc.go:95 | the scan applied to its own output changes nothing |
| Refresh.RefreshLinesMatches | pkg/netrc/netrc.go:30 | after the scan, the matches are the same hosts in the same order, each with the token as its password |
| Refresh.RefreshMatches | pkg/netrc/netrc.go:30 | Refresh keeps every captured host and sets every captured password to the token |
| Refresh.RefreshKeepsForeignStanza | pkg/netrc/netrc_test.go:159-177 | a stanza whose login is not the token login, or whose host is not an Artifact Registry host, keeps its three lines byte for byte |
| Refresh.ExampleComIsForeign | pkg/netrc/netrc_test.go:169-177 | `example.com` is not a host the pattern accepts |
| Refresh.StanzaMatched | pkg/netrc/netrc.go:30 | the lines of one token stanza for an Artifact Registry host hold exactly one match, with that host and secret |
| Refresh.PlaceholderMatched | pkg/netrc/netrc.go:30-37 | a rendered placeholder stanza is matched once, with its host and the placeholder secret |
| Refresh.PlaceholderRoundTrip | pkg/netrc/netrc.go:30-37 | Refresh turns a placeholder stanza into the token stanza for the same host, which is matched with that host and the token |
| Refresh.NoStanzaNoMatches | pkg/netrc/netrc.go:30 | lines where no match starts have no matches |
| Refresh.JsonKeyUntouched | pkg/netrc/netrc_test.go:159-167 | a key stanza is never matched, and Refresh returns it byte for byte |
| Refresh.RefreshEntries | pkg/netrc/netrc.go:94-96 | the entry-wise refresh maps every entry in place: only token entries for Artifact Registry hosts get the new secret |
| Refresh.RefreshEntryLines | pkg/netrc/netrc.go:95 | on one stanza's lines followed by more lines, the scan refreshes that stanza as an entry and goes on with the rest |
| Refresh.RefreshFileLines | pkg/netrc/netrc.go:95 | on the lines of a stanza file, the scan gives the lines of the entry-wise refreshed file |
| Refresh.RefreshFile | pkg/netrc/netrc.go:95 | on a file of stanzas, Refresh equals rendering the entry-wise refreshed entries |
| Refresh.UnlinesFileLines | pkg/netrc/netrc.go:122-125 | joining the lines of a stanza file gives its text |
| PkgNetrc.AddConfigs | pkg/netrc/netrc.go:100-128 | the loop, with its `continue` on a present host and early error return, computes `AddAll` |
| PkgNetrc.AddAllShape | pkg/netrc/netrc.go:122-125 | on success, the output is the input followed by an in-order sublist of the locations' stanzas. The output has a newline before each stanza but not before the first one of an empty input |
| PkgNetrc.ExtendLines | pkg/netrc/netrc.go:122-125 | the output's lines are the input's lines (none for an empty input) followed by four lines per new stanza |
| PkgNetrc.ExtendOne | pkg/netrc/netrc.go:122-125 | appending stanzas one at a time builds the same text as appending them together |
| PkgNetrc.PresentExtend | pkg/netrc/netrc.go:103 | a configured host stays configured when a stanza is appended |
| PkgNetrc.PresentAfterAdding | pkg/netrc/netrc.go:103-125 | after its stanza is appended, a host is configured |
| PkgNetrc.AbsentByLines | pkg/netrc/netrc.go:103 | a host is not configured when no line but the last ends in a match of `machine <host>` |
| PkgNetrc.AddAllKeepsPresent | pkg/netrc/netrc.go:103-110 | a host configured in the input is configured in the output |
| PkgNetrc.AddAllCovers | pkg/netrc/netrc.go:101-126 | after a successful run every location's host is configured |
| PkgNetrc.AddAllSkipsPresent | pkg/netrc/netrc.go:107-110 | locations whose hosts are already configured are skipped, and the later locations are processed as if they were absent |
| PkgNetrc.AddAllIdempotent | pkg/netrc/netrc_test.go:85-100 | running AddConfigs again with the same locations on its own output returns that output unchanged |
| PkgNetrc.AddAllKeyIrrelevant | pkg/netrc/netrc.go:113-114 | without a key path the key is never read: any two key results give the same outcome |
| PkgNetrc.AddAllKeyFailure | pkg/netrc/netrc.go:116-119 | with a key path and an unreadable key, the run fails with `AddConfigs: ` and the key error exactly when some location is not yet configured; otherwise the text comes back unchanged |
| PkgNetrc.AddAllSucceeds | pkg/netrc/netrc.go:100-128 | a readable key, or no key path, means success |
| PkgNetrcExamples.AddFirstLocation | pkg/netrc/netrc_test.go:21-28 | one location on an empty text gives exactly the us-west1 placeholder stanza |
| PkgNetrcExamples.AddFirstLocationWithPattern | pkg/netrc/netrc_test.go:29-37 | the pattern `%s-different-go.pkg.dev` gives the `us-west1-different-go.pkg.dev` stanza |
| PkgNetrcExamples.AddFirstLocationWithKey | pkg/netrc/netrc_test.go:38-46 | a key path with the encoded key gives the key stanza with that key |
| PkgNetrcExamples.MissingKey | pkg/netrc/netrc_test.go:47-52 | an unreadable key gives the `AddConfigs: ` error |
| PkgNetrcExamples.AddTwoLocations | pkg/netrc/netrc_test.go:53-64 | two locations give two placeholder stanzas, in order, with one blank line between them |
| PkgNetrcExamples.AddToExisting | pkg/netrc/netrc_test.go:65-84 | both stanzas are appended after an existing asia-south1 stanza |
| PkgNetrcExamples.SkipExisting | pkg/netrc/netrc_test.go:85-100 | an existing us-west1 stanza is kept and skipped, and only europe-east1 is appended |
| PkgNetrcExamples.AddOneFresh | pkg/netrc/netrc.go:101-126 | one location not yet configured gives its stanza, or the key error |
| PkgNetrcExamples.AddTwo | pkg/netrc/netrc.go:101-126 | the second of two locations is checked against the text the first produced |
| PkgNetrcExamples.EditedPresent | pkg/netrc/netrc.go:103 | a stanza for h configures h |
| PkgNetrcExamples.EditedAbsent | pkg/netrc/netrc.go:103 | an edited stanza does not configure a host that none of its lines ends in |
| PkgNetrcExamples.PlaceholderAbsent | pkg/netrc/netrc.go:103 | for a host longer than 20 characters, a placeholder stanza for a shorter host does not configure it |
| InternalNetrc.AddConfigs | internal/netrc/netrc.go:95-115 | the loop computes `AddedAlways`. It fails with `AddConfigs: ` and the key error at the first location when a key path is given and the key is unreadable. Otherwise it returns the input followed by a newline and a stanza for each location, in order |
| InternalNetrc.AppendedSnoc | internal/netrc/netrc.go:112 | one more stanza appends a newline and that stanza at the end |
| InternalNetrc.AddedOne | internal/netrc/netrc.go:96-113 | one loop step appends a newline and the stanza of the next location |
| InternalNetrc.AppendedIsFile | internal/netrc/netrc.go:112 | the appended text is a newline and then a stanza file |
| InternalNetrc.AppendedLines | internal/netrc/netrc.go:112 | the output's lines are the input's lines followed by four lines per appended stanza |
| InternalNetrc.AddConfigsLines | internal/netrc/netrc.go:98-112 | the `strings.Contains` test never skips: on success, every location, repeated ones included, gets exactly one stanza's four lines, in order |
| InternalNetrc.AppendedSize | internal/netrc/netrc.go:112 | the appended text is one newline plus one stanza long for each location |
| InternalNetrc.AddConfigsExtends | internal/netrc/netrc.go:112 | on success the input is a prefix of the output. The output's length is the input's plus one newline and one stanza per location |
| InternalNetrc.AddConfigsRepeats | internal/netrc/netrc.go:98-112 | run again on its own output with the same locations, AddConfigs makes the text longer again |
| InternalNetrc.BackupDiffers | internal/netrc/netrc.go:70 | the backup path is never the file's path |
| InternalNetrc.SaveFiles | internal/netrc/netrc.go:69-86 | Save succeeds exactly when the file exists. On success, the backup holds the old text and the file holds the new text. On failure, the old backup is gone and nothing is written |
| InternalNetrc.SaveKeepsOthers | internal/netrc/netrc.go:79-85 | a successful Save writes the text, keeps the previous text as the backup and leaves every other path as it was |
| InternalNetrc.SaveTwice | internal/netrc/netrc.go:69-85 | after two saves there is one backup, holding the text the second save replaced |
| InternalNetrc.SaveNeedsFile | internal/netrc/netrc.go:79-81 | on a missing file, Save fails with the rename error and creates neither the file nor a backup |
| InternalNetrc.FileSystem.Save | internal/netrc/netrc.go:69-86 | remove the backup, rename, write: the error and the new filesystem are those of `SaveFiles` |
| InternalNetrc.SaveOrCreate | internal/netrc/netrc.go:58-60 | the corrected Save always succeeds and writes the text. It agrees with Save whenever the file exists |
| InternalNetrc.SaveOrCreateWrites | internal/netrc/netrc.go:79-85 | the corrected Save writes the text, leaves every other path unchanged, and leaves a backup exactly when there was a file |
| InternalNetrc.FileSystem.SaveCreating | internal/netrc/netrc.go:69-86 | Save with the rename skipped when there is no file computes `SaveOrCreate` |
| InternalNetrcExamples.InternalFirstLocation | internal/netrc/netrc_test.go:19-26 | on an empty text the internal copy returns a newline and then the stanza, not the expected text that the pkg copy returns |
| InternalNetrcExamples.InternalSkipExisting | internal/netrc/netrc_test.go:83-98 | the internal copy appends a second us-west1 stanza, so its text differs from the expected one |
| InternalNetrcExamples.InternalMissingKey | internal/netrc/netrc_test.go:45-50 | an unreadable key gives the `AddConfigs: ` error |
| InternalNetrcExamples.InternalAddToExisting | internal/netrc/netrc_test.go:63-82 | on a non-empty text without the hosts, the two copies return the same text |
| Base64.CharOf | cmd/goauth/main.go:100 | every six-bit value maps to a character of the standard alphabet |
| Base64.ValueOf | cmd/goauth/main.go:100 | every alphabet character has a six-bit value that maps back to it |
| Base64.ValueOfCharOf | cmd/goauth/main.go:100 | value to character and back is the identity |
| Base64.Encode | cmd/goauth/main.go:100 | the encoding is 4·⌈n/3⌉ characters long. All of them are alphabet characters or `=`, and `=` can only be among the last two |
| Base64.DecodeEncodeGroup | cmd/goauth/main.go:100 | a full three-byte group decodes back to its bytes |
| Base64.DecodeEncodeTail | cmd/goauth/main.go:100 | a padded final group of one or two bytes decodes back to its bytes |
| Base64.DecodeEncode | cmd/goauth/main_test.go:29-38 | decoding the encoding of any bytes gives those bytes back |
| Base64.EncodeDecodeGroup | cmd/goauth/main.go:100 | a group that decodes is the encoding of what it decodes to |
| Base64.EncodeDecodeLast | cmd/goauth/main.go:100 | a final group that decodes, padded or not, is the encoding of what it decodes to |
| Base64.EncodeDecode | cmd/goauth/main.go:100 | every text that decodes is the encoding of what it decodes to, so the decoder accepts only canonical encodings |
| GoAuth.BasicAuthHeader | cmd/goauth/main.go:98-103 | the header starts with `Basic `, the rest decodes to exactly `user:password`, and its length is 6 + 4·⌈(n+1)/3⌉ |
| GoAuth.KeyAuthHeader | cmd/goauth/main.go:76-96 | a key path selects the key and the user `_json_key_base64`, and no key path selects the token and the user `oauth2accesstoken`. The header decodes to the selected user and secret. A failure of the selected credential gives the matching error message and no header |
| GoAuth.LocationURL | cmd/goauth/main.go:70-74 | the URL is `https://` followed by the location's host |
| GoAuth.Run | cmd/goauth/main.go:42-68 | no location gives the help text. A location starting with `https://` is rejected. Otherwise the URL is printed with the header, or the credential error ends the run |
| GoAuth.LocationURLInjective | cmd/goauth/main.go:70-74 | different locations give different URLs |
| GoAuth.DefaultLocationURL | cmd/goauth/main_test.go:9-15 | `us-central1` with the default pattern gives `https://us-central1-go.pkg.dev` |
| GoAuth.UrlLocationRejected | cmd/goauth/main.go:53-56 | a location starting with `https://` is rejected whatever the credentials are |
| GoAuth.HeaderUser | cmd/goauth/main_test.go:29-38 | whenever a header is built, it decodes to bytes that start with the selected user name and a colon |
| GoAuth.BasicAuthHeaderInjective | cmd/goauth/main.go:98-103 | two headers are equal only for equal `user:password` bytes |
| GoAuth.HeaderAlphabet | cmd/goauth/main.go:100 | after `Basic `, the header uses only the standard alphabet and `=` |
| GoAuth.HeaderStartsWithUser | cmd/goauth/main.go:98-100 | the decoded header of any user name and secret starts with the user name and a colon |

## Left out

- `Load` in both netrc packages and the pkg `Save` use the environment,
  the home directory and file I/O, so they are left out. The internal Save is
  modelled over a map from paths to contents.
- internal/auth/auth.go and pkg/auth are left out: default credentials, the
  `gcloud` subprocess and reading the key file. Their results, the token and
  the encoded key, are `Result` inputs.
- Logging (`log.Printf`, `log.Println`) does not affect any returned value.
  This includes the `strings.Contains` check of internal AddConfigs, which
  only logs.
- `context.WithTimeout` and the stdout print of goauth are left out. So are
  `os.Exit` codes, beyond telling the outcomes of `GoAuth.Run` apart.
- Full RE2 is not modelled. Refresh is stated on lines, and the skip test
  supports only literal characters and `.`.
  - Refresh: a token holding `$` is excluded by a precondition, since
    ReplaceAllString would expand it as a group reference.
  - Refresh.RefreshLinesOfText and the lemmas after it assume a newline-free
    token. With a newline in the token the output still equals the reference
    sweep, but its lines are no longer the reference lines.
- PkgNetrc.AddConfigs requires that no host holds a regular-expression
  metacharacter other than `.`. Hence the `Internal: AddConfigs has error`
  branch for a pattern that does not compile cannot be reached.
- `fmt.Sprintf` with verbs other than a single `%s` is left out. A host pattern
  is `prefix + "%s" + suffix` with no other `%`.
- cmd/auth/main.go's flag parsing, the comma split of the locations and the
  empty-locations check are left out. Only the single-`%s` check is modelled,
  as `HostPatterns.Parse`.
- Go's base64 decoder also accepts non-canonical pad bits and skips newlines.
  The model decodes canonical section 4 encodings only, which is all the
  encoder produces.
- InternalNetrc.SaveFiles: the rename error's text after
  `rename .netrc to .netrc-old: ` is a fixed string, not the operating
  system's message.
- InternalNetrc.SaveFiles: failures of `os.Stat` other than a missing file are
  left out, and so are failures of `os.Remove` and `os.WriteFile`.
- File permissions (`0755`) are left out.
- Refresh of internal/netrc/netrc.go:89-91 and its renderers at 31-43 are not
  modelled separately: their text is identical to the pkg copy.

## Findings

| source | as written | input that shows it | evidently intended | confidence | as-written member | corrected member |
|---|---|---|---|---|---|---|
| internal/netrc/netrc.go:112 | every stanza is preceded by `"\n"`, also on an empty text | AddConfigs(["us-west1"], "", "%s-go.pkg.dev", "") returns a text starting with a newline, while internal/netrc/netrc_test.go:19-26 expects it to start with `machine` | no separator before the first stanza of an empty text, as in pkg/netrc/netrc.go:122-124 | high, not executed | InternalNetrcExamples.InternalFirstLocation | PkgNetrcExamples.AddFirstLocation |
| internal/netrc/netrc.go:98-100 | a location already in the text is only logged, and its stanza is appended again | AddConfigs(["us-west1", "europe-east1"], text with a us-west1 stanza, "%s-go.pkg.dev", "") appends a second us-west1 stanza, while internal/netrc/netrc_test.go:83-98 expects it skipped | skip a host whose `machine <host>\n` is already present, as pkg/netrc/netrc.go:103-110 does; running again then changes nothing | high, not executed | InternalNetrcExamples.InternalSkipExisting | PkgNetrc.AddAllIdempotent |
| internal/netrc/netrc.go:79-81 | Save renames the file to the backup unconditionally | Save(text, path) with no file at path fails with the rename error and writes nothing, although Load at internal/netrc/netrc.go:58-60 returns an empty text for a missing file so that a new one is created | rotate the backup only when the file exists, then write the file | medium, not executed | InternalNetrc.SaveNeedsFile | InternalNetrc.SaveOrCreateWrites |
