/** internal/netrc: the internal copy of the netrc package. Its stanza renderers
    and Refresh are the same text as in pkg/netrc (modelled once, in the
    Stanza and Refresh modules); its AddConfigs appends a stanza for every
    location after a newline, without a duplicate check; its Save keeps one
    backup of the previous file. */
module InternalNetrc {
  import opened Results
  import opened Text
  import opened Stanza
  import opened HostPatterns

  /** The text of the key, when it could be read. */
  function KeyText(key: Result<string>): string {
    if key.Ok? then key.value else ""
  }

  /** Each stanza after a newline of its own, as the loop appends them. */
  function Appended(es: seq<Entry>): string
    decreases |es|
  {
    if es == [] then "" else "\n" + Render(es[0]) + Appended(es[1..])
  }

  /** What internal AddConfigs returns: an error as soon as a key is needed and
      cannot be read; otherwise the input followed by one stanza per location. */
  function AddedAlways(locs: seq<string>, netrc: string, p: HostPattern, keyPath: string, key: Result<string>): Result<string> {
    if locs != [] && keyPath != "" && key.Err? then Err("AddConfigs: " + key.error)
    else Ok(netrc + Appended(Blocks(locs, p, keyPath, KeyText(key))))
  }

  lemma {:induction false} AppendedSnoc(es: seq<Entry>, e: Entry)
    ensures Appended(es + [e]) == Appended(es) + "\n" + Render(e)
    decreases |es|
  {
    if es == [] {
      assert [e][1..] == [];
    } else {
      assert (es + [e])[1..] == es[1..] + [e];
      AppendedSnoc(es[1..], e);
    }
  }

  lemma AddedOne(locs: seq<string>, i: nat, netrc: string, p: HostPattern, keyPath: string, keyText: string)
    requires i < |locs|
    ensures netrc + Appended(Blocks(locs[..i + 1], p, keyPath, keyText)) ==
      netrc + Appended(Blocks(locs[..i], p, keyPath, keyText)) + "\n" + Render(Block(Host(p, locs[i]), keyPath, keyText))
  {
    BlocksSnoc(locs, i, p, keyPath, keyText);
    AppendedSnoc(Blocks(locs[..i], p, keyPath, keyText), Block(Host(p, locs[i]), keyPath, keyText));
  }

  /** AddConfigs(locations, netrc, hostPattern, jsonKeyPath), with the result of
      auth.EncodeJsonKey(jsonKeyPath) given as key. The `strings.Contains`
      test on the location only logs a warning, so it has no counterpart here. */
  method AddConfigs(locations: seq<string>, netrc: string, p: HostPattern, keyPath: string, key: Result<string>)
    returns (r: Result<string>)
    ensures r == AddedAlways(locations, netrc, p, keyPath, key)
  {
    var acc := netrc;
    for i := 0 to |locations|
      invariant acc == netrc + Appended(Blocks(locations[..i], p, keyPath, KeyText(key)))
      invariant i > 0 ==> keyPath == "" || key.Ok?
    {
      var h := Host(p, locations[i]);
      var cfg: string;
      if keyPath == "" {
        cfg := TokenPlaceholder(h);
      } else {
        if key.Err? {
          return Err("AddConfigs: " + key.error);
        }
        cfg := JsonKeyConfig(h, key.value);
      }
      assert cfg == Render(Block(h, keyPath, KeyText(key)));
      AddedOne(locations, i, netrc, p, keyPath, KeyText(key));
      acc := acc + "\n" + cfg;
    }
    assert locations[..|locations|] == locations;
    return Ok(acc);
  }

  // ----- What AddConfigs promises -----


  /** The appended text is a newline and then the stanza file of the entries. */
  lemma {:induction false} AppendedIsFile(es: seq<Entry>)
    requires es != []
    ensures Appended(es) == "\n" + RenderFile(es)
    decreases |es|
  {
    var r, rest := Render(es[0]), es[1..];
    if rest == [] {
      assert Appended(es) == "\n" + r + "";
    } else {
      AppendedIsFile(rest);
      assert Appended(es) == "\n" + r + ("\n" + RenderFile(rest));
      assert "\n" + r + ("\n" + RenderFile(rest)) == "\n" + (r + "\n" + RenderFile(rest));
    }
  }

  lemma AppendedLines(x: string, es: seq<Entry>)
    requires AllClean(es)
    ensures Lines(x + Appended(es)) == Lines(x) + FileLines(es)
    ensures |FileLines(es)| == 4 * |es|
  {
    if es == [] {
      assert x + "" == x;
    } else {
      AppendedIsFile(es);
      RenderFileLines(es);
      assert x + Appended(es) == x + "\n" + RenderFile(es);
      SplitConcat(x, RenderFile(es), '\n');
    }
  }

  /** Every location gets exactly one stanza, a repeated location as well: the
      output is the input's lines, then the four lines of each location's stanza in order. */
  lemma AddConfigsLines(locs: seq<string>, netrc: string, p: HostPattern, keyPath: string, key: Result<string>)
    requires forall i :: 0 <= i < |locs| ==> NoNewline(Host(p, locs[i]))
    requires NoNewline(KeyText(key))
    requires AddedAlways(locs, netrc, p, keyPath, key).Ok?
    ensures |Lines(AddedAlways(locs, netrc, p, keyPath, key).value)| == |Lines(netrc)| + 4 * |locs|
    ensures Lines(AddedAlways(locs, netrc, p, keyPath, key).value) ==
      Lines(netrc) + FileLines(Blocks(locs, p, keyPath, KeyText(key)))
  {
    var es := Blocks(locs, p, keyPath, KeyText(key));
    AppendedLines(netrc, es);
  }

  /** The total size of the appended stanzas, one newline each included. */
  function AddedSize(es: seq<Entry>): nat
    decreases |es|
  {
    if es == [] then 0 else 1 + |Render(es[0])| + AddedSize(es[1..])
  }

  lemma {:induction false} AppendedSize(es: seq<Entry>)
    ensures |Appended(es)| == AddedSize(es)
    decreases |es|
  {
    if es != [] {
      AppendedSize(es[1..]);
    }
  }

  /** On success the input is a prefix of the output, whose length is the input's
      plus one newline and one stanza per location. */
  lemma AddConfigsExtends(locs: seq<string>, netrc: string, p: HostPattern, keyPath: string, key: Result<string>)
    requires AddedAlways(locs, netrc, p, keyPath, key).Ok?
    ensures StartsWith(AddedAlways(locs, netrc, p, keyPath, key).value, netrc)
    ensures |AddedAlways(locs, netrc, p, keyPath, key).value| == |netrc| + AddedSize(Blocks(locs, p, keyPath, KeyText(key)))
  {
    var out := AddedAlways(locs, netrc, p, keyPath, key).value;
    AppendedSize(Blocks(locs, p, keyPath, KeyText(key)));
    assert out[..|netrc|] == netrc;
  }

  /** Internal AddConfigs is never a no-op on a location list: run on its own
      output it adds every stanza again. */
  lemma AddConfigsRepeats(locs: seq<string>, netrc: string, p: HostPattern, keyPath: string, key: Result<string>)
    requires locs != []
    requires AddedAlways(locs, netrc, p, keyPath, key).Ok?
    ensures AddedAlways(locs, AddedAlways(locs, netrc, p, keyPath, key).value, p, keyPath, key).Ok?
    ensures |AddedAlways(locs, AddedAlways(locs, netrc, p, keyPath, key).value, p, keyPath, key).value|
          > |AddedAlways(locs, netrc, p, keyPath, key).value|
  {
    var out := AddedAlways(locs, netrc, p, keyPath, key).value;
    AddConfigsExtends(locs, out, p, keyPath, key);
    var es := Blocks(locs, p, keyPath, KeyText(key));
    assert AddedSize(es) >= 1 + |Render(es[0])|;
  }

  // ----- Save -----

  /** What Save leaves behind: its error, if any, and the files afterwards. */
  datatype Saved = Saved(err: Option<string>, files: map<string, string>)

  function Backup(path: string): string {
    path + "-old"
  }

  lemma BackupDiffers(path: string)
    ensures Backup(path) != path
  {
    assert |Backup(path)| == |path| + 4;
  }

  const RenameFailure := "rename .netrc to .netrc-old: file does not exist"

  /** Save on a filesystem: an old backup is deleted first; when the file exists
      it becomes the backup and the new text is written; when it does not, the
      rename fails and nothing is written. */
  function SaveFiles(fs: map<string, string>, netrc: string, path: string): (s: Saved)
    ensures s.err.None? <==> path in fs
    ensures s.err.None? ==> s.files == fs[Backup(path) := fs[path]][path := netrc]
    ensures s.err.Some? ==> s.files == fs - {Backup(path)}
  {
    var rotated := if Backup(path) in fs then fs - {Backup(path)} else fs;
    if path !in rotated then Saved(Some(RenameFailure), rotated)
    else
      BackupDiffers(path);
      var renamed := rotated[Backup(path) := rotated[path]] - {path};
      Saved(None, renamed[path := netrc])
  }

  /** A successful Save writes the text, keeps the previous text as the backup
      and touches no other file. */
  lemma SaveKeepsOthers(fs: map<string, string>, netrc: string, path: string, other: string)
    requires path in fs && other != path && other != Backup(path)
    ensures SaveFiles(fs, netrc, path).err.None?
    ensures SaveFiles(fs, netrc, path).files[path] == netrc
    ensures SaveFiles(fs, netrc, path).files[Backup(path)] == fs[path]
    ensures other in SaveFiles(fs, netrc, path).files <==> other in fs
    ensures other in fs ==> SaveFiles(fs, netrc, path).files[other] == fs[other]
  {
    BackupDiffers(path);
  }

  /** Saving twice leaves one backup, holding the text that the second save replaced. */
  lemma SaveTwice(fs: map<string, string>, a: string, b: string, path: string)
    requires path in fs
    ensures SaveFiles(fs, a, path).err.None?
    ensures SaveFiles(SaveFiles(fs, a, path).files, b, path).err.None?
    ensures SaveFiles(SaveFiles(fs, a, path).files, b, path).files[path] == b
    ensures SaveFiles(SaveFiles(fs, a, path).files, b, path).files[Backup(path)] == a
    ensures SaveFiles(SaveFiles(fs, a, path).files, b, path).files.Keys == fs.Keys + {Backup(path)}
  {
    BackupDiffers(path);
  }

  /** A missing file is never created: Save fails, and loses the old backup. */
  lemma SaveNeedsFile(fs: map<string, string>, netrc: string, path: string)
    requires path !in fs
    ensures SaveFiles(fs, netrc, path).err == Some(RenameFailure)
    ensures path !in SaveFiles(fs, netrc, path).files
    ensures Backup(path) !in SaveFiles(fs, netrc, path).files
  {
  }

  /** Save as Load's comment on a missing file means it: the backup is rotated
      when there is a file to rotate, and the new text is written either way. */
  function SaveOrCreate(fs: map<string, string>, netrc: string, path: string): (s: Saved)
    ensures s.err.None? && path in s.files && s.files[path] == netrc
    ensures path in fs ==> s == SaveFiles(fs, netrc, path)
    ensures path !in fs ==> s.files == (fs - {Backup(path)})[path := netrc]
  {
    if path in fs then SaveFiles(fs, netrc, path)
    else Saved(None, (fs - {Backup(path)})[path := netrc])
  }

  /** The corrected Save always succeeds, and what it leaves depends on the
      new text and the old file only: saving onto a missing file and onto an
      existing one agree on every path but the backup. */
  lemma SaveOrCreateWrites(fs: map<string, string>, netrc: string, path: string, other: string)
    requires other != path && other != Backup(path)
    ensures SaveOrCreate(fs, netrc, path).err.None?
    ensures SaveOrCreate(fs, netrc, path).files[path] == netrc
    ensures other in SaveOrCreate(fs, netrc, path).files <==> other in fs
    ensures other in fs ==> SaveOrCreate(fs, netrc, path).files[other] == fs[other]
    ensures Backup(path) in SaveOrCreate(fs, netrc, path).files <==> path in fs
  {
    BackupDiffers(path);
  }

  /** The filesystem Save works on: a map from path to content. */
  class FileSystem {
    var files: map<string, string>

    constructor (files: map<string, string>)
      ensures this.files == files
    {
      this.files := files;
    }

    /** Save(netrc, path): stat and remove the backup, rename, write. */
    method Save(netrc: string, path: string) returns (err: Option<string>)
      modifies this
      ensures err == SaveFiles(old(files), netrc, path).err
      ensures files == SaveFiles(old(files), netrc, path).files
    {
      var backup := path + "-old";
      if backup in files {
        files := files - {backup};
      }
      if path !in files {
        return Some(RenameFailure);
      }
      BackupDiffers(path);
      files := files[backup := files[path]] - {path};
      files := files[path := netrc];
      return None;
    }

    /** Save with the rename skipped when there is no file to back up. */
    method SaveCreating(netrc: string, path: string) returns (err: Option<string>)
      modifies this
      ensures err == SaveOrCreate(old(files), netrc, path).err
      ensures files == SaveOrCreate(old(files), netrc, path).files
    {
      var backup := path + "-old";
      if backup in files {
        files := files - {backup};
      }
      if path in files {
        BackupDiffers(path);
        files := files[backup := files[path]] - {path};
      }
      files := files[path := netrc];
      return None;
    }
  }
}
