/** The extractor page's session: the loaded archive, the entry list it shows,
    the selection, the download prefix and the open preview, with the handlers
    the page wires to its controls. The archive reader, `JSON.parse` and the
    object-URL allocator are parameters; what the browser is asked to do (alert,
    create or revoke an object URL, save a file) is returned as a list of
    effects in the order the handler performs them. */
module ZipExtractor {
  import opened Strings
  import opened Seqs
  import opened Extensions

  datatype Option<T> = None | Some(value: T)

  /** An entry as the archive reader reports it: its directory flag, the bytes
      `async('blob')` yields and the text `async('text')` yields. */
  datatype ZipEntry = ZipEntry(dir: bool, blob: seq<bv8>, text: string)

  /** A loaded archive: entry names in the order `Object.keys` lists them, and
      the entries by name. */
  datatype Archive = Archive(order: seq<string>, entries: map<string, ZipEntry>)

  /** What the reader makes of the dropped file. */
  datatype ReadResult = Read(archive: Archive) | Unreadable

  datatype PreviewKind = Image | Json

  datatype PreviewContent = ObjectUrl(url: nat) | Text(text: string)

  datatype Preview = Preview(name: string, content: PreviewContent, kind: PreviewKind)

  /** Object URLs are numbered in creation order, so each one is fresh. */
  datatype Effect =
    | Alert(message: string)
    | CreateUrl(url: nat)
    | Save(fileName: string, data: seq<bv8>)
    | Revoke(url: nat)

  datatype State = State(
    files: seq<string>,
    selected: seq<string>,
    prefix: string,
    zip: Option<Archive>,
    preview: Option<Preview>,
    nextUrl: nat)

  datatype Outcome = Outcome(state: State, effects: seq<Effect>)

  const LoadError: string := "The file could not be loaded as a ZIP file."

  const InvalidJsonMessage: string := "Invalid JSON file"

  const ZipSuffix: string := ".zip"

  /** Nothing loaded, nothing selected, an empty prefix, no preview. */
  const Initial: State := State([], [], "", None, None, 0)

  // ---------------------------------------------------------------------------
  // Loading an archive

  /** The reader's names whose entry is not a directory, in the reader's order. */
  function FileNames(order: seq<string>, entries: map<string, ZipEntry>): (r: seq<string>)
    ensures forall n :: n in r <==> n in order && n in entries && !entries[n].dir
    ensures |r| <= |order|
    ensures Distinct(order) ==> Distinct(r)
  {
    if order == [] then []
    else
      var rest := FileNames(order[1..], entries);
      var n := order[0];
      DistinctTail(order);
      if n in entries && !entries[n].dir then
        assert Distinct(order) ==> n !in rest;
        assert forall j :: 0 < j < |[n] + rest| ==> ([n] + rest)[j] == rest[j - 1];
        [n] + rest
      else rest
  }

  /** The list keeps the reader's order: the names of an earlier run of keys
      all come before those of a later run. */
  lemma {:induction false} FileNamesAppend(o1: seq<string>, o2: seq<string>, entries: map<string, ZipEntry>)
    ensures FileNames(o1 + o2, entries) == FileNames(o1, entries) + FileNames(o2, entries)
    decreases |o1|
  {
    if o1 != [] {
      assert (o1 + o2)[0] == o1[0];
      assert (o1 + o2)[1..] == o1[1..] + o2;
      FileNamesAppend(o1[1..], o2, entries);
    } else {
      assert o1 + o2 == o2;
    }
  }

  /** `name.replace(/\.zip$/, '')`: one trailing `.zip`, in lower case, goes. */
  function StripZip(name: string): (r: string)
    ensures EndsWith(name, ZipSuffix) ==> r + ZipSuffix == name
    ensures !EndsWith(name, ZipSuffix) ==> r == name
  {
    if EndsWith(name, ZipSuffix) then name[..|name| - |ZipSuffix|] else name
  }

  /** Only the last `.zip` is removed, whatever precedes it. */
  lemma StripZipOnce(base: string)
    ensures StripZip(base + ZipSuffix) == base
  {
    var name := base + ZipSuffix;
    assert name[|name| - |ZipSuffix|..] == ZipSuffix;
    assert name[..|name| - |ZipSuffix|] == base;
  }

  /** The suffix test is exact and case-sensitive: a three-letter extension
      other than lower-case `zip` (`ZIP`, `Zip`, `zap`) stays on the name. */
  lemma StripZipKeepsOtherExtensions(base: string, ext: string)
    requires |ext| == 3 && ext != "zip"
    ensures StripZip(base + "." + ext) == base + "." + ext
  {
    var name := base + "." + ext;
    assert name[|name| - |ZipSuffix|..] == "." + ext;
    assert ("." + ext)[1..] == ext;
  }

  /** `handleFileSelect`: a readable archive replaces the entry list, empties
      the selection, becomes the archive in use and sets the prefix from the
      dropped file's name; an unreadable one only raises an alert. The preview
      and the URL allocator are untouched either way. */
  function HandleFileSelect(s: State, fileName: string, read: ReadResult): (o: Outcome)
    ensures read.Unreadable? ==> o.state == s && o.effects == [Alert(LoadError)]
    ensures read.Read? ==>
      var a := read.archive;
      && o.effects == []
      && o.state.files == FileNames(a.order, a.entries)
      && (forall n :: n in o.state.files <==> n in a.order && n in a.entries && !a.entries[n].dir)
      && o.state.selected == []
      && o.state.zip == Some(a)
      && o.state.prefix == StripZip(fileName) + "_"
      && o.state.prefix[|o.state.prefix| - 1] == '_'
      && o.state.preview == s.preview && o.state.nextUrl == s.nextUrl
  {
    match read
    case Unreadable => Outcome(s, [Alert(LoadError)])
    case Read(a) =>
      var next := s.(files := FileNames(a.order, a.entries), selected := [], zip := Some(a), prefix := StripZip(fileName) + "_");
      Outcome(next, [])
  }

  // ---------------------------------------------------------------------------
  // Selection

  /** `Set.delete` on an insertion-ordered set: the element goes, the others
      keep their order. */
  function Remove(s: seq<string>, x: string): (r: seq<string>)
    ensures forall y :: y in r <==> y in s && y != x
    ensures |r| <= |s|
    ensures x !in s ==> r == s
    ensures Distinct(s) ==> Distinct(r)
  {
    if s == [] then []
    else
      var rest := Remove(s[1..], x);
      DistinctTail(s);
      if s[0] == x then rest
      else
        assert forall j :: 0 < j < |[s[0]] + rest| ==> ([s[0]] + rest)[j] == rest[j - 1];
        assert s == [s[0]] + s[1..];
        [s[0]] + rest
  }

  /** Deleting an element that occurs once closes the gap it leaves. */
  lemma {:induction false} RemoveAt(s: seq<string>, i: int)
    requires 0 <= i < |s| && s[i] !in s[..i] && s[i] !in s[i + 1..]
    ensures Remove(s, s[i]) == s[..i] + s[i + 1..]
    decreases |s|
  {
    var x := s[i];
    var t := s[1..];
    if i == 0 {
      assert t == s[i + 1..];
      assert Remove(s, x) == Remove(t, x) == t;
    } else {
      assert s[0] == s[..i][0];
      assert t[i - 1] == x;
      assert t[..i - 1] == s[1..i] && t[i..] == s[i + 1..];
      assert x !in t[..i - 1] by {
        assert s[..i] == [s[0]] + s[1..i];
      }
      assert Remove(s, x) == [s[0]] + Remove(t, x);
      RemoveAt(t, i - 1);
      assert [s[0]] + (t[..i - 1] + t[i..]) == s[..i] + s[i + 1..];
    }
  }

  /** `toggleFileSelection`: the path leaves the selection if it was in it and
      joins it at the end otherwise; no other path and no other part of the
      session changes, and the path need not name a file. */
  function ToggleFileSelection(s: State, path: string): (r: State)
    ensures r == s.(selected := r.selected)
    ensures path in r.selected <==> path !in s.selected
    ensures forall p :: p != path ==> (p in r.selected <==> p in s.selected)
    ensures Distinct(s.selected) ==> Distinct(r.selected)
    ensures path !in s.selected ==> r.selected == s.selected + [path]
    ensures Distinct(s.selected) ==>
      forall i :: 0 <= i < |s.selected| && s.selected[i] == path ==> r.selected == s.selected[..i] + s.selected[i + 1..]
  {
    var sel := s.selected;
    if path in sel then
      assert forall i :: 0 <= i < |sel| && sel[i] == path && Distinct(sel) ==> Remove(sel, path) == sel[..i] + sel[i + 1..] by {
        forall i | 0 <= i < |sel| && sel[i] == path && Distinct(sel)
          ensures Remove(sel, path) == sel[..i] + sel[i + 1..]
        {
          DistinctOnlyAt(sel, i);
          RemoveAt(sel, i);
        }
      }
      s.(selected := Remove(sel, path))
    else
      assert Distinct(sel) ==> Distinct(sel + [path]) by {
        if Distinct(sel) {
          forall i, j | 0 <= i < j < |sel + [path]|
            ensures (sel + [path])[i] != (sel + [path])[j]
          {
            if j == |sel| {
              assert (sel + [path])[i] == sel[i];
            } else {
              assert (sel + [path])[i] == sel[i] && (sel + [path])[j] == sel[j];
            }
          }
        }
      }
      s.(selected := sel + [path])
  }

  /** Toggling a path twice gives back the same members; an unselected path
      leaves the selection exactly as it was, a selected one ends up last. */
  lemma ToggleTwice(s: State, path: string)
    requires Distinct(s.selected)
    ensures var r := ToggleFileSelection(ToggleFileSelection(s, path), path);
      && (forall p :: p in r.selected <==> p in s.selected)
      && (path !in s.selected ==> r == s)
      && (path in s.selected ==> r.selected == Remove(s.selected, path) + [path])
  {
    var once := ToggleFileSelection(s, path);
    if path !in s.selected {
      DistinctOnlyAt(once.selected, |s.selected|);
      RemoveAt(once.selected, |s.selected|);
      assert once.selected[..|s.selected|] == s.selected;
    }
  }

  // ---------------------------------------------------------------------------
  // Downloads

  /** `zipInstance.file(name)`: the entry, unless there is no archive, no entry
      of that name, or the entry is a directory. */
  function FileAt(zip: Option<Archive>, name: string): Option<ZipEntry>
  {
    if zip.Some? && name in zip.value.entries && !zip.value.entries[name].dir then Some(zip.value.entries[name])
    else None
  }

  /** The anchor's `download` name: the prefix is put in front of the whole
      entry path only when it is not empty, which is the same as always
      putting it there. */
  function SaveName(prefix: string, path: string): (r: string)
    ensures r == prefix + path
    ensures prefix == "" ==> r == path
  {
    if prefix != "" then prefix + path else path
  }

  /** `downloadFile`: without an archive or a file of that name nothing
      happens; otherwise a fresh object URL is created for the entry's bytes,
      the bytes are saved under the prefixed path and the URL is revoked.
      Only the URL allocator moves. */
  function DownloadFile(s: State, path: string): (o: Outcome)
    ensures o.state == s.(nextUrl := o.state.nextUrl)
    ensures FileAt(s.zip, path).None? ==> o == Outcome(s, [])
    ensures FileAt(s.zip, path).Some? ==>
      && o.state.nextUrl == s.nextUrl + 1
      && o.effects == [CreateUrl(s.nextUrl), Save(s.prefix + path, FileAt(s.zip, path).value.blob), Revoke(s.nextUrl)]
  {
    match FileAt(s.zip, path)
    case None => Outcome(s, [])
    case Some(entry) =>
      var url := s.nextUrl;
      Outcome(s.(nextUrl := url + 1), [CreateUrl(url), Save(SaveName(s.prefix, path), entry.blob), Revoke(url)])
  }

  /** Effects made of whole downloads: each is a URL created, a file saved and
      that same URL revoked, one download after the other. */
  predicate Transfers(effects: seq<Effect>)
    decreases |effects|
  {
    || effects == []
    || (&& |effects| >= 3
        && effects[0].CreateUrl? && effects[1].Save?
        && effects[2] == Revoke(effects[0].url)
        && Transfers(effects[3..]))
  }

  /** Every URL created is revoked later on. */
  predicate Released(effects: seq<Effect>)
  {
    forall i :: 0 <= i < |effects| && effects[i].CreateUrl? ==>
      exists j :: i < j < |effects| && effects[j] == Revoke(effects[i].url)
  }

  /** The names saved, in order. */
  function Saves(effects: seq<Effect>): seq<string>
  {
    if effects == [] then []
    else (if effects[0].Save? then [effects[0].fileName] else []) + Saves(effects[1..])
  }

  lemma {:induction false} SavesAppend(a: seq<Effect>, b: seq<Effect>)
    ensures Saves(a + b) == Saves(a) + Saves(b)
    decreases |a|
  {
    if a != [] {
      assert (a + b)[0] == a[0] && (a + b)[1..] == a[1..] + b;
      SavesAppend(a[1..], b);
    } else {
      assert a + b == b;
    }
  }

  lemma {:induction false} TransfersAppend(a: seq<Effect>, b: seq<Effect>)
    requires Transfers(a) && Transfers(b)
    ensures Transfers(a + b)
    decreases |a|
  {
    if a != [] {
      assert (a + b)[..3] == a[..3];
      assert (a + b)[3..] == a[3..] + b;
      TransfersAppend(a[3..], b);
    } else {
      assert a + b == b;
    }
  }

  /** A run of whole downloads releases every URL it creates. */
  lemma {:induction false} TransfersReleased(effects: seq<Effect>)
    requires Transfers(effects)
    ensures Released(effects)
    decreases |effects|
  {
    if effects != [] {
      var rest := effects[3..];
      TransfersReleased(rest);
      forall i | 0 <= i < |effects| && effects[i].CreateUrl?
        ensures exists j :: i < j < |effects| && effects[j] == Revoke(effects[i].url)
      {
        if i == 0 {
          assert effects[2] == Revoke(effects[0].url);
        } else {
          assert i >= 3;
          assert rest[i - 3] == effects[i];
          var j :| i - 3 < j < |rest| && rest[j] == Revoke(rest[i - 3].url);
          assert effects[j + 3] == rest[j];
        }
      }
    }
  }

  /** A single download is one whole transfer, saved under `prefix + path`, and
      it releases its URL before it returns. */
  lemma DownloadFileTransfers(s: State, path: string)
    ensures var o := DownloadFile(s, path);
      && Transfers(o.effects)
      && Released(o.effects)
      && Saves(o.effects) == (if FileAt(s.zip, path).Some? then [s.prefix + path] else [])
  {
    var o := DownloadFile(s, path);
    if FileAt(s.zip, path).Some? {
      var e := o.effects;
      assert e[3..] == [] && e[2..][1..] == [];
      assert Saves(e[2..]) == [];
      assert e[1..][1..] == e[2..];
      assert Saves(e[1..]) == [s.prefix + path];
      TransfersReleased(e);
    }
  }

  // ---------------------------------------------------------------------------
  // Batch download

  /** The reference for `for (const fileName of selectedFiles) await
      downloadFile(fileName)`: each path in turn, each download starting from
      the session the previous one left. */
  function DownloadAll(s: State, paths: seq<string>): Outcome
    decreases |paths|
  {
    if paths == [] then Outcome(s, [])
    else
      var first := DownloadFile(s, paths[0]);
      var rest := DownloadAll(first.state, paths[1..]);
      Outcome(rest.state, first.effects + rest.effects)
  }

  /** The paths of a list that name a file of the archive, in list order. */
  function Present(zip: Option<Archive>, paths: seq<string>): (r: seq<string>)
    ensures forall p :: p in r <==> p in paths && FileAt(zip, p).Some?
    ensures Distinct(paths) ==> Distinct(r)
  {
    if paths == [] then []
    else
      var rest := Present(zip, paths[1..]);
      DistinctTail(paths);
      if FileAt(zip, paths[0]).Some? then
        assert forall j :: 0 < j < |[paths[0]] + rest| ==> ([paths[0]] + rest)[j] == rest[j - 1];
        [paths[0]] + rest
      else rest
  }

  /** Each name of a list with the prefix in front. */
  function Prefixed(prefix: string, paths: seq<string>): (r: seq<string>)
    ensures |r| == |paths|
    ensures forall i :: 0 <= i < |paths| ==> r[i] == prefix + paths[i]
  {
    if paths == [] then [] else [prefix + paths[0]] + Prefixed(prefix, paths[1..])
  }

  /** A fixed prefix keeps distinct names distinct. */
  lemma PrefixedDistinct(prefix: string, paths: seq<string>)
    requires Distinct(paths)
    ensures Distinct(Prefixed(prefix, paths))
  {
    var r := Prefixed(prefix, paths);
    forall i, j | 0 <= i < j < |r|
      ensures r[i] != r[j]
    {
      assert r[i][|prefix|..] == paths[i] && r[j][|prefix|..] == paths[j];
    }
  }

  /** The batch walks the selection in order: it is one whole transfer per
      selected file, saved under the prefixed path, in selection order; the
      session changes only in its URL allocator. */
  lemma {:induction false} DownloadAllFacts(s: State, paths: seq<string>)
    ensures var o := DownloadAll(s, paths);
      && o.state == s.(nextUrl := o.state.nextUrl)
      && o.state.nextUrl == s.nextUrl + |Present(s.zip, paths)|
      && Transfers(o.effects)
      && Saves(o.effects) == Prefixed(s.prefix, Present(s.zip, paths))
    decreases |paths|
  {
    if paths != [] {
      var first := DownloadFile(s, paths[0]);
      DownloadFileTransfers(s, paths[0]);
      DownloadAllFacts(first.state, paths[1..]);
      var rest := DownloadAll(first.state, paths[1..]);
      TransfersAppend(first.effects, rest.effects);
      SavesAppend(first.effects, rest.effects);
      assert first.state.zip == s.zip && first.state.prefix == s.prefix;
      if FileAt(s.zip, paths[0]).Some? {
        assert Present(s.zip, paths) == [paths[0]] + Present(s.zip, paths[1..]);
        assert Prefixed(s.prefix, Present(s.zip, paths)) == [s.prefix + paths[0]] + Prefixed(s.prefix, Present(s.zip, paths[1..]));
      }
    }
  }

  /** Downloading a list and then one more path is downloading the longer list. */
  lemma {:induction false} DownloadAllSnoc(s: State, paths: seq<string>, p: string)
    ensures var o := DownloadAll(s, paths);
      var last := DownloadFile(o.state, p);
      DownloadAll(s, paths + [p]) == Outcome(last.state, o.effects + last.effects)
    decreases |paths|
  {
    if paths == [] {
      assert paths + [p] == [p];
    } else {
      var first := DownloadFile(s, paths[0]);
      assert (paths + [p])[0] == paths[0] && (paths + [p])[1..] == paths[1..] + [p];
      DownloadAllSnoc(first.state, paths[1..], p);
      var rest := DownloadAll(first.state, paths[1..]);
      var last := DownloadFile(rest.state, p);
      assert first.effects + (rest.effects + last.effects) == (first.effects + rest.effects) + last.effects;
    }
  }

  /** `downloadSelectedFiles`: with no archive nothing happens; otherwise every
      selected path is downloaded in turn, in the order it was selected, each
      file of the archive saved exactly once under its prefixed path and every
      URL released. Only the URL allocator moves. */
  method DownloadSelectedFiles(s: State) returns (o: Outcome)
    ensures s.zip.None? ==> o == Outcome(s, [])
    ensures o == DownloadAll(s, s.selected)
    ensures o.state == s.(nextUrl := o.state.nextUrl)
    ensures Transfers(o.effects) && Released(o.effects)
    ensures Saves(o.effects) == Prefixed(s.prefix, Present(s.zip, s.selected))
    ensures Distinct(s.selected) ==> Distinct(Saves(o.effects))
  {
    if s.zip.None? {
      o := Outcome(s, []);
      NoArchiveNoDownloads(s, s.selected);
    } else {
      var current := s;
      var effects: seq<Effect> := [];
      var i := 0;
      while i < |s.selected|
        invariant 0 <= i <= |s.selected|
        invariant DownloadAll(s, s.selected[..i]) == Outcome(current, effects)
      {
        var path := s.selected[i];
        DownloadAllSnoc(s, s.selected[..i], path);
        assert s.selected[..i] + [path] == s.selected[..i + 1];
        var step := DownloadFile(current, path);
        current := step.state;
        effects := effects + step.effects;
        i := i + 1;
      }
      assert s.selected[..i] == s.selected;
      o := Outcome(current, effects);
    }
    DownloadAllFacts(s, s.selected);
    TransfersReleased(o.effects);
    if Distinct(s.selected) {
      PrefixedDistinct(s.prefix, Present(s.zip, s.selected));
    }
  }

  /** Without an archive no path names a file, so a batch does nothing. */
  lemma {:induction false} NoArchiveNoDownloads(s: State, paths: seq<string>)
    requires s.zip.None?
    ensures DownloadAll(s, paths) == Outcome(s, [])
    decreases |paths|
  {
    if paths != [] {
      NoArchiveNoDownloads(s, paths[1..]);
    }
  }

  // ---------------------------------------------------------------------------
  // Preview

  /** `previewFileContent`, with `validJson` standing for whether `JSON.parse`
      accepts a text. An image entry is shown through a fresh object URL; a JSON
      entry is shown as its text when that parses and raises an alert when it
      does not; anything else, and a missing entry, changes nothing. Only the
      preview and the URL allocator can change, and no URL is revoked. */
  function PreviewFileContent(s: State, path: string, validJson: string -> bool): (o: Outcome)
    ensures o.state == s.(preview := o.state.preview, nextUrl := o.state.nextUrl)
    ensures forall k :: 0 <= k < |o.effects| ==> !o.effects[k].Revoke? && !o.effects[k].Save?
    ensures o.state.preview != s.preview ==>
      && FileAt(s.zip, path).Some?
      && o.state.preview.Some? && o.state.preview.value.name == path
    ensures o.state.preview != s.preview && o.state.preview.value.kind == Json ==>
      && IsJson(path)
      && o.state.preview.value.content == Text(FileAt(s.zip, path).value.text)
      && validJson(FileAt(s.zip, path).value.text)
    ensures o.state.preview != s.preview && o.state.preview.value.kind == Image ==>
      && IsImage(path)
      && o.state.preview.value.content == ObjectUrl(s.nextUrl)
      && o.effects == [CreateUrl(s.nextUrl)]
  {
    match FileAt(s.zip, path)
    case None => Outcome(s, [])
    case Some(entry) =>
      if !IsImage(path) && !IsJson(path) then Outcome(s, [])
      else if IsImage(path) then
        var url := s.nextUrl;
        Outcome(s.(preview := Some(Preview(path, ObjectUrl(url), Image)), nextUrl := url + 1), [CreateUrl(url)])
      else if validJson(entry.text) then
        Outcome(s.(preview := Some(Preview(path, Text(entry.text), Json))), [])
      else
        Outcome(s, [Alert(InvalidJsonMessage)])
  }

  /** The preview's outcomes case by case: no archive, no such file or an
      unknown kind leave the session alone; an image is installed under a new
      URL; JSON is installed when it parses and otherwise only alerts. */
  lemma PreviewOutcomes(s: State, path: string, validJson: string -> bool)
    ensures var o := PreviewFileContent(s, path, validJson);
      var e := FileAt(s.zip, path);
      && (e.None? || (!IsImage(path) && !IsJson(path)) ==> o == Outcome(s, []))
      && (e.Some? && IsImage(path) ==>
            o.state.preview == Some(Preview(path, ObjectUrl(s.nextUrl), Image)) && o.effects == [CreateUrl(s.nextUrl)])
      && (e.Some? && IsJson(path) && validJson(e.value.text) ==>
            o == Outcome(s.(preview := Some(Preview(path, Text(e.value.text), Json))), []))
      && (e.Some? && IsJson(path) && !validJson(e.value.text) ==>
            o == Outcome(s, [Alert(InvalidJsonMessage)]))
  {
    ImageAndJsonExclusive(path);
  }

  /** The modal's close button drops the preview without revoking its URL. */
  function ClosePreview(s: State): (o: Outcome)
    ensures o.state.preview.None? && o.effects == []
    ensures o.state == s.(preview := None)
  {
    Outcome(s.(preview := None), [])
  }

  /** The prefix box writes the prefix as typed. */
  function SetPrefix(s: State, prefix: string): State
  {
    s.(prefix := prefix)
  }

  /** An image preview's URL stays live: opening and closing the preview
      creates one URL and revokes none. */
  lemma ImagePreviewUrlNeverRevoked(s: State, path: string, validJson: string -> bool)
    requires FileAt(s.zip, path).Some? && IsImage(path)
    ensures var shown := PreviewFileContent(s, path, validJson);
      var closed := ClosePreview(shown.state);
      var effects := shown.effects + closed.effects;
      && CreateUrl(s.nextUrl) in effects
      && Revoke(s.nextUrl) !in effects
  {
    var shown := PreviewFileContent(s, path, validJson);
    assert shown.effects + [] == shown.effects;
  }

  // ---------------------------------------------------------------------------
  // The page as a state machine

  datatype Event =
    | Drop(fileName: string, read: ReadResult)
    | ToggleSelection(path: string)
    | DownloadOne(path: string)
    | DownloadSelected
    | PreviewEntry(path: string)
    | CloseModal
    | TypePrefix(prefix: string)

  function Apply(s: State, e: Event, validJson: string -> bool): Outcome
  {
    match e
    case Drop(name, read) => HandleFileSelect(s, name, read)
    case ToggleSelection(path) => Outcome(ToggleFileSelection(s, path), [])
    case DownloadOne(path) => DownloadFile(s, path)
    case DownloadSelected => DownloadAll(s, s.selected)
    case PreviewEntry(path) => PreviewFileContent(s, path, validJson)
    case CloseModal => ClosePreview(s)
    case TypePrefix(p) => Outcome(SetPrefix(s, p), [])
  }

  function Run(s: State, events: seq<Event>, validJson: string -> bool): State
    decreases |events|
  {
    if events == [] then s else Run(Apply(s, events[0], validJson).state, events[1..], validJson)
  }

  /** Every handler keeps the selection free of duplicates, so from the
      initial session on the selection behaves as a set. */
  lemma {:induction false} SelectionStaysDistinct(s: State, events: seq<Event>, validJson: string -> bool)
    requires Distinct(s.selected)
    ensures Distinct(Run(s, events, validJson).selected)
    decreases |events|
  {
    if events != [] {
      var next := Apply(s, events[0], validJson).state;
      if events[0].DownloadSelected? {
        DownloadAllFacts(s, s.selected);
      }
      assert Distinct(next.selected);
      SelectionStaysDistinct(next, events[1..], validJson);
    }
  }

  /** From the page's initial session on, the selection never holds a path
      twice. */
  lemma InitialSelectionStaysDistinct(events: seq<Event>, validJson: string -> bool)
    ensures Initial.files == [] && Initial.selected == [] && Initial.prefix == ""
    ensures Initial.zip.None? && Initial.preview.None?
    ensures Distinct(Run(Initial, events, validJson).selected)
  {
    SelectionStaysDistinct(Initial, events, validJson);
  }

  /** The effects of a run of events, in order. */
  function RunEffects(s: State, events: seq<Event>, validJson: string -> bool): seq<Effect>
    decreases |events|
  {
    if events == [] then []
    else
      var first := Apply(s, events[0], validJson);
      first.effects + RunEffects(first.state, events[1..], validJson)
  }

  /** Every URL the effects revoke is numbered `low` or higher. */
  predicate RevokesFrom(effects: seq<Effect>, low: nat)
  {
    forall k :: 0 <= k < |effects| && effects[k].Revoke? ==> effects[k].url >= low
  }

  /** A batch revokes only URLs it created itself, and never lowers the
      counter. */
  lemma {:induction false} DownloadAllRevokesFresh(s: State, paths: seq<string>)
    ensures RevokesFrom(DownloadAll(s, paths).effects, s.nextUrl)
    ensures DownloadAll(s, paths).state.nextUrl >= s.nextUrl
    decreases |paths|
  {
    if paths != [] {
      var first := DownloadFile(s, paths[0]);
      DownloadAllRevokesFresh(first.state, paths[1..]);
      var rest := DownloadAll(first.state, paths[1..]);
      assert DownloadAll(s, paths).effects == first.effects + rest.effects;
      forall k | 0 <= k < |first.effects + rest.effects| && (first.effects + rest.effects)[k].Revoke?
        ensures (first.effects + rest.effects)[k].url >= s.nextUrl
      {
        if k >= |first.effects| {
          assert (first.effects + rest.effects)[k] == rest.effects[k - |first.effects|];
        }
      }
    }
  }

  /** No handler revokes a URL created before it ran, and none lowers the
      counter. */
  lemma ApplyRevokesFresh(s: State, e: Event, validJson: string -> bool)
    ensures RevokesFrom(Apply(s, e, validJson).effects, s.nextUrl)
    ensures Apply(s, e, validJson).state.nextUrl >= s.nextUrl
  {
    match e
    case DownloadSelected => DownloadAllRevokesFresh(s, s.selected);
    case PreviewEntry(path) => PreviewOutcomes(s, path, validJson);
    case _ =>
  }

  /** A URL that exists before a run of events is never revoked by it. */
  lemma {:induction false} EarlierUrlsNeverRevoked(s: State, events: seq<Event>, validJson: string -> bool, u: nat)
    requires u < s.nextUrl
    ensures Revoke(u) !in RunEffects(s, events, validJson)
    decreases |events|
  {
    if events != [] {
      var first := Apply(s, events[0], validJson);
      ApplyRevokesFresh(s, events[0], validJson);
      EarlierUrlsNeverRevoked(first.state, events[1..], validJson, u);
      var rest := RunEffects(first.state, events[1..], validJson);
      var all := first.effects + rest;
      forall k | 0 <= k < |all|
        ensures all[k] != Revoke(u)
      {
        if k < |first.effects| {
          assert all[k] == first.effects[k];
        } else {
          assert all[k] == rest[k - |first.effects|];
        }
      }
    }
  }

  /** An image preview's URL outlives the preview: whatever happens next,
      closing the modal, previewing another entry or anything else, no later
      event revokes it. */
  lemma PreviewUrlNeverRevokedLater(s: State, path: string, events: seq<Event>, validJson: string -> bool)
    requires FileAt(s.zip, path).Some? && IsImage(path)
    ensures var shown := PreviewFileContent(s, path, validJson);
      && shown.effects == [CreateUrl(s.nextUrl)]
      && Revoke(s.nextUrl) !in RunEffects(shown.state, events, validJson)
  {
    PreviewOutcomes(s, path, validJson);
    EarlierUrlsNeverRevoked(PreviewFileContent(s, path, validJson).state, events, validJson, s.nextUrl);
  }

  /** With the prefix box emptied, files are saved under their bare paths. */
  lemma EmptyPrefixSavesBarePath(s: State, path: string)
    requires FileAt(s.zip, path).Some?
    ensures Saves(DownloadFile(SetPrefix(s, ""), path).effects) == [path]
  {
    DownloadFileTransfers(SetPrefix(s, ""), path);
  }

  /** After a successful load, a batch saves every selected file of the new
      archive under the dropped file's name (less `.zip`), an underscore and
      its entry path. */
  lemma LoadThenBatchNames(s: State, fileName: string, a: Archive, paths: seq<string>)
    ensures var loaded := HandleFileSelect(s, fileName, Read(a)).state;
      Saves(DownloadAll(loaded, paths).effects) == Prefixed(StripZip(fileName) + "_", Present(Some(a), paths))
  {
    DownloadAllFacts(HandleFileSelect(s, fileName, Read(a)).state, paths);
  }
}
