/** The subject-image picker: the list of uploaded character images and the
    parallel list of their thumbnails, with the handlers that add files to it
    and remove one entry from it.

    Reading a file (`FileReader.readAsDataURL`) and `URL.createObjectURL` come
    in as parameters: how each file's read settles, and the handle made for a
    file. */
module CharacterReferenceInput {
  import opened Js
  import opened Types

  // ---------------------------------------------------------------------------
  // fileToBase64
  // ---------------------------------------------------------------------------

  /** `s.split(sep)` for a one-character separator: the pieces between the
      separators, in order; there is always at least one. */
  function Split(s: string, sep: char): (pieces: seq<string>)
    ensures |pieces| >= 1
  {
    if s == [] then [""] else Extend(Split(s[..|s| - 1], sep), s[|s| - 1], sep)
  }

  /** The pieces after one more character: a separator opens a new, empty
      piece; any other character extends the last piece. */
  function Extend(pieces: seq<string>, c: char, sep: char): (r: seq<string>)
    requires |pieces| >= 1
    ensures |r| >= |pieces| && r[..|pieces| - 1] == pieces[..|pieces| - 1]
  {
    if c == sep then pieces + [""] else pieces[..|pieces| - 1] + [pieces[|pieces| - 1] + [c]]
  }

  /** Extending only touches the last list of pieces. */
  lemma ExtendAppend(left: seq<string>, right: seq<string>, c: char, sep: char)
    requires |right| >= 1
    ensures Extend(left + right, c, sep) == left + Extend(right, c, sep)
  {
    if c != sep {
      assert (left + right)[..|left + right| - 1] == left + right[..|right| - 1];
    }
  }

  /** Joining the pieces with the separator gives the string back, and no
      piece contains the separator. */
  lemma {:induction false} SplitJoin(s: string, sep: char)
    ensures Join(Split(s, sep), [sep]) == s
    ensures forall i :: 0 <= i < |Split(s, sep)| ==> sep !in Split(s, sep)[i]
  {
    if s != [] {
      var t, c := s[..|s| - 1], s[|s| - 1];
      assert s == t + [c];
      SplitSnoc(t, c, sep);
      SplitJoin(t, sep);
      ExtendJoin(Split(t, sep), c, sep);
    }
  }

  /** One step of `SplitJoin`: extending separator-free pieces by one
      character extends their join by that character and keeps them free of
      the separator. */
  lemma ExtendJoin(pieces: seq<string>, c: char, sep: char)
    requires |pieces| >= 1
    requires forall i :: 0 <= i < |pieces| ==> sep !in pieces[i]
    ensures Join(Extend(pieces, c, sep), [sep]) == Join(pieces, [sep]) + [c]
    ensures forall i :: 0 <= i < |Extend(pieces, c, sep)| ==> sep !in Extend(pieces, c, sep)[i]
  {
    var k := |pieces|;
    var r := Extend(pieces, c, sep);
    if c != sep {
      assert r[k - 1] == pieces[k - 1] + [c];
      if k > 1 {
        assert pieces[..k - 1] + [pieces[k - 1]] == pieces;
      }
    } else {
      assert r[..k] == pieces;
    }
  }

  /** Splitting at a separator splits the two sides separately. */
  lemma {:induction false} SplitAt(a: string, b: string, sep: char)
    ensures Split(a + [sep] + b, sep) == Split(a, sep) + Split(b, sep)
  {
    if b == [] {
      SplitSnoc(a, sep, sep);
      assert a + [sep] + b == a + [sep];
    } else {
      var b' := b[..|b| - 1];
      var c := b[|b| - 1];
      assert b == b' + [c];
      assert a + [sep] + b == (a + [sep] + b') + [c];
      SplitSnoc(a + [sep] + b', c, sep);
      SplitSnoc(b', c, sep);
      SplitAt(a, b', sep);
      ExtendAppend(Split(a, sep), Split(b', sep), c, sep);
    }
  }

  /** One more character extends the pieces by that character. */
  lemma SplitSnoc(t: string, c: char, sep: char)
    ensures Split(t + [c], sep) == Extend(Split(t, sep), c, sep)
  {
    assert (t + [c])[..|t|] == t;
  }

  /** A string without the separator is one piece. */
  lemma {:induction false} SplitWithout(s: string, sep: char)
    requires sep !in s
    ensures Split(s, sep) == [s]
  {
    if s != [] {
      assert sep !in s[..|s| - 1];
      SplitWithout(s[..|s| - 1], sep);
      assert s[..|s| - 1] + [s[|s| - 1]] == s;
    }
  }

  /** `result.split(',')[1]`: the text between the first comma and the next
      one (or the end); `None` stands for `undefined`, when there is no comma. */
  function Payload(dataUrl: string): Option<string> {
    var pieces := Split(dataUrl, ',');
    if |pieces| > 1 then Some(pieces[1]) else None
  }

  /** The payload is the second comma-separated field: whatever precedes the
      first comma is dropped, and the field stops at the next comma. It is
      missing exactly when there is no comma. */
  lemma PayloadMeaning(header: string, rest: string)
    requires ',' !in header
    ensures Payload(header + [','] + rest) == Some(Split(rest, ',')[0])
    ensures Payload(header) == None
  {
    SplitAt(header, rest, ',');
    SplitWithout(header, ',');
  }

  /** The payload of a data URL `data:<type>;base64,<data>`, whose parts hold
      no comma, is `<data>`. */
  lemma DataUrlPayload(header: string, data: string)
    requires ',' !in header && ',' !in data
    ensures Payload(header + "," + data) == Some(data)
  {
    PayloadMeaning(header, data);
    SplitWithout(data, ',');
  }

  /** `fileToBase64(file)` together with the entry `handleFileChange` makes of
      it: the payload of the file's data URL (the empty string when there is
      none) and the type the browser declares for the file; a failed read
      rejects. */
  function FileToBase64(file: File, read: File -> Settled<string>): (r: Settled<UploadedFile>)
    ensures r.Resolved? <==> read(file).Resolved?
    ensures r.Resolved? ==> r.value.file == file && r.value.mimeType == file.mimeType
  {
    match read(file)
    case Rejected(m) => Rejected(m)
    case Resolved(dataUrl) =>
      var base64 := if Payload(dataUrl).Some? then Payload(dataUrl).value else "";
      Resolved(UploadedFile(file, base64, file.mimeType))
  }

  /** A conversion settles as the read does. A successful one is an entry for
      that very file, whose media type is the one the browser declares for the
      file (not the one written in the data URL) and whose payload is the
      second comma-separated field of the data URL, or empty without a comma. */
  lemma FileToBase64Meaning(file: File, read: File -> Settled<string>)
    ensures FileToBase64(file, read).Resolved? <==> read(file).Resolved?
    ensures read(file).Rejected? ==> FileToBase64(file, read) == Rejected(read(file).message)
    ensures read(file).Resolved? ==>
      var u := FileToBase64(file, read).value;
      var dataUrl := read(file).value;
      && u.file == file && u.mimeType == file.mimeType
      && (',' in dataUrl ==> |Split(dataUrl, ',')| > 1 && u.base64 == Split(dataUrl, ',')[1])
      && (',' !in dataUrl ==> u.base64 == "")
  {
    if read(file).Resolved? {
      var dataUrl := read(file).value;
      if ',' in dataUrl {
        var k :| 0 <= k < |dataUrl| && dataUrl[k] == ',';
        assert dataUrl == dataUrl[..k] + [','] + dataUrl[k + 1..];
        SplitAt(dataUrl[..k], dataUrl[k + 1..], ',');
      } else {
        SplitWithout(dataUrl, ',');
      }
    }
  }

  /** Read as `<header>,<data>` with no other comma, a file converts to an
      entry whose payload is exactly `<data>`, whatever media type the header
      names. */
  lemma FileToBase64OfDataUrl(file: File, read: File -> Settled<string>, header: string, data: string)
    requires read(file) == Resolved(header + "," + data)
    requires ',' !in header && ',' !in data
    ensures FileToBase64(file, read) == Resolved(UploadedFile(file, data, file.mimeType))
  {
    DataUrlPayload(header, data);
  }

  // ---------------------------------------------------------------------------
  // The lists handleFileChange builds
  // ---------------------------------------------------------------------------

  /** `uploadedFiles.map(uf => uf.file)`. */
  function FilesOf(uploaded: seq<UploadedFile>): (files: seq<File>)
    ensures |files| == |uploaded| && forall i :: 0 <= i < |files| ==> files[i] == uploaded[i].file
  {
    seq(|uploaded|, i requires 0 <= i < |uploaded| => uploaded[i].file)
  }

  /** One thumbnail handle per file, in the files' order. */
  function Previews(files: seq<File>, objectUrl: File -> string): (previews: seq<string>)
    ensures |previews| == |files| && forall i :: 0 <= i < |files| ==> previews[i] == objectUrl(files[i])
  {
    seq(|files|, i requires 0 <= i < |files| => objectUrl(files[i]))
  }

  /** The entries of the files whose conversion succeeded, in the files' order. */
  function Kept(files: seq<File>, read: File -> Settled<string>): seq<UploadedFile> {
    if files == [] then []
    else
      var last := files[|files| - 1];
      Kept(files[..|files| - 1], read)
      + match FileToBase64(last, read) case Resolved(u) => [u] case Rejected(_) => []
  }

  /** Keeping distributes over concatenation: the entries of earlier files come first. */
  lemma {:induction false} KeptAppend(a: seq<File>, b: seq<File>, read: File -> Settled<string>)
    ensures Kept(a + b, read) == Kept(a, read) + Kept(b, read)
  {
    if b == [] {
      assert a + b == a;
    } else {
      assert (a + b)[..|a + b| - 1] == a + b[..|b| - 1];
      KeptAppend(a, b[..|b| - 1], read);
    }
  }

  /** At most one entry per file, and one for every file exactly when every
      conversion succeeded. Each entry is the conversion of one of the files,
      and every successful conversion has its entry. */
  lemma {:induction false} KeptMeaning(files: seq<File>, read: File -> Settled<string>)
    ensures |Kept(files, read)| <= |files|
    ensures |Kept(files, read)| == |files| <==> forall i :: 0 <= i < |files| ==> read(files[i]).Resolved?
    ensures forall u :: u in Kept(files, read) ==> u.file in files && FileToBase64(u.file, read) == Resolved(u)
    ensures forall f :: f in files && read(f).Resolved? ==> FileToBase64(f, read).value in Kept(files, read)
  {
    if files != [] {
      var init, last := files[..|files| - 1], files[|files| - 1];
      assert files == init + [last];
      KeptMeaning(init, read);
      if |Kept(files, read)| == |files| {
        assert |Kept(init, read)| == |init| && read(last).Resolved?;
      }
      forall f | f in files && read(f).Resolved? ensures FileToBase64(f, read).value in Kept(files, read) {
        if f != last {
          assert f in init;
        }
      }
    }
  }

  /** Each thumbnail belongs to the entry at the same position. */
  predicate Aligned(uploaded: seq<UploadedFile>, previews: seq<string>, objectUrl: File -> string) {
    |uploaded| == |previews| && forall i :: 0 <= i < |previews| ==> previews[i] == objectUrl(uploaded[i].file)
  }

  /** When every conversion succeeds, the entries and thumbnails line up. */
  lemma {:induction false} AlignedWhenAllConverted(files: seq<File>, read: File -> Settled<string>, objectUrl: File -> string)
    requires forall i :: 0 <= i < |files| ==> read(files[i]).Resolved?
    ensures Aligned(Kept(files, read), Previews(files, objectUrl), objectUrl)
    ensures FilesOf(Kept(files, read)) == files
  {
    if files != [] {
      var init := files[..|files| - 1];
      AlignedWhenAllConverted(init, read, objectUrl);
      assert FilesOf(Kept(files, read)) == FilesOf(Kept(init, read)) + [files[|files| - 1]];
      assert init + [files[|files| - 1]] == files;
    }
  }

  // ---------------------------------------------------------------------------
  // handleRemoveImage
  // ---------------------------------------------------------------------------

  /** `s.filter((_, index) => index !== i)`. */
  function RemoveAt<T>(s: seq<T>, i: int): seq<T> {
    if 0 <= i < |s| then s[..i] + s[i + 1..] else s
  }

  /** Removal drops exactly position `i` when it exists and keeps the others in
      their order; an index outside the list removes nothing. */
  lemma RemoveAtMeaning<T>(s: seq<T>, i: int)
    ensures 0 <= i < |s| ==> |RemoveAt(s, i)| == |s| - 1
    ensures !(0 <= i < |s|) ==> RemoveAt(s, i) == s
    ensures forall j :: 0 <= j < |RemoveAt(s, i)| ==> RemoveAt(s, i)[j] == s[if 0 <= i <= j then j + 1 else j]
  {
  }

  /** Removing the same position from aligned lists keeps them aligned. */
  lemma RemovePreservesAlignment(uploaded: seq<UploadedFile>, previews: seq<string>, objectUrl: File -> string, i: int)
    requires Aligned(uploaded, previews, objectUrl)
    ensures Aligned(RemoveAt(uploaded, i), RemoveAt(previews, i), objectUrl)
  {
    RemoveAtMeaning(uploaded, i);
    RemoveAtMeaning(previews, i);
  }

  /** A failed conversion puts the lists out of step: with the first of two
      files unreadable, the first thumbnail is that file's while the only entry
      is the second file's, and removing the first thumbnail then drops the
      second file's entry and leaves its thumbnail with no entry behind it. */
  lemma FailedConversionMisaligns(first: File, second: File, read: File -> Settled<string>, objectUrl: File -> string)
    requires read(first).Rejected? && read(second).Resolved?
    requires objectUrl(first) != objectUrl(second)
    ensures var kept := Kept([first, second], read);
      var shown := Previews([first, second], objectUrl);
      && kept == [FileToBase64(second, read).value] && shown == [objectUrl(first), objectUrl(second)]
      && !Aligned(kept, shown, objectUrl)
      && RemoveAt(kept, 0) == [] && RemoveAt(shown, 0) == [objectUrl(second)]
  {
    assert [first, second][..1] == [first];
    assert [first][..0] == [];
    assert Kept([first], read) == [];
    var shown := Previews([first, second], objectUrl);
    assert shown == [objectUrl(first), objectUrl(second)];
  }

  // ---------------------------------------------------------------------------
  // The component
  // ---------------------------------------------------------------------------

  /** The component's state: the uploaded entries handed to the page and the
      thumbnail handles shown. */
  class CharacterReferenceInput {
    var uploadedFiles: seq<UploadedFile>
    var previews: seq<string>

    /** Both lists start empty. */
    constructor()
      ensures uploadedFiles == [] && previews == []
    {
      uploadedFiles, previews := [], [];
    }

    /** `handleFileChange`. With no file list (`null`) nothing changes and the
        page is not told. Otherwise every file, the ones already uploaded and
        then the new ones, gets a thumbnail, the entries become the successful
        conversions, and the page receives exactly that list. */
    method HandleFileChange(files: Option<seq<File>>, read: File -> Settled<string>, objectUrl: File -> string)
      returns (selected: Option<seq<UploadedFile>>)
      modifies this
      ensures files.None? ==> uploadedFiles == old(uploadedFiles) && previews == old(previews) && selected.None?
      ensures files.Some? ==>
        var allFiles := FilesOf(old(uploadedFiles)) + files.value;
        && previews == Previews(allFiles, objectUrl)
        && uploadedFiles == Kept(allFiles, read)
        && selected == Some(uploadedFiles)
    {
      if files.None? {
        return None;
      }
      var newFiles := files.value;
      var allFiles := FilesOf(uploadedFiles) + newFiles;
      var newUploadedFiles: seq<UploadedFile> := [];
      var newPreviews: seq<string> := [];
      var i := 0;
      while i < |allFiles|
        invariant 0 <= i <= |allFiles|
        invariant newPreviews == Previews(allFiles[..i], objectUrl)
        invariant newUploadedFiles == Kept(allFiles[..i], read)
      {
        var file := allFiles[i];
        assert allFiles[..i + 1][..i] == allFiles[..i];
        newPreviews := newPreviews + [objectUrl(file)];
        var converted := FileToBase64(file, read);
        if converted.Resolved? {
          newUploadedFiles := newUploadedFiles + [converted.value];
        }
        i := i + 1;
      }
      assert allFiles[..i] == allFiles;
      uploadedFiles, previews := newUploadedFiles, newPreviews;
      selected := Some(newUploadedFiles);
    }

    /** `handleRemoveImage`: revoke the thumbnail at the index (none when the
        index is outside the thumbnails), drop that position from both lists,
        and hand the page the new entries. */
    method HandleRemoveImage(indexToRemove: int) returns (revoked: Option<string>, selected: seq<UploadedFile>)
      modifies this
      ensures revoked == if 0 <= indexToRemove < |old(previews)| then Some(old(previews)[indexToRemove]) else None
      ensures uploadedFiles == RemoveAt(old(uploadedFiles), indexToRemove)
      ensures previews == RemoveAt(old(previews), indexToRemove)
      ensures selected == uploadedFiles
    {
      revoked := if 0 <= indexToRemove < |previews| then Some(previews[indexToRemove]) else None;
      var newUploaded := RemoveAt(uploadedFiles, indexToRemove);
      var newPreviews := RemoveAt(previews, indexToRemove);
      uploadedFiles, previews := newUploaded, newPreviews;
      selected := newUploaded;
    }
  }
}
