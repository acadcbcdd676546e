/** What one request to upload_inline (app.py:390-421) or api_files_upload
    (app.py:515-531) does to the directory: each accepted part is stored
    under the name the probe loop allocates for its sanitised file name,
    in the order the parts arrive. */
module Uploads {
  import opened FileNames
  import opened Replies
  import opened Storage
  import opened Listing

  /** One part of the multipart "files" field: the file name the client
      sent and the bytes. An empty file name is what a browser sends for a
      field left empty, and it makes the FileStorage object falsy. */
  datatype Part = Part(filename: string, content: Bytes)

  /** werkzeug's secure_filename never answers a name holding '/', '\' or
      NUL. */
  ghost predicate SanitizerSafe(sanitize: string -> string) {
    forall s :: !HasSeparator(sanitize(s)) && '\0' !in sanitize(s)
  }

  /** The filter at the head of both upload loops: a part whose file name
      is empty is skipped, and the page route (`checkAllowed`) also skips
      names is_allowed refuses (app.py:398-401, app.py:522). */
  predicate Accepted(p: Part, checkAllowed: bool) {
    p.filename != "" && (!checkAllowed || IsAllowed(p.filename))
  }

  /** The parts an upload stores, in request order. */
  function Kept(parts: seq<Part>, checkAllowed: bool): (r: seq<Part>)
    ensures |r| <= |parts|
    ensures forall i :: 0 <= i < |r| ==> Accepted(r[i], checkAllowed)
    ensures (forall i :: 0 <= i < |parts| ==> Accepted(parts[i], checkAllowed)) ==> r == parts
    ensures (forall i :: 0 <= i < |parts| ==> !Accepted(parts[i], checkAllowed)) ==> r == []
    decreases |parts|
  {
    if parts == [] then []
    else
      var init := parts[..|parts| - 1];
      var p := parts[|parts| - 1];
      assert parts == init + [p];
      if Accepted(p, checkAllowed) then Kept(init, checkAllowed) + [p] else Kept(init, checkAllowed)
  }

  /** A single part is kept exactly when it is accepted. */
  lemma KeptOne(p: Part, checkAllowed: bool)
    ensures Kept([p], checkAllowed) == if Accepted(p, checkAllowed) then [p] else []
  {
    assert [p][..0] == [];
  }

  /** Filtering a request is filtering its two halves one after the other:
      every accepted part is kept, in request order. */
  lemma {:induction false} KeptAppend(a: seq<Part>, b: seq<Part>, checkAllowed: bool)
    ensures Kept(a + b, checkAllowed) == Kept(a, checkAllowed) + Kept(b, checkAllowed)
    decreases |b|
  {
    if b == [] {
      assert a + b == a;
    } else {
      var init, p := b[..|b| - 1], b[|b| - 1];
      assert (a + b)[..|a + b| - 1] == a + init;
      assert (a + b)[|a + b| - 1] == p;
      KeptAppend(a, init, checkAllowed);
    }
  }

  /** The directory after the parts are saved one after the other, and the
      names they were saved under (the `saved` list). */
  ghost function UploadAll(dir: Dir, parts: seq<Part>, sanitize: string -> string, checkAllowed: bool): (Dir, seq<string>)
    decreases |parts|
  {
    if parts == [] then (dir, [])
    else
      var (d, saved) := UploadAll(dir, parts[..|parts| - 1], sanitize, checkAllowed);
      var p := parts[|parts| - 1];
      if !Accepted(p, checkAllowed) then (d, saved)
      else
        var name := Allocation(d, sanitize(p.filename));
        (d[name := p.content], saved + [name])
  }

  /** The total size of the parts' contents. */
  function PartBytes(parts: seq<Part>): nat
    decreases |parts|
  {
    if parts == [] then 0 else PartBytes(parts[..|parts| - 1]) + |parts[|parts| - 1].content|
  }

  /** An upload only adds files: every file stored before keeps its bytes,
      the directory gains exactly the saved names, those names are fresh and
      pairwise distinct, each holds the content of the accepted part it was
      saved for, and the directory stays one a directory can be. */
  lemma {:induction false} UploadAllEffects(dir: Dir, parts: seq<Part>, sanitize: string -> string, checkAllowed: bool)
    requires WellFormed(dir) && SanitizerSafe(sanitize)
    ensures var (d, saved) := UploadAll(dir, parts, sanitize, checkAllowed);
            var kept := Kept(parts, checkAllowed);
            && WellFormed(d)
            && (forall n :: n in dir ==> n in d && d[n] == dir[n])
            && (forall n :: n in d <==> n in dir || n in saved)
            && |saved| == |kept|
            && (forall i :: 0 <= i < |saved| ==> saved[i] !in dir && saved[i] in d && d[saved[i]] == kept[i].content)
            && (forall i, j :: 0 <= i < j < |saved| ==> saved[i] != saved[j])
            && |d| == |dir| + |saved|
    decreases |parts|
  {
    if parts != [] {
      var init := parts[..|parts| - 1];
      var p := parts[|parts| - 1];
      UploadAllEffects(dir, init, sanitize, checkAllowed);
      var (d, saved) := UploadAll(dir, init, sanitize, checkAllowed);
      if Accepted(p, checkAllowed) {
        var b := sanitize(p.filename);
        assert !HasSeparator(b) && '\0' !in b;
        AllocationIsFreeEntry(d, b);
        var name := Allocation(d, b);
        assert name !in d;
        var kept := Kept(init, checkAllowed);
        assert Kept(parts, checkAllowed) == kept + [p];
        var saved' := saved + [name];
        var d' := d[name := p.content];
        forall i | 0 <= i < |saved'|
          ensures saved'[i] !in dir && saved'[i] in d' && d'[saved'[i]] == (kept + [p])[i].content
        {
          if i < |saved| {
            assert saved'[i] == saved[i] != name;
          }
        }
        assert d'.Keys == d.Keys + {name};
      } else {
        assert Kept(parts, checkAllowed) == Kept(init, checkAllowed);
      }
    }
  }

  /** The stored total grows by exactly the size of the accepted parts. */
  lemma {:induction false} UploadAllTotal(dir: Dir, parts: seq<Part>, sanitize: string -> string, checkAllowed: bool)
    requires WellFormed(dir) && SanitizerSafe(sanitize)
    ensures TotalBytes(UploadAll(dir, parts, sanitize, checkAllowed).0) == TotalBytes(dir) + PartBytes(Kept(parts, checkAllowed))
    decreases |parts|
  {
    if parts != [] {
      var init := parts[..|parts| - 1];
      var p := parts[|parts| - 1];
      UploadAllTotal(dir, init, sanitize, checkAllowed);
      UploadAllEffects(dir, init, sanitize, checkAllowed);
      var (d, saved) := UploadAll(dir, init, sanitize, checkAllowed);
      var kept := Kept(init, checkAllowed);
      if Accepted(p, checkAllowed) {
        var b := sanitize(p.filename);
        assert !HasSeparator(b) && '\0' !in b;
        AllocationIsFreeEntry(d, b);
        TotalBytesAdd(d, Allocation(d, b), p.content);
        assert Kept(parts, checkAllowed) == kept + [p];
        assert (kept + [p])[..|kept|] == kept;
      } else {
        assert Kept(parts, checkAllowed) == kept;
      }
    }
  }

  /** A request whose every part has an empty file name stores nothing. */
  lemma {:induction false} EmptyPartsStoreNothing(dir: Dir, parts: seq<Part>, sanitize: string -> string, checkAllowed: bool)
    requires forall i :: 0 <= i < |parts| ==> parts[i].filename == ""
    ensures UploadAll(dir, parts, sanitize, checkAllowed) == (dir, [])
    decreases |parts|
  {
    if parts != [] {
      EmptyPartsStoreNothing(dir, parts[..|parts| - 1], sanitize, checkAllowed);
    }
  }

  /** The first part of a request is stored under its sanitised name when
      nothing exists under that name yet, and otherwise under the first free
      candidate "{base}_{i}{ext}". */
  lemma FirstPartName(dir: Dir, p: Part, sanitize: string -> string, checkAllowed: bool)
    requires Accepted(p, checkAllowed)
    ensures UploadAll(dir, [p], sanitize, checkAllowed).1 == [Allocation(dir, sanitize(p.filename))]
    ensures IsAllocation(dir, sanitize(p.filename), Allocation(dir, sanitize(p.filename)))
  {
    assert [p][..0] == [];
  }

  /** Uploading and then downloading a saved name gives back the bytes the
      client sent for it (download, app.py:424-426), for a safe_join that
      leaves plain entry names as they are. */
  lemma UploadThenDownload(dir: Dir, parts: seq<Part>, sanitize: string -> string, checkAllowed: bool,
                           join: string -> Option<string>, i: nat)
    requires WellFormed(dir) && SanitizerSafe(sanitize)
    requires forall n :: EntryName(n) ==> join(n) == Some(n)
    requires i < |UploadAll(dir, parts, sanitize, checkAllowed).1|
    ensures var (d, saved) := UploadAll(dir, parts, sanitize, checkAllowed);
            var kept := Kept(parts, checkAllowed);
            i < |kept| && Fetch(d, join(saved[i])) == Ok(kept[i].content)
  {
    UploadAllEffects(dir, parts, sanitize, checkAllowed);
  }

  /** Uploading "report.txt" twice into an empty directory stores
      "report.txt" and then "report_1.txt", 5 bytes in all. */
  lemma ReportTwice(sanitize: string -> string, first: Bytes, second: Bytes)
    requires sanitize("report.txt") == "report.txt"
    requires |first| == 2 && |second| == 3
    ensures var parts := [Part("report.txt", first), Part("report.txt", second)];
            var (d, saved) := UploadAll(map[], parts, sanitize, true);
            saved == ["report.txt", "report_1.txt"] &&
            d == map["report.txt" := first, "report_1.txt" := second] &&
            TotalBytes(d) == 5
  {
    var parts := [Part("report.txt", first), Part("report.txt", second)];
    var empty: Dir := map[];
    CandidateOfReport();
    CandidateIsEntryName("report.txt", 1);
    FirstReallocation(empty, "report.txt", first);
    assert parts[..1] == [parts[0]];
    FirstPartName(empty, parts[0], sanitize, true);
    assert UploadAll(empty, parts[..1], sanitize, true) == (map["report.txt" := first], ["report.txt"]);
    var d := map["report.txt" := first, "report_1.txt" := second];
    TotalBytesAdd(empty, "report.txt", first);
    TotalBytesAdd(map["report.txt" := first], "report_1.txt", second);
  }
}
