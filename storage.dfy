/** The storage directory as a value, and the rules app.py applies to it
    without changing it: which names exist, how a requested name is
    resolved to a stored file (existing_file_path), which files may be
    edited in the browser (is_editable, is_allowed), and which name the
    upload routes' probe loop settles on. */
module Storage {
  import opened FileNames
  import opened Replies
  import opened Utf8

  /** The content of a file. */
  type Bytes = seq<byte>

  /** The regular files directly under the storage root, by name. */
  type Dir = map<string, Bytes>

  /** Every stored name is one a directory can hold as an entry. */
  predicate WellFormed(dir: Dir) {
    forall n :: n in dir ==> EntryName(n)
  }

  /** Path.exists() of UPLOAD_DIR / n for a name without '/': true for the
      stored files, and for "" and "." (the root itself) and ".." (its
      parent). A name holding NUL is never stored, and Path.exists()
      answers False for it. */
  predicate Exists(dir: Dir, n: string) {
    n in dir || n == "" || n == "." || n == ".."
  }

  /** An entry name that exists is a stored file. */
  lemma ExistingEntryIsStored(dir: Dir, n: string)
    requires EntryName(n) && Exists(dir, n)
    ensures n in dir
  {
  }

  // ---------------------------------------------------------------------
  // existing_file_path
  // ---------------------------------------------------------------------

  /** existing_file_path (app.py:45-54). `joined` is what werkzeug's
      safe_join answered for the requested name: the normalised path
      relative to the storage root, or None when it refused the name.
      Then: 400 when safe_join refused, 404 when no regular file is there,
      400 when the file's parent is not the storage root itself. */
  function Resolve(dir: Dir, joined: Option<string>): (r: Result<string>)
    ensures r.Ok? ==> r.value in dir && EntryName(r.value)
    ensures r.Err? ==> r.failure == BadRequest || r.failure == NotFound
    ensures joined.None? ==> r == Err(BadRequest)
    ensures joined.Some? && WellFormed(dir) ==>
              (r.Ok? <==> joined.value in dir) && (r.Err? ==> r.failure == NotFound)
  {
    match joined
    case None => Err(BadRequest)
    case Some(rel) =>
      if rel !in dir then Err(NotFound)
      else if !EntryName(rel) then Err(BadRequest)
      else Ok(rel)
  }

  /** For a plain file name, which safe_join leaves as it is, resolution
      succeeds exactly when a file of exactly that name is stored, and then
      yields that name; otherwise it answers 404. */
  lemma ResolvePlainName(dir: Dir, n: string)
    requires WellFormed(dir)
    ensures Resolve(dir, Some(n)) == (if n in dir then Ok(n) else Err(NotFound))
  {
  }

  /** download and view (app.py:424-430): send_from_directory answers the
      bytes of the regular file the joined path names, and 404 both when
      safe_join refuses the name and when no regular file is there. */
  function Fetch(dir: Dir, joined: Option<string>): (r: Result<Bytes>)
    ensures r.Ok? <==> joined.Some? && joined.value in dir
    ensures r.Ok? ==> r.value == dir[joined.value]
    ensures r.Err? ==> r.failure == NotFound
  {
    match joined
    case None => Err(NotFound)
    case Some(rel) => if rel in dir then Ok(dir[rel]) else Err(NotFound)
  }

  // ---------------------------------------------------------------------
  // is_allowed and is_editable
  // ---------------------------------------------------------------------

  /** EDITABLE_EXTS (app.py:19). */
  const EditableExts: set<string> := {".txt", ".md", ".json", ".csv", ".py", ".html", ".css", ".js"}

  /** MAX_EDIT_BYTES (app.py:23). */
  const MaxEditBytes: nat := 1_000_000

  /** ALLOWED_EXTS (app.py:25): None accepts every file name. */
  const AllowedExts: Option<set<string>> := None

  /** The last path component of a client-side file name. */
  function LastComponent(p: string): string {
    p[LastIndexOf(p, '/') + 1..]
  }

  /** is_allowed (app.py:33-34). */
  predicate IsAllowed(filename: string) {
    match AllowedExts
    case None => true
    case Some(exts) => Lower(Suffix(LastComponent(filename))) in exts
  }

  /** With ALLOWED_EXTS set to None, the upload filter lets every name in. */
  lemma EveryNameAllowed(filename: string)
    ensures IsAllowed(filename)
  {
  }

  /** is_editable (app.py:36-37) for the stored file `name`: its lower-cased
      suffix is an editable extension, it is a regular file and it holds at
      most MAX_EDIT_BYTES bytes. */
  predicate IsEditable(dir: Dir, name: string) {
    Lower(Suffix(name)) in EditableExts && name in dir && |dir[name]| <= MaxEditBytes
  }

  /** Whether `name` ends in `ext`, ignoring ASCII case, with at least one
      character before it. */
  predicate EndsWithIgnoringCase(name: string, ext: string) {
    |ext| < |name| && Lower(name[|name| - |ext|..]) == ext
  }

  /** Each editable extension is a '.' and then two or more characters,
      none of them a '.' and none an upper-case letter. */
  lemma EditableExtsShape(e: string)
    requires e in EditableExts
    ensures |e| >= 3 && e[0] == '.'
    ensures forall i :: 1 <= i < |e| ==> e[i] != '.'
    ensures Lower(e) == e
  {
  }

  /** The editability rule, stated without pathlib: a stored file is
      editable exactly when it holds at most MAX_EDIT_BYTES bytes and its
      name ends, ignoring case, in one of EDITABLE_EXTS with something
      before it ("a.TXT" and "..txt" are editable, ".txt", "txt" and
      "a.txt.bak" are not). */
  lemma EditableIff(dir: Dir, name: string)
    ensures IsEditable(dir, name) <==>
      name in dir && |dir[name]| <= MaxEditBytes &&
      exists e :: e in EditableExts && EndsWithIgnoringCase(name, e)
  {
    var s := Suffix(name);
    if IsEditable(dir, name) {
      var e := Lower(s);
      EditableExtsShape(e);
      assert EndsWithIgnoringCase(name, e);
    }
    if name in dir && |dir[name]| <= MaxEditBytes &&
       exists e :: e in EditableExts && EndsWithIgnoringCase(name, e) {
      var e :| e in EditableExts && EndsWithIgnoringCase(name, e);
      EditableExtsShape(e);
      var d := |name| - |e|;
      var tail := name[d..];
      assert forall i :: 0 <= i < |e| ==> LowerChar(tail[i]) == e[i];
      assert forall i :: 0 <= i < |e| ==> (tail[i] == '.' <==> e[i] == '.');
      assert name[d] == tail[0] == '.';
      var k := LastIndexOf(name, '.');
      assert k >= d;
      assert forall i :: d < i < |name| ==> name[i] == tail[i - d] != '.';
      assert k == d;
      assert s == tail;
    }
  }

  /** Editability does not depend on the case of the name. */
  lemma EditableIgnoresCase(dir: Dir, a: string, b: string)
    requires Lower(a) == Lower(b)
    requires a in dir && b in dir && |dir[a]| == |dir[b]|
    ensures IsEditable(dir, a) == IsEditable(dir, b)
  {
    SuffixOfLower(a);
    SuffixOfLower(b);
    LowerIdempotent(Suffix(a));
    LowerIdempotent(Suffix(b));
  }

  lemma LowerIdempotent(s: string)
    ensures Lower(Lower(s)) == Lower(s)
  {
  }

  // ---------------------------------------------------------------------
  // The probe loop of the upload routes
  // ---------------------------------------------------------------------

  /** `i` is the first index whose candidate name is free. */
  predicate LeastFree(dir: Dir, baseName: string, i: nat) {
    && i >= 1
    && !Exists(dir, Candidate(baseName, i))
    && forall j :: 1 <= j < i ==> Exists(dir, Candidate(baseName, j))
  }

  /** The name the upload routes store a file under (app.py:402-411,
      app.py:524-529): the sanitised name itself when nothing exists under
      it, and otherwise the candidate f"{base}_{i}{ext}" of the least
      i >= 1 under which nothing exists. */
  ghost predicate IsAllocation(dir: Dir, baseName: string, name: string) {
    if !Exists(dir, baseName) then name == baseName
    else exists i :: LeastFree(dir, baseName, i) && name == Candidate(baseName, i)
  }

  /** The first `n` candidate names. */
  ghost function CandidatesUpTo(baseName: string, n: nat): set<string> {
    set j | 1 <= j <= n :: Candidate(baseName, j)
  }

  lemma {:induction false} CandidatesUpToSize(baseName: string, n: nat)
    ensures |CandidatesUpTo(baseName, n)| == n
  {
    if n > 0 {
      CandidatesUpToSize(baseName, n - 1);
      assert CandidatesUpTo(baseName, n) == CandidatesUpTo(baseName, n - 1) + {Candidate(baseName, n)};
      if Candidate(baseName, n) in CandidatesUpTo(baseName, n - 1) {
        var j :| 1 <= j <= n - 1 && Candidate(baseName, j) == Candidate(baseName, n);
        CandidateInjective(baseName, j, n);
      }
    }
  }

  lemma CandidateNotLink(dir: Dir, baseName: string, i: nat)
    ensures Exists(dir, Candidate(baseName, i)) <==> Candidate(baseName, i) in dir
  {
    var (base, ext) := SplitExt(baseName);
    assert Candidate(baseName, i)[|base|] == '_';
  }

  /** Pigeonhole: among the first |dir| + 1 candidates one is free. */
  lemma SomeCandidateFree(dir: Dir, baseName: string)
    ensures exists i :: 1 <= i <= |dir| + 1 && !Exists(dir, Candidate(baseName, i))
  {
    var n := |dir| + 1;
    if forall i :: 1 <= i <= n ==> Exists(dir, Candidate(baseName, i)) {
      forall c | c in CandidatesUpTo(baseName, n) ensures c in dir.Keys {
        var j :| 1 <= j <= n && c == Candidate(baseName, j);
        CandidateNotLink(dir, baseName, j);
      }
      CandidatesUpToSize(baseName, n);
      SubsetSize(CandidatesUpTo(baseName, n), dir.Keys);
    }
  }

  lemma SubsetSize<T>(a: set<T>, b: set<T>)
    requires a <= b
    ensures |a| <= |b|
  {
    assert b == a + (b - a);
  }

  /** A free candidate at index `n` or below means there is a least one. */
  lemma {:induction false} LeastFreeBelow(dir: Dir, baseName: string, n: nat)
    requires n >= 1 && !Exists(dir, Candidate(baseName, n))
    ensures exists i :: 1 <= i <= n && LeastFree(dir, baseName, i)
  {
    if !LeastFree(dir, baseName, n) {
      var j :| 1 <= j < n && !Exists(dir, Candidate(baseName, j));
      LeastFreeBelow(dir, baseName, j);
    }
  }

  /** The probe loop always ends, at the latest at index |dir| + 1. */
  lemma LeastFreeExists(dir: Dir, baseName: string)
    ensures exists i :: 1 <= i <= |dir| + 1 && LeastFree(dir, baseName, i)
  {
    SomeCandidateFree(dir, baseName);
    var n :| 1 <= n <= |dir| + 1 && !Exists(dir, Candidate(baseName, n));
    LeastFreeBelow(dir, baseName, n);
  }

  lemma LeastFreeUnique(dir: Dir, baseName: string, i: nat, k: nat)
    requires LeastFree(dir, baseName, i) && LeastFree(dir, baseName, k)
    ensures i == k
  {
  }

  /** Only one name satisfies the allocation rule. */
  lemma AllocationUnique(dir: Dir, baseName: string, a: string, b: string)
    requires IsAllocation(dir, baseName, a) && IsAllocation(dir, baseName, b)
    ensures a == b
  {
    if Exists(dir, baseName) {
      var i :| LeastFree(dir, baseName, i) && a == Candidate(baseName, i);
      var k :| LeastFree(dir, baseName, k) && b == Candidate(baseName, k);
      LeastFreeUnique(dir, baseName, i, k);
    }
  }

  /** The name the upload routes pick for `baseName` in `dir`. */
  ghost function Allocation(dir: Dir, baseName: string): (name: string)
    ensures IsAllocation(dir, baseName, name)
  {
    if !Exists(dir, baseName) then baseName
    else
      LeastFreeExists(dir, baseName);
      var i :| LeastFree(dir, baseName, i);
      Candidate(baseName, i)
  }

  /** The allocated name is free, and it is a name the directory can hold
      when the sanitised name has neither '/' nor NUL. */
  lemma AllocationIsFreeEntry(dir: Dir, baseName: string)
    requires '/' !in baseName && '\0' !in baseName
    ensures !Exists(dir, Allocation(dir, baseName))
    ensures EntryName(Allocation(dir, baseName))
  {
    var name := Allocation(dir, baseName);
    if Exists(dir, baseName) {
      var i :| LeastFree(dir, baseName, i) && name == Candidate(baseName, i);
      CandidateIsEntryName(baseName, i);
    }
  }

  /** Storing a file under its allocated name and then allocating for the
      same sanitised name again moves on to a strictly later candidate:
      "report.txt", then "report_1.txt", then "report_2.txt", ... */
  lemma ReallocationAdvances(dir: Dir, baseName: string, content: Bytes, i: nat)
    requires Exists(dir, baseName) && LeastFree(dir, baseName, i)
    ensures var next := dir[Candidate(baseName, i) := content];
            Exists(next, baseName) &&
            exists k :: k > i && LeastFree(next, baseName, k) && Allocation(next, baseName) == Candidate(baseName, k)
  {
    var next := dir[Candidate(baseName, i) := content];
    var name := Allocation(next, baseName);
    var k: nat :| LeastFree(next, baseName, k) && name == Candidate(baseName, k);
    assert forall j :: 1 <= j <= i ==> Exists(next, Candidate(baseName, j));
  }

  /** The first upload of a free name keeps it; an upload of the same name
      afterwards gets the first candidate. */
  lemma FirstReallocation(dir: Dir, baseName: string, content: Bytes)
    requires !Exists(dir, baseName) && !Exists(dir, Candidate(baseName, 1))
    ensures Allocation(dir, baseName) == baseName
    ensures Allocation(dir[baseName := content], baseName) == Candidate(baseName, 1)
  {
    assert LeastFree(dir[baseName := content], baseName, 1);
    AllocationUnique(dir[baseName := content], baseName,
      Allocation(dir[baseName := content], baseName), Candidate(baseName, 1));
  }
}
