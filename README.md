# UM Drive file store, in Dafny

UM Drive (`app.py`) is a Flask file manager. It keeps the files of all its users in one flat
directory, `UPLOAD_DIR`. Browser pages and a small JSON API let a user upload, list, download,
edit, replace, rename and delete those files. The API is guarded by a shared key.

This project models the layer of `app.py` that works on that directory. The directory is a
`map<string, seq<byte>>` from file name to content, held in the `files` field of the class
`FileStore.Store`. The routes that change it are methods of that class. Each method is proved to
leave the directory as a pure function of the old directory says. Those functions live in the
`Uploads` and `Routes` modules, and the properties the application promises are proved about them
as lemmas.

Modules, one file each:

- `names.dfy`, `FileNames`: Python's `str.strip()`, `os.path.splitext`, `PurePath.suffix`, ASCII
  lower-casing, `str(i)`, and the candidate names `f"{base}_{i}{ext}"` the upload routes try.
- `replies.dfy`, `Replies`: `Option`, `Result`, and the failures the routes report.
- `utf8.dfy`, `Utf8`: the UTF-8 encoder behind `Path.write_text` and the strict decoder behind
  `Path.read_text`. It also holds the universal-newline translation `read_text` applies.
- `storage.dfy`, `Storage`: the directory as a value, and `existing_file_path`, `is_allowed` and
  `is_editable`. It also gives the name the probe loop of the upload routes settles on.
- `listing.dfy`, `Listing`: `list_files` and `total_space_bytes`.
- `gate.dfy`, `AccessGate`: `_require_api_key`.
- `uploads.dfy`, `Uploads`: what one upload request does to the directory.
- `routes.dfy`, `Routes`: edit, replace, rename, delete and the JSON listing, each as a function
  from the old directory to the answer and the new directory.
- `store.dfy`, `FileStore`: the `Store` class and its route methods.

Two werkzeug functions are not shown in the repository, so they are parameters of the store with
stated assumptions:

- `secure_filename` is the `sanitize` field. It is assumed never to answer a name holding `/`
  or `\` (`Uploads.SanitizerSafe`).
- `safe_join(UPLOAD_DIR, name)` is the `join` field. It answers the joined path relative to
  `UPLOAD_DIR`, or None when it refuses the name. The lemmas about downloads assume it leaves a
  plain entry name unchanged.

Behaviour of `app.py` that the model keeps, including the less obvious cases:

- `existing_file_path` (app.py:45-54) answers 400 when `safe_join` refuses the name or the
  file's parent is not the storage root. It answers 404 when no regular file is there.
- The browser rename route resolves the file before it checks the new name (app.py:464-466). The
  JSON route checks the new name first (app.py:548-551). `Routes.RenameRoutesAgree` shows that
  the two orders change the directory in the same way. They report different failures exactly
  when both checks fail.
- `delete` turns both failures of `existing_file_path`, 400 and 404, into "not found"
  (app.py:477-481).
- The edit route checks editability on the file as it was before the write (app.py:439-441). A
  longer text is still written and can leave the file no longer editable
  (`Routes.EditCanOutgrowLimit`).
- `Path("x").exists()` is also true for `""`, `"."` and `".."`, which are the root and its
  parent. So a sanitised name of `""` is never stored as such: its first free candidate is `"_1"`.
  A rename to `"."` or `".."` reports that the name exists.
- A new name holding NUL passes both rename checks, because `Path.exists()` answers False for it.
  `src.rename` then raises ValueError, so the request ends in a server error and nothing is
  renamed (`Routes.RenameWithNulFails`).

## Model

| member | source | states |
|---|---|---|
| FileNames.Strip | app.py:465 | `str.strip()`: the result is a slice of the input with only whitespace cut off either side, and it neither starts nor ends in whitespace |
| FileNames.StripIdempotent | app.py:548 | stripping a stripped name changes nothing |
| FileNames.SplitExt | app.py:404 | `os.path.splitext`: root and extension concatenate to the name, and the extension is empty or a '.' followed by no '.' or '/' |
| FileNames.SplitExtFindsExtension | app.py:526 | an extension is split off exactly when some '.' follows a character other than '.' in the last component, so leading dots never start one |
| FileNames.SplitExtOfReport | app.py:404 | `splitext("report.txt") == ("report", ".txt")` |
| FileNames.SplitExtOfDotfile | app.py:404 | `splitext(".bashrc") == (".bashrc", "")` |
| FileNames.Suffix | app.py:37 | `PurePath.suffix`: empty, or the text from the last '.', which is neither the first nor the last character |
| FileNames.Decimal | app.py:407 | `str(i)`: non-empty, all digits, no leading zero |
| FileNames.ParseDecimalOfDecimal | app.py:407 | reading `str(i)` back gives `i` |
| FileNames.CandidateInjective | app.py:406-409 | the names `f"{base}_{i}{ext}"` for different `i` are different |
| FileNames.CandidateIsEntryName | app.py:407-408 | every candidate is a plain entry name when the sanitised name has no '/' |
| FileNames.CandidateOfReport | app.py:407 | the candidates for "report.txt" are "report_1.txt", "report_12.txt", ... |
| Utf8.Encode | app.py:441 | `str.encode("utf-8")`: between one and four bytes per character |
| Utf8.DecodeChar | app.py:445 | the strict decoder reads one character, of the length the encoder gives it, or fails |
| Utf8.DecodeCharEncodes | app.py:445 | the bytes the decoder accepts for one character are exactly the encoder's bytes for it, so overlong forms, surrogates and values above 0x10FFFF are refused |
| Utf8.EncodeDecode | app.py:445 | whatever the decoder accepts is the encoding of the text it answers |
| Utf8.DecodeAcceptsExactlyEncodings | app.py:445 | the decoder accepts a byte string exactly when it encodes some text, and then answers that text |
| Utf8.DecodeEncode | app.py:441-445 | decoding what was encoded gives the text back |
| Utf8.TranslateNewlines | app.py:445 | universal newlines: the result has no '\r' and is no longer than the input |
| Utf8.TranslateSnoc | app.py:445 | appending a character: "\n" after "\r" adds nothing, "\r" adds "\n", anything else adds itself |
| Utf8.TranslateAgrees | app.py:445 | the translation equals an independent line-by-line reading from the end, where "\r\n", "\r" and "\n" each become "\n" and every other character is kept |
| Utf8.TranslateKeepsPlainText | app.py:445 | text without '\r' is left as it is |
| Utf8.TranslateIdempotent | app.py:445 | translating twice is translating once |
| Utf8.ReadText | app.py:444-448 | `read_text`: the text never holds '\r' |
| Utf8.ReadTextFailsOffUtf8 | app.py:444-448 | `read_text` fails exactly on byte strings that are not the UTF-8 encoding of any text |
| Utf8.ReadWrittenText | app.py:441-445 | reading back what `write_text` stored gives the text with line ends normalised, and exactly the text when it has no '\r' |
| Storage.ExistingEntryIsStored | app.py:50 | for a plain entry name, existing means being a stored file |
| Storage.Resolve | app.py:45-54 | `existing_file_path`: 400 when `safe_join` refuses; otherwise success exactly when a stored file has that name, else 404; success yields a stored plain name |
| Storage.ResolvePlainName | app.py:45-54 | for a plain name, resolution yields that name when it is stored and 404 otherwise |
| Storage.Fetch | app.py:424-430 | download and view: the stored bytes of the named file, 404 otherwise |
| Storage.EveryNameAllowed | app.py:33-34 | with `ALLOWED_EXTS = None` (app.py:25), `is_allowed` accepts every name |
| Storage.EditableExtsShape | app.py:19 | each editable extension is '.' and two or more lower-case characters without '.' |
| Storage.EditableIff | app.py:36-37 | a file is editable exactly when it is stored, has at most 1,000,000 bytes, and its name ends, ignoring case, in an editable extension with something before it |
| Storage.EditableIgnoresCase | app.py:37 | editability does not depend on the case of the name |
| Storage.LeastFreeExists | app.py:406-409 | the probe loop ends: a free candidate exists at an index of at most the number of stored files plus one |
| Storage.AllocationUnique | app.py:402-409 | only one name satisfies the allocation rule |
| Storage.Allocation | app.py:402-409 | the name chosen is the sanitised name when nothing exists under it, otherwise the candidate of the least free index |
| Storage.AllocationIsFreeEntry | app.py:406-410 | the chosen name is free and is a plain entry name |
| Storage.ReallocationAdvances | app.py:406-409 | storing under the chosen candidate moves the next allocation for the same name to a strictly later index |
| Storage.FirstReallocation | app.py:402-409 | a free name is kept, and uploading it again gives its first candidate |
| Listing.ListedBeforeIsTotalOrder | app.py:40 | the listing order is total, transitive and antisymmetric |
| Listing.First | app.py:40 | the first name of a non-empty set in listing order is in the set and before all others |
| Listing.ListFiles | app.py:39-40 | `list_files` has one name per stored file, each of them stored |
| Listing.ListFilesExactly | app.py:39-40 | `list_files` holds every stored name exactly once and nothing else |
| Listing.ListFilesSorted | app.py:40 | `list_files` is in non-decreasing order of lower-cased name |
| Listing.TotalBytes | app.py:42-43 | `total_space_bytes` is 0 for an empty directory |
| Listing.SumSizesWithout | app.py:43 | the sum does not depend on the order the files are visited in |
| Listing.TotalBytesWithout | app.py:42-43 | removing a file takes its size off the total |
| Listing.TotalBytesAdd | app.py:42-43 | adding a file adds its size |
| Listing.TotalBytesOverwrite | app.py:42-43 | overwriting a file changes the total by the change in its size |
| Listing.TotalBytesIsSumOfListing | app.py:39-43 | the total is the sum of the sizes of the files `list_files` shows |
| AccessGate.RequireApiKey | app.py:489-494 | the gate either lets a request through or answers 401 |
| AccessGate.OpenWithoutKey | app.py:490-491 | with `API_KEY` empty every request passes |
| AccessGate.PassesIffExactKey | app.py:492-494 | with a key set, a request passes exactly when its `X-API-Key` equals the key |
| AccessGate.RejectsMissingOrEmpty | app.py:492-493 | with a key set, a missing or empty header gets 401 |
| Uploads.Kept | app.py:397-401 | the parts stored are the accepted ones: all parts when all are accepted, none when none is |
| Uploads.KeptOne | app.py:398-401 | a single part is kept exactly when it has a file name and, on the page route, `is_allowed` accepts it |
| Uploads.KeptAppend | app.py:397-401 | filtering a request is filtering its halves in turn, so every accepted part is kept, in request order |
| Uploads.UploadAllEffects | app.py:397-411 | an upload keeps every old file byte for byte, adds exactly the saved names, which are fresh and distinct, each holding its part's bytes, and keeps names plain |
| Uploads.UploadAllTotal | app.py:397-411 | the total grows by the size of the stored parts |
| Uploads.EmptyPartsStoreNothing | app.py:398-399 | parts with empty file names store nothing |
| Uploads.FirstPartName | app.py:402-411 | a single part is saved under the allocated name |
| Uploads.UploadThenDownload | app.py:424-426 | downloading a saved name gives back the bytes sent for it |
| Uploads.ReportTwice | app.py:402-411 | uploading "report.txt" twice into an empty directory stores "report.txt" and "report_1.txt", 5 bytes in all |
| Routes.EditOutcome | app.py:433-442 | edit writes the UTF-8 text exactly when the file resolves and is editable, and changes only that file; otherwise nothing changes |
| Routes.EditPage | app.py:433-449 | the edit page shows the decoded text exactly when the file resolves, is editable and is UTF-8; otherwise it gives the resolver's failure, then "not editable", then the decoding failure |
| Routes.EditThenReopen | app.py:439-449 | after saving, the edit page shows the saved text with normalised line ends, while it still fits the size limit |
| Routes.EditCanOutgrowLimit | app.py:439-441 | a text larger than the limit is saved, and the file is then no longer editable |
| Routes.ReplaceOutcome | app.py:451-458 | replace never creates or removes names; it overwrites only the resolved file and only with a non-empty file name |
| Routes.ReplaceTotal | app.py:457 | replacing changes the total by the change in that file's size |
| Routes.Renamed | app.py:471 | a rename moves the bytes to the new name, removes the old name, keeps the count and leaves all other files alone |
| Routes.RenameBack | app.py:471 | renaming back restores the directory |
| Routes.RenameTotal | app.py:471 | renaming keeps the total |
| Routes.ValidFreeNameIsEntry | app.py:466-469 | a new name that passes both checks is a plain entry name not yet stored |
| Routes.RenameOutcome | app.py:462-473 | the browser rename succeeds exactly when the file resolves, the stripped name is non-empty without separators, nothing exists under it and it holds no NUL; failures change nothing and report in that order, NUL as a server error |
| Routes.ApiRenameOutcome | app.py:546-556 | the same for the JSON route, with the name checked before the file, answering the new name |
| Routes.RenameRoutesAgree | app.py:549-551 | the JSON route (checking the name first) and the browser route (app.py:464-466, resolving first) change the directory alike; they report the same failure unless both checks fail, and different ones when both do |
| Routes.RenameToItself | app.py:468-470 | on either route, renaming a file to its own name fails with "exists" and changes nothing |
| Routes.RenameWithNulFails | app.py:471 | a new name holding NUL passes the checks and makes `src.rename` raise on both routes, leaving the directory unchanged |
| Routes.DeleteOutcome | app.py:475-484 | delete, on the page and in the API (app.py:537-541), removes exactly the resolved file; any resolver failure is "not found" and changes nothing |
| Routes.DeleteTwice | app.py:475-484 | deleting twice gives success, then "not found" |
| Routes.DeleteTotal | app.py:482 | deleting takes the file's size off the total |
| Routes.ListOutcome | app.py:496-512 | the JSON listing has one entry per `list_files` name, in that order, with that file's size and editability |
| FileStore.Store.constructor | app.py:13-17 | the store starts over the existing directory with the given key and library functions |
| FileStore.Store.FreeName | app.py:402-409 | the probe loop, shared by both upload routes (app.py:524-528), returns the allocated name |
| FileStore.Store.SaveParts | app.py:397-411 | the upload loop of both routes (app.py:522-530) leaves the directory and `saved` list that `UploadAll` gives |
| FileStore.Store.UploadInline | app.py:390-421 | no parts: refused and unchanged; otherwise the page upload with `is_allowed` |
| FileStore.Store.ApiUpload | app.py:515-531 | 401 and unchanged without the key; no parts: 400; otherwise the upload without `is_allowed` |
| FileStore.Store.Download | app.py:424-430 | the bytes of the named stored file, or 404 |
| FileStore.Store.EditForm | app.py:433-449 | the edit page of the named file, as `EditPage` gives it: shown text only for a resolved, editable file, and it is that file's decoded content |
| FileStore.Store.ApiList | app.py:507-512 | 401 without the key; otherwise the listing `ListOutcome` gives: one entry per `list_files` name, in order, with size and editability |
| FileStore.Store.Edit | app.py:433-442 | leaves the directory as `EditOutcome` says |
| FileStore.Store.Replace | app.py:451-458 | leaves the directory as `ReplaceOutcome` says |
| FileStore.Store.Rename | app.py:462-473 | leaves the directory as `RenameOutcome` says |
| FileStore.Store.ApiRename | app.py:543-556 | 401 and unchanged without the key; otherwise as `ApiRenameOutcome` says |
| FileStore.Store.Delete | app.py:475-484 | leaves the directory as `DeleteOutcome` says |
| FileStore.Store.ApiDelete | app.py:533-541 | 401 and unchanged without the key; otherwise as `DeleteOutcome` says |

## Left out

- HTML templates, CSS and client-side JavaScript (app.py:57-371) are presentation. The byte
  formatting in the page script uses floating point.
- Flask plumbing is left out: routing, `flash` messages, redirects, `render_template_string`, the
  template registration (app.py:559-567), Prometheus metrics, `/health` and the home page. The
  model returns the failure or the value a message would report. For example, the page upload
  returns its `saved` list, and an empty list stands for the "no valid file" message.
- `send_from_directory` streams the file. The model only reads the stored bytes (`Storage.Fetch`).
- The internals of `secure_filename` and `safe_join` are left out. They are parameters with the
  assumptions stated above.
- Subdirectories, symbolic links and `Path.resolve()` are left out. The directory is a flat map of
  regular files, so the third check of `existing_file_path` only rejects a name that is not a
  plain entry, which a well-formed directory never stores.
- Listing.SortKey: `str.casefold` is modelled as ASCII lower-casing. Names with equal keys are
  ordered by the names themselves, while Python keeps the directory scan order for them.
- Listing.TotalBytes is a ghost function. It adds the sizes in an arbitrary order, which stands for
  the directory scan order of the source; `SumSizesWithout` shows that the order does not matter.
- Storage.Allocation is a ghost function. `FileStore.Store.FreeName` is its loop implementation.
- `MAX_CONTENT_LENGTH` (app.py:29) is enforced by the server before any route runs.
- The mtime and URL fields of `_file_info` (app.py:501-504) are clock and URL formatting.
- Concurrency is left out. Requests are modelled one at a time, so the check-then-write races
  between requests are not modelled.
- Filesystem errors are left out: permissions, a full disk, and names longer than the system
  allows, which make `Path.exists()` or `src.rename` raise.
- Odd JSON bodies of the API rename route are left out. A falsy `new_name` (null, 0, false, an
  empty list or object) becomes "" and gets 400, which the model covers as a missing field. A
  truthy `new_name` that is not a string makes `.strip()` raise (a 500). A body that is a
  non-empty JSON list or string makes `data.get` raise at app.py:548 (a 500). The model's field is
  an optional string.
- The GET page of `replace` (app.py:460) only renders a form.
- `write_text` is modelled as on POSIX, where it writes "\n" unchanged. The edit route's missing
  `content` field is the empty text, which the caller passes.
- tests/test_basic.py holds only HTTP smoke tests of `/health`, `/` and API status codes.
