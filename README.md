# Image upload and detection CRUD app: a verified model

This project models the request handlers of a small Flask application. A user
uploads an image, the app runs an object detector on it, and it keeps the
detections with the image so the user can later list, replace or delete them.
Two stores are involved:

- the SQLite table `images`, with columns `id INTEGER PRIMARY KEY AUTOINCREMENT`,
  `filename TEXT NOT NULL` and `detections TEXT`;
- the upload folder `static/uploads`.

The model has these modules:

- `FileNames` models `allowed_file`, the extension filter that both the upload
  handler and the edit handler apply. It is a pure predicate over `rsplit('.', 1)`
  and `lower()`. Lemmas characterise it completely and cover each edge case:
  a leading dot, a trailing dot, no dot, several dots and mixed case.
- `Detections` models a detection and the `detections` column. The app writes
  `str(detections)` into that column, and `index` reads it back with
  `literal_eval(text) if text else []`.
- `ImagesTable` models the table as its rows in rowid order, which is the order a
  full scan returns them in. It also models the SQL statements the handlers run:
  `Select` (SELECT … WHERE id=? with fetchone), `DeleteWhere` and `UpdateWhere`.
  `Table(rows)` is the map from id to row contents, the view that the properties
  speak about. `MAX_ROWID` is the largest rowid SQLite hands out. After it has
  been used, an AUTOINCREMENT insert fails with SQLITE_FULL.
- `AppState` models each handler (`upload_image`, `edit_image`, `delete_image`) as
  a transition on a `State` value. The state has three parts: the rows, the
  AUTOINCREMENT counter (the largest id ever handed out) and the set of file names
  in the upload folder.
  - The transition returns a `Reply` that names the branch taken: the form
    rendered, the redirect with "No file part", "No selected file", "Image not
    found", success, or an uncaught exception.
  - An exception freezes the stores as they were when it was raised. Four are
    modelled: saving under an empty sanitised name (the path is then the folder
    itself), the detector raising, SQLITE_FULL, and an id outside SQLite's
    64-bit INTEGER range. Flask's `<int:…>` route accepts an id of any size, and
    Python's `sqlite3` raises OverflowError when it binds such an id. Delete and
    edit then stop at their first lookup.
  - `Wellformed` is the invariant that every transition keeps.
  - Each of `Upload` and `Edit` is split where the request's checks end: `Store`
    and `Replace` are the file and table writes that follow them.
- `AppProperties` holds lemmas about the transitions:
  - a rejected request changes nothing;
  - a successful upload saves its file under the sanitised name and adds one row, under a fresh id
    larger than every id handed out so far, and leaves every other row as it was;
  - delete removes only its row and its file, deleting an absent id changes
    nothing, and delete is idempotent;
  - an id too large or too small for SQLite raises in delete and edit before
    anything changes;
  - edit keeps the id, replaces the old file with the new one (the new file is
    present even when the two names are equal) and leaves the other rows and the
    row count unchanged;
  - a failure part-way leaves an orphaned file or a row naming a missing file;
  - the known inconsistency of rows that share a sanitised file name;
  - the walk-through: upload `cat.jpg`, replace it with `dog.png`, delete it.
- `History` serves any sequence of requests, one transition after another. It
  proves the AUTOINCREMENT promise across the whole sequence: an upload that
  succeeds at the end gets an id that no row held at any earlier point, even a
  row deleted since.
- `ImageApp.App` is a class whose state is kept in fields: `rows`, `lastId` and
  `files`. The handlers are methods that make the Python code's updates in the
  same order: file removal, then save, then detection, then the table write.
  `StoreImage` and `ReplaceImage` make the writes that follow the checks. Each method is
  proved to end in the state, and with the reply, that the matching `AppState`
  transition gives. `Index` is the loop of `index`. It is proved to list every
  row exactly once, in increasing id order, with its detections read back.

Opaque collaborators are parameters, not code:

- werkzeug's `secure_filename` is a function constant `secure` of the app object;
- `detect_objects` is a per-call argument `detect: string -> Option<seq<Detection>>`.
  `None` means the call raised. Because it is a per-call argument, it can describe
  the detector's view of whatever file was just saved.

Three behaviours of the code are easy to misread, and the model does what the
code does:

- A disallowed extension gets no message. The handler shows the form again
  (`Reply.Form`).
- Malformed stored detection text is not read back as an empty list. `index`
  calls `ast.literal_eval`, which raises on it. Only NULL and empty text read
  back as `[]`. The model stores detections abstractly and claims nothing about
  malformed text.
- `edit_image` looks the id up before it looks at the request. An absent id
  answers "Image not found" whatever the request carries (`EditAbsent`), so an
  update of a missing id is never attempted.

## Model

| member | source | states |
|---|---|---|
| FileNames.LowerCharAlphabet | app.py:32 | `str.lower` on one character: the k-th capital letter of the alphabet becomes the k-th small letter, and a character that is not a capital letter is unchanged |
| FileNames.Lower | app.py:32 | `str.lower` on ASCII keeps the length of the string |
| FileNames.LowerLetters | app.py:32 | after lower-casing no capital letter is left, and only capital letters have changed |
| FileNames.AllowedFile | app.py:30-32 | `allowed_file`: a dot in the name, and the text after the last dot, lower-cased, in `ALLOWED_EXTENSIONS`; an accepted name therefore ends in a dot and three or four characters |
| FileNames.RSplitOnce | app.py:32 | `rsplit('.', 1)`: one part when there is no dot; otherwise two parts that rebuild the name around the last dot, the second part holding no dot |
| FileNames.RSplitAtLastDot | app.py:32 | the text after the split is exactly the text after the last dot |
| FileNames.AllowedFileIff | app.py:30-32 | `allowed_file` holds iff the name has a last dot and the text after it, lower-cased, is `png`, `jpg` or `jpeg` |
| FileNames.OnlyExtensionMatters | app.py:31-32 | for a name `head.ext` whose `ext` has no dot, the verdict depends only on `ext`, lower-cased, whatever `head` is |
| FileNames.LowerKeepsDots | app.py:32 | lower-casing keeps dots where they are, so it does not move the last dot |
| FileNames.AllowedFileIgnoresCase | app.py:32 | lower-casing the whole name never changes the verdict |
| FileNames.SameLowerSameVerdict | app.py:32 | two names that differ only in letter case get the same verdict |
| FileNames.LeadingDotAccepted | app.py:30-32 | `".png"` is accepted |
| FileNames.TrailingDotRejected | app.py:30-32 | `"a."` is rejected (empty extension) |
| FileNames.NoDotRejected | app.py:31 | `"jpg"` and `""` are rejected: no dot |
| FileNames.MixedCaseAccepted | app.py:32 | `"x.JPG"` and `"x.jpg"` are both accepted |
| FileNames.SeveralDotsAccepted | app.py:32 | `"a.b.Jpeg"` is accepted: only the last dot counts |
| FileNames.SeveralDotsRejected | app.py:32 | `"a.png.gif"` is rejected: only the last dot counts |
| Detections.Serialize | app.py:71 | the text stored for a detection list is never NULL or empty, even for no detections, and `index` reads the same list back from it |
| Detections.Deserialize | app.py:45 | `literal_eval(text) if text else []`: NULL and empty text give `[]`, stored text gives its list back, and a non-empty result only comes from text written for that same list |
| Detections.MissingTextReadsEmpty | app.py:45 | a NULL or empty `detections` column reads back as `[]` |
| ImagesTable.TableAppend | app.py:70 | appending a row adds exactly its entry to the id map |
| ImagesTable.TableRows | app.py:21-24 | the map's keys are the rows' ids; in an ascending table each row's contents are under its id |
| ImagesTable.TableSize | app.py:22 | with unique ids, the map has one entry per row |
| ImagesTable.Select | app.py:82-83 | `SELECT … WHERE id=?` with `fetchone` finds a row iff the id is in the table, and returns that row's contents |
| ImagesTable.DeleteWhere | app.py:89 | `DELETE … WHERE id=?` removes exactly that id from the map, keeps only existing rows and keeps rowid order |
| ImagesTable.UpdateWhere | app.py:130-131 | `UPDATE … WHERE id=?` keeps every row in place with its id and changes only that id's contents, and nothing when the id is absent |
| AppState.UploadPath | app.py:61 | `os.path.join(UPLOAD_FOLDER, filename)`: the folder, one separator, then the name, which can be read back from the path |
| AppState.Upload | app.py:49-76 | `upload_image` keeps the store invariant and never lowers the AUTOINCREMENT counter |
| AppState.Delete | app.py:78-93 | `delete_image` keeps the store invariant and leaves the counter alone |
| AppState.Edit | app.py:95-138 | `edit_image` keeps the store invariant and leaves the counter alone |
| AppState.Store | app.py:60-75 | saving, detecting and inserting keep the store invariant and never lower the counter |
| AppState.Replace | app.py:116-135 | removing the old file, saving, detecting and updating keep the store invariant and leave the counter alone |
| AppProperties.IdsAtMostCounter | app.py:22 | every id in the table is a 64-bit integer at most the AUTOINCREMENT counter |
| AppProperties.UploadRejected | app.py:51-58 | a GET, no `image` part, an empty filename or a disallowed extension changes neither store and gives no success |
| AppProperties.UploadSucceedsIff | app.py:51-75 | an upload succeeds iff it is a POST with an `image` part whose name is not empty and passes the filter, the sanitised name is not empty, the detector returns and the counter is below `MAX_ROWID` |
| AppProperties.UploadSucceeds | app.py:59-75 | when those conditions hold, the file set gains the sanitised name, the counter goes up by one, and the table gains exactly one entry under an id larger than every id so far, holding that name and the serialised detections; all other rows are unchanged and the row count grows by one |
| AppProperties.UploadFailureKeepsTable | app.py:59-73 | a failed upload never touches the table or the counter; if the detector raises or the counter is full, the saved file remains without a row; any other failure changes nothing |
| AppProperties.DeleteExisting | app.py:82-92 | deleting an existing id answers with the success message and removes exactly that row and its file; the counter is unchanged and the row count drops by one |
| AppProperties.DeleteAbsent | app.py:82-92 | deleting an id that is not there changes nothing, and still answers with the success message unless the id is outside SQLite's range |
| AppProperties.DeleteIdempotent | app.py:82-93 | deleting twice gives the same state and the same reply as deleting once |
| AppProperties.OutOfRangeIdRaises | app.py:78-101 | an id outside SQLite's 64-bit INTEGER range is in no row, and both delete and edit raise at the lookup with both stores unchanged |
| AppProperties.EditAbsent | app.py:99-103 | editing an id that SQLite can bind but is not there changes nothing and answers "not found" |
| AppProperties.EditRejected | app.py:106-115 | a GET, no `image` part, an empty filename or a disallowed extension changes neither store |
| AppProperties.EditSucceedsIff | app.py:99-135 | an edit succeeds iff the id is in the table, the request is a POST with an `image` part whose name is not empty and passes the filter, the sanitised name is not empty and the detector returns |
| AppProperties.EditSucceeds | app.py:115-135 | when those conditions hold, the file set is the old one minus the old name plus the new one, so the new file is there even when the names are equal; the row keeps its id with the new name and detections, no other row changes, and the ids, the row count and the counter stay the same |
| AppProperties.EditFailureKeepsTable | app.py:116-127 | a failed edit never touches the table; if the save fails, the old file is already gone; if the detector raises, the old file is gone and the new one stays; any other failure changes nothing |
| AppProperties.SameNameUploadsShareFile | app.py:59-62 | two uploads whose names sanitise alike give two rows naming one file |
| AppProperties.DeleteSharedFileDangles | app.py:84-89 | deleting one of two rows that share a file name leaves the other row unchanged but naming a file that is gone |
| AppProperties.WalkThroughNamesAllowed | app.py:30-32 | `cat.jpg` and `dog.png` pass the filter |
| AppProperties.CatUploaded | app.py:59-75 | uploading `cat.jpg` into an empty database gives row 1 holding `cat.jpg` and its detections, and the one file `cat.jpg` |
| AppProperties.CatReplacedByDog | app.py:115-135 | editing row 1 with `dog.png` keeps id 1 with the new contents and leaves only `dog.png` in the folder |
| AppProperties.DogDeleted | app.py:82-92 | deleting row 1 then leaves both stores empty and answers with the success message |
| ImageApp.App.constructor | app.py:17-28 | the app starts on an existing, well-formed database and upload folder |
| ImageApp.App.Index | app.py:34-47 | lists as many entries as the table has rows; each entry is a row of the table with its file name and its detections read back; every row appears; ids strictly increase |
| ImageApp.App.UploadImage | app.py:49-76 | ends in the state and reply that `AppState.Upload` gives, and keeps the store invariant |
| ImageApp.App.StoreImage | app.py:60-75 | ends in the state and reply that `AppState.Store` gives, and keeps the store invariant |
| ImageApp.App.DeleteImage | app.py:78-93 | ends in the state and reply that `AppState.Delete` gives, and keeps the store invariant |
| ImageApp.App.EditImage | app.py:95-138 | ends in the state and reply that `AppState.Edit` gives, and keeps the store invariant |
| ImageApp.App.ReplaceImage | app.py:116-135 | ends in the state and reply that `AppState.Replace` gives, and keeps the store invariant |
| History.Apply | app.py:49-138 | serving one upload, edit or delete keeps the store invariant and never lowers the counter |
| History.Run | app.py:49-138 | serving any sequence of requests keeps the store invariant and never lowers the counter |
| History.CounterNeverFalls | app.py:22 | the counter at any point of a history is at most the counter at its end |
| History.NoIdReused | app.py:22 | an upload that succeeds after any history gets an id that is in the table afterwards and that no row held at any point of that history (AUTOINCREMENT never reuses an id) |

## Left out

- yolo_model.py is not part of this model. The detector is the opaque argument
  `detect`, and its float confidences are Dafny `real`s that nothing inspects.
- werkzeug's `secure_filename` is the opaque constant `secure`. Nothing is claimed
  about what it strips. File names are keys of the folder set. This matches
  `os.path.join` only for the separator-free names that `secure_filename` returns.
  `Store` and `Replace` treat only an empty sanitised name as a failed save. A name
  of `.` or `..` would also make `file.save` open a directory, but the model would
  count that save as a success. The model is faithful here only because
  `secure_filename` strips leading and trailing dots, so it never returns either name.
- The serialisation `str(detections)` / `ast.literal_eval` of the detections
  column is abstract. Stored text is the detection list itself, so the
  round-trip is exact by construction. Malformed text, on which `literal_eval`
  raises, is not modelled.
- File contents are not modelled, only names. A save under an existing name
  (overwriting silently) leaves the name set unchanged.
- Other I/O failures are not modelled: disk errors, database errors, `os.remove`
  failing. Neither are SQLite connections, commits, `init_db`, `os.makedirs`,
  Flask routing, flash message texts, templates and redirects. The `Reply` only
  names the branch taken.
- An `image` part that carries no filename at all is not modelled. werkzeug then
  gives `None`, and the request falls through to the form as if the name were
  disallowed. Only a present name, possibly empty, is modelled.
- `Lower` lower-cases ASCII letters only. No non-ASCII character lower-cases into
  a letter of `png`, `jpg` or `jpeg`, so the filter's verdict is the same as
  Python's `str.lower`. File names themselves are compared as Dafny strings.
- Databases holding a row with an empty file name are excluded by `Wellformed`.
  The app cannot create such a row, because its save would fail first.
- Ids arrive as Flask `<int:…>` values, which are never negative. The model
  accepts any integer id and treats a negative one like any other id.
- `History.Request` has no case for `index`, because `index` changes neither store.
- Concurrency, and crash consistency across the two stores, are not modelled.
  The model is single-threaded, like the development server.
