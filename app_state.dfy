/** The request handlers of app.py as transitions on the two stores they touch:
    the `images` table with its AUTOINCREMENT counter, and the set of file names
    in the upload folder. `secure` stands for werkzeug's `secure_filename` and
    `detect` for `detect_objects`; both are opaque. A `detect` result of None is
    a detector call that raised. */
module AppState {
  import opened Optional
  import opened FileNames
  import opened Detections
  import opened ImagesTable

  /** UPLOAD_FOLDER of app.py. */
  const UPLOAD_FOLDER: string := "static/uploads"

  /** `os.path.join(UPLOAD_FOLDER, name)` for a name that is not absolute: the
      folder, a separator, then the name, so the name can be read back from the
      path and two names never share a path. */
  function UploadPath(name: string): (path: string)
    ensures |path| == |UPLOAD_FOLDER| + 1 + |name|
    ensures path[..|UPLOAD_FOLDER|] == UPLOAD_FOLDER && path[|UPLOAD_FOLDER|] == '/'
    ensures path[|UPLOAD_FOLDER| + 1..] == name
  {
    UPLOAD_FOLDER + "/" + name
  }

  /** The HTTP method of the request. */
  datatype Verb = Get | Post

  /** The exceptions the handlers do not catch, by the step that raises them. */
  datatype Failure =
    | SaveFailed      // `file.save` on the folder itself: the sanitised name was empty
    | DetectorFailed  // `detect_objects` raised
    | TableFull       // the AUTOINCREMENT counter is at MAX_ROWID (SQLITE_FULL)
    | IdOutOfRange    // binding an id outside SQLite's INTEGER range raised OverflowError

  /** How a handler ends: the page it renders or the redirect and message it sends. */
  datatype Reply =
    | Form            // the upload or edit form is rendered
    | NoFilePart      // 'No file part', redirect to the same URL
    | NoSelectedFile  // 'No selected file', redirect to the same URL
    | NotFound        // 'Image not found', redirect to the list
    | Done            // success message, redirect to the list
    | Raised(failure: Failure)

  /** Both stores: the table rows in rowid order, the AUTOINCREMENT counter (the
      largest id ever handed out) and the file names in the upload folder. */
  datatype State = State(rows: seq<Row>, lastId: int, files: set<string>)

  /** A handler's new state and its reply. */
  datatype Step = Step(state: State, reply: Reply)

  /** What holds of the stores between requests: rows in id order, every id a
      64-bit integer at most the counter, the counter within SQLite's range, and no
      row with an empty file name (the app never stores one, as saving under it fails). */
  predicate Wellformed(s: State)
  {
    && Ascending(s.rows)
    && 0 <= s.lastId <= MAX_ROWID
    && forall i :: 0 <= i < |s.rows| ==>
         MIN_INTEGER <= s.rows[i].id <= s.lastId && s.rows[i].image.filename != ""
  }

  /** The list of images `index` renders. */
  datatype ImageView = ImageView(id: int, filename: string, detections: seq<Detection>)

  /** `upload_image`. */
  function Upload(s: State, secure: string -> string, verb: Verb, part: Option<string>,
                  detect: string -> Option<seq<Detection>>): (r: Step)
    requires Wellformed(s)
    ensures Wellformed(r.state)
    ensures r.state.lastId >= s.lastId
  {
    if verb == Get then Step(s, Form)
    else if part.None? then Step(s, NoFilePart)
    else if part.value == "" then Step(s, NoSelectedFile)
    else if !AllowedFile(part.value) then Step(s, Form)
    else Store(s, secure(part.value), detect)
  }

  /** The second half of `upload_image`, once the request has passed its checks:
      save the file under its sanitised name, run the detector on it and insert
      the row under the next AUTOINCREMENT id. */
  function Store(s: State, name: string, detect: string -> Option<seq<Detection>>): (r: Step)
    requires Wellformed(s)
    ensures Wellformed(r.state)
    ensures r.state.lastId >= s.lastId
  {
    if name == "" then Step(s, Raised(SaveFailed))
    else
      var saved := s.(files := s.files + {name});
      match detect(UploadPath(name))
      case None => Step(saved, Raised(DetectorFailed))
      case Some(detections) =>
        if s.lastId == MAX_ROWID then Step(saved, Raised(TableFull))
        else
          var id := s.lastId + 1;
          Step(State(s.rows + [Row(id, Image(name, Serialize(detections)))], id, saved.files), Done)
  }

  /** `delete_image`: the file goes if it is there, then the row. The reply is the
      success message whether or not the id was there; an id that cannot be bound
      raises at the lookup. */
  function Delete(s: State, id: int): (r: Step)
    requires Wellformed(s)
    ensures Wellformed(r.state)
    ensures r.state.lastId == s.lastId
  {
    if !InIntegerRange(id) then Step(s, Raised(IdOutOfRange))
    else
      match Select(s.rows, id)
      case None => Step(s, Done)
      case Some(image) =>
        var rows := DeleteWhere(s.rows, id);
        assert forall k :: 0 <= k < |rows| ==>
          MIN_INTEGER <= rows[k].id <= s.lastId && rows[k].image.filename != "" by {
          forall k | 0 <= k < |rows|
            ensures MIN_INTEGER <= rows[k].id <= s.lastId && rows[k].image.filename != ""
          {
            assert rows[k] in s.rows;
          }
        }
        Step(State(rows, s.lastId, s.files - {image.filename}), Done)
  }

  /** `edit_image`: the row is looked up first, then the request is checked. */
  function Edit(s: State, secure: string -> string, id: int, verb: Verb, part: Option<string>,
                detect: string -> Option<seq<Detection>>): (r: Step)
    requires Wellformed(s)
    ensures Wellformed(r.state)
    ensures r.state.lastId == s.lastId
  {
    if !InIntegerRange(id) then Step(s, Raised(IdOutOfRange))
    else
      match Select(s.rows, id)
      case None => Step(s, NotFound)
      case Some(current) =>
        if verb == Get then Step(s, Form)
        else if part.None? then Step(s, NoFilePart)
        else if part.value == "" then Step(s, NoSelectedFile)
        else if !AllowedFile(part.value) then Step(s, Form)
        else Replace(s, id, current.filename, secure(part.value), detect)
  }

  /** The second half of `edit_image`, once the request has passed its checks: the
      old file `previous` goes first, then the new one is saved under its sanitised
      name, the detector runs on it and row `id` is updated in place. */
  function Replace(s: State, id: int, previous: string, name: string,
                   detect: string -> Option<seq<Detection>>): (r: Step)
    requires Wellformed(s)
    ensures Wellformed(r.state)
    ensures r.state.lastId == s.lastId
  {
    var removed := s.(files := s.files - {previous});
    if name == "" then Step(removed, Raised(SaveFailed))
    else
      var saved := removed.(files := removed.files + {name});
      match detect(UploadPath(name))
      case None => Step(saved, Raised(DetectorFailed))
      case Some(detections) =>
        var rows := UpdateWhere(s.rows, id, Image(name, Serialize(detections)));
        assert forall i :: 0 <= i < |rows| ==> rows[i].image.filename != "" by {
          forall i | 0 <= i < |rows| ensures rows[i].image.filename != "" {
            // UpdateWhere only writes `name`, which is not empty
            UpdateKeepsFilenames(s.rows, id, Image(name, Serialize(detections)), i);
          }
        }
        Step(saved.(rows := rows), Done)
  }

  /** A row after an update holds either its old contents or the new ones. */
  lemma {:induction false} UpdateKeepsFilenames(rows: seq<Row>, id: int, image: Image, i: int)
    requires 0 <= i < |rows|
    ensures UpdateWhere(rows, id, image)[i].image in {rows[i].image, image}
  {
    if i < |rows| - 1 {
      UpdateKeepsFilenames(rows[..|rows| - 1], id, image, i);
    }
  }
}
