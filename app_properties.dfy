/** What the handlers of app.py promise, stated on their transitions: which rows
    and files change and which do not, fresh ids, idempotent delete, and the
    upload-edit-delete walk-through. */
module AppProperties {
  import opened Optional
  import opened FileNames
  import opened Detections
  import opened ImagesTable
  import opened AppState

  /** The table's keys are 64-bit integers bounded by the counter. */
  lemma IdsAtMostCounter(s: State)
    requires Wellformed(s)
    ensures forall id :: id in Table(s.rows) ==> InIntegerRange(id) && id <= s.lastId
  {
    TableRows(s.rows);
  }

  /** A GET, a missing `image` part, an empty file name or a disallowed extension
      changes neither store and is no success. */
  lemma UploadRejected(s: State, secure: string -> string, verb: Verb, part: Option<string>,
                       detect: string -> Option<seq<Detection>>)
    requires Wellformed(s)
    requires verb == Get || part.None? || part.value == "" || !AllowedFile(part.value)
    ensures Upload(s, secure, verb, part, detect).state == s
    ensures Upload(s, secure, verb, part, detect).reply != Done
  {
  }

  /** An upload succeeds exactly when the request passes every check, the sanitised
      name is not empty, the detector returns and the counter has room. */
  lemma UploadSucceedsIff(s: State, secure: string -> string, verb: Verb, part: Option<string>,
                          detect: string -> Option<seq<Detection>>)
    requires Wellformed(s)
    ensures Upload(s, secure, verb, part, detect).reply == Done <==>
      && verb == Post && part.Some? && part.value != "" && AllowedFile(part.value)
      && secure(part.value) != "" && detect(UploadPath(secure(part.value))).Some?
      && s.lastId < MAX_ROWID
  {
  }

  /** A successful upload adds the file, and one row with a fresh id larger than
      every id handed out so far holding that name and the detections; every other
      row is as before. */
  lemma UploadSucceeds(s: State, secure: string -> string, name: string,
                       detect: string -> Option<seq<Detection>>)
    requires Wellformed(s)
    requires name != "" && AllowedFile(name) && secure(name) != ""
    requires detect(UploadPath(secure(name))).Some? && s.lastId < MAX_ROWID
    ensures
      var t := Upload(s, secure, Post, Some(name), detect).state;
      var stored := secure(name);
      var id := s.lastId + 1;
      && t.files == s.files + {stored}
      && t.lastId == id
      && (forall j :: j in Table(s.rows) ==> j < id)
      && Table(t.rows) == Table(s.rows)[id := Image(stored, Serialize(detect(UploadPath(stored)).value))]
      && Table(t.rows).Keys == Table(s.rows).Keys + {id}
      && (forall j :: j in Table(s.rows) ==> Table(t.rows)[j] == Table(s.rows)[j])
      && |Table(t.rows)| == |Table(s.rows)| + 1
  {
    var stored := secure(name);
    var id := s.lastId + 1;
    var row := Row(id, Image(stored, Serialize(detect(UploadPath(stored)).value)));
    var t := State(s.rows + [row], id, s.files + {stored});
    assert Upload(s, secure, Post, Some(name), detect) == Step(t, Done);
    TableAppend(s.rows, row);
    IdsAtMostCounter(s);
    TableSize(s.rows);
    TableSize(t.rows);
  }

  /** An upload that fails never touches the table; when the detector raises, or
      the counter is exhausted, the saved file stays behind without a row. */
  lemma UploadFailureKeepsTable(s: State, secure: string -> string, verb: Verb, part: Option<string>,
                                detect: string -> Option<seq<Detection>>)
    requires Wellformed(s)
    ensures var r := Upload(s, secure, verb, part, detect);
      r.reply != Done ==> r.state.rows == s.rows && r.state.lastId == s.lastId
    ensures var r := Upload(s, secure, verb, part, detect);
      r.reply in {Raised(DetectorFailed), Raised(TableFull)} ==>
        part.Some? && r.state.files == s.files + {secure(part.value)}
    ensures var r := Upload(s, secure, verb, part, detect);
      r.reply !in {Done, Raised(DetectorFailed), Raised(TableFull)} ==> r.state == s
  {
  }

  /** Deleting an existing id removes that row and its file and nothing else. */
  lemma DeleteExisting(s: State, id: int)
    requires Wellformed(s)
    requires id in Table(s.rows)
    ensures Delete(s, id).reply == Done
    ensures var t := Delete(s, id).state;
      && Table(t.rows) == Table(s.rows) - {id}
      && t.files == s.files - {Table(s.rows)[id].filename}
      && t.lastId == s.lastId
      && |Table(t.rows)| == |Table(s.rows)| - 1
  {
    TableRows(s.rows);
    var t := Delete(s, id).state;
    TableSize(s.rows);
    TableSize(t.rows);
    assert Table(s.rows).Keys == Table(t.rows).Keys + {id};
  }

  /** Deleting an id that is not there changes nothing; the reply is still the
      success message, unless the id cannot be bound. */
  lemma DeleteAbsent(s: State, id: int)
    requires Wellformed(s)
    requires id !in Table(s.rows)
    ensures Delete(s, id).state == s
    ensures Delete(s, id).reply == if InIntegerRange(id) then Done else Raised(IdOutOfRange)
  {
  }

  /** Deleting twice is deleting once: the same stores and the same reply. */
  lemma DeleteIdempotent(s: State, id: int)
    requires Wellformed(s)
    ensures Delete(Delete(s, id).state, id) == Delete(s, id)
  {
    var t := Delete(s, id).state;
    IdsAtMostCounter(s);
    assert id !in Table(t.rows);
    DeleteAbsent(t, id);
  }

  /** An id outside SQLite's INTEGER range makes the lookup of delete and edit
      raise before anything changes. */
  lemma OutOfRangeIdRaises(s: State, secure: string -> string, id: int, verb: Verb, part: Option<string>,
                           detect: string -> Option<seq<Detection>>)
    requires Wellformed(s)
    requires !InIntegerRange(id)
    ensures id !in Table(s.rows)
    ensures Delete(s, id) == Step(s, Raised(IdOutOfRange))
    ensures Edit(s, secure, id, verb, part, detect) == Step(s, Raised(IdOutOfRange))
  {
    IdsAtMostCounter(s);
  }

  /** Editing an id that can be bound but is not there changes nothing and
      reports it. */
  lemma EditAbsent(s: State, secure: string -> string, id: int, verb: Verb, part: Option<string>,
                   detect: string -> Option<seq<Detection>>)
    requires Wellformed(s)
    requires InIntegerRange(id) && id !in Table(s.rows)
    ensures Edit(s, secure, id, verb, part, detect) == Step(s, NotFound)
  {
  }

  /** A GET, a missing `image` part, an empty file name or a disallowed extension
      changes neither store. */
  lemma EditRejected(s: State, secure: string -> string, id: int, verb: Verb, part: Option<string>,
                     detect: string -> Option<seq<Detection>>)
    requires Wellformed(s)
    requires verb == Get || part.None? || part.value == "" || !AllowedFile(part.value)
    ensures Edit(s, secure, id, verb, part, detect).state == s
    ensures Edit(s, secure, id, verb, part, detect).reply != Done
  {
  }

  /** An edit succeeds exactly when the id exists, the request passes every check,
      the sanitised name is not empty and the detector returns. */
  lemma EditSucceedsIff(s: State, secure: string -> string, id: int, verb: Verb, part: Option<string>,
                        detect: string -> Option<seq<Detection>>)
    requires Wellformed(s)
    ensures Edit(s, secure, id, verb, part, detect).reply == Done <==>
      && id in Table(s.rows)
      && verb == Post && part.Some? && part.value != "" && AllowedFile(part.value)
      && secure(part.value) != "" && detect(UploadPath(secure(part.value))).Some?
  {
    IdsAtMostCounter(s);
  }

  /** A successful edit: the old file is gone and the new one present (even when
      the two names are equal), the row keeps its id with the new name and
      detections, and no other row changes. */
  lemma EditSucceeds(s: State, secure: string -> string, id: int, name: string,
                     detect: string -> Option<seq<Detection>>)
    requires Wellformed(s)
    requires id in Table(s.rows)
    requires name != "" && AllowedFile(name) && secure(name) != ""
    requires detect(UploadPath(secure(name))).Some?
    ensures
      var t := Edit(s, secure, id, Post, Some(name), detect).state;
      var stored := secure(name);
      var previous := Table(s.rows)[id].filename;
      && t.files == (s.files - {previous}) + {stored}
      && stored in t.files
      && (previous != stored ==> previous !in t.files)
      && Table(t.rows) == Table(s.rows)[id := Image(stored, Serialize(detect(UploadPath(stored)).value))]
      && Table(t.rows).Keys == Table(s.rows).Keys
      && (forall j :: j in Table(s.rows) && j != id ==> Table(t.rows)[j] == Table(s.rows)[j])
      && |Table(t.rows)| == |Table(s.rows)|
      && t.lastId == s.lastId
  {
    var stored := secure(name);
    var image := Image(stored, Serialize(detect(UploadPath(stored)).value));
    var previous := Table(s.rows)[id].filename;
    var t := State(UpdateWhere(s.rows, id, image), s.lastId, (s.files - {previous}) + {stored});
    IdsAtMostCounter(s);
    assert Edit(s, secure, id, Post, Some(name), detect) == Step(t, Done);
    TableSize(s.rows);
    TableSize(t.rows);
  }

  /** An edit that fails after the old file was removed leaves the row pointing at
      the old name: the table is untouched, the old file is gone and the new one,
      once saved, stays. Any other failure changes nothing. */
  lemma EditFailureKeepsTable(s: State, secure: string -> string, id: int, verb: Verb, part: Option<string>,
                              detect: string -> Option<seq<Detection>>)
    requires Wellformed(s)
    ensures var r := Edit(s, secure, id, verb, part, detect);
      r.reply != Done ==> r.state.rows == s.rows && r.state.lastId == s.lastId
    ensures var r := Edit(s, secure, id, verb, part, detect);
      r.reply == Raised(SaveFailed) ==>
        id in Table(s.rows) && r.state.files == s.files - {Table(s.rows)[id].filename}
    ensures var r := Edit(s, secure, id, verb, part, detect);
      r.reply == Raised(DetectorFailed) ==>
        && id in Table(s.rows) && part.Some?
        && r.state.files == (s.files - {Table(s.rows)[id].filename}) + {secure(part.value)}
    ensures var r := Edit(s, secure, id, verb, part, detect);
      r.reply !in {Done, Raised(SaveFailed), Raised(DetectorFailed)} ==> r.state == s
  {
  }

  /** Two uploads whose names sanitise to the same name both succeed and give two
      rows naming one file, which the second save overwrote. */
  lemma SameNameUploadsShareFile(s: State, secure: string -> string, first: string, second: string,
                                 detect: string -> Option<seq<Detection>>)
    requires Wellformed(s)
    requires s.lastId + 2 <= MAX_ROWID
    requires first != "" && AllowedFile(first) && second != "" && AllowedFile(second)
    requires secure(first) == secure(second) != ""
    requires detect(UploadPath(secure(first))).Some?
    ensures
      var u1 := Upload(s, secure, Post, Some(first), detect).state;
      var u2 := Upload(u1, secure, Post, Some(second), detect).state;
      && s.lastId + 1 in Table(u2.rows) && s.lastId + 2 in Table(u2.rows)
      && Table(u2.rows)[s.lastId + 1].filename == secure(first)
      && Table(u2.rows)[s.lastId + 2].filename == secure(first)
      && u2.files == s.files + {secure(first)}
  {
    var name := secure(first);
    var image := Image(name, Serialize(detect(UploadPath(name)).value));
    var row1 := Row(s.lastId + 1, image);
    var row2 := Row(s.lastId + 2, image);
    var u1 := State(s.rows + [row1], s.lastId + 1, s.files + {name});
    assert Upload(s, secure, Post, Some(first), detect).state == u1;
    assert Upload(u1, secure, Post, Some(second), detect).state
        == State(s.rows + [row1] + [row2], s.lastId + 2, s.files + {name});
    TableAppend(s.rows, row1);
    TableAppend(s.rows + [row1], row2);
  }

  /** Rows may share a file name; deleting one of them removes the shared file,
      and every other row with that name is left naming a file that is gone. */
  lemma DeleteSharedFileDangles(s: State, id: int, other: int)
    requires Wellformed(s)
    requires id in Table(s.rows) && other in Table(s.rows) && id != other
    requires Table(s.rows)[other].filename == Table(s.rows)[id].filename
    ensures var d := Delete(s, id).state;
      && other in Table(d.rows)
      && Table(d.rows)[other] == Table(s.rows)[other]
      && Table(d.rows)[other].filename !in d.files
  {
    DeleteExisting(s, id);
  }

  /** The empty stores of a fresh database. */
  const EMPTY: State := State([], 0, {})

  /** The row contents of the walk-through. */
  const CAT: Image := Image("cat.jpg", Serialize([Detection("cat", 0.87)]))
  const DOG: Image := Image("dog.png", Serialize([Detection("dog", 0.91)]))

  /** "cat.jpg" and "dog.png" pass the upload filter. */
  lemma WalkThroughNamesAllowed()
    ensures AllowedFile("cat.jpg") && AllowedFile("dog.png")
  {
    CatAllowed();
    DogAllowed();
  }

  lemma CatAllowed()
    ensures AllowedFile("cat.jpg")
  {
    OnlyExtensionMatters("cat", "jpg");
    assert "cat" + "." + "jpg" == "cat.jpg";
    assert Lower("jpg") == "jpg";
  }

  lemma DogAllowed()
    ensures AllowedFile("dog.png")
  {
    OnlyExtensionMatters("dog", "png");
    assert "dog" + "." + "png" == "dog.png";
    assert Lower("png") == "png";
  }

  /** Upload `cat.jpg` into a fresh database: one row with id 1, one file. */
  lemma CatUploaded(secure: string -> string, detect: string -> Option<seq<Detection>>)
    requires secure("cat.jpg") == "cat.jpg"
    requires detect(UploadPath("cat.jpg")) == Some([Detection("cat", 0.87)])
    ensures Upload(EMPTY, secure, Post, Some("cat.jpg"), detect) == Step(State([Row(1, CAT)], 1, {"cat.jpg"}), Done)
    ensures Table([Row(1, CAT)]) == map[1 := CAT]
  {
    WalkThroughNamesAllowed();
    assert Upload(EMPTY, secure, Post, Some("cat.jpg"), detect) == Store(EMPTY, "cat.jpg", detect);
    assert [] + [Row(1, CAT)] == [Row(1, CAT)] && {} + {"cat.jpg"} == {"cat.jpg"};
    assert Store(EMPTY, "cat.jpg", detect) == Step(State([Row(1, CAT)], 1, {"cat.jpg"}), Done);
    TableAppend([], Row(1, CAT));
  }

  /** Replace it with `dog.png`: the same id, the new contents, only the new file. */
  lemma CatReplacedByDog(secure: string -> string, detect: string -> Option<seq<Detection>>)
    requires secure("dog.png") == "dog.png"
    requires detect(UploadPath("dog.png")) == Some([Detection("dog", 0.91)])
    ensures Edit(State([Row(1, CAT)], 1, {"cat.jpg"}), secure, 1, Post, Some("dog.png"), detect)
         == Step(State([Row(1, DOG)], 1, {"dog.png"}), Done)
    ensures Table([Row(1, DOG)]) == map[1 := DOG]
  {
    WalkThroughNamesAllowed();
    var s := State([Row(1, CAT)], 1, {"cat.jpg"});
    TableAppend([], Row(1, CAT));
    TableAppend([], Row(1, DOG));
    assert [] + [Row(1, CAT)] == [Row(1, CAT)] && [] + [Row(1, DOG)] == [Row(1, DOG)];
    assert Select(s.rows, 1) == Some(CAT);
    assert UpdateWhere(s.rows, 1, DOG) == [Row(1, DOG)];
    assert "cat.jpg" != "dog.png" by { assert "cat.jpg"[0] != "dog.png"[0]; }
    assert ({"cat.jpg"} - {"cat.jpg"}) + {"dog.png"} == {"dog.png"};
  }

  /** Then delete it: both stores are empty again. */
  lemma DogDeleted()
    ensures Delete(State([Row(1, DOG)], 1, {"dog.png"}), 1) == Step(State([], 1, {}), Done)
  {
    TableAppend([], Row(1, DOG));
    assert [] + [Row(1, DOG)] == [Row(1, DOG)];
    assert Select([Row(1, DOG)], 1) == Some(DOG);
    assert DeleteWhere([Row(1, DOG)], 1) == [];
  }
}
