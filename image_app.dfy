/** The Flask app of app.py as an object over its two stores: `rows` and `lastId`
    stand for the `images` table and its AUTOINCREMENT counter, `files` for the
    contents of the upload folder. Each route handler is a method that makes the
    same store updates, in the same order, as the Python code, and is proved to
    end where the matching transition of AppState says. */
module ImageApp {
  import opened Optional
  import opened FileNames
  import opened Detections
  import opened ImagesTable
  import opened AppState

  class App {
    /** `secure_filename`, fixed for the life of the process. */
    const secure: string -> string
    /** The `images` table, in rowid order. */
    var rows: seq<Row>
    /** The AUTOINCREMENT counter: the largest id ever handed out. */
    var lastId: int
    /** The names of the files in the upload folder. */
    var files: set<string>

    /** Both stores as one value. */
    function Current(): (state: State)
      reads this
    {
      State(rows, lastId, files)
    }

    /** The table by id. */
    function Images(): (images: map<int, Image>)
      reads this
    {
      Table(rows)
    }

    ghost predicate Valid()
      reads this
    {
      Wellformed(Current())
    }

    /** The app starting on an existing database and upload folder. */
    constructor (secure: string -> string, initial: State)
      requires Wellformed(initial)
      ensures Valid()
      ensures this.secure == secure && Current() == initial
    {
      this.secure := secure;
      rows := initial.rows;
      lastId := initial.lastId;
      files := initial.files;
    }

    /** `index`: every row, in rowid order, with its detections read back. */
    method Index() returns (images: seq<ImageView>)
      requires Valid()
      ensures |images| == |Images()|
      ensures forall k :: 0 <= k < |images| ==>
        && images[k].id in Images()
        && images[k].filename == Images()[images[k].id].filename
        && images[k].detections == Deserialize(Images()[images[k].id].detections)
      ensures forall id :: id in Images() ==> exists k :: 0 <= k < |images| && images[k].id == id
      ensures forall k, l :: 0 <= k < l < |images| ==> images[k].id < images[l].id
    {
      images := [];
      for k := 0 to |rows|
        invariant |images| == k
        invariant forall j :: 0 <= j < k ==>
          images[j] == ImageView(rows[j].id, rows[j].image.filename, Deserialize(rows[j].image.detections))
      {
        var detections := Deserialize(rows[k].image.detections);
        images := images + [ImageView(rows[k].id, rows[k].image.filename, detections)];
      }
      TableRows(rows);
      TableSize(rows);
    }

    /** `upload_image`. */
    method UploadImage(verb: Verb, part: Option<string>, detect: string -> Option<seq<Detection>>)
      returns (reply: Reply)
      requires Valid()
      modifies this
      ensures Valid()
      ensures Step(Current(), reply) == Upload(old(Current()), secure, verb, part, detect)
    {
      if verb == Get {
        return Form;
      }
      if part.None? {
        return NoFilePart;
      }
      var filename := part.value;
      if filename == "" {
        return NoSelectedFile;
      }
      if !AllowedFile(filename) {
        return Form;
      }
      reply := StoreImage(secure(filename), detect);
    }

    /** The save, detection and insert of `upload_image`. */
    method StoreImage(name: string, detect: string -> Option<seq<Detection>>) returns (reply: Reply)
      requires Valid()
      modifies this
      ensures Valid()
      ensures Step(Current(), reply) == Store(old(Current()), name, detect)
    {
      ghost var expected := Store(Current(), name, detect);
      if name == "" {
        return Raised(SaveFailed);
      }
      files := files + {name};
      var detections := detect(UploadPath(name));
      if detections.None? {
        return Raised(DetectorFailed);
      }
      if lastId == MAX_ROWID {
        return Raised(TableFull);
      }
      rows := rows + [Row(lastId + 1, Image(name, Serialize(detections.value)))];
      lastId := lastId + 1;
      reply := Done;
      assert Current() == expected.state;
    }

    /** `delete_image`. */
    method DeleteImage(id: int) returns (reply: Reply)
      requires Valid()
      modifies this
      ensures Valid()
      ensures Step(Current(), reply) == Delete(old(Current()), id)
    {
      ghost var expected := Delete(Current(), id);
      if !InIntegerRange(id) {
        return Raised(IdOutOfRange);
      }
      var row := Select(rows, id);
      if row.Some? {
        var filename := row.value.filename;
        if filename in files {
          files := files - {filename};
        }
        rows := DeleteWhere(rows, id);
      }
      reply := Done;
      assert Current() == expected.state;
    }

    /** `edit_image`. */
    method EditImage(id: int, verb: Verb, part: Option<string>, detect: string -> Option<seq<Detection>>)
      returns (reply: Reply)
      requires Valid()
      modifies this
      ensures Valid()
      ensures Step(Current(), reply) == Edit(old(Current()), secure, id, verb, part, detect)
    {
      if !InIntegerRange(id) {
        return Raised(IdOutOfRange);
      }
      var row := Select(rows, id);
      if row.None? {
        return NotFound;
      }
      if verb == Get {
        return Form;
      }
      if part.None? {
        return NoFilePart;
      }
      var filename := part.value;
      if filename == "" {
        return NoSelectedFile;
      }
      if !AllowedFile(filename) {
        return Form;
      }
      reply := ReplaceImage(id, row.value.filename, secure(filename), detect);
    }

    /** The file swap, detection and update of `edit_image`. */
    method ReplaceImage(id: int, previous: string, name: string, detect: string -> Option<seq<Detection>>)
      returns (reply: Reply)
      requires Valid()
      modifies this
      ensures Valid()
      ensures Step(Current(), reply) == Replace(old(Current()), id, previous, name, detect)
    {
      ghost var expected := Replace(Current(), id, previous, name, detect);
      if previous in files {
        files := files - {previous};
      }
      if name == "" {
        return Raised(SaveFailed);
      }
      files := files + {name};
      var detections := detect(UploadPath(name));
      if detections.None? {
        return Raised(DetectorFailed);
      }
      rows := UpdateWhere(rows, id, Image(name, Serialize(detections.value)));
      reply := Done;
      assert Current() == expected.state;
    }
  }
}
