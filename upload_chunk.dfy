/** `POST /api/upload-chunk`: stores one piece of an upload under
    `chunks/<filename>/chunk-<chunkIndex>`. */
module UploadChunk {
  import opened Runtime
  import opened Storage

  /** The multipart fields of one request; `None` when a field is absent. */
  datatype ChunkForm = ChunkForm(
    file: Option<Bytes>,
    chunkIndex: Option<string>,
    totalChunks: Option<string>,
    filename: Option<string>)

  /** Where the storage step of a request fails, if it does. */
  datatype Fault = NoFault | MkdirFails | WriteFails

  /** The status and the text (or JSON message) of a response. */
  datatype Response = Response(status: nat, body: string)

  const MissingData := Response(400, "Missing required form data")
  const InvalidIndex := Response(400, "Invalid chunk index")
  const UploadFailed := Response(500, "Chunk upload failed")

  /** `String(formData.get(field) || '')` */
  function TextField(f: Option<string>): string
  {
    match f
    case None => ""
    case Some(v) => v
  }

  /** The presence check: a blob and three non-empty texts (a blob is truthy even when empty). */
  predicate HasRequiredFields(form: ChunkForm)
  {
    form.file.Some? && TextField(form.chunkIndex) != "" && TextField(form.totalChunks) != ""
    && TextField(form.filename) != ""
  }

  /** The request passes both checks and reaches the disk. */
  predicate Admitted(form: ChunkForm)
  {
    HasRequiredFields(form) && ParseInt(TextField(form.chunkIndex)).Some?
  }

  /** The piece name: the raw `chunkIndex` text, not its parsed value. */
  function PieceName(chunkIndex: string): string
  {
    "chunk-" + chunkIndex
  }

  /** The response to a request. */
  function Reply(form: ChunkForm, fault: Fault): (r: Response)
    ensures r.status == 400 <==> !Admitted(form)
    ensures r.status == 500 <==> Admitted(form) && fault != NoFault
    ensures r.status == 200 <==> Admitted(form) && fault == NoFault
    ensures r.status == 200 ==>
      r.body == "Chunk " + form.chunkIndex.value + " of " + form.totalChunks.value + " uploaded successfully"
  {
    if !HasRequiredFields(form) then MissingData
    else if ParseInt(TextField(form.chunkIndex)).None? then InvalidIndex
    else if fault != NoFault then UploadFailed
    else Response(200, "Chunk " + TextField(form.chunkIndex) + " of " + TextField(form.totalChunks)
                       + " uploaded successfully")
  }

  /** The staging area after a request. */
  function StagingAfter(staging: map<string, Dir>, form: ChunkForm, fault: Fault): (r: map<string, Dir>)
    ensures !Admitted(form) || fault == MkdirFails ==> r == staging
    ensures Admitted(form) && fault != MkdirFails ==>
      r == Saved(staging, form.filename.value, PieceName(form.chunkIndex.value), form.file.value, fault == WriteFails)
  {
    if !Admitted(form) || fault == MkdirFails then staging
    else Saved(staging, form.filename.value, PieceName(form.chunkIndex.value), form.file.value, fault == WriteFails)
  }

  /** `fs.mkdir` of `chunks/<dir>` followed by `fs.writeFile` of `<name>` in
      it, or by a failed write when `writeFails`. */
  function Saved(staging: map<string, Dir>, dir: string, name: string, content: Bytes, writeFails: bool)
    : (r: map<string, Dir>)
    ensures r.Keys == staging.Keys + {dir}
    ensures forall k | k in staging && k != dir :: r[k] == staging[k]
    ensures dir in staging ==> forall n | n != name :: Lookup(r[dir], n) == Lookup(staging[dir], n)
    ensures !writeFails ==> Lookup(r[dir], name) == Some(content)
    ensures !writeFails && dir !in staging ==> r[dir] == [Piece(name, content)]
    ensures writeFails ==> r[dir] == if dir in staging then staging[dir] else []
  {
    var created := if dir in staging then staging else staging[dir := []];
    if writeFails then created else created[dir := Write(created[dir], name, content)]
  }

  /** The handler. `body` is `None` when `request.formData()` cannot read the
      body, which the `catch` answers with 500. A failure of `fs.mkdir` leaves the
      disk as it was; a failure of `fs.writeFile` leaves the directory that
      `fs.mkdir` made. */
  method Post(store: UploadsDir, body: Option<ChunkForm>, fault: Fault) returns (r: Response)
    requires store.Valid()
    modifies store
    ensures store.Valid() && store.files == old(store.files)
    ensures body.None? ==> r == UploadFailed && store.staging == old(store.staging)
    ensures body.Some? ==> r == Reply(body.value, fault)
    ensures body.Some? ==> store.staging == StagingAfter(old(store.staging), body.value, fault)
  {
    if body.None? {
      return UploadFailed;
    }
    var form := body.value;
    var chunkIndex := TextField(form.chunkIndex);
    var totalChunks := TextField(form.totalChunks);
    var filename := TextField(form.filename);
    if form.file.None? || chunkIndex == "" || totalChunks == "" || filename == "" {
      return MissingData;
    }
    var chunkIdx := ParseInt(chunkIndex);
    if chunkIdx.None? {
      return InvalidIndex;
    }
    if fault == MkdirFails {
      return UploadFailed;
    }
    store.MakeStagingDir(filename);
    if fault == WriteFails {
      return UploadFailed;
    }
    store.WritePiece(filename, PieceName(chunkIndex), form.file.value);
    r := Response(200, "Chunk " + chunkIndex + " of " + totalChunks + " uploaded successfully");
  }

  // ---------------------------------------------------------------------------
  // Properties of the staging writes
  // ---------------------------------------------------------------------------

  /** Storing the same piece of the same upload twice leaves only the second
      content; every other piece and every other upload stays as it was. */
  lemma SaveTwice(staging: map<string, Dir>, dir: string, name: string, first: Bytes, second: Bytes)
    requires forall k | k in staging :: UniqueNames(staging[k])
    ensures Saved(Saved(staging, dir, name, first, false), dir, name, second, false)
         == Saved(staging, dir, name, second, false)
  {
    var d := if dir in staging then staging[dir] else [];
    WriteTwice(d, name, first, second);
  }

  /** `totalChunks` only has to be present: its value never reaches the disk. */
  lemma TotalChunksUnused(staging: map<string, Dir>, form: ChunkForm, fault: Fault, total: string)
    requires TextField(form.totalChunks) != "" && total != ""
    ensures StagingAfter(staging, form.(totalChunks := Some(total)), fault) == StagingAfter(staging, form, fault)
  {
  }

  /** Two spellings of the same index (`"7"` and `"07"`) are two different pieces. */
  lemma RawIndexNamesThePiece(staging: map<string, Dir>, content: Bytes)
    ensures var seven := ChunkForm(Some(content), Some("7"), Some("1"), Some("a.txt"));
            var padded := seven.(chunkIndex := Some("07"));
            && ParseInt("7") == ParseInt("07") == Some(7)
            && Admitted(seven) && Admitted(padded)
            && PieceName("7") != PieceName("07")
  {
    assert "7" == DecimalString(7);
    ParseIntDecimal(7);
    ParseIntOfDecimalDigits("07");
    assert "07"[..1] == "0";
  }
}
