/** The upload card of the web client: `onDrop` selects a file of at most
    100 MiB, and `handleUpload` sends it to `/api/upload-chunk` in 10 MiB
    pieces numbered 0, 1, 2, … and then asks `/api/upload-finalize` to join
    them. Each `fetch` is modelled as a direct call of the route handler on
    the shared uploads directory; the outcome of each call on the server's
    disk is an oracle argument. */
module FileUpload {
  import opened Runtime
  import opened Storage
  import UploadChunk
  import UploadFinalize

  const MaxFileSize: nat := 1024 * 1024 * 100
  const ChunkSize: nat := 1024 * 1024 * 10

  /** A browser `File`: its name and its bytes (`size` is their number). */
  datatype LocalFile = LocalFile(name: string, bytes: Bytes)

  /** A toast: a title and a description. */
  datatype Toast = Toast(title: string, description: string)

  const TooLarge := Toast("File too large", "Maximum file size is 100MB.")
  const Uploaded := Toast("File uploaded successfully", "Visit the link to access your file!")
  const UploadFailed := Toast("Upload failed", "There was an error uploading your file. Please try again.")

  /** The progress bar: `Reset` for `setUploadProgress(0)` at the start, then
      `k / totalChunks * 100` after the k-th piece, kept as the pair. */
  datatype Progress = Reset | Fraction(done: nat, total: nat)

  function Percent(p: Progress): real
  {
    match p
    case Reset => 0.0
    case Fraction(done, total) => if total == 0 then 0.0 else (done as real / total as real) * 100.0
  }

  /** One `fetch` the component issues. */
  datatype Request = ChunkUpload(form: UploadChunk.ChunkForm) | Finalize(filename: string)

  // ---------------------------------------------------------------------------
  // Slicing
  // ---------------------------------------------------------------------------

  /** `Math.ceil(size / CHUNK_SIZE)`. */
  function ChunkCount(size: nat): (n: nat)
    ensures n * ChunkSize >= size
    ensures n > 0 ==> (n - 1) * ChunkSize < size
  {
    (size + ChunkSize - 1) / ChunkSize
  }

  /** The loop runs while `start = k * CHUNK_SIZE` is below the size: exactly `totalChunks` times. */
  lemma StartBelowSize(k: nat, size: nat)
    ensures k * ChunkSize < size <==> k < ChunkCount(size)
  {
    var n := ChunkCount(size);
    if k < n {
      assert k * ChunkSize <= (n - 1) * ChunkSize;
    } else {
      assert k * ChunkSize >= n * ChunkSize;
    }
  }

  lemma NextStart(k: nat)
    ensures k * ChunkSize + ChunkSize == (k + 1) * ChunkSize
  {
  }

  /** `file.slice(k * CHUNK_SIZE, k * CHUNK_SIZE + CHUNK_SIZE)`: a blob slice clamps both ends to the size. */
  function Slice(bytes: Bytes, k: nat): (piece: Bytes)
    ensures |piece| <= ChunkSize
  {
    bytes[Min(k * ChunkSize, |bytes|)..Min(k * ChunkSize + ChunkSize, |bytes|)]
  }

  /** The first `m` slices joined back together. */
  function Joined(bytes: Bytes, m: nat): Bytes
  {
    if m == 0 then [] else Joined(bytes, m - 1) + Slice(bytes, m - 1)
  }

  /** The first `m` slices are the first `m * CHUNK_SIZE` bytes of the file. */
  lemma {:induction false} JoinedIsPrefix(bytes: Bytes, m: nat)
    ensures Joined(bytes, m) == bytes[..Min(m * ChunkSize, |bytes|)]
  {
    if m > 0 {
      JoinedIsPrefix(bytes, m - 1);
      assert (m - 1) * ChunkSize + ChunkSize == m * ChunkSize;
      var a := Min((m - 1) * ChunkSize, |bytes|);
      var b := Min(m * ChunkSize, |bytes|);
      assert bytes[..a] + bytes[a..b] == bytes[..b];
    }
  }

  /** The `totalChunks` slices put together are the whole file, and none of them is empty. */
  lemma SlicesMakeTheFile(bytes: Bytes)
    ensures Joined(bytes, ChunkCount(|bytes|)) == bytes
    ensures forall k | 0 <= k < ChunkCount(|bytes|) :: 0 < |Slice(bytes, k)|
  {
    JoinedIsPrefix(bytes, ChunkCount(|bytes|));
    assert bytes[..|bytes|] == bytes;
    forall k | 0 <= k < ChunkCount(|bytes|) ensures 0 < |Slice(bytes, k)| {
      StartBelowSize(k, |bytes|);
    }
  }

  // ---------------------------------------------------------------------------
  // The requests of one upload
  // ---------------------------------------------------------------------------

  /** The form of the k-th piece: the slice, `String(k)`, `String(totalChunks)` and the file name. */
  function Form(f: LocalFile, k: nat): UploadChunk.ChunkForm
  {
    UploadChunk.ChunkForm(Some(Slice(f.bytes, k)), Some(DecimalString(k)),
                          Some(DecimalString(ChunkCount(|f.bytes|))), Some(f.name))
  }

  /** `response.ok` for the k-th piece: the chunk route answers 200 exactly when the
      file name is not empty and the disk does not fail (`PieceAcceptedByServer`). */
  predicate Accepted(f: LocalFile, faults: nat -> UploadChunk.Fault, k: nat)
  {
    f.name != "" && faults(k) == UploadChunk.NoFault
  }

  /** What the chunk route does to the staging area for the k-th piece (`StepIsServer`). */
  function ServerStep(staging: map<string, Dir>, f: LocalFile, faults: nat -> UploadChunk.Fault, k: nat)
    : map<string, Dir>
  {
    if f.name == "" || faults(k) == UploadChunk.MkdirFails then staging
    else UploadChunk.Saved(staging, f.name, UploadChunk.PieceName(DecimalString(k)), Slice(f.bytes, k),
                           faults(k) == UploadChunk.WriteFails)
  }

  /** Every form the client builds passes the route's checks once the file has a name. */
  lemma FormAdmitted(f: LocalFile, k: nat)
    ensures UploadChunk.Admitted(Form(f, k)) <==> f.name != ""
  {
    ParseIntDecimal(k);
  }

  lemma PieceAcceptedByServer(f: LocalFile, faults: nat -> UploadChunk.Fault, k: nat)
    ensures var status := UploadChunk.Reply(Form(f, k), faults(k)).status;
            200 <= status < 300 <==> Accepted(f, faults, k)
  {
    FormAdmitted(f, k);
  }

  lemma StepIsServer(staging: map<string, Dir>, f: LocalFile, faults: nat -> UploadChunk.Fault, k: nat)
    ensures ServerStep(staging, f, faults, k) == UploadChunk.StagingAfter(staging, Form(f, k), faults(k))
  {
    FormAdmitted(f, k);
  }

  /** How many of the first `m` pieces go through before the first refused one. */
  function Delivered(f: LocalFile, faults: nat -> UploadChunk.Fault, m: nat): (r: nat)
    ensures r <= m
    ensures forall k | 0 <= k < r :: Accepted(f, faults, k)
    ensures r < m ==> !Accepted(f, faults, r)
  {
    if m == 0 then 0
    else
      var p := Delivered(f, faults, m - 1);
      if p == m - 1 && Accepted(f, faults, m - 1) then m else p
  }

  /** The pieces sent: every piece up to and including the first refused one. */
  function ChunkRequests(f: LocalFile, m: nat): seq<Request>
  {
    seq(m, k requires 0 <= k < m => ChunkUpload(Form(f, k)))
  }

  /** Every request `handleUpload` issues for the file `f`. */
  function Requested(f: LocalFile, faults: nat -> UploadChunk.Fault): seq<Request>
  {
    var n := ChunkCount(|f.bytes|);
    var done := Delivered(f, faults, n);
    if done < n then ChunkRequests(f, done + 1) else ChunkRequests(f, n) + [Finalize(f.name)]
  }

  /** How many pieces are sent: up to and including the first refused one. */
  function Sent(f: LocalFile, faults: nat -> UploadChunk.Fault): nat
  {
    var n := ChunkCount(|f.bytes|);
    var done := Delivered(f, faults, n);
    if done < n then done + 1 else n
  }

  /** A run that stopped at a refused piece `k` delivered exactly `k` pieces. */
  lemma DeliveredStops(f: LocalFile, faults: nat -> UploadChunk.Fault, k: nat, n: nat)
    requires k < n && Delivered(f, faults, k) == k && !Accepted(f, faults, k)
    ensures Delivered(f, faults, n) == k
  {
  }

  /** Sent pieces are numbered 0, 1, 2, … in order, each with the same file name and count;
      finalize comes last, only after every piece was accepted, and only once. */
  lemma RequestsInOrder(f: LocalFile, faults: nat -> UploadChunk.Fault)
    ensures var rs := Requested(f, faults);
            var n := ChunkCount(|f.bytes|);
            && (forall i | 0 <= i < |rs| && rs[i].ChunkUpload? ::
                  && rs[i].form.chunkIndex == Some(DecimalString(i))
                  && rs[i].form.filename == Some(f.name)
                  && rs[i].form.totalChunks == Some(DecimalString(n)))
            && (forall i | 0 <= i < |rs| - 1 :: rs[i].ChunkUpload?)
            && (Finalize(f.name) in rs <==> forall k | 0 <= k < n :: Accepted(f, faults, k))
            && (Finalize(f.name) in rs ==> |rs| == n + 1 && rs[n] == Finalize(f.name))
  {
    var rs := Requested(f, faults);
    var n := ChunkCount(|f.bytes|);
    var done := Delivered(f, faults, n);
    if done < n {
      assert forall i | 0 <= i < |rs| :: rs[i].ChunkUpload?;
    }
  }

  /** A refused piece stops the upload: nothing after it is sent. */
  lemma AbortsAtFirstRefusal(f: LocalFile, faults: nat -> UploadChunk.Fault, k: nat)
    requires k < ChunkCount(|f.bytes|) && !Accepted(f, faults, k)
    ensures |Requested(f, faults)| <= k + 1
    ensures forall r | r in Requested(f, faults) :: r.ChunkUpload?
  {
  }

  /** The staging area after the server handled the first `m` pieces. */
  function StagedUpTo(staging: map<string, Dir>, f: LocalFile, faults: nat -> UploadChunk.Fault, m: nat)
    : map<string, Dir>
  {
    if m == 0 then staging else ServerStep(StagedUpTo(staging, f, faults, m - 1), f, faults, m - 1)
  }

  // ---------------------------------------------------------------------------
  // The whole pipeline
  // ---------------------------------------------------------------------------

  /** The staging directory that a clean run of the first `m` pieces leaves: piece k named `chunk-k`. */
  function Pieces(f: LocalFile, m: nat): Dir
  {
    seq(m, k requires 0 <= k < m => Piece(UploadChunk.PieceName(DecimalString(k)), Slice(f.bytes, k)))
  }

  lemma PieceNamesDiffer(j: nat, k: nat)
    requires j != k
    ensures UploadChunk.PieceName(DecimalString(j)) != UploadChunk.PieceName(DecimalString(k))
  {
    DecimalStringInjective(j, k);
    var a := UploadChunk.PieceName(DecimalString(j));
    var b := UploadChunk.PieceName(DecimalString(k));
    assert a[6..] == DecimalString(j) && b[6..] == DecimalString(k);
  }

  lemma PiecesUnique(f: LocalFile, m: nat)
    ensures UniqueNames(Pieces(f, m))
  {
    forall i, j | 0 <= i < j < m ensures Pieces(f, m)[i].name != Pieces(f, m)[j].name {
      PieceNamesDiffer(i, j);
    }
  }

  /** The staging directory of `name`; an absent directory reads as an empty one. */
  function DirOf(staging: map<string, Dir>, name: string): Dir
  {
    if name in staging then staging[name] else []
  }

  /** With no faults and a non-empty name, sending pieces 0 … m-1 into a staging area
      whose directory for the file is absent or empty builds exactly `Pieces(f, m)`. */
  lemma {:induction false} CleanRunStages(staging: map<string, Dir>, f: LocalFile, faults: nat -> UploadChunk.Fault, m: nat)
    requires f.name != "" && DirOf(staging, f.name) == [] && forall k | 0 <= k < m :: faults(k) == UploadChunk.NoFault
    ensures DirOf(StagedUpTo(staging, f, faults, m), f.name) == Pieces(f, m)
    ensures m > 0 ==> f.name in StagedUpTo(staging, f, faults, m)
  {
    if m > 0 {
      var k := m - 1;
      CleanRunStages(staging, f, faults, k);
      CleanStep(staging, f, faults, k);
    }
  }

  /** One clean piece appends `chunk-k` to the directory holding pieces 0 … k-1. */
  lemma CleanStep(staging: map<string, Dir>, f: LocalFile, faults: nat -> UploadChunk.Fault, k: nat)
    requires f.name != "" && faults(k) == UploadChunk.NoFault
    requires DirOf(StagedUpTo(staging, f, faults, k), f.name) == Pieces(f, k)
    ensures f.name in StagedUpTo(staging, f, faults, k + 1)
    ensures StagedUpTo(staging, f, faults, k + 1)[f.name] == Pieces(f, k + 1)
  {
    var before := StagedUpTo(staging, f, faults, k);
    var name := UploadChunk.PieceName(DecimalString(k));
    var created := if f.name in before then before else before[f.name := []];
    assert created[f.name] == Pieces(f, k);
    PiecesGrow(f, k);
    assert StagedUpTo(staging, f, faults, k + 1) == UploadChunk.Saved(before, f.name, name, Slice(f.bytes, k), false)
        == created[f.name := Write(Pieces(f, k), name, Slice(f.bytes, k))];
  }

  /** Writing piece k into the directory of pieces 0 … k-1 lists it last. */
  lemma PiecesGrow(f: LocalFile, k: nat)
    ensures var name := UploadChunk.PieceName(DecimalString(k));
            Write(Pieces(f, k), name, Slice(f.bytes, k)) == Pieces(f, k + 1)
  {
    var d := Pieces(f, k);
    var name := UploadChunk.PieceName(DecimalString(k));
    PiecesUnique(f, k);
    assert name !in Names(d) by {
      forall i | 0 <= i < |d| ensures d[i].name != name { PieceNamesDiffer(i, k); }
    }
    WriteNew(d, name, Slice(f.bytes, k));
    assert d + [Piece(name, Slice(f.bytes, k))] == Pieces(f, k + 1);
  }

  lemma {:induction false} ContentsOfPieces(f: LocalFile, m: nat)
    ensures UploadFinalize.Contents(Pieces(f, m)) == Joined(f.bytes, m)
  {
    if m > 0 {
      ContentsOfPieces(f, m - 1);
      assert Pieces(f, m)[..m - 1] == Pieces(f, m - 1);
    }
  }

  lemma PiecesInIndexOrder(f: LocalFile, m: nat)
    ensures UploadFinalize.SortedBy(Names(Pieces(f, m)), UploadFinalize.ChunkIndex)
  {
    var names := Names(Pieces(f, m));
    forall i | 0 <= i < |names| ensures UploadFinalize.ChunkIndex(names[i]) == Some(i) {
      UploadFinalize.ChunkIndexOfPieceName(i);
    }
  }

  /** Uploading a non-empty file in full into a staging area whose directory for its
      name is absent or empty, then finalizing, reproduces the file's bytes. */
  lemma UploadReproducesFile(staging: map<string, Dir>, f: LocalFile, faults: nat -> UploadChunk.Fault)
    requires f.name != "" && (f.name !in staging || staging[f.name] == []) && |f.bytes| > 0
    requires forall k | 0 <= k < ChunkCount(|f.bytes|) :: faults(k) == UploadChunk.NoFault
    ensures var s := StagedUpTo(staging, f, faults, ChunkCount(|f.bytes|));
            f.name in s && UploadFinalize.Assembled(s[f.name]) == f.bytes
  {
    var n := ChunkCount(|f.bytes|);
    CleanRunStages(staging, f, faults, n);
    PiecesUnique(f, n);
    PiecesInIndexOrder(f, n);
    UploadFinalize.AssembledInListingOrder(Pieces(f, n));
    ContentsOfPieces(f, n);
    SlicesMakeTheFile(f.bytes);
  }

  /** An empty file sends no piece, so finalize finds no directory unless one was left behind. */
  lemma EmptyFileSendsOnlyFinalize(staging: map<string, Dir>, f: LocalFile, faults: nat -> UploadChunk.Fault)
    requires |f.bytes| == 0
    ensures Requested(f, faults) == [Finalize(f.name)]
    ensures StagedUpTo(staging, f, faults, ChunkCount(|f.bytes|)) == staging
  {
  }

  // ---------------------------------------------------------------------------
  // Progress
  // ---------------------------------------------------------------------------

  /** The values `handleUpload` gives the progress bar when `done` of `n` pieces go through. */
  function ProgressTrail(done: nat, n: nat): seq<Progress>
  {
    [Reset] + Advances(done, n)
  }

  /** `setUploadProgress` after each of the first `done` pieces. */
  function Advances(done: nat, n: nat): seq<Progress>
  {
    seq(done, i requires 0 <= i < done => Fraction(i + 1, n))
  }

  lemma AdvancesStep(k: nat, n: nat)
    ensures Advances(k + 1, n) == Advances(k, n) + [Fraction(k + 1, n)]
  {
    assert forall i | 0 <= i < k :: Advances(k + 1, n)[i] == Advances(k, n)[i];
  }

  lemma ChunkRequestsStep(f: LocalFile, k: nat)
    ensures ChunkRequests(f, k + 1) == ChunkRequests(f, k) + [ChunkUpload(Form(f, k))]
  {
    assert forall i | 0 <= i < k :: ChunkRequests(f, k + 1)[i] == ChunkRequests(f, k)[i];
  }

  lemma PercentMonotone(i: nat, j: nat, n: nat)
    requires i <= j && 0 < n
    ensures Percent(Fraction(i, n)) <= Percent(Fraction(j, n))
  {
    var a := i as real / n as real;
    var b := j as real / n as real;
    assert b - a == (j - i) as real / n as real;
  }

  /** The bar never moves back, and reads 100 when every piece of a non-empty file went through. */
  lemma ProgressRises(done: nat, n: nat)
    requires done <= n
    ensures var t := ProgressTrail(done, n);
            && (forall i, j | 0 <= i < j < |t| :: Percent(t[i]) <= Percent(t[j]))
            && (0 < done == n ==> Percent(t[|t| - 1]) == 100.0)
  {
    var t := ProgressTrail(done, n);
    forall i, j | 0 <= i < j < |t| ensures Percent(t[i]) <= Percent(t[j]) {
      if i > 0 {
        assert t[i] == Fraction(i, n) && t[j] == Fraction(j, n);
        PercentMonotone(i, j, n);
      } else {
        assert t[j] == Fraction(j, n);
      }
    }
    if 0 < done == n {
      assert t[|t| - 1] == Fraction(n, n);
      assert n as real / n as real == 1.0;
    }
  }

  // ---------------------------------------------------------------------------
  // The component
  // ---------------------------------------------------------------------------

  class FileUploadCard {
    var file: Option<LocalFile>
    var uploading: bool
    var uploadedFileUrl: Option<string>
    var uploadSuccess: bool
    var buttonLabel: string
    var progress: Progress
    /** The toasts shown, oldest first. */
    var toasts: seq<Toast>
    /** The `fetch` calls issued, oldest first. */
    var requests: seq<Request>
    /** Every value the progress bar was given, oldest first. */
    ghost var progressLog: seq<Progress>

    constructor ()
      ensures file == None && !uploading && uploadedFileUrl == None && !uploadSuccess
      ensures buttonLabel == "Upload" && progress == Reset
      ensures toasts == [] && requests == [] && progressLog == []
    {
      file := None;
      uploading := false;
      uploadedFileUrl := None;
      uploadSuccess := false;
      buttonLabel := "Upload";
      progress := Reset;
      toasts := [];
      requests := [];
      progressLog := [];
    }

    /** `onDrop`: the first accepted file is selected unless it is larger than 100 MiB.
        With nothing accepted (several files dropped on the single-file zone),
        reading the size of `acceptedFiles[0]` throws before any state changes. */
    method OnDrop(acceptedFiles: seq<LocalFile>)
      modifies this
      ensures |acceptedFiles| == 0 ==> file == old(file) && toasts == old(toasts)
      ensures |acceptedFiles| > 0 && |acceptedFiles[0].bytes| > MaxFileSize ==>
                file == old(file) && toasts == old(toasts) + [TooLarge]
      ensures |acceptedFiles| > 0 && |acceptedFiles[0].bytes| <= MaxFileSize ==>
                file == Some(acceptedFiles[0]) && toasts == old(toasts)
      ensures uploading == old(uploading) && requests == old(requests) && progress == old(progress)
      ensures uploadedFileUrl == old(uploadedFileUrl) && uploadSuccess == old(uploadSuccess)
      ensures buttonLabel == old(buttonLabel) && progressLog == old(progressLog)
    {
      if |acceptedFiles| == 0 {
        return;
      }
      var selectedFile := acceptedFiles[0];
      if |selectedFile.bytes| > MaxFileSize {
        toasts := toasts + [TooLarge];
      } else {
        file := Some(selectedFile);
      }
    }

    /** The `setTimeout` callback, one second after a success. */
    method ResetButton()
      modifies this
      ensures buttonLabel == "Upload" && !uploadSuccess
      ensures file == old(file) && uploading == old(uploading) && uploadedFileUrl == old(uploadedFileUrl)
      ensures progress == old(progress) && toasts == old(toasts) && requests == old(requests)
      ensures progressLog == old(progressLog)
    {
      buttonLabel := "Upload";
      uploadSuccess := false;
    }

    /** One `fetch` to `/api/upload-chunk` and its `response.ok`. */
    static method SendPiece(store: UploadsDir, f: LocalFile, k: nat, form: UploadChunk.ChunkForm,
                            faults: nat -> UploadChunk.Fault) returns (ok: bool)
      requires store.Valid() && form == Form(f, k)
      modifies store
      ensures store.Valid() && store.files == old(store.files)
      ensures ok == Accepted(f, faults, k)
      ensures store.staging == ServerStep(old(store.staging), f, faults, k)
    {
      var response := UploadChunk.Post(store, Some(form), faults(k));
      PieceAcceptedByServer(f, faults, k);
      StepIsServer(old(store.staging), f, faults, k);
      ok := 200 <= response.status < 300;
    }

    /** `handleUpload`. `faults(k)` is what happens on the server's disk for piece k;
        `draws` and `finalizeWriteFails` are the finalizer's random draws and write outcome. */
    method HandleUpload(store: UploadsDir, faults: nat -> UploadChunk.Fault, draws: seq<real>,
                        finalizeWriteFails: bool)
      requires store.Valid()
      requires |draws| >= UploadFinalize.NameLength && UploadFinalize.ValidDraws(draws)
      modifies this, store
      ensures store.Valid()
      ensures old(file).None? ==> unchanged(this) && unchanged(store)
      ensures old(file).Some? ==>
        var f := old(file).value;
        var n := ChunkCount(|f.bytes|);
        var done := Delivered(f, faults, n);
        var staged := StagedUpTo(old(store.staging), f, faults, Sent(f, faults));
        && requests == old(requests) + Requested(f, faults)
        && progressLog == old(progressLog) + ProgressTrail(done, n)
        && progress == ProgressTrail(done, n)[done]
        && !uploading && file == None
        && Finished(store, old(store.files), staged, old(uploadedFileUrl), old(uploadSuccess), old(buttonLabel),
                    old(toasts), f.name, done == n, draws, finalizeWriteFails)
    {
      if file.None? {
        return;
      }
      var f := file.value;
      uploading := true;
      var complete := Transmit(store, f, faults);
      ghost var staged := store.staging;
      FinishUpload(store, f.name, complete, draws, finalizeWriteFails);
      uploading := false;
      file := None;
    }

    /** The body of the `try` block up to the finalize request: resets the progress
        bar, sends the pieces and queues the finalize request when all went through. */
    method Transmit(store: UploadsDir, f: LocalFile, faults: nat -> UploadChunk.Fault) returns (complete: bool)
      requires store.Valid()
      modifies this`requests, this`progress, this`progressLog, store
      ensures store.Valid() && store.files == old(store.files)
      ensures var n := ChunkCount(|f.bytes|);
              var done := Delivered(f, faults, n);
              && (complete <==> done == n)
              && store.staging == StagedUpTo(old(store.staging), f, faults, Sent(f, faults))
              && requests == old(requests) + Requested(f, faults)
              && progressLog == old(progressLog) + ProgressTrail(done, n)
              && progress == ProgressTrail(done, n)[done]
    {
      progress := Reset;
      progressLog := progressLog + [Reset];
      ghost var log0 := progressLog;
      var sent, advances;
      complete, sent, advances := SendPieces(store, f, faults);
      ghost var n := ChunkCount(|f.bytes|);
      ghost var done := Delivered(f, faults, n);
      requests := requests + sent;
      progressLog := progressLog + advances;
      assert progressLog == old(progressLog) + ProgressTrail(done, n) by {
        assert log0 == old(progressLog) + [Reset];
      }
      if advances != [] {
        progress := advances[|advances| - 1];
      }
      if complete {
        requests := requests + [Finalize(f.name)];
      }
    }

    /** The `for` loop: sends the pieces in order and stops at the first one refused.
        It returns the requests it issued and the values it gave the progress bar. */
    static method SendPieces(store: UploadsDir, f: LocalFile, faults: nat -> UploadChunk.Fault)
      returns (complete: bool, sent: seq<Request>, advances: seq<Progress>)
      requires store.Valid()
      modifies store
      ensures store.Valid() && store.files == old(store.files)
      ensures var n := ChunkCount(|f.bytes|);
              var done := Delivered(f, faults, n);
              && (complete <==> done == n)
              && store.staging == StagedUpTo(old(store.staging), f, faults, Sent(f, faults))
              && sent == ChunkRequests(f, Sent(f, faults))
              && advances == Advances(done, n)
    {
      var totalChunks := ChunkCount(|f.bytes|);
      var uploadedChunks: nat := 0;
      var start := 0;
      sent, advances := [], [];
      while start < |f.bytes|
        invariant start == uploadedChunks * ChunkSize && uploadedChunks <= totalChunks
        invariant uploadedChunks == Delivered(f, faults, uploadedChunks)
        invariant store.Valid() && store.files == old(store.files)
        invariant store.staging == StagedUpTo(old(store.staging), f, faults, uploadedChunks)
        invariant sent == ChunkRequests(f, uploadedChunks)
        invariant advances == Advances(uploadedChunks, totalChunks)
      {
        StartBelowSize(uploadedChunks, |f.bytes|);
        var chunk := f.bytes[start..Min(start + ChunkSize, |f.bytes|)];
        var form := UploadChunk.ChunkForm(Some(chunk), Some(DecimalString(uploadedChunks)),
                                          Some(DecimalString(totalChunks)), Some(f.name));
        assert form == Form(f, uploadedChunks);
        sent := sent + [ChunkUpload(form)];
        ChunkRequestsStep(f, uploadedChunks);
        var ok := SendPiece(store, f, uploadedChunks, form, faults);
        if !ok {
          DeliveredStops(f, faults, uploadedChunks, totalChunks);
          assert Sent(f, faults) == uploadedChunks + 1;
          return false, sent, advances;
        }
        ghost var k := uploadedChunks;
        NextStart(k);
        AdvancesStep(k, totalChunks);
        uploadedChunks := uploadedChunks + 1;
        advances := advances + [Fraction(uploadedChunks, totalChunks)];
        start := start + ChunkSize;
        assert start == uploadedChunks * ChunkSize;
      }
      StartBelowSize(uploadedChunks, |f.bytes|);
      complete := true;
    }

    /** The outcome of the finalize step of an upload of `name` whose pieces all went
        through when `complete`: the joined file and the link, or the failure toast. */
    ghost predicate Finished(store: UploadsDir, files0: map<string, Bytes>, staged: map<string, Dir>,
                             url0: Option<string>, success0: bool, label0: string, toasts0: seq<Toast>,
                             name: string, complete: bool, draws: seq<real>, finalizeWriteFails: bool)
      requires |draws| >= UploadFinalize.NameLength && UploadFinalize.ValidDraws(draws)
      reads this`uploadedFileUrl, this`uploadSuccess, this`buttonLabel, this`toasts, store
    {
      var finalized := complete && name in staged && !finalizeWriteFails;
      var final := UploadFinalize.RandomFilename(name, draws);
      && (finalized ==>
            && store.files == files0[final := UploadFinalize.Assembled(staged[name])]
            && store.staging == staged - {name}
            && uploadedFileUrl == Some("/f/" + final) && uploadSuccess && buttonLabel == "Uploaded"
            && toasts == toasts0 + [Uploaded])
      && (!finalized ==>
            && store.files == files0 && store.staging == staged
            && uploadedFileUrl == url0 && uploadSuccess == success0 && buttonLabel == label0
            && toasts == toasts0 + [UploadFailed])
    }

    /** The finalize request when every piece went through, then the toasts and the link. */
    method FinishUpload(store: UploadsDir, name: string, complete: bool, draws: seq<real>,
                        finalizeWriteFails: bool)
      requires store.Valid()
      requires |draws| >= UploadFinalize.NameLength && UploadFinalize.ValidDraws(draws)
      modifies this, store
      ensures store.Valid()
      ensures Finished(store, old(store.files), old(store.staging), old(uploadedFileUrl), old(uploadSuccess),
                       old(buttonLabel), old(toasts), name, complete, draws, finalizeWriteFails)
      ensures file == old(file) && uploading == old(uploading) && progress == old(progress)
      ensures requests == old(requests) && progressLog == old(progressLog)
    {
      var ok := complete;
      if ok {
        var finalizeResponse := UploadFinalize.Post(store, Some(name), draws, finalizeWriteFails);
        ok := 200 <= finalizeResponse.status < 300;
        if ok {
          uploadedFileUrl := Some(finalizeResponse.body);
          uploadSuccess := true;
          buttonLabel := "Uploaded";
          toasts := toasts + [Uploaded];
        }
      }
      if !ok {
        toasts := toasts + [UploadFailed];
      }
    }
  }
}
