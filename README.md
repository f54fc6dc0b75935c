# keiran.cc upload, limiter and presence core in Dafny

This project models the server routes and client components of keiran.cc that
carry its logic:

- the chunked upload protocol. The web client's upload card slices a file into
  10 MiB pieces and posts them one by one to `/api/upload-chunk`. That route
  stores each piece as `chunks/<filename>/chunk-<index>`. Then
  `/api/upload-finalize` lists the staging directory, sorts the pieces by the
  number in their names, writes their bytes into one durable file under a
  random six-character name that keeps the original extension, and removes the
  staging directory;
- the single-request upload route `/api/upload`, with its in-memory sliding
  window of five requests per address per 15 minutes and its random hex file
  name;
- the rate-limiting middleware: a sliding window per address and route over a
  request log, plus a second, longer window over a violation log that
  blacklists a client;
- the storage statistics route, which adds up the sizes of the regular files
  in the uploads directory;
- the URL shortener and the paste routes, which insert one row each;
- the pure rendering logic of the Discord presence card and of the bio page:
  status colour and text, device icon, custom status, which activities are
  listed, the display name, the elapsed-time badge, and the bio's profile
  picture and technology list.

Modules:

- `Runtime` holds the JavaScript and Node built-ins the routes rely on:
  `parseInt`, `String(n)`, `trim`, `split`/`join`, `path.extname`, hex
  encoding, `nanoid` and the truthiness of an optional text.
- `Storage` is the `public/uploads` directory as a class. Staging directories
  are ordered lists of pieces, in the order the directory lists them. Durable
  files are a map from name to bytes.
- The other modules follow the source files one for one: `UploadChunk`,
  `UploadFinalize`, `FileUpload`, `RateLimit`, `UploadRoute`, `Stats`,
  `Shorten`, `Pastes`, `Presence` and `Bio`.

Modelling choices:

- Every state-changing handler is a method on the objects it changes. Its
  `ensures` ties the new state and the reply to a function of the old state,
  and the properties are proved about that function.
- Randomness is a parameter: the draws of `Math.random()` or the bytes that
  `crypto.randomBytes` and `nanoid` use.
- Failures of the disk or the database are parameters that name the call that
  throws.
- The clock (`Date.now()`) is a parameter.

Behaviour of the code worth knowing:

- A piece is named by the raw `chunkIndex` text, not by its parsed value, so
  `"7"` and `"07"` name two pieces with the same index
  (`UploadChunk.RawIndexNamesThePiece`). The finalizer's order is independent
  of the listing order only when no two pieces share an index
  (`UploadFinalize.SortIgnoresListingOrder` requires this). When two pieces do
  share an index, the stable sort keeps the listing order.
- A failure of the chunk route answers the fixed text `Chunk upload failed`,
  not the underlying error.
- The finalizer performs no count check: it joins whatever pieces it finds.
  An empty file sends no piece at all, so its finalize request finds no
  staging directory unless an earlier upload left one behind
  (`FileUpload.EmptyFileSendsOnlyFinalize`).
- The bio page uses the same status colours as the presence card, through its
  own copy of `getStatusColor` (`src/app/bio/page.tsx:80-87`). The model
  defines the colours once, in `Presence.StatusColor`.

## Model

| member | source | states |
|---|---|---|
| Runtime.TrimOmits | src/middleware/rateLimit.ts:41 | trimming never adds a character: a character absent from the input is absent from the result |
| Runtime.Split | src/app/bio/page.tsx:210-212 | `split` gives at least one field, no field holds the separator, and the first field is the text before the first separator |
| Runtime.JoinSplit | src/app/bio/page.tsx:210-212 | joining the fields of a split with the same separator gives back the original text |
| Runtime.SplitJoin | src/app/bio/page.tsx:210-212 | splitting a join of separator-free fields gives back those fields |
| Runtime.ParseIntIntString | src/app/api/upload-chunk/route.ts:21-24 | `parseInt(String(i))` is `i` for every integer, negative ones included |
| Runtime.DecimalStringInjective | src/components/file-upload.tsx:48-52 | two different indices are sent as two different texts |
| Runtime.ExtName | src/app/api/upload-finalize/route.ts:7 | `path.extname` is empty, or a dot followed by neither a dot nor a slash |
| Runtime.ExtNameWithoutDot | src/app/api/upload-finalize/route.ts:7 | a name with no dot has an empty extension |
| Runtime.ExtNameOfPlainName | src/app/api/upload/route.ts:38 | the extension of `stem.ext` is `.ext` when neither part holds a dot or a slash and the stem is non-empty |
| Runtime.HexRoundTrip | src/app/api/upload/route.ts:39 | decoding the lower-case hex of some bytes gives back the bytes |
| Runtime.NanoId | src/app/api/shorten/route.ts:25 | the id has one character per random byte, each from the URL-safe alphabet |
| Storage.Lookup | src/app/api/upload-finalize/route.ts:42 | reading a piece finds something exactly when the directory lists its name |
| Storage.Write | src/app/api/upload-chunk/route.ts:31-33 | after a write the piece holds the new bytes, every other piece is unchanged, a new name is listed last, an existing name keeps its place, and unique names stay unique |
| Storage.WriteTwice | src/app/api/upload-chunk/route.ts:31-33 | writing the same piece twice is the same as writing only the second content |
| Storage.UniqueLookup | src/app/api/upload-finalize/route.ts:40-44 | in a directory with unique names, reading a listed name gives that entry's bytes |
| Storage.SameDir | src/app/api/upload-finalize/route.ts:31 | two directories with the same listing and the same contents are equal |
| Storage.WriteNew | src/app/api/upload-chunk/route.ts:31-33 | writing a name the directory lacks appends exactly that piece |
| Storage.UploadsDir.constructor | src/app/api/upload-chunk/route.ts:27 | the uploads directory starts with no staging directory and no file |
| Storage.UploadsDir.MakeStagingDir | src/app/api/upload-chunk/route.ts:27-28 | a recursive `mkdir` creates an empty directory when it is missing and leaves an existing one as it is |
| Storage.UploadsDir.WritePiece | src/app/api/upload-chunk/route.ts:31-33 | a write changes only the named directory, as `Write` does |
| Storage.UploadsDir.ReadDir | src/app/api/upload-finalize/route.ts:31 | `readdir` gives the listing of an existing directory and fails on a missing one |
| Storage.UploadsDir.ReadPiece | src/app/api/upload-finalize/route.ts:42 | `readFile` gives the piece's bytes, or fails |
| Storage.UploadsDir.RemoveStagingDir | src/app/api/upload-finalize/route.ts:53 | a forced recursive `rm` removes the directory and does not fail when it is missing |
| Storage.UploadsDir.WriteFile | src/app/api/upload/route.ts:43 | writing a durable file replaces the file of that name and changes nothing else |
| UploadChunk.Reply | src/app/api/upload-chunk/route.ts:10-39 | 400 exactly when a field is missing or the index does not parse, 500 exactly when an admitted request fails on disk, otherwise 200 with `Chunk <index> of <total> uploaded successfully` |
| UploadChunk.StagingAfter | src/app/api/upload-chunk/route.ts:26-33 | a refused request or a failed `mkdir` changes nothing; otherwise the piece `chunk-<index>` of the `filename` directory is stored |
| UploadChunk.Saved | src/app/api/upload-chunk/route.ts:27-33 | the directory exists afterwards, other uploads and other pieces are untouched, the piece holds the bytes unless the write failed, and a newly made directory holds only that piece |
| UploadChunk.Post | src/app/api/upload-chunk/route.ts:7-39 | a body that `formData()` cannot read gives 500 and changes nothing; otherwise the handler's reply and staging area are those of `Reply` and `StagingAfter`; the durable files are never touched |
| UploadChunk.SaveTwice | src/app/api/upload-chunk/route.ts:31-33 | resending a piece keeps only the last content |
| UploadChunk.TotalChunksUnused | src/app/api/upload-chunk/route.ts:11 | the value of `totalChunks` never reaches the disk |
| UploadChunk.RawIndexNamesThePiece | src/app/api/upload-chunk/route.ts:21-31 | `"7"` and `"07"` both parse as 7 and are both admitted, yet they name two different pieces |
| UploadFinalize.CharFor | src/app/api/upload-finalize/route.ts:10-13 | every draw in [0, 1) picks a character of the 62-letter alphabet |
| UploadFinalize.GenerateRandomString | src/app/api/upload-finalize/route.ts:9-16 | the loop returns one character per draw, each the one `CharFor` picks |
| UploadFinalize.RandomFilename | src/app/api/upload-finalize/route.ts:6-20 | the name is six alphanumerics followed by the original's extension |
| UploadFinalize.GenerateRandomFilename | src/app/api/upload-finalize/route.ts:6-20 | the method returns `RandomFilename` of its draws |
| UploadFinalize.ChunkIndexOfPieceName | src/app/api/upload-finalize/route.ts:33-34 | the sort key of `chunk-<String(k)>` is `k` |
| UploadFinalize.SortByPermutes | src/app/api/upload-finalize/route.ts:32-36 | the sort only rearranges the listing (same multiset) |
| UploadFinalize.SortBySorted | src/app/api/upload-finalize/route.ts:32-36 | when every name has an index, the sorted listing is in ascending index order |
| UploadFinalize.InsertSorted | src/app/api/upload-finalize/route.ts:32-36 | inserting one name into a sorted listing keeps it sorted |
| UploadFinalize.InsertPermutes | src/app/api/upload-finalize/route.ts:32-36 | inserting one name adds exactly that name |
| UploadFinalize.KeyedByMultiset | src/app/api/upload-finalize/route.ts:33-34 | a rearranged listing whose names all have an index still has an index for every name |
| UploadFinalize.SortByOfSorted | src/app/api/upload-finalize/route.ts:32-36 | a listing already in index order is left as it is |
| UploadFinalize.SortedUnique | src/app/api/upload-finalize/route.ts:32-36 | two sorted orders of the same names, with no index shared, are equal |
| UploadFinalize.SortedHeads | src/app/api/upload-finalize/route.ts:32-36 | two such orders start with the same name |
| UploadFinalize.SortIgnoresListingOrder | src/app/api/upload-finalize/route.ts:31-36 | when no two pieces share an index, the sorted order does not depend on the order `readdir` lists them |
| UploadFinalize.SortPair | src/app/api/upload-finalize/route.ts:32-36 | two names out of index order are swapped |
| UploadFinalize.NumericOrder | src/app/api/upload-finalize/route.ts:33-35 | pieces sort by number, not by text: `chunk-2` comes before `chunk-10` |
| UploadFinalize.SortInPlace | src/app/api/upload-finalize/route.ts:32-36 | sorting the array in place leaves it equal to `SortBy` of its old contents |
| UploadFinalize.InsertLast | src/app/api/upload-finalize/route.ts:32-36 | one pass moves the last element left past every larger key and leaves the rest of the array alone |
| UploadFinalize.ConcatenationAppend | src/app/api/upload-finalize/route.ts:40-44 | writing two runs of pieces one after the other writes their concatenation |
| UploadFinalize.ConcatenationOfListing | src/app/api/upload-finalize/route.ts:40-44 | reading the listed pieces in listing order gives the directory's bytes in order |
| UploadFinalize.ConcatenationLengthPermutes | src/app/api/upload-finalize/route.ts:40-44 | the size of the file depends only on which pieces are read, not on their order |
| UploadFinalize.AssembledKeepsEveryPiece | src/app/api/upload-finalize/route.ts:31-44 | the assembled file is exactly as long as all pieces together: no piece is lost or repeated |
| UploadFinalize.AssembledInListingOrder | src/app/api/upload-finalize/route.ts:31-44 | pieces that were listed in index order are written in that order |
| UploadFinalize.Post | src/app/api/upload-finalize/route.ts:22-60 | a body without a string `filename`, a missing staging directory or a stream error gives 500 and nothing changes; otherwise the durable file `RandomFilename` holds the sorted pieces, the staging directory is removed and the reply is `/f/<name>` |
| UploadFinalize.SortedListing | src/app/api/upload-finalize/route.ts:32-36 | the listing copied into an array comes back as `SortBy` of the listing |
| UploadFinalize.ReadPieces | src/app/api/upload-finalize/route.ts:40-44 | the loop writes the bytes of the named pieces in the order given |
| FileUpload.ChunkCount | src/components/file-upload.tsx:43 | `Math.ceil(size / CHUNK_SIZE)`: enough pieces to cover the file and no spare one |
| FileUpload.StartBelowSize | src/components/file-upload.tsx:46 | the loop condition `start < size` holds exactly for the first `totalChunks` pieces |
| FileUpload.Slice | src/components/file-upload.tsx:47 | a slice has at most `CHUNK_SIZE` bytes |
| FileUpload.JoinedIsPrefix | src/components/file-upload.tsx:46-47 | the first `m` slices together are the first `m * CHUNK_SIZE` bytes of the file |
| FileUpload.SlicesMakeTheFile | src/components/file-upload.tsx:43-47 | the `totalChunks` slices together are the whole file, and none of them is empty |
| FileUpload.FormAdmitted | src/components/file-upload.tsx:48-52 | every form the client builds passes the chunk route's checks exactly when the file has a name |
| FileUpload.PieceAcceptedByServer | src/components/file-upload.tsx:59-61 | `response.ok` for a piece is the chunk route answering 200 |
| FileUpload.StepIsServer | src/components/file-upload.tsx:54-57 | each piece changes the staging area as the chunk route does |
| FileUpload.Delivered | src/components/file-upload.tsx:46-65 | the pieces delivered are all accepted, and the one after them is refused |
| FileUpload.DeliveredStops | src/components/file-upload.tsx:59-61 | once a piece is refused, no later piece is delivered |
| FileUpload.RequestsInOrder | src/components/file-upload.tsx:46-75 | pieces are sent numbered 0, 1, 2, … in order, each with the same file name and total; the finalize request comes last and only when every piece went through |
| FileUpload.AbortsAtFirstRefusal | src/components/file-upload.tsx:59-61 | after a refused piece nothing more is sent, and finalize is not called |
| FileUpload.PieceNamesDiffer | src/components/file-upload.tsx:49 | different indices give different piece names |
| FileUpload.PiecesUnique | src/components/file-upload.tsx:49 | a clean run stages pieces with unique names |
| FileUpload.CleanRunStages | src/components/file-upload.tsx:46-65 | with no fault, the first `m` pieces turn an absent or empty directory into `chunk-0 … chunk-(m-1)` holding the slices |
| FileUpload.CleanStep | src/components/file-upload.tsx:46-65 | one clean piece appends `chunk-k` to the pieces before it |
| FileUpload.PiecesGrow | src/components/file-upload.tsx:46-65 | writing piece `k` after pieces 0 … k-1 lists it last |
| FileUpload.ContentsOfPieces | src/components/file-upload.tsx:46-65 | the staged pieces hold the first `m` slices, in order |
| FileUpload.PiecesInIndexOrder | src/components/file-upload.tsx:49 | the staged listing is already in index order |
| FileUpload.UploadReproducesFile | src/components/file-upload.tsx:36-75 | uploading a non-empty file with no fault, into a staging area whose directory for its name is absent or empty, leaves a directory that the finalizer assembles into exactly the file's bytes |
| FileUpload.EmptyFileSendsOnlyFinalize | src/components/file-upload.tsx:43-75 | an empty file sends no piece, only the finalize request, and leaves the staging area unchanged |
| FileUpload.AdvancesStep | src/components/file-upload.tsx:63-64 | each delivered piece adds one progress value |
| FileUpload.ChunkRequestsStep | src/components/file-upload.tsx:54-57 | each loop round adds one chunk request |
| FileUpload.PercentMonotone | src/components/file-upload.tsx:64 | the percentage grows with the number of pieces delivered |
| FileUpload.ProgressRises | src/components/file-upload.tsx:40-64 | the bar starts at 0, never moves back, and reads 100 when every piece of a non-empty file went through |
| FileUpload.FileUploadCard.constructor | src/components/file-upload.tsx:15-20 | the card starts with no file, not uploading, label `Upload`, progress 0 |
| FileUpload.FileUploadCard.OnDrop | src/components/file-upload.tsx:22-33 | a file over 100 MiB gives the "File too large" toast and is not selected; any other file is selected; an empty drop (several files on the single-file zone) throws before changing anything; nothing else changes |
| FileUpload.FileUploadCard.ResetButton | src/components/file-upload.tsx:84-87 | one second after a success the label is `Upload` again and the success flag is cleared |
| FileUpload.FileUploadCard.SendPiece | src/components/file-upload.tsx:54-61 | one request returns `response.ok` and changes the staging area as the chunk route does |
| FileUpload.FileUploadCard.HandleUpload | src/components/file-upload.tsx:36-95 | with no file nothing happens; otherwise the requests, progress values, toasts, staging area and durable files are those of the sequential protocol, and the file is cleared and uploading ends |
| FileUpload.FileUploadCard.Transmit | src/components/file-upload.tsx:39-65 | resets the bar, sends the pieces in order up to the first refusal, and reports whether every piece went through |
| FileUpload.FileUploadCard.SendPieces | src/components/file-upload.tsx:46-65 | the loop sends `Requested` pieces, stages them as the chunk route does and logs one progress value per delivered piece |
| FileUpload.FileUploadCard.FinishUpload | src/components/file-upload.tsx:67-90 | when every piece went through, the finalize request either sets the link, the success flag, the "Uploaded" label and the success toast, or gives the failure toast; a refused piece gives the failure toast |
| RateLimit.ClientIp | src/middleware/rateLimit.ts:41 | the client is the trimmed first entry of `x-forwarded-for` (the whole header, trimmed, when it holds a single address), or `127.0.0.1` when the header is absent; it never holds a comma |
| RateLimit.ClientIpOfChain | src/middleware/rateLimit.ts:41 | with a proxy chain, the address is the first hop, trimmed |
| RateLimit.CountAfter | src/middleware/rateLimit.ts:52-60 | a count never exceeds the log's length |
| RateLimit.Prune | src/middleware/rateLimit.ts:102-108 | the `deleteMany` keeps only entries of the log stamped at or after the window start |
| RateLimit.PruneKeepsRecent | src/middleware/rateLimit.ts:102-108 | no entry at or after the window start is deleted |
| RateLimit.PruneKeepsWindow | src/middleware/rateLimit.ts:69-77 | pruning does not change any count over a window that starts at or after the pruning point |
| RateLimit.CountAppend | src/middleware/rateLimit.ts:94-100 | appending an entry raises the count by one exactly when it matches the client, the route and the window |
| RateLimit.ConfigFor | src/middleware/rateLimit.ts:13-45 | only the four configured routes are limited, each with a positive window and limit |
| RateLimit.Decide | src/middleware/rateLimit.ts:40-114 | unconfigured routes pass; a refusal is 403 or 429; a 403 writes nothing; a 429 appends one violation; a pass never touches the violation log; a failing blacklist count lets the request through unchanged |
| RateLimit.RecordCounts | src/middleware/rateLimit.ts:94-108 | recording a request counts it once in its window and keeps it, whether or not the `deleteMany` fails |
| RateLimit.RecordedWithinLimit | src/middleware/rateLimit.ts:69-100 | a recorded request leaves at most `limit` entries for its client and route in the window, one more than before |
| RateLimit.FailOpen | src/middleware/rateLimit.ts:111-114 | a failing database never refuses a request that a healthy one would let through |
| RateLimit.WindowStartIsExclusive | src/middleware/rateLimit.ts:56-108 | an entry stamped exactly at the window start is neither counted (`gt`) nor deleted (`lt`) |
| RateLimit.UploadRouteLimits | src/middleware/rateLimit.ts:32-37 | on `/api/upload`: 403 after 3 violations within an hour, else 429 after 5 requests within a minute, else pass |
| RateLimit.DecisionTable | src/middleware/rateLimit.ts:47-108 | for any configured route and a healthy database: 403 exactly when the violations in the long window reach the threshold, else 429 exactly when the requests in the short window reach the limit, else pass with the request appended and the request log pruned at the window start |
| RateLimit.LogStore.constructor | src/middleware/rateLimit.ts:52-108 | both tables start empty |
| RateLimit.LogStore.CreateBlacklist | src/middleware/rateLimit.ts:80-86 | `blacklistLog.create` appends one violation and leaves the request log alone |
| RateLimit.LogStore.CreateRequest | src/middleware/rateLimit.ts:94-100 | `requestLog.create` appends one request and leaves the violation log alone |
| RateLimit.LogStore.DeleteRequestsBefore | src/middleware/rateLimit.ts:102-108 | `deleteMany` leaves the request log pruned at the window start |
| RateLimit.RateLimit | src/middleware/rateLimit.ts:40-114 | the middleware's verdict and the tables afterwards are those of `Decide` for the client address and the route's configuration |
| UploadRoute.InWindow | src/app/api/upload/route.ts:20 | the filter keeps exactly the times after the window start, and no more entries than there were |
| UploadRoute.InWindowTwice | src/app/api/upload/route.ts:16-26 | filtering again with a later window start is the same as filtering once with it |
| UploadRoute.InWindowAppend | src/app/api/upload/route.ts:26 | appending `now` adds it to every window that contains it |
| UploadRoute.Admitted | src/app/api/upload/route.ts:26 | admitting a request changes only that address's entry |
| UploadRoute.AdmittedBounded | src/app/api/upload/route.ts:19-26 | the map never keeps more than five times for an address |
| UploadRoute.AdmittedCounts | src/app/api/upload/route.ts:19-26 | after an admission the address's recent times are the earlier ones plus `now` |
| UploadRoute.StoredName | src/app/api/upload/route.ts:38-39 | the name is eight lower-case hex digits followed by the original's extension, with no slash |
| UploadRoute.StoredNameKeepsBytes | src/app/api/upload/route.ts:39 | the eight hex digits decode to the four random bytes |
| UploadRoute.StoredNameOfPlainName | src/app/api/upload/route.ts:38-39 | for a plain `stem.ext`, the stored name ends in `.ext` |
| UploadRoute.RequestWindows.constructor | src/app/api/upload/route.ts:11 | the window map starts empty |
| UploadRoute.Post | src/app/api/upload/route.ts:13-50 | a client with five requests in the last 15 minutes gets 429 and is not recorded; otherwise the request is recorded first; then an unreadable body or a non-empty text in the `file` field throws and gets the bare 500 of Next.js, a missing or empty `file` field gives 400, a failed write gives 500, and a written file gets `<base>/uploads/<name>`; only a written file changes the durable files |
| Stats.FileCount | src/app/api/stats/route.ts:50-57 | no more files are counted than are listed |
| Stats.StatsOf | src/app/api/stats/route.ts:59-67 | used plus available is the 3 TiB total; available is negative exactly when the files use more than the total |
| Stats.OtherEntriesIgnored | src/app/api/stats/route.ts:53 | an entry that is not a regular file changes nothing |
| Stats.StatsSplit | src/app/api/stats/route.ts:50-57 | the counts over two runs of entries add up |
| Stats.RemoveEntry | src/app/api/stats/route.ts:50-57 | removing one entry subtracts its contribution |
| Stats.StatsIgnoreListingOrder | src/app/api/stats/route.ts:46-57 | the statistics do not depend on the order `readdir` lists the entries |
| Stats.GetStorageStats | src/app/api/stats/route.ts:42-72 | the loop fails exactly when `readdir` or some `stat` fails, and otherwise returns `StatsOf` the listing |
| Stats.Get | src/app/api/stats/route.ts:14-25 | a failure gives 500 `Failed to fetch storage stats` with the request URL; otherwise the reply carries the statistics |
| Shorten.Expiration | src/app/api/shorten/route.ts:26-35 | no expiry gives now + 24 h; a given time is kept up to now + 30 days and cut back to it beyond; an unreadable time gives an invalid date |
| Shorten.ExpirationIdempotent | src/app/api/shorten/route.ts:29-35 | sending back the expiry a request was given gives the same expiry |
| Shorten.ShortCode | src/app/api/shorten/route.ts:25 | a non-empty alias is the code; otherwise a six-character URL-safe id |
| Shorten.Handle | src/app/api/shorten/route.ts:7-58 | a bad body gives 500, a missing URL 400, a URL failing the pattern 400, a taken alias 409; past those checks every failure (a taken random code, an unreadable expiry, a failing insert) gives 500; it succeeds exactly when the code is free, the expiry readable and the insert works, and then adds one row and replies `<base>/s/<code>`; every error leaves the table unchanged |
| Shorten.HandleKeepsKeys | src/app/api/shorten/route.ts:46-52 | the table stays keyed by short code |
| Shorten.AliasTakenOnce | src/app/api/shorten/route.ts:37-44 | once an alias is taken, asking for it again gives 409 and changes nothing |
| Shorten.ShortUrlTable.constructor | src/app/api/shorten/route.ts:38 | the table starts empty |
| Shorten.ShortUrlTable.FindUnique | src/app/api/shorten/route.ts:38-40 | finds the row of a short code exactly when it is present |
| Shorten.ShortUrlTable.Create | src/app/api/shorten/route.ts:46-52 | inserts a row exactly when its short code is free, and otherwise fails leaving the table alone |
| Shorten.Post | src/app/api/shorten/route.ts:7-58 | the handler's reply and the table afterwards are those of `Handle` |
| Pastes.Handle | src/app/api/pastes/route.ts:7-32 | a bad body gives 500, a missing title or content 400, a taken id or a failing insert 500; it succeeds exactly when the ten-character id is free and the insert works, then adds the paste with the request's fields and replies `<base>/p/<id>`; every error leaves the table unchanged |
| Pastes.CreatedPasteReadsBack | src/app/api/pastes/route.ts:15-28 | the id at the end of the returned URL finds the paste with exactly the request's fields |
| Pastes.HandleKeepsKeys | src/app/api/pastes/route.ts:16-24 | the table stays keyed by id |
| Pastes.PasteTable.constructor | src/app/api/pastes/route.ts:16 | the table starts empty |
| Pastes.PasteTable.Create | src/app/api/pastes/route.ts:16-24 | inserts a paste exactly when its id is free |
| Pastes.Post | src/app/api/pastes/route.ts:7-32 | the handler's reply and the table afterwards are those of `Handle` |
| Presence.StatusColor | src/components/discord-presence.tsx:106-117 | green, yellow and red exactly for online, idle and do-not-disturb; gray exactly for every other status |
| Presence.StatusText | src/components/discord-presence.tsx:119-130 | Online, Idle and Do Not Disturb exactly for those statuses; Offline exactly for every other |
| Presence.StatusColorMatchesText | src/components/discord-presence.tsx:106-130 | the dot is gray exactly when the text says Offline |
| Presence.DeviceIcon | src/components/discord-presence.tsx:132-137 | no icon exactly when no client is active; otherwise web before desktop before mobile |
| Presence.CustomStatus | src/components/discord-presence.tsx:139-141 | finds an activity of type 4 from the list exactly when there is one |
| Presence.CustomStatusIsFirst | src/components/discord-presence.tsx:139-141 | the custom status shown is the first activity of type 4 |
| Presence.Without | src/components/discord-presence.tsx:241-243 | the filter keeps no activity of an excluded type and adds none |
| Presence.WithoutAppend | src/components/discord-presence.tsx:241-243 | filtering two lists joined is joining the filtered lists |
| Presence.WithoutMembers | src/components/discord-presence.tsx:241-243 | an activity is kept exactly when it was listed and its type is not excluded |
| Presence.WithoutTwice | src/components/discord-presence.tsx:241-243 | filtering twice is filtering once by both sets of types |
| Presence.Listed | src/components/discord-presence.tsx:241-243 | the card lists no custom status and no listening activity |
| Presence.DisplayName | src/components/discord-presence.tsx:164 | the display name if non-empty, else the global name if non-empty, else the username |
| Presence.DisplayNameEmpty | src/components/discord-presence.tsx:164 | the name shown is empty exactly when all three names are empty or absent |
| Presence.ElapsedText | src/components/discord-presence.tsx:274-280 | the elapsed time ends in `m` and reads back as the number of whole minutes elapsed, in both forms |
| Presence.MinutesText | src/components/discord-presence.tsx:278-279 | the text ends in `m`, and has an hours part (`h`) exactly when the minutes make at least one hour |
| Presence.NoLetterInNumber | src/components/discord-presence.tsx:279 | a number's text holds no `h`, `m` or space, so the parts can be read apart |
| Presence.MinutesTextReadsBack | src/components/discord-presence.tsx:277-279 | the text of any minute count reads back as that count |
| Presence.HoursTextReadsBack | src/components/discord-presence.tsx:278-279 | the hours form reads back as hours × 60 plus the remaining minutes |
| Presence.ReadHoursBack | src/components/discord-presence.tsx:279 | `<h>h <m>m` reads back as `h * 60 + m` |
| Presence.ReadMinutesBack | src/components/discord-presence.tsx:279 | `<m>m` reads back as `m` |
| Presence.ElapsedBadge | src/components/discord-presence.tsx:253-256 | a badge is shown exactly when the activity has a non-zero start, and it reads back as the minutes since that start |
| Bio.BioListed | src/app/bio/page.tsx:168 | the bio card lists every activity except listening |
| Bio.CardListsBioWithoutCustomStatus | src/app/bio/page.tsx:168 | the presence card's listing is the bio card's listing without the custom status |
| Bio.BadgeStart | src/app/bio/page.tsx:179 | a missing start counts as 0 |
| Bio.BioBadge | src/app/bio/page.tsx:94-100 | every listed activity has a badge ending in ` elapsed` whose time reads back as the minutes since its start |
| Bio.BadgesAgree | src/app/bio/page.tsx:94-100 | where both cards show a badge, they show the same time |
| Bio.MissingStartIsEpoch | src/app/bio/page.tsx:179 | an activity with no start shows the minutes since the epoch |
| Bio.BioTechs | src/app/bio/page.tsx:210-212 | a non-empty environment value is split at every comma: no part holds a comma and the parts joined with commas give the value back; otherwise `["Skidding"]` |
| Bio.BioProfile | src/app/bio/page.tsx:203-218 | the gura query parameter, with any value, switches the picture to `/gura.gif` and appends `Linqfy's mom` to the technologies |
| Bio.TechsFromEnvironment | src/app/bio/page.tsx:210-218 | technologies written into the environment without commas come back one by one |

## Left out

- The URL pattern of the shortener is a parameter `validUrl` of the model. The regular expression itself is not modelled.
- `new Date(expirationTime)` becomes `Shorten.ExpirationField`: no expiry, an unreadable value, or a time in milliseconds. The parsing of date texts is not modelled.
- A database insert failing for a reason other than a taken key is an oracle parameter (`createFails`). The Prisma client, its schema and its connection are not modelled.
- `Math.random()`, `crypto.randomBytes` and `nanoid` are their drawn values, passed as parameters.
- The filesystem is `Storage.UploadsDir`: a map of staging directories, each an ordered list of pieces, beside a map of durable files. Streams, permissions, symbolic links, path joining and path traversal through `filename` are not modelled. Directory listing order is creation order.
- Concurrent requests, the Next.js runtime, headers other than `x-forwarded-for` and `request.ip`, and JSON parsing are left out. A body that cannot be read is the `None` body of the chunk, finalize, shortener, paste and single-request upload handlers, answered with 500. For the shortener and the paste route that is a body that does not parse or is `null`.
- UploadFinalize.Post keeps the durable files and the `chunks` staging root apart, whereas both live in `public/uploads`. Two cases differ from the code. A `filename` of `""` or `"."` joins to the staging root itself; once an earlier upload has been finalized, the code then writes an empty durable file, removes the whole `chunks` root and answers 200. The model instead treats such a name as a staging directory of its own, so `""`, which the chunk route never stores, gives 500. Draws that spell `chunks` for a name without an extension make the code's write stream open that directory and answer 500, where the model answers 200.
- UploadFinalize.SortInPlace is a stable insertion sort, not the engine's own sort algorithm. When every piece name carries an index, every stable sort gives the same order, so the two agree. A name without an index makes the comparator return `NaN`, which the model treats as "not before". The engine's order under such an inconsistent comparator is implementation-defined, and the model's order is only one of the possible ones.
- FileUpload.FileUploadCard.HandleUpload does not model React's rendering, `useDropzone` or the asynchronous scheduling of state updates: each `set…` call is an assignment, in program order.
- Presence and bio: the fetching of presence data from the Lanyard API, the animations and the `formatTime` clock display, which depends on `toLocaleTimeString`, are left out.
- Bio.BioProfile does not model the environment texts that are only displayed (`NEXT_PUBLIC_BRAND_NAME`, `NEXT_PUBLIC_BIO_NAME`, `NEXT_PUBLIC_BIO_TECHS_DESCRIPTION`, `NEXT_PUBLIC_BIO_DESCRIPTION`, `NEXT_PUBLIC_DISCORD_USER_ID`), because they are each only `value || default` and reach no other logic.
- Runtime.Truthy covers text fields only: a JSON body field that holds a number, a boolean or an object is not modelled.
- RateLimit.FailOpen follows from `Decide`'s definition without further proof.
- `process.env.NEXT_PUBLIC_BASE_URL` is a parameter. When it is unset, the template literal writes `undefined`, and `Runtime.EnvText` models that.
- The `/api/[filename]` and `/api/chat` routes and the page components other than the bio page are not part of this model.
