/** The single-request upload route: an in-memory sliding window of request
    times per client address, then the file is saved under a random hex name in
    the uploads directory. */
module UploadRoute {
  import opened Runtime
  import opened Storage

  /** 15 minutes, in milliseconds. */
  const WindowMs: int := 15 * 60 * 1000
  /** Requests an address may make per window. */
  const Max: nat := 5

  /** The `file` field of the multipart body. */
  datatype FormFile = FormFile(name: string, bytes: Bytes)

  /** What `data.get('file')` gives: nothing, a text field, or an uploaded file. */
  datatype FileField = NoFile | TextValue(text: string) | Blob(file: FormFile)

  /** `!file`: `null` and the empty text are falsy; a `File` never is. */
  predicate Missing(field: FileField)
  {
    field.NoFile? || field == TextValue([])
  }

  /** `Thrown` is the bare 500 that Next.js sends when the handler throws outside
      its `try`. */
  datatype Reply = UrlReply(url: string) | ErrorReply(status: nat, error: string) | Thrown

  const TooManyRequests: Reply := ErrorReply(429, "Too many requests")
  const NoFileUploaded: Reply := ErrorReply(400, "No file uploaded")
  const SaveFailed: Reply := ErrorReply(500, "Error saving file")

  /** `timestamps.filter(t => t > windowStart)`. */
  function InWindow(timestamps: seq<int>, windowStart: int): (r: seq<int>)
    ensures |r| <= |timestamps|
    ensures forall i | 0 <= i < |r| :: r[i] > windowStart
    ensures forall t :: t in r <==> t in timestamps && t > windowStart
  {
    if timestamps == [] then []
    else
      var init := timestamps[..|timestamps| - 1];
      var t := timestamps[|timestamps| - 1];
      assert timestamps == init + [t];
      InWindow(init, windowStart) + (if t > windowStart then [t] else [])
  }

  /** Filtering by a window and then by a later one is filtering by the later one. */
  lemma {:induction false} InWindowTwice(timestamps: seq<int>, early: int, late: int)
    requires early <= late
    ensures InWindow(InWindow(timestamps, early), late) == InWindow(timestamps, late)
  {
    if timestamps != [] {
      var init := timestamps[..|timestamps| - 1];
      var t := timestamps[|timestamps| - 1];
      InWindowTwice(init, early, late);
      var once := InWindow(init, early);
      if t > early {
        assert (once + [t])[..|once + [t]| - 1] == once;
      } else {
        assert once + [] == once;
      }
    }
  }

  lemma InWindowAppend(timestamps: seq<int>, t: int, windowStart: int)
    ensures InWindow(timestamps + [t], windowStart)
         == InWindow(timestamps, windowStart) + (if t > windowStart then [t] else [])
  {
    assert (timestamps + [t])[..|timestamps + [t]| - 1] == timestamps;
  }

  /** The times of `ip`'s requests inside the window that ends at `now`. */
  function Recent(table: map<string, seq<int>>, ip: string, now: int): seq<int>
  {
    InWindow(if ip in table then table[ip] else [], now - WindowMs)
  }

  /** The table after a request from `ip` at `now` that the limiter lets through:
      the address keeps its recent times and the new one; no other address changes. */
  function Admitted(table: map<string, seq<int>>, ip: string, now: int): (r: map<string, seq<int>>)
    ensures r.Keys == table.Keys + {ip}
    ensures forall other | other in table && other != ip :: r[other] == table[other]
  {
    table[ip := Recent(table, ip, now) + [now]]
  }

  /** No stored list is longer than the limit. */
  ghost predicate Bounded(table: map<string, seq<int>>)
  {
    forall ip | ip in table :: |table[ip]| <= Max
  }

  /** A request the limiter lets through keeps every list within the limit. */
  lemma AdmittedBounded(table: map<string, seq<int>>, ip: string, now: int)
    requires Bounded(table) && |Recent(table, ip, now)| < Max
    ensures Bounded(Admitted(table, ip, now))
  {
    var r := Admitted(table, ip, now);
    forall other | other in r ensures |r[other]| <= Max {
      if other != ip {
        assert r[other] == table[other];
      }
    }
  }

  /** A request let through counts against every later window that still covers it. */
  lemma AdmittedCounts(table: map<string, seq<int>>, ip: string, now: int, later: int)
    requires now <= later < now + WindowMs
    ensures Recent(Admitted(table, ip, now), ip, later) == Recent(table, ip, later) + [now]
  {
    var stored := if ip in table then table[ip] else [];
    InWindowAppend(InWindow(stored, now - WindowMs), now, later - WindowMs);
    InWindowTwice(stored, now - WindowMs, later - WindowMs);
  }

  /** The name the file is stored under: eight hex digits from four random bytes,
      then the original extension. */
  function StoredName(randomBytes: Bytes, original: string): (name: string)
    requires |randomBytes| == 4
    ensures |name| == 8 + |ExtName(original)|
    ensures forall i | 0 <= i < 8 :: IsLowerHexDigit(name[i])
    ensures name[8..] == ExtName(original)
    ensures '/' !in name
  {
    var hex := HexEncode(randomBytes);
    assert '/' !in hex by {
      forall i | 0 <= i < |hex| ensures hex[i] != '/' { assert IsLowerHexDigit(hex[i]); }
    }
    hex + ExtName(original)
  }

  /** The stored name keeps the random bytes: they can be read back from it. */
  lemma StoredNameKeepsBytes(randomBytes: Bytes, original: string)
    requires |randomBytes| == 4
    ensures HexDecode(StoredName(randomBytes, original)[..8]) == randomBytes
  {
    assert StoredName(randomBytes, original)[..8] == HexEncode(randomBytes);
    HexRoundTrip(randomBytes);
  }

  /** The uploader file extension survives: `a.png` is stored as `xxxxxxxx.png`. */
  lemma StoredNameOfPlainName(randomBytes: Bytes, stem: string, ext: string)
    requires |randomBytes| == 4
    requires stem != [] && !(stem == "." && ext == [])
    requires '/' !in stem && '/' !in ext && '.' !in ext
    ensures StoredName(randomBytes, stem + "." + ext)[8..] == "." + ext
  {
    ExtNameOfPlainName(stem, ext);
  }

  /** The in-memory `rateLimiter` map. */
  class RequestWindows {
    var requests: map<string, seq<int>>

    ghost predicate Valid()
      reads this
    {
      Bounded(requests)
    }

    constructor()
      ensures Valid() && requests == map[]
    {
      requests := map[];
    }
  }

  /** The handler. `requestIp` is `request.ip`, `now` is `Date.now()`, `body` is
      `None` when `request.formData()` throws, `randomBytes` the four bytes
      `crypto.randomBytes` draws and `writeFails` whether `writeFile` throws. The
      request is counted before the body is looked at, so a body that throws is
      counted too. A non-empty text field in place of the file throws at
      `file.arrayBuffer()`. */
  method Post(limiter: RequestWindows, store: UploadsDir, requestIp: Option<string>, now: int,
              body: Option<FileField>, randomBytes: Bytes, writeFails: bool, baseUrl: Option<string>)
    returns (reply: Reply)
    requires limiter.Valid() && store.Valid() && |randomBytes| == 4
    modifies limiter, store
    ensures limiter.Valid() && store.Valid() && store.staging == old(store.staging)
    ensures var ip := match requestIp case Some(a) => a case None => "127.0.0.1";
            var limited := |Recent(old(limiter.requests), ip, now)| >= Max;
            && (limited ==> reply == TooManyRequests && limiter.requests == old(limiter.requests))
            && (!limited ==> limiter.requests == Admitted(old(limiter.requests), ip, now))
            && (!limited && body.None? ==> reply == Thrown)
            && (!limited && body.Some? && Missing(body.value) ==> reply == NoFileUploaded)
            && (!limited && body.Some? && body.value.TextValue? && !Missing(body.value) ==> reply == Thrown)
            && (!limited && body.Some? && body.value.Blob? && writeFails ==> reply == SaveFailed)
            && (!limited && body.Some? && body.value.Blob? && !writeFails ==>
                  var name := StoredName(randomBytes, body.value.file.name);
                  && store.files == old(store.files)[name := body.value.file.bytes]
                  && reply == UrlReply(EnvText(baseUrl) + "/uploads/" + name))
            && (limited || body.None? || !body.value.Blob? || writeFails ==> store.files == old(store.files))
  {
    var ip := match requestIp case Some(a) => a case None => "127.0.0.1";
    var windowStart := now - WindowMs;
    var requestCount := if ip in limiter.requests then limiter.requests[ip] else [];
    var requestsInWindow := InWindow(requestCount, windowStart);
    if |requestsInWindow| >= Max {
      return TooManyRequests;
    }
    AdmittedBounded(limiter.requests, ip, now);
    limiter.requests := limiter.requests[ip := requestsInWindow + [now]];
    if body.None? {
      return Thrown;
    }
    if Missing(body.value) {
      return NoFileUploaded;
    }
    if body.value.TextValue? {
      return Thrown;
    }
    var f := body.value.file;
    var randomName := StoredName(randomBytes, f.name);
    if writeFails {
      return SaveFailed;
    }
    store.WriteFile(randomName, f.bytes);
    reply := UrlReply(EnvText(baseUrl) + "/uploads/" + randomName);
  }
}
