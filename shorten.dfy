/** The URL shortener route: checks the target URL, picks the short code (the
    custom alias, or a random six-character id), works out the expiry, refuses an
    alias already in use and inserts one row into the `shortUrl` table. */
module Shorten {
  import opened Runtime

  /** 24 hours, in milliseconds. */
  const DefaultExpirationMs: int := 24 * 60 * 60 * 1000
  /** 30 days, in milliseconds. */
  const MaxExpirationMs: int := 30 * 24 * 60 * 60 * 1000

  /** The `expirationTime` field: falsy (absent, `""`, `0`, `null`), a value that
      `new Date` cannot read, or a time it reads as these milliseconds. */
  datatype ExpirationField = NoExpiration | Unreadable | At(ms: int)

  /** The JSON body, once parsed. */
  datatype Body = Body(url: Option<string>, customAlias: Option<string>, expirationTime: ExpirationField)

  /** A row of the `shortUrl` table; `expiresAt` is in milliseconds. */
  datatype ShortUrl = ShortUrl(originalUrl: string, shortCode: string, expiresAt: int)

  datatype Reply = Shortened(shortUrl: string) | ErrorReply(status: nat, error: string)

  const UrlRequired: Reply := ErrorReply(400, "URL is required")
  const InvalidUrl: Reply := ErrorReply(400, "Invalid URL format")
  const AliasInUse: Reply := ErrorReply(409, "Custom alias already in use")
  const InternalError: Reply := ErrorReply(500, "Internal server error")

  datatype Outcome = Outcome(reply: Reply, rows: map<string, ShortUrl>)

  /** `expiration`: a day from `now` by default; a given time is kept when it is at
      most 30 days ahead and cut back to 30 days otherwise. A time in the past is
      kept. `None` is an invalid `Date`, which the insert then refuses. */
  function Expiration(field: ExpirationField, now: int): (r: Option<int>)
    ensures r.None? <==> field.Unreadable?
    ensures r.Some? ==> r.value <= now + MaxExpirationMs
    ensures field.NoExpiration? ==> r == Some(now + DefaultExpirationMs)
    ensures field.At? && field.ms <= now + MaxExpirationMs ==> r == Some(field.ms)
    ensures field.At? && field.ms > now + MaxExpirationMs ==> r == Some(now + MaxExpirationMs)
  {
    match field
    case NoExpiration => Some(now + DefaultExpirationMs)
    case Unreadable => None
    case At(ms) => Some(Min(ms, now + MaxExpirationMs))
  }

  /** Asking again for the expiry a request was given gives the same expiry. */
  lemma ExpirationIdempotent(field: ExpirationField, now: int)
    requires field != Unreadable
    ensures Expiration(At(Expiration(field, now).value), now) == Expiration(field, now)
  {
  }

  /** `customAlias || nanoid(6)`, the random id drawn from `randomBytes`. */
  function ShortCode(customAlias: Option<string>, randomBytes: Bytes): (code: string)
    requires |randomBytes| == 6
    ensures Truthy(customAlias) ==> code == customAlias.value
    ensures !Truthy(customAlias) ==> |code| == 6 && forall i | 0 <= i < 6 :: code[i] in UrlAlphabet
    ensures code != []
  {
    if Truthy(customAlias) then customAlias.value else NanoId(randomBytes)
  }

  /** Every row is stored under its own short code, which the table keeps unique. */
  ghost predicate KeyedByCode(rows: map<string, ShortUrl>)
  {
    forall code | code in rows :: rows[code].shortCode == code
  }

  /** The handler as a whole. `body` is `None` when the body does not parse or is `null`;
      `validUrl` is the URL pattern; `createFails` is the insert throwing for a reason
      of its own. The insert also throws on a taken short code or an invalid expiry. */
  function Handle(rows: map<string, ShortUrl>, body: Option<Body>, validUrl: string -> bool,
                  now: int, randomBytes: Bytes, createFails: bool, baseUrl: Option<string>): (r: Outcome)
    requires |randomBytes| == 6
    ensures body.None? ==> r == Outcome(InternalError, rows)
    ensures body.Some? && !Truthy(body.value.url) ==> r == Outcome(UrlRequired, rows)
    ensures body.Some? && Truthy(body.value.url) && !validUrl(body.value.url.value) ==> r == Outcome(InvalidUrl, rows)
    ensures body.Some? && Truthy(body.value.url) && validUrl(body.value.url.value) &&
            Truthy(body.value.customAlias) && body.value.customAlias.value in rows ==>
              r == Outcome(AliasInUse, rows)
    ensures body.Some? && Truthy(body.value.url) && validUrl(body.value.url.value) &&
            !(Truthy(body.value.customAlias) && body.value.customAlias.value in rows) &&
            !r.reply.Shortened? ==>
              r == Outcome(InternalError, rows)
    ensures r.reply.ErrorReply? ==> r.rows == rows
    ensures r.reply.Shortened? <==>
              && body.Some? && Truthy(body.value.url) && validUrl(body.value.url.value)
              && ShortCode(body.value.customAlias, randomBytes) !in rows
              && !body.value.expirationTime.Unreadable? && !createFails
    ensures r.reply.Shortened? ==>
              var code := ShortCode(body.value.customAlias, randomBytes);
              var expiry := Expiration(body.value.expirationTime, now).value;
              && r.rows == rows[code := ShortUrl(body.value.url.value, code, expiry)]
              && r.reply.shortUrl == EnvText(baseUrl) + "/s/" + code
  {
    match body
    case None => Outcome(InternalError, rows)
    case Some(b) =>
      if !Truthy(b.url) then Outcome(UrlRequired, rows)
      else if !validUrl(b.url.value) then Outcome(InvalidUrl, rows)
      else
        var shortCode := ShortCode(b.customAlias, randomBytes);
        var expiration := Expiration(b.expirationTime, now);
        if Truthy(b.customAlias) && b.customAlias.value in rows then Outcome(AliasInUse, rows)
        else if shortCode in rows || expiration.None? || createFails then Outcome(InternalError, rows)
        else
          Outcome(Shortened(EnvText(baseUrl) + "/s/" + shortCode),
                  rows[shortCode := ShortUrl(b.url.value, shortCode, expiration.value)])
  }

  /** Every insert keeps the table keyed by short code. */
  lemma HandleKeepsKeys(rows: map<string, ShortUrl>, body: Option<Body>, validUrl: string -> bool,
                        now: int, randomBytes: Bytes, createFails: bool, baseUrl: Option<string>)
    requires |randomBytes| == 6 && KeyedByCode(rows)
    ensures KeyedByCode(Handle(rows, body, validUrl, now, randomBytes, createFails, baseUrl).rows)
  {
    var r := Handle(rows, body, validUrl, now, randomBytes, createFails, baseUrl);
    if r.reply.Shortened? {
      var code := ShortCode(body.value.customAlias, randomBytes);
      forall k | k in r.rows ensures r.rows[k].shortCode == k {
        if k != code {
          assert r.rows[k] == rows[k];
        }
      }
    }
  }

  /** Once an alias is taken, asking for it again gives 409 and changes nothing,
      whatever the rest of the second request says. */
  lemma AliasTakenOnce(rows: map<string, ShortUrl>, first: Body, second: Body, validUrl: string -> bool,
                       now: int, later: int, bytes1: Bytes, bytes2: Bytes, baseUrl: Option<string>)
    requires |bytes1| == 6 && |bytes2| == 6
    requires Truthy(first.customAlias) && second.customAlias == first.customAlias
    requires Truthy(second.url) && validUrl(second.url.value)
    requires Handle(rows, Some(first), validUrl, now, bytes1, false, baseUrl).reply.Shortened?
    ensures var taken := Handle(rows, Some(first), validUrl, now, bytes1, false, baseUrl).rows;
            Handle(taken, Some(second), validUrl, later, bytes2, false, baseUrl) == Outcome(AliasInUse, taken)
  {
    var taken := Handle(rows, Some(first), validUrl, now, bytes1, false, baseUrl).rows;
    assert first.customAlias.value in taken;
  }

  /** The `shortUrl` table. */
  class ShortUrlTable {
    var rows: map<string, ShortUrl>

    ghost predicate Valid()
      reads this
    {
      KeyedByCode(rows)
    }

    constructor()
      ensures Valid() && rows == map[]
    {
      rows := map[];
    }

    /** `prisma.shortUrl.findUnique` by short code. */
    function FindUnique(shortCode: string): (r: Option<ShortUrl>)
      reads this
      ensures r.Some? <==> shortCode in rows
      ensures r.Some? ==> r.value == rows[shortCode]
    {
      if shortCode in rows then Some(rows[shortCode]) else None
    }

    /** `prisma.shortUrl.create`: refuses a short code already present. */
    method Create(row: ShortUrl) returns (created: bool)
      requires Valid()
      modifies this
      ensures Valid()
      ensures created <==> row.shortCode !in old(rows)
      ensures created ==> rows == old(rows)[row.shortCode := row]
      ensures !created ==> rows == old(rows)
    {
      if row.shortCode in rows {
        return false;
      }
      rows := rows[row.shortCode := row];
      return true;
    }
  }

  /** `POST /api/shorten`. */
  method Post(table: ShortUrlTable, body: Option<Body>, validUrl: string -> bool, now: int,
              randomBytes: Bytes, createFails: bool, baseUrl: Option<string>)
    returns (reply: Reply)
    requires table.Valid() && |randomBytes| == 6
    modifies table
    ensures table.Valid()
    ensures Outcome(reply, table.rows) == Handle(old(table.rows), body, validUrl, now, randomBytes, createFails, baseUrl)
  {
    if body.None? {
      return InternalError;
    }
    var b := body.value;
    if !Truthy(b.url) {
      return UrlRequired;
    }
    if !validUrl(b.url.value) {
      return InvalidUrl;
    }
    var shortCode := ShortCode(b.customAlias, randomBytes);
    var expiration: Option<int> := Some(now + DefaultExpirationMs);
    if b.expirationTime != NoExpiration {
      expiration := match b.expirationTime
        case At(ms) => Some(Min(ms, now + MaxExpirationMs))
        case _ => None;
    }
    if Truthy(b.customAlias) {
      var existingUrl := table.FindUnique(b.customAlias.value);
      if existingUrl.Some? {
        return AliasInUse;
      }
    }
    if expiration.None? || createFails {
      return InternalError;
    }
    var created := table.Create(ShortUrl(b.url.value, shortCode, expiration.value));
    if !created {
      return InternalError;
    }
    reply := Shortened(EnvText(baseUrl) + "/s/" + shortCode);
  }
}
