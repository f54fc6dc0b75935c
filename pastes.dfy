/** The paste route: requires a title and content, stores the paste under a
    random ten-character id and replies with its address. */
module Pastes {
  import opened Runtime

  /** The JSON body, once parsed; absent fields are `None`. */
  datatype Body = Body(title: Option<string>, description: Option<string>,
                       content: Option<string>, language: Option<string>)

  /** A row of the `pastes` table. */
  datatype Paste = Paste(id: string, title: string, description: Option<string>,
                         content: string, language: Option<string>)

  datatype Reply = Created(url: string) | ErrorReply(status: nat, error: string)

  const FieldsRequired: Reply := ErrorReply(400, "Title and content are required")
  const InternalError: Reply := ErrorReply(500, "Internal server error")

  datatype Outcome = Outcome(reply: Reply, rows: map<string, Paste>)

  /** Every row is stored under its own id. */
  ghost predicate KeyedById(rows: map<string, Paste>)
  {
    forall id | id in rows :: rows[id].id == id
  }

  /** The handler as a whole. `body` is `None` when the body does not parse or is `null`;
      `randomBytes` are the bytes `nanoid(10)` draws; `createFails` is the insert
      throwing for a reason of its own. The insert also throws on an id already taken. */
  function Handle(rows: map<string, Paste>, body: Option<Body>, randomBytes: Bytes,
                  createFails: bool, baseUrl: Option<string>): (r: Outcome)
    requires |randomBytes| == 10
    ensures body.None? ==> r == Outcome(InternalError, rows)
    ensures body.Some? && (!Truthy(body.value.title) || !Truthy(body.value.content)) ==>
              r == Outcome(FieldsRequired, rows)
    ensures body.Some? && Truthy(body.value.title) && Truthy(body.value.content) &&
            (NanoId(randomBytes) in rows || createFails) ==>
              r == Outcome(InternalError, rows)
    ensures r.reply.ErrorReply? ==> r.rows == rows
    ensures r.reply.Created? <==>
              && body.Some? && Truthy(body.value.title) && Truthy(body.value.content)
              && NanoId(randomBytes) !in rows && !createFails
    ensures r.reply.Created? ==>
              var id := NanoId(randomBytes);
              var b := body.value;
              && |id| == 10
              && r.rows == rows[id := Paste(id, b.title.value, b.description, b.content.value, b.language)]
              && r.reply.url == EnvText(baseUrl) + "/p/" + id
  {
    match body
    case None => Outcome(InternalError, rows)
    case Some(b) =>
      if !Truthy(b.title) || !Truthy(b.content) then Outcome(FieldsRequired, rows)
      else
        var pasteId := NanoId(randomBytes);
        if pasteId in rows || createFails then Outcome(InternalError, rows)
        else
          Outcome(Created(EnvText(baseUrl) + "/p/" + pasteId),
                  rows[pasteId := Paste(pasteId, b.title.value, b.description, b.content.value, b.language)])
  }

  /** A created paste can be read back under the id its URL ends with, with
      exactly the fields of the request. */
  lemma CreatedPasteReadsBack(rows: map<string, Paste>, body: Option<Body>, randomBytes: Bytes,
                              createFails: bool, baseUrl: Option<string>)
    requires |randomBytes| == 10
    ensures var r := Handle(rows, body, randomBytes, createFails, baseUrl);
            r.reply.Created? ==>
              var prefix := EnvText(baseUrl) + "/p/";
              && r.reply.url[..|prefix|] == prefix
              && var id := r.reply.url[|prefix|..];
              && id in r.rows
              && r.rows[id] == Paste(id, body.value.title.value, body.value.description,
                                     body.value.content.value, body.value.language)
  {
    var r := Handle(rows, body, randomBytes, createFails, baseUrl);
    if r.reply.Created? {
      var prefix := EnvText(baseUrl) + "/p/";
      var id := NanoId(randomBytes);
      assert r.reply.url == prefix + id;
      assert r.reply.url[|prefix|..] == id;
    }
  }

  /** Every insert keeps the table keyed by id. */
  lemma HandleKeepsKeys(rows: map<string, Paste>, body: Option<Body>, randomBytes: Bytes,
                        createFails: bool, baseUrl: Option<string>)
    requires |randomBytes| == 10 && KeyedById(rows)
    ensures KeyedById(Handle(rows, body, randomBytes, createFails, baseUrl).rows)
  {
    var r := Handle(rows, body, randomBytes, createFails, baseUrl);
    if r.reply.Created? {
      var id := NanoId(randomBytes);
      forall k | k in r.rows ensures r.rows[k].id == k {
        if k != id {
          assert r.rows[k] == rows[k];
        }
      }
    }
  }

  /** The `pastes` table. */
  class PasteTable {
    var rows: map<string, Paste>

    ghost predicate Valid()
      reads this
    {
      KeyedById(rows)
    }

    constructor()
      ensures Valid() && rows == map[]
    {
      rows := map[];
    }

    /** `prisma.pastes.create`: refuses an id already present. */
    method Create(row: Paste) returns (created: bool)
      requires Valid()
      modifies this
      ensures Valid()
      ensures created <==> row.id !in old(rows)
      ensures created ==> rows == old(rows)[row.id := row]
      ensures !created ==> rows == old(rows)
    {
      if row.id in rows {
        return false;
      }
      rows := rows[row.id := row];
      return true;
    }
  }

  /** `POST /api/pastes`. */
  method Post(table: PasteTable, body: Option<Body>, randomBytes: Bytes, createFails: bool,
              baseUrl: Option<string>)
    returns (reply: Reply)
    requires table.Valid() && |randomBytes| == 10
    modifies table
    ensures table.Valid()
    ensures Outcome(reply, table.rows) == Handle(old(table.rows), body, randomBytes, createFails, baseUrl)
  {
    if body.None? {
      return InternalError;
    }
    var b := body.value;
    if !Truthy(b.title) || !Truthy(b.content) {
      return FieldsRequired;
    }
    var pasteId := NanoId(randomBytes);
    if createFails {
      return InternalError;
    }
    var created := table.Create(Paste(pasteId, b.title.value, b.description, b.content.value, b.language));
    if !created {
      return InternalError;
    }
    var pasteUrl := EnvText(baseUrl) + "/p/" + pasteId;
    reply := Created(pasteUrl);
  }
}
