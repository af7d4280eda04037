/** The welcome-message endpoint (pages/api/message.ts): GET reads the
    stored message, POST upserts it as record 1, any other method is
    refused. The database is the message table, a sequence of rows in
    table order; whether the database call throws is an input. Status codes are those of RFC 9110:
    200 OK (section 15.3.1), 405 Method Not Allowed (section 15.5.6) and
    500 Internal Server Error (section 15.6.1). */
module MessageApi {
  import opened Wrappers

  /** The id under which POST stores the message. */
  const RecordId: int := 1

  const StatusOk: int := 200
  const StatusMethodNotAllowed: int := 405
  const StatusInternalError: int := 500

  const NotAllowedText := "Methode nicht erlaubt"
  const InternalErrorText := "Internal Server Error"

  /** The request's method and the `message` field of its JSON body. */
  datatype Request = Request(verb: string, message: string)

  /** The JSON bodies the handler sends. */
  datatype Payload = MessageJson(message: string) | SuccessJson | ErrorJson(error: string)

  datatype Response = Response(status: int, payload: Payload)

  /** A row of the message table. */
  datatype Row = Row(id: int, content: string)

  /** No two rows share an id: id is the table's primary key. */
  predicate UniqueIds(rows: seq<Row>) {
    forall i, j :: 0 <= i < j < |rows| ==> rows[i].id != rows[j].id
  }

  /** The content of the row with this id, if there is one. */
  function Lookup(rows: seq<Row>, id: int): Option<string> {
    if rows == [] then None
    else if rows[0].id == id then Some(rows[0].content)
    else Lookup(rows[1..], id)
  }

  /** findFirst without a filter or an ordering: the first row of the table. */
  function FindFirst(rows: seq<Row>): Option<string> {
    if rows == [] then None else Some(rows[0].content)
  }

  /** upsert where id = `id`: the row with that id gets the new content if
      it exists; otherwise a row is created, at the end of the table. */
  function Upsert(rows: seq<Row>, id: int, content: string): (r: seq<Row>)
    ensures |r| == |rows| || |r| == |rows| + 1
  {
    if rows == [] then [Row(id, content)]
    else if rows[0].id == id then [Row(id, content)] + rows[1..]
    else [rows[0]] + Upsert(rows[1..], id, content)
  }

  /** The GET answer's message: a missing row, like an empty content (falsy
      in JavaScript), reads as the empty string. */
  function ContentOrEmpty(found: Option<string>): string {
    if found.Some? && found.value != "" then found.value else ""
  }

  /** The response the handler sends and the store it leaves behind, when
      `storeFails` says whether the database call throws. */
  function Respond(rows: seq<Row>, req: Request, storeFails: bool): (seq<Row>, Response) {
    if req.verb == "GET" then
      if storeFails then (rows, Response(StatusInternalError, ErrorJson(InternalErrorText)))
      else (rows, Response(StatusOk, MessageJson(ContentOrEmpty(FindFirst(rows)))))
    else if req.verb == "POST" then
      if storeFails then (rows, Response(StatusInternalError, ErrorJson(InternalErrorText)))
      else (Upsert(rows, RecordId, req.message), Response(StatusOk, SuccessJson))
    else
      (rows, Response(StatusMethodNotAllowed, ErrorJson(NotAllowedText)))
  }

  /** The endpoint with the message table it owns. */
  class MessageEndpoint {
    var rows: seq<Row>

    /** The table keeps its primary key: no two rows share an id. */
    ghost predicate Valid()
      reads this
    {
      UniqueIds(rows)
    }

    constructor (initial: seq<Row>)
      requires UniqueIds(initial)
      ensures rows == initial && Valid()
    {
      rows := initial;
    }

    /** handler(req, res). */
    method Handle(req: Request, storeFails: bool) returns (res: Response)
      requires Valid()
      modifies this
      ensures Valid()
      ensures (rows, res) == Respond(old(rows), req, storeFails)
    {
      if req.verb == "GET" {
        if storeFails {
          res := Response(StatusInternalError, ErrorJson(InternalErrorText));
        } else {
          var found := FindFirst(rows);
          res := Response(StatusOk, MessageJson(ContentOrEmpty(found)));
        }
      } else if req.verb == "POST" {
        if storeFails {
          res := Response(StatusInternalError, ErrorJson(InternalErrorText));
        } else {
          // upsert: update record 1 if it exists, create it otherwise
          UpsertKeepsIdsUnique(rows, RecordId, req.message);
          rows := Upsert(rows, RecordId, req.message);
          res := Response(StatusOk, SuccessJson);
        }
      } else {
        res := Response(StatusMethodNotAllowed, ErrorJson(NotAllowedText));
      }
    }
  }

  /* ---------------- properties ---------------- */

  function Get(rows: seq<Row>, storeFails: bool): (seq<Row>, Response) {
    Respond(rows, Request("GET", ""), storeFails)
  }

  function Post(rows: seq<Row>, message: string, storeFails: bool): (seq<Row>, Response) {
    Respond(rows, Request("POST", message), storeFails)
  }

  /** A method other than GET and POST gets 405 and never reaches the store. */
  lemma RejectedMethodLeavesStore(rows: seq<Row>, req: Request, storeFails: bool)
    requires req.verb != "GET" && req.verb != "POST"
    ensures Respond(rows, req, storeFails) == (rows, Response(StatusMethodNotAllowed, ErrorJson(NotAllowedText)))
  {
  }

  /** GET never changes the store; it answers 200 with the content of the
      first row, or '' when the table is empty. */
  lemma GetReadsFirstRow(rows: seq<Row>, req: Request)
    requires req.verb == "GET"
    ensures var (after, res) := Respond(rows, req, false);
      && after == rows
      && res.status == StatusOk && res.payload.MessageJson?
      && (rows == [] ==> res.payload.message == "")
      && (rows != [] ==> res.payload.message == rows[0].content)
  {
  }

  /** After an upsert the row with that id holds the new content, every
      other id keeps its content, and ids stay unique. */
  lemma {:induction false} UpsertSets(rows: seq<Row>, id: int, content: string, other: int)
    requires other != id
    ensures Lookup(Upsert(rows, id, content), id) == Some(content)
    ensures Lookup(Upsert(rows, id, content), other) == Lookup(rows, other)
  {
    if rows != [] && rows[0].id != id {
      UpsertSets(rows[1..], id, content, other);
    }
  }

  /** An upsert keeps ids unique: every id it leaves in the table is the
      upserted one or one that was there before. */
  lemma {:induction false} UpsertKeepsIdsUnique(rows: seq<Row>, id: int, content: string)
    requires UniqueIds(rows)
    ensures UniqueIds(Upsert(rows, id, content))
    ensures forall i :: 0 <= i < |Upsert(rows, id, content)| ==>
              Upsert(rows, id, content)[i].id == id || HasId(rows, Upsert(rows, id, content)[i].id)
  {
    if rows != [] && rows[0].id != id {
      var tail := Upsert(rows[1..], id, content);
      UpsertKeepsIdsUnique(rows[1..], id, content);
      forall i | 0 <= i < |tail| ensures tail[i].id != rows[0].id {
        if tail[i].id != id {
          var j :| 0 <= j < |rows[1..]| && rows[1..][j].id == tail[i].id;
          assert rows[j + 1] == rows[1..][j];
        }
      }
    }
  }

  predicate HasId(rows: seq<Row>, id: int) {
    exists j :: 0 <= j < |rows| && rows[j].id == id
  }

  /** A successful POST answers 200 {success: true} and stores the message
      under id 1, whether or not that row existed; every other row keeps
      its content and ids stay unique. */
  lemma PostUpsertsRecordOne(rows: seq<Row>, message: string, other: int)
    requires UniqueIds(rows) && other != RecordId
    ensures var (after, res) := Post(rows, message, false);
      && res == Response(StatusOk, SuccessJson)
      && Lookup(after, RecordId) == Some(message)
      && Lookup(after, other) == Lookup(rows, other)
      && UniqueIds(after)
  {
    UpsertSets(rows, RecordId, message, other);
    UpsertKeepsIdsUnique(rows, RecordId, message);
  }

  /** POST then GET gives back the posted message when record 1 is the
      first row or the table is empty, in particular when record 1 is the
      only row. */
  lemma PostThenGet(rows: seq<Row>, message: string)
    requires rows == [] || rows[0].id == RecordId
    ensures Get(Post(rows, message, false).0, false).1 == Response(StatusOk, MessageJson(ContentOrEmpty(Some(message))))
    ensures message != "" ==> Get(Post(rows, message, false).0, false).1 == Response(StatusOk, MessageJson(message))
  {
  }

  /** Posting the same message twice leaves the store as posting it once. */
  lemma {:induction false} UpsertIdempotent(rows: seq<Row>, id: int, content: string)
    ensures Upsert(Upsert(rows, id, content), id, content) == Upsert(rows, id, content)
  {
    if rows == [] {
    } else if rows[0].id == id {
      assert ([Row(id, content)] + rows[1..])[1..] == rows[1..];
    } else {
      UpsertIdempotent(rows[1..], id, content);
      assert ([rows[0]] + Upsert(rows[1..], id, content))[1..] == Upsert(rows[1..], id, content);
    }
  }

  lemma PostIdempotent(rows: seq<Row>, message: string)
    ensures Post(Post(rows, message, false).0, message, false) == Post(rows, message, false)
  {
    UpsertIdempotent(rows, RecordId, message);
  }

  /** A failing database call in GET or POST gives 500 and leaves the
      store unchanged, so a later GET still sees the previous message. */
  lemma FailureGives500(rows: seq<Row>, req: Request)
    requires req.verb == "GET" || req.verb == "POST"
    ensures Respond(rows, req, true) == (rows, Response(StatusInternalError, ErrorJson(InternalErrorText)))
    ensures Get(Respond(rows, req, true).0, false) == Get(rows, false)
  {
  }
}
