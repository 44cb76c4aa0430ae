/** The POST handler of src/lib/dismiss.ts: record that a visitor dismissed a
    server message. The insert into `message_dismissals` is a function from the
    row to the database's answer. */
module Dismiss {

  /** The JSON values a field of the request body can hold (numbers are
      integers here). */
  datatype JsValue = Undefined | Null | Bool(b: bool) | Number(n: int) | Str(s: string) | Composite

  /** JavaScript falsiness: `undefined`, `null`, `false`, `0` and `""`. */
  predicate Falsy(v: JsValue) {
    v == Undefined || v == Null || v == Bool(false) || v == Number(0) || v == Str("")
  }

  /** `await request.json()`: unreadable (it throws), `null` (destructuring it
      throws), or the two fields destructured from it (absent ones are
      `undefined`, as for any non-object value). */
  datatype RequestBody = Unreadable | NullBody | Fields(messageId: JsValue, hashedIdentifier: JsValue)

  /** `{ message_id, hashed_identifier }` */
  datatype Row = Row(messageId: JsValue, hashedIdentifier: JsValue)

  /** The insert's answer: no error, an error with its code and message, or an
      exception. */
  datatype InsertResult = Inserted | InsertError(code: string, message: string) | InsertThrew

  datatype Body = Failure(error: string) | Dismissed(alreadyDismissed: bool)

  datatype Response = Response(status: int, body: Body)

  /** PostgreSQL's unique_violation. */
  const UniqueViolation := "23505"

  const RequiredFields := "messageId and hashedIdentifier are required"
  const DismissFailed := "Failed to dismiss message"

  /** `POST({ request })` */
  function Post(body: RequestBody, insert: Row -> InsertResult): (r: Response)
    ensures r.status == 200 || r.status == 400 || r.status == 500
    ensures r.status == 200 <==> r.body.Dismissed?
    ensures r.status == 400 <==> body.Fields? && (Falsy(body.messageId) || Falsy(body.hashedIdentifier))
    ensures r.body.Dismissed? ==>
      body.Fields? && (r.body.alreadyDismissed <==> insert(Row(body.messageId, body.hashedIdentifier)).InsertError?)
  {
    match body
    case Unreadable => Response(500, Failure(DismissFailed))
    case NullBody => Response(500, Failure(DismissFailed))
    case Fields(messageId, hashedIdentifier) =>
      if Falsy(messageId) || Falsy(hashedIdentifier) then Response(400, Failure(RequiredFields))
      else match insert(Row(messageId, hashedIdentifier))
        case InsertThrew => Response(500, Failure(DismissFailed))
        case InsertError(code, message) =>
          if code == UniqueViolation then Response(200, Dismissed(true))
          else Response(500, Failure(message))
        case Inserted => Response(200, Dismissed(false))
  }

  /* ---------------------------------------------------------------------------
     Properties
     ------------------------------------------------------------------------- */

  /** A falsy field (the message id 0 included) is refused with 400, and nothing
      is inserted: the answer is the same whatever the database would do. */
  lemma MissingFieldRejected(messageId: JsValue, hashedIdentifier: JsValue,
                             insert1: Row -> InsertResult, insert2: Row -> InsertResult)
    requires Falsy(messageId) || Falsy(hashedIdentifier)
    ensures Post(Fields(messageId, hashedIdentifier), insert1) == Response(400, Failure(RequiredFields))
    ensures Post(Fields(messageId, hashedIdentifier), insert2) == Response(400, Failure(RequiredFields))
  {
  }

  /** The only row the handler inserts is `{message_id: messageId,
      hashed_identifier: hashedIdentifier}`: two databases that answer the same
      for that row give the same response. */
  lemma InsertsExactlyTheRow(messageId: JsValue, hashedIdentifier: JsValue,
                             insert1: Row -> InsertResult, insert2: Row -> InsertResult)
    requires insert1(Row(messageId, hashedIdentifier)) == insert2(Row(messageId, hashedIdentifier))
    ensures Post(Fields(messageId, hashedIdentifier), insert1) == Post(Fields(messageId, hashedIdentifier), insert2)
  {
  }

  /** How the insert's answer maps to the response, for a valid body. */
  lemma InsertOutcomes(messageId: JsValue, hashedIdentifier: JsValue, insert: Row -> InsertResult)
    requires !Falsy(messageId) && !Falsy(hashedIdentifier)
    ensures
      var r := Post(Fields(messageId, hashedIdentifier), insert);
      match insert(Row(messageId, hashedIdentifier))
      case Inserted => r == Response(200, Dismissed(false))
      case InsertError(code, message) =>
        if code == UniqueViolation then r == Response(200, Dismissed(true)) else r == Response(500, Failure(message))
      case InsertThrew => r == Response(500, Failure(DismissFailed))
  {
  }

  /** A body that cannot be read, or is `null`, gives 500 "Failed to dismiss
      message". */
  lemma UnreadableBody(insert: Row -> InsertResult)
    ensures Post(Unreadable, insert) == Response(500, Failure(DismissFailed))
    ensures Post(NullBody, insert) == Response(500, Failure(DismissFailed))
  {
  }

  /* ---------------------------------------------------------------------------
     Dismissing twice
     ------------------------------------------------------------------------- */

  /** A `message_dismissals` table with the unique constraint on
      `(message_id, hashed_identifier)` the handler counts on: inserting a row it
      already holds fails with 23505. */
  function InsertInto(table: set<Row>): Row -> InsertResult {
    row => if row in table then InsertError(UniqueViolation, "duplicate key value violates unique constraint")
           else Inserted
  }

  /** The table after the insert. */
  function TableAfter(table: set<Row>, body: RequestBody): set<Row> {
    match body
    case Fields(m, h) => if Falsy(m) || Falsy(h) then table else table + {Row(m, h)}
    case _ => table
  }

  /** Dismissing the same message twice succeeds both times, the second time as
      "already dismissed", and leaves the table as the first dismissal did. */
  lemma DismissIdempotent(table: set<Row>, messageId: JsValue, hashedIdentifier: JsValue)
    requires !Falsy(messageId) && !Falsy(hashedIdentifier) && Row(messageId, hashedIdentifier) !in table
    ensures
      var body := Fields(messageId, hashedIdentifier);
      var after := TableAfter(table, body);
      && Post(body, InsertInto(table)) == Response(200, Dismissed(false))
      && Post(body, InsertInto(after)) == Response(200, Dismissed(true))
      && TableAfter(after, body) == after
  {
  }
}
