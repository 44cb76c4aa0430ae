/** The GET handler of src/pages/index.ts: the active server messages, minus
    those the visitor (identified by the hashed identifier `hid`) has dismissed.
    The two Supabase queries are inputs: the answer of the messages query, and
    the dismissals query as a function of the identifier it is asked about. */
module Messages {
  import opened Wrappers
  import opened JsString

  /** A `server_messages` row: its id and the two columns the query orders by
      (`priority`, then `created_at`, both descending); `content` stands for the
      columns the handler passes on untouched. */
  datatype Message = Message(id: int, priority: int, createdAt: int, content: string)

  /** A `message_dismissals` row as selected (`message_id` only). */
  datatype Dismissal = Dismissal(messageId: int)

  /** A query's answer: its data (null when there is none), an error, or an
      exception thrown while querying. */
  datatype QueryResult<T> = Data(rows: Option<seq<T>>) | QueryError(message: string) | QueryThrew

  /** `{ success: false, error }` or `{ success: true, messages }`. */
  datatype Body = Failure(error: string) | MessageList(messages: Option<seq<Message>>)

  datatype Response = Response(status: int, body: Body)

  /** `new Set(dismissals?.map(d => d.message_id) || [])` */
  function DismissedIds(dismissals: Option<seq<Dismissal>>): set<int> {
    match dismissals
    case None => {}
    case Some(ds) => set i | 0 <= i < |ds| :: ds[i].messageId
  }

  /** `messages.filter(m => !dismissedIds.has(m.id))` */
  function Undismissed(messages: seq<Message>, dismissed: set<int>): (kept: seq<Message>)
    ensures |kept| <= |messages|
  {
    if messages == [] then []
    else (if messages[0].id in dismissed then [] else [messages[0]]) + Undismissed(messages[1..], dismissed)
  }

  /** The dismissals' data: the error of that query is not looked at, and its data
      is then null. None stands for an exception. */
  function DismissalData(r: QueryResult<Dismissal>): Option<Option<seq<Dismissal>>> {
    match r
    case Data(rows) => Some(rows)
    case QueryError(_) => Some(None)
    case QueryThrew => None
  }

  const FetchFailed := "Failed to fetch messages"

  /** `GET({ url })` with `url.searchParams.get('hid')` = `hid`. */
  function Get(hid: Option<string>, messages: QueryResult<Message>,
               dismissalsFor: string -> QueryResult<Dismissal>): (r: Response)
    ensures r.status == 200 || r.status == 500
    ensures r.status == 200 <==> r.body.MessageList?
    ensures r.body.MessageList? ==> messages.Data?
    ensures r.body.MessageList? && r.body.messages.Some? ==>
      |r.body.messages.value| <= |messages.rows.GetOr([])|
  {
    match messages
    case QueryThrew => Response(500, Failure(FetchFailed))
    case QueryError(m) => Response(500, Failure(m))
    case Data(rows) =>
      if !Truthy(hid) then Response(200, MessageList(rows))
      else match DismissalData(dismissalsFor(hid.value))
        case None => Response(500, Failure(FetchFailed))
        case Some(dismissals) =>
          Response(200, MessageList(Some(Undismissed(rows.GetOr([]), DismissedIds(dismissals)))))
  }

  /* ---------------------------------------------------------------------------
     Properties
     ------------------------------------------------------------------------- */

  /** A failing messages query answers 500 with its message, and the dismissals
      are never looked up. */
  lemma QueryErrorSkipsLookup(hid: Option<string>, message: string,
                              lookup1: string -> QueryResult<Dismissal>, lookup2: string -> QueryResult<Dismissal>)
    ensures Get(hid, QueryError(message), lookup1) == Response(500, Failure(message))
    ensures Get(hid, QueryError(message), lookup2) == Response(500, Failure(message))
  {
  }

  /** Without a (non-empty) `hid`, the fetched messages come back as fetched,
      without a dismissals lookup. */
  lemma NoHidReturnsAll(hid: Option<string>, rows: Option<seq<Message>>,
                        lookup1: string -> QueryResult<Dismissal>, lookup2: string -> QueryResult<Dismissal>)
    requires !Truthy(hid)
    ensures Get(hid, Data(rows), lookup1) == Response(200, MessageList(rows))
    ensures Get(hid, Data(rows), lookup2) == Response(200, MessageList(rows))
  {
  }

  /** A message is kept exactly when it was fetched and its id is not dismissed. */
  lemma {:induction false} UndismissedMembers(messages: seq<Message>, dismissed: set<int>, m: Message)
    ensures m in Undismissed(messages, dismissed) <==> m in messages && m.id !in dismissed
  {
    if messages != [] {
      UndismissedMembers(messages[1..], dismissed, m);
      assert messages == [messages[0]] + messages[1..];
    }
  }

  /** The filter works piecewise: filtering two parts and joining the results is
      filtering the whole, so the relative order is unchanged. */
  lemma {:induction false} UndismissedConcat(a: seq<Message>, b: seq<Message>, dismissed: set<int>)
    ensures Undismissed(a + b, dismissed) == Undismissed(a, dismissed) + Undismissed(b, dismissed)
  {
    if a != [] {
      assert (a + b)[1..] == a[1..] + b;
      UndismissedConcat(a[1..], b, dismissed);
    } else {
      assert a + b == b;
    }
  }

  /** `a` is `b` with some elements left out. */
  predicate IsSubsequence(a: seq<Message>, b: seq<Message>)
    decreases |b|
  {
    if a == [] then true
    else if b == [] then false
    else (a[0] == b[0] && IsSubsequence(a[1..], b[1..])) || IsSubsequence(a, b[1..])
  }

  lemma {:induction false} UndismissedIsSubsequence(messages: seq<Message>, dismissed: set<int>)
    ensures IsSubsequence(Undismissed(messages, dismissed), messages)
  {
    if messages != [] {
      UndismissedIsSubsequence(messages[1..], dismissed);
      var rest := Undismissed(messages[1..], dismissed);
      if messages[0].id in dismissed {
        assert Undismissed(messages, dismissed) == rest;
        if rest != [] {
          assert IsSubsequence(rest, messages[1..]);
        }
      } else {
        assert Undismissed(messages, dismissed) == [messages[0]] + rest;
        assert ([messages[0]] + rest)[1..] == rest;
      }
    }
  }

  /** The order the query asks for: higher priority first, then newer first. */
  predicate OrderedBefore(m1: Message, m2: Message) {
    m1.priority > m2.priority || (m1.priority == m2.priority && m1.createdAt >= m2.createdAt)
  }

  predicate Sorted(ms: seq<Message>) {
    forall i, j :: 0 <= i < j < |ms| ==> OrderedBefore(ms[i], ms[j])
  }

  lemma {:induction false} SubsequenceMembers(a: seq<Message>, b: seq<Message>, x: Message)
    requires IsSubsequence(a, b) && x in a
    ensures x in b
    decreases |b|
  {
    if a[0] == b[0] && IsSubsequence(a[1..], b[1..]) {
      if x != a[0] {
        SubsequenceMembers(a[1..], b[1..], x);
      }
    } else {
      SubsequenceMembers(a, b[1..], x);
    }
  }

  /** Leaving elements out of a sorted sequence keeps it sorted. */
  lemma {:induction false} SubsequenceSorted(a: seq<Message>, b: seq<Message>)
    requires IsSubsequence(a, b) && Sorted(b)
    ensures Sorted(a)
    decreases |b|
  {
    if a != [] {
      assert Sorted(b[1..]) by {
        forall i, j | 0 <= i < j < |b[1..]| ensures OrderedBefore(b[1..][i], b[1..][j]) {
          assert b[1..][i] == b[i + 1] && b[1..][j] == b[j + 1];
        }
      }
      if a[0] == b[0] && IsSubsequence(a[1..], b[1..]) {
        SubsequenceSorted(a[1..], b[1..]);
        forall j | 0 < j < |a| ensures OrderedBefore(a[0], a[j]) {
          assert a[j] == a[1..][j - 1];
          SubsequenceMembers(a[1..], b[1..], a[j]);
          var k :| 0 <= k < |b[1..]| && b[1..][k] == a[j];
          assert b[k + 1] == a[j];
        }
        forall i, j | 0 <= i < j < |a| ensures OrderedBefore(a[i], a[j]) {
          if i > 0 {
            assert a[i] == a[1..][i - 1] && a[j] == a[1..][j - 1];
          }
        }
      } else {
        SubsequenceSorted(a, b[1..]);
      }
    }
  }

  /** With `hid`, the answer holds exactly the fetched messages whose id is not
      among the dismissed ones, in the order of the query; sorted input stays
      sorted. */
  lemma {:induction false} FilteredAnswer(hid: string, rows: seq<Message>, dismissals: seq<Dismissal>,
                                          lookup: string -> QueryResult<Dismissal>)
    requires hid != "" && lookup(hid) == Data(Some(dismissals))
    ensures
      var r := Get(Some(hid), Data(Some(rows)), lookup);
      && r.status == 200 && r.body.MessageList? && r.body.messages.Some?
      && IsSubsequence(r.body.messages.value, rows)
      && (Sorted(rows) ==> Sorted(r.body.messages.value))
      && forall m :: m in r.body.messages.value <==>
           m in rows && forall i :: 0 <= i < |dismissals| ==> dismissals[i].messageId != m.id
  {
    var dismissed := DismissedIds(Some(dismissals));
    var kept := Undismissed(rows, dismissed);
    UndismissedIsSubsequence(rows, dismissed);
    if Sorted(rows) {
      SubsequenceSorted(kept, rows);
    }
    forall m ensures m in kept <==> m in rows && forall i :: 0 <= i < |dismissals| ==> dismissals[i].messageId != m.id {
      UndismissedMembers(rows, dismissed, m);
    }
  }

  /** Null or failed dismissals filter nothing; null messages give an empty list. */
  lemma {:induction false} NullData(hid: string, rows: seq<Message>, lookup: string -> QueryResult<Dismissal>)
    requires hid != ""
    requires lookup(hid) == Data(None) || lookup(hid).QueryError?
    ensures Get(Some(hid), Data(Some(rows)), lookup) == Response(200, MessageList(Some(rows)))
    ensures Get(Some(hid), Data(None), lookup) == Response(200, MessageList(Some([])))
  {
    NothingDismissed(rows);
  }

  lemma {:induction false} NothingDismissed(messages: seq<Message>)
    ensures Undismissed(messages, {}) == messages
  {
    if messages != [] {
      NothingDismissed(messages[1..]);
      assert messages == [messages[0]] + messages[1..];
    }
  }
}
