/**
 * The MeiliSearch index adapter: it maps BoringSearch documents, queries and
 * results to and from the rows and calls of the MeiliSearch client.
 *
 * Every client call is a parameter of the operation that makes it (a PHP
 * function the model cannot see), and its outcome is a `Reply`: an answer,
 * an `ApiException`, or any other exception.
 */
module Index {
  import opened Wrappers
  import opened Rows
  import opened PhpCast
  import opened Attributes

  /** A search document: its identifier and its attributes in order. */
  datatype Document<X> = Document(identifier: string, attributes: seq<Entry<X>>)

  /** One hit of a query result, wrapping the document built from the hit. */
  datatype Match<X> = Match(document: Document<X>)

  datatype Query = Query(searchString: string, limit: int, offset: int, attributeNames: seq<string>)

  /** The arguments of the client's `search` call. */
  datatype SearchRequest = SearchRequest(searchString: string, limit: int, offset: int, attributesToRetrieve: seq<string>)

  /** What `search` answers: the hit rows, the hit count and whether it is exact. */
  datatype SearchResponse<X> = SearchResponse(hits: seq<Row<X>>, hitsCount: int, exhaustiveNbHits: bool)

  datatype QueryResult<X> = QueryResult(query: Query, matches: seq<Match<X>>, hitsCount: int, exhaustiveNbHits: bool)

  /** A write accepted by the engine: a success flag and the task to poll. */
  datatype AsynchronousResult = AsynchronousResult(success: bool, taskIdentifier: string)

  /** The outcome of a polled task. */
  datatype SynchronousResult = SynchronousResult(success: bool)

  /** The outcome of a client call. */
  datatype Reply<T> = Answer(value: T) | ApiException(message: string) | OtherException(message: string)

  /** What an operation raises instead of returning. */
  datatype Failure =
    | ApiError(message: string)      // an ApiException of the client, passed on
    | ClientError(message: string)   // any other exception of the client, passed on
    | MissingIdentifier              // a row without an 'id' entry
    | IdentifierNotText              // a row whose 'id' is not a string

  /** The key of the task status in the answer of `waitForPendingUpdate`. */
  const StatusKey: string := "status"
  const Processed: string := "processed"

  /** An exception of a client call, as the operation raises it. */
  function Raised<T>(reply: Reply<T>): (f: Failure)
    requires !reply.Answer?
    ensures f.ApiError? <==> reply.ApiException?
    ensures (f.ApiError? || f.ClientError?) && f.message == reply.message
  {
    if reply.ApiException? then ApiError(reply.message) else ClientError(reply.message)
  }

  // ----- Row -> Document (createDocumentFromResult) -----

  /** The document a result row denotes. A row converts exactly when its
      'id' is a string; that string is the identifier, and the attributes are
      the row's other entries, in row order, none of them keyed 'id' and each
      with its value unchanged. */
  function RowToDocument<X>(row: Row<X>): (r: Result<Document<X>, Failure>)
    ensures r.Ok? <==> Lookup(row, IdKey).Some? && Lookup(row, IdKey).value.Text?
    ensures Lookup(row, IdKey).None? ==> r == Err(MissingIdentifier)
    ensures Lookup(row, IdKey).Some? && Lookup(row, IdKey).value.Opaque? ==> r == Err(IdentifierNotText)
    ensures r.Ok? ==>
              && Lookup(row, IdKey) == Some(Text(r.value.identifier))
              && r.value.attributes == WithoutKey(row, IdKey)
              && !HasKey(r.value.attributes, IdKey)
              && forall k :: k != IdKey ==> Lookup(r.value.attributes, k) == Lookup(row, k)
  {
    WithoutKeyLookupAll(row, IdKey);
    match Lookup(row, IdKey)
    case None => Err(MissingIdentifier)
    case Some(Opaque(_)) => Err(IdentifierNotText)
    case Some(Text(id)) => Ok(Document(id, WithoutKey(row, IdKey)))
  }

  /** `createDocumentFromResult`: walks the row, skipping the 'id' entry and
      appending every other entry as an attribute. */
  method CreateDocumentFromResult<X>(result: Row<X>) returns (r: Result<Document<X>, Failure>)
    ensures r == RowToDocument(result)
  {
    var attributes: seq<Entry<X>> := [];
    var i := 0;
    while i < |result|
      invariant 0 <= i <= |result|
      invariant attributes == WithoutKey(result[..i], IdKey)
    {
      assert result[..i + 1][..i] == result[..i];
      if result[i].0 != IdKey {
        attributes := attributes + [result[i]];
      }
      i := i + 1;
    }
    assert result[..|result|] == result;
    match Lookup(result, IdKey)
    case None => r := Err(MissingIdentifier);
    case Some(Opaque(_)) => r := Err(IdentifierNotText);
    case Some(Text(id)) => r := Ok(Document(id, attributes));
  }

  // ----- Document -> Row (doIndex) -----

  /** `$document->getAttributes()->toArray()`: the attributes assigned one
      after the other to an array keyed by name. */
  function AttributesToArray<X>(attributes: seq<Entry<X>>): (row: Row<X>)
    ensures UniqueKeys(row)
  {
    if attributes == [] then []
    else
      var last := attributes[|attributes| - 1];
      Put(AttributesToArray(attributes[..|attributes| - 1]), last.0, last.1)
  }

  /** Every attribute's value reaches the array; of two attributes that share
      a name, the later one wins. */
  lemma {:induction false} AttributesToArrayLookup<X>(attributes: seq<Entry<X>>, k: string)
    ensures Lookup(AttributesToArray(attributes), k) == Lookup(attributes, k)
  {
    if attributes != [] {
      var front := attributes[..|attributes| - 1];
      var last := attributes[|attributes| - 1];
      AttributesToArrayLookup(front, k);
      PutLookup(AttributesToArray(front), last.0, last.1, k);
    }
  }

  /** Attributes with distinct names become the array entry for entry. */
  lemma {:induction false} AttributesToArrayOfUnique<X>(attributes: seq<Entry<X>>)
    requires UniqueKeys(attributes)
    ensures AttributesToArray(attributes) == attributes
  {
    if attributes != [] {
      var front := attributes[..|attributes| - 1];
      var last := attributes[|attributes| - 1];
      AttributesToArrayOfUnique(front);
      assert !HasKey(front, last.0) by {
        forall i | 0 <= i < |front| ensures front[i].0 != last.0 {
          assert front[i] == attributes[i];
        }
      }
      assert attributes == front + [last];
    }
  }

  /** The facts about merging the identifier into an attribute array that
      `DocumentToRow` states. */
  lemma MergeIdentifier<X>(attributes: seq<Entry<X>>, identifier: string)
    ensures var row := Put(AttributesToArray(attributes), IdKey, Text(identifier));
            && (forall k :: Lookup(row, k) == if k == IdKey then Some(Text(identifier)) else Lookup(attributes, k))
            && (forall k :: HasKey(row, k) <==> k == IdKey || HasKey(attributes, k))
  {
    var a := AttributesToArray(attributes);
    forall k
      ensures Lookup(Put(a, IdKey, Text(identifier)), k) == if k == IdKey then Some(Text(identifier)) else Lookup(attributes, k)
      ensures HasKey(Put(a, IdKey, Text(identifier)), k) <==> k == IdKey || HasKey(attributes, k)
    {
      PutLookup(a, IdKey, Text(identifier), k);
      AttributesToArrayLookup(attributes, k);
    }
  }

  /** The row that indexes a document: its attributes merged with
      `'id' => identifier`. The row has unique keys and holds the identifier
      under 'id', overriding an attribute named 'id'; every other attribute
      keeps its value, and there are no other keys. */
  function DocumentToRow<X>(d: Document<X>): (row: Row<X>)
    ensures UniqueKeys(row)
    ensures Lookup(row, IdKey) == Some(Text(d.identifier))
    ensures forall k :: k != IdKey ==> Lookup(row, k) == Lookup(d.attributes, k)
    ensures forall k :: HasKey(row, k) <==> k == IdKey || HasKey(d.attributes, k)
  {
    MergeIdentifier(d.attributes, d.identifier);
    Put(AttributesToArray(d.attributes), IdKey, Text(d.identifier))
  }

  /** Indexing any document and reading its row back gives the same
      identifier, and as attributes the attribute array less any entry named
      'id': one entry per name, holding the last value given to that name. */
  lemma DocumentRoundTrip<X>(d: Document<X>)
    ensures RowToDocument(DocumentToRow(d)) ==
            Ok(Document(d.identifier, WithoutKey(AttributesToArray(d.attributes), IdKey)))
  {
    PutWithoutKey(AttributesToArray(d.attributes), IdKey, Text(d.identifier));
  }

  /** For a document whose attribute names are distinct, the round trip gives
      back exactly its attributes, less any attribute named 'id'. */
  lemma DocumentRoundTripDistinct<X>(d: Document<X>)
    requires UniqueKeys(d.attributes)
    ensures RowToDocument(DocumentToRow(d)) == Ok(Document(d.identifier, WithoutKey(d.attributes, IdKey)))
  {
    DocumentRoundTrip(d);
    AttributesToArrayOfUnique(d.attributes);
  }

  /** Reading a row and indexing the document again gives the row with its
      'id' entry moved to the end. */
  lemma RowRoundTrip<X>(row: Row<X>)
    requires UniqueKeys(row)
    requires RowToDocument(row).Ok?
    ensures DocumentToRow(RowToDocument(row).value) ==
            WithoutKey(row, IdKey) + [(IdKey, Text(RowToDocument(row).value.identifier))]
  {
    var rest := WithoutKey(row, IdKey);
    WithoutKeyUnique(row, IdKey);
    AttributesToArrayOfUnique(rest);
  }

  /** The engine's answer to a write, as `new AsynchronousResult(true,
      (string) $result['updateId'])`; a client exception is raised. */
  function Accepted(reply: Reply<PhpInt>): (r: Result<AsynchronousResult, Failure>)
    ensures r.Ok? <==> reply.Answer?
    ensures r.Ok? ==> r.value.success && r.value.taskIdentifier == IntToString(reply.value)
    ensures r.Ok? ==> StringToInt(r.value.taskIdentifier) == reply.value
    ensures r.Err? ==> r.error == Raised(reply)
  {
    match reply
    case Answer(updateId) =>
      StringToIntOfIntToString(updateId);
      Ok(AsynchronousResult(true, IntToString(updateId)))
    case _ => Err(Raised(reply))
  }

  /** `doIndex`: one row per document, in order, submitted as one batch. */
  method DoIndex<X>(documents: seq<Document<X>>, addDocuments: seq<Row<X>> -> Reply<PhpInt>)
    returns (batch: seq<Row<X>>, r: Result<AsynchronousResult, Failure>)
    ensures |batch| == |documents|
    ensures forall j :: 0 <= j < |documents| ==> batch[j] == DocumentToRow(documents[j])
    ensures r == Accepted(addDocuments(batch))
  {
    batch := [];
    for i := 0 to |documents|
      invariant |batch| == i
      invariant forall j :: 0 <= j < i ==> batch[j] == DocumentToRow(documents[j])
    {
      batch := batch + [DocumentToRow(documents[i])];
    }
    r := Accepted(addDocuments(batch));
  }

  /** `doDelete`: the identifiers go to the engine unchanged. */
  function DoDelete(identifiers: seq<string>, deleteDocuments: seq<string> -> Reply<PhpInt>): (r: Result<AsynchronousResult, Failure>)
    ensures r.Ok? <==> deleteDocuments(identifiers).Answer?
    ensures r.Ok? ==> r.value.success && r.value.taskIdentifier == IntToString(deleteDocuments(identifiers).value)
    ensures r.Ok? ==> StringToInt(r.value.taskIdentifier) == deleteDocuments(identifiers).value
    ensures r.Err? ==> r.error == Raised(deleteDocuments(identifiers))
  {
    Accepted(deleteDocuments(identifiers))
  }

  /** `doPurge`: one `deleteAllDocuments` call, wrapped as an asynchronous result. */
  function DoPurge(deleteAllDocuments: () -> Reply<PhpInt>): (r: Result<AsynchronousResult, Failure>)
    ensures r.Ok? <==> deleteAllDocuments().Answer?
    ensures r.Ok? ==> r.value.success && r.value.taskIdentifier == IntToString(deleteAllDocuments().value)
    ensures r.Ok? ==> StringToInt(r.value.taskIdentifier) == deleteAllDocuments().value
    ensures r.Err? ==> r.error == Raised(deleteAllDocuments())
  {
    Accepted(deleteAllDocuments())
  }

  /** The status check of `waitForAsynchronousResult`: `'processed' ===
      $result['status']`. */
  predicate IsProcessed<X>(update: Row<X>)
    ensures IsProcessed(update) <==> Lookup(update, StatusKey) == Some(Text(Processed))
  {
    match Lookup(update, StatusKey)
    case Some(Text(status)) => status == Processed
    case _ => false
  }

  /** `waitForAsynchronousResult`: polls the task whose number is
      `(int) taskIdentifier` and succeeds exactly when its status is the
      string "processed". */
  function WaitForAsynchronousResult<X>(handle: AsynchronousResult, waitForPendingUpdate: PhpInt -> Reply<Row<X>>)
    : (r: Result<SynchronousResult, Failure>)
    ensures var reply := waitForPendingUpdate(StringToInt(handle.taskIdentifier));
            && (r.Ok? <==> reply.Answer?)
            && (r.Ok? ==> (r.value.success <==> Lookup(reply.value, StatusKey) == Some(Text(Processed))))
            && (r.Err? ==> r.error == Raised(reply))
  {
    var reply := waitForPendingUpdate(StringToInt(handle.taskIdentifier));
    match reply
    case Answer(update) => Ok(SynchronousResult(IsProcessed(update)))
    case _ => Err(Raised(reply))
  }

  /** The task an accepted write hands out is the one that is polled. */
  lemma WaitPollsAcceptedTask<X>(updateId: PhpInt, waitForPendingUpdate: PhpInt -> Reply<Row<X>>)
    ensures Accepted(Answer(updateId)).Ok?
    ensures var handle := Accepted(Answer(updateId)).value;
            WaitForAsynchronousResult(handle, waitForPendingUpdate) ==
              match waitForPendingUpdate(updateId)
              case Answer(update) => Ok(SynchronousResult(IsProcessed(update)))
              case _ => Err(Raised(waitForPendingUpdate(updateId)))
  {
  }

  // ----- findByIdentifier -----

  /** `findByIdentifier`: an ApiException of the lookup means "absent"; any
      other exception, and a row that is not a document, is raised. */
  method FindByIdentifier<X>(identifier: string, getDocument: string -> Reply<Row<X>>)
    returns (r: Result<Option<Document<X>>, Failure>)
    ensures r == Ok(None) <==> getDocument(identifier).ApiException?
    ensures getDocument(identifier).Answer? ==>
              r == match RowToDocument(getDocument(identifier).value)
                   case Ok(d) => Ok(Some(d))
                   case Err(e) => Err(e)
    ensures getDocument(identifier).OtherException? ==> r == Err(ClientError(getDocument(identifier).message))
  {
    var reply := getDocument(identifier);
    match reply
    case ApiException(_) =>
      r := Ok(None);
    case OtherException(message) =>
      r := Err(ClientError(message));
    case Answer(row) =>
      var d := CreateDocumentFromResult(row);
      match d
      case Ok(document) => r := Ok(Some(document));
      case Err(e) => r := Err(e);
  }

  // ----- query -----

  /** The search the adapter issues for a query. */
  function SearchRequestFor(q: Query): (s: SearchRequest)
    ensures s.searchString == q.searchString && s.limit == q.limit && s.offset == q.offset
    ensures s.attributesToRetrieve == AttributesToRetrieve(q.attributeNames)
    ensures Distinct(s.attributesToRetrieve) && IdKey in s.attributesToRetrieve
  {
    SearchRequest(q.searchString, q.limit, q.offset, AttributesToRetrieve(q.attributeNames))
  }

  /** `query`: searches, then turns every hit into a match, in hit order; the
      hit count and its exactness are passed on. The first hit that is not a
      document raises its failure. */
  method RunQuery<X>(q: Query, search: SearchRequest -> Reply<SearchResponse<X>>)
    returns (r: Result<QueryResult<X>, Failure>)
    ensures var reply := search(SearchRequestFor(q));
            && (!reply.Answer? ==> r == Err(Raised(reply)))
            && (reply.Answer? ==>
                  var hits := reply.value.hits;
                  && (r.Ok? <==> forall j :: 0 <= j < |hits| ==> RowToDocument(hits[j]).Ok?)
                  && (r.Ok? ==>
                        && r.value.query == q
                        && r.value.hitsCount == reply.value.hitsCount
                        && r.value.exhaustiveNbHits == reply.value.exhaustiveNbHits
                        && |r.value.matches| == |hits|
                        && forall j :: 0 <= j < |hits| ==> r.value.matches[j] == Match(RowToDocument(hits[j]).value))
                  && (r.Err? ==>
                        exists j :: 0 <= j < |hits| && RowToDocument(hits[j]) == Err(r.error)
                                    && forall i :: 0 <= i < j ==> RowToDocument(hits[i]).Ok?))
  {
    var reply := search(SearchRequestFor(q));
    if !reply.Answer? {
      return Err(Raised(reply));
    }
    var hits := reply.value.hits;
    var matches: seq<Match<X>> := [];
    for i := 0 to |hits|
      invariant |matches| == i
      invariant forall j :: 0 <= j < i ==> RowToDocument(hits[j]).Ok? && matches[j] == Match(RowToDocument(hits[j]).value)
    {
      var d := CreateDocumentFromResult(hits[i]);
      if d.Err? {
        return Err(d.error);
      }
      matches := matches + [Match(d.value)];
    }
    r := Ok(QueryResult(q, matches, reply.value.hitsCount, reply.value.exhaustiveNbHits));
  }
}
