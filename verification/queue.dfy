/**
 * The data-repair queue: a FIFO of repair jobs kept in an ordered key-value
 * store. Each job is stored under a 12-byte key, the enqueue time in
 * nanoseconds as 8 big-endian bytes followed by a 4-byte random token, so
 * that listing the store smallest-key-first yields the oldest job.
 *
 * The clock reading, the random token and every failure of the store, the
 * random source or the encoder are supplied by the caller of the model.
 */
module RepairQueue {

  import opened Options
  import opened Bytes
  import opened ByteOrder
  import opened Segment
  import opened Storage

  /** The distinct failures, each a message of the queue's one error class. */
  datatype QueueError =
    | TokenError      // "error creating random token"
    | MarshalError    // "error marshalling injured seg"
    | PutError        // "error adding injured seg to queue"
    | ListError       // "error getting first key"
    | EmptyDatabase   // "empty database"
    | UnmarshalError  // "error unmarshalling segment"
    | DeleteError     // "error removing injured seg"

  const DateSize: nat := 8
  const TokenSize: nat := 4

  type Token = s: seq<uint8> | |s| == TokenSize witness [0, 0, 0, 0]

  /** The store key of a job enqueued at `nanos` with random suffix `token`. */
  function EncodeKey(nanos: int64, token: Token): (key: Key)
    ensures |key| == DateSize + TokenSize
    ensures FromBigEndian(key[..DateSize]) == AsUint64(nanos)
    ensures key[DateSize..] == token
  {
    Pow256Widths();
    var date := BigEndian(AsUint64(nanos), DateSize);
    FromBigEndianOfBigEndian(AsUint64(nanos), DateSize);
    assert (date + token)[..DateSize] == date;
    date + token
  }

  /** Keys from different clock readings or different tokens never coincide. */
  lemma EncodeKeyInjective(a: int64, s: Token, b: int64, t: Token)
    requires EncodeKey(a, s) == EncodeKey(b, t)
    ensures a == b && s == t
  {
    AsUint64Injective(a, b);
  }

  /** For two clock readings on the same side of the epoch a later reading gives
      a key that lists later, whatever the two tokens are: this is what makes the
      queue first-in first-out. */
  lemma KeyOrder(a: int64, s: Token, b: int64, t: Token)
    requires a < b && (a < 0 <==> b < 0)
    ensures Less(EncodeKey(a, s), EncodeKey(b, t))
  {
    Pow256Widths();
    BigEndianOrder(AsUint64(a), AsUint64(b), DateSize);
    LessSameLengthPrefix(BigEndian(AsUint64(a), DateSize), BigEndian(AsUint64(b), DateSize), s, t);
  }

  /** The cast to uint64 puts pre-epoch readings after every post-epoch one:
      ordering is by the unsigned bit pattern, not by time. */
  lemma PreEpochKeysListLast(a: int64, s: Token, b: int64, t: Token)
    requires a < 0 <= b
    ensures Less(EncodeKey(b, t), EncodeKey(a, s))
  {
    Pow256Widths();
    BigEndianOrder(AsUint64(b), AsUint64(a), DateSize);
    LessSameLengthPrefix(BigEndian(AsUint64(b), DateSize), BigEndian(AsUint64(a), DateSize), t, s);
  }

  /** What an Enqueue call reports and the store it leaves. */
  datatype EnqueueOutcome = EnqueueOutcome(err: Option<QueueError>, store: Entries)

  /** Enqueue as a function of the store before the call and of the environment:
      the clock reading, the token read from the random source (None when the
      read fails) and whether marshalling and the Put fail. */
  function Enqueued(m: Entries, qi: InjuredSegment, nanos: int64, token: Option<Token>,
                    marshalFails: bool, putFails: bool): (r: EnqueueOutcome)
    ensures r.err == None <==> token.Some? && !marshalFails && !putFails
    ensures token.None? ==> r.err == Some(TokenError)
    ensures token.Some? && marshalFails ==> r.err == Some(MarshalError)
    ensures token.Some? && !marshalFails && putFails ==> r.err == Some(PutError)
    ensures r.err != None ==> r.store == m
    ensures r.err == None ==>
              var key := EncodeKey(nanos, token.value);
              && r.store.Keys == m.Keys + {key}
              && r.store[key] == Marshal(qi)
              && Unmarshal(r.store[key]) == Some(qi)
              && (forall k :: k in m && k != key ==> r.store[k] == m[k])
  {
    if token.None? then EnqueueOutcome(Some(TokenError), m)
    else if marshalFails then EnqueueOutcome(Some(MarshalError), m)
    else if putFails then EnqueueOutcome(Some(PutError), m)
    else
      MarshalRoundTrip(qi);
      EnqueueOutcome(None, m[EncodeKey(nanos, token.value) := Marshal(qi)])
  }

  /** What a Dequeue call returns and the store it leaves. */
  datatype DequeueOutcome = DequeueOutcome(seg: InjuredSegment, err: Option<QueueError>, store: Entries)

  /** Dequeue as a function of the store before the call and of whether the
      listing and the Delete fail. */
  ghost function Dequeued(m: Entries, listFails: bool, deleteFails: bool): (r: DequeueOutcome)
    ensures r.err == Some(ListError) <==> listFails
    ensures r.err == Some(EmptyDatabase) <==> !listFails && m == map[]
    // every error but a failed Delete comes with the zero job and no change to the store
    ensures r.err != None && r.err != Some(DeleteError) ==> r.seg == ZeroSegment && r.store == m
    // a job is handed out only if it decodes from the value under the smallest key
    ensures r.err == None || r.err == Some(DeleteError) ==>
              m != map[] && Unmarshal(m[Smallest(m.Keys)]) == Some(r.seg)
    ensures r.err == Some(UnmarshalError) <==>
              !listFails && m != map[] && Unmarshal(m[Smallest(m.Keys)]) == None
    // only a fully successful call removes anything, and then exactly the smallest key
    ensures r.err == None ==> r.store == m - {Smallest(m.Keys)}
    ensures r.err != None ==> r.store == m
    ensures r.err == Some(DeleteError) ==> deleteFails
    // a decodable head is always handed out: with DeleteError and the entry kept
    // when the Delete fails, with no error and the entry removed otherwise
    ensures !listFails && m != map[] && Unmarshal(m[Smallest(m.Keys)]).Some? ==>
              && r.seg == Unmarshal(m[Smallest(m.Keys)]).value
              && r.err == (if deleteFails then Some(DeleteError) else None)
  {
    if listFails then DequeueOutcome(ZeroSegment, Some(ListError), m)
    else if m == map[] then DequeueOutcome(ZeroSegment, Some(EmptyDatabase), m)
    else
      var key := Smallest(m.Keys);
      match Unmarshal(m[key])
      case None => DequeueOutcome(ZeroSegment, Some(UnmarshalError), m)
      case Some(seg) =>
        if deleteFails then DequeueOutcome(seg, Some(DeleteError), m)
        else DequeueOutcome(seg, None, m - {key})
  }

  /** A queue over a (possibly shared) store. */
  class Queue {
    const db: Store

    constructor (client: Store)
      ensures db == client
    {
      db := client;
    }

    method Enqueue(qi: InjuredSegment, nanos: int64, token: Option<Token>,
                   marshalFails: bool, putFails: bool) returns (err: Option<QueueError>)
      modifies db
      ensures EnqueueOutcome(err, db.entries) ==
              Enqueued(old(db.entries), qi, nanos, token, marshalFails, putFails)
    {
      Pow256Widths();
      var dateTime := BigEndian(AsUint64(nanos), DateSize);
      if token.None? {
        return Some(TokenError);
      }
      dateTime := dateTime + token.value;
      if marshalFails {
        return Some(MarshalError);
      }
      var val := Marshal(qi);
      var failed := db.Put(dateTime, val, putFails);
      if failed {
        return Some(PutError);
      }
      return None;
    }

    method Dequeue(listFails: bool, deleteFails: bool) returns (seg: InjuredSegment, err: Option<QueueError>)
      modifies db
      ensures DequeueOutcome(seg, err, db.entries) == Dequeued(old(db.entries), listFails, deleteFails)
    {
      var items := db.ListFirst(listFails);
      if items.ListFailed? {
        return ZeroSegment, Some(ListError);
      }
      if items.first.None? {
        return ZeroSegment, Some(EmptyDatabase);
      }
      var key, val := items.first.value.key, items.first.value.value;
      LeastUnique(key, Smallest(db.entries.Keys), db.entries.Keys);
      var decoded := Unmarshal(val);
      if decoded.None? {
        return ZeroSegment, Some(UnmarshalError);
      }
      var failed := db.Delete(key, deleteFails);
      if failed {
        return decoded.value, Some(DeleteError);
      }
      return decoded.value, None;
    }
  }

}
