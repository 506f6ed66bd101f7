/**
 * Properties of sequences of queue operations, stated over the functions
 * Enqueued and Dequeued that the Queue methods are proved to follow.
 */
module QueueProperties {

  import opened Options
  import opened Bytes
  import opened ByteOrder
  import opened Segment
  import opened Storage
  import opened RepairQueue

  /** The store after enqueueing every job in order, each call succeeding;
      job i is enqueued at clock reading times[i] with token tokens[i]. */
  function EnqueueAll(m: Entries, segs: seq<InjuredSegment>, times: seq<int64>, tokens: seq<Token>): Entries
    requires |segs| == |times| == |tokens|
  {
    if segs == [] then m
    else
      var n := |segs| - 1;
      var before := EnqueueAll(m, segs[..n], times[..n], tokens[..n]);
      Enqueued(before, segs[n], times[n], Some(tokens[n]), false, false).store
  }

  /** The outcomes of n Dequeue calls in a row in which no store operation fails. */
  ghost function DequeueAll(m: Entries, n: nat): seq<DequeueOutcome>
  {
    if n == 0 then []
    else
      var r := Dequeued(m, false, false);
      [r] + DequeueAll(r.store, n - 1)
  }

  /** The keys of a sequence of enqueues. */
  function KeysOf(times: seq<int64>, tokens: seq<Token>): (ks: seq<Key>)
    requires |times| == |tokens|
    ensures |ks| == |times|
  {
    seq(|times|, i requires 0 <= i < |times| => EncodeKey(times[i], tokens[i]))
  }

  ghost predicate Ascending(ks: seq<Key>)
  {
    forall i, j :: 0 <= i < j < |ks| ==> Less(ks[i], ks[j])
  }

  /** The store holds exactly the keys ks, key i holding job i. */
  ghost predicate Holds(m: Entries, ks: seq<Key>, segs: seq<InjuredSegment>)
  {
    && |ks| == |segs|
    && (forall k :: k in m <==> k in ks)
    && (forall i :: 0 <= i < |ks| ==> ks[i] in m && m[ks[i]] == Marshal(segs[i]))
  }

  lemma KeysAscending(times: seq<int64>, tokens: seq<Token>)
    requires |times| == |tokens|
    requires forall i, j :: 0 <= i < |times| && 0 <= j < |times| ==> (times[i] < 0 <==> times[j] < 0)
    requires forall i, j :: 0 <= i < j < |times| ==> times[i] < times[j]
    ensures Ascending(KeysOf(times, tokens))
  {
    var ks := KeysOf(times, tokens);
    forall i, j | 0 <= i < j < |ks|
      ensures Less(ks[i], ks[j])
    {
      KeyOrder(times[i], tokens[i], times[j], tokens[j]);
    }
  }

  lemma {:induction false} EnqueueAllHolds(segs: seq<InjuredSegment>, times: seq<int64>, tokens: seq<Token>)
    requires |segs| == |times| == |tokens|
    requires Ascending(KeysOf(times, tokens))
    ensures Holds(EnqueueAll(map[], segs, times, tokens), KeysOf(times, tokens), segs)
  {
    if segs != [] {
      var n := |segs| - 1;
      var ks := KeysOf(times, tokens);
      var before := EnqueueAll(map[], segs[..n], times[..n], tokens[..n]);
      assert KeysOf(times[..n], tokens[..n]) == ks[..n];
      EnqueueAllHolds(segs[..n], times[..n], tokens[..n]);
      assert Holds(before, ks[..n], segs[..n]);
      var after := EnqueueAll(map[], segs, times, tokens);
      assert after == before[ks[n] := Marshal(segs[n])];
      ExtendHolds(before, ks, segs);
    }
  }

  /** Writing a key that is larger than every key already present extends the layout. */
  lemma ExtendHolds(m: Entries, ks: seq<Key>, segs: seq<InjuredSegment>)
    requires |ks| == |segs| > 0
    requires Holds(m, ks[..|ks| - 1], segs[..|segs| - 1])
    requires Ascending(ks)
    ensures Holds(m[ks[|ks| - 1] := Marshal(segs[|segs| - 1])], ks, segs)
  {
    var n := |ks| - 1;
    var m' := m[ks[n] := Marshal(segs[n])];
    forall i | 0 <= i < n
      ensures ks[i] != ks[n] && ks[..n][i] == ks[i] && m'[ks[i]] == Marshal(segs[i])
    {
      LessIrreflexive(ks[n]);
      assert segs[..n][i] == segs[i];
    }
    forall x
      ensures x in m' <==> x in ks
    {
      if x in ks {
        var j :| 0 <= j < |ks| && ks[j] == x;
        assert j < n ==> ks[..n][j] == x;
      }
    }
  }

  /** outs are the outcomes of delivering segs one by one, every call succeeding,
      the last one leaving the store empty. */
  ghost predicate DeliversInOrder(outs: seq<DequeueOutcome>, segs: seq<InjuredSegment>)
  {
    && |outs| == |segs|
    && (forall i :: 0 <= i < |outs| ==> outs[i].err == None && outs[i].seg == segs[i])
    && (|outs| > 0 ==> outs[|outs| - 1].store == map[])
  }

  /** Dequeueing a store laid out in ascending key order hands the jobs out in that order. */
  lemma {:induction false} DequeueAllInOrder(m: Entries, ks: seq<Key>, segs: seq<InjuredSegment>)
    requires Holds(m, ks, segs) && Ascending(ks)
    ensures DeliversInOrder(DequeueAll(m, |ks|), segs)
  {
    if ks != [] {
      var r := DequeueHead(m, ks, segs);
      DequeueAllInOrder(r.store, ks[1..], segs[1..]);
      var rest := DequeueAll(r.store, |ks| - 1);
      assert DequeueAll(m, |ks|) == [r] + rest;
      if |ks| == 1 {
        assert r.store.Keys == {};
      }
      DeliversCons(r, rest, segs);
    }
  }

  lemma DeliversCons(r: DequeueOutcome, rest: seq<DequeueOutcome>, segs: seq<InjuredSegment>)
    requires segs != [] && r.err == None && r.seg == segs[0]
    requires DeliversInOrder(rest, segs[1..])
    requires rest == [] ==> r.store == map[]
    ensures DeliversInOrder([r] + rest, segs)
  {
  }

  /** One Dequeue on such a store returns the first job and leaves the rest laid out. */
  lemma DequeueHead(m: Entries, ks: seq<Key>, segs: seq<InjuredSegment>) returns (r: DequeueOutcome)
    requires Holds(m, ks, segs) && Ascending(ks) && ks != []
    ensures r == Dequeued(m, false, false)
    ensures r.err == None && r.seg == segs[0]
    ensures Holds(r.store, ks[1..], segs[1..]) && Ascending(ks[1..])
  {
    assert ks[0] in m;
    forall k | k in m && k != ks[0]
      ensures Less(ks[0], k)
    {
      var j :| 0 <= j < |ks| && ks[j] == k;
    }
    LeastUnique(ks[0], Smallest(m.Keys), m.Keys);
    MarshalRoundTrip(segs[0]);
    r := Dequeued(m, false, false);
    assert r.store == m - {ks[0]};
    forall j | 1 <= j < |ks|
      ensures ks[j] != ks[0]
    {
      LessIrreflexive(ks[0]);
    }
    forall x
      ensures x in r.store <==> x in ks[1..]
    {
      if x in ks {
        var j :| 0 <= j < |ks| && ks[j] == x;
        assert j != 0 ==> ks[1..][j - 1] == x;
      }
    }
  }

  /** FIFO: enqueueing jobs at strictly increasing clock readings, all on the
      same side of the epoch, into an empty store, then dequeueing as many
      times, returns every job in enqueue order and empties the store,
      whatever the tokens are. */
  lemma Fifo(segs: seq<InjuredSegment>, times: seq<int64>, tokens: seq<Token>)
    requires |segs| == |times| == |tokens|
    requires forall i, j :: 0 <= i < |times| && 0 <= j < |times| ==> (times[i] < 0 <==> times[j] < 0)
    requires forall i, j :: 0 <= i < j < |times| ==> times[i] < times[j]
    ensures DeliversInOrder(DequeueAll(EnqueueAll(map[], segs, times, tokens), |segs|), segs)
  {
    KeysAscending(times, tokens);
    EnqueueAllHolds(segs, times, tokens);
    DequeueAllInOrder(EnqueueAll(map[], segs, times, tokens), KeysOf(times, tokens), segs);
  }

  /** A job enqueued into an empty store is the job the next Dequeue returns. */
  lemma EnqueueThenDequeue(qi: InjuredSegment, nanos: int64, token: Token)
    ensures var e := Enqueued(map[], qi, nanos, Some(token), false, false);
            var d := Dequeued(e.store, false, false);
            e.err == None && d.err == None && d.seg == qi && d.store == map[]
  {
    var key := EncodeKey(nanos, token);
    var e := Enqueued(map[], qi, nanos, Some(token), false, false);
    assert e.store.Keys == {key};
    assert IsLeast(key, e.store.Keys);
    LeastUnique(key, Smallest(e.store.Keys), e.store.Keys);
  }

  /** A Dequeue whose listing fails reports ListError with the zero job, even
      when the store holds a job, and the job stays queued. */
  lemma ListFailureKeepsJob(qi: InjuredSegment, nanos: int64, token: Token)
    ensures var e := Enqueued(map[], qi, nanos, Some(token), false, false);
            var d := Dequeued(e.store, true, false);
            d.err == Some(ListError) && d.seg == ZeroSegment && d.store == e.store && e.store != map[]
  {
  }

  /** Redelivery: when the Delete of a Dequeue fails, the job it returned stays
      in the store and the next Dequeue returns the same job again. */
  lemma DeleteFailureRedelivers(m: Entries)
    requires m != map[] && Unmarshal(m[Smallest(m.Keys)]).Some?
    ensures var first := Dequeued(m, false, true);
            var second := Dequeued(first.store, false, false);
            && first.err == Some(DeleteError) && first.store == m
            && second.err == None && second.seg == first.seg
  {
  }

  /** A value that does not decode blocks the queue: the entry is left in
      place, so every later Dequeue meets it again and fails the same way. */
  lemma UndecodableHeadBlocks(m: Entries, n: nat)
    requires m != map[] && Unmarshal(m[Smallest(m.Keys)]) == None
    ensures forall i :: 0 <= i < |DequeueAll(m, n)| ==> DequeueAll(m, n)[i].err == Some(UnmarshalError)
    ensures |DequeueAll(m, n)| == n
    decreases n
  {
    if n > 0 {
      UndecodableHeadBlocks(m, n - 1);
      assert DequeueAll(m, n) == [Dequeued(m, false, false)] + DequeueAll(m, n - 1);
    }
  }

  /** Keys are not guaranteed unique: two enqueues at the same clock reading
      that draw the same token write the same key, and the second job replaces
      the first, which is lost. */
  lemma CollidingKeysOverwrite(a: InjuredSegment, b: InjuredSegment, nanos: int64, token: Token)
    requires a != b
    ensures var e1 := Enqueued(map[], a, nanos, Some(token), false, false);
            var e2 := Enqueued(e1.store, b, nanos, Some(token), false, false);
            && e1.err == None && e2.err == None
            && |e2.store| == 1
            && forall k :: k in e2.store ==> Unmarshal(e2.store[k]) != Some(a)
  {
    var key := EncodeKey(nanos, token);
    var e2 := Enqueued(Enqueued(map[], a, nanos, Some(token), false, false).store, b, nanos, Some(token), false, false);
    assert e2.store.Keys == {key};
    MarshalRoundTrip(b);
  }

}
