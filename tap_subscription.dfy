/**
 * The firehose subscription loop: each delivered event is ingested, then acknowledged, one
 * at a time in stream order. An exception from either step ends the loop and propagates;
 * the event whose ingestion failed is not acknowledged, so the relay delivers it again after
 * a restart.
 *
 * The stream is a finite sequence of deliveries; whether the ingestion or the ack of a
 * delivery raises, and the clock reading at each event, are inputs.
 */
module TapSubscription {
  import opened Schema
  import TapIngest

  /** One delivery: the event, and whether ingesting it or acknowledging it raises. A failed
      ingestion changes no table (each write is a single statement). */
  datatype Delivery = Delivery(event: TapIngest.TapEvent, ingestFails: bool, ackFails: bool)

  /** How the loop ends: the stream closed, or the exception at delivery `at`. */
  datatype LoopEnd = StreamClosed | IngestThrew(at: nat) | AckThrew(at: nat)

  function Events(ds: seq<Delivery>): (es: seq<TapIngest.TapEvent>)
    ensures |es| == |ds| && forall i :: 0 <= i < |ds| ==> es[i] == ds[i].event
  {
    seq(|ds|, i requires 0 <= i < |ds| => ds[i].event)
  }

  /** The posts table after ingesting the events of `ds` in order, the i-th at `clock(i)`. */
  function IngestAll(posts: map<string, PostRow>, users: map<string, UserRow>,
                     ds: seq<Delivery>, deps: TapIngest.IngestDeps, clock: nat -> int)
    : map<string, PostRow>
    decreases |ds|
  {
    if ds == [] then posts
    else
      var n := |ds| - 1;
      TapIngest.Ingested(IngestAll(posts, users, ds[..n], deps, clock), users, ds[n].event, deps,
                         clock(n))
  }

  /** `runTapSubscription`. */
  method RunTapSubscription(db: Database, stream: seq<Delivery>, deps: TapIngest.IngestDeps,
                            clock: nat -> int)
    returns (acked: seq<TapIngest.TapEvent>, end: LoopEnd)
    modifies db`posts
    ensures |acked| <= |stream| && acked == Events(stream[..|acked|])
    ensures forall i :: 0 <= i < |acked| ==> !stream[i].ingestFails && !stream[i].ackFails
    ensures end.StreamClosed? ==>
              |acked| == |stream| &&
              db.posts == IngestAll(old(db.posts), db.users, stream, deps, clock)
    ensures end.IngestThrew? ==>
              end.at == |acked| < |stream| && stream[end.at].ingestFails &&
              db.posts == IngestAll(old(db.posts), db.users, stream[..end.at], deps, clock)
    ensures end.AckThrew? ==>
              end.at == |acked| < |stream| && stream[end.at].ackFails &&
              db.posts == IngestAll(old(db.posts), db.users, stream[..end.at + 1], deps, clock)
  {
    acked := [];
    var i := 0;
    while i < |stream|
      invariant 0 <= i <= |stream|
      invariant acked == Events(stream[..i])
      invariant forall k :: 0 <= k < i ==> !stream[k].ingestFails && !stream[k].ackFails
      invariant db.posts == IngestAll(old(db.posts), db.users, stream[..i], deps, clock)
    {
      var d := stream[i];
      if d.ingestFails {
        return acked, IngestThrew(i);
      }
      TapIngest.IngestTapEvent(db, d.event, deps, clock(i));
      assert stream[..i + 1][..i] == stream[..i];
      if d.ackFails {
        return acked, AckThrew(i);
      }
      acked := acked + [d.event];
      i := i + 1;
    }
    assert stream[..i] == stream;
    end := StreamClosed;
  }

  /** After an ack failure, the state `RunTapSubscription` leaves (`AckThrew(n)`), the relay
      delivers the same event again; ingesting it a second time changes nothing beyond the
      `indexedAt` of its row. */
  lemma RedeliveryAfterAckFailure(posts: map<string, PostRow>, users: map<string, UserRow>,
                                  stream: seq<Delivery>, n: nat, deps: TapIngest.IngestDeps,
                                  clock: nat -> int, later: int)
    requires n < |stream| && stream[n].ackFails
    ensures var e := stream[n].event;
            var before := IngestAll(posts, users, stream[..n + 1], deps, clock);
            var again := TapIngest.Ingested(before, users, e, deps, later);
            again.Keys == before.Keys &&
            forall u :: u in before ==> again[u] == before[u] || again[u] == before[u].(indexedAt := later)
  {
    var e := stream[n].event;
    assert stream[..n + 1][..n] == stream[..n];
    var mid := IngestAll(posts, users, stream[..n], deps, clock);
    if TapIngest.Relevant(users, e) && e.action != TapIngest.Delete &&
       deps.validate(e.record).Some? {
      TapIngest.ReplayOnlyReindexes(mid, users, e, deps, clock(n), later);
    }
  }
}
