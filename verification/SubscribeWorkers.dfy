/** The batch, pause and flush loop of a live subscription: RunSubscribeWorker of src/nats_subscribe.cpp. */
module SubscribeWorkers {
  /** What one turn of the loop meets.  A flush in it succeeds or throws as `flushOk` says. */
  datatype Turn<M> =
    | Stopped(flushOk: bool)
    | Paused(stopRequested: bool, flushOk: bool)
    | Timeout(flushOk: bool)
    | Retried
    | Broken
    | Arrived(message: M, flushOk: bool)

  /** The messages that turns bring. */
  function Messages<M>(turns: seq<Turn<M>>): seq<M> {
    if turns == [] then []
    else
      var earlier, last := Messages(turns[..|turns| - 1]), turns[|turns| - 1];
      if last.Arrived? then earlier + [last.message] else earlier
  }

  lemma MessagesSnoc<M>(turns: seq<Turn<M>>, k: nat)
    requires k < |turns|
    ensures Messages(turns[..k + 1])
            == if turns[k].Arrived? then Messages(turns[..k]) + [turns[k].message] else Messages(turns[..k])
  {
    assert turns[..k + 1][..k] == turns[..k];
  }

  datatype Status = Running | Ended | Failed

  class SubscribeWorker<M> {
    const batchSize: nat
    var batch: seq<M>
    var table: seq<M>
    var rowsInserted: nat
    var batchesCommitted: nat
    var status: Status

    /** Received messages are in the table or still in the batch, in order, each once. */
    ghost predicate Holds(received: seq<M>)
      reads this
    {
      && table + batch == received && rowsInserted == |table| && batchesCommitted <= rowsInserted
      && (status.Running? ==> |batch| < batchSize)
      && (status.Ended? ==> batch == [])
      && |batch| <= batchSize
    }

    constructor (batchSize: nat)
      requires batchSize >= 1
      ensures Holds([]) && status == Running && this.batchSize == batchSize
    {
      this.batchSize, batch, table, rowsInserted, batchesCommitted, status := batchSize, [], [], 0, 0, Running;
    }

    /** Writes the batch in one go; a flush that throws writes nothing of it. */
    method FlushBatch(flushOk: bool) returns (ok: bool)
      modifies this`batch, this`table, this`rowsInserted, this`batchesCommitted
      ensures ok == (old(batch) == [] || flushOk)
      ensures ok ==> table == old(table) + old(batch) && batch == []
      ensures ok ==> rowsInserted == old(rowsInserted) + |old(batch)|
      ensures ok ==> batchesCommitted == old(batchesCommitted) + if old(batch) == [] then 0 else 1
      ensures !ok ==> unchanged(this)
    {
      if batch == [] {
        return true;
      }
      if !flushOk {
        return false;
      }
      table := table + batch;
      batchesCommitted := batchesCommitted + 1;
      rowsInserted := rowsInserted + |batch|;
      batch := [];
      ok := true;
    }

    /** One turn of the loop. */
    method TakeTurn(turn: Turn<M>, ghost received: seq<M>)
      requires status == Running && Holds(received)
      modifies this
      ensures Holds(if turn.Arrived? then received + [turn.message] else received)
      ensures status.Ended?
              <==> (turn.Stopped? || (turn.Paused? && turn.stopRequested)) && (turn.flushOk || old(batch) == [])
      ensures turn.Stopped? || turn.Paused? || turn.Timeout? ==>
                if turn.flushOk || old(batch) == [] then
                  batch == [] && table == old(table) + old(batch) && !status.Failed?
                else
                  batch == old(batch) && table == old(table) && status.Failed?
      ensures turn.Timeout? && (turn.flushOk || old(batch) == []) ==> status.Running?
      ensures turn.Retried? ==> unchanged(this)
      ensures turn.Broken? ==> status.Failed? && table == old(table) && batch == old(batch)
      ensures turn.Arrived? && |old(batch)| + 1 < batchSize ==>
                status.Running? && table == old(table) && batch == old(batch) + [turn.message]
      ensures turn.Arrived? && |old(batch)| + 1 >= batchSize ==>
                if turn.flushOk then status.Running? && batch == [] && table == old(table) + old(batch) + [turn.message]
                else status.Failed? && batch == old(batch) + [turn.message] && table == old(table)
      ensures rowsInserted == old(rowsInserted) + |table| - |old(table)|
      ensures batchesCommitted == old(batchesCommitted) + if table == old(table) then 0 else 1
    {
      var ok := true;
      match turn {
        case Stopped(flushOk) =>
          ok := FlushBatch(flushOk);
          status := Ended;
        case Paused(stopRequested, flushOk) =>
          ok := FlushBatch(flushOk);
          if stopRequested {
            status := Ended;
          }
        case Timeout(flushOk) =>
          ok := FlushBatch(flushOk);
        case Retried =>
        case Broken =>
          ok := false;
        case Arrived(message, flushOk) =>
          batch := batch + [message];
          assert table + batch == received + [message];
          if |batch| >= batchSize {
            ok := FlushBatch(flushOk);
          }
      }
      if !ok {
        status := Failed;
      }
    }

    /** The turns until the worker ends or fails. */
    method RunSubscribeWorker(turns: seq<Turn<M>>) returns (ghost taken: nat)
      requires status == Running && Holds([])
      modifies this
      ensures taken <= |turns| && (status.Running? ==> taken == |turns|)
      ensures Holds(Messages(turns[..taken]))
      ensures taken > 0 && (turns[taken - 1].Timeout? || turns[taken - 1].Paused?) && !status.Failed? ==>
                table == Messages(turns[..taken])
      ensures status.Ended? ==>
                && taken > 0
                && (turns[taken - 1].Stopped? || (turns[taken - 1].Paused? && turns[taken - 1].stopRequested))
                && table == Messages(turns[..taken])
      ensures status.Failed? ==>
                taken > 0 && (turns[taken - 1].Broken? || (!turns[taken - 1].Retried? && !turns[taken - 1].flushOk))
    {
      var k := 0;
      assert turns[..0] == [];
      while k < |turns| && status.Running?
        invariant k <= |turns| && Holds(Messages(turns[..k])) && (k == 0 ==> status.Running?)
        invariant k > 0 && (turns[k - 1].Timeout? || turns[k - 1].Paused?) && !status.Failed? ==> batch == []
        invariant status.Ended? ==> turns[k - 1].Stopped? || (turns[k - 1].Paused? && turns[k - 1].stopRequested)
        invariant status.Failed? ==> turns[k - 1].Broken? || (!turns[k - 1].Retried? && !turns[k - 1].flushOk)
      {
        MessagesSnoc(turns, k);
        TakeTurn(turns[k], Messages(turns[..k]));
        k := k + 1;
      }
      taken := k;
    }
  }
}
