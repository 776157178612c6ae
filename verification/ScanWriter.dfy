/** The writer's code: the SQLite session store and the loop body of
    `run_carve`, proved against the step functions of `ScanProtocol`
    (crates/reclaim-session/src/scan.rs:170-304, 328-343 and
    crates/reclaim-session/src/store.rs:306-344, 492-525). */
module ScanWriter {
  import opened Arith
  import opened Wrappers
  import opened CarveEngine
  import opened ScanProtocol

  /** The durable tables.  `ok` says whether SQLite accepts the transaction. */
  class SessionStore {
    var rows: Store
    var progress: Option<Row>

    constructor ()
      ensures View() == Fresh.db
    {
      rows, progress := map[], None;
    }

    function View(): Db
      reads this
    {
      Db(rows, progress)
    }

    /** One transaction: all rows are inserted, or none. */
    method InsertCarved(batch: seq<Carved>, ok: bool)
      modifies this`rows
      ensures rows == if ok then InsertAll(old(rows), batch) else old(rows)
    {
      var tx := rows;
      for i := 0 to |batch|
        invariant tx == InsertAll(rows, batch[..i])
      {
        assert batch[..i + 1][..i] == batch[..i];
        var id := KeyOf(batch[i]);
        if id !in tx {
          tx := tx[id := batch[i]];
        }
      }
      assert batch[..|batch|] == batch;
      if ok {
        rows := tx;
      }
    }

    /** One row for each result. */
    method Count() returns (n: nat)
      ensures n == |rows|
    {
      n := |rows|;
    }

    method PutProgress(row: Row, ok: bool)
      modifies this`progress
      ensures progress == if ok then Some(row) else old(progress)
    {
      if ok {
        progress := Some(row);
      }
    }

    /** `(cursor, complete, block_size)`, if a row is there. */
    method GetProgress() returns (r: Option<(nat, bool, nat)>)
      ensures r == match progress
                   case None => None
                   case Some(row) => Some((row.cursor, row.complete, row.blockSize))
    {
      match progress {
        case None => r := None;
        case Some(row) => r := Some((row.cursor, row.complete, row.blockSize));
      }
    }
  }

  /** Every transaction the writer makes before it listens again. */
  function Written(w: Writer, db: Db, blockSize: nat): (Writer, Db) {
    if w.phase.FlushBatch? || w.phase.CkptPut? then Write(w, db, blockSize)
    else if w.phase.CkptFlush? then
      var (w1, db1) := Write(w, db, blockSize);
      Write(w1, db1, blockSize)
    else (w, db)
  }

  /** Nothing is left to do, or where to start and with which block size. */
  datatype Plan = AlreadyComplete(found: nat) | Carve(cursor: nat, blockSize: nat)

  /** The block size of a scan that does not continue an earlier one. */
  function Chosen(configured: nat, inferred: nat): nat { if configured != 0 then configured else inferred }

  /** The planner: a session that is complete is not scanned again, and any other
      run begins where, and with the block size with which, the protocol starts. */
  method PlanScan(session: SessionStore, resume: bool, configured: nat, inferred: nat) returns (plan: Plan)
    ensures forall job: Job :: plan.Carve?
              <==> Enabled(job, State(session.View(), None), Start(Chosen(configured, inferred), resume))
    ensures plan.AlreadyComplete? <==> session.progress.Some? && session.progress.value.complete
    ensures plan.AlreadyComplete? ==> plan.found == |session.rows|
    ensures plan.Carve? && resume && session.progress.Some? ==>
              plan == Carve(session.progress.value.cursor, session.progress.value.blockSize)
    ensures plan.Carve? && !(resume && session.progress.Some?) ==>
              plan == Carve(0, if configured != 0 then configured else inferred)
    ensures plan.Carve? ==> forall job: Job ::
              var s := Started(State(session.View(), None), job, Chosen(configured, inferred), resume);
              plan == Carve(s.resumeFrom, s.blockSize)
              && s.writer == Writer(Listening, [], plan.cursor, 0, job(plan.blockSize).length, 0, 0)
  {
    var prior := session.GetProgress();
    if prior.Some? && prior.value.1 {
      var n := session.Count();
      return AlreadyComplete(n);
    }
    if resume && prior.Some? {
      return Carve(prior.value.0, prior.value.2);
    }
    plan := Carve(0, Chosen(configured, inferred));
  }

  /** The local state of the writer loop. */
  class WriterLoop {
    const session: SessionStore
    const blockSize: nat
    var pending: seq<Carved>
    var cursor: nat
    var scanned: nat
    var total: nat
    var found: nat
    var lastCkptScanned: nat

    function View(): Writer
      reads this
    {
      Writer(Listening, pending, cursor, scanned, total, found, lastCkptScanned)
    }

    /** The state in which the loop of a planned run begins. */
    constructor (session: SessionStore, plan: Plan, length: nat)
      requires plan.Carve?
      ensures this.session == session && blockSize == plan.blockSize
      ensures View() == Writer(Listening, [], plan.cursor, 0, length, 0, 0)
    {
      this.session := session;
      blockSize, cursor := plan.blockSize, plan.cursor;
      pending, scanned, total, found, lastCkptScanned := [], 0, length, 0, 0;
    }

    method Flush(ok: bool) returns (done: bool)
      modifies this`pending, session`rows
      ensures done == (ok || old(pending) == [])
      ensures done ==> pending == [] && session.rows == InsertAll(old(session.rows), old(pending))
      ensures !done ==> pending == old(pending) && session.rows == old(session.rows)
    {
      if pending == [] {
        return true;
      }
      session.InsertCarved(pending, ok);
      if ok {
        pending := [];
      }
      done := ok;
    }

    /** `Msg::Found`. */
    method OnFound(f: Carved, ok: bool) returns (done: bool)
      requires Batching(View())
      modifies this`pending, session`rows
      ensures var after := Written(Receive(old(View()), Found(f), false), old(session.View()), blockSize);
              done ==> (View(), session.View()) == after
      ensures done ==> Batching(View())
      ensures !done ==> session.View() == old(session.View()) && MayFail(Receive(old(View()), Found(f), false))
    {
      pending := pending + [f];
      done := true;
      if |pending| >= BATCH {
        done := Flush(ok);
      }
    }

    method Checkpoint(okFlush: bool, okPut: bool) returns (done: bool)
      modifies this`pending, this`lastCkptScanned, session
      ensures var w := old(View()).(phase := CkptFlush);
              var (w1, db1) := Write(w, old(session.View()), blockSize);
              && (done ==> (View(), session.View()) == Written(w, old(session.View()), blockSize))
              && (!done ==> session.View() in {old(session.View()), db1})
    {
      done := Flush(okFlush);
      if done {
        session.PutProgress(Row(cursor, scanned, total, found, false, blockSize), okPut);
        done := okPut;
        if done {
          lastCkptScanned := scanned;
        }
      }
    }

    /** `Msg::Progress`. */
    method OnProgress(m: Message, due: bool, okFlush: bool, okPut: bool) returns (done: bool)
      requires m.Progress? && Batching(View())
      modifies this, session
      ensures var after := Written(Receive(old(View()), m, due), old(session.View()), blockSize);
              done ==> (View(), session.View()) == after
      ensures done ==> Batching(View()) && Recent(View())
      ensures var flushed := Write(Receive(old(View()), m, due), old(session.View()), blockSize).1;
              !done ==> session.View() in {old(session.View()), flushed}
    {
      cursor, scanned, total, found := m.cursor, m.scanned, m.total, m.found;
      done := true;
      if due || Minus(scanned, lastCkptScanned) >= ONE_GIB {
        done := Checkpoint(okFlush, okPut);
      }
    }

    /** A receive that timed out. */
    method OnTimeout(due: bool, okFlush: bool, okPut: bool) returns (done: bool)
      requires Batching(View())
      modifies this, session
      ensures done ==> (View(), session.View()) == Written(Tick(old(View()), due), old(session.View()), blockSize)
      ensures done ==> Batching(View())
      ensures var flushed := Write(Tick(old(View()), due), old(session.View()), blockSize).1;
              !done ==> session.View() in {old(session.View()), flushed}
    {
      done := true;
      if due {
        done := Checkpoint(okFlush, okPut);
      }
    }

    /** After the channel is closed and the carve thread joined. */
    method Finish(o: Outcome, okFlush: bool, okPut: bool) returns (done: bool)
      modifies this`pending, session
      ensures var flushed := InsertAll(old(session.rows), old(pending));
              && (done ==> session.View() == Db(flushed, Some(FinalRow(old(View()), o, blockSize))))
              && (!done ==> session.progress == old(session.progress) && session.rows in {old(session.rows), flushed})
    {
      done := Flush(okFlush);
      if done {
        session.PutProgress(Row(o.cursor, Min(total, Max(scanned, o.cursor)), total, o.found, !o.interrupted,
                            blockSize), okPut);
        done := okPut;
      }
    }
  }
}
