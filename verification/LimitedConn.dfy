/** The controller and a rate-limited connection as objects; every request of the write loop
    is one that the budget theorem covers. */
module LimitedConn {
  import opened Common
  import opened WriteBudget

  type Byte = bv8

  class Clock {
    var now: int

    constructor ()
      ensures now == 0
    {
      now := 0;
    }

    method Read() returns (t: int)
      modifies this
      ensures old(now) <= now == t
    {
      var passed :| passed >= 0;
      now := now + passed;
      return now;
    }

    method Sleep(d: int)
      modifies this
      ensures now >= old(now) && now >= old(now) + d
    {
      var late :| late >= 0;
      now := now + late;
      if d > 0 {
        now := now + d;
      }
    }
  }

  class RateController {
    const writeRate: int
    const minWriteRate: int
    var lastWrite: int
    var wroteCount: int
    // The requests so far, and the states of the budget they lead through.
    ghost var asks: seq<Ask>
    ghost var run: seq<World>

    ghost predicate Valid()
      reads this
    {
      && run != [] && IsRun(run, asks, writeRate, minWriteRate, |run[0].after|)
      && run[|asks|].win == Window(writeRate, minWriteRate, lastWrite, wroteCount)
    }

    constructor (writeRate: int, minWriteRate: int, ghost conns: nat)
      ensures Valid() && run == [Start(writeRate, minWriteRate, conns)]
    {
      this.writeRate, this.minWriteRate := writeRate, minWriteRate;
      lastWrite, wroteCount := -SECOND, 0;
      asks, run := [], [Start(writeRate, minWriteRate, conns)];
    }

    method PreWrite(n: int, now: int, ghost conn: nat) returns (m: int, wait: int)
      requires Valid() && (n > 0 ==> Admissible(run[|asks|], Ask(conn, n, now)))
      modifies this
      ensures Valid() && old(run) <= run
      ensures (m, wait) == (Asked(old(run[|asks|].win), n, now).1, Asked(old(run[|asks|].win), n, now).2)
      ensures if n <= 0 then asks == old(asks) && run == old(run)
              else asks == old(asks) + [Ask(conn, n, now)] && run[|asks|] == Next(old(run[|asks|]), Ask(conn, n, now))
      ensures n > 0 && minWriteRate > 0 ==> 0 < m <= n
      ensures n > 0 && writeRate > 0 ==>
        if now - old(lastWrite) >= SECOND || old(wroteCount) < writeRate
        then m == Min(n, writeRate) && wait == if n <= writeRate then 0 else SECOND
        else m == Min(minWriteRate, n) && now + wait == old(lastWrite) + SECOND
      ensures n <= 0 || writeRate <= 0 ==> m == n && wait == 0
    {
      if n <= 0 {
        return n, 0;
      }
      RunExtends(run, asks, writeRate, minWriteRate, |run[0].after|, Ask(conn, n, now));
      asks := asks + [Ask(conn, n, now)];
      run := run + [Next(run[|run| - 1], Ask(conn, n, now))];
      if writeRate <= 0 {
        return n, 0;
      }
      var diff := SECOND - (now - lastWrite);
      if diff <= 0 {
        lastWrite, wroteCount := now, 0;
      } else if wroteCount >= writeRate {
        m := minWriteRate;
        if m > n {
          m := n;
        }
        return m, diff;
      }
      if n > writeRate {
        wroteCount := wroteCount + writeRate;
        return writeRate, SECOND;
      }
      wroteCount := wroteCount + n;
      return n, 0;
    }
  }

  class Conn {
    const controller: RateController
    const clock: Clock
    ghost const id: nat
    var writeAfter: int
    var writeDeadline: Option<int>
    var sink: seq<Byte>
    // How often the wrapped connection has failed.
    ghost var errors: nat

    ghost predicate Valid()
      reads this, controller, clock
    {
      && controller.Valid() && controller.minWriteRate > 0
      && var w := controller.run[|controller.asks|];
         id < |w.after| && w.clock <= clock.now && (w.after[id] <= writeAfter || w.after[id] <= clock.now)
    }

    constructor (controller: RateController, clock: Clock, ghost id: nat)
      requires controller.Valid() && controller.minWriteRate > 0
      requires var w := controller.run[|controller.asks|]; id < |w.after| && w.clock <= clock.now && w.after[id] <= 0
      ensures Valid() && sink == [] && writeDeadline == None
      ensures this.controller == controller && this.clock == clock && this.id == id
    {
      this.controller, this.clock, this.id := controller, clock, id;
      writeAfter, writeDeadline, sink, errors := 0, None, [], 0;
    }

    /** All bytes that the controller has granted to this connection. */
    ghost function Granted(): int
      requires Valid()
      reads this, controller, clock
    {
      GrantedTo(controller.run[|controller.asks|].grants, id)
    }

    /** Hands the buffer on in order, piece by piece, and nothing that has not been granted; only the deadline
        or an error of the inner writer ends it before. */
    method Write(buf: seq<Byte>) returns (n: nat, failed: bool)
      requires Valid()
      modifies this`writeAfter, this`sink, this`errors, controller, clock
      ensures Valid() && old(controller.asks) <= controller.asks
      ensures n <= |buf| && sink == old(sink) + buf[..n]
      ensures !failed ==> n == |buf| && errors == old(errors)
      ensures failed ==> writeDeadline.Some? || errors > old(errors)
      ensures n <= Granted() - old(Granted())
    {
      n, failed := 0, false;
      if buf == [] {
        n, failed := InnerWrite(buf);
        return;
      }
      while n < |buf| && !failed
        invariant n <= |buf| && sink == old(sink) + buf[..n]
        invariant Valid() && old(controller.asks) <= controller.asks
        invariant n <= Granted() - old(Granted())
        invariant if failed then writeDeadline.Some? || errors > old(errors) else errors == old(errors)
        decreases |buf| - n, !failed
      {
        ghost var looked;
        failed, looked := WaitTurn();
        if !failed {
          ghost var was := n;
          var n0;
          n0, failed := WritePiece(buf[n..]);
          n := n + n0;
          assert buf[..was] + buf[was..][..n0] == buf[..n];
        }
      }
    }

    /** Sleeps until this connection may ask again, or gives up at its deadline, exactly if its turn has not
        come when it looks at the clock and the deadline comes before. */
    method WaitTurn() returns (expired: bool, ghost looked: int)
      requires Valid()
      modifies clock
      ensures Valid() && old(clock.now) <= looked <= clock.now
      ensures expired <==> looked < writeAfter && writeDeadline.Some? && writeDeadline.value < writeAfter
      ensures clock.now >= if expired then writeDeadline.value else writeAfter
    {
      var now := clock.Read();
      looked := now;
      if writeAfter > now {
        if writeDeadline.Some? && writeDeadline.value < writeAfter {
          clock.Sleep(writeDeadline.value - now);
          expired := true;
          return;
        }
        clock.Sleep(writeAfter - now);
      }
      expired := false;
    }

    /** One piece: asks once for all that is left and hands on what is granted, all of it unless the inner
        writer fails; the wait of the answer is kept for the next time. */
    method WritePiece(rest: seq<Byte>) returns (n: nat, failed: bool)
      requires Valid() && rest != [] && clock.now >= writeAfter
      modifies this`writeAfter, this`sink, this`errors, controller, clock
      ensures Valid() && n <= |rest| && sink == old(sink) + rest[..n]
      ensures errors == old(errors) + (if failed then 1 else 0) && n <= Granted() - old(Granted())
      ensures |controller.asks| == |old(controller.asks)| + 1 && old(controller.asks) <= controller.asks
      ensures
        var ask := controller.asks[|old(controller.asks)|];
        var answer := Asked(old(controller.run[|controller.asks|].win), |rest|, ask.now);
        && ask.conn == id && ask.n == |rest| && ask.now >= old(clock.now)
        && 0 < answer.1 <= |rest| && n <= answer.1 && (!failed ==> n == answer.1)
        && (if answer.2 > 0 then writeAfter >= ask.now + answer.2 else writeAfter == 0)
    {
      var now := clock.Read();
      AskGrants(controller.run[|controller.asks|], Ask(id, |rest|, now));
      var m, wait := controller.PreWrite(|rest|, now, id);
      now := clock.Read();
      writeAfter := if wait > 0 then now + wait else 0;
      n, failed := InnerWrite(rest[..m]);
      assert rest[..m][..n] == rest[..n];
    }

    // The wrapped connection: writes everything, or a part and fails.
    method InnerWrite(chunk: seq<Byte>) returns (n: nat, failed: bool)
      modifies this`sink, this`errors
      ensures n <= |chunk| && sink == old(sink) + chunk[..n]
      ensures errors == old(errors) + (if failed then 1 else 0)
      ensures !failed ==> n == |chunk|
    {
      failed := *;
      n := |chunk|;
      if failed {
        errors := errors + 1;
        n := *;
        if n > |chunk| {
          n := 0;
        }
      }
      sink := sink + chunk[..n];
    }
  }
}
