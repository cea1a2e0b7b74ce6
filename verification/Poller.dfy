/** The poll server's code: an array grown and overwritten in place, against the value model of PollServer. */
module Poller {
  import opened ChatRoom
  import opened PollServer

  class Poller {
    const listener: int
    var table: array<PollFd>
    var fdCount: nat
    var fdSize: nat
    var sent: seq<Delivery>
    ghost var history: seq<Event>
    ghost var copied: nat
    ghost var peak: nat

    ghost predicate Valid()
      reads this
    {
      fdCount <= fdSize == table.Length && fdSize > 0
    }

    ghost function Value(): Server
      requires Valid()
      reads this, table
    {
      Server(listener, table[..fdCount], fdSize, sent, history, copied, peak)
    }

    /** malloc leaves revents as it is. */
    constructor (listener: int)
      ensures Valid() && fresh(table)
      ensures Value() == Start(listener, table[0].ready)
    {
      this.listener := listener;
      table := new PollFd[5];
      fdCount, fdSize := 1, 5;
      sent, history, copied, peak := [], [], 0, 1;
      new;
      table[0] := table[0].(fd := listener, watched := true);
      assert table[..1] == [table[0]];
    }

    method AddToPfds(newFd: int) returns (ghost stale: bool)
      requires Valid()
      modifies this, table
      ensures Valid() && (table == old(table) || fresh(table))
      ensures Value() == Add(old(Value()), newFd, stale)
    {
      if fdCount == fdSize {
        copied := copied + fdSize;
        fdSize := fdSize * 2;
        var bigger := new PollFd[fdSize];
        forall k | 0 <= k < fdCount {
          bigger[k] := table[k];
        }
        table := bigger;
        assert table[..fdCount] == old(table[..fdCount]);
      }
      stale := table[fdCount].ready;
      table[fdCount] := table[fdCount].(fd := newFd, watched := true);
      fdCount := fdCount + 1;
      peak := if fdCount > peak then fdCount else peak;
      assert table[..fdCount] == old(table[..fdCount]) + [PollFd(newFd, true, stale)];
    }

    method DelPfds(i: nat)
      requires Valid() && i < fdCount
      modifies this`fdCount, table
      ensures Valid() && Value() == old(Value()).(slots := Delete(old(Value()).slots, i))
    {
      table[i] := table[fdCount - 1];
      fdCount := fdCount - 1;
      assert table[..fdCount] == Delete(old(table[..fdCount]), i);
    }

    /** The inner loop over j. */
    method SendToOthers(senderFd: int, note: Note)
      requires Valid()
      modifies this`sent
      ensures Valid()
      ensures Value() == old(Value()).(sent := old(sent) + Broadcast(old(Value()).slots, listener, senderFd, note))
    {
      var j := 0;
      while j < fdCount
        invariant j <= fdCount && sent == old(sent) + Broadcast(table[..j], listener, senderFd, note)
      {
        var destinationFd := table[j].fd;
        assert table[..j + 1][..j] == table[..j];
        if destinationFd != listener && destinationFd != senderFd {
          sent := sent + [Delivery(destinationFd, senderFd, note)];
        }
        j := j + 1;
      }
    }

    /** poll writes revents of every entry it is given, those beyond fd_count included. */
    method PollAll(revents: nat -> bool)
      requires Valid()
      modifies table
      ensures Valid() && Value() == Poll(old(Value()), revents)
    {
      var k := 0;
      while k < table.Length
        invariant k <= table.Length
        invariant forall j | 0 <= j < k :: table[j] == old(table[j]).(ready := old(table[j]).watched && revents(j))
        invariant forall j | k <= j < table.Length :: table[j] == old(table[j])
      {
        table[k] := table[k].(ready := table[k].watched && revents(k));
        k := k + 1;
      }
      assert table[..fdCount] == Poll(old(Value()), revents).slots;
    }

    /** The body of the pass for one index. */
    method VisitSlot(i: nat, accept: set<int> -> int, recv: nat -> Received) returns (ghost stale: bool)
      requires Valid() && i < fdCount
      modifies this, table
      ensures Valid() && (table == old(table) || fresh(table))
      ensures Value() == Visit(old(Value()), i, Io(accept, stale, recv))
      ensures old(table[i].fd) != listener ==> forall b :: Value() == Visit(old(Value()), i, Io(accept, b, recv))
      ensures Table(old(Value())) ==> Obeys(old(Value()), i, Io(accept, stale, recv), Value())
    {
      ghost var before := Value();
      stale := false;
      if table[i].ready {
        if table[i].fd == listener {
          var open := set k | 0 <= k < fdCount :: table[k].fd;
          assert open == Fds(table[..fdCount]);
          var newFd := accept(open);
          if newFd != -1 {
            stale := AddToPfds(newFd);
            history := history + [Join(newFd)];
          }
        } else {
          var senderFd := table[i].fd;
          var r := recv(i);
          if r == Failed || r.bytes == [] {
            DelPfds(i);
            history := history + [Leave(senderFd)];
          } else {
            SendToOthers(senderFd, Said(r.bytes));
            history := history + [Say(senderFd, r.bytes)];
          }
        }
      }
      if Table(before) {
        VisitObeys(before, i, Io(accept, stale, recv));
      }
    }

    /** The loop over i, with fd_count changing under it. */
    method RunPass(accept: set<int> -> int, recv: nat -> Received) returns (ghost stale: bool)
      requires Valid() && Table(Value()) && KernelOk(Io(accept, false, recv))
      modifies this, table
      ensures Valid() && (table == old(table) || fresh(table))
      ensures KernelOk(Io(accept, stale, recv))
      ensures Value() == Pass(old(Value()), 0, Io(accept, stale, recv))
    {
      var i := 0;
      stale := false;
      assert forall b :: KernelOk(Io(accept, b, recv));
      while i < fdCount
        invariant Valid() && Table(Value()) && (table == old(table) || fresh(table))
        invariant KernelOk(Io(accept, stale, recv))
        invariant i == 0 ==> Value() == old(Value())
        invariant i > 0 ==> Pass(Value(), i, Io(accept, stale, recv)) == Pass(old(Value()), 0, Io(accept, stale, recv))
        decreases if i == 0 then 1 else 0, if i < fdCount then fdCount - i else 0
      {
        ghost var before := Value();
        ghost var b := VisitSlot(i, accept, recv);
        if i == 0 {
          stale := b;
        }
        VisitKeepsTable(before, i, Io(accept, stale, recv));
        i := i + 1;
      }
    }

    /** One turn of the endless loop. */
    method TakeOneTurn(revents: nat -> bool, accept: set<int> -> int, recv: nat -> Received) returns (ghost stale: bool)
      requires Valid() && Good(Value()) && KernelOk(Io(accept, false, recv))
      modifies this, table
      ensures Valid() && Good(Value()) && KernelOk(Io(accept, stale, recv))
      ensures Value() == TakeTurn(old(Value()), Turn(revents, Io(accept, stale, recv)))
    {
      PollKeepsGood(Value(), revents);
      PollAll(revents);
      ghost var polled := Value();
      stale := RunPass(accept, recv);
      PassKeepsGood(polled, 0, Io(accept, stale, recv));
    }
  }
}
