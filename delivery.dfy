/**
 Fan-out of one payload to the open clients of a room, in the insertion
 order of the room's client set.
 */
module Delivery {
  import opened Protocol

  /** No connection appears twice (the room's clients form a set). */
  predicate NoDup(s: seq<ConnId>)
  {
    forall i, j :: 0 <= i < j < |s| ==> s[i] != s[j]
  }

  /**
   The sends made by `clients.forEach(client => { if (client.readyState
   === OPEN) client.send(out) })`: one send per open client, in order.
   */
  function Fanout(clients: seq<ConnId>, open: set<ConnId>, out: Outbound): (r: seq<Send>)
    ensures |r| <= |clients|
    ensures forall i :: 0 <= i < |r| ==> r[i].out == out
  {
    if clients == [] then []
    else (if clients[0] in open then [Send(clients[0], out)] else []) + Fanout(clients[1..], open, out)
  }

  /** How many of `sends` go to connection `c`. */
  function SendsTo(sends: seq<Send>, c: ConnId): (n: nat)
  {
    if sends == [] then 0
    else (if sends[0].to == c then 1 else 0) + SendsTo(sends[1..], c)
  }

  lemma SendsToAppend(a: seq<Send>, b: seq<Send>, c: ConnId)
    ensures SendsTo(a + b, c) == SendsTo(a, c) + SendsTo(b, c)
  {
    if a == [] {
      assert a + b == b;
    } else {
      assert (a + b)[1..] == a[1..] + b;
      SendsToAppend(a[1..], b, c);
    }
  }

  /**
   Every send of a fan-out carries `out` to an open client of the room,
   and every open client of the room is sent `out`.
   */
  lemma {:induction false} FanoutDelivers(clients: seq<ConnId>, open: set<ConnId>, out: Outbound)
    ensures forall s :: s in Fanout(clients, open, out) <==> s.to in clients && s.to in open && s.out == out
  {
    if clients != [] {
      FanoutDelivers(clients[1..], open, out);
      assert clients == [clients[0]] + clients[1..];
    }
  }

  /** Each open client of the room receives the payload exactly once, the others never. */
  lemma {:induction false} FanoutOnce(clients: seq<ConnId>, open: set<ConnId>, out: Outbound, c: ConnId)
    requires NoDup(clients)
    ensures SendsTo(Fanout(clients, open, out), c) == if c in clients && c in open then 1 else 0
  {
    if clients != [] {
      var head: seq<Send> := if clients[0] in open then [Send(clients[0], out)] else [];
      assert NoDup(clients[1..]) by {
        forall i, j | 0 <= i < j < |clients[1..]| ensures clients[1..][i] != clients[1..][j] {
          assert clients[1..][i] == clients[i + 1] && clients[1..][j] == clients[j + 1];
        }
      }
      FanoutOnce(clients[1..], open, out, c);
      SendsToAppend(head, Fanout(clients[1..], open, out), c);
      assert head != [] ==> head[1..] == [];
      assert clients[0] !in clients[1..] by {
        forall k | 0 <= k < |clients[1..]| ensures clients[1..][k] != clients[0] {
          assert clients[1..][k] == clients[k + 1];
        }
      }
      assert c in clients <==> c == clients[0] || c in clients[1..] by {
        assert clients == [clients[0]] + clients[1..];
      }
    }
  }

  /** The broadcast loop: sends `out` to every open client, in order. */
  method Broadcast(clients: seq<ConnId>, open: set<ConnId>, out: Outbound) returns (sends: seq<Send>)
    ensures sends == Fanout(clients, open, out)
  {
    sends := [];
    var i := 0;
    while i < |clients|
      invariant 0 <= i <= |clients|
      invariant sends + Fanout(clients[i..], open, out) == Fanout(clients, open, out)
    {
      assert clients[i..][1..] == clients[i + 1..];
      if clients[i] in open {
        sends := sends + [Send(clients[i], out)];
      }
      i := i + 1;
    }
    assert clients[i..] == [];
  }
}
