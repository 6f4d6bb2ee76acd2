/** The websocket notification manager: every outpoint and address request is kept
    twice, in a map from what is watched to the watching clients and in the client
    itself.  A client is identified by its quit channel, so a client map keyed by
    quit channel is a set of clients here. */
module Subscriptions {
  import opened Bytes

  datatype TxHash = TxHash(raw: bytes)
  datatype OutPoint = OutPoint(hash: TxHash, index: nat)
  datatype Addr = Addr(encoded: string)

  /** A transaction: the outputs it spends, and the addresses each of its outputs pays. */
  datatype Tx = Tx(hash: TxHash, ins: seq<OutPoint>, outs: seq<seq<Addr>>)

  class Client {
    var spentRequests: set<OutPoint>
    var addrRequests: set<Addr>

    constructor ()
      ensures spentRequests == {} && addrRequests == {}
    {
      spentRequests, addrRequests := {}, {};
    }
  }

  /** Who watches `x`. */
  function Watchers<X>(watched: map<X, set<Client>>, x: X): set<Client> {
    if x in watched then watched[x] else {}
  }

  /** Adding and removing a watcher; an entry without watchers is dropped. */
  function Watch<X>(watched: map<X, set<Client>>, x: X, c: Client): map<X, set<Client>> {
    watched[x := Watchers(watched, x) + {c}]
  }

  function Unwatch<X>(watched: map<X, set<Client>>, x: X, c: Client): map<X, set<Client>> {
    if Watchers(watched, x) <= {c} then watched - {x} else watched[x := watched[x] - {c}]
  }

  lemma WatchUnwatch<X>(watched: map<X, set<Client>>, x: X, c: Client, y: X)
    ensures Watchers(Watch(watched, x, c), y) == Watchers(watched, y) + if y == x then {c} else {}
    ensures Watchers(Unwatch(watched, x, c), y) == Watchers(watched, y) - if y == x then {c} else {}
  {
  }

  /** The steps the code takes to remove a watcher. */
  lemma UnwatchSteps<X>(watched: map<X, set<Client>>, x: X, c: Client)
    ensures x !in watched ==> Unwatch(watched, x, c) == watched
    ensures x in watched ==>
              var w := watched[x := watched[x] - {c}];
              Unwatch(watched, x, c) == if |w[x]| == 0 then w - {x} else w
  {
    if x in watched {
      assert watched[x] <= {c} <==> watched[x] - {c} == {};
    } else {
      assert watched - {x} == watched;
    }
  }

  /** Whoever watches one of `xs`. */
  ghost function Interested<X>(watched: map<X, set<Client>>, xs: seq<X>): set<Client> {
    set x, c | x in xs && c in Watchers(watched, x) :: c
  }

  lemma InterestedNext<X>(watched: map<X, set<Client>>, xs: seq<X>, x: X)
    ensures Interested(watched, xs + [x]) == Interested(watched, xs) + Watchers(watched, x)
    ensures x in xs ==> Watchers(watched, x) <= Interested(watched, xs)
  {
    assert x in xs + [x];
    forall c | c in Interested(watched, xs) ensures c in Interested(watched, xs + [x]) {
      var y :| y in xs && c in Watchers(watched, y);
      assert y in xs + [x];
    }
  }

  lemma InterestedNone<X>(watched: map<X, set<Client>>)
    ensures Interested(watched, []) == {}
  {
  }

  /** The watchers of addresses paid by output `op`. */
  ghost function Paid(addrs: map<Addr, set<Client>>, hash: TxHash, outs: seq<seq<Addr>>, op: OutPoint): set<Client> {
    if op.hash == hash && op.index < |outs| then Interested(addrs, outs[op.index]) else {}
  }

  /** The watchers of `op` once a transaction has been examined. */
  ghost function AfterTx(watchers: set<Client>, addrs: map<Addr, set<Client>>, tx: Tx, inBlock: bool, op: OutPoint): set<Client> {
    (if inBlock && op in tx.ins then {} else watchers) + Paid(addrs, tx.hash, tx.outs, op)
  }

  ghost function AfterTxs(watchers: set<Client>, addrs: map<Addr, set<Client>>, txs: seq<Tx>, op: OutPoint): set<Client> {
    if txs == [] then watchers
    else AfterTx(AfterTxs(watchers, addrs, txs[..|txs| - 1], op), addrs, txs[|txs| - 1], true, op)
  }

  lemma NobodyPaid(addrs: map<Addr, set<Client>>, tx: Tx, op: OutPoint)
    requires |addrs| == 0
    ensures Paid(addrs, tx.hash, tx.outs, op) == {}
  {
  }

  lemma {:induction false} NothingWatched(addrs: map<Addr, set<Client>>, txs: seq<Tx>, op: OutPoint)
    requires |addrs| == 0
    ensures AfterTxs({}, addrs, txs, op) == {}
  {
    if txs != [] {
      NothingWatched(addrs, txs[..|txs| - 1], op);
      NobodyPaid(addrs, txs[|txs| - 1], op);
    }
  }

  /** An output stays watched by those its addresses belong to exactly until the
      block spends it. */
  lemma {:induction false} WatchedUntilSpent(watchers: set<Client>, addrs: map<Addr, set<Client>>, txs: seq<Tx>, i: nat, op: OutPoint)
    requires i < |txs| && op.hash == txs[i].hash && op.index < |txs[i].outs|
    requires forall j | i < j < |txs| :: op !in txs[j].ins
    ensures Interested(addrs, txs[i].outs[op.index]) <= AfterTxs(watchers, addrs, txs, op)
    decreases |txs|
  {
    if i < |txs| - 1 { WatchedUntilSpent(watchers, addrs, txs[..|txs| - 1], i, op); }
  }

  lemma {:induction false} UnwatchedOnceSpent(watchers: set<Client>, addrs: map<Addr, set<Client>>, txs: seq<Tx>, i: nat, op: OutPoint)
    requires i < |txs| && op in txs[i].ins
    requires forall j | i <= j < |txs| :: op.hash != txs[j].hash
    ensures AfterTxs(watchers, addrs, txs, op) == {}
    decreases |txs|
  {
    if i < |txs| - 1 { UnwatchedOnceSpent(watchers, addrs, txs[..|txs| - 1], i, op); }
  }

  function Only(b: bool, c: Client): set<Client> {
    if b then {c} else {}
  }

  /** The two copies agree: a client requested `x` exactly when it is among the
      watchers of `x`, and nothing is watched by nobody. */
  ghost predicate Mirror<X(!new)>(watched: map<X, set<Client>>, requests: map<Client, set<X>>) {
    && (forall x | x in watched :: watched[x] != {} && watched[x] <= requests.Keys)
    && (forall c, x | c in requests :: x in requests[c] <==> c in Watchers(watched, x))
  }

  lemma WatchersKnown<X(!new)>(watched: map<X, set<Client>>, requests: map<Client, set<X>>, x: X)
    requires Mirror(watched, requests)
    ensures Watchers(watched, x) <= requests.Keys
  {
  }

  lemma WatchedByRequest<X(!new)>(watched: map<X, set<Client>>, requests: map<Client, set<X>>, c: Client)
    requires Mirror(watched, requests) && c in requests
    ensures forall x :: c in Watchers(watched, x) <==> x in requests[c]
  {
  }

  lemma MirrorMore<X(!new)>(watched: map<X, set<Client>>, requests: map<Client, set<X>>, c: Client, r: set<X>)
    requires Mirror(watched, requests) && if c in requests then r == requests[c] else r == {}
    ensures Mirror(watched, requests[c := r])
  {
  }

  lemma MirrorWatch<X(!new)>(watched: map<X, set<Client>>, requests: map<Client, set<X>>, x: X, c: Client)
    requires Mirror(watched, requests) && c in requests
    ensures Mirror(Watch(watched, x, c), requests[c := requests[c] + {x}])
  {
    forall d, y | d in requests
      ensures d in Watchers(Watch(watched, x, c), y) <==> d in Watchers(watched, y) || (d == c && y == x)
    {
      WatchUnwatch(watched, x, c, y);
    }
  }

  lemma MirrorUnwatch<X(!new)>(watched: map<X, set<Client>>, requests: map<Client, set<X>>, x: X, c: Client)
    requires Mirror(watched, requests) && c in requests
    ensures Mirror(Unwatch(watched, x, c), requests[c := requests[c] - {x}])
  {
    forall d, y | d in requests
      ensures d in Watchers(Unwatch(watched, x, c), y) <==> d in Watchers(watched, y) && !(d == c && y == x)
    {
      WatchUnwatch(watched, x, c, y);
    }
  }

  class Manager {
    var clients: set<Client>
    var blockNotifications: set<Client>
    var txNotifications: set<Client>
    var watchedOutPoints: map<OutPoint, set<Client>>
    var watchedAddrs: map<Addr, set<Client>>
    /** Every client the manager has ever been told about. */
    ghost var known: set<Client>

    ghost function SpentRequests(): map<Client, set<OutPoint>>
      reads this, known
    {
      map c | c in known :: c.spentRequests
    }

    ghost function AddrRequests(): map<Client, set<Addr>>
      reads this, known
    {
      map c | c in known :: c.addrRequests
    }

    ghost predicate Valid()
      reads this, known
    {
      && Mirror(watchedOutPoints, SpentRequests()) && Mirror(watchedAddrs, AddrRequests())
      && clients <= known && blockNotifications <= known && txNotifications <= known
    }

    constructor ()
      ensures Valid() && known == {}
    {
      clients, blockNotifications, txNotifications, known := {}, {}, {}, {};
      watchedOutPoints, watchedAddrs := map[], map[];
    }

    method AddSpentRequest(c: Client, op: OutPoint)
      requires Valid() && c in known
      modifies this`watchedOutPoints, c`spentRequests
      ensures Valid() && watchedOutPoints == Watch(old(watchedOutPoints), op, c)
    {
      hide Mirror;
      MirrorWatch(watchedOutPoints, SpentRequests(), op, c);
      c.spentRequests := c.spentRequests + {op};
      if op !in watchedOutPoints {
        watchedOutPoints := watchedOutPoints[op := {}];
      }
      watchedOutPoints := watchedOutPoints[op := watchedOutPoints[op] + {c}];
      assert watchedOutPoints == Watch(old(watchedOutPoints), op, c);
      assert SpentRequests() == old(SpentRequests())[c := c.spentRequests];
      assert AddrRequests() == old(AddrRequests());
    }

    method RemoveSpentRequest(c: Client, op: OutPoint)
      requires Valid() && c in known
      modifies this`watchedOutPoints, c`spentRequests
      ensures Valid() && watchedOutPoints == Unwatch(old(watchedOutPoints), op, c)
      ensures c.spentRequests == old(c.spentRequests) - {op}
    {
      hide Mirror, Unwatch;
      MirrorUnwatch(watchedOutPoints, SpentRequests(), op, c);
      c.spentRequests := c.spentRequests - {op};
      UnwatchSteps(watchedOutPoints, op, c);
      if op in watchedOutPoints {
        watchedOutPoints := watchedOutPoints[op := watchedOutPoints[op] - {c}];
        if |watchedOutPoints[op]| == 0 {
          watchedOutPoints := watchedOutPoints - {op};
        }
      }
      assert SpentRequests() == old(SpentRequests())[c := c.spentRequests];
      assert AddrRequests() == old(AddrRequests());
    }

    method AddSpentRequests(c: Client, ops: seq<OutPoint>)
      requires Valid() && c in known
      modifies this`watchedOutPoints, c`spentRequests
      ensures Valid()
      ensures forall op :: Watchers(watchedOutPoints, op) == Watchers(old(watchedOutPoints), op) + Only(op in ops, c)
    {
      hide Mirror, Watch, Unwatch, Watchers;
      var i := 0;
      while i < |ops|
        invariant 0 <= i <= |ops| && Valid()
        invariant forall op :: Watchers(watchedOutPoints, op) == Watchers(old(watchedOutPoints), op) + Only(op in ops[..i], c)
      {
        forall op ensures Watchers(Watch(watchedOutPoints, ops[i], c), op)
                          == Watchers(old(watchedOutPoints), op) + Only(op in ops[..i + 1], c) {
          WatchUnwatch(watchedOutPoints, ops[i], c, op);
        }
        AddSpentRequest(c, ops[i]);
        i := i + 1;
      }
      assert ops[..|ops|] == ops;
    }

    /** A transaction was seen: whoever watches an output it spends is notified,
        and if it is in a block those requests are done with. */
    method NotifyForTxIns(tx: Tx, inBlock: bool) returns (notified: set<Client>)
      requires Valid()
      modifies this`watchedOutPoints, known`spentRequests
      ensures Valid()
      ensures notified == Interested(old(watchedOutPoints), tx.ins)
      ensures forall op :: Watchers(watchedOutPoints, op) == if inBlock && op in tx.ins then {} else Watchers(old(watchedOutPoints), op)
    {
      hide Mirror, Watch, Unwatch, Watchers, Interested;
      InterestedNone(watchedOutPoints);
      notified := {};
      var i := 0;
      while i < |tx.ins|
        invariant 0 <= i <= |tx.ins| && Valid()
        invariant notified == Interested(old(watchedOutPoints), tx.ins[..i])
        invariant forall op :: Watchers(watchedOutPoints, op)
                               == if inBlock && op in tx.ins[..i] then {} else Watchers(old(watchedOutPoints), op)
      {
        var more := NotifyForTxIn(tx.ins[i], inBlock);
        notified := notified + more;
        InterestedNext(old(watchedOutPoints), tx.ins[..i], tx.ins[i]);
        assert tx.ins[..i + 1] == tx.ins[..i] + [tx.ins[i]];
        i := i + 1;
      }
      assert tx.ins[..|tx.ins|] == tx.ins;
    }

    method NotifyForTxIn(prevOut: OutPoint, inBlock: bool) returns (notified: set<Client>)
      requires Valid()
      modifies this`watchedOutPoints, known`spentRequests
      ensures Valid() && notified == Watchers(old(watchedOutPoints), prevOut)
      ensures forall op :: Watchers(watchedOutPoints, op) == if inBlock && op == prevOut then {} else Watchers(old(watchedOutPoints), op)
    {
      hide Mirror, Watch, Unwatch;
      notified := {};
      WatchersKnown(watchedOutPoints, SpentRequests(), prevOut);
      var todo := Watchers(watchedOutPoints, prevOut);
      while todo != {}
        invariant Valid() && todo <= known && todo !! notified && todo + notified == Watchers(old(watchedOutPoints), prevOut)
        invariant forall op :: Watchers(watchedOutPoints, op)
                               == Watchers(old(watchedOutPoints), op) - if inBlock && op == prevOut then notified else {}
        decreases todo
      {
        var c :| c in todo;
        todo := todo - {c};
        if inBlock {
          forall op ensures Watchers(Unwatch(watchedOutPoints, prevOut, c), op)
                            == Watchers(old(watchedOutPoints), op) - if op == prevOut then notified + {c} else {} {
            WatchUnwatch(watchedOutPoints, prevOut, c, op);
          }
          RemoveSpentRequest(c, prevOut);
        }
        notified := notified + {c};
      }
    }

    /** Everyone watching `addr` starts watching `op`. */
    method WatchFor(op: OutPoint, addr: Addr)
      requires Valid()
      modifies this`watchedOutPoints, known`spentRequests
      ensures Valid()
      ensures forall op' :: Watchers(watchedOutPoints, op')
                            == Watchers(old(watchedOutPoints), op') + if op' == op then Watchers(watchedAddrs, addr) else {}
    {
      hide Mirror, Watch, Unwatch, Watchers;
      WatchersKnown(watchedAddrs, AddrRequests(), addr);
      var todo := Watchers(watchedAddrs, addr);
      ghost var done: set<Client> := {};
      while todo != {}
        invariant Valid() && todo <= known && todo + done == Watchers(watchedAddrs, addr)
        invariant forall op' :: Watchers(watchedOutPoints, op')
                                == Watchers(old(watchedOutPoints), op') + if op' == op then done else {}
        decreases todo
      {
        var c :| c in todo;
        todo := todo - {c};
        AddSpentRequests(c, [op]);
        done := done + {c};
      }
    }

    /** Whoever watches an address that an output pays starts watching the output. */
    method NotifyForTxOuts(tx: Tx)
      requires Valid()
      modifies this`watchedOutPoints, known`spentRequests
      ensures Valid()
      ensures forall op :: Watchers(watchedOutPoints, op) == Watchers(old(watchedOutPoints), op) + Paid(watchedAddrs, tx.hash, tx.outs, op)
    {
      hide Mirror, Watch, Unwatch, Watchers, Interested;
      var i := 0;
      while i < |tx.outs|
        invariant 0 <= i <= |tx.outs| && Valid()
        invariant forall op :: Watchers(watchedOutPoints, op)
                               == Watchers(old(watchedOutPoints), op) + Paid(watchedAddrs, tx.hash, tx.outs[..i], op)
      {
        ghost var before := watchedOutPoints;
        var op, addrs, j := OutPoint(tx.hash, i), tx.outs[i], 0;
        InterestedNone(watchedAddrs);
        while j < |addrs|
          invariant 0 <= j <= |addrs| && Valid()
          invariant forall op' :: Watchers(watchedOutPoints, op')
                                  == Watchers(before, op') + if op' == op then Interested(watchedAddrs, addrs[..j]) else {}
        {
          InterestedNext(watchedAddrs, addrs[..j], addrs[j]);
          assert addrs[..j + 1] == addrs[..j] + [addrs[j]];
          WatchFor(op, addrs[j]);
          j := j + 1;
        }
        assert addrs[..|addrs|] == addrs;
        forall op' ensures Paid(watchedAddrs, tx.hash, tx.outs[..i + 1], op')
                           == Paid(watchedAddrs, tx.hash, tx.outs[..i], op') + if op' == op then Interested(watchedAddrs, addrs) else {} {
        }
        i := i + 1;
      }
      assert tx.outs[..|tx.outs|] == tx.outs;
    }

    method NotifyForTx(tx: Tx, inBlock: bool)
      requires Valid()
      modifies this`watchedOutPoints, known`spentRequests
      ensures Valid()
      ensures forall op :: Watchers(watchedOutPoints, op) == AfterTx(Watchers(old(watchedOutPoints), op), watchedAddrs, tx, inBlock, op)
    {
      hide Mirror, Watch, Unwatch, Interested;
      if |watchedOutPoints| != 0 {
        var _ := NotifyForTxIns(tx, inBlock);
      }
      if |watchedAddrs| != 0 {
        NotifyForTxOuts(tx);
      } else {
        forall op ensures Paid(watchedAddrs, tx.hash, tx.outs, op) == {} { NobodyPaid(watchedAddrs, tx, op); }
      }
    }

    /** A connected block: its transactions are examined in order. */
    method BlockConnected(txs: seq<Tx>)
      requires Valid()
      modifies this`watchedOutPoints, known`spentRequests
      ensures Valid()
      ensures forall op :: Watchers(watchedOutPoints, op) == AfterTxs(Watchers(old(watchedOutPoints), op), watchedAddrs, txs, op)
    {
      hide Mirror, Watch, Unwatch, AfterTx;
      if |watchedOutPoints| == 0 && |watchedAddrs| == 0 {
        forall op ensures AfterTxs({}, watchedAddrs, txs, op) == {} { NothingWatched(watchedAddrs, txs, op); }
        return;
      }
      var i := 0;
      while i < |txs|
        invariant 0 <= i <= |txs| && Valid()
        invariant forall op :: Watchers(watchedOutPoints, op) == AfterTxs(Watchers(old(watchedOutPoints), op), watchedAddrs, txs[..i], op)
      {
        assert txs[..i + 1][..i] == txs[..i];
        NotifyForTx(txs[i], true);
        i := i + 1;
      }
      assert txs[..|txs|] == txs;
    }

    method AddAddrRequest(c: Client, addr: Addr)
      requires Valid() && c in known
      modifies this`watchedAddrs, c`addrRequests
      ensures Valid() && watchedAddrs == Watch(old(watchedAddrs), addr, c)
    {
      hide Mirror;
      MirrorWatch(watchedAddrs, AddrRequests(), addr, c);
      c.addrRequests := c.addrRequests + {addr};
      if addr !in watchedAddrs {
        watchedAddrs := watchedAddrs[addr := {}];
      }
      watchedAddrs := watchedAddrs[addr := watchedAddrs[addr] + {c}];
      assert watchedAddrs == Watch(old(watchedAddrs), addr, c);
      assert AddrRequests() == old(AddrRequests())[c := c.addrRequests];
      assert SpentRequests() == old(SpentRequests());
    }

    method RemoveAddrRequest(c: Client, addr: Addr)
      requires Valid() && c in known
      modifies this`watchedAddrs, c`addrRequests
      ensures Valid() && watchedAddrs == Unwatch(old(watchedAddrs), addr, c)
      ensures c.addrRequests == old(c.addrRequests) - {addr}
    {
      hide Mirror, Unwatch;
      MirrorUnwatch(watchedAddrs, AddrRequests(), addr, c);
      c.addrRequests := c.addrRequests - {addr};
      UnwatchSteps(watchedAddrs, addr, c);
      if addr in watchedAddrs {
        watchedAddrs := watchedAddrs[addr := watchedAddrs[addr] - {c}];
        if |watchedAddrs[addr]| == 0 {
          watchedAddrs := watchedAddrs - {addr};
        }
      }
      assert AddrRequests() == old(AddrRequests())[c := c.addrRequests];
      assert SpentRequests() == old(SpentRequests());
    }

    method AddAddrRequests(c: Client, addrs: seq<Addr>)
      requires Valid() && c in known
      modifies this`watchedAddrs, c`addrRequests
      ensures Valid()
      ensures forall a :: Watchers(watchedAddrs, a) == Watchers(old(watchedAddrs), a) + Only(a in addrs, c)
    {
      hide Mirror, Watch, Unwatch, Watchers;
      var i := 0;
      while i < |addrs|
        invariant 0 <= i <= |addrs| && Valid()
        invariant forall a :: Watchers(watchedAddrs, a) == Watchers(old(watchedAddrs), a) + Only(a in addrs[..i], c)
      {
        forall a ensures Watchers(Watch(watchedAddrs, addrs[i], c), a) == Watchers(old(watchedAddrs), a) + Only(a in addrs[..i + 1], c) {
          WatchUnwatch(watchedAddrs, addrs[i], c, a);
        }
        AddAddrRequest(c, addrs[i]);
        i := i + 1;
      }
      assert addrs[..|addrs|] == addrs;
    }

    /** Drops every trace of a client, and nothing else. */
    method UnregisterClient(c: Client)
      requires Valid() && c in known
      modifies this`clients, this`blockNotifications, this`txNotifications, this`watchedOutPoints, this`watchedAddrs, c
      ensures Valid() && c.spentRequests == {} && c.addrRequests == {}
      ensures clients == old(clients) - {c}
      ensures blockNotifications == old(blockNotifications) - {c} && txNotifications == old(txNotifications) - {c}
      ensures forall op :: Watchers(watchedOutPoints, op) == Watchers(old(watchedOutPoints), op) - {c}
      ensures forall a :: Watchers(watchedAddrs, a) == Watchers(old(watchedAddrs), a) - {c}
    {
      hide Mirror, Watch, Unwatch, Watchers;
      Unlist(c);
      DropSpent(c);
      DropAddrs(c);
      Disconnect(c);
    }

    method Unlist(c: Client)
      requires Valid()
      modifies this`blockNotifications, this`txNotifications
      ensures Valid() && blockNotifications == old(blockNotifications) - {c} && txNotifications == old(txNotifications) - {c}
    {
      hide Mirror;
      blockNotifications := blockNotifications - {c};
      txNotifications := txNotifications - {c};
      assert SpentRequests() == old(SpentRequests()) && AddrRequests() == old(AddrRequests());
    }

    method Disconnect(c: Client)
      requires Valid()
      modifies this`clients
      ensures Valid() && clients == old(clients) - {c}
    {
      hide Mirror;
      clients := clients - {c};
      assert SpentRequests() == old(SpentRequests()) && AddrRequests() == old(AddrRequests());
    }

    method DropSpent(c: Client)
      requires Valid() && c in known
      modifies this`watchedOutPoints, c`spentRequests
      ensures Valid() && c.spentRequests == {}
      ensures forall op :: Watchers(watchedOutPoints, op) == Watchers(old(watchedOutPoints), op) - {c}
    {
      hide Mirror, Watch, Unwatch, Watchers;
      var todo := c.spentRequests;
      while todo != {}
        invariant Valid() && todo == c.spentRequests
        invariant forall op :: Watchers(watchedOutPoints, op) - {c} == Watchers(old(watchedOutPoints), op) - {c}
        decreases todo
      {
        var op :| op in todo;
        forall op' ensures Watchers(Unwatch(watchedOutPoints, op, c), op') - {c} == Watchers(old(watchedOutPoints), op') - {c} {
          WatchUnwatch(watchedOutPoints, op, c, op');
        }
        WatchedByRequest(watchedOutPoints, SpentRequests(), c);
        RemoveSpentRequest(c, op);
        todo := todo - {op};
      }
      WatchedByRequest(watchedOutPoints, SpentRequests(), c);
    }

    method DropAddrs(c: Client)
      requires Valid() && c in known
      modifies this`watchedAddrs, c`addrRequests
      ensures Valid() && c.addrRequests == {}
      ensures forall a :: Watchers(watchedAddrs, a) == Watchers(old(watchedAddrs), a) - {c}
    {
      hide Mirror, Watch, Unwatch, Watchers;
      var todo := c.addrRequests;
      while todo != {}
        invariant Valid() && todo == c.addrRequests
        invariant forall a :: Watchers(watchedAddrs, a) - {c} == Watchers(old(watchedAddrs), a) - {c}
        decreases todo
      {
        var addr :| addr in todo;
        forall a ensures Watchers(Unwatch(watchedAddrs, addr, c), a) - {c} == Watchers(old(watchedAddrs), a) - {c} {
          WatchUnwatch(watchedAddrs, addr, c, a);
        }
        RemoveAddrRequest(c, addr);
        todo := todo - {addr};
      }
      WatchedByRequest(watchedAddrs, AddrRequests(), c);
    }

    /** Takes note of a client with no requests yet. */
    ghost method Meet(c: Client)
      requires Valid() && (c !in known ==> c.spentRequests == {} && c.addrRequests == {})
      modifies this`known
      ensures Valid() && known == old(known) + {c}
    {
      hide Watchers;
      MirrorMore(watchedOutPoints, SpentRequests(), c, c.spentRequests);
      MirrorMore(watchedAddrs, AddrRequests(), c, c.addrRequests);
      known := known + {c};
      assert SpentRequests() == old(SpentRequests())[c := c.spentRequests];
      assert AddrRequests() == old(AddrRequests())[c := c.addrRequests];
    }

    /** One turn of the notification handler.  Who may stop and who may start watching, and what
        is sure to hold afterwards, is said for each kind of message. */
    method Handle(m: Message)
      requires Valid() && (m.HasClient() && m.client !in known ==> m.client.spentRequests == {} && m.client.addrRequests == {})
      modifies this, known, if m.HasClient() then {m.client} else {}
      ensures Valid() && known == old(known) + if m.HasClient() then {m.client} else {}
      ensures forall op :: Watchers(watchedOutPoints, op) == m.OutPointWatchers(old(watchedOutPoints), old(watchedAddrs), op)
      ensures forall a :: Watchers(watchedAddrs, a) == m.AddrWatchers(old(watchedAddrs), a)
      // an outpoint request ends only by its client or by a block that spends the output
      ensures forall op, c | c in Watchers(old(watchedOutPoints), op) && c !in Watchers(watchedOutPoints, op) ::
                || (m.UnregisterClient? && c == m.client) || (m.UnregisterSpent? && c == m.client && op == m.op)
                || (m.BlockConnected? && exists tx | tx in m.txs :: op in tx.ins)
      // and starts only by its client or by a payment to an address that the client watches
      ensures forall op, c | c !in Watchers(old(watchedOutPoints), op) && c in Watchers(watchedOutPoints, op) ::
                || (m.RegisterSpent? && c == m.client && op in m.ops)
                || (m.TxAccepted? && Pays(m.tx, op, old(watchedAddrs), c))
                || (m.BlockConnected? && exists tx | tx in m.txs :: Pays(tx, op, old(watchedAddrs), c))
      ensures m.RegisterSpent? ==> forall op | op in m.ops :: m.client in Watchers(watchedOutPoints, op)
      ensures m.UnregisterSpent? ==> m.client !in Watchers(watchedOutPoints, m.op)
      ensures m.TxAccepted? ==> forall op, c | Pays(m.tx, op, old(watchedAddrs), c) :: c in Watchers(watchedOutPoints, op)
      // an address request begins and ends by its client alone
      ensures forall a, c | c in Watchers(old(watchedAddrs), a) && c !in Watchers(watchedAddrs, a) ::
                (m.UnregisterClient? && c == m.client) || (m.UnregisterAddr? && c == m.client && a == m.addr)
      ensures forall a, c | c !in Watchers(old(watchedAddrs), a) && c in Watchers(watchedAddrs, a) ::
                m.RegisterAddr? && c == m.client && a in m.addrs
      ensures m.RegisterAddr? ==> forall a | a in m.addrs :: m.client in Watchers(watchedAddrs, a)
      ensures m.UnregisterAddr? ==> m.client !in Watchers(watchedAddrs, m.addr)
      // the three sets of clients change only by the client's own messages
      ensures clients == m.Clients(old(clients))
      ensures blockNotifications == m.Blocks(old(blockNotifications)) && txNotifications == m.Txs(old(txNotifications))
      ensures (m.RegisterClient? ==> clients == old(clients) + {m.client}) && (m.UnregisterClient? ==> clients == old(clients) - {m.client})
      ensures !m.RegisterClient? && !m.UnregisterClient? ==> clients == old(clients)
      ensures m.RegisterBlocks? ==> blockNotifications == old(blockNotifications) + {m.client}
      ensures m.UnregisterBlocks? || m.UnregisterClient? ==> blockNotifications == old(blockNotifications) - {m.client}
      ensures !m.RegisterBlocks? && !m.UnregisterBlocks? && !m.UnregisterClient? ==> blockNotifications == old(blockNotifications)
      ensures m.RegisterNewMempoolTxs? ==> txNotifications == old(txNotifications) + {m.client}
      ensures m.UnregisterNewMempoolTxs? || m.UnregisterClient? ==> txNotifications == old(txNotifications) - {m.client}
      ensures !m.RegisterNewMempoolTxs? && !m.UnregisterNewMempoolTxs? && !m.UnregisterClient? ==> txNotifications == old(txNotifications)
      ensures m.UnregisterClient? ==> !Mentions(m.client)
    {
      hide Mirror, AfterTx, AfterTxs, Watch, Unwatch, Watchers, Pays, Message.OutPointWatchers, Message.AddrWatchers;
      ghost var ops, addrs := watchedOutPoints, watchedAddrs;
      Dispatch(m);
      forall op { OutPointEffect(m, ops, addrs, op); }
      forall a { AddrEffect(m, addrs, a); }
    }

    /** Over any run of messages a request for an outpoint lasts until its client withdraws it or
        leaves, or a block spends the output; a transaction that is only accepted does not end it. */
    method HandleAll(ms: seq<Message>, ghost c: Client, ghost op: OutPoint)
      requires Valid() && c in Watchers(watchedOutPoints, op)
      requires forall m | m in ms && m.HasClient() && m.client !in known :: m.client.spentRequests == {} && m.client.addrRequests == {}
      requires forall m | m in ms && (m.UnregisterClient? || m.UnregisterSpent?) && m.client == c :: m.UnregisterSpent? && m.op != op
      requires forall m, tx | m in ms && m.BlockConnected? && tx in m.txs :: op !in tx.ins
      modifies this, known, set m | m in ms && m.HasClient() :: m.client
      ensures Valid() && c in Watchers(watchedOutPoints, op)
    {
      hide Mirror, Watchers, Message.OutPointWatchers, Message.AddrWatchers, Message.Clients, Message.Blocks, Message.Txs, Pays;
      for i := 0 to |ms|
        invariant Valid() && c in Watchers(watchedOutPoints, op) && old(known) <= known
        invariant known <= old(known) + set m | m in ms && m.HasClient() :: m.client
        invariant forall m | m in ms && m.HasClient() && m.client !in known :: m.client.spentRequests == {} && m.client.addrRequests == {}
      {
        Handle(ms[i]);
      }
    }

    /** Hands a message to its handler. */
    method Dispatch(m: Message)
      requires Valid() && (m.HasClient() && m.client !in known ==> m.client.spentRequests == {} && m.client.addrRequests == {})
      modifies this, known, if m.HasClient() then {m.client} else {}
      ensures Valid() && known == old(known) + if m.HasClient() then {m.client} else {}
      ensures forall op :: Watchers(watchedOutPoints, op) == m.OutPointWatchers(old(watchedOutPoints), old(watchedAddrs), op)
      ensures forall a :: Watchers(watchedAddrs, a) == m.AddrWatchers(old(watchedAddrs), a)
      ensures clients == m.Clients(old(clients))
      ensures blockNotifications == m.Blocks(old(blockNotifications)) && txNotifications == m.Txs(old(txNotifications))
      ensures m.UnregisterClient? ==> !Mentions(m.client)
    {
      hide Mirror, AfterTx, AfterTxs, Watch, Unwatch;
      if m.HasClient() { Meet(m.client); }
      match m {
        case BlockConnected(txs) => BlockConnected(txs);
        case BlockDisconnected =>
        case TxAccepted(tx) => NotifyForTx(tx, false);
        case RegisterBlocks(c) => SetNotifications(blockNotifications + {c}, txNotifications, clients);
        case UnregisterBlocks(c) => SetNotifications(blockNotifications - {c}, txNotifications, clients);
        case RegisterClient(c) => SetNotifications(blockNotifications, txNotifications, clients + {c});
        case UnregisterClient(c) => UnregisterClient(c);
        case RegisterSpent(c, ops) => AddSpentRequests(c, ops);
        case UnregisterSpent(c, op) =>
          forall op' { WatchUnwatch(watchedOutPoints, op, c, op'); }
          RemoveSpentRequest(c, op);
        case RegisterAddr(c, addrs) => AddAddrRequests(c, addrs);
        case UnregisterAddr(c, addr) =>
          forall a { WatchUnwatch(watchedAddrs, addr, c, a); }
          RemoveAddrRequest(c, addr);
        case RegisterNewMempoolTxs(c) => SetNotifications(blockNotifications, txNotifications + {c}, clients);
        case UnregisterNewMempoolTxs(c) => SetNotifications(blockNotifications, txNotifications - {c}, clients);
      }
    }

    method SetNotifications(blocks: set<Client>, txs: set<Client>, all: set<Client>)
      requires Valid() && blocks <= known && txs <= known && all <= known
      modifies this`blockNotifications, this`txNotifications, this`clients
      ensures Valid() && blockNotifications == blocks && txNotifications == txs && clients == all
    {
      hide Mirror;
      blockNotifications, txNotifications, clients := blocks, txs, all;
      assert SpentRequests() == old(SpentRequests()) && AddrRequests() == old(AddrRequests());
    }

    /** Some map still names the client. */
    ghost predicate Mentions(c: Client)
      reads this
    {
      || c in clients || c in blockNotifications || c in txNotifications
      || (exists op :: c in Watchers(watchedOutPoints, op))
      || (exists a :: c in Watchers(watchedAddrs, a))
    }
  }

  /** An output of `tx` pays an address that `c` watches. */
  ghost predicate Pays(tx: Tx, op: OutPoint, addrs: map<Addr, set<Client>>, c: Client) {
    op.hash == tx.hash && op.index < |tx.outs| && exists a | a in tx.outs[op.index] :: c in Watchers(addrs, a)
  }

  /** What a message does to the watchers of an outpoint. */
  lemma OutPointEffect(m: Message, watched: map<OutPoint, set<Client>>, addrs: map<Addr, set<Client>>, op: OutPoint)
    ensures var before, after := Watchers(watched, op), m.OutPointWatchers(watched, addrs, op);
            && (forall c | c in before && c !in after ::
                  || (m.UnregisterClient? && c == m.client) || (m.UnregisterSpent? && c == m.client && op == m.op)
                  || (m.BlockConnected? && exists tx | tx in m.txs :: op in tx.ins))
            && (forall c | c !in before && c in after ::
                  || (m.RegisterSpent? && c == m.client && op in m.ops)
                  || (m.TxAccepted? && Pays(m.tx, op, addrs, c))
                  || (m.BlockConnected? && exists tx | tx in m.txs :: Pays(tx, op, addrs, c)))
            && (m.RegisterSpent? && op in m.ops ==> m.client in after)
            && (m.UnregisterSpent? && op == m.op ==> m.client !in after)
            && (m.TxAccepted? ==> forall c | Pays(m.tx, op, addrs, c) :: c in after)
  {
    hide Watchers;
    match m
    case TxAccepted(tx) => TxEffect(Watchers(watched, op), addrs, tx, false, op);
    case BlockConnected(txs) => BlockEffect(Watchers(watched, op), addrs, txs, op);
    case _ =>
  }

  /** A transaction: requests for an output it spends end if it is in a block, and those whose
      address an output pays watch that output. */
  lemma TxEffect(watchers: set<Client>, addrs: map<Addr, set<Client>>, tx: Tx, inBlock: bool, op: OutPoint)
    ensures var after := AfterTx(watchers, addrs, tx, inBlock, op);
            && (!(inBlock && op in tx.ins) ==> watchers <= after)
            && (forall c :: c in after <==> (c in watchers && !(inBlock && op in tx.ins)) || Pays(tx, op, addrs, c))
  {
    hide Watchers;
  }

  lemma {:induction false} BlockEffect(watchers: set<Client>, addrs: map<Addr, set<Client>>, txs: seq<Tx>, op: OutPoint)
    ensures var after := AfterTxs(watchers, addrs, txs, op);
            && (forall c | c in watchers && c !in after :: exists tx | tx in txs :: op in tx.ins)
            && (forall c | c !in watchers && c in after :: exists tx | tx in txs :: Pays(tx, op, addrs, c))
  {
    hide AfterTx, Pays;
    if txs != [] {
      var n := |txs| - 1;
      BlockEffect(watchers, addrs, txs[..n], op);
      TxEffect(AfterTxs(watchers, addrs, txs[..n], op), addrs, txs[n], true, op);
      var mid := AfterTxs(watchers, addrs, txs[..n], op);
      assert txs[n] in txs;
      forall c | c in watchers && c !in AfterTxs(watchers, addrs, txs, op) ensures exists tx | tx in txs :: op in tx.ins {
        if c !in mid {
          var tx :| tx in txs[..n] && op in tx.ins;
          assert tx in txs;
        }
      }
      forall c | c !in watchers && c in AfterTxs(watchers, addrs, txs, op) ensures exists tx | tx in txs :: Pays(tx, op, addrs, c) {
        if c in mid {
          var tx :| tx in txs[..n] && Pays(tx, op, addrs, c);
          assert tx in txs;
        } else {
          assert Pays(txs[n], op, addrs, c);
        }
      }
    }
  }

  lemma AddrEffect(m: Message, watched: map<Addr, set<Client>>, a: Addr)
    ensures var before, after := Watchers(watched, a), m.AddrWatchers(watched, a);
            && (forall c | c in before && c !in after :: (m.UnregisterClient? && c == m.client) || (m.UnregisterAddr? && c == m.client && a == m.addr))
            && (forall c | c !in before && c in after :: m.RegisterAddr? && c == m.client && a in m.addrs)
            && (m.RegisterAddr? && a in m.addrs ==> m.client in after)
            && (m.UnregisterAddr? && a == m.addr ==> m.client !in after)
  {
    hide Watchers;
  }

  datatype Message =
    | BlockConnected(txs: seq<Tx>)
    | BlockDisconnected
    | TxAccepted(tx: Tx)
    | RegisterBlocks(client: Client)
    | UnregisterBlocks(client: Client)
    | RegisterClient(client: Client)
    | UnregisterClient(client: Client)
    | RegisterSpent(client: Client, ops: seq<OutPoint>)
    | UnregisterSpent(client: Client, op: OutPoint)
    | RegisterAddr(client: Client, addrs: seq<Addr>)
    | UnregisterAddr(client: Client, addr: Addr)
    | RegisterNewMempoolTxs(client: Client)
    | UnregisterNewMempoolTxs(client: Client)
  {
    predicate HasClient() {
      !BlockConnected? && !BlockDisconnected? && !TxAccepted?
    }

    /** Who watches `op` after the message. */
    ghost function OutPointWatchers(watched: map<OutPoint, set<Client>>, addrs: map<Addr, set<Client>>, op: OutPoint): set<Client> {
      var watchers := Watchers(watched, op);
      match this
      case BlockConnected(txs) => AfterTxs(watchers, addrs, txs, op)
      case TxAccepted(tx) => AfterTx(watchers, addrs, tx, false, op)
      case UnregisterClient(c) => watchers - {c}
      case RegisterSpent(c, ops) => watchers + Only(op in ops, c)
      case UnregisterSpent(c, gone) => watchers - Only(op == gone, c)
      case _ => watchers
    }

    /** Who watches `addr` after the message. */
    ghost function AddrWatchers(watched: map<Addr, set<Client>>, addr: Addr): set<Client> {
      var watchers := Watchers(watched, addr);
      match this
      case UnregisterClient(c) => watchers - {c}
      case RegisterAddr(c, addrs) => watchers + Only(addr in addrs, c)
      case UnregisterAddr(c, gone) => watchers - Only(addr == gone, c)
      case _ => watchers
    }

    /** The connected clients and the two kinds of subscribers after the message. */
    ghost function Clients(clients: set<Client>): set<Client> {
      match this
      case RegisterClient(c) => clients + {c}
      case UnregisterClient(c) => clients - {c}
      case _ => clients
    }

    ghost function Blocks(subscribers: set<Client>): set<Client> {
      match this
      case RegisterBlocks(c) => subscribers + {c}
      case UnregisterBlocks(c) => subscribers - {c}
      case UnregisterClient(c) => subscribers - {c}
      case _ => subscribers
    }

    ghost function Txs(subscribers: set<Client>): set<Client> {
      match this
      case RegisterNewMempoolTxs(c) => subscribers + {c}
      case UnregisterNewMempoolTxs(c) => subscribers - {c}
      case UnregisterClient(c) => subscribers - {c}
      case _ => subscribers
    }
  }
}
