/**
 The client list of src/server.c: accepting, reading and disconnecting, over any number of rounds of
 the server loop.  What select reports, what accept returns and which clients a read deactivates are
 arbitrary.
 */
module Server {

  /** A connected client, as far as the list is concerned. */
  datatype Peer = Peer(fd: nat, active: bool)

  function Fds(list: seq<Peer>): (fds: seq<nat>)
    ensures |fds| == |list| && forall i :: 0 <= i < |list| ==> fds[i] == list[i].fd
  {
    seq(|list|, i requires 0 <= i < |list| => list[i].fd)
  }

  /** The clients a disconnection keeps, and those it removes, in order. */
  function Kept(list: seq<Peer>, all: bool): seq<Peer> {
    if list == [] then []
    else
      var k := |list| - 1;
      if all || !list[k].active then Kept(list[..k], all) else Kept(list[..k], all) + [list[k]]
  }

  function Removed(list: seq<Peer>, all: bool): seq<Peer> {
    if list == [] then []
    else
      var k := |list| - 1;
      if all || !list[k].active then Removed(list[..k], all) + [list[k]] else Removed(list[..k], all)
  }

  lemma KeptNext(list: seq<Peer>, all: bool, k: nat)
    requires k < |list|
    ensures Kept(list[..k + 1], all)
      == if all || !list[k].active then Kept(list[..k], all) else Kept(list[..k], all) + [list[k]]
    ensures Removed(list[..k + 1], all)
      == if all || !list[k].active then Removed(list[..k], all) + [list[k]] else Removed(list[..k], all)
  {
    assert list[..k + 1][..k] == list[..k];
  }

  /** Only active clients are kept, and only when not all are removed; an active client is removed
      only when all are. */
  lemma {:induction false} KeptAndRemoved(list: seq<Peer>, all: bool)
    ensures forall p :: p in Kept(list, all) ==> p in list && p.active && !all
    ensures forall p :: p in Removed(list, all) ==> p in list && (all || !p.active)
    ensures |Kept(list, all)| + |Removed(list, all)| == |list|
  {
    if list != [] { KeptAndRemoved(list[..|list| - 1], all); }
  }

  lemma FdsAppend(list: seq<Peer>, p: Peer)
    ensures Fds(list + [p]) == Fds(list) + [p.fd]
    ensures multiset(Fds(list + [p])) == multiset(Fds(list)) + multiset{p.fd}
  {
    assert Fds(list + [p]) == Fds(list) + [p.fd];
  }

  /** No descriptor is lost or invented. */
  lemma {:induction false} FdsSplit(list: seq<Peer>, all: bool)
    ensures multiset(Fds(list)) == multiset(Fds(Kept(list, all))) + multiset(Fds(Removed(list, all)))
  {
    hide Fds, Kept, Removed;
    if list == [] {
      NothingCut(all);
    } else {
      var k := |list| - 1;
      FdsSplit(list[..k], all);
      assert list == list[..k] + [list[k]] && list[..k + 1] == list;
      KeptNext(list, all, k);
      FdsAppend(list[..k], list[k]);
      FdsAppend(Removed(list[..k], all), list[k]);
      FdsAppend(Kept(list[..k], all), list[k]);
    }
  }

  // ---------------------------------------------------------------- the invariant

  ghost predicate Bounded(fd: nat, clients: seq<Peer>, maxFd: nat) {
    fd <= maxFd && forall p :: p in clients ==> p.fd <= maxFd
  }

  /** A connecting server has at most one client, on its own descriptor, until it quits. */
  ghost predicate Single(fd: nat, listen: bool, clients: seq<Peer>, quit: bool) {
    !listen ==> (forall p :: p in clients ==> p.fd == fd) && (!quit ==> |clients| <= 1)
  }

  /** Every descriptor ever taken on for a client is listed, was closed, or was dropped. */
  ghost predicate Accounted(accepted: seq<nat>, clients: seq<Peer>, closed: seq<nat>, dropped: seq<nat>) {
    multiset(accepted) == multiset(Fds(clients)) + multiset(closed) + multiset(dropped)
  }

  /** The books balance: every descriptor accepted is listed or was closed, as often as it was accepted. */
  ghost predicate Balanced(accepted: seq<nat>, clients: seq<Peer>, closed: seq<nat>) {
    multiset(accepted) == multiset(Fds(clients)) + multiset(closed)
  }

  /** They balance exactly when no descriptor was dropped. */
  lemma BalancedIff(accepted: seq<nat>, clients: seq<Peer>, closed: seq<nat>, dropped: seq<nat>)
    requires Accounted(accepted, clients, closed, dropped)
    ensures Balanced(accepted, clients, closed) <==> dropped == []
  {
    if dropped != [] {
      var d := dropped[0];
      assert d in multiset(dropped);
      assert multiset(accepted)[d] == multiset(Fds(clients))[d] + multiset(closed)[d] + multiset(dropped)[d];
    }
  }

  /** What one call of `server_accept` adds to the ledger: a descriptor that accept returned and that is
      then neither listed nor closed, because its name could not be found or memory ran out. */
  function Dropped(listen: bool, newFd: int, named: bool, memory: bool): seq<nat>
    requires newFd >= -1
  {
    if listen && newFd >= 0 && !(named && memory) then [newFd] else []
  }

  /** What the environment does in one round of the loop: the descriptors select reports, what accept,
      getnameinfo and malloc give, and the descriptors on which reading breaks the connection. */
  datatype Round = Round(ready: set<nat>, newFd: int, named: bool, memory: bool, broken: set<nat>)

  predicate Plausible(rounds: seq<Round>) {
    forall i :: 0 <= i < |rounds| ==> rounds[i].newFd >= -1
  }

  function DroppedIn(fd: nat, listen: bool, r: Round): seq<nat>
    requires r.newFd >= -1
  {
    if fd in r.ready then Dropped(listen, r.newFd, r.named, r.memory) else []
  }

  /** All descriptors dropped in these rounds, in order. */
  function DroppedOver(fd: nat, listen: bool, rounds: seq<Round>): seq<nat>
    requires Plausible(rounds)
  {
    if rounds == [] then []
    else DroppedOver(fd, listen, rounds[..|rounds| - 1]) + DroppedIn(fd, listen, rounds[|rounds| - 1])
  }

  /** The descriptor a round adds to the list, if any. */
  function Joins(fd: nat, listen: bool, list: seq<Peer>, r: Round): seq<nat>
    requires r.newFd >= -1
  {
    if fd !in r.ready || !r.memory then []
    else if listen then (if r.newFd >= 0 && r.named then [r.newFd] else [])
    else if list == [] then [fd] else []
  }

  /** The descriptors a round takes on: in listening mode exactly what accept returned. */
  function AcceptedIn(fd: nat, listen: bool, list: seq<Peer>, r: Round): seq<nat>
    requires r.newFd >= -1
  {
    if listen then (if fd in r.ready && r.newFd >= 0 then [r.newFd] else []) else Joins(fd, listen, list, r)
  }

  /** What a listening server accepts over these rounds. */
  function AcceptedOver(fd: nat, rounds: seq<Round>): seq<nat>
    requires Plausible(rounds)
  {
    if rounds == [] then []
    else AcceptedOver(fd, rounds[..|rounds| - 1]) + AcceptedIn(fd, true, [], rounds[|rounds| - 1])
  }

  function Join(list: seq<Peer>, fds: seq<nat>): seq<Peer> {
    if fds == [] then list else list + [Peer(fds[0], true)]
  }

  /** The list after reading: exactly the clients that were ready and whose connection broke are
      inactive. */
  function Marked(list: seq<Peer>, ready: set<nat>, broken: set<nat>): (r: seq<Peer>)
    ensures |r| == |list|
  {
    seq(|list|, i requires 0 <= i < |list| =>
      Peer(list[i].fd, list[i].active && !(list[i].fd in ready && list[i].fd in broken)))
  }

  /** In no round did naming or allocation fail after a connection was accepted. */
  predicate NoLateFailure(fd: nat, listen: bool, rounds: seq<Round>) {
    forall i :: 0 <= i < |rounds| && fd in rounds[i].ready && listen && rounds[i].newFd >= 0 ==>
      rounds[i].named && rounds[i].memory
  }

  lemma {:induction false} NothingDroppedIff(fd: nat, listen: bool, rounds: seq<Round>)
    requires Plausible(rounds)
    ensures DroppedOver(fd, listen, rounds) == [] <==> NoLateFailure(fd, listen, rounds)
  {
    if rounds != [] {
      var k := |rounds| - 1;
      NothingDroppedIff(fd, listen, rounds[..k]);
      assert NoLateFailure(fd, listen, rounds)
        <==> NoLateFailure(fd, listen, rounds[..k]) && DroppedIn(fd, listen, rounds[k]) == [] by {
        assert forall i :: 0 <= i < k ==> rounds[..k][i] == rounds[i];
      }
    }
  }

  /** The leak: a listening server that accepts descriptor 7 and cannot name its peer has it open and
      neither lists nor closes it. */
  method UnnamedPeerLeaks(memory: bool) returns (server: Server, ret: int)
    ensures ret == -1 && server.clients == [] && server.closed == [] && server.accepted == [7]
    ensures !Balanced(server.accepted, server.clients, server.closed)
  {
    hide Accounted, Balanced, Fds;
    server := new Server(3, true);
    ret := server.Accept(7, false, memory);
    BalancedIff(server.accepted, server.clients, server.closed, server.dropped);
  }

  lemma AccountedDrop(accepted: seq<nat>, clients: seq<Peer>, closed: seq<nat>, dropped: seq<nat>, d: nat)
    requires Accounted(accepted, clients, closed, dropped)
    ensures Accounted(accepted + [d], clients, closed, dropped + [d])
  {
    hide Fds;
  }

  lemma MarkedFds(list: seq<Peer>, ready: set<nat>, broken: set<nat>)
    ensures Fds(Marked(list, ready, broken)) == Fds(list)
  {
  }

  lemma {:induction false} KeptExactly(list: seq<Peer>, p: Peer)
    ensures p in Kept(list, false) <==> p in list && p.active
  {
    if list != [] {
      var k := |list| - 1;
      KeptExactly(list[..k], p);
      assert list == list[..k] + [list[k]];
    }
  }

  /** Who is listed after a round: exactly the active clients, old or just joined, that were not both
      ready and broken. */
  lemma ListedUntilBroken(fd: nat, listen: bool, list: seq<Peer>, r: Round, d: nat)
    requires r.newFd >= -1
    ensures
      var joined := Join(list, Joins(fd, listen, list, r));
      Peer(d, true) in Kept(Marked(joined, r.ready, r.broken), false)
      <==> (Peer(d, true) in list || d in Joins(fd, listen, list, r)) && !(d in r.ready && d in r.broken)
  {
    var js := Joins(fd, listen, list, r);
    var joined := Join(list, js);
    var marked := Marked(joined, r.ready, r.broken);
    KeptExactly(marked, Peer(d, true));
    assert Peer(d, true) in joined <==> Peer(d, true) in list || d in js;
    if Peer(d, true) in joined && !(d in r.ready && d in r.broken) {
      var i :| 0 <= i < |joined| && joined[i] == Peer(d, true);
      assert marked[i] == Peer(d, true);
    }
    if Peer(d, true) in marked {
      var i :| 0 <= i < |marked| && marked[i] == Peer(d, true);
      assert joined[i] == Peer(d, true);
    }
  }

  lemma Cut(now: seq<Peer>, kept: seq<Peer>, list: seq<Peer>, k: nat)
    requires k < |list| && now == kept + list[k..]
    ensures now[|kept|] == list[k]
    ensures now[..|kept|] + now[|kept| + 1..] == kept + list[k + 1..]
    ensures now == kept + [list[k]] + list[k + 1..]
  {
  }

  lemma Longer(x: seq<nat>, y: seq<nat>, d: nat)
    ensures x + y + [d] == x + (y + [d])
  {
  }

  lemma NothingCut(all: bool)
    ensures Kept([], all) == [] && Removed([], all) == [] && Fds([]) == []
  {
  }

  lemma AccountedAccept(accepted: seq<nat>, clients: seq<Peer>, closed: seq<nat>, dropped: seq<nat>, p: Peer)
    requires Accounted(accepted, clients, closed, dropped)
    ensures Accounted(accepted + [p.fd], clients + [p], closed, dropped)
  {
    hide Fds;
    FdsAppend(clients, p);
  }

  lemma CutKeeps(fd: nat, listen: bool, list: seq<Peer>, maxFd: nat, quit: bool, all: bool)
    requires Bounded(fd, list, maxFd) && Single(fd, listen, list, quit)
    ensures Bounded(fd, Kept(list, all), maxFd)
    ensures Single(fd, listen, Kept(list, all), quit || (!listen && Removed(list, all) != []))
  {
    hide Kept, Removed;
    KeptAndRemoved(list, all);
  }

  lemma AccountedCut(accepted: seq<nat>, list: seq<Peer>, closed: seq<nat>, dropped: seq<nat>, all: bool)
    requires Accounted(accepted, list, closed, dropped)
    ensures Accounted(accepted, Kept(list, all), closed + Fds(Removed(list, all)), dropped)
  {
    hide Fds, Kept, Removed;
    FdsSplit(list, all);
  }

  /** The order of the list, and the descriptors in it, survive a change of the active flags. */
  lemma FlagsOnly(fd: nat, listen: bool, was: seq<Peer>, now: seq<Peer>, maxFd: nat, quit: bool,
                  accepted: seq<nat>, closed: seq<nat>, dropped: seq<nat>)
    requires Fds(was) == Fds(now)
    requires Bounded(fd, was, maxFd) && Single(fd, listen, was, quit) && Accounted(accepted, was, closed, dropped)
    ensures Bounded(fd, now, maxFd) && Single(fd, listen, now, quit) && Accounted(accepted, now, closed, dropped)
  {
    forall p | p in now
      ensures exists q :: q in was && q.fd == p.fd
    {
      var i :| 0 <= i < |now| && now[i] == p;
      assert was[i].fd == Fds(was)[i] == Fds(now)[i] == p.fd;
    }
    assert |was| == |Fds(was)| == |now|;
  }

  class Server {
    const fd: nat
    const listen: bool
    var quit: bool
    var maxFd: nat
    var clients: seq<Peer>
    /** Every descriptor taken on for a client: those accept returned, and the server's own when it lists
        itself.  Then those closed on removal, and those neither listed nor closed. */
    var accepted: seq<nat>
    var closed: seq<nat>
    var dropped: seq<nat>

    ghost predicate Valid()
      reads this
    {
      Bounded(fd, clients, maxFd) && Single(fd, listen, clients, quit) && Accounted(accepted, clients, closed, dropped)
    }

    /** The list part of `warppipe_server_create`, before a connecting server adds itself. */
    constructor (fd: nat, listen: bool)
      ensures Valid() && !quit && clients == [] && this.fd == fd && this.listen == listen
      ensures accepted == [] && closed == [] && dropped == []
    {
      this.fd, this.listen, quit, maxFd := fd, listen, false, fd;
      clients, accepted, closed, dropped := [], [], [], [];
    }

    /** `server_accept`; `newFd` is what accept returned, `named` whether getnameinfo succeeded, `memory`
        whether both allocations did.  A descriptor that fails after accept is dropped. */
    method Accept(newFd: int, named: bool, memory: bool) returns (ret: int)
      requires Valid() && newFd >= -1
      modifies this`clients, this`maxFd, this`accepted, this`dropped
      ensures Valid()
      ensures ret == if memory && (if listen then newFd >= 0 && named else old(clients) == []) then 0 else -1
      ensures ret == 0 ==>
        var d := if listen then newFd else fd;
        && clients == old(clients) + [Peer(d, true)] && accepted == old(accepted) + [d]
        && maxFd == if old(maxFd) < d then d else old(maxFd)
      ensures ret != 0 ==>
        && clients == old(clients) && maxFd == old(maxFd)
        && accepted == old(accepted) + Dropped(listen, newFd, named, memory)
      ensures dropped == old(dropped) + Dropped(listen, newFd, named, memory)
    {
      hide Accounted, Fds;
      var d := fd;
      if listen {
        if newFd == -1 {
          return -1;
        }
        d := newFd;
        if !named {
          AccountedDrop(accepted, clients, closed, dropped, d);
          accepted, dropped := accepted + [d], dropped + [d];
          return -1;
        }
      } else if clients != [] {
        return -1;
      }
      if !memory {
        if listen {
          AccountedDrop(accepted, clients, closed, dropped, d);
          accepted, dropped := accepted + [d], dropped + [d];
        }
        return -1;
      }
      AccountedAccept(accepted, clients, closed, dropped, Peer(d, true));
      clients, accepted := clients + [Peer(d, true)], accepted + [d];
      if maxFd < d {
        maxFd := d;
      }
      return 0;
    }

    /** `server_read`: exactly the clients that are ready and whose connection breaks become inactive. */
    method Read(ready: set<nat>, broken: set<nat>)
      requires Valid()
      modifies this`clients
      ensures Valid() && clients == Marked(old(clients), ready, broken)
    {
      hide Accounted, Single, Bounded, Fds;
      for i := 0 to |clients|
        invariant |clients| == |old(clients)|
        invariant forall j :: i <= j < |clients| ==> clients[j] == old(clients)[j]
        invariant forall j :: 0 <= j < i ==> clients[j] == Marked(old(clients), ready, broken)[j]
      {
        if clients[i].fd in ready {
          if clients[i].fd in broken {
            clients := clients[i := clients[i].(active := false)];
          }
        }
      }
      assert clients == Marked(old(clients), ready, broken);
      MarkedFds(old(clients), ready, broken);
      FlagsOnly(fd, listen, old(clients), clients, maxFd, quit, accepted, closed, dropped);
    }

    /** `warppipe_server_disconnect_clients`: the list is walked once and cut in place. */
    method Disconnect(all: bool)
      requires Valid()
      modifies this`clients, this`closed, this`quit
      ensures Valid() && clients == Kept(old(clients), all) && closed == old(closed) + Fds(Removed(old(clients), all))
      ensures quit == (old(quit) || (!listen && Removed(old(clients), all) != []))
    {
      hide Accounted, Bounded, Single, Fds, Kept, Removed;
      ghost var list, kept, removed := clients, [], [];
      ghost var k := 0;
      var i := 0;
      assert list[..0] == [] && kept + list[0..] == list;
      NothingCut(all);
      while i < |clients|
        invariant k <= |list| && i == |kept| && clients == kept + list[k..]
        invariant kept == Kept(list[..k], all) && removed == Removed(list[..k], all)
        invariant closed == old(closed) + Fds(removed)
        invariant quit == (old(quit) || (!listen && |removed| > 0))
        decreases |clients| - i
      {
        KeptNext(list, all, k);
        Cut(clients, kept, list, k);
        if all || !clients[i].active {
          FdsAppend(removed, clients[i]);
          Longer(old(closed), Fds(removed), clients[i].fd);
          removed := removed + [clients[i]];
          closed := closed + [clients[i].fd];
          clients := clients[..i] + clients[i + 1..];
          if !listen {
            quit := true;
          }
        } else {
          kept := kept + [clients[i]];
          i := i + 1;
        }
        k := k + 1;
      }
      assert list[..k] == list && kept + list[k..] == kept;
      CutKeeps(fd, listen, list, maxFd, old(quit), all);
      AccountedCut(accepted, list, old(closed), dropped, all);
    }

    /** `warppipe_server_loop`.  `before` is the list after accepting and reading: the old clients and
        exactly the one that could join, with exactly those inactive whose connection broke.  Its active
        clients remain, in order, and each of the others is closed once.  `Valid` accounts for every
        descriptor; by `BalancedIff` none is lost exactly when none was dropped. */
    method Loop(r: Round) returns (ghost before: seq<Peer>)
      requires Valid() && r.newFd >= -1
      modifies this
      ensures Valid()
      ensures before == Marked(Join(old(clients), Joins(fd, listen, old(clients), r)), r.ready, r.broken)
      ensures clients == Kept(before, false) && closed == old(closed) + Fds(Removed(before, false))
      ensures accepted == old(accepted) + AcceptedIn(fd, listen, old(clients), r)
      ensures dropped == old(dropped) + DroppedIn(fd, listen, r)
      ensures quit == (old(quit) || (!listen && Removed(before, false) != []))
    {
      hide Accounted, Single, Bounded, Fds, Kept, Removed, Marked;
      if fd in r.ready {
        var _ := Accept(r.newFd, r.named, r.memory);
      }
      Read(r.ready, r.broken);
      before := clients;
      Disconnect(false);
    }

    /** Any number of rounds.  A listening server accepts exactly the descriptors accept returned.  The
        descriptors missing from the books are exactly those for which naming or allocation failed after
        that; from a fresh server the books balance exactly when there is none. */
    method Serve(rounds: seq<Round>)
      requires Valid() && Plausible(rounds)
      modifies this
      ensures Valid() && dropped == old(dropped) + DroppedOver(fd, listen, rounds)
      ensures listen ==> accepted == old(accepted) + AcceptedOver(fd, rounds)
      ensures old(dropped) == [] ==> (Balanced(accepted, clients, closed) <==> NoLateFailure(fd, listen, rounds))
    {
      hide Accounted, Single, Bounded, Balanced, Fds, Kept, Removed, Dropped, NoLateFailure, Marked;
      assert rounds[..0] == [];
      for k := 0 to |rounds|
        invariant Valid() && dropped == old(dropped) + DroppedOver(fd, listen, rounds[..k])
        invariant listen ==> accepted == old(accepted) + AcceptedOver(fd, rounds[..k])
      {
        assert rounds[..k + 1][..k] == rounds[..k];
        var _ := Loop(rounds[k]);
      }
      assert rounds[..|rounds|] == rounds;
      NothingDroppedIff(fd, listen, rounds);
      BalancedIff(accepted, clients, closed, dropped);
    }
  }
}
