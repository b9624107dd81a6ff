/**
  The connections of the FTP server (ftpd.c): a singly linked list on the heap, from which the service
  loop removes nodes while it walks along it, and the descriptor set that goes with it.
 */
module FtpConnections {

  class Conn {
    const sockfd: int
    var next: Conn?

    constructor (sockfd: int)
      ensures this.sockfd == sockfd && next == null
    {
      this.sockfd, next := sockfd, null;
    }
  }

  ghost predicate Distinct(s: seq<Conn>) {
    forall i, j :: 0 <= i < j < |s| ==> s[i] != s[j]
  }

  /** The node at a position; null from the end on. */
  ghost function At(s: seq<Conn>, i: nat): Conn? {
    if i < |s| then s[i] else null
  }

  /** Starting at head, the next pointers run through exactly these nodes. */
  ghost predicate Linked(head: Conn?, s: seq<Conn>)
    reads s
  {
    && head == At(s, 0)
    && forall i {:trigger s[i].next} :: 0 <= i < |s| ==> s[i].next == At(s, i + 1)
  }

  ghost function Fds(s: seq<Conn>): set<int> {
    set c | c in s :: c.sockfd
  }

  ghost function Without(s: seq<Conn>, at: nat): seq<Conn>
    requires at < |s|
  {
    s[..at] + s[at + 1..]
  }

  lemma WithoutDistinct(s: seq<Conn>, at: nat)
    requires at < |s| && Distinct(s)
    ensures Distinct(Without(s, at))
  {
  }

  /** The links after s[at] has been cut out, from what the nodes pointed to before. */
  lemma WithoutAt(s: seq<Conn>, at: nat, k: nat)
    requires at < |s| && k < |s| - 1
    ensures Without(s, at)[k] == if k < at then s[k] else s[k + 1]
    ensures At(Without(s, at), k + 1) == if k + 1 < at then At(s, k + 1) else At(s, k + 2)
  {
  }

  lemma WithoutMiddle(a: seq<Conn>, c: Conn, b: seq<Conn>)
    ensures (a + [c] + b)[|a|] == c && Without(a + [c] + b, |a|) == a + b
  {
  }

  /** Those of a list that are in a set, in the same order. */
  ghost function Picked(s: seq<Conn>, pick: set<Conn>): seq<Conn> {
    if s == [] then [] else Picked(s[..|s| - 1], pick) + if s[|s| - 1] in pick then [s[|s| - 1]] else []
  }

  lemma {:induction false} PickedMembers(s: seq<Conn>, pick: set<Conn>)
    ensures forall c :: c in Picked(s, pick) <==> c in s && c in pick
  {
    if s != [] {
      PickedMembers(s[..|s| - 1], pick);
      assert s == s[..|s| - 1] + [s[|s| - 1]];
    }
  }

  lemma FdsAppend(s: seq<Conn>, c: Conn)
    ensures Fds(s + [c]) == Fds(s) + {c.sockfd}
  {
    assert c in s + [c];
    forall d | d in s
      ensures d in s + [c]
    {
    }
  }

  /** The first part of a pass: who stays, who is served, which descriptors are forgotten. */
  ghost predicate PassSoFar(part: seq<Conn>, keep: set<Conn>, kept: seq<Conn>, serve: set<Conn>, served: seq<Conn>,
                            forget: set<Conn>, gone: set<int>)
  {
    kept == Picked(part, keep) && served == Picked(part, serve) && gone == Fds(Picked(part, forget))
  }

  lemma PassAdvance(part: seq<Conn>, c: Conn, keep: set<Conn>, kept: seq<Conn>, serve: set<Conn>, served: seq<Conn>,
                    forget: set<Conn>, gone: set<int>)
    requires PassSoFar(part, keep, kept, serve, served, forget, gone)
    ensures PassSoFar(part + [c], keep, if c in keep then kept + [c] else kept,
                      serve, if c in serve then served + [c] else served,
                      forget, if c in forget then gone + {c.sockfd} else gone)
  {
    assert (part + [c])[..|part|] == part;
    FdsAppend(Picked(part, forget), c);
  }

  class Server {
    var connList: Conn?
    var readfds: set<int>
    const listenFd: int
    ghost var conns: seq<Conn>
    /** All nodes that were ever in the list. */
    ghost var nodes: set<Conn>

    ghost predicate Valid()
      reads this, nodes
    {
      && (forall i :: 0 <= i < |conns| ==> conns[i] in nodes)
      && Linked(connList, conns) && Distinct(conns)
    }

    constructor (listenFd: int)
      ensures Valid() && conns == [] && nodes == {} && readfds == {listenFd} && this.listenFd == listenFd
    {
      this.listenFd, connList, conns, nodes, readfds := listenFd, null, [], {}, {listenFd};
    }

    /** alloc_new_conn, for a descriptor that accept returned: new connections come first. */
    method AllocNewConn(sockfd: int) returns (conn: Conn)
      requires Valid()
      modifies this
      ensures Valid() && fresh(conn) && conn.sockfd == sockfd && conns == [conn] + old(conns)
      ensures nodes == old(nodes) + {conn} && readfds == old(readfds) + {sockfd}
    {
      conn := new Conn(sockfd);
      conn.next := connList;
      connList := conn;
      readfds := readfds + {sockfd};
      nodes := nodes + {conn};
      ghost var was := conns;
      conns := [conn] + conns;
      forall i | 0 <= i < |conns|
        ensures conns[i].next == At(conns, i + 1)
      {
        assert i > 0 ==> conns[i] == was[i - 1] && was[i - 1].next == At(was, i);
      }
    }

    /** The loop before select: every live connection is watched; nothing is taken out of the set. */
    method WatchAll() returns (maxFd: int)
      requires Valid()
      modifies this`readfds
      ensures Valid() && readfds == old(readfds) + Fds(conns)
      ensures maxFd >= listenFd + 1 && forall c :: c in conns ==> maxFd >= c.sockfd + 1
      ensures maxFd == listenFd + 1 || exists c :: c in conns && maxFd == c.sockfd + 1
    {
      maxFd := listenFd + 1;
      var conn := connList;
      ghost var i := 0;
      assert Fds(conns[..0]) == {};
      while conn != null
        invariant 0 <= i <= |conns| && conn == At(conns, i)
        invariant readfds == old(readfds) + Fds(conns[..i]) && Valid()
        invariant maxFd >= listenFd + 1 && forall c :: c in conns[..i] ==> maxFd >= c.sockfd + 1
        invariant maxFd == listenFd + 1 || exists c :: c in conns && maxFd == c.sockfd + 1
        decreases |conns| - i
      {
        if maxFd < conn.sockfd + 1 {
          maxFd := conn.sockfd + 1;
        }
        readfds := readfds + {conn.sockfd};
        assert conns[..i + 1] == conns[..i] + [conns[i]];
        FdsAppend(conns[..i], conn);
        conn := conn.next;
        i := i + 1;
      }
      assert conns[..i] == conns;
    }

    /** The walk of destroy_conn to the node in front of the one that goes. */
    method FindBefore(conn: Conn, ghost at: nat) returns (list: Conn)
      requires Valid() && 0 < at < |conns| && conns[at] == conn
      ensures list == conns[at - 1]
    {
      list := connList;
      ghost var i := 0;
      while list.next != conn
        invariant 0 <= i < at && list == conns[i]
        decreases at - i
      {
        assert list.next == At(conns, i + 1);
        list := list.next;
        i := i + 1;
      }
      assert conns[i + 1] == conn;
    }

    /** destroy_conn: exactly the argument leaves the list. Its place is a ghost of the contract; the
        code finds it by walking. */
    method DestroyConn(conn: Conn, ghost at: nat)
      requires Valid() && at < |conns| && conns[at] == conn
      modifies this`connList, this`conns, nodes
      ensures Valid() && conns == Without(old(conns), at)
      ensures conn.next == null
    {
      ghost var was, rest := conns, Without(conns, at);
      WithoutDistinct(was, at);
      assert conn.next == At(was, at + 1);
      if connList == conn {
        assert at == 0;
        connList := connList.next;
        conn.next := null;
      } else {
        var list := FindBefore(conn, at);
        list.next := conn.next;
        conn.next := null;
      }
      assert connList == At(rest, 0);
      forall k | 0 <= k < |rest|
        ensures rest[k].next == At(rest, k + 1) && rest[k] in nodes
      {
        WithoutAt(was, at, k);
      }
      conns := rest;
    }

    /** The body of the service loop for one connection; `next` was fetched before it could go. */
    method ServeOne(conn: Conn, ready: set<Conn>, hungUp: set<Conn>, quits: set<Conn>,
                    ghost before: seq<Conn>, ghost behind: seq<Conn>)
      returns (next: Conn?, served: bool)
      requires Valid() && conns == before + [conn] + behind
      modifies this`connList, this`conns, this`readfds, nodes
      ensures Valid() && nodes == old(nodes) && conn in nodes && next == At(behind, 0)
      ensures conns == (if conn in ready * (hungUp + quits) then before else before + [conn]) + behind
      ensures served <==> conn in ready - hungUp
      ensures readfds == if conn in ready * hungUp then old(readfds) - {conn.sockfd} else old(readfds)
    {
      WithoutMiddle(before, conn, behind);
      assert conns[|before|] == conn;
      assert conn.next == At(conns, |before| + 1) == At(behind, 0);
      next := conn.next;
      served := false;
      if conn in ready {
        if conn in hungUp {
          readfds := readfds - {conn.sockfd};
          DestroyConn(conn, |before|);
        } else {
          served := true;
          if conn in quits {
            DestroyConn(conn, |before|);
          }
        }
      }
    }

    /** One pass of the service loop. ready: select reported the socket; hungUp: recv gives 0 or -1;
        quits: the request handler gives -1. Every connection that was there at the start is visited
        exactly once, in order, although visited ones disappear; the others stay in order; a request is
        processed for each ready one that has not hung up. */
    method ServicePass(ready: set<Conn>, hungUp: set<Conn>, quits: set<Conn>)
      returns (visited: seq<Conn>, served: seq<Conn>)
      requires Valid()
      modifies this`connList, this`conns, this`readfds, nodes
      ensures Valid() && nodes == old(nodes)
      ensures visited == old(conns)
      ensures conns == Picked(old(conns), nodes - ready * (hungUp + quits))
      ensures served == Picked(old(conns), ready - hungUp)
      ensures readfds == old(readfds) - Fds(Picked(old(conns), ready * hungUp))
    {
      visited, served := [], [];
      ghost var keep := nodes - ready * (hungUp + quits);
      ghost var done: seq<Conn>, rest, gone: set<int> := [], conns, {};
      var conn := connList;
      while conn != null
        invariant Valid() && nodes == old(nodes)
        invariant conn == At(rest, 0) && conns == done + rest && old(conns) == visited + rest
        invariant PassSoFar(visited, keep, done, ready - hungUp, served, ready * hungUp, gone)
        invariant readfds == old(readfds) - gone
        decreases |rest|
      {
        var current: Conn := conn;
        ghost var tail := rest[1..];
        assert rest == [current] + tail;
        assert conns == done + [current] + tail && old(conns) == visited + [current] + tail;
        PassAdvance(visited, current, keep, done, ready - hungUp, served, ready * hungUp, gone);
        var served1;
        conn, served1 := ServeOne(current, ready, hungUp, quits, done, tail);
        visited := visited + [current];
        served := if served1 then served + [current] else served;
        done := if current in keep then done + [current] else done;
        gone := if current in ready * hungUp then gone + {current.sockfd} else gone;
        rest := tail;
      }
      assert visited + rest == visited;
    }
  }

  /** Among connections with different descriptors, a descriptor stands for one connection. */
  lemma FdOfPicked(all: seq<Conn>, pick: set<Conn>, c: Conn)
    requires forall c, d :: c in all && d in all && c.sockfd == d.sockfd ==> c == d
    requires c in all
    ensures c.sockfd in Fds(Picked(all, pick)) <==> c in pick
  {
    PickedMembers(all, pick);
    if c.sockfd in Fds(Picked(all, pick)) {
      var d :| d in Picked(all, pick) && d.sockfd == c.sockfd;
      assert d in all;
    }
  }

  /** Descriptors that are watched although their connection is gone. Only a hang-up clears its bit: if
      the set was exact before a pass, it is exact afterwards exactly if no handler closed a connection. */
  lemma WatchedSetExactIff(
    listenFd: int, all: seq<Conn>, nodes: set<Conn>, ready: set<Conn>, hungUp: set<Conn>, quits: set<Conn>)
    requires forall c :: c in all ==> c in nodes
    requires forall c, d :: c in all && d in all && c.sockfd == d.sockfd ==> c == d
    requires listenFd !in Fds(all)
    ensures ({listenFd} + Fds(all)) - Fds(Picked(all, ready * hungUp))
         == {listenFd} + Fds(Picked(all, nodes - ready * (hungUp + quits)))
      <==> forall c :: c in all && c in ready && c in quits ==> c in hungUp
  {
    var gone, live := ready * hungUp, nodes - ready * (hungUp + quits);
    var after := ({listenFd} + Fds(all)) - Fds(Picked(all, gone));
    PickedMembers(all, gone);
    PickedMembers(all, live);
    forall c | c in all
      ensures c.sockfd in after <==> !(c in ready && c in hungUp)
      ensures c.sockfd in {listenFd} + Fds(Picked(all, live)) <==> !(c in ready && (c in hungUp || c in quits))
    {
      assert c.sockfd in Fds(all);
      FdOfPicked(all, gone, c);
      FdOfPicked(all, live, c);
    }
    if forall c :: c in all && c in ready && c in quits ==> c in hungUp {
      forall fd
        ensures fd in after <==> fd in {listenFd} + Fds(Picked(all, live))
      {
        if fd in Fds(all) {
          var c :| c in all && c.sockfd == fd;
        } else {
          PickedFds(all, live);
          PickedFds(all, gone);
        }
      }
    }
  }

  lemma PickedFds(all: seq<Conn>, pick: set<Conn>)
    ensures Fds(Picked(all, pick)) <= Fds(all)
  {
    PickedMembers(all, pick);
    forall fd | fd in Fds(Picked(all, pick))
      ensures fd in Fds(all)
    {
      var c :| c in Picked(all, pick) && c.sockfd == fd;
      assert c in all;
    }
  }
}
