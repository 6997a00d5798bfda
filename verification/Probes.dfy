/** The pair of probes on connect in netlog/src/probes.c: the socket noted at entry is the one
    found at return, whatever other processes do in between, and it is logged unless the
    whitelist knows the connection. */
module Probes {
  import opened Basics
  import opened CStrings
  import opened InetUtils
  import opened Connections
  import opened Grammar
  import opened AddressMatching
  import opened WhitelistModel
  import opened Netlog

  const IPPROTO_TCP := 6

  /** A `struct socket` pointer, and the connection behind it, if it has one. */
  type Socket = nat
  datatype Sock = Sock(protocol: int, peer: SocketAddress, port: int)

  datatype ProbeEvent = Entry(pid: nat, sock: Socket) | Return(pid: nat)

  /** The table after the events; every index is a process id. */
  function After(table: seq<Option<Socket>>, es: seq<ProbeEvent>): (r: seq<Option<Socket>>)
    requires forall i :: 0 <= i < |es| ==> es[i].pid < |table|
    ensures |r| == |table|
    decreases |es|
  {
    if es == [] then table
    else
      var last := es[|es| - 1];
      After(table, es[..|es| - 1])[last.pid := if last.Entry? then Some(last.sock) else None]
  }

  /** Between entry and return of one process, the others do not disturb its slot. */
  lemma {:induction false} ReturnFindsItsSocket(table: seq<Option<Socket>>, pid: nat, sock: Socket, es: seq<ProbeEvent>)
    requires pid < |table| && forall i :: 0 <= i < |es| ==> es[i].pid < |table| && es[i].pid != pid
    ensures After(table, [Entry(pid, sock)] + es)[pid] == Some(sock)
    decreases |es|
  {
    var all := [Entry(pid, sock)] + es;
    if es == [] {
      assert all[..0] == [];
    } else {
      assert all[..|all| - 1] == [Entry(pid, sock)] + es[..|es| - 1];
      ReturnFindsItsSocket(table, pid, sock, es[..|es| - 1]);
    }
  }

  /** A connect is logged if it is a TCP connection over IPv4 or IPv6 that the list does not know. */
  predicate Logged(m: Model, sk: Option<Sock>, path: Option<string>)
    requires sk.Some? ==> WellFormedAddress(sk.value.peer)
  {
    && sk.Some? && sk.value.protocol == IPPROTO_TCP && !sk.value.peer.OtherFamily?
    && !Lookup(m, path, PrintAddress(sk.value.peer), sk.value.port)
  }

  lemma LookupInOne(c: Conn, text: string, path: string, ip: Option<string>, port: int)
    ensures Lookup(Model([c], [text]), Some(path), ip, port) <==>
      1 <= |path| <= 949 && ConnectionMatchesAttributes(c, path, ip, port)
  {
    hide ConnectionMatchesAttributes;
    var m := Model([c], [text]);
    assert m.entries[0] == c;
  }

  /** One rule, from string to log: with the string for a rule as the only one given to
      `whitelist`, whatever its brackets and the memory behind it, a TCP connect is left out of the
      log if and only if it is made by that program and, as far as the rule gives them, to that
      address and port. */
  lemma OneRuleSilencesItsConnections(f: Fields, r: Rule, br: Brackets, tail: string, path: string, sk: Sock)
    requires Sensible(r) && r.path != "" && WrittenFor(f, r) && (r.address.None? || r.port.Some? || br.ipClose)
    requires WellFormedAddress(sk.peer) && !sk.peer.OtherFamily? && sk.protocol == 6 && 0 <= sk.port <= 65535
    ensures var m := Load(EMPTY, [CallOf(Mem(Render(f, br), tail))]);
      !Logged(m, Some(sk), Some(path)) <==>
        && path == r.path
        && (r.address.Some? ==> sk.peer == r.address.value) && (r.port.Some? ==> sk.port == r.port.value)
  {
    hide Parse, Render, Mem, CStr, PrintAddress, LegalPath, ConnectionMatchesAttributes, RecordOf, WrittenFor;
    RuleMatchesItsSocketsOnly(f, r, br, tail, path, sk.peer, sk.port);
    var c := CallOf(Mem(Render(f, br), tail));
    assert [c][1..] == [];
    assert Load(EMPTY, [c]) == Model([c.parsed.conn], [c.text]) by {
      assert Admits(EMPTY, c);
      assert Load(Admit(EMPTY, c), []) == Admit(EMPTY, c);
    }
    LookupInOne(c.parsed.conn, c.text, path, PrintAddress(sk.peer), sk.port);
  }

  /** What is logged, for every list: a connect by TCP (protocol 6) over IPv4 or IPv6, unless the
      path of its program is known, is not empty and has at most 949 characters, and some rule of
      the list stands for program, printed address and port. */
  lemma LoggedIff(m: Model, sk: Sock, path: Option<string>)
    requires Consistent(m) && WellFormedAddress(sk.peer)
    ensures Logged(m, Some(sk), path) <==>
      && sk.protocol == 6 && (sk.peer.Inet? || sk.peer.Inet6?)
      && !(path.Some? && 1 <= |path.value| <= 949 &&
           Query(path.value, PrintAddress(sk.peer).value, sk.port) in Allowed(m.entries))
  {
    hide Consistent, Lookup, Allowed, DottedQuad, HexGroups;
    if !sk.peer.OtherFamily? {
      LookupIsMembership(m, path, PrintAddress(sk.peer), sk.port);
    }
  }

  class ConnectProbes {
    const matchSocket: array<Option<Socket>>
    ghost var events: seq<ProbeEvent>

    /** The table is what the events so far have made of an empty one. */
    ghost predicate Valid()
      reads this, matchSocket
    {
      && (forall i :: 0 <= i < |events| ==> events[i].pid < matchSocket.Length)
      && matchSocket[..] == After(seq(matchSocket.Length, _ => None), events)
    }

    constructor (pidMaxLimit: nat)
      ensures Valid() && events == [] && matchSocket.Length == pidMaxLimit
    {
      matchSocket := new Option<Socket>[pidMaxLimit](_ => None);
      events := [];
      new;
      assert matchSocket[..] == seq(matchSocket.Length, _ => None);
    }

    method InetStreamConnect(pid: nat, sock: Socket)
      requires Valid() && pid < matchSocket.Length
      modifies this, matchSocket
      ensures Valid() && events == old(events) + [Entry(pid, sock)]
    {
      matchSocket[pid] := Some(sock);
      events := events + [Entry(pid, sock)];
      assert events[..|events| - 1] == old(events);
    }

    /** `sockets` are the connections behind the socket pointers at the return from connect, and
        `path` is the executable of the process. */
    method PostConnect(pid: nat, sockets: Socket -> Option<Sock>, path: Option<string>, n: State) returns (logged: bool)
      requires Valid() && pid < matchSocket.Length && n.ListValid()
      requires forall s :: sockets(s).Some? ==> WellFormedAddress(sockets(s).value.peer)
      modifies this, matchSocket
      ensures Valid() && events == old(events) + [Return(pid)] && matchSocket[pid] == None
      ensures var sock := After(seq(matchSocket.Length, _ => None), old(events))[pid];
        var sk := if sock.None? then None else sockets(sock.value);
        logged <==>
          && sk.Some? && sk.value.protocol == 6 && (sk.value.peer.Inet? || sk.value.peer.Inet6?)
          && !(path.Some? && 1 <= |path.value| <= 949 &&
               Query(path.value, PrintAddress(sk.value.peer).value, sk.value.port) in Allowed(n.model.entries))
    {
      hide Lookup, PrintAddress, Allowed, Consistent, PlainTexts;
      var sock := matchSocket[pid];
      var sk := if sock.None? then None else sockets(sock.value);
      logged := false;
      if sk.Some? && sk.value.protocol == IPPROTO_TCP && !sk.value.peer.OtherFamily? {
        var destinationIp := PrintAddress(sk.value.peer);
        var known := n.IsWhitelisted(path, destinationIp, sk.value.port);
        logged := known != WHITELISTED;
      }
      if sk.Some? {
        LoggedIff(n.model, sk.value, path);
      }
      matchSocket[pid] := None;
      events := events + [Return(pid)];
      assert events[..|events| - 1] == old(events);
    }
  }
}
