/** Choosing an ephemeral port and finding a packet's socket (Sources/fnet_stack/stack/fnet_socket.c). */
module SocketPorts {
  import opened Words
  import opened Wrappers

  /** An address without its port; a zero number is unspecified. */
  datatype Address = Ip4(number: nat) | Ip6(number: nat)

  datatype Endpoint = Endpoint(address: Address, port: Short)

  datatype Socket = Socket(protocol: int, local: Endpoint, foreign: Endpoint)

  predicate Unspecified(a: Address) {
    a.number == 0
  }

  /** FNET_SOCKET_PORT_RESERVED and FNET_SOCKET_PORT_USERRESERVED: ephemeral ports are above one, up to the other. */
  const RESERVED: nat := 1024
  const USERRESERVED: nat := 5000
  const PORTS: nat := USERRESERVED - RESERVED

  predicate Ephemeral(port: int) {
    RESERVED < port <= USERRESERVED
  }

  /** A socket has the local port, the local address or any as a wildcard, and the foreign end or any as a wildcard. */
  ghost predicate Conflicts(sock: Socket, local: Endpoint, foreign: Option<Endpoint>, wildcard: bool) {
    && sock.local.port == local.port
    && (sock.local.address == local.address || (wildcard && local.address.number == 0))
    && match foreign
       case None => wildcard
       case Some(end) => sock.foreign == end
  }

  ghost predicate HasConflict(socks: seq<Socket>, local: Endpoint, foreign: Option<Endpoint>, wildcard: bool) {
    exists k :: 0 <= k < |socks| && Conflicts(socks[k], local, foreign, wildcard)
  }

  /** fnet_socket_conflict: a comparison with no foreign address succeeds only as a wildcard. */
  method Conflict(socks: seq<Socket>, local: Endpoint, foreign: Option<Endpoint>, wildcard: bool) returns (r: bool)
    ensures r <==> HasConflict(socks, local, foreign, wildcard)
  {
    var k := 0;
    while k < |socks|
      invariant 0 <= k <= |socks| && forall j :: 0 <= j < k ==> !Conflicts(socks[j], local, foreign, wildcard)
    {
      var sock := socks[k];
      if && sock.local.port == local.port
         && ((Unspecified(local.address) && wildcard) || sock.local.address == local.address)
         && ((foreign.None? && wildcard) || (foreign.Some? && sock.foreign.address == foreign.value.address))
         && ((foreign.None? && wildcard) || (foreign.Some? && sock.foreign.port == foreign.value.port)) {
        return true;
      }
      k := k + 1;
    }
    r := false;
  }

  /** No socket of the list has the port with that address, or with any when the address is unspecified. */
  ghost predicate Free(socks: seq<Socket>, address: Address, port: Short) {
    !HasConflict(socks, Endpoint(address, port), None, true)
  }

  /** The port tried after another, in 16 bits. */
  function Next(port: Short): (r: Short)
    ensures Ephemeral(r) && r == if 1024 <= port < 5000 then port + 1 else 1025
  {
    var next := (port + 1) as int % 0x1_0000;
    if next <= RESERVED || next > USERRESERVED then RESERVED + 1 else next
  }

  /** The port tried at the `n`-th turn. */
  function Tried(last: Short, n: nat): Short {
    if n == 0 then last else Next(Tried(last, n - 1))
  }

  /** The turns until `port` is tried. */
  function Turns(last: Short, port: Short): nat
    requires Ephemeral(port)
  {
    if Ephemeral(last) && port > last then port as int - last as int
    else if Ephemeral(last) then port as int - last as int + PORTS
    else port as int - RESERVED
  }

  lemma TurnsNext(last: Short, port: Short)
    requires Ephemeral(port) && Next(last) != port
    ensures Turns(Next(last), port) == Turns(last, port) - 1 > 0
  {}

  /** Every ephemeral port is tried within one turn of the range. */
  lemma {:induction false} TriedAll(last: Short, port: Short)
    requires Ephemeral(port)
    ensures 0 < Turns(last, port) <= PORTS && Tried(last, Turns(last, port)) == port
    decreases Turns(last, port)
  {
    if Next(last) == port {
      assert Turns(last, port) == 1;
      assert Tried(last, 0) == last;
    } else {
      TurnsNext(last, port);
      TriedAll(Next(last), port);
      TriedShift(last, Turns(Next(last), port));
    }
  }

  lemma {:induction false} TriedShift(last: Short, n: nat)
    ensures Tried(last, n + 1) == Tried(Next(last), n)
  {
    if n > 0 {
      TriedShift(last, n - 1);
    } else {
      assert Tried(last, 0) == last;
    }
  }

  lemma TriedStep(last: Short, n: nat)
    ensures Tried(last, 0) == last && Tried(last, n + 1) == Next(Tried(last, n))
  {}

  class Ports {
    /** fnet_port_last. */
    var last: Short

    constructor ()
      ensures last == RESERVED + 1
    {
      last := RESERVED + 1;
    }

    /**
      fnet_socket_get_uniqueport: the first free port in turn.  It comes back exactly when one is free;
      `free` names one.
     */
    method UniquePort(socks: seq<Socket>, address: Address, ghost free: Short) returns (port: Short, ghost n: nat)
      requires Ephemeral(free) && Free(socks, address, free)
      modifies this
      ensures 1025 <= port <= 5000 && Free(socks, address, port) && last == port
      ensures 0 < n <= 3976 && port == Tried(old(last), n)
      ensures forall i :: 0 < i < n ==> !Free(socks, address, Tried(old(last), i))
    {
      hide HasConflict, Tried, Turns, Next;
      TriedAll(last, free);
      TriedStep(last, 0);
      port, n := Next(last), 1;
      var taken := Conflict(socks, Endpoint(address, port), None, true);
      while taken
        invariant 0 < n <= Turns(last, free) && port == Tried(last, n) && Ephemeral(port)
        invariant last == old(last) && (taken <==> !Free(socks, address, port))
        invariant forall i :: 0 < i < n ==> !Free(socks, address, Tried(last, i))
        decreases Turns(last, free) - n
      {
        TriedStep(last, n);
        port, n := Next(port), n + 1;
        taken := Conflict(socks, Endpoint(address, port), None, true);
      }
      last := port;
    }
  }

  // ----- there is a free port

  /** The ephemeral ports that sockets use. */
  function Used(socks: seq<Socket>): set<nat> {
    set k | 0 <= k < |socks| :: socks[k].local.port as nat
  }

  lemma {:induction false} UsedSize(socks: seq<Socket>)
    ensures |Used(socks)| <= |socks|
  {
    if socks != [] {
      var n := |socks| - 1;
      UsedSize(socks[..n]);
      assert Used(socks) == Used(socks[..n]) + {socks[n].local.port as nat};
    }
  }

  /** The numbers above `lo` up to `hi`. */
  function Range(lo: nat, hi: nat): (r: set<nat>)
    requires lo <= hi
    ensures |r| == hi - lo && forall p :: p in r <==> lo < p <= hi
    decreases hi - lo
  {
    if lo == hi then {} else Range(lo, hi - 1) + {hi}
  }

  lemma SubsetSize(s: set<nat>, t: set<nat>)
    requires s <= t
    ensures |s| <= |t|
  {
    assert t == s + (t - s);
  }

  lemma Beyond(s: set<nat>, t: set<nat>) returns (x: nat)
    requires |s| > |t|
    ensures x in s && x !in t
  {
    if s <= t {
      SubsetSize(s, t);
    }
    x :| x in s && x !in t;
  }

  lemma UsedBy(socks: seq<Socket>, address: Address, port: Short)
    requires port as nat !in Used(socks)
    ensures Free(socks, address, port)
  {
    forall k | 0 <= k < |socks| ensures !Conflicts(socks[k], Endpoint(address, port), None, true) {
      assert socks[k].local.port as nat in Used(socks);
    }
  }

  /** Fewer sockets than ephemeral ports leave one of those free. */
  lemma SomeFree(socks: seq<Socket>, address: Address) returns (port: Short)
    requires |socks| < 3976
    ensures 1025 <= port <= 5000 && Free(socks, address, port)
  {
    hide Used, Free;
    UsedSize(socks);
    var p := Beyond(Range(RESERVED, USERRESERVED), Used(socks));
    port := p;
    UsedBy(socks, address, port);
  }

  /** With too many sockets there may be none: one on each ephemeral port, and the search never ends. */
  lemma NoneFree(address: Address)
    ensures exists socks: seq<Socket> :: |socks| == 3976 && forall port: Short :: 1025 <= port <= 5000 ==> !Free(socks, address, port)
  {
    var socks := seq(PORTS, k requires 0 <= k < PORTS =>
      Socket(0, Endpoint(address, RESERVED + 1 + k), Endpoint(Ip4(0), 0)));
    forall port: Short | 1025 <= port <= 5000 ensures !Free(socks, address, port) {
      var k := port - 1 - RESERVED;
      assert Conflicts(socks[k], Endpoint(address, port), None, true);
    }
  }

  // ----- finding a packet's socket

  /** How far a socket is from a packet's addresses, in wildcards; nothing when it is not the packet's. */
  ghost function Match(sock: Socket, protocol: int, local: Endpoint, foreign: Endpoint): (r: Option<nat>)
    ensures r.Some? <==>
              && sock.protocol == protocol && sock.local.port == local.port
              && (sock.local.address == local.address || sock.local.address.number == 0 || local.address.number == 0)
              && (sock.foreign == foreign || sock.foreign.address.number == 0 || foreign.address.number == 0)
    ensures r.Some? ==> r.value == Wildcards(sock, local, foreign) <= 2
  {
    var one := AddressMatch(sock.local.address, local.address);
    var two := AddressMatch(sock.foreign.address, foreign.address);
    if sock.protocol != protocol || sock.local.port != local.port || one.None? || two.None? then None
    else if !Unspecified(sock.foreign.address) && !Unspecified(foreign.address) && sock.foreign.port != foreign.port then None
    else Some(one.value + two.value)
  }

  /** No wildcard for equal addresses, one when just one of them is unspecified. */
  ghost function AddressMatch(a: Address, b: Address): (r: Option<nat>)
    ensures r.Some? <==> a == b || a.number == 0 || b.number == 0
    ensures r.Some? ==> r.value == if (a.number == 0) != (b.number == 0) then 1 else 0
  {
    if Unspecified(a) then Some(if Unspecified(b) then 0 else 1)
    else if Unspecified(b) then Some(1)
    else if a == b then Some(0)
    else None
  }

  /** The number of the two pairs of addresses in which exactly one is unspecified. */
  ghost function Wildcards(sock: Socket, local: Endpoint, foreign: Endpoint): nat {
    (if (sock.local.address.number == 0) != (local.address.number == 0) then 1 else 0)
    + (if (sock.foreign.address.number == 0) != (foreign.address.number == 0) then 1 else 0)
  }

  /**
    fnet_socket_lookup: of the sockets with the packet's protocol and local port whose addresses are the
    packet's, or unspecified on either side, the first with the fewest wildcards.  A foreign address that is
    specified on both sides counts with its port.
   */
  method Lookup(socks: seq<Socket>, local: Endpoint, foreign: Endpoint, protocol: int) returns (r: Option<nat>)
    ensures r.Some? ==>
              && r.value < |socks| && socks[r.value].protocol == protocol && socks[r.value].local.port == local.port
              && var mine, peer := socks[r.value].local, socks[r.value].foreign;
              && (mine.address == local.address || mine.address.number == 0 || local.address.number == 0)
              && (peer == foreign || peer.address.number == 0 || foreign.address.number == 0)
    ensures forall k :: 0 <= k < |socks| && socks[k].protocol == protocol && socks[k].local.port == local.port ==>
              var mine, peer := socks[k].local, socks[k].foreign;
              (mine.address == local.address || mine.address.number == 0 || local.address.number == 0) ==>
              (peer == foreign || peer.address.number == 0 || foreign.address.number == 0) ==>
                && r.Some? && Wildcards(socks[r.value], local, foreign) <= Wildcards(socks[k], local, foreign)
                && (k < r.value ==> Wildcards(socks[r.value], local, foreign) < Wildcards(socks[k], local, foreign))
  {
    r := None;
    var best := 3;
    var k := 0;
    while k < |socks|
      invariant 0 <= k <= |socks| && (r.None? <==> best == 3) && best > 0
      invariant r.Some? ==> r.value < k && Match(socks[r.value], protocol, local, foreign) == Some(best)
      invariant forall j :: 0 <= j < k && Match(socks[j], protocol, local, foreign).Some? ==>
                  best <= Match(socks[j], protocol, local, foreign).value
      invariant r.Some? ==> forall j :: 0 <= j < r.value && Match(socks[j], protocol, local, foreign).Some? ==>
                  best < Match(socks[j], protocol, local, foreign).value
    {
      var sock := socks[k];
      if sock.protocol == protocol && sock.local.port == local.port {
        var wildcard, mine := 0, true;
        if !Unspecified(sock.local.address) {
          if Unspecified(local.address) {
            wildcard := wildcard + 1;
          } else if sock.local.address != local.address {
            mine := false;
          }
        } else if !Unspecified(local.address) {
          wildcard := wildcard + 1;
        }
        if !Unspecified(sock.foreign.address) {
          if Unspecified(foreign.address) {
            wildcard := wildcard + 1;
          } else if sock.foreign.address != foreign.address || sock.foreign.port != foreign.port {
            mine := false;
          }
        } else if !Unspecified(foreign.address) {
          wildcard := wildcard + 1;
        }
        assert Match(sock, protocol, local, foreign) == if mine then Some(wildcard) else None;
        if mine && wildcard < best {
          r, best := Some(k), wildcard;
          if best == 0 {
            return;
          }
        }
      }
      k := k + 1;
    }
  }
}
