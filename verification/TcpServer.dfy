/** The server's bookkeeping: a name for every connection, the map of live ones, and the round
    robin that spreads them over the loops. */
module TcpServers {
  import Decimal

  const INT_MAX: nat := 0x7fff_ffff

  /** Loops are numbered; the base loop is a number of its own. */
  type Loop = int

  datatype Connection = Connection(name: string, loop: Loop, fd: int)

  // ---- names ----------------------------------------------------------------------------------

  /** snprintf into 64 bytes: at most 63 of the text. */
  function Truncated(text: string): string { if |text| <= 63 then text else text[..63] }

  function ConnName(server: string, ipPort: string, id: nat): string {
    server + Truncated("~" + ipPort + "#" + Decimal.Text(id))
  }

  /** With an address of at most 51 characters nothing is cut off, and different ids have different
      names. */
  lemma NamesDiffer(server: string, ipPort: string, i: nat, j: nat)
    requires |ipPort| <= 51 && i <= INT_MAX && j <= INT_MAX && i != j
    ensures ConnName(server, ipPort, i) != ConnName(server, ipPort, j)
  {
    Decimal.IntWidth(i);
    Decimal.IntWidth(j);
    var prefix := "~" + ipPort + "#";
    if ConnName(server, ipPort, i) == ConnName(server, ipPort, j) {
      var a := prefix + Decimal.Text(i);
      var b := prefix + Decimal.Text(j);
      assert (server + a)[|server|..] == a && (server + b)[|server|..] == b;
      assert a[|prefix|..] == Decimal.Text(i) && b[|prefix|..] == Decimal.Text(j);
      Decimal.Injective(i, j);
    }
  }

  /** A name that fits: server, tilde, address, number sign, and the id in decimal. */
  lemma NameIs(server: string, ipPort: string, id: nat)
    requires |ipPort| <= 51 && id <= INT_MAX
    ensures ConnName(server, ipPort, id) == server + "~" + ipPort + "#" + Decimal.Text(id)
  {
    Decimal.IntWidth(id);
    assert server + ("~" + ipPort + "#" + Decimal.Text(id)) == server + "~" + ipPort + "#" + Decimal.Text(id);
  }

  /** With a longer address the last digit of a ten-digit id is cut off. */
  lemma LongAddressesCollide(server: string, ipPort: string)
    requires |ipPort| >= 52
    ensures ConnName(server, ipPort, 2_000_000_000) == ConnName(server, ipPort, 2_000_000_001)
  {
    Decimal.NineDigits(200_000_000);
    var kept := "~" + ipPort + "#" + Decimal.Text(200_000_000);
    var last0, last1 := [Decimal.Digit(0)], [Decimal.Digit(1)];
    Decimal.LastDigit(200_000_000, 0);
    Decimal.LastDigit(200_000_000, 1);
    assert "~" + ipPort + "#" + Decimal.Text(2_000_000_000) == kept + last0;
    assert "~" + ipPort + "#" + Decimal.Text(2_000_000_001) == kept + last1;
    assert (kept + last0)[..63] == kept[..63] == (kept + last1)[..63];
  }

  /** Exactly when names are unique: all ids of a 32-bit counter have different names if and only if
      the address has at most 51 characters (an IPv4 one has at most 21). */
  lemma NamesUniqueExactly(server: string, ipPort: string)
    ensures (forall i: nat, j: nat :: i <= INT_MAX && j <= INT_MAX && i != j ==>
               ConnName(server, ipPort, i) != ConnName(server, ipPort, j))
            <==> |ipPort| <= 51
  {
    hide ConnName;
    if |ipPort| <= 51 {
      forall i: nat, j: nat | i <= INT_MAX && j <= INT_MAX && i != j
        ensures ConnName(server, ipPort, i) != ConnName(server, ipPort, j)
      {
        NamesDiffer(server, ipPort, i, j);
      }
    } else {
      LongAddressesCollide(server, ipPort);
    }
  }

  // ---- balance --------------------------------------------------------------------------------

  /** The loop of the k-th connection, counted from zero. */
  function LoopOf(base: Loop, loops: seq<Loop>, k: nat): Loop {
    if loops == [] then base else loops[k % |loops|]
  }

  /** The round robin's counter before the k-th connection. */
  function Turn(loops: seq<Loop>, k: nat): nat {
    if loops == [] then 0 else k % |loops|
  }

  /** How many of the first `k` connections go to the loop at position `j` of `n`. */
  function Load(k: nat, n: nat, j: nat): nat
    requires n > 0
  {
    if k == 0 then 0 else Load(k - 1, n, j) + (if (k - 1) % n == j then 1 else 0)
  }

  lemma Distributes(a: int, b: int, n: int)
    ensures (a - b) * n == a * n - b * n
  {
  }

  lemma AtLeastOnce(d: int, n: nat)
    requires d >= 1
    ensures d * n >= n
  {
  }

  lemma DivisionIs(x: nat, n: nat, q: nat, r: nat)
    requires n > 0 && r < n && x == q * n + r
    ensures x / n == q && x % n == r
  {
    var q', r' := x / n, x % n;
    assert q' * n + r' == q * n + r;
    Distributes(q, q', n);
    Distributes(q', q, n);
    if q > q' {
      AtLeastOnce(q - q', n);
    } else if q < q' {
      AtLeastOnce(q' - q, n);
    }
  }

  lemma NextResidue(k: nat, n: nat)
    requires n > 0
    ensures if k % n + 1 == n then (k + 1) % n == 0 && (k + 1) / n == k / n + 1
            else (k + 1) % n == k % n + 1 && (k + 1) / n == k / n
  {
    var q, r := k / n, k % n;
    if r + 1 == n {
      Distributes(q + 1, 1, n);
      DivisionIs(k + 1, n, q + 1, 0);
    } else {
      DivisionIs(k + 1, n, q, r + 1);
    }
  }

  lemma {:induction false} LoadIs(k: nat, n: nat, j: nat)
    requires n > 0 && j < n
    ensures Load(k, n, j) == k / n + (if j < k % n then 1 else 0)
  {
    if k == 0 {
      DivisionIs(0, n, 0, 0);
    } else {
      LoadIs(k - 1, n, j);
      NextResidue(k - 1, n);
    }
  }

  /** At any time the loads of any two loops differ by at most one. */
  lemma Balanced(k: nat, n: nat, i: nat, j: nat)
    requires n > 0 && i < n && j < n
    ensures -1 <= Load(k, n, i) - Load(k, n, j) <= 1
  {
    LoadIs(k, n, i);
    LoadIs(k, n, j);
  }

  // ---- the books ------------------------------------------------------------------------------

  /** Everything ever accepted, in order, the positions of what was removed, the map of the rest by
      name, and the position behind every name in the map. */
  datatype Books = Books(
    accepted: seq<Connection>, removed: set<nat>, connections: map<string, Connection>, position: map<string, nat>)

  /** What a server's names are made of, and its loops. */
  datatype Setup = Setup(name: string, ipPort: string, baseLoop: Loop, loops: seq<Loop>)

  function NameOf(s: Setup, k: nat): string { ConnName(s.name, s.ipPort, k + 1) }

  predicate Live(b: Books, k: nat) { k < |b.accepted| && k !in b.removed }

  /** Every connection has the name and the loop of its number. */
  ghost predicate Numbered(s: Setup, accepted: seq<Connection>) {
    forall k: nat :: k < |accepted| ==>
      accepted[k].name == NameOf(s, k) && accepted[k].loop == LoopOf(s.baseLoop, s.loops, k)
  }

  /** Whatever was accepted and not removed is in the map, ... */
  ghost predicate Mapped(s: Setup, b: Books) {
    forall k: nat :: Live(b, k) ==> NameOf(s, k) in b.connections && b.connections[NameOf(s, k)] == b.accepted[k]
  }

  /** ... and nothing else is. */
  ghost predicate Positioned(s: Setup, b: Books) {
    && b.position.Keys == b.connections.Keys
    && forall n :: n in b.connections ==> Live(b, b.position[n]) && NameOf(s, b.position[n]) == n
  }

  ghost predicate InOrder(s: Setup, b: Books) {
    && |s.ipPort| <= 51 && |b.accepted| < INT_MAX
    && (forall k :: k in b.removed ==> k < |b.accepted|)
    && Numbered(s, b.accepted) && Mapped(s, b) && Positioned(s, b)
  }

  /** All names ever issued are pairwise distinct, and a new one is in nobody's way. */
  lemma NameIsNew(s: Setup, b: Books)
    requires InOrder(s, b)
    ensures forall i: nat, j: nat :: i < j < |b.accepted| ==> b.accepted[i].name != b.accepted[j].name
    ensures forall i: nat :: i < |b.accepted| ==> b.accepted[i].name != NameOf(s, |b.accepted|)
    ensures NameOf(s, |b.accepted|) !in b.connections
  {
    hide ConnName, LoopOf;
    forall i: nat, j: nat | i < j <= |b.accepted| ensures NameOf(s, i) != NameOf(s, j) {
      NamesDiffer(s.name, s.ipPort, i + 1, j + 1);
    }
  }

  lemma AddressFits(s: Setup, b: Books)
    requires InOrder(s, b)
    ensures |s.ipPort| <= 51
  {
  }

  function Accepting(b: Books, conn: Connection): Books {
    Books(b.accepted + [conn], b.removed, b.connections[conn.name := conn], b.position[conn.name := |b.accepted|])
  }

  lemma AcceptKeepsMapped(s: Setup, b: Books, conn: Connection)
    requires InOrder(s, b) && conn.name == NameOf(s, |b.accepted|)
    ensures Mapped(s, Accepting(b, conn))
  {
    NameIsNew(s, b);
    hide NameOf, Positioned, InOrder;
    assert Numbered(s, b.accepted) && Mapped(s, b);
    var b' := Accepting(b, conn);
    forall k: nat | Live(b', k)
      ensures NameOf(s, k) in b'.connections && b'.connections[NameOf(s, k)] == b'.accepted[k]
    {
      assert k < |b.accepted| ==> Live(b, k) && b.accepted[k].name == NameOf(s, k);
    }
  }

  lemma AcceptKeepsPositioned(s: Setup, b: Books, conn: Connection)
    requires InOrder(s, b) && conn.name == NameOf(s, |b.accepted|)
    ensures Positioned(s, Accepting(b, conn))
  {
  }

  lemma NumberedGrows(s: Setup, accepted: seq<Connection>, conn: Connection)
    requires Numbered(s, accepted)
    requires conn.name == NameOf(s, |accepted|) && conn.loop == LoopOf(s.baseLoop, s.loops, |accepted|)
    ensures Numbered(s, accepted + [conn])
  {
    hide NameOf, LoopOf;
    assert forall k :: 0 <= k < |accepted| ==> (accepted + [conn])[k] == accepted[k];
  }

  lemma AcceptKeepsOrder(s: Setup, b: Books, conn: Connection)
    requires InOrder(s, b) && |b.accepted| + 1 < INT_MAX
    requires conn.name == NameOf(s, |b.accepted|) && conn.loop == LoopOf(s.baseLoop, s.loops, |b.accepted|)
    ensures InOrder(s, Accepting(b, conn))
  {
    hide NameOf, LoopOf, Numbered, Mapped, Positioned;
    NumberedGrows(s, b.accepted, conn);
    AcceptKeepsMapped(s, b, conn);
    AcceptKeepsPositioned(s, b, conn);
  }

  lemma RemoveKeepsOrder(s: Setup, b: Books, k: nat)
    requires InOrder(s, b) && k < |b.accepted|
    ensures var n := b.accepted[k].name;
            InOrder(s, Books(b.accepted, b.removed + {k}, b.connections - {n}, b.position - {n}))
  {
    hide ConnName, LoopOf;
    forall i: nat | i < |b.accepted| && i != k ensures NameOf(s, i) != NameOf(s, k) {
      NamesDiffer(s.name, s.ipPort, i + 1, k + 1);
    }
  }

  // ---- balance of the server's own connections ------------------------------------------------

  /** How many of the connections are on a loop. */
  function OnLoop(accepted: seq<Connection>, loop: Loop): nat {
    if accepted == [] then 0
    else OnLoop(accepted[..|accepted| - 1], loop) + (if accepted[|accepted| - 1].loop == loop then 1 else 0)
  }

  ghost predicate DistinctLoops(loops: seq<Loop>) {
    forall i, j :: 0 <= i < j < |loops| ==> loops[i] != loops[j]
  }

  lemma {:induction false} OnLoopIsLoad(s: Setup, accepted: seq<Connection>, j: nat)
    requires Numbered(s, accepted) && DistinctLoops(s.loops) && j < |s.loops|
    ensures OnLoop(accepted, s.loops[j]) == Load(|accepted|, |s.loops|, j)
    decreases |accepted|
  {
    if accepted != [] {
      var k := |accepted| - 1;
      OnLoopIsLoad(s, accepted[..k], j);
      assert accepted[k].loop == s.loops[k % |s.loops|];
    }
  }

  /** At any time, of the connections a server has accepted, each of its loops has got its share,
      and the numbers of any two loops differ by at most one. */
  lemma ServerIsBalanced(server: TcpServer, i: nat, j: nat)
    requires server.Valid() && DistinctLoops(server.setup.loops)
    requires i < |server.setup.loops| && j < |server.setup.loops|
    ensures var k, n := |server.accepted|, |server.setup.loops|;
            OnLoop(server.accepted, server.setup.loops[i]) == k / n + (if i < k % n then 1 else 0)
    ensures -1 <= OnLoop(server.accepted, server.setup.loops[i]) - OnLoop(server.accepted, server.setup.loops[j]) <= 1
  {
    OnLoopIsLoad(server.setup, server.accepted, i);
    OnLoopIsLoad(server.setup, server.accepted, j);
    LoadIs(|server.accepted|, |server.setup.loops|, i);
    Balanced(|server.accepted|, |server.setup.loops|, i, j);
  }

  // ---- the server -----------------------------------------------------------------------------

  class TcpServer {
    const setup: Setup
    var next: nat
    var nextConnId: nat
    var connections: map<string, Connection>
    ghost var accepted: seq<Connection>
    ghost var removed: set<nat>
    ghost var position: map<string, nat>

    ghost function View(): Books
      reads this
    {
      Books(accepted, removed, connections, position)
    }

    ghost predicate Valid()
      reads this
    {
      && InOrder(setup, View())
      && nextConnId == |accepted| + 1
      && next == Turn(setup.loops, |accepted|)
    }

    constructor (setup: Setup)
      requires |setup.ipPort| <= 51
      ensures Valid() && accepted == [] && connections == map[] && this.setup == setup
    {
      this.setup := setup;
      next, nextConnId, connections, accepted, removed, position := 0, 1, map[], [], {}, map[];
    }

    /** getNextLoop: round robin over the loops, the base loop if there are none. */
    method GetNextLoop() returns (loop: Loop)
      requires next == Turn(setup.loops, |accepted|)
      modifies this`next
      ensures loop == LoopOf(setup.baseLoop, setup.loops, |accepted|)
      ensures loop == if setup.loops == [] then setup.baseLoop else setup.loops[|accepted| % |setup.loops|]
      ensures next == Turn(setup.loops, |accepted| + 1)
    {
      var loops := setup.loops;
      if loops != [] {
        NextResidue(|accepted|, |loops|);
      }
      loop := setup.baseLoop;
      if |loops| > 0 {
        loop := loops[next];
        next := next + 1;
        if next >= |loops| {
          next := 0;
        }
      }
    }

    /** newConnection, while the id counter does not overflow: the name is new, so nothing in the map
        is overwritten, and the k-th connection goes to loop k mod n. */
    method NewConnection(fd: int) returns (conn: Connection)
      requires Valid() && nextConnId < INT_MAX
      modifies this
      ensures Valid()
      ensures accepted == old(accepted) + [conn] && removed == old(removed)
      ensures conn.name !in old(connections) && connections == old(connections)[conn.name := conn]
      ensures forall k: nat :: k < |old(accepted)| ==> old(accepted)[k].name != conn.name
      ensures conn.fd == fd
      ensures conn.loop == if setup.loops == [] then setup.baseLoop
                           else setup.loops[|old(accepted)| % |setup.loops|]
      ensures conn.name == setup.name + "~" + setup.ipPort + "#" + Decimal.Text(|old(accepted)| + 1)
    {
      hide InOrder, ConnName, LoopOf, Turn;
      assert |accepted| + 1 < INT_MAX;
      NameIsNew(setup, View());
      var loop := GetNextLoop();
      var connName := ConnName(setup.name, setup.ipPort, nextConnId);
      assert |setup.ipPort| <= 51 by { AddressFits(setup, View()); }
      NameIs(setup.name, setup.ipPort, nextConnId);
      nextConnId := nextConnId + 1;
      conn := Connection(connName, loop, fd);
      AcceptKeepsOrder(setup, View(), conn);
      connections := connections[connName := conn];
      accepted, position := accepted + [conn], position[connName := |accepted|];
    }

    /** removeConnectionInLoop, for the connection accepted as number `k`; asking twice is harmless. */
    method RemoveConnection(conn: Connection, ghost k: nat)
      requires Valid() && k < |accepted| && conn == accepted[k]
      modifies this`connections, this`removed, this`position
      ensures Valid() && removed == old(removed) + {k}
      ensures connections == old(connections) - {conn.name}
    {
      hide InOrder, ConnName, LoopOf, Turn;
      RemoveKeepsOrder(setup, View(), k);
      connections, position := connections - {conn.name}, position - {conn.name};
      removed := removed + {k};
    }
  }
}
