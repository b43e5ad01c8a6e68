/** The linked address list of the getaddrinfo emulation on the heap: building it, and splicing in one
    entry per service. Allocation is taken to succeed. */
module AddrInfoList {
  import opened Types
  import opened AddrInfoValues

  class SockAddr {
    const family: Family
    const bytes: seq<ui8>
    var port: ui16
    ghost var owner: AddrInfo?  // the only entry that points here

    constructor (family: Family, bytes: seq<ui8>, port: ui16)
      ensures this.family == family && this.bytes == bytes && this.port == port && owner == null
    {
      this.family, this.bytes, this.port, this.owner := family, bytes, port, null;
    }
  }

  class AddrInfo {
    var clone: bool
    var family: Family
    var socktype: int
    var protocol: int
    var addr: SockAddr?
    var next: AddrInfo?

    constructor (clone: bool, family: Family, socktype: int, protocol: int, addr: SockAddr?, next: AddrInfo?)
      ensures this.clone == clone && this.family == family && this.socktype == socktype
      ensures this.protocol == protocol && this.addr == addr && this.next == next
    {
      this.clone, this.family, this.socktype := clone, family, socktype;
      this.protocol, this.addr, this.next := protocol, addr, next;
    }

    ghost predicate OwnsAddress()
      reads this, addr
    {
      && (addr != null ==> addr.owner == this)
      && (IsInternet(family) ==> addr != null)
    }

    ghost function View(): Entry
      reads this, addr
    {
      Entry(clone, family, socktype, protocol,
            if addr == null then NoAddr else Addr(addr.family, addr.bytes, addr.port))
    }
  }

  // ----- the heap

  ghost function Blocks(nodes: seq<AddrInfo>): set<SockAddr?>
    reads nodes
  {
    set n | n in nodes :: n.addr
  }

  /** Everything a pass over the list may write to. */
  ghost function Footprint(nodes: seq<AddrInfo>): set<object>
    reads nodes
  {
    (set n: AddrInfo | n in nodes :: n as object) + (set n: AddrInfo | n in nodes && n.addr != null :: n.addr as object)
  }

  ghost function Views(nodes: seq<AddrInfo>): (v: seq<Entry>)
    reads nodes, Blocks(nodes)
    ensures |v| == |nodes|
  {
    seq(|nodes|, i requires 0 <= i < |nodes| reads nodes, Blocks(nodes) => nodes[i].View())
  }

  ghost predicate Distinct(nodes: seq<AddrInfo>) {
    forall i, j :: 0 <= i < j < |nodes| ==> nodes[i] != nodes[j]
  }

  /** Linked in order, up to `end`. */
  ghost predicate Chain(nodes: seq<AddrInfo>, end: AddrInfo?)
    reads nodes
  {
    forall i :: 0 <= i < |nodes| ==> LinkAt(nodes, i, end)
  }

  ghost predicate LinkAt(nodes: seq<AddrInfo>, i: nat, end: AddrInfo?)
    requires i < |nodes|
    reads nodes
  {
    nodes[i].next == if i + 1 < |nodes| then nodes[i + 1] else end
  }

  /** Every address block belongs to one entry, and Internet entries have one. */
  ghost predicate Owned(nodes: seq<AddrInfo>)
    reads nodes, Blocks(nodes)
  {
    forall n :: n in nodes ==> n.OwnsAddress()
  }

  ghost predicate Linked(nodes: seq<AddrInfo>)
    reads nodes, Blocks(nodes)
  {
    Distinct(nodes) && Chain(nodes, null) && Owned(nodes)
  }

  /** Copies an entry with a copy of its address behind it, its clone mark cleared. */
  method GaiClone(ai: AddrInfo) returns (newAi: AddrInfo)
    modifies ai`next
    ensures fresh(newAi) && (newAi.addr != null ==> fresh(newAi.addr))
    ensures newAi.addr == null <==> ai.addr == null
    ensures ai.next == newAi && newAi.next == old(ai.next)
    ensures newAi.View() == ai.View().(clone := false)
    ensures newAi.addr != null ==> newAi.addr.owner == newAi
  {
    var addr: SockAddr? := null;
    if ai.addr != null {
      addr := new SockAddr(ai.addr.family, ai.addr.bytes, ai.addr.port);
    }
    newAi := new AddrInfo(false, ai.family, ai.socktype, ai.protocol, addr, ai.next);
    if addr != null {
      addr.owner := newAi;
    }
    ai.next := newAi;
  }

  method SetPort(ai: AddrInfo, port: int, socktype: int) returns (found: nat)
    requires ai.OwnsAddress()
    modifies ai`socktype, ai.addr
    ensures ai.OwnsAddress() && ai.View() == Ported(old(ai.View()), port, socktype)
    ensures found == if IsInternet(ai.family) then 1 else 0
  {
    ai.socktype := socktype;
    match ai.family {
      case Inet =>
        ai.addr.port := port % 0x1_0000;
        found := 1;
      case Inet6 =>
        ai.addr.port := port % 0x1_0000;
        found := 1;
      case OtherFamily(_) =>
        found := 0;
    }
  }

  /** The loop body of gai_port: `last` is the entry the loop moves on from. A clone's port is
      written without touching the entry it was cloned from. */
  method PortEntry(ai: AddrInfo, port: int, socktype: int) returns (last: AddrInfo, found: nat)
    requires ai.OwnsAddress()
    modifies ai`socktype, ai`next, ai.addr
    ensures ai.OwnsAddress() && last.OwnsAddress()
    ensures last == ai ==> ai.next == old(ai.next) && PortStep(old(ai.View()), port, socktype) == [ai.View()]
    ensures last != ai ==>
              && fresh(last) && (last.addr != null ==> fresh(last.addr))
              && ai.next == last && last.next == old(ai.next)
              && PortStep(old(ai.View()), port, socktype) == [ai.View(), last.View()]
              && ai.View() == old(ai.View())
    ensures found == PortHits(old(ai.View()), socktype)
  {
    last := ai;
    if ai.clone {
      if ai.socktype != ANY_SOCKTYPE {
        last := GaiClone(ai);
      }
    } else if ai.socktype != socktype {
      return ai, 0;
    }
    found := SetPort(last, port, socktype);
  }

  ghost function First(nodes: seq<AddrInfo>, otherwise: AddrInfo?): AddrInfo? {
    if nodes == [] then otherwise else nodes[0]
  }

  lemma ChainsJoin(s: seq<AddrInfo>, t: seq<AddrInfo>, end: AddrInfo?)
    requires Chain(s, First(t, end)) && Chain(t, end)
    ensures Chain(s + t, end)
  {
    forall i | 0 <= i < |s + t|
      ensures LinkAt(s + t, i, end)
    {
      assert if i < |s| then LinkAt(s, i, First(t, end)) else LinkAt(t, i - |s|, end);
    }
  }

  lemma ViewsJoin(s: seq<AddrInfo>, t: seq<AddrInfo>)
    ensures Views(s + t) == Views(s) + Views(t)
  {
  }

  lemma DistinctPush(s: seq<AddrInfo>, n: AddrInfo)
    requires Distinct(s) && n !in s
    ensures Distinct(s + [n])
  {
  }

  lemma DistinctTail(s: seq<AddrInfo>)
    requires Distinct(s) && s != []
    ensures Distinct(s[1..]) && s[0] !in s[1..]
  {
  }

  lemma ChainTail(s: seq<AddrInfo>, end: AddrInfo?)
    requires Chain(s, end) && s != []
    ensures s[0].next == First(s[1..], end) && Chain(s[1..], end)
  {
    assert LinkAt(s, 0, end);
    forall i | 0 <= i < |s[1..]|
      ensures LinkAt(s[1..], i, end)
    {
      assert LinkAt(s, i + 1, end);
    }
  }

  /** The list split where the loop stands: `done` has been passed, `rest` has not. */
  ghost predicate Split(done: seq<AddrInfo>, rest: seq<AddrInfo>)
    reads done, rest, Blocks(done), Blocks(rest)
  {
    && Distinct(done) && Distinct(rest) && (forall n :: n in done ==> n !in rest)
    && Owned(done) && Owned(rest)
    && Chain(done, First(rest, null)) && Chain(rest, null)
  }

  /** The loop body inside the list: entries before and behind are untouched, and what stands in the
      entry's place afterwards is `now`. */
  method PortNext(ghost done: seq<AddrInfo>, ai: AddrInfo, ghost rest: seq<AddrInfo>, port: int, socktype: int)
    returns (last: AddrInfo, found: nat, ghost now: seq<AddrInfo>)
    requires rest != [] && ai == rest[0] && Split(done, rest)
    modifies ai`socktype, ai`next, ai.addr
    ensures now == (if last == ai then [ai] else [ai, last])
    ensures last != ai ==> fresh(last) && (last.addr != null ==> fresh(last.addr))
    ensures forall n :: n in done || n in rest ==> n.addr == old(n.addr)
    ensures Split(done + now, rest[1..]) && last.next == First(rest[1..], null)
    ensures Views(done + now) == old(Views(done)) + PortStep(old(ai.View()), port, socktype)
    ensures Views(rest[1..]) == old(Views(rest[1..]))
    ensures found == PortHits(old(ai.View()), socktype)
  {
    ghost var tail := rest[1..];
    DistinctTail(rest);
    ChainTail(rest, null);
    DistinctPush(done, ai);
    forall n | n in done || n in tail
      ensures n != ai && (n.addr != null ==> n.addr != ai.addr)
    {
      assert n.OwnsAddress() && ai.OwnsAddress();
    }
    last, found := PortEntry(ai, port, socktype);
    EntriesKept(done);
    EntriesKept(tail);
    now := if last == ai then [ai] else [ai, last];
    if last != ai {
      DistinctPush(done + [ai], last);
      assert done + [ai] + [last] == done + now;
    }
    forall i | 0 <= i < |done|
      ensures LinkAt(done, i, ai)
    {
      assert old(LinkAt(done, i, ai)) && done[i] in done;
    }
    forall i | 0 <= i < |tail|
      ensures LinkAt(tail, i, null)
    {
      assert old(LinkAt(tail, i, null)) && tail[i] in tail;
    }
    assert Chain(now, First(tail, null));
    ChainsJoin(done, now, First(tail, null));
    ViewsJoin(done, now);
  }

  /** Entries whose fields and address blocks are untouched still own them and look the same. */
  twostate lemma EntriesKept(nodes: seq<AddrInfo>)
    requires forall n :: n in nodes ==> unchanged(n) && (n.addr != null ==> unchanged(n.addr))
    requires old(Owned(nodes))
    ensures Owned(nodes) && Views(nodes) == old(Views(nodes))
  {
    forall n | n in nodes
      ensures n.OwnsAddress() && n.View() == old(n.View())
    {
      assert old(n.OwnsAddress());
    }
    assert forall i :: 0 <= i < |nodes| ==> Views(nodes)[i] == old(Views(nodes))[i];
  }

  lemma LinkedIsSplit(nodes: seq<AddrInfo>)
    ensures Linked(nodes) ==> Split([], nodes)
    ensures Split(nodes, []) ==> Linked(nodes)
  {
  }

  lemma ViewsHead(nodes: seq<AddrInfo>)
    requires nodes != []
    ensures Views(nodes) == [nodes[0].View()] + Views(nodes[1..])
  {
  }

  /** One pass over the list for one socket type. */
  method GaiPort(aihead: AddrInfo?, port: int, socktype: int, ghost nodes: seq<AddrInfo>)
    returns (numFound: nat, ghost result: seq<AddrInfo>)
    requires Linked(nodes) && aihead == First(nodes, null)
    modifies Footprint(nodes)
    ensures Linked(result) && aihead == First(result, null)
    ensures Views(result) == PortPass(old(Views(nodes)), port, socktype)
    ensures numFound == PassHits(old(Views(nodes)), socktype)
    ensures fresh(Footprint(result) - old(Footprint(nodes)))
  {
    hide Chain, Distinct, Owned, Linked, Split, PortPass, PassHits, PortStep, PortHits, Views;
    ghost var before := Views(nodes);
    ghost var mine: set<object> := Footprint(nodes);
    LinkedIsSplit(nodes);
    PassStart(before, port, socktype);
    assert Views([]) == [];
    ghost var done, rest, k := [], nodes, 0;
    numFound := 0;
    var ai := aihead;
    while ai != null
      invariant 0 <= k <= |nodes| && rest == nodes[k..] && ai == First(rest, null)
      invariant Split(done, rest) && aihead == First(done + rest, null)
      invariant Views(done) == PortPass(before[..k], port, socktype) && Views(rest) == before[k..]
      invariant numFound == PassHits(before[..k], socktype)
      invariant forall n: AddrInfo :: n in done ==>
                  (n in mine || fresh(n)) && (n.addr != null ==> n.addr in mine || fresh(n.addr))
      invariant forall n: AddrInfo :: n in rest ==> n in mine && (n.addr != null ==> n.addr in mine)
      decreases |rest|
    {
      ViewsHead(rest);
      var last, found; ghost var now;
      last, found, now := PortNext(done, ai, rest, port, socktype);
      PassNext(before, k, port, socktype);
      done, rest, k := done + now, rest[1..], k + 1;
      numFound := numFound + found;
      ai := last.next;
    }
    assert before[..k] == before;
    result := done;
    LinkedIsSplit(result);
    assert done + rest == done && rest == [];
  }

  // ----- building the list

  lemma LinkedAppend(nodes: seq<AddrInfo>, ai: AddrInfo)
    requires Distinct(nodes) && Owned(nodes) && Chain(nodes, ai)
    requires ai !in nodes && ai.next == null && ai.OwnsAddress()
    ensures Linked(nodes + [ai]) && Views(nodes + [ai]) == Views(nodes) + [ai.View()]
  {
    DistinctPush(nodes, ai);
    assert Chain([ai], null);
    ChainsJoin(nodes, [ai], null);
    ViewsJoin(nodes, [ai]);
  }

  /** The list under construction; `tail` is the entry whose next slot is to be filled, null for the
      head slot. */
  class Builder {
    var head: AddrInfo?
    var tail: AddrInfo?
    ghost var nodes: seq<AddrInfo>

    constructor ()
      ensures Valid() && nodes == []
    {
      head, tail, nodes := null, null, [];
    }

    ghost predicate Valid()
      reads this, nodes, Blocks(nodes)
    {
      && Linked(nodes) && head == First(nodes, null)
      && tail == if nodes == [] then null else nodes[|nodes| - 1]
    }

    method GaiAistruct(hints: Hints, bytes: seq<ui8>, family: Family) returns (ai: AddrInfo)
      requires Valid()
      modifies this, tail
      ensures Valid() && nodes == old(nodes) + [ai]
      ensures fresh(ai) && (ai.addr != null ==> fresh(ai.addr))
      ensures forall n :: n in old(nodes) ==> n.addr == old(n.addr)
      ensures Views(nodes) == old(Views(nodes)) + [Blank(hints, bytes, family)]
    {
      var addr: SockAddr? := null;
      if IsInternet(family) {
        addr := new SockAddr(family, bytes, 0);
      }
      ai := new AddrInfo(hints.socktype == ANY_SOCKTYPE, family, hints.socktype, hints.protocol, addr, null);
      if addr != null {
        addr.owner := ai;
      }
      assert Valid();
      Attach(ai);
    }

    /** Fills the open slot. */
    method Attach(ai: AddrInfo)
      requires Valid() && ai !in nodes && ai.next == null && ai.OwnsAddress()
      modifies this, tail
      ensures Valid() && nodes == old(nodes) + [ai]
      ensures forall n :: n in nodes ==> n.addr == old(n.addr)
      ensures Views(nodes) == old(Views(nodes)) + [old(ai.View())]
    {
      if tail == null {
        head := ai;
      } else {
        tail.next := ai;
      }
      tail := ai;
      forall n | n in nodes
        ensures n.OwnsAddress()
      {
        assert old(n.OwnsAddress());
      }
      forall i | 0 <= i < |nodes|
        ensures LinkAt(nodes, i, ai)
      {
        assert old(LinkAt(nodes, i, null)) && nodes[i] in nodes;
      }
      LinkedAppend(nodes, ai);
      EntriesLook(nodes);
      nodes := nodes + [ai];
    }

    /** Everything but the links of the old entries is as it was. */
    twostate lemma EntriesLook(nodes: seq<AddrInfo>)
      requires forall n :: n in nodes ==> n.View() == old(n.View())
      ensures Views(nodes) == old(Views(nodes))
    {
      assert forall i :: 0 <= i < |nodes| ==> nodes[i] in nodes;
    }
  }

  // ----- gai_serv

  method GaiServ(aihead: AddrInfo?, hints: Hints, service: Service, ghost nodes: seq<AddrInfo>)
    returns (rc: ReturnCode, ghost result: seq<AddrInfo>)
    requires Linked(nodes) && aihead == First(nodes, null)
    modifies Footprint(nodes)
    ensures Linked(result) && aihead == First(result, null)
    ensures fresh(Footprint(result) - old(Footprint(nodes)))
    ensures Views(result) == RunPasses(old(Views(nodes)), Passes(hints.socktype, service))
    ensures rc == if RunHits(old(Views(nodes)), Passes(hints.socktype, service)) > 0 then Done
                  else if hints.socktype == ANY_SOCKTYPE then EaiNoName else EaiService
  {
    hide Linked, PortPass, PassHits, Views, RunPasses, RunHits;
    ghost var before := Views(nodes);
    var numFound, found := 0, 0;
    result := nodes;
    match service {
      case Numeric(port) =>
        if hints.socktype != ANY_SOCKTYPE {
          found, result := GaiPort(aihead, port, hints.socktype, result);
          numFound := numFound + found;
        } else {
          found, result := GaiPort(aihead, port, SOCK_STREAM, result);
          numFound := numFound + found;
          found, result := GaiPort(aihead, port, SOCK_DGRAM, result);
          numFound := numFound + found;
        }
      case Named(tcp, udp) =>
        if hints.socktype == ANY_SOCKTYPE || hints.socktype == SOCK_STREAM {
          if tcp.Some? {
            found, result := GaiPort(aihead, tcp.value, SOCK_STREAM, result);
            numFound := numFound + found;
          }
        }
        if hints.socktype == ANY_SOCKTYPE || hints.socktype == SOCK_DGRAM {
          if udp.Some? {
            found, result := GaiPort(aihead, udp.value, SOCK_DGRAM, result);
            numFound := numFound + found;
          }
        }
    }
    ghost var passes := Passes(hints.socktype, service);
    if |passes| == 0 {
      RunNone(before);
    } else if |passes| == 1 {
      RunOne(before, passes[0]);
      assert passes == [passes[0]];
    } else {
      RunTwo(before, passes[0], passes[1]);
      assert passes == [passes[0], passes[1]];
    }
    if numFound == 0 {
      if hints.socktype == ANY_SOCKTYPE {
        return EaiNoName, result;
      } else {
        return EaiService, result;
      }
    }
    return Done, result;
  }

  /** One entry per resolved address, in order. */
  method Build(hints: Hints, hosts: seq<Host>) returns (builder: Builder)
    ensures fresh(builder) && builder.Valid() && Views(builder.nodes) == Blanks(hints, hosts)
    ensures forall n :: n in builder.nodes ==> fresh(n) && (n.addr != null ==> fresh(n.addr))
  {
    hide Linked, Blank;
    builder := new Builder();
    for i := 0 to |hosts|
      invariant builder.Valid() && fresh(builder) && (builder.tail != null ==> fresh(builder.tail))
      invariant forall n :: n in builder.nodes ==> fresh(n) && (n.addr != null ==> fresh(n.addr))
      invariant Views(builder.nodes) == Blanks(hints, hosts[..i])
    {
      ghost var before := builder.nodes;
      var ai := builder.GaiAistruct(hints, hosts[i].bytes, hosts[i].family);
      forall n | n in builder.nodes
        ensures fresh(n) && (n.addr != null ==> fresh(n.addr))
      {
        assert n in before || n == ai;
      }
      assert Blanks(hints, hosts[..i + 1]) ==
             Blanks(hints, hosts[..i]) + [Blank(hints, hosts[i].bytes, hosts[i].family)];
    }
    assert hosts[..|hosts|] == hosts;
  }

  // ----- the finished list, entry by entry

  /** The entry is for this host, protocol, socket type and port; an Internet one has the address. */
  ghost predicate IsFor(n: AddrInfo, host: Host, protocol: int, socktype: int, port: int)
    reads n, n.addr
  {
    && n.family == host.family && n.protocol == protocol && n.socktype == socktype
    && (if host.family == Inet || host.family == Inet6 then
          n.addr != null && n.addr.family == host.family && n.addr.bytes == host.bytes && n.addr.port == port % 0x1_0000
        else
          n.addr == null)
  }

  /** One entry per host, in order. */
  ghost predicate OneEach(nodes: seq<AddrInfo>, hosts: seq<Host>, protocol: int, socktype: int, port: int)
    reads nodes, Blocks(nodes)
  {
    |nodes| == |hosts| && forall i :: 0 <= i < |hosts| ==> IsFor(nodes[i], hosts[i], protocol, socktype, port)
  }

  /** Two entries per host, in order: a stream one (1) and then a datagram one (2). */
  ghost predicate TwoEach(nodes: seq<AddrInfo>, hosts: seq<Host>, protocol: int, tcp: int, udp: int)
    reads nodes, Blocks(nodes)
  {
    && |nodes| == 2 * |hosts|
    && forall i :: 0 <= i < |hosts| ==>
         && IsFor(nodes[2 * i], hosts[i], protocol, 1, tcp)
         && IsFor(nodes[2 * i + 1], hosts[i], protocol, 2, udp)
  }

  lemma EntryIsFor(n: AddrInfo, hints: Hints, host: Host, socktype: int, port: int, clone: bool)
    requires n.View() == Ported(Blank(hints, host.bytes, host.family).(clone := clone), port, socktype)
    ensures IsFor(n, host, hints.protocol, socktype, port)
  {
  }

  lemma BlankIsFor(n: AddrInfo, hints: Hints, host: Host)
    requires n.View() == Blank(hints, host.bytes, host.family)
    ensures IsFor(n, host, hints.protocol, hints.socktype, 0)
  {
  }

  lemma UnservedEntries(nodes: seq<AddrInfo>, hints: Hints, hosts: seq<Host>)
    requires Views(nodes) == Blanks(hints, hosts)
    ensures OneEach(nodes, hosts, hints.protocol, hints.socktype, 0)
  {
    hide Blank, IsFor;
    forall i | 0 <= i < |hosts|
      ensures IsFor(nodes[i], hosts[i], hints.protocol, hints.socktype, 0)
    {
      assert Views(nodes)[i] == nodes[i].View();
      BlankIsFor(nodes[i], hints, hosts[i]);
    }
  }

  lemma OnceServedEntries(nodes: seq<AddrInfo>, hints: Hints, hosts: seq<Host>, p: Pass)
    requires Views(nodes) == Expand(Blanks(hints, hosts), [p])
    ensures OneEach(nodes, hosts, hints.protocol, p.socktype, p.port)
  {
    hide Blank, IsFor, Ported, Expand;
    ExpandedOnce(Blanks(hints, hosts), p);
    forall i | 0 <= i < |hosts|
      ensures IsFor(nodes[i], hosts[i], hints.protocol, p.socktype, p.port)
    {
      assert Views(nodes)[i] == nodes[i].View();
      EntryIsFor(nodes[i], hints, hosts[i], p.socktype, p.port, Blanks(hints, hosts)[i].clone);
    }
  }

  lemma TwiceServedEntries(nodes: seq<AddrInfo>, hints: Hints, hosts: seq<Host>, tcp: int, udp: int)
    requires Views(nodes) == Expand(Blanks(hints, hosts), [Pass(tcp, SOCK_STREAM), Pass(udp, SOCK_DGRAM)])
    ensures TwoEach(nodes, hosts, hints.protocol, tcp, udp)
  {
    hide Blank, IsFor, Ported, Expand;
    ExpandedTwice(Blanks(hints, hosts), Pass(tcp, SOCK_STREAM), Pass(udp, SOCK_DGRAM));
    forall i | 0 <= i < |hosts|
      ensures IsFor(nodes[2 * i], hosts[i], hints.protocol, 1, tcp)
      ensures IsFor(nodes[2 * i + 1], hosts[i], hints.protocol, 2, udp)
    {
      assert Views(nodes)[2 * i] == nodes[2 * i].View() && Views(nodes)[2 * i + 1] == nodes[2 * i + 1].View();
      EntryIsFor(nodes[2 * i], hints, hosts[i], 1, tcp, Blanks(hints, hosts)[i].clone);
      EntryIsFor(nodes[2 * i + 1], hints, hosts[i], 2, udp, false);
    }
  }

  /** Which entries each request leaves: a numeric service goes to the socket type asked for, or to
      both; of a named one, each protocol found and asked for goes to its own socket type. */
  ghost predicate ServedPlainly(nodes: seq<AddrInfo>, hints: Hints, hosts: seq<Host>, service: Option<Service>)
    reads nodes, Blocks(nodes)
  {
    match service
    case None => OneEach(nodes, hosts, hints.protocol, hints.socktype, 0)
    case Some(Numeric(port)) =>
      if hints.socktype == 0 then TwoEach(nodes, hosts, hints.protocol, port, port)
      else OneEach(nodes, hosts, hints.protocol, hints.socktype, port)
    case Some(Named(tcp, udp)) =>
      if hints.socktype == 0 && tcp.Some? && udp.Some? then
        TwoEach(nodes, hosts, hints.protocol, tcp.value, udp.value)
      else if (hints.socktype == 0 || hints.socktype == 1) && tcp.Some? then
        OneEach(nodes, hosts, hints.protocol, 1, tcp.value)
      else if (hints.socktype == 0 || hints.socktype == 2) && udp.Some? then
        OneEach(nodes, hosts, hints.protocol, 2, udp.value)
      else
        OneEach(nodes, hosts, hints.protocol, hints.socktype, 0)
  }

  /** The loopback address and port 80 for any socket type: a stream entry, then a datagram one. */
  lemma LoopbackExample(nodes: seq<AddrInfo>)
    requires ServedPlainly(nodes, Hints(0, 6), [Host([127, 0, 0, 1], Inet)], Some(Numeric(80)))
    ensures |nodes| == 2 && nodes[0].socktype == 1 && nodes[1].socktype == 2
    ensures forall n :: n in nodes ==>
              n.protocol == 6 && n.addr != null && n.addr.bytes == [127, 0, 0, 1] && n.addr.port == 80
  {
    assert IsFor(nodes[2 * 0], Host([127, 0, 0, 1], Inet), 6, 1, 80);
    assert IsFor(nodes[2 * 0 + 1], Host([127, 0, 0, 1], Inet), 6, 2, 80);
  }

  lemma PassesServe(nodes: seq<AddrInfo>, hints: Hints, hosts: seq<Host>, service: Service)
    requires Views(nodes) == Expand(Blanks(hints, hosts), Passes(hints.socktype, service))
    ensures ServedPlainly(nodes, hints, hosts, Some(service))
  {
    hide Blanks, Expand, OneEach, TwoEach, Views;
    var passes := Passes(hints.socktype, service);
    if |passes| == 0 {
      NoPass(Blanks(hints, hosts));
      UnservedEntries(nodes, hints, hosts);
    } else if |passes| == 1 {
      assert passes == [passes[0]];
      OnceServedEntries(nodes, hints, hosts, passes[0]);
    } else {
      assert passes == [passes[0], passes[1]];
      TwiceServedEntries(nodes, hints, hosts, passes[0].port, passes[1].port);
    }
  }

  /** The list for the resolved addresses, then the service if one was asked for: the parts of
      getaddrinfo_emulation that touch the list. With an error the list is only there to be freed. */
  method BuildAndServe(hints: Hints, hosts: seq<Host>, service: Option<Service>)
    returns (rc: ReturnCode, aihead: AddrInfo?, ghost result: seq<AddrInfo>)
    ensures Linked(result) && aihead == First(result, null)
    ensures Views(result) == if service.None? then Blanks(hints, hosts)
                             else Expand(Blanks(hints, hosts), Passes(hints.socktype, service.value))
    ensures ServedPlainly(result, hints, hosts, service)
    ensures rc.Done? <==>
              if service.None? then hosts != []
              else
                && (exists h :: h in hosts && (h.family == Inet || h.family == Inet6))
                && match service.value
                   case Numeric(_) => true
                   case Named(tcp, udp) =>
                     || (tcp.Some? && (hints.socktype == 0 || hints.socktype == 1))
                     || (udp.Some? && (hints.socktype == 0 || hints.socktype == 2))
    ensures !rc.Done? ==>
              rc == if hosts == [] || hints.socktype == ANY_SOCKTYPE then EaiNoName else EaiService
  {
    hide Linked, RunPasses, RunHits, Passes, Blank, IsFor;
    var builder := Build(hints, hosts);
    aihead, result := builder.head, builder.nodes;
    if aihead == null {
      assert hosts == [];
      return EaiNoName, aihead, result;
    }
    if service.Some? {
      BuiltAndServed(hints, hosts, service.value);
      SomePass(hints.socktype, service.value);
      rc, result := GaiServ(aihead, hints, service.value, result);
      PassesServe(result, hints, hosts, service.value);
      return;
    }
    UnservedEntries(result, hints, hosts);
    return Done, aihead, result;
  }
}
