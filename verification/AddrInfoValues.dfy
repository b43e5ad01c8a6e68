/** The getaddrinfo emulation's address list by value: entries, the passes of gai_port over them, and
    what a freshly built list becomes. */
module AddrInfoValues {
  import opened Types

  datatype Family = Inet | Inet6 | OtherFamily(code: int)

  const ANY_SOCKTYPE := 0
  const SOCK_STREAM := 1
  const SOCK_DGRAM := 2

  datatype Hints = Hints(socktype: int, protocol: int)

  /** An address block by value. */
  datatype Addr = NoAddr | Addr(family: Family, bytes: seq<ui8>, port: ui16)

  /** A list entry by value; `clone` is the gai_clone_flag bit. */
  datatype Entry = Entry(clone: bool, family: Family, socktype: int, protocol: int, addr: Addr)

  predicate IsInternet(f: Family) {
    f == Inet || f == Inet6
  }

  // ----- one pass of gai_port, by value

  function Ported(e: Entry, port: int, socktype: int): Entry {
    e.(socktype := socktype,
       addr := if IsInternet(e.family) && e.addr.Addr? then e.addr.(port := port % 0x1_0000) else e.addr)
  }

  function PortStep(e: Entry, port: int, socktype: int): seq<Entry> {
    if e.clone && e.socktype != ANY_SOCKTYPE then [e, Ported(e.(clone := false), port, socktype)]
    else if !e.clone && e.socktype != socktype then [e]
    else [Ported(e, port, socktype)]
  }

  function PortHits(e: Entry, socktype: int): nat {
    if IsInternet(e.family) && (e.clone || e.socktype == socktype) then 1 else 0
  }

  function PortPass(s: seq<Entry>, port: int, socktype: int): seq<Entry> {
    if s == [] then []
    else PortPass(s[..|s| - 1], port, socktype) + PortStep(s[|s| - 1], port, socktype)
  }

  function PassHits(s: seq<Entry>, socktype: int): nat {
    if s == [] then 0 else PassHits(s[..|s| - 1], socktype) + PortHits(s[|s| - 1], socktype)
  }

  lemma PassStart(s: seq<Entry>, port: int, socktype: int)
    ensures PortPass(s[..0], port, socktype) == [] && PassHits(s[..0], socktype) == 0
  {
  }

  lemma PassNext(s: seq<Entry>, k: nat, port: int, socktype: int)
    requires k < |s|
    ensures PortPass(s[..k + 1], port, socktype) == PortPass(s[..k], port, socktype) + PortStep(s[k], port, socktype)
    ensures PassHits(s[..k + 1], socktype) == PassHits(s[..k], socktype) + PortHits(s[k], socktype)
  {
    assert s[..k + 1][..k] == s[..k];
  }

  // ----- built entries and the services asked for

  /** A new entry: marked for cloning when the caller named no socket type. */
  function Blank(hints: Hints, bytes: seq<ui8>, family: Family): Entry {
    Entry(hints.socktype == ANY_SOCKTYPE, family, hints.socktype, hints.protocol,
          if IsInternet(family) then Addr(family, bytes, 0) else NoAddr)
  }

  /** A service by number (network byte order), or what the service database has under its name. */
  datatype Service = Numeric(port: int) | Named(tcp: Option<int>, udp: Option<int>)

  datatype ReturnCode = Done | EaiNoName | EaiService

  datatype Pass = Pass(port: int, socktype: int)

  /** The passes gai_serv makes over the list, in order. */
  function Passes(socktype: int, service: Service): seq<Pass> {
    match service
    case Numeric(port) =>
      if socktype != ANY_SOCKTYPE then [Pass(port, socktype)]
      else [Pass(port, SOCK_STREAM), Pass(port, SOCK_DGRAM)]
    case Named(tcp, udp) =>
      (if socktype in {ANY_SOCKTYPE, SOCK_STREAM} && tcp.Some? then [Pass(tcp.value, SOCK_STREAM)] else [])
      + (if socktype in {ANY_SOCKTYPE, SOCK_DGRAM} && udp.Some? then [Pass(udp.value, SOCK_DGRAM)] else [])
  }

  function RunPasses(s: seq<Entry>, passes: seq<Pass>): seq<Entry>
    decreases |passes|
  {
    if passes == [] then s
    else RunPasses(PortPass(s, passes[0].port, passes[0].socktype), passes[1..])
  }

  function RunHits(s: seq<Entry>, passes: seq<Pass>): nat
    decreases |passes|
  {
    if passes == [] then 0
    else PassHits(s, passes[0].socktype) + RunHits(PortPass(s, passes[0].port, passes[0].socktype), passes[1..])
  }

  lemma RunNone(s: seq<Entry>)
    ensures RunPasses(s, []) == s && RunHits(s, []) == 0
  {
  }

  lemma RunOne(s: seq<Entry>, p: Pass)
    ensures RunPasses(s, [p]) == PortPass(s, p.port, p.socktype) && RunHits(s, [p]) == PassHits(s, p.socktype)
  {
  }

  lemma RunTwo(s: seq<Entry>, p: Pass, q: Pass)
    ensures var once := PortPass(s, p.port, p.socktype);
            && RunPasses(s, [p, q]) == PortPass(once, q.port, q.socktype)
            && RunHits(s, [p, q]) == PassHits(s, p.socktype) + PassHits(once, q.socktype)
  {
    assert [p, q][1..] == [q];
    RunOne(PortPass(s, p.port, p.socktype), q);
  }

  // ----- what gai_serv makes of a freshly built list

  /** What stands for one built entry after the passes: itself, carrying the first service, and a
      copy that is no longer marked for cloning carrying the second. */
  function ServiceEntries(e: Entry, passes: seq<Pass>): seq<Entry> {
    if passes == [] then [e]
    else
      [Ported(e, passes[0].port, passes[0].socktype)]
      + if |passes| == 1 then [] else [Ported(e.(clone := false), passes[1].port, passes[1].socktype)]
  }

  function Expand(s: seq<Entry>, passes: seq<Pass>): seq<Entry> {
    if s == [] then [] else Expand(s[..|s| - 1], passes) + ServiceEntries(s[|s| - 1], passes)
  }

  function InternetCount(s: seq<Entry>): nat {
    if s == [] then 0 else InternetCount(s[..|s| - 1]) + if IsInternet(s[|s| - 1].family) then 1 else 0
  }

  /** Entries as gai_aistruct makes them for a socket type. */
  ghost predicate BuiltFor(s: seq<Entry>, socktype: int) {
    forall e :: e in s ==> (e.clone <==> socktype == ANY_SOCKTYPE) && e.socktype == socktype
  }

  /** One resolved address: its bytes and family. */
  datatype Host = Host(bytes: seq<ui8>, family: Family)

  /** The list as built from the resolved addresses. */
  function Blanks(hints: Hints, hosts: seq<Host>): seq<Entry> {
    seq(|hosts|, i requires 0 <= i < |hosts| => Blank(hints, hosts[i].bytes, hosts[i].family))
  }

  lemma BlanksAreBuilt(hints: Hints, hosts: seq<Host>)
    ensures BuiltFor(Blanks(hints, hosts), hints.socktype)
  {
  }

  /** A pass over entries that are all marked and already typed clones every one of them; over
      entries that are unmarked and of the right type, or marked and untyped, it clones none. */
  lemma {:induction false} PassOverBuilt(s: seq<Entry>, socktype: int, p: Pass)
    requires BuiltFor(s, socktype) && socktype in {ANY_SOCKTYPE, p.socktype}
    ensures PortPass(s, p.port, p.socktype) == Expand(s, [p]) && PassHits(s, p.socktype) == InternetCount(s)
  {
    if s != [] {
      PassOverBuilt(s[..|s| - 1], socktype, p);
      assert s[|s| - 1] in s;
    }
  }

  lemma ExpandStep(s: seq<Entry>, passes: seq<Pass>)
    ensures s == [] ==> Expand(s, passes) == []
    ensures s != [] ==>
              Expand(s, passes) == Expand(s[..|s| - 1], passes) + ServiceEntries(s[|s| - 1], passes)
  {
  }

  lemma OneService(e: Entry, p: Pass)
    ensures ServiceEntries(e, [p]) == [Ported(e, p.port, p.socktype)]
  {
  }

  lemma TwoServices(e: Entry, p: Pass, q: Pass)
    ensures ServiceEntries(e, [p, q]) ==
              [Ported(e, p.port, p.socktype), Ported(e.(clone := false), q.port, q.socktype)]
  {
  }

  /** A pass over what the pass before it left. */
  lemma PassAppend(s: seq<Entry>, e: Entry, port: int, socktype: int)
    ensures PortPass(s + [e], port, socktype) == PortPass(s, port, socktype) + PortStep(e, port, socktype)
    ensures PassHits(s + [e], socktype) == PassHits(s, socktype) + PortHits(e, socktype)
  {
    assert (s + [e])[..|s|] == s;
  }

  lemma {:induction false} SecondPassOverBuilt(s: seq<Entry>, p: Pass, q: Pass)
    requires BuiltFor(s, ANY_SOCKTYPE) && p.socktype != ANY_SOCKTYPE
    ensures PortPass(Expand(s, [p]), q.port, q.socktype) == Expand(s, [p, q])
    ensures PassHits(Expand(s, [p]), q.socktype) == InternetCount(s)
  {
    hide Expand, ServiceEntries;
    ExpandStep(s, [p]);
    ExpandStep(s, [p, q]);
    if s != [] {
      var n := |s| - 1;
      SecondPassOverBuilt(s[..n], p, q);
      assert s[n] in s;
      OneService(s[n], p);
      TwoServices(s[n], p, q);
      PassAppend(Expand(s[..n], [p]), Ported(s[n], p.port, p.socktype), q.port, q.socktype);
      hide PortPass, PassHits;
    }
  }

  lemma {:induction false} ExpandedOnce(s: seq<Entry>, p: Pass)
    ensures |Expand(s, [p])| == |s|
    ensures forall i :: 0 <= i < |s| ==> Expand(s, [p])[i] == Ported(s[i], p.port, p.socktype)
  {
    hide Ported, Expand, ServiceEntries;
    ExpandStep(s, [p]);
    if s != [] {
      OneService(s[|s| - 1], p);
      ExpandedOnce(s[..|s| - 1], p);
    }
  }

  lemma {:induction false} ExpandedTwice(s: seq<Entry>, p: Pass, q: Pass)
    ensures |Expand(s, [p, q])| == 2 * |s|
    ensures forall i :: 0 <= i < |s| ==>
              && Expand(s, [p, q])[2 * i] == Ported(s[i], p.port, p.socktype)
              && Expand(s, [p, q])[2 * i + 1] == Ported(s[i].(clone := false), q.port, q.socktype)
  {
    hide Ported, Expand, ServiceEntries;
    ExpandStep(s, [p, q]);
    if s != [] {
      TwoServices(s[|s| - 1], p, q);
      ExpandedTwice(s[..|s| - 1], p, q);
    }
  }

  lemma {:induction false} NoPass(s: seq<Entry>)
    ensures Expand(s, []) == s
  {
    if s != [] {
      var n := |s| - 1;
      NoPass(s[..n]);
      assert ServiceEntries(s[n], []) == [s[n]];
      assert s[..n] + [s[n]] == s;
    }
  }

  /** gai_serv on a freshly built list: every original in place, in order, replaced by one entry per
      service found, stream before datagram; each Internet entry counted once per service. */
  lemma ServedList(s: seq<Entry>, socktype: int, service: Service)
    requires BuiltFor(s, socktype)
    ensures RunPasses(s, Passes(socktype, service)) == Expand(s, Passes(socktype, service))
    ensures RunHits(s, Passes(socktype, service)) == |Passes(socktype, service)| * InternetCount(s)
  {
    var passes := Passes(socktype, service);
    if |passes| == 0 {
      NoPass(s);
    } else if |passes| == 1 {
      var p := passes[0];
      assert passes == [p];
      RunOne(s, p);
      PassOverBuilt(s, socktype, p);
    } else {
      var p, q := passes[0], passes[1];
      assert passes == [p, q];
      RunTwo(s, p, q);
      PassOverBuilt(s, socktype, p);
      SecondPassOverBuilt(s, p, q);
    }
  }

  lemma {:induction false} InternetCountJoin(s: seq<Entry>, t: seq<Entry>)
    ensures InternetCount(s + t) == InternetCount(s) + InternetCount(t)
  {
    if t == [] {
      assert s + t == s;
    } else {
      var n := |t| - 1;
      InternetCountJoin(s, t[..n]);
      assert (s + t)[..|s| + n] == s + t[..n];
    }
  }

  lemma CountOfOne(e: Entry, passes: seq<Pass>)
    requires 1 <= |passes| <= 2
    ensures |ServiceEntries(e, passes)| == |passes|
    ensures InternetCount(ServiceEntries(e, passes)) == if IsInternet(e.family) then |passes| else 0
  {
    var made := ServiceEntries(e, passes);
    assert InternetCount(made[..1]) == if IsInternet(e.family) then 1 else 0;
    assert made[..|made|] == made;
  }

  lemma {:induction false} CountExpanded(s: seq<Entry>, passes: seq<Pass>)
    requires 1 <= |passes| <= 2
    ensures InternetCount(Expand(s, passes)) == if |passes| == 1 then InternetCount(s) else 2 * InternetCount(s)
    ensures |Expand(s, passes)| == if |passes| == 1 then |s| else 2 * |s|
  {
    if s != [] {
      hide ServiceEntries;
      var n := |s| - 1;
      CountExpanded(s[..n], passes);
      CountOfOne(s[n], passes);
      InternetCountJoin(Expand(s[..n], passes), ServiceEntries(s[n], passes));
    }
  }

  /** Once any service is found, the count gai_serv keeps is the number of Internet entries it
      leaves; it is the number of all entries exactly when every original is an Internet one. */
  lemma CountIsEntries(s: seq<Entry>, socktype: int, service: Service)
    requires BuiltFor(s, socktype) && Passes(socktype, service) != []
    ensures var result, count := RunPasses(s, Passes(socktype, service)), RunHits(s, Passes(socktype, service));
            && count == InternetCount(result)
            && (count == |result| <==> forall e :: e in s ==> IsInternet(e.family))
  {
    hide Expand, RunPasses, RunHits, InternetCount;
    ServedList(s, socktype, service);
    CountExpanded(s, Passes(socktype, service));
    assert |Passes(socktype, service)| == 1 || |Passes(socktype, service)| == 2;
    AllCountedIff(s);
  }

  lemma {:induction false} AllCountedIff(s: seq<Entry>)
    ensures InternetCount(s) <= |s|
    ensures InternetCount(s) == |s| <==> forall e :: e in s ==> IsInternet(e.family)
  {
    if s != [] {
      var n := |s| - 1;
      AllCountedIff(s[..n]);
      assert s == s[..n] + [s[n]];
    }
  }

  lemma {:induction false} SomeCounted(s: seq<Entry>)
    ensures InternetCount(s) > 0 <==> exists e :: e in s && IsInternet(e.family)
  {
    if s != [] {
      var n := |s| - 1;
      SomeCounted(s[..n]);
      assert s == s[..n] + [s[n]];
    }
  }

  lemma SomeInternet(hints: Hints, hosts: seq<Host>)
    ensures InternetCount(Blanks(hints, hosts)) > 0 <==> exists h :: h in hosts && IsInternet(h.family)
  {
    var s := Blanks(hints, hosts);
    SomeCounted(s);
    assert forall i :: 0 <= i < |hosts| ==> s[i] in s && hosts[i] in hosts && s[i].family == hosts[i].family;
  }

  lemma SomePass(socktype: int, service: Service)
    ensures Passes(socktype, service) != [] <==>
              match service
              case Numeric(_) => true
              case Named(tcp, udp) =>
                || (tcp.Some? && (socktype == 0 || socktype == 1))
                || (udp.Some? && (socktype == 0 || socktype == 2))
  {
  }

  /** The list built for resolved addresses, served: found iff some service is and some address is
      an Internet one. */
  lemma BuiltAndServed(hints: Hints, hosts: seq<Host>, service: Service)
    ensures var s, passes := Blanks(hints, hosts), Passes(hints.socktype, service);
            && RunPasses(s, passes) == Expand(s, passes)
            && (RunHits(s, passes) > 0 <==> passes != [] && exists h :: h in hosts && IsInternet(h.family))
  {
    hide RunPasses, RunHits, InternetCount, Passes, Expand;
    BlanksAreBuilt(hints, hosts);
    ServedList(Blanks(hints, hosts), hints.socktype, service);
    SomeInternet(hints, hosts);
  }
}
