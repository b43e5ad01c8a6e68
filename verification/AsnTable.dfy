/** The table of autonomous-system address ranges: its per-system chains and its bucket index. */
module AsnTable {
  import opened Types

  const ASN_ENTRIES_MAX_NUM := 200000
  const BUCKETS := 1024
  const BUCKET_SIZE := 0x40_0000

  /** `next` is the index of the next record of the same system, NIL for the null pointer. */
  datatype AsnInfo = AsnInfo(endIp: ui32, startIp: ui32, asn: ui32, next: int)

  const NIL := -1

  /** One line of the table file. */
  datatype Row = Row(startIp: ui32, endIp: ui32, asn: ui32)

  /** The positions of the rows of system `asn`. */
  ghost function Positions(rows: seq<Row>, asn: ui32): seq<int> {
    if rows == [] then []
    else
      var n := |rows| - 1;
      Positions(rows[..n], asn) + if rows[n].asn == asn then [n] else []
  }

  /** They are listed in increasing order, none missing and none foreign: the chains of all
      systems partition the table. */
  lemma {:induction false} PositionsExact(rows: seq<Row>, asn: ui32)
    ensures var p := Positions(rows, asn);
            && (forall i :: i in p <==> 0 <= i < |rows| && rows[i].asn == asn)
            && (forall i, j :: 0 <= i < j < |p| ==> p[i] < p[j])
  {
    if rows != [] {
      var n := |rows| - 1;
      var q := Positions(rows[..n], asn);
      PositionsExact(rows[..n], asn);
      assert forall i :: 0 <= i < |q| ==> q[i] in q;
    }
  }

  /** Following `next` from `at` visits exactly `chain` and stops. */
  ghost predicate Follows(infos: seq<AsnInfo>, at: int, chain: seq<int>) {
    && at == (if chain == [] then NIL else chain[0])
    && (forall i :: 0 <= i < |chain| ==> 0 <= chain[i] < |infos|)
    && forall i :: 0 <= i < |chain| ==>
         infos[chain[i]].next == if i + 1 < |chain| then chain[i + 1] else NIL
  }

  function Head(heads: map<ui32, int>, asn: ui32): int {
    if asn in heads then heads[asn] else NIL
  }

  ghost predicate Stored(infos: seq<AsnInfo>, rows: seq<Row>) {
    && |infos| == |rows|
    && forall i :: 0 <= i < |rows| ==>
         infos[i].startIp == rows[i].startIp && infos[i].endIp == rows[i].endIp && infos[i].asn == rows[i].asn
  }

  /** The records hold `rows`, and the chain of every system lists its positions. */
  ghost predicate Chained(infos: seq<AsnInfo>, heads: map<ui32, int>, rows: seq<Row>) {
    && Stored(infos, rows)
    && (forall asn: ui32 :: asn in heads ==> heads[asn] >= 0)
    && forall asn: ui32 :: Follows(infos, Head(heads, asn), Positions(rows, asn))
  }

  /** The records after linking a new last one behind `tail` (NIL: nowhere). */
  ghost function Linked(infos: seq<AsnInfo>, tail: int, row: Row): seq<AsnInfo>
    requires NIL <= tail < |infos|
  {
    var before := if tail == NIL then infos else infos[tail := infos[tail].(next := |infos|)];
    before + [AsnInfo(row.endIp, row.startIp, row.asn, NIL)]
  }

  lemma ChainGrows(infos: seq<AsnInfo>, at: int, chain: seq<int>, tail: int, row: Row)
    requires Follows(infos, at, chain) && (forall i, j :: 0 <= i < j < |chain| ==> chain[i] < chain[j])
    requires tail == (if chain == [] then NIL else chain[|chain| - 1]) && NIL <= tail < |infos|
    ensures Follows(Linked(infos, tail, row), if tail == NIL then |infos| else at, chain + [|infos|])
  {
  }

  lemma ChainStays(infos: seq<AsnInfo>, at: int, chain: seq<int>, tail: int, row: Row)
    requires Follows(infos, at, chain) && NIL <= tail < |infos|
    requires forall i :: 0 <= i < |chain| ==> chain[i] != tail
    ensures Follows(Linked(infos, tail, row), at, chain)
  {
  }

  lemma PositionsAppend(rows: seq<Row>, row: Row, asn: ui32)
    ensures Positions(rows + [row], asn) == Positions(rows, asn) + if row.asn == asn then [|rows|] else []
  {
  }

  lemma LinkKeepsChain(infos: seq<AsnInfo>, at: int, rows: seq<Row>, row: Row, tail: int, asn: ui32)
    requires Follows(infos, at, Positions(rows, asn)) && |infos| == |rows|
    requires var p := Positions(rows, row.asn); tail == if p == [] then NIL else p[|p| - 1]
    requires NIL <= tail < |infos|
    ensures Follows(Linked(infos, tail, row), if asn == row.asn && tail == NIL then |rows| else at,
                    Positions(rows + [row], asn))
  {
    hide Follows, Linked;
    var p, own := Positions(rows, asn), Positions(rows, row.asn);
    PositionsAppend(rows, row, asn);
    PositionsExact(rows, asn);
    if asn == row.asn {
      ChainGrows(infos, at, p, tail, row);
    } else {
      PositionsExact(rows, row.asn);
      assert tail != NIL ==> tail in own;
      assert forall i :: 0 <= i < |p| ==> p[i] in p;
      ChainStays(infos, at, p, tail, row);
      assert p + [] == p;
    }
  }

  lemma LinkKeepsChains(infos: seq<AsnInfo>, heads: map<ui32, int>, rows: seq<Row>, row: Row, tail: int)
    requires Chained(infos, heads, rows)
    requires var p := Positions(rows, row.asn); tail == if p == [] then NIL else p[|p| - 1]
    requires NIL <= tail < |infos|
    ensures Chained(Linked(infos, tail, row),
                    if tail == NIL then heads[row.asn := |rows|] else heads, rows + [row])
  {
    hide Follows, Positions, Linked, Stored;
    var heads' := if tail == NIL then heads[row.asn := |rows|] else heads;
    ChainOfSystem(infos, heads, rows, row.asn);
    forall asn: ui32
      ensures Follows(Linked(infos, tail, row), Head(heads', asn), Positions(rows + [row], asn))
    {
      LinkKeepsChain(infos, Head(heads, asn), rows, row, tail, asn);
    }
    LinkStores(infos, rows, row, tail);
  }

  lemma LinkStores(infos: seq<AsnInfo>, rows: seq<Row>, row: Row, tail: int)
    requires Stored(infos, rows) && NIL <= tail < |infos|
    ensures Stored(Linked(infos, tail, row), rows + [row])
  {
  }

  lemma NextInChain(infos: seq<AsnInfo>, at: int, chain: seq<int>, i: int)
    requires Follows(infos, at, chain) && 0 <= i < |chain|
    ensures 0 <= chain[i] < |infos|
    ensures infos[chain[i]].next == if i + 1 < |chain| then chain[i + 1] else NIL
    ensures i + 1 < |chain| ==> 0 <= chain[i + 1]
  {
  }

  lemma ChainOfSystem(infos: seq<AsnInfo>, heads: map<ui32, int>, rows: seq<Row>, asn: ui32)
    requires Chained(infos, heads, rows)
    ensures |infos| == |rows|
    ensures var p := Positions(rows, asn);
            && Follows(infos, Head(heads, asn), p)
            && (p == [] <==> asn !in heads)
            && (p != [] ==> heads[asn] == p[0] && 0 <= p[|p| - 1] < |infos|)
  {
  }

  /** A scan for `ip` from `from` stops at `k`: the first entry that does not end below `ip`. */
  ghost predicate StopsAt(infos: seq<AsnInfo>, ip: int, from: int, k: int) {
    && 0 <= from <= k <= |infos|
    && (forall i :: from <= i < k ==> infos[i].endIp < ip)
    && (k < |infos| ==> ip <= infos[k].endIp)
  }

  /** The answer of a plain scan of the whole table. Note the exhausted case: 0, not -1. */
  ghost predicate ScanAnswer(infos: seq<AsnInfo>, ip: ui32, r: int) {
    exists k :: StopsAt(infos, ip, 0, k) &&
                r == if k == |infos| then 0 else if infos[k].startIp <= ip then k else -1
  }

  class Table {
    const asnInfo: array<AsnInfo>
    var asnInfoLength: nat
    const ip2infoIndex: array<nat>
    var asn2info: map<ui32, int>

    constructor ()
      ensures fresh(asnInfo) && fresh(ip2infoIndex) && Shape()
      ensures asnInfoLength == 0 && asn2info == map[]
    {
      asnInfo := new AsnInfo[ASN_ENTRIES_MAX_NUM](_ => AsnInfo(0, 0, 0, NIL));
      ip2infoIndex := new nat[BUCKETS](_ => 0);
      asnInfoLength := 0;
      asn2info := map[];
    }

    ghost predicate Shape()
      reads this
    {
      && asnInfo.Length == ASN_ENTRIES_MAX_NUM && ip2infoIndex.Length == BUCKETS
      && asnInfoLength <= ASN_ENTRIES_MAX_NUM
    }

    ghost function Infos(): seq<AsnInfo>
      requires Shape()
      reads this, asnInfo
    {
      asnInfo[..asnInfoLength]
    }

    /** Every bucket starts where a scan for its first address would stop. */
    ghost predicate Indexed()
      requires Shape()
      reads this, asnInfo, ip2infoIndex
    {
      forall j :: 0 <= j < BUCKETS ==> StopsAt(Infos(), j * BUCKET_SIZE, 0, ip2infoIndex[j])
    }

    /** Stores row `i` and links it behind the last record of its system, found by walking the chain. */
    method AddRow(i: nat, row: Row, ghost rows: seq<Row>)
      requires Shape() && i == |rows| < ASN_ENTRIES_MAX_NUM
      requires Chained(asnInfo[..i], asn2info, rows)
      modifies this`asn2info, asnInfo
      ensures Chained(asnInfo[..i + 1], asn2info, rows + [row])
    {
      hide Chained, Positions, Follows;
      ghost var infos, p, first := asnInfo[..i], Positions(rows, row.asn), Head(asn2info, row.asn);
      ghost var tail := if p == [] then NIL else p[|p| - 1];
      ChainOfSystem(infos, asn2info, rows, row.asn);
      LinkKeepsChains(infos, asn2info, rows, row, tail);
      asnInfo[i] := AsnInfo(row.endIp, row.startIp, row.asn, NIL);
      if row.asn !in asn2info {
        asn2info := asn2info[row.asn := i];
        assert asnInfo[..i + 1] == Linked(infos, tail, row);
      } else {
        var current := asn2info[row.asn];
        ghost var at := 0;
        while asnInfo[current].next != NIL
          invariant 0 <= at < |p| && current == p[at] && 0 <= current < i
          modifies {}
          decreases |p| - at
        {
          NextInChain(infos, first, p, at);
          assert asnInfo[current] == infos[p[at]];
          current := asnInfo[current].next;
          at := at + 1;
        }
        NextInChain(infos, first, p, at);
        assert asnInfo[current] == infos[p[at]];
        asnInfo[current] := asnInfo[current].(next := i);
        assert current == tail;
        assert asnInfo[..i + 1] == Linked(infos, tail, row);
      }
    }

    method ReadIpAsnBase(rows: seq<Row>)
      requires Shape() && asn2info == map[] && |rows| <= 200000
      modifies this, asnInfo
      ensures Shape() && asnInfoLength == |rows|
      ensures Chained(Infos(), asn2info, rows)
    {
      var i := 0;
      while i < |rows|
        invariant 0 <= i <= |rows| && Shape()
        invariant Chained(asnInfo[..i], asn2info, rows[..i])
      {
        AddRow(i, rows[i], rows[..i]);
        assert rows[..i + 1] == rows[..i] + [rows[i]];
        i := i + 1;
      }
      assert rows[..i] == rows;
      asnInfoLength := i;
    }

    method BuildIndex()
      requires Shape()
      modifies ip2infoIndex
      ensures Indexed()
      ensures forall j :: 0 <= j < 1024 ==> StopsAt(Infos(), j * 0x40_0000, 0, ip2infoIndex[j])
    {
      var k := 0;
      for j := 0 to BUCKETS
        invariant 0 <= k <= asnInfoLength
        invariant forall i :: 0 <= i < k ==> asnInfo[i].endIp < j * BUCKET_SIZE
        invariant forall m :: 0 <= m < j ==> StopsAt(Infos(), m * BUCKET_SIZE, 0, ip2infoIndex[m])
      {
        var ip := j * BUCKET_SIZE;
        while k < asnInfoLength && asnInfo[k].endIp < ip
          invariant 0 <= k <= asnInfoLength
          invariant forall i :: 0 <= i < k ==> asnInfo[i].endIp < ip
        {
          k := k + 1;
        }
        ip2infoIndex[j] := k;
      }
    }

    /** The table holds the rows in their order, and every bucket its start. */
    ghost predicate Loaded(rows: seq<Row>)
      reads this, asnInfo, ip2infoIndex
    {
      && Shape() && Indexed() && asnInfoLength == |rows|
      && forall i :: 0 <= i < |rows| ==>
           && asnInfo[i].startIp == rows[i].startIp && asnInfo[i].endIp == rows[i].endIp
           && asnInfo[i].asn == rows[i].asn
    }

    method Init(rows: seq<Row>)
      requires Shape() && asn2info == map[] && |rows| <= 200000
      modifies this, asnInfo, ip2infoIndex
      ensures Loaded(rows) && Chained(Infos(), asn2info, rows)
    {
      ReadIpAsnBase(rows);
      BuildIndex();
    }

    /** Once rows with sorted disjoint ranges are loaded, an address no higher than the last range is
        answered with the row that contains it, or -1; any higher one with 0. */
    lemma AnswerFromRows(rows: seq<Row>, ip: ui32, r: int)
      requires Loaded(rows) && ScanAnswer(Infos(), ip, r)
      requires forall i :: 0 <= i < |rows| ==> rows[i].startIp <= rows[i].endIp
      requires forall i, j :: 0 <= i < j < |rows| ==> rows[i].endIp < rows[j].startIp
      ensures (forall i :: 0 <= i < |rows| ==> rows[i].endIp < ip) ==> r == 0
      ensures rows != [] && ip <= rows[|rows| - 1].endIp ==>
                && (forall i :: 0 <= i < |rows| ==> (r == i <==> rows[i].startIp <= ip <= rows[i].endIp))
                && (r == -1 <==> forall i :: 0 <= i < |rows| ==> !(rows[i].startIp <= ip <= rows[i].endIp))
    {
      var infos := Infos();
      forall i | 0 <= i < |rows|
        ensures Contains(infos, i, ip) <==> rows[i].startIp <= ip <= rows[i].endIp
      {
      }
      if rows != [] && ip <= rows[|rows| - 1].endIp {
        AnswerIsDocumentedIff(infos, ip, r);
      }
    }

    method GetAsnInfo(ip: ui32) returns (r: int)
      requires Shape() && Indexed()
      ensures ScanAnswer(Infos(), ip, r)
      ensures (forall i :: 0 <= i < asnInfoLength ==> asnInfo[i].endIp < ip) ==> r == 0
      ensures forall k ::
                0 <= k < asnInfoLength && (forall i :: 0 <= i < k ==> asnInfo[i].endIp < ip) && ip <= asnInfo[k].endIp
                ==> r == if asnInfo[k].startIp <= ip then k else -1
    {
      var key := ip / BUCKET_SIZE;
      var index := ip2infoIndex[key];
      ghost var start := index;
      assert StopsAt(Infos(), key * BUCKET_SIZE, 0, start);
      while index < asnInfoLength
        invariant start <= index <= asnInfoLength
        invariant forall i :: 0 <= i < index ==> Infos()[i].endIp < ip
      {
        if ip <= asnInfo[index].endIp {
          assert StopsAt(Infos(), ip, 0, index);
          if ip >= asnInfo[index].startIp {
            return index;
          } else {
            return -1;
          }
        } else {
          index := index + 1;
        }
      }
      assert StopsAt(Infos(), ip, 0, index);
      return 0;
    }
  }

  /** Starting at the bucket instead of at 0 skips only entries that end below the bucket,
      whatever the order of the table. */
  lemma BucketStartIsSafe(infos: seq<AsnInfo>, bucket: int, ip: int, start: int, k: int)
    requires StopsAt(infos, bucket, 0, start) && bucket <= ip
    ensures StopsAt(infos, ip, start, k) <==> StopsAt(infos, ip, 0, k)
  {
  }

  /** Rows of systems 7, 8 and 7 again: the chain of 7 goes from record 0 to record 2. */
  lemma ChainExample(infos: seq<AsnInfo>, heads: map<ui32, int>, rows: seq<Row>)
    requires |rows| == 3 && rows[0].asn == rows[2].asn == 7 && rows[1].asn == 8
    requires Chained(infos, heads, rows)
    ensures Head(heads, 7) == 0 && infos[0].next == 2 && infos[2].next == -1
    ensures Head(heads, 8) == 1 && infos[1].next == -1 && Head(heads, 9) == -1
  {
    hide Chained, Positions;
    SystemsOfThree(rows);
    ChainOfSystem(infos, heads, rows, 7);
    ChainOfSystem(infos, heads, rows, 8);
    ChainOfSystem(infos, heads, rows, 9);
    NextInChain(infos, 0, [0, 2], 0);
    NextInChain(infos, 0, [0, 2], 1);
    NextInChain(infos, 1, [1], 0);
  }

  lemma SystemsOfThree(rows: seq<Row>)
    requires |rows| == 3 && rows[0].asn == rows[2].asn == 7 && rows[1].asn == 8
    ensures Positions(rows, 7) == [0, 2] && Positions(rows, 8) == [1] && Positions(rows, 9) == []
  {
    hide Positions;
    PositionsOfThree(rows, 7);
    PositionsOfThree(rows, 8);
    PositionsOfThree(rows, 9);
  }

  lemma PositionsOfThree(rows: seq<Row>, asn: ui32)
    requires |rows| == 3
    ensures Positions(rows, asn) ==
              (if rows[0].asn == asn then [0] else []) + (if rows[1].asn == asn then [1] else [])
              + if rows[2].asn == asn then [2] else []
  {
    assert Positions([], asn) == [];
    hide Positions;
    PositionsAppend([], rows[0], asn);
    PositionsAppend([rows[0]], rows[1], asn);
    PositionsAppend([rows[0], rows[1]], rows[2], asn);
    assert [] + [rows[0]] == [rows[0]] && [rows[0]] + [rows[1]] == [rows[0], rows[1]];
    assert [rows[0], rows[1]] + [rows[2]] == rows;
  }

  // ----- sorted tables and the documented answer

  ghost predicate SortedRanges(infos: seq<AsnInfo>) {
    && (forall i :: 0 <= i < |infos| ==> infos[i].startIp <= infos[i].endIp)
    && (forall i, j :: 0 <= i < j < |infos| ==> infos[i].endIp < infos[j].startIp)
  }

  ghost predicate Contains(infos: seq<AsnInfo>, i: int, ip: ui32) {
    0 <= i < |infos| && infos[i].startIp <= ip <= infos[i].endIp
  }

  /** The documented result: the only range that contains `ip`, or -1 when none does. */
  ghost predicate DocumentedAnswer(infos: seq<AsnInfo>, ip: ui32, r: int) {
    if r == -1 then forall i :: !Contains(infos, i, ip)
    else Contains(infos, r, ip) && forall i :: Contains(infos, i, ip) ==> i == r
  }

  /** On a sorted table the answer is the documented one exactly when some range ends at or above
      `ip`; past the last range the scan runs out and answers 0. */
  lemma AnswerIsDocumentedIff(infos: seq<AsnInfo>, ip: ui32, r: int)
    requires SortedRanges(infos) && ScanAnswer(infos, ip, r)
    ensures DocumentedAnswer(infos, ip, r) <==> infos != [] && ip <= infos[|infos| - 1].endIp
  {
  }

  /** The table of one range 5..10 asked for address 11. */
  lemma ExhaustedScanExample(infos: seq<AsnInfo>, r: int)
    requires infos == [AsnInfo(10, 5, 7, NIL)] && ScanAnswer(infos, 11, r)
    ensures r == 0 && !DocumentedAnswer(infos, 11, r) && forall i :: !Contains(infos, i, 11)
  {
  }
}
