/** The IP option bytes of a route: a no-operation byte and a Loose Source and Record Route option
    (section 3.1 of RFC 791). Words are stored as on a little-endian host, where an address held in
    network byte order in memory reads back as the number the graph uses. */
module LsrrOption {
  import opened Types

  const NOP: ui8 := 1
  const LSRR: ui8 := 131
  const MAX_OPTION_BYTES := 40

  /** A decoded option: where the next hop is read, and all the hops. */
  datatype SourceRoute = SourceRoute(pointer: ui8, hops: seq<ui32>)

  function WordAt(bytes: seq<ui8>, k: nat): ui32
    requires k + 4 <= |bytes|
  {
    var b0: int, b1: int, b2: int, b3: int := bytes[k], bytes[k + 1], bytes[k + 2], bytes[k + 3];
    b0 + 0x100 * (b1 + 0x100 * (b2 + 0x100 * b3))
  }

  function Words(bytes: seq<ui8>): seq<ui32>
    requires |bytes| % 4 == 0
  {
    if bytes == [] then [] else [WordAt(bytes, 0)] + Words(bytes[4..])
  }

  /** Reads an options field that holds nothing but one source route, after any no-operations. */
  function Decode(bytes: seq<ui8>): Option<SourceRoute> {
    if |bytes| > 0 && bytes[0] == NOP then Decode(bytes[1..])
    else if |bytes| < 3 || bytes[0] != LSRR || bytes[1] as int != |bytes| then None
    else if bytes[2] < 4 || |bytes| % 4 != 3 then None
    else Some(SourceRoute(bytes[2], Words(bytes[3..])))
  }

  /** The hops between the two ends of a route. */
  function Interior(route: seq<ui32>): seq<ui32>
    requires |route| >= 2
  {
    route[1..|route| - 1]
  }

  ghost predicate Encodes(bytes: seq<ui8>, route: seq<ui32>)
    requires |route| >= 2
  {
    && |bytes| == 4 * (|route| - 1)
    && bytes[0] == NOP && bytes[1] == LSRR && bytes[2] == (|bytes| - 1) % 0x100 && bytes[3] == 4
    && forall i :: 1 <= i < |route| - 1 ==> WordAt(bytes, 4 * i) == route[i]
  }

  /** Stores a native 32-bit word. */
  method StoreWord(bytes: array<ui8>, k: nat, value: ui32)
    requires k + 4 <= bytes.Length
    modifies bytes
    ensures WordAt(bytes[..], k) == value
    ensures bytes[..k] == old(bytes[..k]) && bytes[k + 4..] == old(bytes[k + 4..])
  {
    var high: int := value / 0x100;
    var higher := high / 0x100;
    bytes[k] := value % 0x100;
    bytes[k + 1] := high % 0x100;
    bytes[k + 2] := higher % 0x100;
    bytes[k + 3] := higher / 0x100;
  }

  method Encode(route: seq<ui32>) returns (bytes: array<ui8>)
    requires |route| >= 2
    ensures fresh(bytes) && Encodes(bytes[..], route)
    ensures bytes.Length == 4 * (|route| - 1)
    ensures bytes[0] == 1 && bytes[1] == 131 && bytes[2] == (4 * (|route| - 1) - 1) % 0x100 && bytes[3] == 4
    ensures forall i :: 1 <= i < |route| - 1 ==>
              && bytes[4 * i] == route[i] % 0x100
              && bytes[4 * i + 1] == route[i] / 0x100 % 0x100
              && bytes[4 * i + 2] == route[i] / 0x1_0000 % 0x100
              && bytes[4 * i + 3] == route[i] / 0x100_0000
  {
    var length := (|route| - 1) * 4;
    bytes := new ui8[length];
    bytes[0] := NOP;
    bytes[1] := LSRR;
    bytes[2] := (length - 1) % 0x100;
    bytes[3] := 4;
    for i := 1 to |route| - 1
      invariant bytes[0] == NOP && bytes[1] == LSRR && bytes[2] == (length - 1) % 0x100 && bytes[3] == 4
      invariant forall j :: 1 <= j < i ==> WordAt(bytes[..], 4 * j) == route[j]
    {
      ghost var before := bytes[..];
      StoreWord(bytes, 4 * i, route[i]);
      assert bytes[..4 * i] == before[..4 * i];
      forall j | 1 <= j < i
        ensures WordAt(bytes[..], 4 * j) == route[j]
      {
        assert WordAt(before, 4 * j) == route[j];
        assert forall m :: 4 * j <= m < 4 * j + 4 ==> bytes[..4 * i][m] == before[..4 * i][m];
      }
    }
    forall i | 1 <= i < |route| - 1
      ensures && bytes[4 * i] == route[i] % 0x100
              && bytes[4 * i + 1] == route[i] / 0x100 % 0x100
              && bytes[4 * i + 2] == route[i] / 0x1_0000 % 0x100
              && bytes[4 * i + 3] == route[i] / 0x100_0000
    {
      Octets(bytes[..], 4 * i);
    }
  }

  /** The octets of a stored word, least significant first. */
  lemma Octets(bytes: seq<ui8>, k: nat)
    requires k + 4 <= |bytes|
    ensures var w := WordAt(bytes, k);
            && bytes[k] == w % 0x100 && bytes[k + 1] == w / 0x100 % 0x100
            && bytes[k + 2] == w / 0x1_0000 % 0x100 && bytes[k + 3] == w / 0x100_0000
  {
  }

  lemma {:induction false} WordsOfInterior(bytes: seq<ui8>, hops: seq<ui32>)
    requires |bytes| == 4 * |hops|
    requires forall i :: 0 <= i < |hops| ==> WordAt(bytes, 4 * i) == hops[i]
    ensures Words(bytes) == hops
  {
    if hops != [] {
      forall i | 0 <= i < |hops[1..]|
        ensures WordAt(bytes[4..], 4 * i) == hops[1..][i]
      {
        assert WordAt(bytes, 4 * (i + 1)) == hops[i + 1];
      }
      WordsOfInterior(bytes[4..], hops[1..]);
      assert WordAt(bytes, 4 * 0) == hops[0];
    }
  }

  /** Decoding gives back exactly the interior hops in order, as long as the length byte has not
      wrapped, and nothing at all once it has. */
  lemma DecodesIff(bytes: seq<ui8>, route: seq<ui32>)
    requires |route| >= 2 && Encodes(bytes, route)
    ensures Decode(bytes) == if |route| <= 65 then Some(SourceRoute(4, Interior(route))) else None
  {
    var option := bytes[1..];
    assert Decode(bytes) == Decode(option);
    if |route| <= 65 {
      assert option[3..] == bytes[4..];
      forall i | 0 <= i < |Interior(route)|
        ensures WordAt(bytes[4..], 4 * i) == Interior(route)[i]
      {
        assert WordAt(bytes, 4 * (i + 1)) == route[i + 1];
      }
      WordsOfInterior(bytes[4..], Interior(route));
    }
  }
}
