/** The Internet checksum of trace.h, with its fixed two folds (RFC 1071). */
module Checksum {
  import opened Types

  const TWO_32 := 0x1_0000_0000

  /** The buffer as little-endian 16-bit words, a trailing odd byte counting as a word of its own. */
  function Words(bytes: seq<ui8>): (ws: seq<ui16>)
    ensures |ws| == (|bytes| + 1) / 2
    ensures forall k :: 0 <= k < |ws| ==>
              ws[k] == if 2 * k + 1 < |bytes| then bytes[2 * k] as int + 0x100 * (bytes[2 * k + 1] as int)
                       else bytes[2 * k] as int
  {
    seq((|bytes| + 1) / 2, k requires 0 <= k < (|bytes| + 1) / 2 =>
      if 2 * k + 1 < |bytes| then Word(bytes[2 * k], bytes[2 * k + 1]) else bytes[2 * k] as int)
  }

  function Word(low: ui8, high: ui8): ui16 {
    var l: int, h: int := low, high;
    l + 0x100 * h
  }

  function Sum(ws: seq<ui16>): nat {
    if ws == [] then 0 else Sum(ws[..|ws| - 1]) + ws[|ws| - 1]
  }

  lemma SumEmpty(ws: seq<ui16>)
    ensures Sum(ws[..0]) == 0
  {
  }

  lemma Accumulate(s: nat, w: ui16)
    ensures (s % TWO_32 + w) % TWO_32 == (s + w) % TWO_32
  {
  }

  lemma SumNext(ws: seq<ui16>, k: nat)
    requires k < |ws|
    ensures Sum(ws[..k + 1]) == Sum(ws[..k]) + ws[k]
  {
    assert ws[..k + 1][..k] == ws[..k];
  }

  /** One's complement addition: the carry comes around (section 1 of RFC 1071). */
  function Plus(x: ui16, y: ui16): ui16 {
    var s: int := x + y as int;
    if s >= 0x1_0000 then s - 0xFFFF else s
  }

  function OnesSum(ws: seq<ui16>): ui16 {
    if ws == [] then 0 else Plus(OnesSum(ws[..|ws| - 1]), ws[|ws| - 1])
  }

  /** Folding the carries back in until there is none (section 4.1 of RFC 1071). */
  function FoldAll(s: nat): ui16 {
    if s < 0x1_0000 then s else FoldAll(s / 0x1_0000 + s % 0x1_0000)
  }

  /** The two folds the code makes. */
  function FoldTwice(s: ui32): ui16 {
    var once := s / 0x1_0000 + s % 0x1_0000;
    (once + once / 0x1_0000) % 0x1_0000
  }

  function Complement(x: ui16): ui16 {
    0xFFFF - x
  }

  /** The value in 1..65535 congruent to a positive sum, and 0 for 0. */
  function Residue(s: nat): ui16 {
    if s == 0 then 0 else (s - 1) % 0xFFFF + 1
  }

  method IpChecksum(buffer: array<ui8>, length: ui32) returns (checksum: ui16)
    requires length <= buffer.Length
    ensures checksum == ChecksumOf(Words(buffer[..length]))
  {
    hide FoldAll, Sum, Words;
    ghost var words := Words(buffer[..length]);
    SumEmpty(words);
    var result: ui32 := 0;
    var buf: int, left: int := 0, length;
    while left > 1
      invariant 0 <= left && buf + left == length && buf % 2 == 0
      invariant buf / 2 <= |words| && result == Sum(words[..buf / 2]) % TWO_32
    {
      SumNext(words, buf / 2);
      assert words[buf / 2] == Word(buffer[buf], buffer[buf + 1]);
      Accumulate(Sum(words[..buf / 2]), words[buf / 2]);
      result := (result as int + Word(buffer[buf], buffer[buf + 1]) as int) % TWO_32;
      buf := buf + 2;
      left := left - 2;
    }
    if left > 0 {
      SumNext(words, buf / 2);
      Accumulate(Sum(words[..buf / 2]), words[buf / 2]);
      result := (result as int + buffer[buf] as int) % TWO_32;
    }
    assert words[..|words|] == words;
    FinishFold(result);
    result := result / 0x1_0000 + result % 0x1_0000;
    result := (result as int + result / 0x1_0000) % TWO_32;
    checksum := 0xFFFF - result % 0x1_0000;
  }

  // ----- folding

  lemma {:induction false} FoldAllIsResidue(s: nat)
    ensures FoldAll(s) == Residue(s)
  {
    if s >= 0x1_0000 {
      var t := s / 0x1_0000 + s % 0x1_0000;
      FoldAllIsResidue(t);
      assert s - t == 0xFFFF * (s / 0x1_0000);
      SameResidue(t, s, s / 0x1_0000);
    }
  }

  lemma SameResidue(t: nat, s: nat, q: int)
    requires s == t + 0xFFFF * q && t > 0 && s > 0
    ensures Residue(s) == Residue(t)
  {
    assert (s - 1) == (t - 1) + 0xFFFF * q;
  }

  lemma FoldStep(s: nat)
    ensures FoldAll(s) == if s < 0x1_0000 then s else FoldAll(s / 0x1_0000 + s % 0x1_0000)
  {
  }

  /** Any 32-bit sum is carry-free after two folds. */
  lemma TwoFoldsSuffice(s: ui32)
    ensures FoldTwice(s) == FoldAll(s)
  {
    hide FoldAll;
    var once := s / 0x1_0000 + s % 0x1_0000;
    FoldStep(s);
    SecondFold(once);
    if s < 0x1_0000 {
      assert once == s;
    }
  }

  lemma SecondFold(once: nat)
    requires once <= 0x1_FFFE
    ensures (once + once / 0x1_0000) % 0x1_0000 == FoldAll(once)
  {
    hide FoldAll;
    FoldStep(once);
    if once >= 0x1_0000 {
      assert once / 0x1_0000 == 1 && once % 0x1_0000 == once - 0x1_0000;
      FoldStep(once - 0xFFFF);
    } else {
      assert once / 0x1_0000 == 0;
    }
  }

  lemma FinishFold(s: ui32)
    ensures var once := s / 0x1_0000 + s % 0x1_0000;
            0xFFFF - (once + once / 0x1_0000) % TWO_32 % 0x1_0000 == Complement(FoldAll(s))
  {
    hide FoldAll;
    TwoFoldsSuffice(s);
  }

  lemma {:induction false} OnesSumIsResidue(ws: seq<ui16>)
    ensures OnesSum(ws) == Residue(Sum(ws))
  {
    if ws != [] {
      var n := |ws| - 1;
      OnesSumIsResidue(ws[..n]);
      PlusIsResidue(Sum(ws[..n]), ws[n]);
    }
  }

  lemma ResidueQuotient(s: nat) returns (q: nat)
    ensures s == Residue(s) + 0xFFFF * q
  {
    q := if s == 0 then 0 else (s - 1) / 0xFFFF;
  }

  lemma PlusIsResidue(s: nat, w: ui16)
    ensures Plus(Residue(s), w) == Residue(s + w)
  {
  }

  /** Folding the unbounded sum of the words gives their one's complement sum: 0 only for zeros,
      and congruent to the plain sum modulo 65535. */
  lemma FoldMeaning(ws: seq<ui16>)
    ensures FoldAll(Sum(ws)) == OnesSum(ws)
    ensures FoldAll(Sum(ws)) == 0 <==> forall i :: 0 <= i < |ws| ==> ws[i] == 0
    ensures FoldAll(Sum(ws)) % 0xFFFF == Sum(ws) % 0xFFFF
  {
    hide FoldAll, OnesSum, Sum;
    FoldAllIsResidue(Sum(ws));
    OnesSumIsResidue(ws);
    SumZero(ws);
    var q := ResidueQuotient(Sum(ws));
  }

  // ----- overflow of the 32-bit accumulator

  lemma {:induction false} SumBound(ws: seq<ui16>)
    ensures Sum(ws) <= 0xFFFF * |ws|
  {
    if ws != [] {
      SumBound(ws[..|ws| - 1]);
    }
  }

  lemma {:induction false} SumZero(ws: seq<ui16>)
    ensures Sum(ws) == 0 <==> forall i :: 0 <= i < |ws| ==> ws[i] == 0
  {
    if ws != [] {
      var n := |ws| - 1;
      SumZero(ws[..n]);
      assert ws == ws[..n] + [ws[n]];
    }
  }

  /** What the code computes from the words of a buffer. */
  function ChecksumOf(ws: seq<ui16>): ui16 {
    Complement(FoldAll(Sum(ws) % TWO_32))
  }

  /** Up to 65537 words the accumulator cannot overflow. */
  lemma NoOverflow(ws: seq<ui16>)
    requires |ws| <= 65537
    ensures Sum(ws) < TWO_32
    ensures ChecksumOf(ws) == Complement(OnesSum(ws))
  {
    hide FoldAll, OnesSum, Sum;
    SumBound(ws);
    FoldMeaning(ws);
  }

  /** For any 32-bit length, the checksum is right exactly when the accumulator has not overflowed. */
  lemma RightIffNoOverflow(ws: seq<ui16>)
    requires |ws| <= 0x8000_0000
    ensures ChecksumOf(ws) == Complement(OnesSum(ws)) <==> Sum(ws) < TWO_32
  {
    SumBound(ws);
    FoldMeaning(ws);
    var s, lost, kept := Sum(ws), Sum(ws) / TWO_32, Sum(ws) % TWO_32;
    FoldAllIsResidue(s);
    FoldAllIsResidue(kept);
    if lost > 0 && Residue(s) == Residue(kept) {
      assert s - kept == TWO_32 * lost;
      assert lost < 0xFFFF;
      LostCarriesShow(s, kept, lost);
    }
  }

  /** 2^32 is one more than a multiple of 65535, so every lost carry changes the residue. */
  lemma LostCarriesShow(s: nat, kept: nat, lost: nat)
    requires s == kept + TWO_32 * lost && 0 < lost < 0xFFFF
    ensures Residue(s) != Residue(kept)
  {
  }

  lemma {:induction false} SumOfOnes(n: nat)
    ensures Sum(seq(n, _ => 0xFFFF)) == 0xFFFF * n
  {
    if n > 0 {
      var ws: seq<ui16> := seq(n, _ => 0xFFFF);
      assert ws[..n - 1] == seq(n - 1, _ => 0xFFFF);
      SumOfOnes(n - 1);
    }
  }

  /** One word more than is safe: 65538 words of ones get a wrong checksum. */
  lemma OverflowExample()
    ensures var ws: seq<ui16> := seq(65538, _ => 0xFFFF);
            ChecksumOf(ws) == 0x0001 && Complement(OnesSum(ws)) == 0
  {
    hide FoldAll, Sum, OnesSum;
    var ws: seq<ui16> := seq(65538, _ => 0xFFFF);
    SumOfOnes(65538);
    OnesSumIsResidue(ws);
    FoldAllIsResidue(Sum(ws) % TWO_32);
  }

  lemma SumOfFour(ws: seq<ui16>)
    requires |ws| == 4
    ensures Sum(ws) == ws[0] as int + ws[1] as int + ws[2] as int + ws[3] as int
  {
    hide Sum;
    SumEmpty(ws);
    SumNext(ws, 0);
    SumNext(ws, 1);
    SumNext(ws, 2);
    SumNext(ws, 3);
    assert ws[..4] == ws;
  }

  /** The numerical example of section 3 of RFC 1071, on a host that swaps the bytes of a word. */
  lemma Rfc1071Example()
    ensures Words([0x00, 0x01, 0xF2, 0x03, 0xF4, 0xF5, 0xF6, 0xF7]) == [0x0100, 0x03F2, 0xF5F4, 0xF7F6]
    ensures ChecksumOf([0x0100, 0x03F2, 0xF5F4, 0xF7F6]) == 0xFFFF - 0xF2DD
  {
    hide Sum, FoldAll;
    SumOfFour([0x0100, 0x03F2, 0xF5F4, 0xF7F6]);
    FoldAllIsResidue(0x1_F2DC);
  }

  // ----- the algebra a sender and a receiver rely on

  /** Padding an odd buffer with a zero byte changes no word (little-endian reading). */
  lemma OddTailIsZeroPadding(bytes: seq<ui8>)
    requires |bytes| % 2 == 1
    ensures Words(bytes + [0]) == Words(bytes)
  {
  }

  lemma {:induction false} SumUpdate(ws: seq<ui16>, k: nat, w: ui16)
    requires k < |ws|
    ensures Sum(ws[k := w]) == Sum(ws) - ws[k] + w
  {
    var n := |ws| - 1;
    if k == n {
      assert ws[k := w][..n] == ws[..n];
    } else {
      assert ws[k := w][..n] == ws[..n][k := w];
      SumUpdate(ws[..n], k, w);
    }
  }

  /** Adding the complement to what the accumulator holds never overflows it and leaves a
      multiple of 65535, since 2^32 is 65535 * 65537 + 1. */
  lemma ComplementFits(kept: ui32, c: ui16) returns (q: nat)
    requires c == Complement(Residue(kept))
    ensures kept + c == 0xFFFF * (q + 1) < TWO_32
  {
    q := ResidueQuotient(kept);
  }

  lemma StoredWordVerifies(ws: seq<ui16>, k: nat)
    requires k < |ws| && ws[k] == 0
    ensures ChecksumOf(ws[k := ChecksumOf(ws)]) == 0
  {
    assert Residue(0xFFFF) == 0xFFFF;
    hide FoldAll, Sum, Residue;
    var c, kept := ChecksumOf(ws), Sum(ws) % TWO_32;
    SumUpdate(ws, k, c);
    Accumulate(Sum(ws), c);
    FoldAllIsResidue(kept);
    var q := ComplementFits(kept, c);
    FoldAllIsResidue(kept + c);
    SameResidue(0xFFFF, kept + c, q);
  }

  /** Writing the checksum into a zeroed aligned field makes the whole buffer check out, whatever
      its length and whether or not the accumulator overflows. */
  lemma StoredChecksumVerifies(bytes: seq<ui8>, k: nat, c: ui16)
    requires 2 * k + 1 < |bytes| && bytes[2 * k] == 0 && bytes[2 * k + 1] == 0
    requires c == ChecksumOf(Words(bytes))
    ensures ChecksumOf(Words(bytes[2 * k := c % 0x100][2 * k + 1 := c / 0x100])) == 0
  {
    hide Words, ChecksumOf;
    var ws, stored := Words(bytes), bytes[2 * k := c % 0x100][2 * k + 1 := c / 0x100];
    assert Words(stored) == ws[k := c];
    StoredWordVerifies(ws, k);
  }

  /** Taking one occurrence of a word out of a sequence takes it out of the bag of its words. */
  lemma TakeOut(vs: seq<ui16>, w: ui16) returns (k: nat)
    requires w in multiset(vs)
    ensures k < |vs| && vs[k] == w
    ensures multiset(vs[..k] + vs[k + 1..]) == multiset(vs) - multiset{w}
  {
    k :| 0 <= k < |vs| && vs[k] == w;
    assert vs == vs[..k] + [vs[k]] + vs[k + 1..];
  }

  lemma DropLast(ws: seq<ui16>, init: seq<ui16>, w: ui16)
    requires ws == init + [w]
    ensures w in multiset(ws) && multiset(init) == multiset(ws) - multiset{w}
    ensures Sum(ws) == Sum(init) + w
  {
    hide Sum;
    SumNext(ws, |init|);
    assert ws[..|ws|] == ws && ws[..|init|] == init;
    assert multiset(ws) == multiset(init) + multiset{w};
  }

  /** The order of the words does not matter. */
  lemma {:induction false} SumIgnoresOrder(ws: seq<ui16>, vs: seq<ui16>)
    requires multiset(ws) == multiset(vs)
    ensures Sum(ws) == Sum(vs)
    decreases |ws|
  {
    hide Sum;
    if ws != [] {
      var init, w := ws[..|ws| - 1], ws[|ws| - 1];
      DropLast(ws, init, w);
      var k := TakeOut(vs, w);
      SumIgnoresOrder(init, vs[..k] + vs[k + 1..]);
      SumDrop(vs, k);
    } else {
      assert |vs| == |multiset(vs)| == 0;
    }
  }

  lemma {:induction false} SumDrop(vs: seq<ui16>, k: nat)
    requires k < |vs|
    ensures Sum(vs) == Sum(vs[..k] + vs[k + 1..]) + vs[k]
    decreases |vs|
  {
    var n := |vs| - 1;
    if k == n {
      assert vs[..k] + vs[k + 1..] == vs[..n];
    } else {
      var rest := vs[..k] + vs[k + 1..];
      assert rest[..n - 1] == vs[..n][..k] + vs[..n][k + 1..];
      SumDrop(vs[..n], k);
    }
  }

  function Swapped(w: ui16): ui16 {
    w % 0x100 * 0x100 + w / 0x100
  }

  /** An even-length buffer with the bytes of every word exchanged. */
  function SwapBytes(bytes: seq<ui8>): seq<ui8>
    requires |bytes| % 2 == 0
  {
    seq(|bytes|, i requires 0 <= i < |bytes| => if i % 2 == 0 then bytes[i + 1] else bytes[i - 1])
  }

  lemma WordSwaps(low: ui8, high: ui8)
    ensures Word(high, low) == Swapped(Word(low, high))
  {
  }

  lemma WordsSwap(bytes: seq<ui8>)
    requires |bytes| % 2 == 0
    ensures |Words(SwapBytes(bytes))| == |Words(bytes)|
    ensures forall k :: 0 <= k < |Words(bytes)| ==> Words(SwapBytes(bytes))[k] == Swapped(Words(bytes)[k])
  {
    hide Word, Swapped;
    forall k | 0 <= k < |Words(bytes)|
      ensures Words(SwapBytes(bytes))[k] == Swapped(Words(bytes)[k])
    {
      WordSwaps(bytes[2 * k], bytes[2 * k + 1]);
    }
  }

  lemma {:induction false} SumSwaps(ws: seq<ui16>, vs: seq<ui16>) returns (q: int)
    requires |ws| == |vs| && forall k :: 0 <= k < |ws| ==> vs[k] == Swapped(ws[k])
    ensures 0x100 * Sum(ws) == Sum(vs) + 0xFFFF * q
    ensures Sum(ws) == 0 <==> Sum(vs) == 0
  {
    if ws == [] {
      q := 0;
    } else {
      var n := |ws| - 1;
      q := SumSwaps(ws[..n], vs[..n]);
      var w: int := ws[n];
      assert 0x100 * w == vs[n] + 0xFFFF * (w / 0x100);
      q := q + w / 0x100;
    }
  }

  /** The residue of a product by 256 is the byte-swapped residue. */
  lemma ResidueSwaps(s: nat, t: nat, q: int)
    requires 0x100 * s == t + 0xFFFF * q && (s == 0 <==> t == 0)
    ensures Residue(t) == Swapped(Residue(s))
  {
    if s > 0 {
      var r: int := Residue(s);
      var m := ResidueQuotient(s);
      var high := r / 0x100;
      assert 0x100 * r == Swapped(r) + 0xFFFF * high;
      assert t == Swapped(r) + 0xFFFF * (high + 0x100 * m - q);
      SameResidue(Swapped(r), t, high + 0x100 * m - q);
    }
  }

  lemma TimesByteSwaps(x: ui16) returns (q: int)
    ensures 0x100 * x as int == Swapped(x) as int + 0xFFFF * q
    ensures Swapped(x) == 0 <==> x == 0
    ensures Swapped(x) == 0xFFFF <==> x == 0xFFFF
  {
    q := x / 0x100;
  }

  /** The residues of two accumulators swap exactly when what they lost swaps. */
  lemma KeptSwapsIff(s: nat, t: nat, q: int, kept: nat, left: nat, lost: ui16, gone: ui16)
    requires 0x100 * s == t + 0xFFFF * q
    requires s == kept + TWO_32 * lost && t == left + TWO_32 * gone && lost < 0x8000 && gone < 0x8000
    ensures Residue(left) == Swapped(Residue(kept)) <==> gone == Swapped(lost) && (kept == 0 <==> left == 0)
  {
    hide Swapped;
    var p := TimesByteSwaps(lost);
    var z: int := Swapped(lost) - gone as int;
    var y := q - 0x100 * 0x1_0001 * lost + 0x1_0001 * gone - p;
    assert 0x100 * kept == left - z + 0xFFFF * y;
    if gone == Swapped(lost) && (kept == 0 <==> left == 0) {
      ResidueSwaps(kept, left, y);
    }
    if Residue(left) == Swapped(Residue(kept)) {
      var i := ResidueQuotient(kept);
      var j := ResidueQuotient(left);
      var k := TimesByteSwaps(Residue(kept));
      assert z == 0xFFFF * (y + j - k - 0x100 * i);
    }
  }

  /** Byte order independence (section 2 of RFC 1071) for every even length: exchanging the bytes of
      every word exchanges the bytes of the checksum exactly when the carries the accumulators lost
      are exchanged too and neither alone is left at zero. */
  lemma SwapsIffLossesSwap(bytes: seq<ui8>)
    requires |bytes| % 2 == 0 && |bytes| / 2 <= 0x8000_0000
    ensures Sum(Words(bytes)) / TWO_32 < 0x8000
    ensures var s, t := Sum(Words(bytes)), Sum(Words(SwapBytes(bytes)));
            ChecksumOf(Words(SwapBytes(bytes))) == Swapped(ChecksumOf(Words(bytes))) <==>
              t / TWO_32 == Swapped(s / TWO_32) && (s % TWO_32 == 0 <==> t % TWO_32 == 0)
  {
    hide Swapped, Complement, FoldAll, Sum, Residue, Words, SwapBytes;
    var ws, vs := Words(bytes), Words(SwapBytes(bytes));
    WordsSwap(bytes);
    SumBound(ws);
    SumBound(vs);
    var s, t := Sum(ws), Sum(vs);
    var q := SumSwaps(ws, vs);
    KeptSwapsIff(s, t, q, s % TWO_32, t % TWO_32, s / TWO_32, t / TWO_32);
    FoldAllIsResidue(s % TWO_32);
    FoldAllIsResidue(t % TWO_32);
    ComplementSwaps(Residue(s % TWO_32));
    ComplementDiffers(Residue(t % TWO_32), Swapped(Residue(s % TWO_32)));
  }

  lemma ComplementDiffers(x: ui16, y: ui16)
    ensures Complement(x) == Complement(y) <==> x == y
  {
  }

  /** Up to 65537 words nothing is lost. */
  lemma SwappedBufferSwapsChecksum(bytes: seq<ui8>)
    requires |bytes| % 2 == 0 && |bytes| / 2 <= 65537
    ensures ChecksumOf(Words(SwapBytes(bytes))) == Swapped(ChecksumOf(Words(bytes)))
  {
    hide ChecksumOf, FoldAll, Sum, Residue, Words, SwapBytes;
    var ws, vs := Words(bytes), Words(SwapBytes(bytes));
    WordsSwap(bytes);
    SumBound(ws);
    SumBound(vs);
    var q := SumSwaps(ws, vs);
    SwapsIffLossesSwap(bytes);
  }

  /** Beyond that it can fail: a buffer of ones is its own exchange, but 0x0001 is not. */
  lemma SwapFailsExample()
    ensures var bytes: seq<ui8> := seq(131076, _ => 0xFF);
            SwapBytes(bytes) == bytes && ChecksumOf(Words(bytes)) != Swapped(ChecksumOf(Words(bytes)))
  {
    hide ChecksumOf;
    var bytes: seq<ui8> := seq(131076, _ => 0xFF);
    assert Words(bytes) == seq(65538, _ => 0xFFFF);
    OverflowExample();
  }

  lemma ComplementSwaps(x: ui16)
    ensures Complement(Swapped(x)) == Swapped(Complement(x))
  {
    var high, low := x / 0x100, x % 0x100;
    assert Complement(x) == (0xFF - high) * 0x100 + (0xFF - low);
  }
}
