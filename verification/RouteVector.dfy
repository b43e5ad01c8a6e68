/** A traced route as a growable vector, its in-place normalization and its acceptance. */
module RouteVector {
  import opened Types
  import opened Graph

  /** The answering hosts of a trace: its non-zero entries in order. */
  function NonZero(s: seq<ui32>): seq<ui32> {
    if s == [] then []
    else if s[0] == 0 then NonZero(s[1..])
    else [s[0]] + NonZero(s[1..])
  }

  /** Runs of equal entries merged into one. */
  function MergeRuns(s: seq<ui32>): seq<ui32> {
    if |s| <= 1 then s
    else if s[0] == s[1] then MergeRuns(s[1..])
    else [s[0]] + MergeRuns(s[1..])
  }

  function Normalized(s: seq<ui32>): seq<ui32> {
    MergeRuns(NonZero(s))
  }

  /** Some address answers, then a different one, then the first again. */
  ghost predicate Recurs(s: seq<ui32>) {
    exists i, j, k :: RecursAt(s, i, j, k)
  }

  ghost predicate RecursAt(s: seq<ui32>, i: int, j: int, k: int) {
    0 <= i < j < k < |s| && s[i] == s[k] != 0 && s[j] != 0 && s[j] != s[i]
  }

  lemma RecursMeans(s: seq<ui32>)
    ensures Recurs(s) <==>
              exists i, j, k :: 0 <= i < j < k < |s| && s[i] == s[k] != 0 && s[j] != 0 && s[j] != s[i]
  {
    if exists i, j, k :: 0 <= i < j < k < |s| && s[i] == s[k] != 0 && s[j] != 0 && s[j] != s[i] {
      var i, j, k :| 0 <= i < j < k < |s| && s[i] == s[k] != 0 && s[j] != 0 && s[j] != s[i];
      assert RecursAt(s, i, j, k);
    }
  }

  ghost predicate Accepted(s: seq<ui32>) {
    s != [] && !Recurs(s)
  }

  class Vector {
    var items: seq<ui32>

    constructor (items: seq<ui32>)
      ensures this.items == items
    {
      this.items := items;
    }

    /** Compacts the trace in place and tells whether it can be a route. */
    method ValidateAndNormalizeRoute() returns (ok: bool)
      modifies this
      ensures items == Normalized(old(items))
      ensures ok <==> Accepted(old(items))
      ensures ok ==> old(items) != [] && forall i, j :: 0 <= i < j < |items| ==> items[i] != items[j]
      ensures !ok ==> old(items) == [] || exists i, j :: 0 <= i < j < |items| && items[i] == items[j]
    {
      assert Normalized([]) == [];
      hide Normalized, Recurs;
      if |items| == 0 {
        return false;
      }
      var compressed, lastIp := 0, 0;
      for i := 0 to |items|
        invariant compressed <= i && |items| == |old(items)|
        invariant items[..compressed] == Normalized(old(items)[..i])
        invariant forall j :: i <= j < |items| ==> items[j] == old(items)[j]
        invariant lastIp == if compressed == 0 then 0 else items[compressed - 1]
      {
        var newIp := items[i];
        NormalizedAppend(old(items)[..i], newIp);
        assert old(items)[..i + 1] == old(items)[..i] + [newIp];
        if newIp != 0 && newIp != lastIp {
          assert items[compressed := newIp][..compressed + 1] == items[..compressed] + [newIp];
          items := items[compressed := newIp];
          compressed := compressed + 1;
          lastIp := newIp;
        }
      }
      assert old(items)[..|items|] == old(items);
      items := items[..compressed];
      AcceptedIffNoRepeats(old(items));
      NormalizedShape(old(items));

      ok := HasNoRepeats();
    }

    /** Declines routes that visit an address twice. */
    method HasNoRepeats() returns (ok: bool)
      ensures ok <==> forall i, j :: 0 <= i < j < |items| && items[i] != 0 ==> items[i] != items[j]
    {
      var allIps := {};
      for i := 0 to |items|
        invariant forall j, k :: 0 <= j < k < i && items[j] != 0 ==> items[j] != items[k]
        invariant forall x :: x in allIps <==> x != 0 && x in items[..i]
      {
        var ip := items[i];
        assert items[..i + 1] == items[..i] + [ip];
        if ip != 0 {
          if ip in allIps {
            ghost var k :| 0 <= k < i && items[k] == ip;
            return false;
          }
          allIps := allIps + {ip};
        }
      }
      return true;
    }
  }

  // ----- what normalization keeps

  lemma {:induction false} NonZeroAppend(s: seq<ui32>, x: ui32)
    ensures NonZero(s + [x]) == NonZero(s) + if x == 0 then [] else [x]
  {
    if s == [] {
    } else {
      assert (s + [x])[1..] == s[1..] + [x];
      NonZeroAppend(s[1..], x);
    }
  }

  lemma {:induction false} MergeRunsAppend(s: seq<ui32>, x: ui32)
    ensures s != [] ==> MergeRuns(s) != [] && MergeRuns(s)[|MergeRuns(s)| - 1] == s[|s| - 1]
    ensures MergeRuns(s + [x]) == if s != [] && s[|s| - 1] == x then MergeRuns(s) else MergeRuns(s) + [x]
  {
    if |s| <= 1 {
    } else {
      assert (s + [x])[1..] == s[1..] + [x];
      MergeRunsAppend(s[1..], x);
    }
  }

  lemma NormalizedAppend(s: seq<ui32>, x: ui32)
    ensures var n := Normalized(s);
            Normalized(s + [x]) == if x == 0 || (n != [] && n[|n| - 1] == x) then n else n + [x]
  {
    NonZeroAppend(s, x);
    if x == 0 {
      assert NonZero(s) + [] == NonZero(s);
    } else {
      MergeRunsAppend(NonZero(s), x);
    }
  }

  lemma {:induction false} NonZeroMembers(s: seq<ui32>, x: ui32)
    ensures x in NonZero(s) <==> x in s && x != 0
  {
    if s != [] {
      NonZeroMembers(s[1..], x);
    }
  }

  lemma {:induction false} MergeRunsMembers(s: seq<ui32>, x: ui32)
    ensures x in MergeRuns(s) <==> x in s
    ensures s != [] ==> MergeRuns(s) != [] && MergeRuns(s)[0] == s[0]
  {
    if |s| > 1 {
      MergeRunsMembers(s[1..], x);
    }
  }

  /** Answer i belongs to the run that starts at position at[k]: the last start not behind it. */
  predicate InRun(s: seq<ui32>, at: seq<int>, i: int, k: int) {
    && 0 <= k < |at| && 0 <= at[k] <= i < |s| && s[at[k]] == s[i]
    && (k + 1 == |at| || i < at[k + 1])
  }

  ghost predicate InSomeRun(s: seq<ui32>, at: seq<int>, i: int) {
    exists k :: InRun(s, at, i, k)
  }

  /** `r` holds what stands at the increasing positions `at`: answers, no two equal in a row. */
  ghost predicate Starts(s: seq<ui32>, at: seq<int>, r: seq<ui32>) {
    && |at| == |r|
    && (forall k :: 0 <= k < |at| ==> 0 <= at[k] < |s| && r[k] == s[at[k]] && r[k] != 0)
    && (forall k :: 0 < k < |at| ==> at[k - 1] < at[k] && r[k - 1] != r[k])
  }

  /** Compaction in terms of positions: what remains are the starts of the runs of equal answers,
      which unanswered probes may interrupt, and every answer belongs to a run. */
  lemma {:induction false} CompactedFrom(s: seq<ui32>) returns (at: seq<int>)
    ensures Starts(s, at, Normalized(s))
    ensures forall i :: 0 <= i < |s| && s[i] != 0 ==> InSomeRun(s, at, i)
  {
    hide Normalized, Starts, InSomeRun;
    if s == [] {
      NoStarts();
      at := [];
    } else {
      var init, x := s[..|s| - 1], s[|s| - 1];
      at := CompactedFrom(init);
      at := CompactedStep(init, x, at);
      assert s == init + [x];
    }
  }

  lemma CompactedStep(init: seq<ui32>, x: ui32, was: seq<int>) returns (at: seq<int>)
    requires Starts(init, was, Normalized(init))
    requires forall i :: 0 <= i < |init| && init[i] != 0 ==> InSomeRun(init, was, i)
    ensures Starts(init + [x], at, Normalized(init + [x]))
    ensures forall i :: 0 <= i < |init + [x]| && (init + [x])[i] != 0 ==> InSomeRun(init + [x], at, i)
  {
    hide Normalized, Starts, InSomeRun;
    var before := Normalized(init);
    NormalizedAppend(init, x);
    if x == 0 || (before != [] && before[|before| - 1] == x) {
      at := was;
      StartsStay(init, x, at, before);
    } else {
      at := was + [|init|];
      StartsGrow(init, x, was, before);
    }
    forall i | 0 <= i < |init| && init[i] != 0
      ensures InSomeRun(init + [x], at, i)
    {
      RunStays(init, was, x, i, at);
    }
    if x != 0 {
      LastInRun(init + [x], at, Normalized(init + [x]));
    }
  }

  lemma NormalizedEmpty()
    ensures Normalized([]) == []
  {
  }

  lemma NoStarts()
    ensures Starts([], [], Normalized([]))
  {
  }

  lemma StartsStay(init: seq<ui32>, x: ui32, at: seq<int>, r: seq<ui32>)
    requires Starts(init, at, r)
    ensures Starts(init + [x], at, r)
  {
  }

  lemma StartsGrow(init: seq<ui32>, x: ui32, at: seq<int>, r: seq<ui32>)
    requires Starts(init, at, r) && x != 0 && (r == [] || r[|r| - 1] != x)
    ensures Starts(init + [x], at + [|init|], r + [x])
  {
  }

  lemma RunStays(init: seq<ui32>, was: seq<int>, x: ui32, i: int, at: seq<int>)
    requires InSomeRun(init, was, i) && (at == was || at == was + [|init|])
    ensures InSomeRun(init + [x], at, i)
  {
    var k :| InRun(init, was, i, k);
    assert InRun(init + [x], at, i, k);
  }

  lemma LastInRun(s: seq<ui32>, at: seq<int>, r: seq<ui32>)
    requires Starts(s, at, r) && s != [] && r != [] && r[|r| - 1] == s[|s| - 1]
    ensures InSomeRun(s, at, |s| - 1)
  {
    assert InRun(s, at, |s| - 1, |at| - 1);
  }

  /** A normalized trace has no zeros and no two equal neighbours. */
  ghost predicate NoStutter(s: seq<ui32>) {
    && (forall i :: 0 <= i < |s| ==> s[i] != 0)
    && (forall i :: 0 <= i < |s| - 1 ==> s[i] != s[i + 1])
  }

  lemma NormalizedShape(s: seq<ui32>)
    ensures NoStutter(Normalized(s))
  {
    forall i | 0 <= i < |Normalized(s)|
      ensures Normalized(s)[i] != 0
    {
      var x := Normalized(s)[i];
      MergeRunsMembers(NonZero(s), x);
      NonZeroMembers(s, x);
    }
    MergeRunsNoTwins(NonZero(s));
  }

  lemma {:induction false} MergeRunsNoTwins(s: seq<ui32>)
    ensures forall i :: 0 <= i < |MergeRuns(s)| - 1 ==> MergeRuns(s)[i] != MergeRuns(s)[i + 1]
  {
    if |s| > 1 {
      MergeRunsNoTwins(s[1..]);
      MergeRunsMembers(s[1..], s[1]);
    }
  }

  lemma {:induction false} FirstNonZero(s: seq<ui32>) returns (i: nat)
    requires NonZero(s) != []
    ensures i < |s| && s[i] == NonZero(s)[0] != 0
    ensures forall j :: 0 <= j < i ==> s[j] == 0
  {
    if s[0] != 0 {
      i := 0;
    } else {
      i := FirstNonZero(s[1..]);
      i := i + 1;
    }
  }

  /** The duplicate scan on the compacted trace rejects exactly the recurring traces. */
  lemma {:induction false} AcceptedIffNoRepeats(s: seq<ui32>)
    ensures NoRepeats(Normalized(s)) <==> !Recurs(s)
  {
    if s != [] {
      var x, t := s[0], s[1..];
      AcceptedIffNoRepeats(t);
      RecursCons(x, t);
      assert s == [x] + t;
      if x != 0 && NonZero(t) == [] {
        NoNonZero(t);
      } else if x != 0 {
        HeadAccepted(x, t);
      }
    }
  }

  /** One more answer in front of a trace that has some. */
  lemma HeadAccepted(x: ui32, t: seq<ui32>)
    requires x != 0 && NonZero(t) != []
    requires NoRepeats(Normalized(t)) <==> !Recurs(t)
    ensures NoRepeats(Normalized([x] + t)) <==> !Recurs(t) && !ReturnsTo(x, t)
  {
    var i := FirstNonZero(t);
    var n := Normalized(t);
    MergeRunsMembers(NonZero(t), x);
    NonZeroMembers(t, x);
    assert ([x] + t)[1..] == t;
    if t[i] == x {
      assert Normalized([x] + t) == n;
      if ReturnsTo(x, t) {
        var j, k :| ReturnsToAt(x, t, j, k);
        assert RecursAt(t, i, j, k);
      }
    } else {
      assert Normalized([x] + t) == [x] + n;
      NoRepeatsCons(x, n);
      if x in t {
        var k :| 0 <= k < |t| && t[k] == x;
        assert ReturnsToAt(x, t, i, k);
      }
    }
  }

  lemma NoRepeatsCons(x: ui32, n: seq<ui32>)
    ensures NoRepeats([x] + n) <==> NoRepeats(n) && x !in n
  {
    var s := [x] + n;
    if NoRepeats(s) {
      forall i, j | 0 <= i < j < |n|
        ensures n[i] != n[j]
      {
        assert s[i + 1] != s[j + 1];
      }
      forall i | 0 <= i < |n|
        ensures n[i] != x
      {
        assert s[0] != s[i + 1];
      }
    }
  }

  /** `x` comes back in `t` after another answering address. */
  ghost predicate ReturnsTo(x: ui32, t: seq<ui32>) {
    exists j, k :: ReturnsToAt(x, t, j, k)
  }

  ghost predicate ReturnsToAt(x: ui32, t: seq<ui32>, j: int, k: int) {
    0 <= j < k < |t| && t[k] == x && t[j] != 0 && t[j] != x
  }

  lemma RecursCons(x: ui32, t: seq<ui32>)
    ensures Recurs([x] + t) <==> Recurs(t) || (x != 0 && ReturnsTo(x, t))
  {
    var s := [x] + t;
    if Recurs(s) {
      var i, j, k :| RecursAt(s, i, j, k);
      assert if i == 0 then ReturnsToAt(x, t, j - 1, k - 1) else RecursAt(t, i - 1, j - 1, k - 1);
    }
    if Recurs(t) {
      var i, j, k :| RecursAt(t, i, j, k);
      assert RecursAt(s, i + 1, j + 1, k + 1);
    }
    if x != 0 && ReturnsTo(x, t) {
      var j, k :| ReturnsToAt(x, t, j, k);
      assert RecursAt(s, 0, j + 1, k + 1);
    }
  }

  lemma {:induction false} NoNonZero(s: seq<ui32>)
    requires NonZero(s) == []
    ensures forall i :: 0 <= i < |s| ==> s[i] == 0
  {
    if s != [] {
      NoNonZero(s[1..]);
    }
  }

  /** Normalizing twice is normalizing once, so an accepted route that is not empty is a fixed point. */
  lemma NormalizedTwice(s: seq<ui32>)
    ensures Normalized(Normalized(s)) == Normalized(s)
    ensures Accepted(s) && Normalized(s) != [] ==> Accepted(Normalized(s))
  {
    NormalizedShape(s);
    AlreadyNormal(Normalized(s));
    AcceptedIffNoRepeats(s);
    AcceptedIffNoRepeats(Normalized(s));
  }

  lemma {:induction false} AlreadyNormal(s: seq<ui32>)
    requires NoStutter(s)
    ensures NonZero(s) == s && MergeRuns(s) == s
  {
    if |s| > 0 {
      AlreadyNormal(s[1..]);
    }
  }
}
