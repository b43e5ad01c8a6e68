/** The traceroute control loop of trace.h against an arbitrary oracle of replies. */
module TraceRoute {
  import opened Types
  import opened RouteVector

  const TRACE_DEPTH := 40
  const MAX_NO_ANSWER := 4

  datatype Reply = NoAnswer | Unreachable(from: ui32) | Exceeded(from: ui32) | UnknownPacket

  /** The reply to the probe with each time-to-live. */
  type Replies = nat -> Reply

  /** What a reply leaves in the route, 0 when no address is known. */
  function Heard(r: Reply): ui32 {
    match r
    case Unreachable(from) => from
    case Exceeded(from) => from
    case _ => 0
  }

  /** The replies to probes 1 to t, one entry each. */
  function Log(replies: Replies, t: nat): (log: seq<ui32>)
    ensures |log| == t
  {
    if t == 0 then [] else Log(replies, t - 1) + [Heard(replies(t))]
  }

  /** How many probes in a row, up to probe t, have gone unanswered. */
  function Silence(replies: Replies, t: nat): (n: nat)
    ensures n <= t
  {
    if t > 0 && replies(t).NoAnswer? then 1 + Silence(replies, t - 1) else 0
  }

  lemma {:induction false} LogAt(replies: Replies, t: nat, i: nat)
    requires i < t
    ensures Log(replies, t)[i] == Heard(replies(i + 1))
  {
    if i < t - 1 {
      LogAt(replies, t - 1, i);
    }
  }

  /** The silence is a run of unanswered probes, and the probe before it was answered. */
  lemma {:induction false} SilenceMeans(replies: Replies, t: nat)
    ensures forall i: nat :: t - Silence(replies, t) < i <= t ==> replies(i).NoAnswer?
    ensures var n := Silence(replies, t); n < t ==> !replies(t - n).NoAnswer?
  {
    if t > 0 && replies(t).NoAnswer? {
      SilenceMeans(replies, t - 1);
    }
  }

  lemma {:induction false} LogPrefix(replies: Replies, t: nat, k: nat)
    requires k <= t
    ensures Log(replies, t)[..k] == Log(replies, k)
  {
    if k < t {
      LogPrefix(replies, t - 1, k);
    }
  }

  ghost predicate Ends(replies: Replies, target: ui32, t: nat) {
    match replies(t)
    case NoAnswer => Silence(replies, t) >= MAX_NO_ANSWER
    case Exceeded(from) => from == target
    case _ => true
  }

  /** Probe `t` is the first that ends the trace, or `depth` probes do not and t is depth + 1. */
  ghost predicate LastProbe(replies: Replies, target: ui32, depth: nat, t: nat) {
    && 1 <= t <= depth + 1
    && (forall s: nat :: 1 <= s < t ==> !Ends(replies, target, s))
    && (t <= depth ==> Ends(replies, target, t))
  }

  /** The trace keeps everything heard, but ends on a silent or unreadable probe only after
      dropping that probe and the silence before it. */
  ghost function Kept(replies: Replies, depth: nat, t: nat): nat
    requires 1 <= t <= depth + 1
  {
    if t > depth then depth
    else if replies(t).NoAnswer? || replies(t).UnknownPacket? then t - 1 - Silence(replies, t - 1)
    else t
  }

  /** vector::resize, which can also grow. */
  function Resized(v: seq<ui32>, n: nat): seq<ui32> {
    if n <= |v| then v[..n] else v + Zeros(n - |v|)
  }

  function Zeros(n: nat): (z: seq<ui32>)
    ensures |z| == n && forall i :: 0 <= i < n ==> z[i] == 0
  {
    if n == 0 then [] else [0] + Zeros(n - 1)
  }

  /** Besides the model's own terms: every kept entry is the sender of its reply, or 0 for silence;
      no kept reply but the last comes from the target or from a host that cannot reach it, there are
      never four silences in a row; and the trace keeps all of its t probes unless probe t went
      unanswered (the fourth in a row, all dropped) or was unreadable (dropped with the silence
      before it). */
  method TraceRoute(ip: ui32, replies: Replies, route: Vector, depth: nat := TRACE_DEPTH)
    modifies route
    ensures exists t :: LastProbe(replies, ip, depth, t) && route.items == Log(replies, Kept(replies, depth, t))
    ensures forall i: nat :: 1 <= i <= |route.items| ==>
              && !replies(i).UnknownPacket?
              && (replies(i).NoAnswer? ==> route.items[i - 1] == 0)
              && (replies(i).Exceeded? ==> route.items[i - 1] == replies(i).from)
              && (replies(i).Unreachable? ==> route.items[i - 1] == replies(i).from)
    ensures exists t :: EndedAt(replies, ip, depth, t, |route.items|)
  {
    hide EndedAt, Log, Silence, Ends, Kept, LastProbe;
    Start(replies);
    route.items := [];
    var noAnswerCount := 0;
    var ttl := 1;
    while ttl <= depth
      invariant 1 <= ttl <= depth + 1
      invariant route.items == Log(replies, ttl - 1)
      invariant noAnswerCount == Silence(replies, ttl - 1) < MAX_NO_ANSWER
      invariant forall s: nat :: 1 <= s < ttl ==> !Ends(replies, ip, s)
      decreases depth - ttl
    {
      ProbeHeard(replies, ip, depth, ttl);
      match replies(ttl) {
      case NoAnswer =>
        noAnswerCount := noAnswerCount + 1;
        if noAnswerCount == MAX_NO_ANSWER {
          LogPrefix(replies, ttl - 1, ttl - noAnswerCount);
          route.items := Resized(route.items, ttl - noAnswerCount);
          Finished(replies, ip, depth, ttl, route.items);
          return;
        } else {
          route.items := route.items + [0];
        }
      case Unreachable(from) =>
        route.items := route.items + [from];
        Finished(replies, ip, depth, ttl, route.items);
        return;
      case Exceeded(from) =>
        route.items := route.items + [from];
        if from == ip {
          Finished(replies, ip, depth, ttl, route.items);
          return;
        }
        noAnswerCount := 0;
      case UnknownPacket =>
        LogPrefix(replies, ttl - 1, ttl - 1 - noAnswerCount);
        route.items := Resized(route.items, ttl - 1 - noAnswerCount);
        Finished(replies, ip, depth, ttl, route.items);
        return;
      }
      ttl := ttl + 1;
    }
    DepthOut(replies, ip, depth);
    Finished(replies, ip, depth, ttl, route.items);
  }

  lemma Start(replies: Replies)
    ensures Log(replies, 0) == [] && Silence(replies, 0) == 0
  {
  }

  /** What probe t adds, and what is kept if the trace ends with it. */
  lemma ProbeHeard(replies: Replies, ip: ui32, depth: nat, t: nat)
    requires 1 <= t <= depth && forall s: nat :: 1 <= s < t ==> !Ends(replies, ip, s)
    ensures Log(replies, t) == Log(replies, t - 1) + [Heard(replies(t))]
    ensures Silence(replies, t) == if replies(t).NoAnswer? then Silence(replies, t - 1) + 1 else 0
    ensures LastProbe(replies, ip, depth, t) <==>
              match replies(t)
              case NoAnswer => Silence(replies, t) >= MAX_NO_ANSWER
              case Exceeded(from) => from == ip
              case _ => true
    ensures Ends(replies, ip, t) <==> LastProbe(replies, ip, depth, t)
    ensures Kept(replies, depth, t) ==
              if replies(t).NoAnswer? || replies(t).UnknownPacket? then t - 1 - Silence(replies, t - 1) else t
  {
  }

  lemma DepthOut(replies: Replies, ip: ui32, depth: nat)
    requires forall s: nat :: 1 <= s < depth + 1 ==> !Ends(replies, ip, s)
    ensures LastProbe(replies, ip, depth, depth + 1) && Kept(replies, depth, depth + 1) == depth
  {
  }

  lemma Finished(replies: Replies, ip: ui32, depth: nat, t: nat, route: seq<ui32>)
    requires LastProbe(replies, ip, depth, t) && route == Log(replies, Kept(replies, depth, t))
    ensures forall i: nat :: 1 <= i <= |route| ==>
              && !replies(i).UnknownPacket?
              && (replies(i).NoAnswer? ==> route[i - 1] == 0)
              && (replies(i).Exceeded? ==> route[i - 1] == replies(i).from)
              && (replies(i).Unreachable? ==> route[i - 1] == replies(i).from)
    ensures EndedAt(replies, ip, depth, t, |route|)
  {
    FinishedTrace(replies, ip, depth, t, route);
    if t <= depth {
      SilenceMeans(replies, t - 1);
      SilentEnd(replies, ip, t);
    }
    forall s: nat | 1 <= s < t
      ensures replies(s).NoAnswer? || (replies(s).Exceeded? && replies(s).from != ip)
    {
      assert !Ends(replies, ip, s);
    }
    forall s: nat | 1 <= s && s + 3 < t
      ensures !FourSilent(replies, s)
    {
      FourSilentEnd(replies, ip, s);
    }
  }

  /** Probe t is the last one, and n entries are kept. */
  ghost predicate EndedAt(replies: Replies, ip: ui32, depth: nat, t: nat, n: nat) {
    && 1 <= t <= depth + 1
    && (forall s: nat :: 1 <= s < t ==> replies(s).NoAnswer? || (replies(s).Exceeded? && replies(s).from != ip))
    && (forall s: nat :: 1 <= s && s + 3 < t ==> !FourSilent(replies, s))
    && (t == depth + 1 ==> n == depth)
    && (t <= depth ==>
          match replies(t)
          case Unreachable(from) => n == t
          case Exceeded(from) => from == ip && n == t
          case NoAnswer => t >= 4 && FourSilent(replies, t - 3) && n == t - 4
          case UnknownPacket =>
            && n < t && (forall s: nat :: n < s < t ==> replies(s).NoAnswer?)
            && (n > 0 ==> !replies(n).NoAnswer?))
  }

  /** The replies leave one way to end. */
  lemma EndedOnce(replies: Replies, ip: ui32, depth: nat, t: nat, n: nat, u: nat, m: nat)
    requires EndedAt(replies, ip, depth, t, n) && EndedAt(replies, ip, depth, u, m)
    ensures t == u && n == m
  {
    if t < u {
      EndedNotBefore(replies, ip, depth, t, n, u, m);
    } else if u < t {
      EndedNotBefore(replies, ip, depth, u, m, t, n);
    }
  }

  lemma EndedNotBefore(replies: Replies, ip: ui32, depth: nat, t: nat, n: nat, u: nat, m: nat)
    requires EndedAt(replies, ip, depth, t, n) && EndedAt(replies, ip, depth, u, m)
    ensures u <= t
  {
  }

  /** The target answers; a host reports it unreachable; a packet is unreadable; nobody answers any
      more; or the forty probes run out. */
  lemma EndedExamples(target: ui32)
    requires target != 7
    ensures EndedAt(s => if s == 1 then Exceeded(7) else if s == 2 then NoAnswer else Exceeded(target),
                    target, 40, 3, 3)
    ensures EndedAt(s => if s == 1 then Exceeded(7) else Unreachable(8), target, 40, 2, 2)
    ensures EndedAt(s => if s == 1 then Exceeded(7) else if s < 4 then NoAnswer else UnknownPacket, target, 40, 4, 1)
    ensures EndedAt(s => if s == 1 then Exceeded(7) else NoAnswer, target, 40, 5, 1)
    ensures EndedAt(s => Exceeded(7), target, TRACE_DEPTH, 41, 40)
  {
  }

  /** The length of the trailing run of zeros. */
  function TrailingZeros(s: seq<ui32>): nat {
    if s != [] && s[|s| - 1] == 0 then 1 + TrailingZeros(s[..|s| - 1]) else 0
  }

  lemma {:induction false} TrailingOf(s: seq<ui32>, n: nat)
    ensures TrailingZeros(s + Zeros(n)) == TrailingZeros(s) + n
  {
    if n == 0 {
      assert s + Zeros(0) == s;
    } else {
      assert s + Zeros(n) == s + Zeros(n - 1) + [0];
      assert (s + Zeros(n))[..|s| + n - 1] == s + Zeros(n - 1);
      TrailingOf(s, n - 1);
    }
  }

  lemma {:induction false} SilenceIsZeros(replies: Replies, t: nat)
    ensures Log(replies, t) == Log(replies, t - Silence(replies, t)) + Zeros(Silence(replies, t))
  {
    if t > 0 && replies(t).NoAnswer? {
      var n := Silence(replies, t - 1);
      SilenceIsZeros(replies, t - 1);
      assert Zeros(n) + [0] == Zeros(n + 1);
    } else {
      assert Log(replies, t) + Zeros(0) == Log(replies, t);
    }
  }

  /** Shrinking by the counter removes zeros only, and the whole trailing run of them exactly when
      the last probe that was answered left an address. */
  lemma SilenceIsTrailingRun(replies: Replies, t: nat)
    ensures var n := Silence(replies, t); Log(replies, t) == Log(replies, t - n) + Zeros(n)
    ensures TrailingZeros(Log(replies, t)) == Silence(replies, t) <==>
              Silence(replies, t) == t || Heard(replies(t - Silence(replies, t))) != 0
  {
    var n := Silence(replies, t);
    SilenceIsZeros(replies, t);
    TrailingOf(Log(replies, t - n), n);
    if n < t {
      LogAt(replies, t - n, t - n - 1);
    }
  }

  /** Probes i to i + 3 all went unanswered. */
  predicate FourSilent(replies: Replies, i: nat) {
    replies(i).NoAnswer? && replies(i + 1).NoAnswer? && replies(i + 2).NoAnswer? && replies(i + 3).NoAnswer?
  }

  lemma FourSilentEnd(replies: Replies, target: ui32, i: nat)
    requires i > 0
    ensures FourSilent(replies, i) ==> Ends(replies, target, i + 3)
  {
    SilenceMeans(replies, i + 3);
  }

  /** Every finished trace: at most one entry per probe, each left by a readable reply or a silence;
      never four silences in a row, and a silence last only when the depth ran out. */
  lemma FinishedTrace(replies: Replies, target: ui32, depth: nat, t: nat, route: seq<ui32>)
    requires LastProbe(replies, target, depth, t) && route == Log(replies, Kept(replies, depth, t))
    ensures |route| <= depth && |route| <= t
    ensures forall i: nat :: 1 <= i <= |route| ==> route[i - 1] == Heard(replies(i)) && !replies(i).UnknownPacket?
    ensures forall i: nat :: 1 <= i && i + 3 <= |route| ==> !FourSilent(replies, i)
    ensures route != [] && replies(|route|).NoAnswer? ==> t == depth + 1 && |route| == depth
    ensures t <= depth && replies(t).NoAnswer? ==> |route| == t - MAX_NO_ANSWER
  {
    hide Ends;
    var n := |route|;
    if t <= depth {
      SilenceMeans(replies, t - 1);
      SilentEnd(replies, target, t);
    }
    forall i: nat | 1 <= i <= n
      ensures route[i - 1] == Heard(replies(i)) && !replies(i).UnknownPacket?
    {
      LogAt(replies, n, i - 1);
      UnknownEnds(replies, target, i);
    }
    forall i: nat | 1 <= i && i + 3 <= n
      ensures !FourSilent(replies, i)
    {
      FourSilentEnd(replies, target, i);
    }
  }

  lemma UnknownEnds(replies: Replies, target: ui32, t: nat)
    ensures replies(t).UnknownPacket? ==> Ends(replies, target, t)
  {
  }

  /** A first end on a silent probe is the fourth silence in a row. */
  lemma SilentEnd(replies: Replies, target: ui32, t: nat)
    requires t > 0 && Ends(replies, target, t) && (t > 1 ==> !Ends(replies, target, t - 1))
    ensures replies(t).NoAnswer? ==> Silence(replies, t - 1) == MAX_NO_ANSWER - 1
  {
  }

  predicate FourZeros(route: seq<ui32>, i: nat) {
    i + 4 <= |route| && route[i] == 0 && route[i + 1] == 0 && route[i + 2] == 0 && route[i + 3] == 0
  }

  /** Probes i to i + 3 all left a zero, unanswered or answered from address 0. */
  predicate FourMute(replies: Replies, i: nat) {
    Heard(replies(i)) == Heard(replies(i + 1)) == Heard(replies(i + 2)) == Heard(replies(i + 3)) == 0
  }

  lemma ZerosAreMute(replies: Replies, route: seq<ui32>, i: nat)
    requires forall k: nat :: 1 <= k <= |route| ==> route[k - 1] == Heard(replies(k))
    ensures FourZeros(route, i) <==> i + 4 <= |route| && FourMute(replies, i + 1)
  {
    if i + 4 <= |route| {
      assert route[i] == Heard(replies(i + 1)) && route[i + 1] == Heard(replies(i + 2));
      assert route[i + 2] == Heard(replies(i + 3)) && route[i + 3] == Heard(replies(i + 4));
    }
  }

  /** Exactly the zeros that cannot be silence: four in a row stand where four mute probes were not
      all unanswered, and a trace that ends early ends in a zero only by a reply from address 0. */
  lemma ZerosIff(replies: Replies, target: ui32, depth: nat, t: nat, route: seq<ui32>)
    requires LastProbe(replies, target, depth, t) && route == Log(replies, Kept(replies, depth, t))
    ensures forall i: nat ::
              FourZeros(route, i) <==>
                i + 4 <= |route| && FourMute(replies, i + 1) && !FourSilent(replies, i + 1)
    ensures t <= depth && route != [] ==>
              (route[|route| - 1] == 0 <==> replies(|route|) in {Exceeded(0), Unreachable(0)})
  {
    hide LastProbe, Kept, FourMute, FourSilent, FourZeros;
    FinishedTrace(replies, target, depth, t, route);
    forall i: nat
      ensures FourZeros(route, i) <==>
                i + 4 <= |route| && FourMute(replies, i + 1) && !FourSilent(replies, i + 1)
    {
      ZerosAreMute(replies, route, i);
      assert i + 4 <= |route| ==> !FourSilent(replies, i + 1);
    }
  }

  /** Zeros stand for silence when no kept reply came from address 0: then there are never four in
      a row, and a last one means that the depth ran out. */
  lemma FinishedTraceInZeros(replies: Replies, target: ui32, depth: nat, t: nat, route: seq<ui32>)
    requires LastProbe(replies, target, depth, t) && route == Log(replies, Kept(replies, depth, t))
    requires forall i: nat :: 1 <= i <= |route| && !replies(i).NoAnswer? ==> Heard(replies(i)) != 0
    ensures forall i: nat :: !FourZeros(route, i)
    ensures route != [] && route[|route| - 1] == 0 ==> t == depth + 1 && |route| == depth
  {
    hide LastProbe, Kept, Heard;
    FinishedTrace(replies, target, depth, t, route);
    ZerosIff(replies, target, depth, t, route);
    forall i: nat
      ensures !FourZeros(route, i)
    {
      MuteIsSilent(replies, |route|, i);
    }
  }

  lemma MuteIsSilent(replies: Replies, n: nat, i: nat)
    requires forall k: nat :: 1 <= k <= n && !replies(k).NoAnswer? ==> Heard(replies(k)) != 0
    ensures i + 4 <= n && FourMute(replies, i + 1) ==> FourSilent(replies, i + 1)
  {
    hide Heard;
  }

  /** Replies from address 0 look like silence but are not counted: four in a row are kept, and so
      is one in front of the final silence. */
  lemma ZeroAddressExamples(target: ui32)
    requires target != 0
    ensures var replies: Replies := t => if t <= 4 then Exceeded(0) else Unreachable(target);
            LastProbe(replies, target, 40, 5) && Log(replies, Kept(replies, 40, 5)) == Zeros(4) + [target]
    ensures var replies: Replies := t => if t == 1 then Exceeded(0) else NoAnswer;
            LastProbe(replies, target, 40, 5) && Log(replies, Kept(replies, 40, 5)) == [0]
  {
  }
}
