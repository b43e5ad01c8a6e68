/** The non-blocking flags of a socket against the mode of its descriptor, over every outcome of the
    system calls. */
module NonBlocking {
  /** The bits of the state word; those that have no say in blocking are one constructor. */
  datatype Flag = UserSetNonBlocking | InternalNonBlocking | OtherFlag(bit: nat)

  /** What the operating system holds behind the descriptor. */
  datatype Descriptor = Closed | Open(nonBlocking: bool)

  datatype CloseOutcome = Success | WouldBlock | Failure(open: bool)

  datatype Error = NoError | BadDescriptor | InvalidArgument | SystemError

  datatype SocketState = SocketState(invalid: bool, flags: set<Flag>, descriptor: Descriptor)

  /** A call together with what the system answers it. */
  datatype Call =
    | SetUser(value: bool, succeeds: bool)
    | SetInternal(value: bool, succeeds: bool)
    | IoctlFionbio(arg: int, succeeds: bool)
    | IoctlOther(succeeds: bool)
    | Close(first: CloseOutcome, ioctlSucceeds: bool, second: CloseOutcome)

  function WithMode(d: Descriptor, nonBlocking: bool): Descriptor {
    if d.Open? then Open(nonBlocking) else d
  }

  function AfterClose(d: Descriptor, outcome: CloseOutcome): Descriptor {
    match outcome
    case Success => Closed
    case WouldBlock => d
    case Failure(open) => if open then d else Closed
  }

  /** The open descriptor is non-blocking exactly when the user or the library asked for it. */
  ghost predicate ModeMatchesFlags(s: SocketState) {
    s.descriptor.Open? ==>
      (s.descriptor.nonBlocking <==> UserSetNonBlocking in s.flags || InternalNonBlocking in s.flags)
  }

  class Socket {
    const invalid: bool
    var flags: set<Flag>
    var descriptor: Descriptor

    constructor (invalid: bool, flags: set<Flag>, descriptor: Descriptor)
      ensures View() == SocketState(invalid, flags, descriptor)
    {
      this.invalid, this.flags, this.descriptor := invalid, flags, descriptor;
    }

    ghost function View(): SocketState
      reads this
    {
      SocketState(invalid, flags, descriptor)
    }

    /** ioctl(FIONBIO): a successful call sets the mode, a failed one changes nothing. */
    method SystemIoctl(nonBlocking: bool, succeeds: bool)
      modifies this`descriptor
      ensures descriptor == if succeeds then WithMode(old(descriptor), nonBlocking) else old(descriptor)
    {
      if succeeds && descriptor.Open? {
        descriptor := Open(nonBlocking);
      }
    }

    method SystemClose(outcome: CloseOutcome)
      modifies this`descriptor
      ensures descriptor == AfterClose(old(descriptor), outcome)
    {
      if outcome.Success? || (outcome.Failure? && !outcome.open) {
        descriptor := Closed;
      }
    }

    method SetUserNonBlocking(value: bool, succeeds: bool) returns (ok: bool, ec: Error)
      modifies this
      ensures ok <==> !invalid && succeeds
      ensures ec == if invalid then BadDescriptor else if ok then NoError else SystemError
      ensures !ok ==> View() == old(View())
      ensures ok ==> descriptor == WithMode(old(descriptor), value)
      ensures ok ==> descriptor == if old(descriptor) == Closed then Closed else Open(value)
      ensures ok ==> flags == if value then old(flags) + {UserSetNonBlocking}
                              else old(flags) - {UserSetNonBlocking, InternalNonBlocking}
    {
      if invalid {
        return false, BadDescriptor;
      }
      SystemIoctl(value, succeeds);
      if succeeds {
        if value {
          flags := flags + {UserSetNonBlocking};
        } else {
          flags := flags - {UserSetNonBlocking, InternalNonBlocking};
        }
        return true, NoError;
      }
      return false, SystemError;
    }

    method SetInternalNonBlocking(value: bool, succeeds: bool) returns (ok: bool, ec: Error)
      modifies this
      ensures ok <==> !invalid && succeeds && (value || UserSetNonBlocking !in old(flags))
      ensures ec == if invalid then BadDescriptor
                    else if !value && UserSetNonBlocking in old(flags) then InvalidArgument
                    else if ok then NoError else SystemError
      ensures !ok ==> View() == old(View())
      ensures ok ==> descriptor == WithMode(old(descriptor), value)
      ensures ok ==> descriptor == if old(descriptor) == Closed then Closed else Open(value)
      ensures ok ==> flags == if value then old(flags) + {InternalNonBlocking}
                              else old(flags) - {InternalNonBlocking}
    {
      if invalid {
        return false, BadDescriptor;
      }
      if !value && UserSetNonBlocking in flags {
        return false, InvalidArgument;
      }
      SystemIoctl(value, succeeds);
      if succeeds {
        if value {
          flags := flags + {InternalNonBlocking};
        } else {
          flags := flags - {InternalNonBlocking};
        }
        return true, NoError;
      }
      return false, SystemError;
    }

    method Ioctl(isFionbio: bool, arg: int, succeeds: bool) returns (ok: bool, ec: Error)
      modifies this
      ensures ok <==> !invalid && succeeds
      ensures ec == if invalid then BadDescriptor else if ok then NoError else SystemError
      ensures !ok || !isFionbio ==> View() == old(View())
      ensures ok && isFionbio ==> descriptor == WithMode(old(descriptor), arg != 0)
      ensures ok && isFionbio ==> descriptor == if old(descriptor) == Closed then Closed else Open(arg != 0)
      ensures ok && isFionbio ==> flags == if arg != 0 then old(flags) + {UserSetNonBlocking}
                                           else old(flags) - {UserSetNonBlocking, InternalNonBlocking}
    {
      if invalid {
        return false, BadDescriptor;
      }
      if isFionbio {
        SystemIoctl(arg != 0, succeeds);
      }
      if succeeds {
        if isFionbio {
          if arg != 0 {
            flags := flags + {UserSetNonBlocking};
          } else {
            flags := flags - {UserSetNonBlocking, InternalNonBlocking};
          }
        }
        return true, NoError;
      }
      return false, SystemError;
    }

    /** Closes; when that would block, clears the non-blocking mode without looking and tries again. */
    method CloseSocket(first: CloseOutcome, ioctlSucceeds: bool, second: CloseOutcome) returns (ok: bool)
      modifies this
      ensures ok <==> invalid || first.Success? || (first.WouldBlock? && second.Success?)
      ensures invalid ==> View() == old(View())
      ensures !invalid && ok ==> descriptor == Closed
      ensures !invalid && first == Success ==> descriptor == Closed && flags == old(flags)
      ensures !invalid && first == Failure(true) ==> View() == old(View())
      ensures !invalid && first == Failure(false) ==> descriptor == Closed && flags == old(flags)
      ensures !invalid && first == WouldBlock && (second == Success || second == Failure(false)) ==>
                descriptor == Closed
      ensures !invalid && first == WouldBlock && (second == WouldBlock || second == Failure(true)) ==>
                descriptor == if old(descriptor) == Closed then Closed
                              else if ioctlSucceeds then Open(false) else old(descriptor)
      ensures !invalid && !first.WouldBlock? ==>
                descriptor == AfterClose(old(descriptor), first) && flags == old(flags)
      ensures !invalid && first.WouldBlock? ==>
                && flags == old(flags) - {UserSetNonBlocking, InternalNonBlocking}
                && descriptor == AfterClose(if ioctlSucceeds then WithMode(old(descriptor), false)
                                            else old(descriptor), second)
    {
      if invalid {
        return true;
      }
      SystemClose(first);
      if first.WouldBlock? {
        SystemIoctl(false, ioctlSucceeds);
        flags := flags - {UserSetNonBlocking, InternalNonBlocking};
        SystemClose(second);
        return second.Success?;
      }
      return first.Success?;
    }

    /** Any one call, with whatever the system answers. */
    method Do(call: Call)
      modifies this
      ensures View() == Step(old(View()), call)
    {
      match call
      case SetUser(value, succeeds) => var ok, ec := SetUserNonBlocking(value, succeeds);
      case SetInternal(value, succeeds) => var ok, ec := SetInternalNonBlocking(value, succeeds);
      case IoctlFionbio(arg, succeeds) => var ok, ec := Ioctl(true, arg, succeeds);
      case IoctlOther(succeeds) => var ok, ec := Ioctl(false, 0, succeeds);
      case Close(first, ioctlSucceeds, second) => var ok := CloseSocket(first, ioctlSucceeds, second);
    }
  }

  function Step(s: SocketState, call: Call): SocketState {
    if s.invalid then s else
    match call
    case SetUser(value, succeeds) => if succeeds then UserMode(s, value) else s
    case SetInternal(value, succeeds) =>
      if !succeeds || (!value && UserSetNonBlocking in s.flags) then s
      else s.(flags := if value then s.flags + {InternalNonBlocking} else s.flags - {InternalNonBlocking},
              descriptor := WithMode(s.descriptor, value))
    case IoctlFionbio(arg, succeeds) => if succeeds then UserMode(s, arg != 0) else s
    case IoctlOther(_) => s
    case Close(first, ioctlSucceeds, second) =>
      if first.WouldBlock? then
        s.(flags := s.flags - {UserSetNonBlocking, InternalNonBlocking},
           descriptor := AfterClose(if ioctlSucceeds then WithMode(s.descriptor, false) else s.descriptor, second))
      else s.(descriptor := AfterClose(s.descriptor, first))
  }

  /** Setting the user flag, or clearing both flags: clearing the user's overrides the library's. */
  function UserMode(s: SocketState, value: bool): SocketState {
    s.(flags := if value then s.flags + {UserSetNonBlocking}
                else s.flags - {UserSetNonBlocking, InternalNonBlocking},
       descriptor := WithMode(s.descriptor, value))
  }

  function Run(s: SocketState, calls: seq<Call>): SocketState
    decreases |calls|
  {
    if calls == [] then s else Run(Step(s, calls[0]), calls[1..])
  }

  /** A close that would block, whose unchecked mode change fails, leaves a non-blocking descriptor
      open: it stays non-blocking with both flags cleared. */
  predicate LosesMode(s: SocketState, call: Call) {
    && call.Close? && call.first.WouldBlock? && !call.ioctlSucceeds
    && !s.invalid && s.descriptor == Open(true) && AfterClose(s.descriptor, call.second).Open?
  }

  /** That is the one way in which a call takes mode and flags out of step. */
  lemma StepKeepsModeIff(s: SocketState, call: Call)
    requires ModeMatchesFlags(s)
    ensures ModeMatchesFlags(Step(s, call)) <==> !LosesMode(s, call)
  {
  }

  lemma {:induction false} RunNext(s: SocketState, calls: seq<Call>, k: nat)
    requires k < |calls|
    ensures Run(s, calls[..k + 1]) == Step(Run(s, calls[..k]), calls[k])
    decreases k
  {
    if k > 0 {
      assert calls[..k + 1][1..] == calls[1..][..k] && calls[..k][1..] == calls[1..][..k - 1];
      RunNext(Step(s, calls[0]), calls[1..], k - 1);
    }
  }

  lemma {:induction false} KeptUpTo(s: SocketState, calls: seq<Call>, k: nat)
    requires ModeMatchesFlags(s) && k <= |calls|
    requires forall j :: 0 <= j < k ==> !LosesMode(Run(s, calls[..j]), calls[j])
    ensures ModeMatchesFlags(Run(s, calls[..k]))
  {
    if k > 0 {
      KeptUpTo(s, calls, k - 1);
      RunNext(s, calls, k - 1);
      StepKeepsModeIff(Run(s, calls[..k - 1]), calls[k - 1]);
    }
  }

  /** Over every sequence of calls: mode and flags match all along exactly when no call is that close
      in the state it finds. */
  lemma RunKeepsModeIff(s: SocketState, calls: seq<Call>)
    requires ModeMatchesFlags(s)
    ensures (forall k :: 0 <= k <= |calls| ==> ModeMatchesFlags(Run(s, calls[..k])))
              <==> (forall k :: 0 <= k < |calls| ==> !LosesMode(Run(s, calls[..k]), calls[k]))
  {
    hide ModeMatchesFlags, LosesMode, Step, Run;
    if forall k :: 0 <= k < |calls| ==> !LosesMode(Run(s, calls[..k]), calls[k]) {
      forall k | 0 <= k <= |calls|
        ensures ModeMatchesFlags(Run(s, calls[..k]))
      {
        KeptUpTo(s, calls, k);
      }
    }
    if forall k :: 0 <= k <= |calls| ==> ModeMatchesFlags(Run(s, calls[..k])) {
      forall k | 0 <= k < |calls|
        ensures !LosesMode(Run(s, calls[..k]), calls[k])
      {
        RunNext(s, calls, k);
        StepKeepsModeIff(Run(s, calls[..k]), calls[k]);
      }
    }
  }

  /** In particular when no close has to change the mode in vain. */
  lemma RunKeepsMode(s: SocketState, calls: seq<Call>)
    requires ModeMatchesFlags(s)
    requires forall c :: c in calls ==> !(c.Close? && c.first.WouldBlock? && !c.ioctlSucceeds)
    ensures ModeMatchesFlags(Run(s, calls))
  {
    RunKeepsModeIff(s, calls);
    assert calls[..|calls|] == calls;
  }

  /** A close that would block, fails to change the mode and would block again leaves a descriptor
      that is still non-blocking while no flag says so. */
  lemma StuckCloseExample()
    ensures var s := SocketState(false, {UserSetNonBlocking}, Open(true));
            var call := Close(WouldBlock, false, WouldBlock);
            && ModeMatchesFlags(s) && LosesMode(s, call)
            && Step(s, call) == SocketState(false, {}, Open(true))
  {
    assert {UserSetNonBlocking} - {UserSetNonBlocking, InternalNonBlocking} == {};
  }
}
