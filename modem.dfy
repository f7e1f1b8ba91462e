/** Bringing up the cellular modem before the cloud session: `demo()` walks a small state
    machine. Each pass of its loop sends one AT command and inspects the modem's answer,
    until the PPP link is up.

    The answer that `receive()` reads from the UART is a parameter. It is `None` when
    nothing arrived. The answers of `ppp.isconnected()` come from an oracle. */
module ModemBringup {
  import opened Common

  /** The batch that state 1 sends, one command per pass. */
  const InitCommands: seq<string> := ["ATE0", "ATI\r\n", "AT+CPIN?\r\n", "AT+CREG=0\r\n", "AT+CGREG=0\r\n"]
  /** The batch that state 4 sends, ending with the dial command. */
  const DialCommands: seq<string> := ["AT+COPS?\r\n", "AT+CSQ\r\n", "AT+QICSGP=1,1,\"uinternet\",\"\",\"\",0\r\n", "ATD*99#\r\n"]
  const ProbeCommand: string := "AT"
  const RegistrationQuery: string := "AT+CREG?\r\n"
  const DataRegistrationQuery: string := "AT+CGREG?\r\n"

  /** State 5 polls the link at most this many times, once a second. */
  const PollLimit: nat := 30
  /** The state in which `demo()` returns. */
  const Final: nat := 7
  /** The state that starts the PPP link. */
  const Dialled: nat := 5

  /** The two registers: the state `pp` and the cursor `pp_2` into a batch of commands. */
  datatype Regs = Regs(pp: nat, cursor: nat)

  const Start: Regs := Regs(0, 0)

  /** The length of the command batch a state walks through; 1 for the other states. */
  function BatchLength(pp: nat): nat
  {
    if pp == 1 then |InitCommands| else if pp == 4 then |DialCommands| else 1
  }

  predicate IsBatch(pp: nat) { pp == 1 || pp == 4 }

  /** Between passes of the loop the state is one of 0..7 and the cursor points into the
      current batch: it is 0 in every state that has no batch. */
  predicate Inv(r: Regs)
  {
    r.pp <= Final && r.cursor < BatchLength(r.pp)
  }

  /** The command a state sends on one pass, in the states that talk to the modem. */
  function Command(r: Regs): string
    requires Inv(r) && r.pp < Dialled
  {
    match r.pp
    case 0 => ProbeCommand
    case 1 => InitCommands[r.cursor]
    case 2 => RegistrationQuery
    case 3 => DataRegistrationQuery
    case 4 => DialCommands[r.cursor]
  }

  /** The modem is registered on its home network (stat 1) or roaming (stat 5). */
  predicate Registered(x: string)
  {
    Contains(x, "+CREG: 0,5") || Contains(x, "+CREG: 0,1")
  }

  /** The same for the packet-data service. */
  predicate DataRegistered(x: string)
  {
    Contains(x, "+CGREG: 0,5") || Contains(x, "+CGREG: 0,1")
  }

  /** What an answer must contain to move a state on; in a batch any answer will do. */
  predicate Advances(pp: nat, x: string)
  {
    if pp == 0 then Contains(x, "AT")
    else if pp == 2 then Registered(x)
    else if pp == 3 then DataRegistered(x)
    else true
  }

  /** One exchange of the states 0..4: the registers after the answer `x`. */
  function Exchange(r: Regs, x: Option<string>): (s: Regs)
    requires Inv(r) && r.pp < Dialled
    ensures Inv(s)
  {
    if IsBatch(r.pp) then
      var c := if x.Some? then r.cursor + 1 else r.cursor;
      if c == BatchLength(r.pp) then Regs(r.pp + 1, 0) else Regs(r.pp, c)
    else if x.Some? && Advances(r.pp, x.value) then Regs(r.pp + 1, 0)
    else r
  }

  // ---------------------------------------------------------------------------------------
  // State 5: polling the PPP link

  /** The polls state 5 makes after poll `i`: it stops at the first poll that answers true,
      and after PollLimit polls. `connected(j)` answers poll number j, counted from 1. */
  function PollsFrom(connected: nat -> bool, i: nat): (n: nat)
    requires i < PollLimit
    ensures i < n <= PollLimit
    decreases PollLimit - i
  {
    if connected(i + 1) || i + 1 == PollLimit then i + 1 else PollsFrom(connected, i + 1)
  }

  /** The number of polls state 5 makes in one pass. */
  function Polls(connected: nat -> bool): nat
  {
    PollsFrom(connected, 0)
  }

  /** The link came up during the pass: the last poll made answered true. */
  predicate LinkUp(connected: nat -> bool)
  {
    connected(Polls(connected))
  }

  lemma {:induction false} PollsFromStops(connected: nat -> bool, i: nat)
    requires i < PollLimit
    ensures var n := PollsFrom(connected, i);
            (forall j :: i < j < n ==> !connected(j)) && (connected(n) || n == PollLimit)
    decreases PollLimit - i
  {
    if !(connected(i + 1) || i + 1 == PollLimit) {
      PollsFromStops(connected, i + 1);
    }
  }

  /** State 5 polls until the first true answer, and no more than PollLimit times; so the
      link is seen up exactly when one of the first PollLimit polls answers true. */
  lemma PollsMeaning(connected: nat -> bool)
    ensures 1 <= Polls(connected) <= PollLimit
    ensures forall j :: 1 <= j < Polls(connected) ==> !connected(j)
    ensures LinkUp(connected) <==> exists j :: 1 <= j <= PollLimit && connected(j)
  {
    PollsFromStops(connected, 0);
  }

  // ---------------------------------------------------------------------------------------
  // One pass of the loop

  /** The registers after one pass of the loop of `demo()`. `x` is the answer read in the
      states that talk to the modem; `connected` answers the polls of state 5. */
  function Next(r: Regs, x: Option<string>, connected: nat -> bool): (s: Regs)
    requires Inv(r)
    ensures Inv(s)
  {
    if r.pp < Dialled then Exchange(r, x)
    else if r.pp == Dialled then (if LinkUp(connected) then Regs(r.pp + 1, r.cursor) else r)
    else if r.pp == 6 then Regs(r.pp + 1, r.cursor)
    else r
  }

  /** The registers after the first `n` passes, where pass k reads `responses[k]` and polls
      `connected(k)`. */
  function Drive(r: Regs, responses: seq<Option<string>>, connected: nat -> nat -> bool, n: nat): (s: Regs)
    requires Inv(r) && n <= |responses|
    ensures Inv(s)
  {
    if n == 0 then r else Next(Drive(r, responses, connected, n - 1), responses[n - 1], connected(n - 1))
  }

  class Modem {
    var pp: nat
    var pp2: nat

    function State(): Regs
      reads this
    {
      Regs(pp, pp2)
    }

    /** The registers as `demo()` sets them after power-up; the pin writes are left out. */
    constructor ()
      ensures State() == Start && Inv(State())
    {
      pp, pp2 := 0, 0;
    }

    /** One pass of the loop: `sent` is the command written to the UART, `polls` the number
        of `isconnected()` calls, and `finished` that `demo()` returned. */
    method Turn(response: Option<string>, connected: nat -> bool) returns (sent: Option<string>, polls: nat, finished: bool)
      requires Inv(State())
      modifies this
      ensures State() == Next(old(State()), response, connected)
      ensures sent == (if old(pp) < Dialled then Some(Command(old(State()))) else None)
      ensures polls == (if old(pp) == Dialled then Polls(connected) else 0)
      ensures finished <==> old(pp) == Final
    {
      sent, polls, finished := None, 0, false;
      if pp == 0 {
        sent := Some(ProbeCommand);
        if response.Some? {
          if Contains(response.value, "AT") {
            pp, pp2 := pp + 1, 0;
          }
        }
      } else if pp == 1 {
        sent := Some(InitCommands[pp2]);
        if response.Some? {
          pp2 := pp2 + 1;
        }
        if pp2 == |InitCommands| {
          pp, pp2 := pp + 1, 0;
        }
      } else if pp == 2 {
        sent := Some(RegistrationQuery);
        if response.Some? {
          if Contains(response.value, "+CREG: 0,5") || Contains(response.value, "+CREG: 0,1") {
            pp, pp2 := pp + 1, 0;
          }
        }
      } else if pp == 3 {
        sent := Some(DataRegistrationQuery);
        if response.Some? {
          if Contains(response.value, "+CGREG: 0,5") || Contains(response.value, "+CGREG: 0,1") {
            pp, pp2 := pp + 1, 0;
          }
        }
      } else if pp == 4 {
        sent := Some(DialCommands[pp2]);
        if response.Some? {
          pp2 := pp2 + 1;
        }
        if pp2 == |DialCommands| {
          pp, pp2 := pp + 1, 0;
        }
      } else if pp == 5 {
        var i := 0;
        while i < PollLimit
          invariant 0 <= i <= PollLimit && pp == Dialled
          invariant i < PollLimit ==> PollsFrom(connected, i) == Polls(connected)
          invariant i == PollLimit ==> Polls(connected) == PollLimit && !LinkUp(connected)
        {
          i := i + 1;
          if connected(i) {
            pp := pp + 1;
            break;
          }
        }
        polls := i;
      } else if pp == 6 {
        pp := pp + 1;
      } else if pp == 7 {
        finished := true;
      }
    }

    /** The loop of `demo()`, run over the answers of `responses`, one per pass, until it
        returns or the answers run out. Every pass takes the next entry of `responses`, also
        in states 5 to 7 where `demo()` reads no answer: a script puts a filler entry there. */
    method Demo(responses: seq<Option<string>>, connected: nat -> nat -> bool) returns (passes: nat, finished: bool)
      requires Inv(State())
      modifies this
      ensures passes <= |responses|
      ensures State() == Drive(old(State()), responses, connected, passes)
      ensures finished ==> passes > 0 && Drive(old(State()), responses, connected, passes - 1).pp == Final
      ensures forall k: nat :: k < passes - 1 ==> Drive(old(State()), responses, connected, k).pp != Final
      ensures !finished ==> passes == |responses|
      ensures !finished ==> forall k: nat :: k < passes ==> Drive(old(State()), responses, connected, k).pp != Final
    {
      passes, finished := 0, false;
      while passes < |responses|
        invariant passes <= |responses| && Inv(State())
        invariant State() == Drive(old(State()), responses, connected, passes)
        invariant forall k: nat :: k < passes ==> Drive(old(State()), responses, connected, k).pp != Final
      {
        var sent, polls, done := Turn(responses[passes], connected(passes));
        passes := passes + 1;
        if done {
          finished := true;
          return;
        }
      }
    }
  }

  // ---------------------------------------------------------------------------------------
  // Properties of one pass

  /** A missing answer changes neither register. */
  lemma NoAnswerChangesNothing(r: Regs, connected: nat -> bool)
    requires Inv(r) && r.pp < Dialled
    ensures Next(r, None, connected) == r
  {
  }

  /** States 0, 2 and 3 move on exactly when the answer holds what they wait for: "AT" for
      the probe, a registration status 1 or 5 for the two registration queries. Moving on
      resets the cursor, and otherwise nothing changes. */
  lemma QueryStates(r: Regs, x: Option<string>, connected: nat -> bool)
    requires Inv(r) && (r.pp == 0 || r.pp == 2 || r.pp == 3)
    ensures var s := Next(r, x, connected);
            && (s == Regs(r.pp + 1, 0) <==> x.Some? && Advances(r.pp, x.value))
            && (s == Regs(r.pp + 1, 0) || s == r)
    ensures r.pp == 0 ==> (Next(r, x, connected).pp == 1 <==> x.Some? && Contains(x.value, "AT"))
    ensures r.pp == 2 ==> (Next(r, x, connected).pp == 3 <==> x.Some? && Registered(x.value))
    ensures r.pp == 3 ==> (Next(r, x, connected).pp == 4 <==> x.Some? && DataRegistered(x.value))
  {
  }

  /** In the two batch states every answer, whatever it says, moves the cursor on; after the
      last command of the batch the state moves on and the cursor returns to 0. */
  lemma BatchStates(r: Regs, x: string, connected: nat -> bool)
    requires Inv(r) && IsBatch(r.pp)
    ensures var s := Next(r, Some(x), connected);
            if r.cursor + 1 == BatchLength(r.pp) then s == Regs(r.pp + 1, 0) else s == Regs(r.pp, r.cursor + 1)
  {
  }

  /** The state never goes back and moves on by at most one per pass. */
  lemma StateMonotone(r: Regs, x: Option<string>, connected: nat -> bool)
    requires Inv(r)
    ensures r.pp <= Next(r, x, connected).pp <= r.pp + 1
  {
  }

  /** Once state 7 is reached it is never left. */
  lemma FinalIsTerminal(r: Regs, x: Option<string>, connected: nat -> bool)
    requires Inv(r) && r.pp == Final
    ensures Next(r, x, connected) == r
  {
  }

  /** State 5 moves on exactly when one of its polls sees the link up; it is otherwise
      retried on the next pass. */
  lemma DialledState(r: Regs, connected: nat -> bool)
    requires Inv(r) && r.pp == Dialled
    ensures Next(r, None, connected).pp == Final - 1 <==> exists j :: 1 <= j <= PollLimit && connected(j)
  {
    PollsMeaning(connected);
  }

  // ---------------------------------------------------------------------------------------
  // The happy path

  /** The answer `x` moves the registers `r` on as intended. */
  predicate Accepted(r: Regs, x: Option<string>)
  {
    x.Some? && Advances(r.pp, x.value)
  }

  /** The exchanges still needed to reach state 5 when every answer is accepted. */
  function Remaining(r: Regs): nat
    requires Inv(r)
  {
    match r.pp
    case 0 => 1 + |InitCommands| + 2 + |DialCommands|
    case 1 => |InitCommands| - r.cursor + 2 + |DialCommands|
    case 2 => 2 + |DialCommands|
    case 3 => 1 + |DialCommands|
    case 4 => |DialCommands| - r.cursor
    case _ => 0
  }

  lemma AcceptedExchange(r: Regs, x: Option<string>)
    requires Inv(r) && r.pp < Dialled && Accepted(r, x)
    ensures Remaining(Exchange(r, x)) == Remaining(r) - 1
    ensures Remaining(r) > 0
  {
  }

  /** When every answer is accepted, the first 12 passes (1 probe, 5 initial commands,
      2 registration queries and 4 dial commands) stay below state 5, and pass 12 ends in
      state 5. */
  lemma {:induction false} AcceptedPasses(responses: seq<Option<string>>, connected: nat -> nat -> bool, k: nat)
    requires k <= Remaining(Start) <= |responses|
    requires forall j :: 0 <= j < k ==> Accepted(Drive(Start, responses, connected, j), responses[j])
    ensures Remaining(Drive(Start, responses, connected, k)) == Remaining(Start) - k
    ensures k < Remaining(Start) ==> Drive(Start, responses, connected, k).pp < Dialled
    ensures k == Remaining(Start) ==> Drive(Start, responses, connected, k) == Regs(Dialled, 0)
  {
    if k > 0 {
      AcceptedPasses(responses, connected, k - 1);
      AcceptedExchange(Drive(Start, responses, connected, k - 1), responses[k - 1]);
    }
  }

  /** With every answer accepted and the link up on the 13th pass, `demo()` reaches state 7
      after 14 passes and returns on the 15th. */
  lemma HappyBringUp(responses: seq<Option<string>>, connected: nat -> nat -> bool)
    requires Remaining(Start) + 3 <= |responses|
    requires forall j :: 0 <= j < Remaining(Start) ==> Accepted(Drive(Start, responses, connected, j), responses[j])
    requires LinkUp(connected(Remaining(Start)))
    ensures Remaining(Start) == 12
    ensures Drive(Start, responses, connected, 12) == Regs(Dialled, 0)
    ensures Drive(Start, responses, connected, 14) == Regs(Final, 0)
    ensures forall k :: 0 <= k < 14 ==> Drive(Start, responses, connected, k).pp < Final
  {
    assert Remaining(Start) == 12;
    AcceptedPasses(responses, connected, 12);
    assert Drive(Start, responses, connected, 13) == Regs(Final - 1, 0) by {
      assert Drive(Start, responses, connected, 13)
          == Next(Drive(Start, responses, connected, 12), responses[12], connected(12));
    }
    forall k | 0 <= k < 12
      ensures Drive(Start, responses, connected, k).pp < Final
    {
      AcceptedPasses(responses, connected, k);
    }
  }
}
