/**
 The request/reply protocol of the client/server example: clients publish operations, one
 server publishes results, and either may be lost, duplicated or reordered on the way. A take
 that fails leaves the previous sample information in place.
 */
module Calculator {
  import opened Common

  const WORD := 0x1_0000_0000

  /** No client ever sets the guid of its operations. */
  datatype Guid = Unknown | Known(id: nat)

  datatype OperationType = Addition | Subtraction | Multiplication | Division

  datatype ResultType = GoodResult | ErrorResult | ServerNotReady

  datatype Operation = Operation(guid: Guid, id: nat, op: OperationType, num1: int, num2: int)

  datatype Result = Result(guid: Guid, id: nat, kind: ResultType, value: int)

  /** What a call returns: the kind, and a value only with a good result. */
  datatype Reply = Reply(kind: ResultType, value: Maybe<int>)

  function Delivered(r: Result): Reply {
    Reply(r.kind, if r.kind == GoodResult then Just(r.value) else Nothing)
  }

  // ---------------------------------------------------------------- the server

  /** A 32-bit signed number; what C++ leaves undefined on overflow wraps around here. */
  function Int32(x: int): (r: int)
    ensures -0x8000_0000 <= r < 0x8000_0000 && (x - r) % WORD == 0
    ensures -0x8000_0000 <= x < 0x8000_0000 ==> r == x
  {
    (x + 0x8000_0000) % WORD - 0x8000_0000
  }

  /** The server's calculate; a division with a non-zero divisor leaves the result variable as it was. */
  function Calculate(op: OperationType, num1: int, num2: int, value: int): (ResultType, int) {
    match op
    case Subtraction => (GoodResult, Int32(num1 - num2))
    case Addition => (GoodResult, Int32(num1 + num2))
    case Multiplication => (GoodResult, Int32(num1 * num2))
    case Division => if num2 == 0 then (ErrorResult, value) else (GoodResult, value)
  }

  /** The number an operation asks for, as far as the server computes it. */
  function Exact(op: OperationType, num1: int, num2: int, value: int): int {
    match op
    case Addition => num1 + num2
    case Subtraction => num1 - num2
    case Multiplication => num1 * num2
    case Division => value
  }

  /** Only a division by zero is an error; otherwise the outcome is the exact one when that fits 32 bits, and always congruent to it. */
  lemma CalculateMeans(op: OperationType, num1: int, num2: int, value: int)
    requires -0x8000_0000 <= value < 0x8000_0000
    ensures var (kind, v) := Calculate(op, num1, num2, value);
            && kind != ServerNotReady && (kind == ErrorResult <==> op == Division && num2 == 0)
            && -0x8000_0000 <= v < 0x8000_0000 && (Exact(op, num1, num2, value) - v) % WORD == 0
            && (-0x8000_0000 <= Exact(op, num1, num2, value) < 0x8000_0000 ==> v == Exact(op, num1, num2, value))
  {
  }

  /** The result that belongs to an operation. */
  function Answer(o: Operation): Result {
    var (kind, value) := Calculate(o.op, o.num1, o.num2, 0);
    Result(o.guid, o.id, kind, value)
  }

  function Abs(x: int): nat {
    if x < 0 then -x else x
  }

  /** Division as C++ does it, with the fraction cut off. */
  function Quotient(num1: int, num2: int): int
    requires num2 != 0
  {
    var q := Abs(num1) / Abs(num2);
    if (num1 < 0) == (num2 < 0) then q else -q
  }

  /** What is sent for a division is the quotient if and only if that is 0. */
  lemma DivisionRight(o: Operation)
    requires o.op == Division && o.num2 != 0
    ensures Answer(o).kind == GoodResult && (Answer(o).value == Quotient(o.num1, o.num2) <==> Abs(o.num1) < Abs(o.num2))
  {
    QuotientZero(Abs(o.num1), Abs(o.num2));
  }

  lemma QuotientZero(a: nat, b: nat)
    requires b > 0
    ensures a / b == 0 <==> a < b
  {
    assert a == (a / b) * b + a % b;
  }

  /** Six divided by three is reported as 0, with success. */
  lemma DivisionWrong(guid: Guid, id: nat)
    ensures Delivered(Answer(Operation(guid, id, Division, 6, 3))) == Reply(GoodResult, Just(0)) && Quotient(6, 3) == 2
  {
  }

  /** What a take yields: a sample with data, a sample without (dispose, unregister), or nothing. */
  datatype Take<T> = Sample(data: T) | NoData | Failed

  /** The listener's variables: the last operation, and whether the last sample information said ALIVE. */
  datatype ServerState = ServerState(operation: Operation, alive: bool, served: nat)

  const NewServer := ServerState(Operation(Unknown, 0, Addition, 0, 0), true, 0)

  function AfterTake(s: ServerState, t: Take<Operation>): ServerState {
    match t
    case Sample(o) => s.(operation := o, alive := true)
    case NoData => s.(alive := false)
    case Failed => s
  }

  /** The listener's reaction: its new state, and the result it publishes, if any. */
  function Serve(s: ServerState, t: Take<Operation>): (ServerState, Maybe<Result>) {
    var s1 := AfterTake(s, t);
    if s1.alive then (s1.(served := s1.served + 1), Just(Answer(s1.operation))) else (s1, Nothing)
  }

  class OperationListener {
    var operation: Operation
    var result: Result
    var alive: bool
    var served: nat

    ghost function State(): ServerState
      reads this
    {
      ServerState(operation, alive, served)
    }

    constructor ()
      ensures State() == NewServer
    {
      operation, result := Operation(Unknown, 0, Addition, 0, 0), Result(Unknown, 0, GoodResult, 0);
      alive, served := true, 0;
    }

    method OnNewDataMessage(taken: Take<Operation>) returns (published: Maybe<Result>)
      modifies this
      ensures (State(), published) == Serve(old(State()), taken)
      ensures taken.Sample? ==> published.Just? && published.value.id == taken.data.id && published.value.guid == taken.data.guid
      ensures served == old(served) + if published.Just? then 1 else 0
    {
      match taken {
        case Sample(o) =>
          operation, alive := o, true;
        case NoData =>
          alive := false;
        case Failed =>
      }
      published := Nothing;
      if alive {
        served := served + 1;
        result := result.(guid := operation.guid);
        result := result.(id := operation.id);
        result := result.(value := 0);
        var (kind, value) := Calculate(operation.op, operation.num1, operation.num2, result.value);
        result := result.(kind := kind, value := value);
        published := Just(result);
      }
    }
  }

  // ---------------------------------------------------------------- the client

  datatype ClientState = ClientState(operation: Operation, result: Result, alive: bool, waiting: bool, calls: nat)

  const NewClient := ClientState(Operation(Unknown, 0, Addition, 0, 0), Result(Unknown, 0, GoodResult, 0), true, false, 0)

  /** The first half of a call: the operation gets the next id and is published. */
  function Begin(c: ClientState, op: OperationType, num1: int, num2: int): ClientState {
    c.(operation := Operation(c.operation.guid, (c.operation.id + 1) % WORD, op, num1, num2), waiting := true, calls := c.calls + 1)
  }

  /** One round of the loop: the result is reset (but for its kind), a take overwrites it or not, and the loop ends on a match. */
  function Round(c: ClientState, t: Take<Result>): ClientState {
    var reset := c.result.(guid := Unknown, id := 0, value := 0);
    var c1 := match t
              case Sample(r) => c.(result := r, alive := true)
              case NoData => c.(result := reset, alive := false)
              case Failed => c.(result := reset);
    c1.(waiting := !(c1.alive && c1.result.guid == c1.operation.guid && c1.result.id == c1.operation.id))
  }

  /** The rounds of a loop over these takes, up to the one that ends it. */
  function Rounds(c: ClientState, takes: seq<Take<Result>>): ClientState
    decreases |takes|
  {
    if !c.waiting || takes == [] then c else Rounds(Round(c, takes[0]), takes[1..])
  }

  class Client {
    var operation: Operation
    var result: Result
    var alive: bool
    var isReady: bool
    ghost var waiting: bool
    ghost var calls: nat

    ghost function State(): ClientState
      reads this
    {
      ClientState(operation, result, alive, waiting, calls)
    }

    constructor ()
      ensures State() == NewClient && !isReady
    {
      operation, result, alive, isReady := Operation(Unknown, 0, Addition, 0, 0), Result(Unknown, 0, GoodResult, 0), true, false;
      waiting, calls := false, 0;
    }

    method ResetResult()
      modifies this`result
      ensures result == old(result).(guid := Unknown, id := 0, value := 0)
    {
      result := result.(guid := Unknown);
      result := result.(id := 0);
      result := result.(value := 0);
    }

    /** A call, given what its takes yield; `reply` is nothing while none of them ended the loop. */
    method Calculate(op: OperationType, num1: int, num2: int, takes: seq<Take<Result>>) returns (published: Maybe<Operation>, reply: Maybe<Reply>)
      requires !waiting
      modifies this
      ensures isReady == old(isReady)
      ensures !isReady ==> published == Nothing && State() == old(State()) && reply == Just(Reply(ServerNotReady, Nothing))
      ensures isReady ==> published.Just? && published.value.op == op && published.value.num1 == num1 && published.value.num2 == num2
      ensures isReady ==> published == Just(operation) && State() == Rounds(Begin(old(State()), op, num1, num2), takes)
                          && reply == if waiting then Nothing else Just(Delivered(result))
    {
      if !isReady {
        return Nothing, Just(Reply(ServerNotReady, Nothing));
      }
      operation := Operation(operation.guid, (operation.id + 1) % WORD, op, num1, num2);
      waiting, calls := true, calls + 1;
      published := Just(operation);
      ghost var begun := State();
      var done, n := false, 0;
      while !done && n < |takes|
        invariant 0 <= n <= |takes| && done == !waiting && isReady == old(isReady) && published == Just(operation)
        invariant Rounds(begun, takes) == Rounds(State(), takes[n..])
      {
        ResetResult();
        match takes[n] {
          case Sample(r) =>
            result, alive := r, true;
          case NoData =>
            alive := false;
          case Failed =>
        }
        done := alive && result.guid == operation.guid && result.id == operation.id;
        waiting := !done;
        assert takes[n..][1..] == takes[n + 1..];
        n := n + 1;
      }
      reply := if done then Just(Delivered(result)) else Nothing;
    }
  }

  // ---------------------------------------------------------------- clients, server and network

  /** A client's call that came back, with the operation it sent. */
  datatype Return = Return(client: nat, operation: Operation, reply: Reply)

  /** Everything published stays available: taking it late, twice or never is delay, duplication and loss. */
  datatype System = System(clients: seq<ClientState>, server: ServerState, operations: set<Operation>, results: set<Result>, returned: seq<Return>)

  function Initial(n: nat): System {
    System(seq(n, _ => NewClient), NewServer, {}, {}, [])
  }

  datatype Event =
    | Call(client: nat, op: OperationType, num1: int, num2: int)
    | ClientTake(client: nat, result: Take<Result>)
    | ServerTake(operation: Take<Operation>)

  predicate Enabled(s: System, e: Event) {
    match e
    case Call(i, _, _, _) => i < |s.clients| && !s.clients[i].waiting
    case ClientTake(i, t) => i < |s.clients| && s.clients[i].waiting && (t.Sample? ==> t.data in s.results)
    case ServerTake(t) => t.Sample? ==> t.data in s.operations
  }

  function Next(s: System, e: Event): System
    requires Enabled(s, e)
  {
    match e
    case Call(i, op, num1, num2) =>
      var c := Begin(s.clients[i], op, num1, num2);
      s.(clients := s.clients[i := c], operations := s.operations + {c.operation})
    case ClientTake(i, t) =>
      var c := Round(s.clients[i], t);
      s.(clients := s.clients[i := c],
         returned := s.returned + if c.waiting then [] else [Return(i, c.operation, Delivered(c.result))])
    case ServerTake(t) =>
      var (server, result) := Serve(s.server, t);
      s.(server := server, results := s.results + if result.Just? then {result.value} else {})
  }

  /** These events can happen one after the other, starting with `n` new clients. */
  ghost predicate IsRun(n: nat, events: seq<Event>)
    decreases |events|, 0
  {
    events == [] || var k := |events| - 1; IsRun(n, events[..k]) && Enabled(After(n, events[..k]), events[k])
  }

  /** The state after a run. */
  ghost function After(n: nat, events: seq<Event>): (s: System)
    requires IsRun(n, events)
    ensures |s.clients| == n
    decreases |events|, 1
  {
    if events == [] then Initial(n) else var k := |events| - 1; Next(After(n, events[..k]), events[k])
  }

  /** Every call that returned has delivered the server's outcome for the operation it sent. */
  ghost predicate Correct(s: System) {
    forall i :: 0 <= i < |s.returned| ==> s.returned[i].reply == Delivered(Answer(s.returned[i].operation))
  }

  ghost predicate AtMost(s: System, limit: nat) {
    forall i :: 0 <= i < |s.clients| ==> s.clients[i].calls <= limit
  }

  /** In no run of `n` clients with at most `limit` calls each does a call deliver anything else. */
  ghost predicate Safe(n: nat, limit: nat) {
    forall events: seq<Event> :: IsRun(n, events) && AtMost(After(n, events), limit) ==> Correct(After(n, events))
  }

  // ---------------------------------------------------------------- one client, ids that do not wrap

  /** The id of the last operation is the number of calls. */
  ghost predicate Settled(c: ClientState) {
    c.calls < WORD && c.operation.id == c.calls && c.operation.guid == Unknown && (c.waiting ==> c.calls >= 1)
  }

  /** Operations are told apart by their ids, and every result answers the operation with its id. */
  ghost predicate Coherent(s: System) {
    && |s.clients| == 1 && Settled(s.clients[0])
    && (s.clients[0].waiting ==> s.clients[0].operation in s.operations)
    && (forall o :: o in s.operations ==> 1 <= o.id <= s.clients[0].calls)
    && (forall o, p :: o in s.operations && p in s.operations && o.id == p.id ==> o == p)
    && (s.server.operation in s.operations || s.server.operation.id == 0)
    && (forall r :: r in s.results ==> r.id == 0 || exists o :: o in s.operations && r == Answer(o))
  }

  lemma CoherentCall(s: System, e: Event)
    requires e.Call? && Coherent(s) && Correct(s) && Enabled(s, e) && AtMost(Next(s, e), WORD - 1)
    ensures Coherent(Next(s, e)) && Correct(Next(s, e))
  {
    var t := Next(s, e);
    hide Answer;
    assert t.clients[0].calls <= WORD - 1;
    assert forall o :: o in t.operations ==> o in s.operations || o == t.clients[0].operation;
    assert forall r :: r in t.results ==> r in s.results;
  }

  lemma CoherentClientTake(s: System, e: Event)
    requires e.ClientTake? && Coherent(s) && Correct(s) && Enabled(s, e)
    ensures Coherent(Next(s, e)) && Correct(Next(s, e))
  {
    if !Next(s, e).clients[0].waiting {
      assert e.result.Sample?;
      var o :| o in s.operations && e.result.data == Answer(o);
      assert o == s.clients[0].operation;
    }
  }

  lemma CoherentServerTake(s: System, e: Event)
    requires e.ServerTake? && Coherent(s) && Correct(s) && Enabled(s, e)
    ensures Coherent(Next(s, e)) && Correct(Next(s, e))
  {
  }

  lemma CoherentStep(s: System, e: Event)
    requires Coherent(s) && Correct(s) && Enabled(s, e) && AtMost(Next(s, e), WORD - 1)
    ensures Coherent(Next(s, e)) && Correct(Next(s, e))
  {
    hide Coherent; hide Next; hide Correct; hide AtMost;
    match e
    case Call(_, _, _, _) => CoherentCall(s, e);
    case ClientTake(_, _) => CoherentClientTake(s, e);
    case ServerTake(_) => CoherentServerTake(s, e);
  }

  lemma CallsGrow(s: System, e: Event, limit: nat)
    requires Enabled(s, e) && AtMost(Next(s, e), limit)
    ensures AtMost(s, limit)
  {
    var t := Next(s, e);
    forall i | 0 <= i < |s.clients|
      ensures s.clients[i].calls <= limit
    {
      assert t.clients[i].calls <= limit;
    }
  }

  lemma {:induction false} OneClientCorrect(events: seq<Event>)
    requires IsRun(1, events) && AtMost(After(1, events), WORD - 1)
    ensures Coherent(After(1, events)) && Correct(After(1, events))
  {
    if events != [] {
      var k := |events| - 1;
      var s := After(1, events[..k]);
      CallsGrow(s, events[k], WORD - 1);
      OneClientCorrect(events[..k]);
      CoherentStep(s, events[k]);
    }
  }

  // ---------------------------------------------------------------- the k-th call and the k-th reply

  /** The calls of one client, in order. */
  function CallsOf(events: seq<Event>, client: nat): (calls: seq<Event>)
    ensures forall k :: 0 <= k < |calls| ==> calls[k].Call? && calls[k].client == client
  {
    if events == [] then []
    else
      var k := |events| - 1;
      CallsOf(events[..k], client) + if events[k].Call? && events[k].client == client then [events[k]] else []
  }

  /** What came back to one client, in order. */
  function ReturnsTo(returned: seq<Return>, client: nat): seq<Return> {
    if returned == [] then []
    else
      var k := |returned| - 1;
      ReturnsTo(returned[..k], client) + if returned[k].client == client then [returned[k]] else []
  }

  ghost predicate Asks(call: Event, o: Operation) {
    call.Call? && o.op == call.op && o.num1 == call.num1 && o.num2 == call.num2
  }

  /** Every call is for the operation it was made with; all but the last one have come back, and that one too unless its client waits. */
  ghost predicate InStep(calls: seq<Event>, replies: seq<Return>, c: ClientState) {
    && |calls| == |replies| + (if c.waiting then 1 else 0)
    && (forall k :: 0 <= k < |replies| ==> Asks(calls[k], replies[k].operation))
    && (c.waiting ==> Asks(calls[|replies|], c.operation))
  }

  lemma ReturnsMore(returned: seq<Return>, r: Return, client: nat)
    ensures ReturnsTo(returned + [r], client) == ReturnsTo(returned, client) + if r.client == client then [r] else []
  {
    assert (returned + [r])[..|returned|] == returned;
  }

  lemma InStepNext(s: System, e: Event, calls: seq<Event>, client: nat)
    requires Enabled(s, e) && client < |s.clients| && InStep(calls, ReturnsTo(s.returned, client), s.clients[client])
    ensures var t := Next(s, e);
            InStep(calls + if e.Call? && e.client == client then [e] else [], ReturnsTo(t.returned, client), t.clients[client])
  {
    hide ReturnsTo;
    var t := Next(s, e);
    assert s.returned + [] == s.returned && calls + [] == calls;
    if e.ClientTake? && !t.clients[e.client].waiting {
      var c := t.clients[e.client];
      ReturnsMore(s.returned, Return(e.client, c.operation, Delivered(c.result)), client);
    }
  }

  /** In every run of any number of clients, a client's k-th return is for the operation of its k-th call. */
  lemma {:induction false} ReturnsInOrder(n: nat, events: seq<Event>, client: nat)
    requires IsRun(n, events) && client < n
    ensures var s := After(n, events); InStep(CallsOf(events, client), ReturnsTo(s.returned, client), s.clients[client])
  {
    hide Next; hide Enabled; hide InStep;
    if events == [] {
      NothingYet(n, client);
    } else {
      var k := |events| - 1;
      ReturnsInOrder(n, events[..k], client);
      InStepNext(After(n, events[..k]), events[k], CallsOf(events[..k], client), client);
    }
  }

  lemma NothingYet(n: nat, client: nat)
    requires client < n
    ensures InStep(CallsOf([], client), ReturnsTo([], client), Initial(n).clients[client])
  {
  }

  /** The exact result, or any 32-bit number congruent to it if it does not fit. */
  ghost predicate Computes(exact: int, reply: Reply) {
    && reply.kind == GoodResult && reply.value.Just? && -0x8000_0000 <= reply.value.value < 0x8000_0000
    && (exact - reply.value.value) % 0x1_0000_0000 == 0
    && (-0x8000_0000 <= exact < 0x8000_0000 ==> reply == Reply(GoodResult, Just(exact)))
  }

  /** What a caller may expect; a quotient is always delivered as 0. */
  ghost predicate Right(call: Event, reply: Reply)
    requires call.Call?
  {
    match call.op
    case Addition => Computes(call.num1 + call.num2, reply)
    case Subtraction => Computes(call.num1 - call.num2, reply)
    case Multiplication => Computes(call.num1 * call.num2, reply)
    case Division => reply == if call.num2 == 0 then Reply(ErrorResult, Nothing) else Reply(GoodResult, Just(0))
  }

  lemma AnswerRight(call: Event, o: Operation)
    requires Asks(call, o)
    ensures Right(call, Delivered(Answer(o)))
  {
    CalculateMeans(o.op, o.num1, o.num2, 0);
  }

  lemma {:induction false} OnlyClient(returned: seq<Return>)
    requires forall k :: 0 <= k < |returned| ==> returned[k].client == 0
    ensures ReturnsTo(returned, 0) == returned
  {
    if returned != [] {
      OnlyClient(returned[..|returned| - 1]);
    }
  }

  lemma {:induction false} ReturnsToSomeone(n: nat, events: seq<Event>)
    requires IsRun(n, events)
    ensures forall k :: 0 <= k < |After(n, events).returned| ==> After(n, events).returned[k].client < n
  {
    if events != [] {
      ReturnsToSomeone(n, events[..|events| - 1]);
    }
  }

  /** One client and fewer than 2^32 calls: the k-th call returns the result of its own operation on its own operands. */
  lemma EveryCallRight(events: seq<Event>, k: nat)
    requires IsRun(1, events) && AtMost(After(1, events), 0xFFFF_FFFF) && k < |After(1, events).returned|
    ensures k < |CallsOf(events, 0)| && Right(CallsOf(events, 0)[k], After(1, events).returned[k].reply)
  {
    hide After; hide Answer; hide Right; hide IsRun;
    var returned := After(1, events).returned;
    OneClientCorrect(events);
    ReturnsToSomeone(1, events);
    OnlyClient(returned);
    ReturnsInOrder(1, events, 0);
    AnswerRight(CallsOf(events, 0)[k], returned[k].operation);
  }

  // ---------------------------------------------------------------- where it goes wrong

  lemma Extend(n: nat, events: seq<Event>, e: Event)
    requires IsRun(n, events) && Enabled(After(n, events), e)
    ensures IsRun(n, events + [e]) && After(n, events + [e]) == Next(After(n, events), e)
  {
    assert (events + [e])[..|events|] == events;
  }

  lemma Extend4(n: nat, a: Event, b: Event, c: Event, d: Event) returns (events: seq<Event>)
    requires var s := Initial(n); Enabled(s, a) && Enabled(Next(s, a), b)
    requires var s := Next(Next(Initial(n), a), b); Enabled(s, c) && Enabled(Next(s, c), d)
    ensures IsRun(n, events) && After(n, events) == Next(Next(Next(Next(Initial(n), a), b), c), d)
  {
    hide Next; hide Enabled; hide Initial;
    events := [];
    assert After(n, events) == Initial(n);
    Extend(n, events, a);
    events := events + [a];
    Extend(n, events, b);
    events := events + [b];
    Extend(n, events, c);
    events := events + [c];
    Extend(n, events, d);
    events := events + [d];
  }

  /** With two clients, one can take the other's result: both call 1, and the guids do not tell them apart. */
  lemma TwoClientsMixUp(n: nat) returns (events: seq<Event>)
    requires n >= 2
    ensures IsRun(n, events) && AtMost(After(n, events), 1) && !Correct(After(n, events))
  {
    var one, two := Operation(Unknown, 1, Addition, 1, 1), Operation(Unknown, 1, Addition, 2, 2);
    var a, b := Call(0, Addition, 1, 1), Call(1, Addition, 2, 2);
    var c, d := ServerTake(Sample(one)), ClientTake(1, Sample(Answer(one)));
    events := Extend4(n, a, b, c, d);
    var s := Next(Next(Next(Next(Initial(n), a), b), c), d);
    assert s.returned == [Return(1, two, Delivered(Answer(one)))];
    assert Delivered(Answer(one)) == Reply(GoodResult, Just(2)) && Delivered(Answer(two)) == Reply(GoodResult, Just(4));
    assert s.returned[0].reply != Delivered(Answer(s.returned[0].operation));
  }

  /** A single client after `k` calls that all came back. */
  ghost predicate Rested(s: System, k: nat) {
    && |s.clients| == 1 && s.clients[0].calls == k && !s.clients[0].waiting && s.clients[0].alive
    && s.clients[0].operation.id == k && s.clients[0].operation.guid == Unknown && s.clients[0].result.kind == GoodResult
  }

  lemma Answered(s: System, k: nat, call: Event, serve: Event, take: Event)
    requires Rested(s, k) && k + 1 < WORD && call == Call(0, Addition, 0, 0)
    requires var o := Operation(Unknown, k + 1, Addition, 0, 0); serve == ServerTake(Sample(o)) && take == ClientTake(0, Sample(Answer(o)))
    ensures Enabled(s, call) && Enabled(Next(s, call), serve) && Enabled(Next(Next(s, call), serve), take)
    ensures Rested(Next(Next(Next(s, call), serve), take), k + 1)
  {
  }

  /** One more call, answered at once. */
  lemma OneMoreCall(events: seq<Event>, k: nat) returns (longer: seq<Event>)
    requires IsRun(1, events) && Rested(After(1, events), k) && k + 1 < WORD
    ensures IsRun(1, longer) && Rested(After(1, longer), k + 1)
  {
    var o := Operation(Unknown, k + 1, Addition, 0, 0);
    var call, serve, take := Call(0, Addition, 0, 0), ServerTake(Sample(o)), ClientTake(0, Sample(Answer(o)));
    Answered(After(1, events), k, call, serve, take);
    hide Next; hide Enabled; hide Rested;
    Extend(1, events, call);
    Extend(1, events + [call], serve);
    Extend(1, events + [call] + [serve], take);
    longer := events + [call] + [serve] + [take];
  }

  lemma {:induction false} ManyCalls(k: nat) returns (events: seq<Event>)
    requires k < WORD
    ensures IsRun(1, events) && Rested(After(1, events), k)
  {
    events := [];
    if k > 0 {
      events := ManyCalls(k - 1);
      events := OneMoreCall(events, k - 1);
    }
  }

  /** Call number 2^32 has id 0, which is what a failed take leaves behind: the call returns without an answer. */
  lemma IdsWrap() returns (events: seq<Event>)
    ensures IsRun(1, events) && AtMost(After(1, events), WORD) && !Correct(After(1, events))
  {
    var before := ManyCalls(WORD - 1);
    var s := After(1, before);
    var call := Call(0, Addition, 1, 1);
    Extend(1, before, call);
    var take := ClientTake(0, Failed);
    Extend(1, before + [call], take);
    events := before + [call] + [take];
    var t := After(1, events);
    var last := t.returned[|t.returned| - 1];
    assert last == Return(0, Operation(Unknown, 0, Addition, 1, 1), Reply(GoodResult, Just(0)));
    assert Delivered(Answer(last.operation)) == Reply(GoodResult, Just(2));
  }

  /** Exactly when every call delivers what the server computes for it: one client, and fewer than 2^32 calls. */
  lemma SafeIff(n: nat, limit: nat)
    ensures Safe(n, limit) <==> n == 0 || limit == 0 || (n == 1 && limit < WORD)
  {
    if n == 0 || limit == 0 {
      forall events: seq<Event> | IsRun(n, events) && AtMost(After(n, events), limit)
        ensures Correct(After(n, events))
      {
        NoCalls(n, events);
      }
    } else if n >= 2 {
      var events := TwoClientsMixUp(n);
      assert AtMost(After(n, events), limit);
    } else if limit >= WORD {
      var events := IdsWrap();
      assert AtMost(After(1, events), limit);
    } else {
      forall events: seq<Event> | IsRun(1, events) && AtMost(After(1, events), limit)
        ensures Correct(After(1, events))
      {
        assert AtMost(After(1, events), WORD - 1);
        OneClientCorrect(events);
      }
    }
  }

  lemma CallCounts(s: System, e: Event)
    requires Enabled(s, e)
    ensures AtMost(Next(s, e), 0) ==> !e.Call?
  {
    assert e.Call? ==> Next(s, e).clients[e.client].calls >= 1;
  }

  lemma {:induction false} NoCalls(n: nat, events: seq<Event>)
    requires IsRun(n, events) && AtMost(After(n, events), 0)
    ensures var s := After(n, events); s.returned == [] && forall i :: 0 <= i < n ==> !s.clients[i].waiting
  {
    if events != [] {
      var k := |events| - 1;
      var s, t := After(n, events[..k]), After(n, events);
      CallsGrow(s, events[k], 0);
      NoCalls(n, events[..k]);
      CallCounts(s, events[k]);
    }
  }
}
