/**
 The discovery server's command line: its usage table, and how the listening locators are
 put together from the `-l` and `-p` options by walking two of the parser's lists in step.
 Reading a number, an address or a server id out of a string is left to parameters.
 */
module ServerLocators {
  import opened Common
  import opened OptionSyntax
  import opened WordSyntax
  import opened ArgPass
  import opened OptionLists
  import opened OptionStore
  import opened Workhorse
  import opened Reordering
  import opened ArgParser

  const UNKNOWN := 0
  const HELP := 1
  const SERVERID := 2
  const IPADDRESS := 3
  const PORT := 4
  const BACKUP := 5

  const DEFAULT_PORT := 11811

  datatype Address = Address(a: nat, b: nat, c: nat, d: nat)

  const ANY := Address(0, 0, 0, 0)

  datatype Locator = Locator(port: nat, address: Address)

  /** How strings are judged and read: the checks of the usage table and the setters of the locator. */
  datatype Readers = Readers(idOk: string -> bool, addressOk: string -> bool, portOk: string -> bool,
                             readId: string -> bool, readAddress: string -> Maybe<Address>, readPort: string -> Maybe<nat>)

  function ServerTable(lib: Readers): Table {
    Table([Descriptor(UNKNOWN, 0, "", "", NoArg),
           Descriptor(HELP, 0, "h", "help", NoArg),
           Descriptor(SERVERID, 0, "i", "server-id", RequiredArg(lib.idOk)),
           Descriptor(IPADDRESS, 0, "l", "ip-address", RequiredArg(lib.addressOk)),
           Descriptor(PORT, 0, "p", "port", RequiredArg(lib.portOk)),
           Descriptor(BACKUP, 0, "b", "backup", NoArg),
           Descriptor(UNKNOWN, 0, "", "", NoArg)],
          false, 0)
  }

  lemma ServerTableSteady(lib: Readers)
    ensures Steady(ServerTable(lib).usage)
  {
    StockChecksSteady(lib.idOk);
    StockChecksSteady(lib.addressOk);
    StockChecksSteady(lib.portOk);
  }

  // ---------------------------------------------------------------- options of the server's table

  /** An option whose check insists on an argument has one. */
  ghost predicate Complete(o: Parsed) {
    o.index == SERVERID || o.index == IPADDRESS || o.index == PORT ==> o.arg.Just?
  }

  ghost predicate AllComplete(options: seq<Parsed>) {
    forall i :: 0 <= i < |options| ==> Complete(options[i])
  }

  lemma CheckComplete(lib: Readers, idx: nat, name: string, cand: Candidate)
    ensures var step := Check(ServerTable(lib).usage, idx, name, cand); step.Performed? ==> Complete(step.option)
  {
  }

  lemma {:induction false} GroupComplete(lib: Readers, w: string, p: nat, next: Maybe<string>)
    requires p <= |w|
    ensures AllComplete(Group(ServerTable(lib).usage, w, p, next).options)
    decreases |w| - p
  {
    hide ServerTable;
    if p < |w| {
      var usage := ServerTable(lib).usage;
      var cand := if p + 1 == |w| then Detached(next) else Attached(w[p + 1..]);
      CheckComplete(lib, ShortLookup(usage, w[p]), w[p..], cand);
      GroupComplete(lib, w, p + 1, next);
    }
  }

  lemma WordComplete(lib: Readers, w: string, next: Maybe<string>)
    ensures AllComplete(Word(ServerTable(lib), w, next).options)
  {
    hide ServerTable;
    var table := ServerTable(lib);
    if OptionWord(w) {
      GroupComplete(lib, w, 1, next);
      CheckComplete(lib, LongLookup(table.usage, w[1..], table.minAbbr), w, LongCandidate(w[1..], next));
      CheckComplete(lib, LongLookup(table.usage, w[2..], table.minAbbr), w, LongCandidate(w[2..], next));
    }
  }

  lemma {:induction false} ScanComplete(gnu: bool, lib: Readers, words: seq<string>)
    ensures AllComplete(Scan(gnu, ParserOf(ServerTable(lib)), words).options)
  {
    hide ServerTable; hide Word;
    var parse := ParserOf(ServerTable(lib));
    if words != [] {
      var n := if OptionWord(words[0]) then Used(parse, words) else 1;
      WordComplete(lib, words[0], Next(words));
      ScanComplete(gnu, lib, words[n..]);
    }
  }

  // ---------------------------------------------------------------- pairing addresses with ports

  /** `args` are the arguments of these options, all of which have one. */
  ghost predicate ArgumentsAre(options: seq<Parsed>, args: seq<string>) {
    |args| == |options| && forall i :: 0 <= i < |options| ==> options[i].arg == Just(args[i])
  }

  /** The port text that goes with address `i`: its own, else the last one given. */
  function PortText(ports: seq<string>, i: nat): string
    requires ports != []
  {
    if i < |ports| then ports[i] else ports[|ports| - 1]
  }

  /** A port that the locator accepts. */
  predicate UsablePort(lib: Readers, text: string) {
    lib.readPort(text).Just? && lib.readPort(text).value != 0
  }

  function PortAt(lib: Readers, ports: seq<string>, i: nat): nat {
    if ports == [] || lib.readPort(PortText(ports, i)).Nothing? then DEFAULT_PORT else lib.readPort(PortText(ports, i)).value
  }

  /** Every text used for the first `n` locators can be read; the first port is read in any case. */
  predicate Usable(lib: Readers, addresses: seq<string>, ports: seq<string>, n: nat)
    requires n <= |addresses|
  {
    && (ports != [] ==> UsablePort(lib, ports[0]))
    && (forall i :: 0 <= i < n ==> lib.readAddress(addresses[i]).Just?)
    && (forall i :: 0 <= i < n && i < |ports| ==> UsablePort(lib, ports[i]))
  }

  predicate AllUsable(lib: Readers, addresses: seq<string>, ports: seq<string>) {
    Usable(lib, addresses, ports, |addresses|)
  }

  function LocatorAt(lib: Readers, addresses: seq<string>, ports: seq<string>, i: nat): Locator
    requires i < |addresses| && lib.readAddress(addresses[i]).Just?
  {
    Locator(PortAt(lib, ports, i), lib.readAddress(addresses[i]).value)
  }

  /** The locators for these addresses and ports; with no address, any address on the first port. */
  function Locators(lib: Readers, addresses: seq<string>, ports: seq<string>): (locators: seq<Locator>)
    requires AllUsable(lib, addresses, ports)
    ensures |locators| == if addresses == [] then 1 else |addresses|
  {
    if addresses == [] then [Locator(PortAt(lib, ports, 0), ANY)]
    else seq(|addresses|, i requires 0 <= i < |addresses| => LocatorAt(lib, addresses, ports, i))
  }

  function LocatorsTo(lib: Readers, addresses: seq<string>, ports: seq<string>, n: nat): (locators: seq<Locator>)
    requires n <= |addresses| && Usable(lib, addresses, ports, n)
    ensures |locators| == n
  {
    seq(n, i requires 0 <= i < n => LocatorAt(lib, addresses, ports, i))
  }

  /** The port in force before address `n` is looked at. */
  function PortBefore(lib: Readers, ports: seq<string>, n: nat): nat {
    PortAt(lib, ports, if n == 0 then 0 else n - 1)
  }

  lemma LocatorsStart(lib: Readers, addresses: seq<string>, ports: seq<string>)
    requires ports != [] ==> UsablePort(lib, ports[0])
    ensures Usable(lib, addresses, ports, 0) && LocatorsTo(lib, addresses, ports, 0) == []
  {
  }

  lemma LocatorsEnd(lib: Readers, addresses: seq<string>, ports: seq<string>)
    requires addresses != [] && AllUsable(lib, addresses, ports)
    ensures LocatorsTo(lib, addresses, ports, |addresses|) == Locators(lib, addresses, ports)
  {
  }

  /** One more address: it or its port may not be usable; else it is paired with its own port or the one still in force. */
  lemma LocatorsStep(lib: Readers, addresses: seq<string>, ports: seq<string>, j: nat)
    requires j < |addresses| && Usable(lib, addresses, ports, j)
    ensures var address, own := lib.readAddress(addresses[j]), j < |ports|;
            if address.Nothing? || (own && !UsablePort(lib, ports[j])) then !AllUsable(lib, addresses, ports)
            else
              var port := if own then lib.readPort(ports[j]).value else PortBefore(lib, ports, j);
              && Usable(lib, addresses, ports, j + 1) && port == PortBefore(lib, ports, j + 1)
              && LocatorsTo(lib, addresses, ports, j + 1) == LocatorsTo(lib, addresses, ports, j) + [Locator(port, address.value)]
  {
  }

  /** The loop over the address list, with a second cursor on the port list; `start` is the first port or the default. */
  method PairLocators(lib: Readers, arrays: OptionArrays, start: nat, first: Maybe<Ref>, firstPort: Maybe<Ref>,
                      ghost log: seq<Parsed>, ghost addresses: seq<string>, ghost ports: seq<string>)
    returns (locators: Maybe<seq<Locator>>)
    requires Holds(arrays.Contents(), log) && arrays.options.Length > PORT
    requires ArgumentsAre(Listed(log, IPADDRESS), addresses) && ArgumentsAre(Listed(log, PORT), ports)
    requires first == CursorAt(log, IPADDRESS, 0) && firstPort == CursorAt(log, PORT, 0)
    requires addresses != [] && (ports != [] ==> UsablePort(lib, ports[0])) && start == PortAt(lib, ports, 0)
    ensures locators == if AllUsable(lib, addresses, ports) then Just(Locators(lib, addresses, ports)) else Nothing
  {
    hide Holds; hide Listed; hide CursorAt; hide Usable; hide LocatorsTo; hide PortAt; hide Locators;
    LocatorsStart(lib, addresses, ports);
    var port, cursor, portCursor := start, first, firstPort;
    var list: seq<Locator> := [];
    ghost var j := 0;
    CursorEnds(log, IPADDRESS, 0);
    while cursor.Just?
      invariant 0 <= j <= |addresses| && cursor == CursorAt(log, IPADDRESS, j) && portCursor == CursorAt(log, PORT, j)
      invariant cursor.Just? <==> j < |addresses|
      invariant Usable(lib, addresses, ports, j) && list == LocatorsTo(lib, addresses, ports, j) && port == PortBefore(lib, ports, j)
      decreases |addresses| - j
    {
      LocatorsStep(lib, addresses, ports, j);
      CursorEnds(log, PORT, j);
      var o := arrays.Read(cursor, log, IPADDRESS, j);
      var address := lib.readAddress(o.arg.value);
      assert o.arg.value == addresses[j];
      if address.Nothing? {
        return Nothing;
      }
      if portCursor.Just? {
        var p := arrays.Read(portCursor, log, PORT, j);
        assert p.arg.value == ports[j];
        if !UsablePort(lib, p.arg.value) {
          return Nothing;
        }
        port := lib.readPort(p.arg.value).value;
      }
      list := list + [Locator(port, address.value)];
      cursor := arrays.Advance(cursor, log, IPADDRESS, j);
      if portCursor.Just? {
        portCursor := arrays.Advance(portCursor, log, PORT, j);
      }
      CursorEnds(log, IPADDRESS, j + 1);
      CursorEnds(log, PORT, j + 1);
      j := j + 1;
    }
    LocatorsEnd(lib, addresses, ports);
    locators := Just(list);
  }

  /** The listening locators, or nothing if one of the addresses or ports cannot be used. */
  method BuildLocators(lib: Readers, arrays: OptionArrays, ghost log: seq<Parsed>, ghost addresses: seq<string>, ghost ports: seq<string>)
    returns (locators: Maybe<seq<Locator>>)
    requires Holds(arrays.Contents(), log) && arrays.options.Length > PORT
    requires ArgumentsAre(Listed(log, IPADDRESS), addresses) && ArgumentsAre(Listed(log, PORT), ports)
    ensures locators == if AllUsable(lib, addresses, ports) then Just(Locators(lib, addresses, ports)) else Nothing
  {
    hide Holds; hide Listed; hide CursorAt;
    var port := DEFAULT_PORT;
    var portCursor := arrays.Begin(PORT, log);
    CursorEnds(log, PORT, 0);
    if portCursor.Just? {
      var o := arrays.Read(portCursor, log, PORT, 0);
      assert o.arg.value == ports[0];
      if !UsablePort(lib, o.arg.value) {
        return Nothing;
      }
      port := lib.readPort(o.arg.value).value;
    }
    var cursor := arrays.Begin(IPADDRESS, log);
    CursorEnds(log, IPADDRESS, 0);
    if cursor.Nothing? {
      return Just([Locator(port, ANY)]);
    }
    locators := PairLocators(lib, arrays, port, cursor, portCursor, log, addresses, ports);
  }

  // ---------------------------------------------------------------- from the command line to the locators

  datatype Outcome = ShowUsage | Reject | Run(locators: seq<Locator>, backup: bool)

  /** The arguments of the options with one index, in command-line order. */
  function ArgumentsOf(options: seq<Parsed>, k: nat): (args: seq<string>)
    requires forall i :: 0 <= i < |options| && options[i].index == k ==> options[i].arg.Just?
    ensures ArgumentsAre(Listed(options, k), args)
  {
    var listed := Listed(options, k);
    seq(|listed|, i requires 0 <= i < |listed| => listed[i].arg.value)
  }

  /** What an accepted command line with these options comes to. */
  ghost function Decision(lib: Readers, options: seq<Parsed>, argc: nat): Outcome
    requires AllComplete(options)
  {
    var ids, addresses, ports := ArgumentsOf(options, SERVERID), ArgumentsOf(options, IPADDRESS), ArgumentsOf(options, PORT);
    if Listed(options, HELP) != [] || argc == 0 then ShowUsage
    else if |ids| != 1 || !lib.readId(ids[0]) || !AllUsable(lib, addresses, ports) then Reject
    else Run(Locators(lib, addresses, ports), Listed(options, BACKUP) != [])
  }

  /** What the program does once parsing went well and left no non-options. */
  method Decide(lib: Readers, arrays: OptionArrays, argc: nat, ghost log: seq<Parsed>) returns (outcome: Outcome)
    requires Holds(arrays.Contents(), log) && arrays.options.Length > BACKUP && AllComplete(log)
    ensures outcome == Decision(lib, log, argc)
  {
    hide Holds; hide Listed; hide CursorAt; hide Usable; hide Locators;
    ghost var ids, addresses, ports := ArgumentsOf(log, SERVERID), ArgumentsOf(log, IPADDRESS), ArgumentsOf(log, PORT);
    var help, _ := CountAndLast(arrays, HELP, log);
    if help > 0 || argc == 0 {
      return ShowUsage;
    }
    var count, last := CountAndLast(arrays, SERVERID, log);
    if count != 1 || !lib.readId(last.value.arg.value) {
      return Reject;
    }
    var backup, _ := CountAndLast(arrays, BACKUP, log);
    var locators := BuildLocators(lib, arrays, log, addresses, ports);
    outcome := if locators.Nothing? then Reject else Run(locators.value, backup > 0);
  }
}
