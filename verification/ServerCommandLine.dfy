/**
 The discovery server's command line from end to end: the items a user can write, in each of
 the ways the usage text allows, and what the tool does for any list of them.
 */
module ServerCommandLine {
  import opened Common
  import opened OptionSyntax
  import opened WordSyntax
  import opened ArgPass
  import opened OptionLists
  import opened OptionStore
  import opened Workhorse
  import opened Reordering
  import opened LongArguments
  import opened ArgParser
  import opened ServerLocators

  // ---------------------------------------------------------------- what can be written

  /** What a user can ask for. */
  datatype Item = Id(text: string) | Interface(text: string) | Port(text: string) | Help | Backup

  datatype Form = ShortApart | ShortJoined | LongApart | LongJoined

  datatype Given = Given(item: Item, form: Form)

  function WithText(short: string, long: string, text: string, form: Form): seq<string> {
    match form
    case ShortApart => [short, text]
    case ShortJoined => [short + text]
    case LongApart => [long, text]
    case LongJoined => [long + "=" + text]
  }

  function Alone(short: string, long: string, form: Form): seq<string> {
    if form == ShortApart || form == ShortJoined then [short] else [long]
  }

  /** How the tool's usage text says an item is written. */
  function Spelled(g: Given): seq<string> {
    match g.item
    case Id(text) => WithText("-i", "--server-id", text, g.form)
    case Interface(text) => WithText("-l", "--ip-address", text, g.form)
    case Port(text) => WithText("-p", "--port", text, g.form)
    case Help => Alone("-h", "--help", g.form)
    case Backup => Alone("-b", "--backup", g.form)
  }

  predicate HasText(item: Item) {
    item.Id? || item.Interface? || item.Port?
  }

  /** An empty text cannot be joined to a short option. */
  predicate Spellable(g: Given) {
    HasText(g.item) && g.form == ShortJoined ==> g.item.text != ""
  }

  ghost predicate WellSpelled(givens: seq<Given>) {
    |givens| <= INT_MAX && forall i :: 0 <= i < |givens| ==> Spellable(givens[i])
  }

  function CommandLine(givens: seq<Given>): seq<string> {
    if givens == [] then [] else Spelled(givens[0]) + CommandLine(givens[1..])
  }

  function Items(givens: seq<Given>): (items: seq<Item>)
    ensures |items| == |givens| && forall i :: 0 <= i < |givens| ==> items[i] == givens[i].item
  {
    seq(|givens|, i requires 0 <= i < |givens| => givens[i].item)
  }

  /** The check of the item's own kind accepts its text. */
  predicate Passes(lib: Readers, item: Item) {
    match item
    case Id(text) => lib.idOk(text)
    case Interface(text) => lib.addressOk(text)
    case Port(text) => lib.portOk(text)
    case _ => true
  }

  function Ids(items: seq<Item>): seq<string> {
    if items == [] then []
    else var n := |items| - 1; Ids(items[..n]) + if items[n].Id? then [items[n].text] else []
  }

  function Interfaces(items: seq<Item>): seq<string> {
    if items == [] then []
    else var n := |items| - 1; Interfaces(items[..n]) + if items[n].Interface? then [items[n].text] else []
  }

  function Ports(items: seq<Item>): seq<string> {
    if items == [] then []
    else var n := |items| - 1; Ports(items[..n]) + if items[n].Port? then [items[n].text] else []
  }

  predicate Legible(lib: Readers, port: string) {
    lib.readPort(port).Just? && lib.readPort(port).value > 0
  }

  /** The first port, every address and the ports that go with addresses can be read. */
  ghost predicate AllLegible(lib: Readers, interfaces: seq<string>, ports: seq<string>) {
    && (ports != [] ==> Legible(lib, ports[0]))
    && forall i :: 0 <= i < |interfaces| ==> lib.readAddress(interfaces[i]).Just? && (i < |ports| ==> Legible(lib, ports[i]))
  }

  /** One locator per address, with the port given in the same place or else the last one; any address when none is given. */
  ghost predicate Listens(lib: Readers, interfaces: seq<string>, ports: seq<string>, locators: seq<Locator>)
    requires AllLegible(lib, interfaces, ports)
  {
    && (interfaces == [] && ports == [] ==> locators == [Locator(11811, Address(0, 0, 0, 0))])
    && (interfaces == [] && ports != [] ==> locators == [Locator(lib.readPort(ports[0]).value, Address(0, 0, 0, 0))])
    && (interfaces != [] ==>
          && |locators| == |interfaces|
          && forall i :: 0 <= i < |interfaces| ==>
               && Just(locators[i].address) == lib.readAddress(interfaces[i])
               && (ports == [] ==> locators[i].port == 11811)
               && (i < |ports| ==> Just(locators[i].port) == lib.readPort(ports[i]))
               && (0 < |ports| <= i ==> Just(locators[i].port) == lib.readPort(ports[|ports| - 1])))
  }

  /** What the tool has to do for these items. */
  ghost predicate Expected(lib: Readers, items: seq<Item>, outcome: Outcome) {
    if exists i :: 0 <= i < |items| && !Passes(lib, items[i]) then outcome == Reject
    else if items == [] || Help in items then outcome == ShowUsage
    else if |Ids(items)| != 1 || !lib.readId(Ids(items)[0]) || !AllLegible(lib, Interfaces(items), Ports(items)) then outcome == Reject
    else outcome.Run? && (outcome.backup <==> Backup in items) && Listens(lib, Interfaces(items), Ports(items), outcome.locators)
  }

  /** The check accepts exactly the arguments that satisfy `p`. */
  ghost predicate Insists(check: CheckArg, p: string -> bool) {
    forall name: string, text: string :: check(name, Just(text)) == if p(text) then ArgOk else ArgIllegal
  }

  function OneOption(ok: bool, o: Parsed, took: bool): WordResult {
    if ok then WordResult([o], took, true) else WordResult([], false, false)
  }

  lemma ShortWords(table: Table, c: char, d: nat, p: string -> bool, text: string, next: Maybe<string>)
    requires !table.singleMinus && c != '-' && ShortLookup(table.usage, c) == d < |table.usage| && Insists(table.usage[d].check, p)
    ensures OptionWord(['-', c]) && OptionWord(['-', c] + text)
    ensures Word(table, ['-', c], Just(text)) == OneOption(p(text), Parsed(d, table.usage[d].index, [c], Just(text)), true)
    ensures text != "" ==>
              Word(table, ['-', c] + text, next) == OneOption(p(text), Parsed(d, table.usage[d].index, [c] + text, Just(text)), false)
  {
    var bare, joined := ['-', c], ['-', c] + text;
    assert bare[1..] == [c] && joined[1..] == [c] + text && joined[2..] == text;
    hide ShortLookup;
  }

  lemma LongWordsOf(table: Table, name: string, d: nat, p: string -> bool, text: string, next: Maybe<string>)
    requires name != "" && '=' !in name && d < |table.usage| && Insists(table.usage[d].check, p)
    requires LongLookup(table.usage, name, table.minAbbr) == d == LongLookup(table.usage, Joined(name, text), table.minAbbr)
    ensures OptionWord("--" + name) && OptionWord(JoinedWord(name, text))
    ensures Word(table, "--" + name, Just(text)) == OneOption(p(text), Parsed(d, table.usage[d].index, "--" + name, Just(text)), true)
    ensures Word(table, JoinedWord(name, text), next)
            == OneOption(p(text), Parsed(d, table.usage[d].index, JoinedWord(name, text), Just(text)), false)
  {
    CandidatePlain(name, text, next);
    CandidatePlain(name, text, Just(text));
    LongWords(table, name, Just(text));
    LongWords(table, Joined(name, text), next);
    hide LongLookup; hide LongCandidate; hide Word;
  }

  lemma FlagWords(table: Table, c: char, name: string, d: nat, next: Maybe<string>)
    requires !table.singleMinus && c != '-' && ShortLookup(table.usage, c) == d < |table.usage|
    requires name != "" && LongLookup(table.usage, name, table.minAbbr) == d && table.usage[d].check == NoArg
    ensures OptionWord(['-', c]) && OptionWord("--" + name)
    ensures Word(table, ['-', c], next) == WordResult([Parsed(d, table.usage[d].index, [c], Nothing)], false, true)
    ensures Word(table, "--" + name, next) == WordResult([Parsed(d, table.usage[d].index, "--" + name, Nothing)], false, true)
  {
    var bare := ['-', c];
    assert bare[1..] == [c];
    GroupEnd(table.usage, bare, next);
    LongWords(table, name, next);
    hide LongLookup; hide ShortLookup; hide LongCandidate;
  }

  /** The parse of an item and what follows it, and the parse of what follows it. */
  ghost predicate ParsedAs(r: ScanResult, s: ScanResult, ok: bool, index: nat, arg: Maybe<string>) {
    if ok then
      && r.options != [] && r.options[0].index == index && r.options[0].arg == arg && r.options[1..] == s.options
      && r.ok == s.ok && r.back == s.back
    else !r.ok
  }

  lemma HeadParsed(parse: WordParser, words: seq<string>, rest: seq<string>, ok: bool, o: Parsed, took: bool)
    requires words != [] && OptionWord(words[0]) && parse(words[0], Next(words)) == OneOption(ok, o, took)
    requires |words| == |rest| + (if took then 2 else 1) && words[if took then 2 else 1..] == rest
    ensures ParsedAs(Scan(false, parse, words), Scan(false, parse, rest), ok, o.index, o.arg)
  {
    if ok {
      ScanOption(false, parse, words);
    }
  }

  lemma TextItem(table: Table, c: char, name: string, d: nat, p: string -> bool, text: string, form: Form, rest: seq<string>)
    requires !table.singleMinus && c != '-' && ShortLookup(table.usage, c) == d < |table.usage| && Insists(table.usage[d].check, p)
    requires name != "" && '=' !in name && (form == ShortJoined ==> text != "")
    requires LongLookup(table.usage, name, table.minAbbr) == d == LongLookup(table.usage, Joined(name, text), table.minAbbr)
    ensures var words := WithText(['-', c], "--" + name, text, form) + rest;
            ParsedAs(Scan(false, ParserOf(table), words), Scan(false, ParserOf(table), rest), p(text), table.usage[d].index, Just(text))
  {
    hide ShortLookup; hide LongLookup; hide Word; hide Scan; hide Insists;
    var words := WithText(['-', c], "--" + name, text, form) + rest;
    var index, next := table.usage[d].index, Next(words);
    assert "--" + name + "=" + text == JoinedWord(name, text);
    ShortWords(table, c, d, p, text, next);
    LongWordsOf(table, name, d, p, text, next);
    var short, long := form == ShortApart || form == ShortJoined, form == LongApart || form == ShortApart;
    var given := if form == ShortJoined then [c] + text else if form == LongJoined then JoinedWord(name, text)
                 else if short then [c] else "--" + name;
    HeadParsed(ParserOf(table), words, rest, p(text), Parsed(d, index, given, Just(text)), long);
  }

  lemma FlagItem(table: Table, c: char, name: string, d: nat, form: Form, rest: seq<string>)
    requires !table.singleMinus && c != '-' && ShortLookup(table.usage, c) == d < |table.usage|
    requires name != "" && LongLookup(table.usage, name, table.minAbbr) == d && table.usage[d].check == NoArg
    ensures var words := Alone(['-', c], "--" + name, form) + rest;
            ParsedAs(Scan(false, ParserOf(table), words), Scan(false, ParserOf(table), rest), true, table.usage[d].index, Nothing)
  {
    hide ShortLookup; hide LongLookup; hide Word; hide Scan;
    var words := Alone(['-', c], "--" + name, form) + rest;
    FlagWords(table, c, name, d, Next(words));
    var given := if form == ShortApart || form == ShortJoined then [c] else "--" + name;
    HeadParsed(ParserOf(table), words, rest, true, Parsed(d, table.usage[d].index, given, Nothing), false);
  }

  lemma ServerShort(lib: Readers)
    ensures var usage := ServerTable(lib).usage;
            && ShortLookup(usage, 'h') == 1 && ShortLookup(usage, 'i') == 2 && ShortLookup(usage, 'l') == 3
            && ShortLookup(usage, 'p') == 4 && ShortLookup(usage, 'b') == 5
  {
    var usage := ServerTable(lib).usage;
    ShortNameResolution(usage, 'h', 1);
    ShortNameResolution(usage, 'i', 2);
    ShortNameResolution(usage, 'l', 3);
    ShortNameResolution(usage, 'p', 4);
    ShortNameResolution(usage, 'b', 5);
    hide ShortLookup;
  }

  /** Long names without `=` that differ are found where they stand. */
  lemma PlainName(usage: Usage, d: nat)
    requires d < |usage| && usage[d].longopt != ""
    requires forall i :: 0 <= i < |usage| ==> '=' !in usage[i].longopt
    requires forall i :: 0 <= i < d ==> usage[i].longopt != usage[d].longopt
    ensures LongLookup(usage, usage[d].longopt, 0) == d && Shielded(usage, usage[d].longopt)
  {
    var name := usage[d].longopt;
    LongNameResolution(usage, name, 0, d);
    hide LongLookup; hide Exact; hide Continues;
    forall i | 0 <= i < |usage|
      ensures (Exact(usage[i].longopt, name) <==> usage[i].longopt == name) && !Continues(usage[i].longopt, name)
    {
      ExactJoined(usage[i].longopt, name, "");
      ContinuesMeans(usage[i].longopt, name);
    }
  }

  lemma ServerNames(lib: Readers)
    ensures var usage := ServerTable(lib).usage;
            && usage[0].longopt == usage[6].longopt == "" && usage[1].longopt == "help" && usage[2].longopt == "server-id"
            && usage[3].longopt == "ip-address" && usage[4].longopt == "port" && usage[5].longopt == "backup"
  {
  }

  lemma NamesPlain()
    ensures '=' !in "" && '=' !in "help" && '=' !in "server-id" && '=' !in "ip-address" && '=' !in "port" && '=' !in "backup"
    ensures "help" != "port"
  {
    assert "help"[0] != "port"[0];
  }

  lemma ServerLong(lib: Readers, name: string, d: nat)
    requires 1 <= d <= 5 && name == ServerTable(lib).usage[d].longopt
    ensures '=' !in name && name != "" && LongLookup(ServerTable(lib).usage, name, 0) == d && Shielded(ServerTable(lib).usage, name)
  {
    var usage := ServerTable(lib).usage;
    assert |usage| == 7;
    ServerNames(lib);
    hide ServerTable; hide LongLookup; hide Shielded;
    NamesPlain();
    PlainName(usage, d);
  }

  /** The list an item goes to. */
  function ListOf(item: Item): nat {
    match item
    case Id(_) => SERVERID
    case Interface(_) => IPADDRESS
    case Port(_) => PORT
    case Help => HELP
    case Backup => BACKUP
  }

  ghost predicate IsItem(o: Parsed, item: Item) {
    o.index == ListOf(item) && o.arg == if HasText(item) then Just(item.text) else Nothing
  }

  lemma ServerText(lib: Readers, c: char, name: string, d: nat, p: string -> bool, text: string, form: Form, rest: seq<string>)
    requires var usage := ServerTable(lib).usage; 1 <= d <= 5 && name == usage[d].longopt && ShortLookup(usage, c) == d && Insists(usage[d].check, p)
    requires c != '-' && (form == ShortJoined ==> text != "")
    ensures var parse, words := ParserOf(ServerTable(lib)), WithText(['-', c], "--" + name, text, form) + rest;
            ParsedAs(Scan(false, parse, words), Scan(false, parse, rest), p(text), ServerTable(lib).usage[d].index, Just(text))
  {
    ServerLong(lib, name, d);
    ShieldSuffices(ServerTable(lib).usage, name, text, 0);
    hide ShortLookup; hide LongLookup; hide Scan; hide Insists; hide Shielded;
    TextItem(ServerTable(lib), c, name, d, p, text, form, rest);
  }

  lemma ServerInsists(lib: Readers)
    ensures var usage := ServerTable(lib).usage;
            && Insists(usage[2].check, lib.idOk) && Insists(usage[3].check, lib.addressOk) && Insists(usage[4].check, lib.portOk)
            && usage[1].check == NoArg && usage[5].check == NoArg
  {
  }

  lemma ItemParsed(lib: Readers, g: Given, rest: seq<string>)
    requires Spellable(g)
    ensures var parse := ParserOf(ServerTable(lib));
            ParsedAs(Scan(false, parse, Spelled(g) + rest), Scan(false, parse, rest), Passes(lib, g.item), ListOf(g.item),
                     if HasText(g.item) then Just(g.item.text) else Nothing)
  {
    hide ShortLookup; hide LongLookup; hide Scan; hide ParsedAs; hide WithText; hide Alone; hide ParserOf; hide Insists;
    ServerShort(lib);
    ServerInsists(lib);
    var table := ServerTable(lib);
    match g.item
    case Id(text) =>
      assert "--" + "server-id" == "--server-id";
      ServerText(lib, 'i', "server-id", 2, lib.idOk, text, g.form, rest);
    case Interface(text) =>
      assert "--" + "ip-address" == "--ip-address";
      ServerText(lib, 'l', "ip-address", 3, lib.addressOk, text, g.form, rest);
    case Port(text) =>
      assert "--" + "port" == "--port";
      ServerText(lib, 'p', "port", 4, lib.portOk, text, g.form, rest);
    case Help =>
      assert "--" + "help" == "--help";
      ServerLong(lib, "help", 1);
      FlagItem(table, 'h', "help", 1, g.form, rest);
    case Backup =>
      assert "--" + "backup" == "--backup";
      ServerLong(lib, "backup", 5);
      FlagItem(table, 'b', "backup", 5, g.form, rest);
  }

  /** Either every item passes its check and becomes one option, or the parse fails. */
  ghost predicate LineParsed(lib: Readers, givens: seq<Given>, r: ScanResult) {
    if exists i :: 0 <= i < |givens| && !Passes(lib, givens[i].item) then !r.ok
    else r.ok && r.back == [] && |r.options| == |givens| && forall i :: 0 <= i < |givens| ==> IsItem(r.options[i], givens[i].item)
  }

  lemma LineCons(lib: Readers, givens: seq<Given>, r: ScanResult, s: ScanResult)
    requires givens != [] && LineParsed(lib, givens[1..], s)
    requires var item := givens[0].item;
             ParsedAs(r, s, Passes(lib, item), ListOf(item), if HasText(item) then Just(item.text) else Nothing)
    ensures LineParsed(lib, givens, r)
  {
    hide Passes; hide ListOf; hide HasText;
    var rest := givens[1..];
    assert forall i :: 0 <= i < |rest| ==> rest[i] == givens[i + 1];
    if exists i :: 0 <= i < |rest| && !Passes(lib, rest[i].item) {
      var i :| 0 <= i < |rest| && !Passes(lib, rest[i].item);
      assert !Passes(lib, givens[i + 1].item);
    } else if Passes(lib, givens[0].item) {
      forall i | 0 <= i < |givens|
        ensures Passes(lib, givens[i].item) && IsItem(r.options[i], givens[i].item)
      {
        if i > 0 {
          assert givens[i] == rest[i - 1] && r.options[i] == s.options[i - 1];
        }
      }
    }
  }

  lemma {:induction false} CommandLineParsed(lib: Readers, givens: seq<Given>)
    requires forall i :: 0 <= i < |givens| ==> Spellable(givens[i])
    ensures LineParsed(lib, givens, Scan(false, ParserOf(ServerTable(lib)), CommandLine(givens)))
  {
    hide ServerTable; hide ParserOf; hide Spelled; hide Passes; hide Spellable;
    if givens != [] {
      hide Scan;
      var parse, rest := ParserOf(ServerTable(lib)), CommandLine(givens[1..]);
      CommandLineParsed(lib, givens[1..]);
      ItemParsed(lib, givens[0], rest);
      LineCons(lib, givens, Scan(false, parse, CommandLine(givens)), Scan(false, parse, rest));
    }
  }

  // ---------------------------------------------------------------- from the items to the outcome

  ghost predicate Corresponds(options: seq<Parsed>, items: seq<Item>) {
    |options| == |items| && forall i :: 0 <= i < |items| ==> IsItem(options[i], items[i])
  }

  lemma CorrespondComplete(options: seq<Parsed>, items: seq<Item>)
    requires Corresponds(options, items)
    ensures AllComplete(options)
  {
    forall i | 0 <= i < |options|
      ensures Complete(options[i])
    {
      assert IsItem(options[i], items[i]);
    }
  }

  lemma ArgumentsUnique(options: seq<Parsed>, a: seq<string>, b: seq<string>)
    requires ArgumentsAre(options, a) && ArgumentsAre(options, b)
    ensures a == b
  {
    assert forall i :: 0 <= i < |a| ==> Just(a[i]) == Just(b[i]);
  }

  lemma ListedLast(options: seq<Parsed>, k: nat)
    requires options != []
    ensures var n := |options| - 1; Listed(options, k) == Listed(options[..n], k) + if options[n].index == k then [options[n]] else []
  {
    var n := |options| - 1;
    ListedSnoc(options[..n], options[n], k);
    assert options == options[..n] + [options[n]];
  }

  lemma NothingListed(k: nat)
    ensures Listed([], k) == []
  {
  }

  lemma {:induction false} IdsListed(options: seq<Parsed>, items: seq<Item>)
    requires Corresponds(options, items)
    ensures ArgumentsAre(Listed(options, SERVERID), Ids(items))
  {
    hide Listed;
    if items == [] {
      NothingListed(SERVERID);
    } else {
      var n := |items| - 1;
      IdsListed(options[..n], items[..n]);
      ListedLast(options, SERVERID);
      assert IsItem(options[n], items[n]);
    }
  }

  lemma {:induction false} InterfacesListed(options: seq<Parsed>, items: seq<Item>)
    requires Corresponds(options, items)
    ensures ArgumentsAre(Listed(options, IPADDRESS), Interfaces(items))
  {
    hide Listed;
    if items == [] {
      NothingListed(IPADDRESS);
    } else {
      var n := |items| - 1;
      InterfacesListed(options[..n], items[..n]);
      ListedLast(options, IPADDRESS);
      assert IsItem(options[n], items[n]);
    }
  }

  lemma {:induction false} PortsListed(options: seq<Parsed>, items: seq<Item>)
    requires Corresponds(options, items)
    ensures ArgumentsAre(Listed(options, PORT), Ports(items))
  {
    hide Listed;
    if items == [] {
      NothingListed(PORT);
    } else {
      var n := |items| - 1;
      PortsListed(options[..n], items[..n]);
      ListedLast(options, PORT);
      assert IsItem(options[n], items[n]);
    }
  }

  lemma {:induction false} FlagListed(options: seq<Parsed>, items: seq<Item>, item: Item)
    requires Corresponds(options, items) && !HasText(item)
    ensures Listed(options, ListOf(item)) != [] <==> item in items
  {
    hide Listed;
    if items == [] {
      NothingListed(ListOf(item));
    } else {
      var n := |items| - 1;
      FlagListed(options[..n], items[..n], item);
      ListedLast(options, ListOf(item));
      assert IsItem(options[n], items[n]) && items == items[..n] + [items[n]];
    }
  }

  lemma LegibleIsUsable(lib: Readers, interfaces: seq<string>, ports: seq<string>)
    ensures AllLegible(lib, interfaces, ports) <==> AllUsable(lib, interfaces, ports)
  {
  }

  lemma LocatorsListen(lib: Readers, interfaces: seq<string>, ports: seq<string>)
    requires AllUsable(lib, interfaces, ports)
    ensures AllLegible(lib, interfaces, ports) && Listens(lib, interfaces, ports, Locators(lib, interfaces, ports))
  {
    LegibleIsUsable(lib, interfaces, ports);
    var locators := Locators(lib, interfaces, ports);
    forall i | 0 <= i < |interfaces|
      ensures locators[i] == LocatorAt(lib, interfaces, ports, i) && (0 < |ports| <= i ==> UsablePort(lib, ports[|ports| - 1]))
    {
    }
  }

  lemma DecisionExpected(lib: Readers, options: seq<Parsed>, items: seq<Item>, argc: nat)
    requires Corresponds(options, items) && AllComplete(options) && (argc == 0 <==> items == [])
    requires forall i :: 0 <= i < |items| ==> Passes(lib, items[i])
    ensures Expected(lib, items, Decision(lib, options, argc))
  {
    hide Listed; hide Ids; hide Interfaces; hide Ports; hide Locators; hide Usable; hide AllLegible; hide Listens; hide Corresponds; hide Passes;
    IdsListed(options, items);
    InterfacesListed(options, items);
    PortsListed(options, items);
    FlagListed(options, items, Help);
    FlagListed(options, items, Backup);
    ArgumentsUnique(Listed(options, SERVERID), ArgumentsOf(options, SERVERID), Ids(items));
    ArgumentsUnique(Listed(options, IPADDRESS), ArgumentsOf(options, IPADDRESS), Interfaces(items));
    ArgumentsUnique(Listed(options, PORT), ArgumentsOf(options, PORT), Ports(items));
    LegibleIsUsable(lib, Interfaces(items), Ports(items));
    if AllUsable(lib, Interfaces(items), Ports(items)) {
      LocatorsListen(lib, Interfaces(items), Ports(items));
    }
  }

  /** The program's outcome for a parse, as Configure promises it. */
  ghost function Overall(lib: Readers, r: ScanResult, argc: nat): Outcome
    requires AllComplete(r.options)
  {
    if r.ok && r.back == [] && |r.options| <= INT_MAX then Decision(lib, r.options, argc) else Reject
  }

  lemma {:induction false} NoEmptySpelling(givens: seq<Given>)
    ensures CommandLine(givens) == [] <==> givens == []
  {
    if givens != [] {
      assert Spelled(givens[0]) != [];
    }
  }

  lemma CommandLineExpected(lib: Readers, givens: seq<Given>)
    requires WellSpelled(givens)
    ensures var words := CommandLine(givens);
            var r := Scan(false, ParserOf(ServerTable(lib)), words);
            AllComplete(r.options) && Expected(lib, Items(givens), Overall(lib, r, |words|))
  {
    hide Scan; hide Spellable; hide Spelled; hide ServerTable; hide Passes; hide IsItem; hide AllComplete; hide Decision;
    var r := Scan(false, ParserOf(ServerTable(lib)), CommandLine(givens));
    ScanComplete(false, lib, CommandLine(givens));
    CommandLineParsed(lib, givens);
    NoEmptySpelling(givens);
    hide CommandLine;
    var items := Items(givens);
    if exists i :: 0 <= i < |givens| && !Passes(lib, givens[i].item) {
      var i :| 0 <= i < |givens| && !Passes(lib, givens[i].item);
      assert !Passes(lib, items[i]);
    } else {
      assert forall i :: 0 <= i < |items| ==> items[i] == givens[i].item;
      DecisionExpected(lib, r.options, items, |CommandLine(givens)|);
    }
  }

  /** From the command line to what the program does about it; `argc` is the exact number of words. */
  method Configure(lib: Readers, argc: nat, argv: Vector) returns (outcome: Outcome)
    requires if argv == null then argc == 0 else argc <= argv.Length && |Words(argv[..], argc)| == argc
    modifies argv
    ensures var r := Scan(false, ParserOf(ServerTable(lib)), old(WordsOf(argv, argc)));
            && AllComplete(r.options)
            && outcome == if r.ok && r.back == [] && |r.options| <= INT_MAX then Decision(lib, r.options, argc) else Reject
    ensures forall givens: seq<Given> ::
              WellSpelled(givens) && old(WordsOf(argv, argc)) == CommandLine(givens) ==> Expected(lib, Items(givens), outcome)
    ensures argv != null ==> argv[..] == old(argv[..])
  {
    hide Scan; hide ServerTable; hide Holds; hide Words; hide ParserOf; hide Steady; hide AllComplete; hide Decision; hide OptionsMax;
    ghost var r := Scan(false, ParserOf(ServerTable(lib)), WordsOf(argv, argc));
    ScanComplete(false, lib, WordsOf(argv, argc));
    ServerTableSteady(lib);
    ServerTableSize(lib);
    PosixLeavesWords(ServerTable(lib), WordsOf(argv, argc));
    hide SentinelFree; hide Recounted;
    var parser, arrays;
    ghost var log;
    parser, arrays, log := CountAndParse(false, false, ServerTable(lib), argc, argv);
    assert |r.options| <= INT_MAX ==> log == r.options;
    if parser.err || parser.nonopCount != 0 {
      outcome := Reject;
    } else {
      outcome := Decide(lib, arrays, argc, log);
    }
    hide Expected;
    forall givens: seq<Given> | WellSpelled(givens) && old(WordsOf(argv, argc)) == CommandLine(givens)
      ensures Expected(lib, Items(givens), outcome)
    {
      CommandLineExpected(lib, givens);
    }
  }

  lemma ServerTableSize(lib: Readers)
    ensures OptionsMax(ServerTable(lib).usage, 1) == BACKUP + 2
  {
    var m := OptionsMax(ServerTable(lib).usage, 1);
    assert ServerTable(lib).usage[5].index == BACKUP;
    assert forall i :: 0 <= i < 7 ==> ServerTable(lib).usage[i].index <= BACKUP;
  }
}
