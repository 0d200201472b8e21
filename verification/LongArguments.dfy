/**
 Long options with an argument: when `--name=foo` and `--name foo` are interchangeable. The
 documentation says they are, and that even `=` characters in option names will work. Here is
 exactly when: the name has no `=`, and what follows it does not change what it resolves to.
 */
module LongArguments {
  import opened Common
  import opened OptionSyntax
  import opened WordSyntax
  import opened ArgPass
  import opened Reordering
  import opened Rewriting

  function Joined(name: string, text: string): string {
    name + "=" + text
  }

  // ---------------------------------------------------------------- what a name with an argument resolves to

  /** A long name that continues `name` with a `=`. */
  predicate Continues(longopt: string, name: string) {
    name + "=" <= longopt
  }

  /** Every descriptor whose name continues `name` stands behind one with exactly that name. */
  ghost predicate Shielded(usage: Usage, name: string) {
    forall j :: 0 <= j < |usage| && Continues(usage[j].longopt, name) ==> exists i :: 0 <= i < j && usage[i].longopt == name
  }

  lemma ContinuesMeans(longopt: string, name: string)
    ensures Continues(longopt, name) <==> |longopt| > |name| && longopt[..|name|] == name && longopt[|name|] == '='
  {
    assert |longopt| > |name| ==> longopt[..|name| + 1] == longopt[..|name|] + [longopt[|name|]];
  }

  lemma JoinedAt(name: string, text: string)
    ensures var full := Joined(name, text); |full| == |name| + 1 + |text| && full[..|name|] == name && full[|name|] == '='
    ensures Joined(name, text)[|name| + 1..] == text && Continues(Joined(name, text), name)
  {
    ContinuesMeans(Joined(name, text), name);
  }

  /** Up to its first `=`, a name matches one longopt exactly. */
  lemma ExactUpTo(longopt: string, s: string, k: nat)
    requires k <= |s| && '=' !in s[..k] && (k < |s| ==> s[k] == '=')
    ensures Exact(longopt, s) && |longopt| <= k <==> longopt == s[..k]
  {
    assert |longopt| < k ==> s[..k][|longopt|] == s[|longopt|];
  }

  lemma ExactJoined(longopt: string, name: string, text: string)
    requires '=' !in name
    ensures Exact(longopt, name) <==> longopt == name
    ensures longopt == name ==> Exact(longopt, Joined(name, text))
    ensures Exact(longopt, Joined(name, text)) ==> longopt == name || Continues(longopt, name)
  {
    var full := Joined(name, text);
    JoinedAt(name, text);
    assert name[..|name|] == name;
    ExactUpTo(longopt, name, |name|);
    ExactUpTo(longopt, full, |name|);
    ContinuesMeans(longopt, name);
    if |longopt| > |name| && longopt <= full {
      assert longopt[..|name|] == full[..|name|] && longopt[|name|] == full[|name|];
    }
  }

  /** A longopt that does not continue the name sees no difference. */
  lemma AbbreviatesJoined(longopt: string, name: string, text: string, min: int)
    requires !Continues(longopt, name)
    ensures '=' !in name ==> Abbreviates(longopt, Joined(name, text), min) == Abbreviates(longopt, name, min)
  {
    var full, n := Joined(name, text), CommonPrefix(longopt, name);
    JoinedAt(name, text);
    ContinuesMeans(longopt, name);
    assert full[..n] == name[..n];
    assert n < |name| ==> full[n] == name[n];
    assert n == |name| ==> longopt[..n] == name;
    CommonPrefixIs(longopt, full, n);
  }

  // ---------------------------------------------------------------- the exact condition for the lookup

  lemma FindSame<T>(s: seq<T>, from: nat, p: T -> bool, q: T -> bool)
    requires from <= |s| && forall i :: from <= i < |s| ==> p(s[i]) == q(s[i])
    ensures FindFrom(s, from, p) == FindFrom(s, from, q)
    decreases |s| - from
  {
    if from < |s| && !p(s[from]) {
      FindSame(s, from + 1, p, q);
    }
  }

  /** With no name that continues `name`, every search comes out the same. */
  lemma NothingContinues(usage: Usage, name: string, text: string, minAbbr: int)
    requires '=' !in name && forall j :: 0 <= j < |usage| ==> !Continues(usage[j].longopt, name)
    ensures LongLookup(usage, Joined(name, text), minAbbr) == LongLookup(usage, name, minAbbr)
  {
    var full := Joined(name, text);
    forall i | 0 <= i < |usage|
      ensures Exact(usage[i].longopt, full) == Exact(usage[i].longopt, name)
      ensures Abbreviates(usage[i].longopt, full, minAbbr) == Abbreviates(usage[i].longopt, name, minAbbr)
    {
      ExactJoined(usage[i].longopt, name, text);
      AbbreviatesJoined(usage[i].longopt, name, text, minAbbr);
    }
    hide Exact; hide Abbreviates; hide Continues;
    FindSame(usage, 0, (d: Descriptor) => Exact(d.longopt, full), (d: Descriptor) => Exact(d.longopt, name));
    var p, q := (d: Descriptor) => Abbreviates(d.longopt, full, minAbbr), (d: Descriptor) => Abbreviates(d.longopt, name, minAbbr);
    FindSame(usage, 0, p, q);
    var i1 := FindFrom(usage, 0, p);
    if i1 < |usage| {
      FindSame(usage, i1 + 1, p, q);
    }
  }

  /** The first exact match comes before everything that continues it. */
  lemma ExactFirst(usage: Usage, name: string, text: string, minAbbr: int, k: nat)
    requires '=' !in name && Shielded(usage, name)
    requires k < |usage| && usage[k].longopt == name && forall i :: 0 <= i < k ==> usage[i].longopt != name
    ensures LongLookup(usage, Joined(name, text), minAbbr) == LongLookup(usage, name, minAbbr) == k
  {
    var full := Joined(name, text);
    forall i | 0 <= i <= k
      ensures Exact(usage[i].longopt, full) == Exact(usage[i].longopt, name) == (i == k)
    {
      ExactJoined(usage[i].longopt, name, text);
    }
    hide Exact; hide Continues;
    LongNameResolution(usage, full, minAbbr, k);
    LongNameResolution(usage, name, minAbbr, k);
  }

  lemma ShieldSuffices(usage: Usage, name: string, text: string, minAbbr: int)
    requires '=' !in name && Shielded(usage, name)
    ensures LongLookup(usage, Joined(name, text), minAbbr) == LongLookup(usage, name, minAbbr)
  {
    var k := FindFrom(usage, 0, (d: Descriptor) => d.longopt == name);
    hide LongLookup; hide Continues;
    if k < |usage| {
      ExactFirst(usage, name, text, minAbbr, k);
    } else {
      NothingContinues(usage, name, text, minAbbr);
    }
  }

  /** A descriptor whose name continues `name` before any that has it: two texts cannot both resolve like the bare name. */
  lemma Unshielded(usage: Usage, name: string, minAbbr: int, j: nat) returns (text: string)
    requires '=' !in name && j < |usage| && Continues(usage[j].longopt, name)
    requires forall i :: 0 <= i < j ==> usage[i].longopt != name
    ensures LongLookup(usage, Joined(name, text), minAbbr) != LongLookup(usage, name, minAbbr)
  {
    var longopt := usage[j].longopt;
    text := longopt[|name| + 1..];
    assert Joined(name, text) == longopt;
    var k := FindFrom(usage, 0, (d: Descriptor) => Exact(d.longopt, longopt));
    assert Exact(longopt, longopt);
    assert k <= j;
    LongNameResolution(usage, longopt, minAbbr, k);
    ExactJoined(usage[k].longopt, name, text);
    if LongLookup(usage, name, minAbbr) == k {
      var found := usage[k].longopt;
      text := found[|name| + 1..] + "x";
      assert Joined(name, text) == found + "x";
      NotMatched(found, 'x', minAbbr);
      LongNameResolution(usage, Joined(name, text), minAbbr, k);
    }
  }

  /** A longopt with one more character is not a name for it. */
  lemma NotMatched(longopt: string, c: char, min: int)
    requires c != '='
    ensures !Exact(longopt, longopt + [c]) && !Abbreviates(longopt, longopt + [c], min)
  {
    var s := longopt + [c];
    assert s[|longopt|] == c && s[..|longopt|] == longopt;
    assert longopt[..|longopt|] == longopt;
    CommonPrefixIs(longopt, s, |longopt|);
  }

  /** A name resolves to the same whatever argument is attached to it if and only if it is shielded. */
  lemma LookupIgnoresArgument(usage: Usage, name: string, minAbbr: int)
    requires '=' !in name
    ensures (forall text :: LongLookup(usage, Joined(name, text), minAbbr) == LongLookup(usage, name, minAbbr)) <==> Shielded(usage, name)
  {
    hide LongLookup;
    if Shielded(usage, name) {
      forall text
        ensures LongLookup(usage, Joined(name, text), minAbbr) == LongLookup(usage, name, minAbbr)
      {
        ShieldSuffices(usage, name, text, minAbbr);
      }
    } else {
      var j :| 0 <= j < |usage| && Continues(usage[j].longopt, name) && !exists i :: 0 <= i < j && usage[i].longopt == name;
      var text := Unshielded(usage, name, minAbbr, j);
    }
  }

  // ---------------------------------------------------------------- one word or two

  function JoinedWord(name: string, text: string): string {
    "--" + Joined(name, text)
  }

  /** A long word: what its name resolves to, and what it could take. */
  lemma LongWords(table: Table, name: string, next: Maybe<string>)
    requires name != ""
    ensures OptionWord("--" + name)
    ensures Word(table, "--" + name, next)
            == LongWord(table.usage, LongLookup(table.usage, name, table.minAbbr), "--" + name, LongCandidate(name, next))
  {
    assert ("--" + name)[2..] == name;
  }

  /** The text behind the first `=`. */
  function Behind(name: string): string
    requires '=' in name
  {
    var eq := FindFrom(name, 0, c => c == '=');
    name[eq + 1..]
  }

  lemma CandidatePlain(name: string, text: string, next: Maybe<string>)
    requires '=' !in name
    ensures LongCandidate(name, next) == Detached(next) && LongCandidate(Joined(name, text), next) == Attached(text)
  {
    var full := Joined(name, text);
    JoinedAt(name, text);
    assert forall i :: 0 <= i < |name| ==> full[i] == name[i];
  }

  lemma CandidateCut(name: string, text: string, next: Maybe<string>)
    requires '=' in name
    ensures LongCandidate(name, next) == Attached(Behind(name))
    ensures LongCandidate(Joined(name, text), next) == Attached(Joined(Behind(name), text))
  {
    var full, eq := Joined(name, text), FindFrom(name, 0, c => c == '=');
    assert forall i :: 0 <= i < |name| ==> full[i] == name[i];
    FindUpTo(name, full, eq);
    assert full[eq + 1..] == name[eq + 1..] + "=" + text;
  }

  lemma FindUpTo(s: string, t: string, k: nat)
    requires k < |s| <= |t| && t[..|s|] == s && s[k] == '=' && forall i :: 0 <= i < k ==> s[i] != '='
    ensures FindFrom(s, 0, c => c == '=') == k == FindFrom(t, 0, c => c == '=')
  {
    assert forall i :: 0 <= i <= k ==> t[i] == t[..|s|][i] == s[i];
  }

  /** A name with a `=` in it never takes a separate argument: what follows its first `=` is its argument. */
  lemma EqualsNeverSeparates(table: Table, name: string, next: Maybe<string>)
    requires '=' in name
    ensures Word(table, "--" + name, next) == Word(table, "--" + name, Nothing) && !Word(table, "--" + name, next).took
  {
    CandidateCut(name, "", next);
    CandidateCut(name, "", Nothing);
    LongWords(table, name, next);
    LongWords(table, name, Nothing);
    hide LongCandidate; hide LongLookup;
  }

  // ---------------------------------------------------------------- attached and separate arguments of long options

  ghost predicate SameLookup(table: Table, name: string, text: string) {
    LongLookup(table.usage, Joined(name, text), table.minAbbr) == LongLookup(table.usage, name, table.minAbbr)
  }

  /**
   The name has no `=` and resolves to the same with this argument attached, or the option is
   rejected either way.
   */
  ghost predicate Interchangeable(table: Table, name: string, text: string) {
    || ('=' !in name && SameLookup(table, name, text))
    || (!Word(table, "--" + name, Just(text)).ok && !Word(table, JoinedWord(name, text), Nothing).ok)
  }

  lemma LongNames(name: string, text: string)
    requires '=' !in name
    ensures var joined, word := JoinedWord(name, text), "--" + name;
            NameLength(joined) == NameLength(word) == |word| && joined[..|word|] == word
  {
    var joined, word := JoinedWord(name, text), "--" + name;
    JoinedAt(name, text);
    assert forall i :: 1 <= i < |word| ==> joined[i] == word[i] != '=';
    assert joined[|word|] == '=';
  }

  lemma SameLongOption(usage: Usage, idx: nat, joined: string, word: string, text: string)
    requires TakesArgument(usage, idx)
    requires word != "" && |joined| >= |word| && NameLength(joined) == NameLength(word) == |word| && joined[..|word|] == word
    ensures var m, n := LongWord(usage, idx, joined, Attached(text)), LongWord(usage, idx, word, Separate(text));
            m.ok == n.ok && !m.took && (n.ok ==> n.took) && SameOptions(m.options, n.options)
  {
    var d := if idx < |usage| then idx else DummyLookup(usage);
    assert usage[d].check(joined, Just(text)) == usage[d].check(word, Just(text));
    assert word[..|word|] == word;
  }

  /** The word with the argument attached reads the same whatever follows it, and takes nothing. */
  lemma JoinedTakesNothing(table: Table, name: string, text: string, next: Maybe<string>)
    ensures OptionWord(JoinedWord(name, text))
    ensures Word(table, JoinedWord(name, text), next) == Word(table, JoinedWord(name, text), Nothing)
    ensures !Word(table, JoinedWord(name, text), next).took
  {
    JoinedAt(name, text);
    assert Joined(name, text)[|name|] == '=' && '=' in Joined(name, text);
    EqualsNeverSeparates(table, Joined(name, text), next);
    LongWords(table, Joined(name, text), next);
  }

  /** A word that is rejected performs nothing. */
  lemma LongRejected(table: Table, name: string, next: Maybe<string>)
    requires name != ""
    ensures var m := Word(table, "--" + name, next); |m.options| <= 1 && (!m.ok ==> m.options == [] && !m.took)
  {
    LongWords(table, name, next);
    hide LongCandidate; hide LongLookup;
  }

  lemma LongSpelling(table: Table, name: string, text: string)
    requires name != "" && TakesArgument(table.usage, LongLookup(table.usage, name, table.minAbbr)) && Interchangeable(table, name, text)
    ensures Spelling(ParserOf(table), JoinedWord(name, text), "--" + name, text)
  {
    hide Word; hide LongLookup; hide LongWord; hide LongCandidate;
    var parse := ParserOf(table);
    var joined, word := JoinedWord(name, text), "--" + name;
    var idx := LongLookup(table.usage, name, table.minAbbr);
    LongWords(table, name, Just(text));
    LongRejected(table, name, Just(text));
    LongRejected(table, Joined(name, text), Nothing);
    LongWords(table, Joined(name, text), Nothing);
    if '=' !in name && SameLookup(table, name, text) {
      LongNames(name, text);
      SameLongOption(table.usage, idx, joined, word, text);
      CandidatePlain(name, text, Just(text));
      CandidatePlain(name, text, Nothing);
    }
    forall next
      ensures parse(joined, next) == parse(joined, Nothing) && !parse(joined, next).took
    {
      JoinedTakesNothing(table, name, text, next);
    }
  }

  // ---------------------------------------------------------------- where the two differ

  /** Only a name that is empty up to its `=` can stand for a descriptor without a long name. */
  lemma ResolvesToNamed(usage: Usage, name: string, minAbbr: int)
    requires name != "" && name[0] != '='
    ensures var idx := LongLookup(usage, name, minAbbr); idx < |usage| ==> usage[idx].longopt != ""
  {
    var idx := LongLookup(usage, name, minAbbr);
    if idx < |usage| {
      LongNameResolution(usage, name, minAbbr, idx);
    }
  }

  /** The options of two words that resolve differently are different, or one of the words has none. */
  lemma OtherOption(usage: Usage, i: nat, j: nat, word: string, a: Candidate, joined: string, b: Candidate)
    requires i <= |usage| && j <= |usage| && i != j
    requires i < |usage| ==> usage[i].longopt != ""
    requires j < |usage| ==> usage[j].longopt != ""
    ensures var m, n := LongWord(usage, i, word, a), LongWord(usage, j, joined, b);
            m.options != [] && n.options != [] ==> m.options[0].desc != n.options[0].desc
  {
  }

  /** An accepted argument is in the option performed. */
  lemma AcceptedOption(usage: Usage, idx: nat, word: string, cand: Candidate)
    requires TakesArgument(usage, idx) && !cand.Absent?
    ensures var m := LongWord(usage, idx, word, cand); m.ok ==> |m.options| == 1 && m.options[0].arg == Just(cand.text)
  {
    var d := if idx < |usage| then idx else DummyLookup(usage);
    assert usage[d].check(word, Just(cand.text)) == ArgOk || usage[d].check(word, Just(cand.text)) == ArgIllegal;
  }

  lemma AttachedOption(usage: Usage, idx: nat, word: string, text: string)
    ensures var m := LongWord(usage, idx, word, Attached(text)); m.options == [] || m.options[0].arg == Nothing || m.options[0].arg == Just(text)
  {
  }

  /** When the separate argument is accepted and the two are not interchangeable, they come to different options. */
  lemma AcceptedDiffers(table: Table, name: string, text: string)
    requires name != "" && TakesArgument(table.usage, LongLookup(table.usage, name, table.minAbbr))
    requires Word(table, "--" + name, Just(text)).ok && !Interchangeable(table, name, text)
    ensures var m, n := Word(table, "--" + name, Just(text)).options, Word(table, JoinedWord(name, text), Nothing).options;
            |m| == 1 && (n != [] ==> Show(n[0]) != Show(m[0]))
  {
    hide Word; hide LongLookup; hide LongWord; hide LongCandidate;
    var usage, full := table.usage, Joined(name, text);
    var i, j := LongLookup(usage, name, table.minAbbr), LongLookup(usage, full, table.minAbbr);
    LongWords(table, name, Just(text));
    LongWords(table, full, Nothing);
    if '=' in name {
      CandidateCut(name, text, Just(text));
      AcceptedOption(usage, i, "--" + name, Attached(Behind(name)));
      CandidateCut(name, text, Nothing);
      AttachedOption(usage, j, JoinedWord(name, text), Joined(Behind(name), text));
    } else {
      CandidatePlain(name, text, Just(text));
      CandidatePlain(name, text, Nothing);
      AcceptedOption(usage, i, "--" + name, Separate(text));
      JoinedAt(name, text);
      ResolvesToNamed(usage, name, table.minAbbr);
      ResolvesToNamed(usage, full, table.minAbbr);
      OtherOption(usage, i, j, "--" + name, Separate(text), JoinedWord(name, text), Attached(text));
    }
  }

  lemma ScanAlone(gnu: bool, parse: WordParser, w: string)
    requires OptionWord(w)
    ensures Scan(gnu, parse, [w]).ok == parse(w, Nothing).ok && Scan(gnu, parse, [w]).options == parse(w, Nothing).options
  {
    var rest: seq<string> := [w][1..];
    assert rest == [] && Scan(gnu, parse, rest) == ScanResult([], [], [], true, []);
  }

  lemma ScanFirst(gnu: bool, parse: WordParser, words: seq<string>)
    requires words != [] && OptionWord(words[0])
    ensures var m, r := parse(words[0], Next(words)), Scan(gnu, parse, words); (r.ok ==> m.ok) && m.options <= r.options
  {
  }

  /** `--name=foo` and `--name foo`, alone on the command line, parse alike exactly when they are interchangeable. */
  lemma LongArgumentAlone(gnu: bool, table: Table, name: string, text: string)
    requires name != "" && TakesArgument(table.usage, LongLookup(table.usage, name, table.minAbbr))
    ensures var parse := ParserOf(table);
            Equivalent(Scan(gnu, parse, [JoinedWord(name, text)]), Scan(gnu, parse, ["--" + name, text])) <==> Interchangeable(table, name, text)
  {
    hide Scan; hide Word; hide LongLookup; hide Spelling;
    var parse, joined, word := ParserOf(table), JoinedWord(name, text), "--" + name;
    if Interchangeable(table, name, text) {
      LongSpelling(table, name, text);
      SeparateHere(gnu, parse, joined, word, text, []);
      assert [joined] + [] == [joined] && [word, text] + [] == [word, text];
    } else {
      JoinedTakesNothing(table, name, text, Nothing);
      LongWords(table, name, Just(text));
      ScanAlone(gnu, parse, joined);
      ScanFirst(gnu, parse, [word, text]);
      LongRejected(table, Joined(name, text), Nothing);
      if Word(table, word, Just(text)).ok {
        AcceptedDiffers(table, name, text);
      }
    }
  }

  // ---------------------------------------------------------------- anywhere on the command line

  /** Attaching the argument at this place, or separating it, keeps the parse if the pass gets there. */
  ghost predicate SeparatesAt(gnu: bool, table: Table, name: string, text: string, before: seq<string>, after: seq<string>) {
    var parse := ParserOf(table);
    var x, y := [JoinedWord(name, text)] + after, ["--" + name, text] + after;
    Reaches(gnu, parse, before + x, |before|) || Reaches(gnu, parse, before + y, |before|) ==>
      Equivalent(Scan(gnu, parse, before + x), Scan(gnu, parse, before + y))
  }

  lemma SeparatesInContext(gnu: bool, table: Table, name: string, text: string, before: seq<string>, after: seq<string>)
    requires Steady(table.usage) && name != "" && TakesArgument(table.usage, LongLookup(table.usage, name, table.minAbbr))
    requires Interchangeable(table, name, text)
    ensures SeparatesAt(gnu, table, name, text, before, after)
  {
    hide Scan; hide Reaches; hide Spelling; hide LongLookup; hide Interchangeable;
    var parse := ParserOf(table);
    var x, y := [JoinedWord(name, text)] + after, ["--" + name, text] + after;
    if Reaches(gnu, parse, before + x, |before|) || Reaches(gnu, parse, before + y, |before|) {
      LongSpelling(table, name, text);
      SeparateHere(gnu, parse, JoinedWord(name, text), "--" + name, text, after);
      Replacing(gnu, table, before, x, y);
    }
  }

  lemma NothingAround(gnu: bool, table: Table, name: string, text: string)
    requires SeparatesAt(gnu, table, name, text, [], [])
    ensures var parse := ParserOf(table); Equivalent(Scan(gnu, parse, [JoinedWord(name, text)]), Scan(gnu, parse, ["--" + name, text]))
  {
    hide Scan;
    assert [] + ([JoinedWord(name, text)] + []) == [JoinedWord(name, text)] && [] + (["--" + name, text] + []) == ["--" + name, text];
  }

  ghost predicate SeparatesEverywhere(gnu: bool, table: Table, name: string, text: string) {
    forall before, after :: SeparatesAt(gnu, table, name, text, before, after)
  }

  /** `--name=foo` and `--name foo` can be exchanged wherever the pass gets to them exactly when they are interchangeable. */
  lemma LongArgumentSeparates(gnu: bool, table: Table, name: string, text: string)
    requires Steady(table.usage) && name != "" && TakesArgument(table.usage, LongLookup(table.usage, name, table.minAbbr))
    ensures SeparatesEverywhere(gnu, table, name, text) <==> Interchangeable(table, name, text)
  {
    hide SeparatesAt; hide LongLookup; hide Interchangeable; hide Scan;
    if Interchangeable(table, name, text) {
      forall before, after
        ensures SeparatesAt(gnu, table, name, text, before, after)
      {
        SeparatesInContext(gnu, table, name, text, before, after);
      }
    }
    if SeparatesAt(gnu, table, name, text, [], []) {
      NothingAround(gnu, table, name, text);
      LongArgumentAlone(gnu, table, name, text);
    }
  }

  // ---------------------------------------------------------------- for every argument

  /** The option stored for index `idx` accepts every argument. */
  ghost predicate AcceptsEverything(usage: Usage, idx: nat) {
    var d := if idx < |usage| then idx else DummyLookup(usage);
    d < |usage| && forall name: string, text: string :: usage[d].check(name, Just(text)) == ArgOk
  }

  lemma EverythingInsists(usage: Usage, idx: nat)
    requires AcceptsEverything(usage, idx)
    ensures TakesArgument(usage, idx)
  {
  }

  lemma EverythingAccepted(table: Table, name: string, text: string)
    requires name != "" && AcceptsEverything(table.usage, LongLookup(table.usage, name, table.minAbbr))
    ensures Word(table, "--" + name, Just(text)).ok
  {
    LongWords(table, name, Just(text));
    hide LongLookup;
  }

  lemma AlwaysSameLookup(table: Table, name: string)
    requires '=' !in name
    ensures (forall text :: SameLookup(table, name, text)) <==> Shielded(table.usage, name)
  {
    hide LongLookup; hide Shielded; hide Joined;
    LookupIgnoresArgument(table.usage, name, table.minAbbr);
    if forall text :: SameLookup(table, name, text) {
      forall text
        ensures LongLookup(table.usage, Joined(name, text), table.minAbbr) == LongLookup(table.usage, name, table.minAbbr)
      {
        assert SameLookup(table, name, text);
      }
    }
  }

  /** A shielded name without `=` takes every argument attached or separate. */
  lemma ShieldedSeparates(gnu: bool, table: Table, name: string, text: string)
    requires Steady(table.usage) && name != "" && TakesArgument(table.usage, LongLookup(table.usage, name, table.minAbbr))
    requires '=' !in name && Shielded(table.usage, name)
    ensures SeparatesEverywhere(gnu, table, name, text)
  {
    hide SeparatesEverywhere; hide LongLookup; hide Word; hide Shielded; hide SameLookup;
    AlwaysSameLookup(table, name);
    assert SameLookup(table, name, text);
    LongArgumentSeparates(gnu, table, name, text);
  }

  /** With an option that accepts every argument, all of them can be attached or separate iff the name is shielded and has no `=`. */
  lemma EveryArgumentSeparates(gnu: bool, table: Table, name: string)
    requires Steady(table.usage) && name != "" && AcceptsEverything(table.usage, LongLookup(table.usage, name, table.minAbbr))
    ensures (forall text :: SeparatesEverywhere(gnu, table, name, text)) <==> '=' !in name && Shielded(table.usage, name)
  {
    hide SeparatesEverywhere; hide LongLookup; hide Word; hide Shielded;
    EverythingInsists(table.usage, LongLookup(table.usage, name, table.minAbbr));
    forall text: string
      ensures SeparatesEverywhere(gnu, table, name, text) <==> '=' !in name && SameLookup(table, name, text)
    {
      EverythingAccepted(table, name, text);
      LongArgumentSeparates(gnu, table, name, text);
    }
    if '=' !in name {
      AlwaysSameLookup(table, name);
    } else {
      assert !SeparatesEverywhere(gnu, table, name, "");
    }
  }

  // ---------------------------------------------------------------- a name with an equals sign

  const EqualsTable: Table := Table([Descriptor(0, 0, "", "a=b", RequiredArg(_ => true))], false, 0)

  lemma EqualsWord(name: string, arg: string, next: Maybe<string>)
    requires "a=b" <= name && (|name| == 3 || name[3] == '=') && arg == name[2..]
    ensures OptionWord("--" + name) && '=' in name
    ensures Word(EqualsTable, "--" + name, next) == WordResult([Parsed(0, 0, "--" + name, Just(arg))], false, true)
  {
    var usage := EqualsTable.usage;
    assert name[0] == 'a' && name[1] == '=';
    FindUpTo("a=", name, 1);
    LongWords(EqualsTable, name, next);
    assert usage[0].longopt == "a=b" && LongLookup(usage, name, 0) == 0;
    hide LongLookup;
  }

  /** The option `a=b` takes `b=foo` as its argument when `foo` is attached and `b` when it is not; `foo` is then a non-option. */
  lemma EqualsBelongToTheArgument(gnu: bool)
    ensures var parse := ParserOf(EqualsTable);
            var attached, separate := Scan(gnu, parse, ["--a=b=foo"]), Scan(gnu, parse, ["--a=b", "foo"]);
            && attached.options == [Parsed(0, 0, "--a=b=foo", Just("b=foo"))] && attached.back == []
            && separate.options == [Parsed(0, 0, "--a=b", Just("b"))] && separate.back == ["foo"]
            && !Equivalent(attached, separate)
  {
    hide Word; hide Show;
    EqualsWord("a=b=foo", "b=foo", Nothing);
    EqualsWord("a=b", "b", Just("foo"));
    var parse := ParserOf(EqualsTable);
    assert "--" + "a=b=foo" == "--a=b=foo" && "--" + "a=b" == "--a=b";
    assert ["--a=b=foo"][1..] == [] && ["--a=b", "foo"][1..] == ["foo"] && ["foo"][1..] == [];
    assert Scan(gnu, parse, ["foo"]).back == ["foo"];
  }
}
