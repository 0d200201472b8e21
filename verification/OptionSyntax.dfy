/**
 The vocabulary of the option parser: descriptors, check functions and the ways a word of
 the argument vector is matched against the usage table.

 A C string is the sequence of its characters before the terminating 0, so `s[|s|]` is where
 the source reads the 0. A usage table is the sequence of its descriptors before the all-zero
 entry, so the index `|usage|` stands for "no descriptor".
 */
module OptionSyntax {
  import opened Common

  datatype ArgStatus = ArgNone | ArgOk | ArgIgnore | ArgIllegal

  /** A check function sees the option's name (with whatever follows it) and its argument. */
  type CheckArg = (string, Maybe<string>) -> ArgStatus

  datatype Descriptor = Descriptor(index: nat, kind: int, shortopt: string, longopt: string, check: CheckArg)

  type Usage = seq<Descriptor>

  // ---------------------------------------------------------------- matching a long name

  /** `name` is `longopt`, possibly followed by '=' and an argument. */
  predicate Exact(longopt: string, name: string) {
    longopt <= name && (|longopt| == |name| || name[|longopt|] == '=')
  }

  function CommonPrefix(a: string, b: string): (n: nat)
    ensures n <= |a| && n <= |b|
    ensures a[..n] == b[..n]
    ensures n < |a| && n < |b| ==> a[n] != b[n]
  {
    if a == [] || b == [] || a[0] != b[0] then 0
    else
      var n := 1 + CommonPrefix(a[1..], b[1..]);
      assert a[..n] == [a[0]] + a[1..][..n - 1] && b[..n] == [b[0]] + b[1..][..n - 1];
      n
  }

  /** `name` up to its end or its '=' is `longopt` or, when `min > 0`, a prefix of it of at least `min` characters. */
  predicate Abbreviates(longopt: string, name: string, min: int) {
    var n := CommonPrefix(longopt, name);
    (n == |longopt| || (min > 0 && n >= min)) && (n == |name| || name[n] == '=')
  }

  lemma ExactMeans(longopt: string, name: string)
    ensures Exact(longopt, name) <==> longopt == name || longopt + "=" <= name
  {
    assert longopt <= name && |longopt| < |name| ==> name[..|longopt| + 1] == longopt + [name[|longopt|]];
  }

  method StrEq(st1: string, st2: string) returns (b: bool)
    ensures b <==> Exact(st1, st2)
    ensures b <==> st1 == st2 || st1 + "=" <= st2
  {
    ExactMeans(st1, st2);
    var i := 0;
    while i < |st1|
      invariant i <= |st1| && i <= |st2|
      invariant st1[..i] == st2[..i]
    {
      if i == |st2| || st1[i] != st2[i] {
        return false;
      }
      i := i + 1;
    }
    return i == |st2| || st2[i] == '=';
  }

  method StrEqAbbr(st1: string, st2: string, min: int) returns (b: bool)
    ensures b <==> Abbreviates(st1, st2, min)
  {
    var i := 0;
    while i < |st1| && i < |st2| && st1[i] == st2[i]
      invariant i <= |st1| && i <= |st2|
      invariant st1[..i] == st2[..i]
    {
      i := i + 1;
    }
    CommonPrefixIs(st1, st2, i);
    return (i == |st1| || (min > 0 && i >= min)) && (i == |st2| || st2[i] == '=');
  }

  /** The common prefix is the only agreeing length at which the two strings part. */
  lemma CommonPrefixIs(a: string, b: string, n: nat)
    requires n <= |a| && n <= |b| && a[..n] == b[..n]
    requires n < |a| && n < |b| ==> a[n] != b[n]
    ensures CommonPrefix(a, b) == n
  {
  }

  /** The first `k` characters of `name` are all of it up to a `=` that `longopt` does not have there too. */
  predicate EndsAt(longopt: string, name: string, k: nat) {
    k <= |name| && (k == |name| || (name[k] == '=' && (k >= |longopt| || longopt[k] != '=')))
  }

  /** An abbreviation is a beginning of the long name, all of it or at least `min` characters, up to the end or the `=`. */
  lemma AbbreviationMeans(longopt: string, name: string, min: int)
    ensures Abbreviates(longopt, name, min)
            <==> exists k: nat :: EndsAt(longopt, name, k) && name[..k] <= longopt && (name[..k] == longopt || (min > 0 && k >= min))
  {
    var n := CommonPrefix(longopt, name);
    if Abbreviates(longopt, name, min) {
      assert EndsAt(longopt, name, n) && name[..n] <= longopt;
      assert n == |longopt| ==> name[..n] == longopt;
    }
    forall k: nat | EndsAt(longopt, name, k) && name[..k] <= longopt
      ensures k == n
    {
      assert longopt[..k] == name[..k];
      CommonPrefixIs(longopt, name, k);
    }
  }

  /** What the long name `name` stands for in `usage`. */
  function LongLookup(usage: Usage, name: string, minAbbr: int): (idx: nat)
    ensures idx <= |usage|
  {
    var exact := FindFrom(usage, 0, (d: Descriptor) => Exact(d.longopt, name));
    if exact < |usage| || minAbbr <= 0 then exact else
      var abbreviated := (d: Descriptor) => Abbreviates(d.longopt, name, minAbbr);
      var i1 := FindFrom(usage, 0, abbreviated);
      if i1 < |usage| && FindFrom(usage, i1 + 1, abbreviated) == |usage| then i1 else |usage|
  }

  ghost predicate IsFirstExact(usage: Usage, name: string, idx: nat) {
    && idx < |usage| && Exact(usage[idx].longopt, name)
    && forall i :: 0 <= i < idx ==> !Exact(usage[i].longopt, name)
  }

  ghost predicate IsOnlyAbbreviated(usage: Usage, name: string, minAbbr: int, idx: nat) {
    && minAbbr > 0
    && (forall i :: 0 <= i < |usage| ==> !Exact(usage[i].longopt, name))
    && (forall i :: 0 <= i < |usage| ==> (Abbreviates(usage[i].longopt, name, minAbbr) <==> i == idx))
  }

  /** A long name resolves to the first exact match, else to the unique abbreviation match, else to nothing. */
  lemma LongNameResolution(usage: Usage, name: string, minAbbr: int, idx: nat)
    requires idx < |usage|
    ensures LongLookup(usage, name, minAbbr) == idx
            <==> IsFirstExact(usage, name, idx) || IsOnlyAbbreviated(usage, name, minAbbr, idx)
  {
    var exact := FindFrom(usage, 0, (d: Descriptor) => Exact(d.longopt, name));
    if exact < |usage| {
      assert Exact(usage[exact].longopt, name);
      assert IsFirstExact(usage, name, idx) <==> idx == exact;
    } else if minAbbr > 0 {
      var abbreviated := (d: Descriptor) => Abbreviates(d.longopt, name, minAbbr);
      var i1 := FindFrom(usage, 0, abbreviated);
      if i1 < |usage| {
        var i2 := FindFrom(usage, i1 + 1, abbreviated);
        assert abbreviated(usage[i1]) && (i2 < |usage| ==> abbreviated(usage[i2]));
        assert i2 == |usage| ==> forall i :: 0 <= i < |usage| ==> (abbreviated(usage[i]) <==> i == i1);
      }
      assert abbreviated(usage[idx]) <==> Abbreviates(usage[idx].longopt, name, minAbbr);
    }
  }

  method FindLongOption(usage: Usage, name: string, minAbbr: int) returns (idx: nat)
    ensures idx == LongLookup(usage, name, minAbbr)
  {
    ghost var isExact := (d: Descriptor) => Exact(d.longopt, name);
    ghost var abbreviated := (d: Descriptor) => Abbreviates(d.longopt, name, minAbbr);
    idx := 0;
    while idx < |usage|
      invariant idx <= |usage|
      invariant FindFrom(usage, 0, isExact) == FindFrom(usage, idx, isExact)
    {
      var matches := StrEq(usage[idx].longopt, name);
      if matches {
        break;
      }
      idx := idx + 1;
    }
    if idx == |usage| && minAbbr > 0 {
      var i1 := 0;
      while i1 < |usage|
        invariant i1 <= |usage|
        invariant FindFrom(usage, 0, abbreviated) == FindFrom(usage, i1, abbreviated)
      {
        var matches := StrEqAbbr(usage[i1].longopt, name, minAbbr);
        if matches {
          break;
        }
        i1 := i1 + 1;
      }
      if i1 < |usage| {
        var i2 := i1 + 1;
        while i2 < |usage|
          invariant i1 < i2 <= |usage|
          invariant FindFrom(usage, i1 + 1, abbreviated) == FindFrom(usage, i2, abbreviated)
        {
          var matches := StrEqAbbr(usage[i2].longopt, name, minAbbr);
          if matches {
            break;
          }
          i2 := i2 + 1;
        }
        if i2 == |usage| {
          idx := i1;
        }
      }
    }
  }

  // ---------------------------------------------------------------- short options and unknown options

  function ShortLookup(usage: Usage, c: char): (idx: nat)
    ensures idx <= |usage|
  {
    FindFrom(usage, 0, (d: Descriptor) => c in d.shortopt)
  }

  ghost predicate IsFirstWith(usage: Usage, c: char, idx: nat) {
    idx < |usage| && c in usage[idx].shortopt && forall i :: 0 <= i < idx ==> c !in usage[i].shortopt
  }

  /** Every character of a descriptor's short options stands for it, unless an earlier descriptor has the character too. */
  lemma ShortNameResolution(usage: Usage, c: char, idx: nat)
    ensures idx < |usage| ==> (ShortLookup(usage, c) == idx <==> IsFirstWith(usage, c, idx))
    ensures ShortLookup(usage, c) == |usage| <==> forall i :: 0 <= i < |usage| ==> c !in usage[i].shortopt
  {
  }

  method FindShortOption(usage: Usage, c: char) returns (idx: nat)
    ensures idx == ShortLookup(usage, c) <= |usage|
    ensures idx < |usage| ==> c in usage[idx].shortopt
    ensures forall i :: 0 <= i < idx ==> c !in usage[i].shortopt
  {
    ghost var has := (d: Descriptor) => c in d.shortopt;
    idx := 0;
    while idx < |usage|
      invariant idx <= |usage|
      invariant FindFrom(usage, 0, has) == FindFrom(usage, idx, has)
    {
      var st := usage[idx].shortopt;
      var i := 0;
      while i < |st| && st[i] != c
        invariant i <= |st|
        invariant c !in st[..i]
      {
        i := i + 1;
      }
      if i < |st| {
        break;
      }
      idx := idx + 1;
    }
  }

  /** The first descriptor with neither short nor long name collects the unknown options. */
  function DummyLookup(usage: Usage): (idx: nat)
    ensures idx <= |usage|
  {
    FindFrom(usage, 0, (d: Descriptor) => d.shortopt == "" && d.longopt == "")
  }

  ghost predicate Unnamed(d: Descriptor) {
    |d.shortopt| == 0 && |d.longopt| == 0
  }

  ghost predicate IsFirstUnnamed(usage: Usage, idx: nat) {
    idx < |usage| && Unnamed(usage[idx]) && forall i :: 0 <= i < idx ==> !Unnamed(usage[i])
  }

  lemma DummyResolution(usage: Usage, idx: nat)
    ensures idx < |usage| ==> (DummyLookup(usage) == idx <==> IsFirstUnnamed(usage, idx))
    ensures DummyLookup(usage) == |usage| <==> forall i :: 0 <= i < |usage| ==> !Unnamed(usage[i])
  {
  }

  method FindDummy(usage: Usage) returns (idx: nat)
    ensures idx == DummyLookup(usage) <= |usage|
    ensures idx < |usage| ==> |usage[idx].shortopt| == 0 && |usage[idx].longopt| == 0
    ensures forall i :: 0 <= i < idx ==> |usage[i].shortopt| > 0 || |usage[i].longopt| > 0
  {
    ghost var isDummy := (d: Descriptor) => d.shortopt == "" && d.longopt == "";
    idx := 0;
    while idx < |usage| && (usage[idx].shortopt != "" || usage[idx].longopt != "")
      invariant idx <= |usage|
      invariant FindFrom(usage, 0, isDummy) == FindFrom(usage, idx, isDummy)
    {
      idx := idx + 1;
    }
  }

  // ---------------------------------------------------------------- option names and the stock checks

  /** The length of the actual name at the start of `name`: one character, or up to the '=' or end after a '-'. */
  function NameLength(name: string): (n: nat)
    requires name != ""
    ensures 1 <= n <= |name|
  {
    if name[0] != '-' then 1 else FindFrom(name, 1, c => c == '=')
  }

  method ComputeNameLength(name: string) returns (n: nat)
    requires name != ""
    ensures n == NameLength(name)
    ensures name[0] != '-' ==> n == 1
    ensures name[0] == '-' ==> 1 <= n <= |name| && (n == |name| || name[n] == '=') && forall i :: 1 <= i < n ==> name[i] != '='
  {
    ghost var isEq := (c: char) => c == '=';
    n := 1;
    if name[0] != '-' {
      return;
    }
    while n < |name| && name[n] != '='
      invariant 1 <= n <= |name|
      invariant FindFrom(name, 1, isEq) == FindFrom(name, n, isEq)
    {
      n := n + 1;
    }
  }

  /** Nothing is attached to this name. */
  predicate Bare(name: string) {
    name != "" && NameLength(name) == |name|
  }

  const NoArg: CheckArg := (name: string, arg: Maybe<string>) => ArgNone

  const OptionalArg: CheckArg :=
    (name: string, arg: Maybe<string>) => if name != "" && arg.Just? && !Bare(name) then ArgOk else ArgIgnore

  /** The shape of the discovery server's own checks: an argument must be present and acceptable. */
  function RequiredArg(p: string -> bool): CheckArg {
    (name: string, arg: Maybe<string>) => if arg.Just? && p(arg.value) then ArgOk else ArgIllegal
  }
}
