/** What several of the modules need: optional values, searching, and facts about sequences. */
module Common {

  datatype Maybe<+T> = Nothing | Just(value: T)

  function Min(a: int, b: int): int {
    if a <= b then a else b
  }

  function Max(a: int, b: int): int {
    if a >= b then a else b
  }

  ghost predicate Distinct<T>(s: seq<T>) {
    forall i, j :: 0 <= i < j < |s| ==> s[i] != s[j]
  }

  /** The first position at or after `from` whose element satisfies `p`, or `|s|`. */
  function FindFrom<T>(s: seq<T>, from: nat, p: T -> bool): (r: nat)
    requires from <= |s|
    ensures from <= r <= |s|
    ensures r < |s| ==> p(s[r])
    ensures forall i :: from <= i < r ==> !p(s[i])
    decreases |s| - from
  {
    if from == |s| || p(s[from]) then from else FindFrom(s, from + 1, p)
  }

  lemma Regroup<T>(a: seq<T>, b: seq<T>, c: seq<T>)
    ensures a + b + c == a + (b + c)
  {
  }

  lemma NothingBefore<T>(s: seq<T>)
    ensures [] + s == s && s + [] == s
  {
  }
}
