/**
 The bookkeeping of received and missing sequence numbers that a reader keeps per writer.
 A sequence number is the value of its (high, low) pair.
 */
module ReceivedChanges {

  /** What has been recorded: the largest number received, and the numbers below it still missing. */
  datatype Record = Record(largest: int, missing: seq<int>)

  ghost predicate Increasing(s: seq<int>) {
    forall i, j :: 0 <= i < j < |s| ==> s[i] < s[j]
  }

  /** The missing numbers are strictly increasing, positive and below the largest number. */
  ghost predicate Sound(t: Record) {
    t.largest >= 0 && Increasing(t.missing) && forall i :: 0 <= i < |t.missing| ==> 1 <= t.missing[i] < t.largest
  }

  /** `s` was received: it is one of 1..largest and not missing. */
  ghost predicate Has(t: Record, s: int) {
    1 <= s <= t.largest && s !in t.missing
  }

  /** The step that recording `s` has to make: `s` is received from now on, and nothing else changes. */
  ghost predicate Adds(t: Record, s: int, u: Record, added: bool) {
    && Sound(u)
    && (forall x :: Has(u, x) <==> Has(t, x) || (x == s && s >= 1))
    && (added <==> s >= 1 && !Has(t, s))
  }

  class Tracker {
    var largest: int
    var missing: seq<int>

    ghost function Value(): Record
      reads this
    {
      Record(largest, missing)
    }

    constructor ()
      ensures Value() == Record(0, [])
    {
      largest, missing := 0, [];
    }

    method Add(s: int) returns (added: bool)
      requires Sound(Value())
      modifies this
      ensures Adds(old(Value()), s, Value(), added)
    {
      if s > largest {
        added := InsertMissing(s);
      } else if s == largest {
        added := false;
      } else {
        added := MissingReceived(s);
      }
    }

    /** Everything between the old largest number and `s` is missing now. */
    method InsertMissing(s: int) returns (added: bool)
      requires Sound(Value()) && s > largest
      modifies this
      ensures added && Adds(old(Value()), s, Value(), added)
    {
      ghost var t := Value();
      var i := 1;
      while largest + i < s
        invariant 1 <= i <= s - largest && largest == t.largest
        invariant Increasing(missing) && forall k :: 0 <= k < |missing| ==> 1 <= missing[k] < largest + i
        invariant forall x :: x in missing <==> x in t.missing || largest < x < largest + i
      {
        missing := missing + [largest + i];
        i := i + 1;
      }
      largest := s;
      return true;
    }

    /** Searches the missing numbers from the back and stops at the first one that is too small. */
    method MissingReceived(s: int) returns (added: bool)
      requires Sound(Value()) && s < largest
      modifies this
      ensures Adds(old(Value()), s, Value(), added)
    {
      ghost var t := Value();
      var it := |missing|;
      while it > 0
        invariant 0 <= it <= |missing| && Value() == t
        invariant forall k :: it <= k < |missing| ==> s < missing[k]
      {
        it := it - 1;
        if missing[it] == s {
          missing := missing[..it] + missing[it + 1..];
          RemovedAt(t.missing, it);
          return true;
        }
        if missing[it] < s {
          return false;
        }
      }
      return false;
    }
  }

  lemma RemovedAt(m: seq<int>, k: nat)
    requires Increasing(m) && k < |m|
    ensures var r := m[..k] + m[k + 1..];
            Increasing(r) && (forall x :: x in r <==> x in m && x != m[k])
  {
    var r := m[..k] + m[k + 1..];
    forall x
      ensures x in r <==> x in m && x != m[k]
    {
      if x in m && x != m[k] {
        var i :| 0 <= i < |m| && m[i] == x;
        assert x == if i < k then r[i] else r[i - 1];
      }
    }
  }

  // ---------------------------------------------------------------- every sequence of calls

  /** A run of calls from an empty record: the records before and after every call, and what each call returned. */
  ghost predicate IsRun(calls: seq<int>, records: seq<Record>, results: seq<bool>) {
    && |records| == |calls| + 1 && |results| == |calls| && records[0] == Record(0, [])
    && forall i :: 0 <= i < |calls| ==> Adds(records[i], calls[i], records[i + 1], results[i])
  }

  /** After any calls, exactly the positive numbers presented have been received. */
  lemma {:induction false} ReceivedExactly(calls: seq<int>, records: seq<Record>, results: seq<bool>, n: nat, x: int)
    requires IsRun(calls, records, results) && n <= |calls|
    ensures Sound(records[n])
    ensures Has(records[n], x) <==> x >= 1 && x in calls[..n]
  {
    if n > 0 {
      ReceivedExactly(calls, records, results, n - 1, x);
      assert Adds(records[n - 1], calls[n - 1], records[n], results[n - 1]);
      assert calls[..n] == calls[..n - 1] + [calls[n - 1]];
    }
  }

  /** A call reports success exactly on the first presentation of a positive number. */
  lemma TrueOnFirstPresentation(calls: seq<int>, records: seq<Record>, results: seq<bool>, i: nat)
    requires IsRun(calls, records, results) && i < |calls|
    ensures results[i] <==> calls[i] >= 1 && calls[i] !in calls[..i]
  {
    ReceivedExactly(calls, records, results, i, calls[i]);
    assert Adds(records[i], calls[i], records[i + 1], results[i]);
  }

  /** Any calls on a new tracker: the returned values and what it has received in the end. */
  method Replay(calls: seq<int>) returns (results: seq<bool>, tracker: Tracker)
    ensures |results| == |calls|
    ensures forall i :: 0 <= i < |calls| ==> (results[i] <==> calls[i] >= 1 && calls[i] !in calls[..i])
    ensures Sound(tracker.Value()) && forall x :: Has(tracker.Value(), x) <==> x >= 1 && x in calls
  {
    tracker := new Tracker();
    results := [];
    ghost var records := [tracker.Value()];
    for n := 0 to |calls|
      invariant IsRun(calls[..n], records, results) && records[n] == tracker.Value() && Sound(tracker.Value())
    {
      var added := tracker.Add(calls[n]);
      assert calls[..n + 1][..n] == calls[..n];
      records, results := records + [tracker.Value()], results + [added];
    }
    assert calls[..|calls|] == calls;
    forall i | 0 <= i < |calls|
      ensures results[i] <==> calls[i] >= 1 && calls[i] !in calls[..i]
    {
      TrueOnFirstPresentation(calls, records, results, i);
    }
    forall x
      ensures Has(tracker.Value(), x) <==> x >= 1 && x in calls
    {
      ReceivedExactly(calls, records, results, |calls|, x);
    }
  }

  /** A record is determined by what it has received: no other bookkeeping is possible. */
  lemma RecordDetermined(t: Record, u: Record)
    requires Sound(t) && Sound(u) && forall x :: Has(t, x) <==> Has(u, x)
    ensures t == u
  {
    LargestAgrees(t, u);
    LargestAgrees(u, t);
    forall x
      ensures x in t.missing <==> x in u.missing
    {
      assert x in t.missing ==> !Has(t, x);
      assert x in u.missing ==> !Has(u, x);
      assert Has(t, x) <==> Has(u, x);
    }
    SameElements(t.missing, u.missing);
  }

  lemma LargestAgrees(t: Record, u: Record)
    requires Sound(t) && Sound(u) && forall x :: Has(t, x) <==> Has(u, x)
    ensures t.largest <= u.largest
  {
    assert t.largest > 0 ==> Has(t, t.largest);
  }

  lemma {:induction false} SameElements(a: seq<int>, b: seq<int>)
    requires Increasing(a) && Increasing(b) && forall x :: x in a <==> x in b
    ensures a == b
  {
    var head := if a != [] then a[0] else if b != [] then b[0] else 0;
    assert head in a || head in b || (a == [] && b == []);
    if a != [] && b != [] {
      assert a[0] in b && b[0] in a;
      forall x
        ensures x in a[1..] <==> x in b[1..]
      {
        assert x in a[1..] <==> x in a && x != a[0];
        assert x in b[1..] <==> x in b && x != b[0];
      }
      SameElements(a[1..], b[1..]);
      assert a == [a[0]] + a[1..] && b == [b[0]] + b[1..];
    }
  }
}
