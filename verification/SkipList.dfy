/**
 Appending to a skip list: a chain of nodes per level, and for every level a pointer to its
 last node. The height of a new node is any number in 1..maxHeight.
 */
module SkipList {
  import opened Common

  class SkipNode<T> {
    const height: nat
    const data: T
    var fwd: seq<SkipNode?<T>>

    constructor (data: T, height: nat)
      ensures this.data == data && this.height == height && |fwd| == height
      ensures forall x :: 0 <= x < height ==> fwd[x] == null
    {
      this.data, this.height, this.fwd := data, height, seq(height, _ => null);
    }
  }

  // ---------------------------------------------------------------- levels of a sequence of nodes

  /** The next node after `i` that is taller than `x`, or `|all|`. */
  function NextTaller<T>(all: seq<SkipNode<T>>, i: nat, x: nat): (j: nat)
    requires i < |all|
    ensures i < j <= |all| && (j < |all| ==> all[j].height > x)
    ensures forall k :: i < k < j ==> all[k].height <= x
    decreases |all| - i
  {
    if i + 1 == |all| || all[i + 1].height > x then i + 1 else NextTaller(all, i + 1, x)
  }

  /** The last node taller than `x`. */
  function LastTaller<T>(all: seq<SkipNode<T>>, x: nat): (j: nat)
    requires all != [] && all[0].height > x
    ensures j < |all| && all[j].height > x && forall k :: j < k < |all| ==> all[k].height <= x
  {
    var k := |all| - 1;
    if all[k].height > x then k else LastTaller(all[..k], x)
  }

  /** The nodes from position `i` on that are taller than `x`, in order. */
  function LevelFrom<T>(all: seq<SkipNode<T>>, i: nat, x: nat): seq<SkipNode<T>>
    requires i <= |all|
    decreases |all| - i
  {
    if i == |all| then []
    else (if all[i].height > x then [all[i]] else []) + LevelFrom(all, i + 1, x)
  }

  lemma {:induction false} SkipLower<T>(all: seq<SkipNode<T>>, i: nat, j: nat, x: nat)
    requires i <= j <= |all| && forall k :: i <= k < j ==> all[k].height <= x
    ensures LevelFrom(all, i, x) == LevelFrom(all, j, x)
    decreases j - i
  {
    if i < j {
      SkipLower(all, i + 1, j, x);
    }
  }

  lemma LevelStep<T>(all: seq<SkipNode<T>>, i: nat, x: nat)
    requires i < |all| && all[i].height > x
    ensures LevelFrom(all, i, x) == [all[i]] + LevelFrom(all, NextTaller(all, i, x), x)
  {
    SkipLower(all, i + 1, NextTaller(all, i, x), x);
  }

  lemma LevelEnd<T>(all: seq<SkipNode<T>>, x: nat)
    ensures LevelFrom(all, |all|, x) == []
  {
  }

  /** Every node belongs to level 0. */
  lemma {:induction false} BottomLevel<T>(all: seq<SkipNode<T>>, i: nat)
    requires i <= |all| && forall k :: 0 <= k < |all| ==> all[k].height > 0
    ensures LevelFrom(all, i, 0) == all[i..]
    decreases |all| - i
  {
    if i < |all| {
      BottomLevel(all, i + 1);
    }
  }

  /** A node appended at the end is next for those that had no taller node after them. */
  lemma {:induction false} NextAfterAppend<T>(all: seq<SkipNode<T>>, n: SkipNode<T>, i: nat, x: nat)
    requires i < |all|
    ensures var j := NextTaller(all, i, x);
            NextTaller(all + [n], i, x) == if j < |all| || n.height > x then j else |all| + 1
    decreases |all| - i
  {
    if i + 1 < |all| && all[i + 1].height <= x {
      NextAfterAppend(all, n, i + 1, x);
    }
  }

  lemma LastAfterAppend<T>(all: seq<SkipNode<T>>, n: SkipNode<T>, x: nat)
    requires all != [] && all[0].height > x
    ensures LastTaller(all + [n], x) == if n.height > x then |all| else LastTaller(all, x)
  {
    assert (all + [n])[..|all|] == all;
  }

  // ---------------------------------------------------------------- the list

  function NodeAt<T>(all: seq<SkipNode<T>>, j: nat): SkipNode?<T> {
    if j < |all| then all[j] else null
  }

  /** The link of node `i` at level `x` leads to the next taller node. */
  ghost predicate Leads<T>(all: seq<SkipNode<T>>, i: nat, x: nat)
    requires i < |all|
    reads all[i]
  {
    x < |all[i].fwd| && all[i].fwd[x] == NodeAt(all, NextTaller(all, i, x))
  }

  /** The same in the middle of an insertion: levels below `x` already lead to the new node `tmp`. */
  ghost predicate LeadsNow<T>(all: seq<SkipNode<T>>, tmp: SkipNode<T>, x: nat, i: nat, y: nat)
    requires i < |all|
    reads all[i]
  {
    if y < x then (var longer := all + [tmp]; assert longer[i] == all[i]; Leads(longer, i, y)) else Leads(all, i, y)
  }

  /** One more link leads to `tmp`: that of the node which was the last of level `x`. */
  lemma LeadsStep<T>(all: seq<SkipNode<T>>, tmp: SkipNode<T>, x: nat, i: nat, y: nat, link: SkipNode?<T>, now: SkipNode?<T>)
    requires all != [] && all[0].height > x && tmp.height > x && i < |all| && all[i].height > y
    requires link == if y < x then NodeAt(all + [tmp], NextTaller(all + [tmp], i, y)) else NodeAt(all, NextTaller(all, i, y))
    requires now == if i == LastTaller(all, x) && y == x then tmp else link
    ensures now == if y < x + 1 then NodeAt(all + [tmp], NextTaller(all + [tmp], i, y)) else NodeAt(all, NextTaller(all, i, y))
  {
    hide NextTaller; hide LastTaller;
    NextAfterAppend(all, tmp, i, y);
  }

  /** The nodes of a list with these tails: distinct, of proper height, and linked on every level. */
  ghost predicate Shape<T>(all: seq<SkipNode<T>>, tails: seq<SkipNode<T>>, maxHeight: nat)
    reads all
  {
    && maxHeight >= 1 && |tails| == maxHeight && all != [] && all[0].height == maxHeight && Distinct(all)
    && (forall i :: 0 <= i < |all| ==> 1 <= all[i].height <= maxHeight && |all[i].fwd| == all[i].height)
    && (forall i, x :: 0 <= i < |all| && 0 <= x < all[i].height ==> Leads(all, i, x))
    && (forall x :: 0 <= x < maxHeight ==> tails[x] == all[LastTaller(all, x)])
  }

  class SkipList<T> {
    const maxHeight: nat
    const head: SkipNode<T>
    var tails: seq<SkipNode<T>>
    /** The head and the nodes in insertion order. */
    ghost var all: seq<SkipNode<T>>

    ghost predicate Valid()
      reads this, all
    {
      Shape(all, tails, maxHeight) && all[0] == head
    }

    constructor (maxHeight: nat, none: T)
      requires maxHeight >= 1
      ensures Valid() && all == [head] && this.maxHeight == maxHeight && fresh(head)
    {
      var h := new SkipNode(none, maxHeight);
      this.maxHeight, this.head, this.tails, this.all := maxHeight, h, seq(maxHeight, _ => h), [h];
    }

    /** In the middle of an insertion: levels below `x` already lead to the new node `tmp`, the others do not. */
    ghost predicate Inserting(tmp: SkipNode<T>, x: nat)
      reads this, all, tmp
    {
      && |tails| == maxHeight && all != [] && all[0].height == maxHeight
      && tmp !in all && Distinct(all) && 1 <= |tmp.fwd| == tmp.height <= maxHeight
      && (forall i :: 0 <= i < |all| ==> 1 <= all[i].height <= maxHeight && |all[i].fwd| == all[i].height)
      && (forall y :: 0 <= y < tmp.height ==> tmp.fwd[y] == null)
      && (forall i, y :: 0 <= i < |all| && 0 <= y < all[i].height ==> LeadsNow(all, tmp, x, i, y))
      && (forall y :: 0 <= y < maxHeight ==> tails[y] == if y < x then tmp else all[LastTaller(all, y)])
    }

    /** The body of the loop: `tmp` becomes the last node of level `x`. */
    method AppendToLevel(tmp: SkipNode<T>, x: nat)
      requires Inserting(tmp, x) && x < tmp.height
      modifies this`tails, all
      ensures Inserting(tmp, x + 1)
    {
      hide NextTaller; hide LastTaller; hide NodeAt;
      ghost var last := LastTaller(all, x);
      var t := tails[x];
      assert LeadsNow(all, tmp, x, last, x);
      t.fwd := t.fwd[x := tmp];
      tails := tails[x := tmp];
      ghost var above := x + 1;
      forall i, y | 0 <= i < |all| && 0 <= y < all[i].height
        ensures LeadsNow(all, tmp, above, i, y)
      {
        assert old(LeadsNow(all, tmp, x, i, y));
        assert i != last ==> all[i] != t;
        LeadsStep(all, tmp, x, i, y, old(all[i].fwd[y]), all[i].fwd[y]);
      }
    }

    method InsertAtEnd(obj: T, height: nat) returns (ok: bool)
      requires Valid() && 1 <= height <= maxHeight
      modifies this, all
      ensures Valid() && ok
      ensures |all| == |old(all)| + 1 && all[..|old(all)|] == old(all)
      ensures var n := all[|old(all)|]; fresh(n) && n.data == obj && n.height == height
    {
      hide NextTaller; hide LastTaller; hide Leads; hide Shape; hide SkipList.Inserting;
      var tmp := new SkipNode(obj, height);
      var x := 0;
      InsertStarts(tmp);
      while x < tmp.height
        invariant 0 <= x <= height && all == old(all) && Inserting(tmp, x)
      {
        AppendToLevel(tmp, x);
        x := x + 1;
      }
      Inserted(tmp);
      all := all + [tmp];
      return true;
    }

    lemma InsertStarts(tmp: SkipNode<T>)
      requires Valid() && tmp !in all && 1 <= |tmp.fwd| == tmp.height <= maxHeight
      requires forall y :: 0 <= y < tmp.height ==> tmp.fwd[y] == null
      ensures Inserting(tmp, 0)
    {
    }

    lemma InsertedLinks(tmp: SkipNode<T>)
      requires Inserting(tmp, tmp.height)
      ensures var longer := all + [tmp]; forall i, y :: 0 <= i < |longer| && 0 <= y < longer[i].height ==> Leads(longer, i, y)
    {
      var longer, x := all + [tmp], tmp.height;
      forall i, y | 0 <= i < |longer| && 0 <= y < longer[i].height
        ensures Leads(longer, i, y)
      {
        if i < |all| {
          NextAfterAppend(all, tmp, i, y);
          assert LeadsNow(all, tmp, x, i, y);
        }
      }
    }

    /** With all its levels done, the new node is part of the list. */
    lemma Inserted(tmp: SkipNode<T>)
      requires Inserting(tmp, tmp.height)
      ensures Shape(all + [tmp], tails, maxHeight) && (all + [tmp])[0] == all[0]
    {
      hide Leads;
      InsertedLinks(tmp);
      var longer := all + [tmp];
      forall y | 0 <= y < maxHeight
        ensures tails[y] == longer[LastTaller(longer, y)]
      {
        LastAfterAppend(all, tmp, y);
      }
    }

    /** Follows the links of level `x` from the head. */
    method WalkLevel(x: nat) returns (visited: seq<SkipNode<T>>)
      requires Valid() && x < maxHeight
      ensures visited == LevelFrom(all, 0, x)
    {
      hide NextTaller; hide LevelFrom;
      visited := [];
      var tmp: SkipNode?<T> := head;
      ghost var i := 0;
      LevelStep(all, 0, x);
      while tmp != null
        invariant 0 <= i <= |all| && tmp == NodeAt(all, i) && (i < |all| ==> all[i].height > x)
        invariant visited + LevelFrom(all, i, x) == LevelFrom(all, 0, x)
        decreases |all| - i
      {
        assert Leads(all, i, x);
        ghost var j := NextTaller(all, i, x);
        LevelStep(all, i, x);
        assert visited + [tmp] + LevelFrom(all, j, x) == visited + LevelFrom(all, i, x);
        visited := visited + [tmp];
        tmp := tmp.fwd[x];
        i := j;
      }
      LevelEnd(all, x);
    }

    /** The walk of the destructor, which reads each link before its node is gone, meets every node exactly once. */
    method Destroy() returns (visited: seq<SkipNode<T>>)
      requires Valid()
      ensures visited == all && Distinct(visited)
    {
      BottomLevel(all, 0);
      visited := WalkLevel(0);
    }
  }

  // ---------------------------------------------------------------- any sequence of insertions

  /** Insertions of these objects with these heights: level `x` is the sub-chain of the taller ones, in insertion order. */
  method Build<T>(maxHeight: nat, none: T, objs: seq<T>, heights: seq<nat>) returns (list: SkipList<T>)
    requires maxHeight >= 1 && |heights| == |objs| && forall i :: 0 <= i < |heights| ==> 1 <= heights[i] <= maxHeight
    ensures list.Valid() && |list.all| == |objs| + 1
    ensures forall i :: 0 <= i < |objs| ==> list.all[i + 1].data == objs[i] && list.all[i + 1].height == heights[i]
  {
    list := new SkipList(maxHeight, none);
    for n := 0 to |objs|
      invariant list.Valid() && list.maxHeight == maxHeight && |list.all| == n + 1 && fresh(list) && fresh(list.all)
      invariant forall i :: 0 <= i < n ==> list.all[i + 1].data == objs[i] && list.all[i + 1].height == heights[i]
    {
      ghost var was := list.all;
      var _ := list.InsertAtEnd(objs[n], heights[n]);
      assert forall i :: 0 <= i <= n ==> list.all[i] == list.all[..n + 1][i] == was[i];
    }
  }
}
