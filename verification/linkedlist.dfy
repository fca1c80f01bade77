/** The sorted doubly-linked list exercise (cs439/ProblemSet0/linkedlist.c):
    a global `head` over heap nodes holding an `int` each, kept ascending by
    pushing a value at the head and bubbling it rightward.

    The nodes reachable from `head` are tracked by the ghost sequence `nodes`
    of the list object, and their values, front to back, by `values`. Nodes
    handed to `free` are collected in the ghost set `freed`: freeing is not
    modelled beyond "this node must not be used any more". */
module LinkedList {
  import OrderedList

  /** One heap block: a value and two links. `prev` is never initialised by
      the program; it keeps whatever the allocation left in it. */
  class Node {
    var data: int
    var prev: Node?
    var next: Node?

    /** malloc followed by the stores of list_add: the value and the next
        link are set, `prev` holds the indeterminate `junk`. */
    constructor (data: int, next: Node?, junk: Node?)
      ensures this.data == data && this.next == next && prev == junk
    {
      this.data := data;
      this.next := next;
      prev := junk;
    }
  }

  /** One left-to-right pass of list_sort over the values `s`: the value at
      the current position moves one step right while it is not below its
      right neighbour, and the walk moves on otherwise. On equal neighbours
      the program swaps forever (see PassTerminates); swapping equal values
      is the identity, so the pass is given the same result there. */
  function BubblePass(s: seq<int>): (r: seq<int>)
    ensures |r| == |s|
    decreases |s|
  {
    if |s| <= 1 then s
    else if s[0] < s[1] then
      assert s == [s[0]] + s[1..];
      [s[0]] + BubblePass(s[1..])
    else
      assert s == [s[0], s[1]] + s[2..];
      [s[1]] + BubblePass([s[0]] + s[2..])
  }

  /** The pass only moves values around. */
  lemma {:induction false} PassPermutes(s: seq<int>)
    ensures multiset(BubblePass(s)) == multiset(s)
    decreases |s|
  {
    if |s| > 1 {
      if s[0] < s[1] {
        PassPermutes(s[1..]);
        assert s == [s[0]] + s[1..];
      } else {
        var t := [s[0]] + s[2..];
        PassPermutes(t);
        assert BubblePass(s) == [s[1]] + BubblePass(t);
        SwapFrontPermutes(s);
      }
    }
  }

  /** Trading the first two values keeps the multiset. */
  lemma SwapFrontPermutes(s: seq<int>)
    requires |s| > 1
    ensures multiset(s) == multiset([s[1]] + ([s[0]] + s[2..]))
  {
    assert s == [s[0], s[1]] + s[2..];
  }

  /** list_sort returns on `s`: the pass never compares two equal values. */
  ghost predicate PassTerminates(s: seq<int>)
    decreases |s|
  {
    |s| <= 1 ||
      (s[0] != s[1] && PassTerminates(if s[0] < s[1] then s[1..] else [s[0]] + s[2..]))
  }

  /** Values never decrease from the front to the back. */
  ghost predicate Ascending(s: seq<int>) {
    forall i, j :: 0 <= i < j < |s| ==> s[i] <= s[j]
  }

  /** Values strictly increase from the front to the back. */
  ghost predicate StrictlyAscending(s: seq<int>) {
    forall i, j :: 0 <= i < j < |s| ==> s[i] < s[j]
  }

  /** The comparator the pass walks by: `a` goes in front of a larger `b`. */
  function Less(): (int, int) -> bool {
    (a: int, b: int) => a < b
  }

  /** On ascending values list_sort returns exactly when they are strictly
      ascending: an equal pair is where it swaps forever. */
  lemma {:induction false} AscendingPassTerminates(s: seq<int>)
    requires Ascending(s)
    ensures PassTerminates(s) <==> StrictlyAscending(s)
    decreases |s|
  {
    if |s| > 1 {
      assert Ascending(s[1..]);
      AscendingPassTerminates(s[1..]);
      if s[0] < s[1] {
        if StrictlyAscending(s[1..]) {
          assert StrictlyAscending(s) by {
            forall i, j | 0 <= i < j < |s| ensures s[i] < s[j] {
              if i > 0 { assert s[i] == s[1..][i - 1] && s[j] == s[1..][j - 1]; }
              else if j > 1 { assert s[1] == s[1..][0] && s[j] == s[1..][j - 1]; }
            }
          }
        }
      }
    }
  }

  /** A pass over an ascending list changes nothing. */
  lemma {:induction false} PassOfAscending(s: seq<int>)
    requires Ascending(s)
    ensures BubblePass(s) == s
    decreases |s|
  {
    if |s| > 1 {
      assert Ascending(s[1..]);
      PassOfAscending(s[1..]);
      if s[0] == s[1] {
        assert [s[0]] + s[2..] == s[1..];
      }
      assert s == [s[0]] + s[1..];
    }
  }

  /** list_add's pass over a new head value `x` in front of an ascending
      list links `x` in front of the first larger value: the ordered
      insertion of the list utility with `<`. */
  lemma {:induction false} PassInsertsHead(x: int, s: seq<int>)
    requires Ascending(s)
    ensures BubblePass([x] + s) == OrderedList.InsertOrdered(s, x, Less())
    decreases |s|
  {
    if s == [] {
    } else if x < s[0] {
      PassOfAscending(s);
      assert ([x] + s)[1..] == s;
    } else {
      assert Ascending(s[1..]);
      PassInsertsHead(x, s[1..]);
      assert ([x] + s)[1] == s[0];
      assert [x] + s[1..] == ([x] + s)[..1] + ([x] + s)[2..];
    }
  }

  /** Adding a value to an ascending list leaves it ascending and holding the
      old values and the new one. */
  lemma PassKeepsAscending(x: int, s: seq<int>)
    requires Ascending(s)
    ensures Ascending(BubblePass([x] + s))
    ensures multiset(BubblePass([x] + s)) == multiset(s) + multiset{x}
  {
    PassInsertsHead(x, s);
    OrderedList.InsertOrderedMultiset(s, x, Less());
    assert OrderedList.StrictOrderOn(Less(), s + [x]);
    assert OrderedList.Sorted(s, Less());
    OrderedList.InsertOrderedKeepsSorted(s, x, Less());
    var r := OrderedList.InsertOrdered(s, x, Less());
    assert Ascending(r) by {
      forall i, j | 0 <= i < j < |r| ensures r[i] <= r[j] {
        assert !Less()(r[j], r[i]);
      }
    }
  }

  /** Inserting a new value into distinct ascending values keeps them
      distinct and ascending. */
  lemma {:induction false} InsertKeepsStrictlyAscending(s: seq<int>, x: int)
    requires StrictlyAscending(s) && x !in s
    ensures StrictlyAscending(OrderedList.InsertOrdered(s, x, Less()))
    decreases |s|
  {
    if s != [] && x >= s[0] {
      var t := s[1..];
      assert x != s[0];
      assert StrictlyAscending(t) && x !in t;
      InsertKeepsStrictlyAscending(t, x);
      var r' := OrderedList.InsertOrdered(t, x, Less());
      OrderedList.InsertOrderedMultiset(t, x, Less());
      forall j | 0 <= j < |r'| ensures s[0] < r'[j] {
        assert r'[j] in multiset(t) + multiset{x};
        if r'[j] != x {
          assert r'[j] in t;
        }
      }
    }
  }

  /** list_add on distinct ascending values and a new value returns, and
      leaves the values distinct, ascending, and the old ones plus `x`. */
  lemma AddKeepsStrictlyAscending(x: int, s: seq<int>)
    requires StrictlyAscending(s) && x !in s
    ensures PassTerminates([x] + s)
    ensures StrictlyAscending(BubblePass([x] + s))
    ensures multiset(BubblePass([x] + s)) == multiset(s) + multiset{x}
  {
    AddOfNewValueTerminates(x, s);
    PassKeepsAscending(x, s);
    PassInsertsHead(x, s);
    InsertKeepsStrictlyAscending(s, x);
  }

  /** list_remove takes the first `x` out of ascending values and leaves
      them ascending. */
  lemma RemoveKeepsAscending(s: seq<int>, x: int)
    requires Ascending(s)
    ensures Ascending(OrderedList.Remove(s, x))
    ensures x in s ==> multiset(OrderedList.Remove(s, x)) == multiset(s) - multiset{x}
  {
    assert OrderedList.Sorted(s, Less());
    OrderedList.RemoveKeepsSorted(s, x, Less());
    var r := OrderedList.Remove(s, x);
    forall i, j | 0 <= i < j < |r| ensures r[i] <= r[j] {
      assert !Less()(r[j], r[i]);
    }
    if x in s {
      OrderedList.RemoveMultiset(s, x);
    }
  }

  /** A value that is new to a strictly ascending list is bubbled into place
      without meeting an equal value, so list_add returns. */
  lemma {:induction false} AddOfNewValueTerminates(x: int, s: seq<int>)
    requires StrictlyAscending(s) && x !in s
    ensures PassTerminates([x] + s)
    decreases |s|
  {
    if s != [] {
      var t := [x] + s;
      assert t[0] == x && t[1] == s[0];
      if x < s[0] {
        assert t[1..] == s;
        StrictlyAscendingPass(s);
      } else {
        assert [x] + s[1..] == [t[0]] + t[2..];
        assert StrictlyAscending(s[1..]);
        AddOfNewValueTerminates(x, s[1..]);
      }
    }
  }

  /** A pass over distinct ascending values walks straight to the end. */
  lemma {:induction false} StrictlyAscendingPass(s: seq<int>)
    requires StrictlyAscending(s)
    ensures PassTerminates(s)
    decreases |s|
  {
    if |s| > 1 {
      assert StrictlyAscending(s[1..]);
      StrictlyAscendingPass(s[1..]);
    }
  }

  /** list_add of a value the ascending list already holds never returns:
      the pass reaches the equal value and swaps the two forever. */
  lemma {:induction false} AddOfPresentValueHangs(x: int, s: seq<int>)
    requires Ascending(s) && x in s
    ensures !PassTerminates([x] + s)
    decreases |s|
  {
    var t := [x] + s;
    assert t[0] == x && t[1] == s[0];
    var i :| 0 <= i < |s| && s[i] == x;
    assert s[0] <= x;
    if x != s[0] {
      assert x in s[1..] by {
        assert s == [s[0]] + s[1..];
      }
      assert [x] + s[1..] == [t[0]] + t[2..];
      assert Ascending(s[1..]);
      AddOfPresentValueHangs(x, s[1..]);
    }
  }

  /** Walking past a smaller value keeps what is left of the pass. */
  lemma PassStepRight(a: seq<int>, k: nat)
    requires k + 1 < |a| && a[k] < a[k + 1]
    ensures a[..k] + BubblePass(a[k..]) == a[..k + 1] + BubblePass(a[k + 1..])
    ensures PassTerminates(a[k..]) ==> PassTerminates(a[k + 1..])
  {
    assert a[k..][1..] == a[k + 1..];
    assert a[..k + 1] == a[..k] + [a[k]];
  }

  /** Walking past an ascending run keeps what is left of the pass. */
  lemma {:induction false} PassWalk(a: seq<int>, k: nat, j: nat)
    requires k <= j < |a| && forall i :: k <= i < j ==> a[i] < a[i + 1]
    ensures a[..k] + BubblePass(a[k..]) == a[..j] + BubblePass(a[j..])
    ensures PassTerminates(a[k..]) ==> PassTerminates(a[j..])
    decreases j - k
  {
    if k < j {
      PassStepRight(a, k);
      PassWalk(a, k + 1, j);
    }
  }

  /** At the last value the pass has nothing left to do. */
  lemma PassAtLast(a: seq<int>, k: nat)
    requires k + 1 == |a|
    ensures a[..k] + BubblePass(a[k..]) == a
  {
    assert a[k..] == [a[k]];
    assert a[..k] + a[k..] == a;
  }

  /** Swapping a larger value with its right neighbour is the pass's step. */
  lemma PassStepSwap(a: seq<int>, k: nat, b: seq<int>)
    requires k + 1 < |a| && a[k] > a[k + 1]
    requires b == a[k := a[k + 1]][k + 1 := a[k]]
    ensures a[..k] + BubblePass(a[k..]) == b[..k] + BubblePass(b[k..])
    ensures PassTerminates(a[k..]) ==> PassTerminates(b[k..])
    ensures b[k] < b[k + 1]
  {
    assert b[..k] == a[..k];
    assert b[k..][1..] == [a[k]] + a[k + 2..];
    assert a[k..][2..] == a[k + 2..];
  }

  /** The global state of the program: `head` and the nodes it reaches. */
  class List {
    var head: Node?
    /** The nodes reachable from `head`, front to back. */
    ghost var nodes: seq<Node>
    /** Their values, front to back. */
    ghost var values: seq<int>
    /** The nodes handed to `free`. */
    ghost var freed: set<Node>

    /** The empty list of the program's start (`head = NULL`). */
    constructor ()
      ensures Valid() && values == [] && freed == {}
    {
      head := null;
      nodes := [];
      values := [];
      freed := {};
    }

    /** `head` and the `next` links spell out `nodes`, each node once, and
        `values` lists their data. */
    ghost predicate Valid()
      reads this`head, this`nodes, this`values, nodes
    {
      && |values| == |nodes|
      && (head == null <==> nodes == [])
      && (nodes != [] ==> head == nodes[0])
      && (forall i {:trigger nodes[i].next} :: 0 <= i < |nodes| ==> nodes[i].next == if i + 1 < |nodes| then nodes[i + 1] else null)
      && (forall i :: 0 <= i < |nodes| ==> nodes[i].data == values[i])
      && (forall i, j :: 0 <= i < j < |nodes| ==> nodes[i] != nodes[j])
    }

    /** No reachable node has been freed. */
    ghost predicate NoDangling()
      reads this
    {
      forall i :: 0 <= i < |nodes| ==> nodes[i] !in freed
    }

    /** list_sort: one bubbling pass from `head`, swapping values of adjacent
        nodes and never relinking. The first access is `head->next`, so the
        list must not be empty, and the pass returns only when it never meets
        two equal neighbours. */
    method Sort()
      requires Valid() && head != null && PassTerminates(values)
      modifies this`values, nodes`data
      ensures Valid() && nodes == old(nodes)
      ensures values == BubblePass(old(values))
      ensures forall i :: 0 <= i < |nodes| ==> nodes[i].prev == old(nodes[i].prev)
    {
      var curr := head;
      if curr.next == null {
        return;
      }
      Bubble(curr);
    }

    /** Lines 16-28 of list_sort: the bubbling loop on a list of two or more
        nodes, started from `start`, the head. Only `data` fields change. */
    method Bubble(start: Node)
      requires Valid() && 1 < |nodes| && start == nodes[0] && PassTerminates(values)
      modifies this`values, nodes`data
      ensures Valid() && nodes == old(nodes)
      ensures values == BubblePass(old(values))
    {
      var curr := start;
      ghost var k := 0;
      var sorted := 1;
      while sorted != 0
        invariant Valid() && nodes == old(nodes)
        invariant k + 1 < |nodes| && curr == nodes[k]
        invariant values[..k] + BubblePass(values[k..]) == BubblePass(old(values))
        invariant PassTerminates(values[k..])
        decreases |nodes| - k, if values[k] < values[k + 1] then 0 else 1
      {
        ghost var k0 := k;
        var atEnd;
        curr, k, atEnd := Ascend(curr, k);
        assert Valid();
        PassWalk(values, k0, k);
        if atEnd {
          sorted := 0;
          PassAtLast(values, k);
          return;
        }
        ghost var a := values;
        assert a[k..][0] == a[k] && a[k..][1] == a[k + 1];
        SwapWithNext(curr, k);
        PassStepSwap(a, k, values);
      }
    }

    /** Lines 18-24 of list_sort: `curr` moves right while its value is
        below its successor's, and the pass ends when it reaches the last
        node. */
    method Ascend(curr: Node, ghost k: nat) returns (last: Node, ghost j: nat, atEnd: bool)
      requires Valid() && k + 1 < |nodes| && curr == nodes[k]
      ensures k <= j < |nodes| && last == nodes[j]
      ensures forall i :: k <= i < j ==> values[i] < values[i + 1]
      ensures atEnd <==> j + 1 == |nodes|
      ensures !atEnd ==> values[j] >= values[j + 1]
    {
      last, j := curr, k;
      while last.data < last.next.data
        invariant k <= j && j + 1 < |nodes| && last == nodes[j]
        invariant forall i :: k <= i < j ==> values[i] < values[i + 1]
        decreases |nodes| - j
      {
        last := last.next;
        j := j + 1;
        if last.next == null {
          return last, j, true;
        }
      }
      atEnd := false;
    }

    /** Lines 25-27 of list_sort: the values of `curr` and its successor
        trade places; no link changes. */
    method SwapWithNext(curr: Node, ghost k: nat)
      requires Valid() && k + 1 < |nodes| && curr == nodes[k]
      modifies this`values, {nodes[k], nodes[k + 1]}`data
      ensures Valid() && nodes == old(nodes)
      ensures values == old(values)[k := old(values)[k + 1]][k + 1 := old(values)[k]]
      ensures forall i :: 0 <= i < |nodes| ==> nodes[i].prev == old(nodes[i].prev)
    {
      ghost var right := nodes[k + 1];
      assert curr.next == right;
      var temp := curr.next.data;
      curr.next.data := curr.data;
      curr.data := temp;
      values := values[k := values[k + 1]][k + 1 := values[k]];
      forall i | 0 <= i < |nodes| ensures nodes[i].data == values[i] {
        if i != k && i != k + 1 {
          assert nodes[i] != curr && nodes[i] != right;
        }
      }
    }

    /** list_add: a new node holding `num` is pushed at the head and
        list_sort bubbles it into place. `junk` is the indeterminate content
        of the new node's `prev`. */
    method Add(num: int, junk: Node?) returns (node: Node)
      requires Valid() && PassTerminates([num] + values)
      modifies this, nodes
      ensures Valid() && fresh(node) && nodes == [node] + old(nodes) && freed == old(freed)
      ensures values == BubblePass([num] + old(values))
      ensures node.prev == junk && forall i :: 0 <= i < |old(nodes)| ==> old(nodes)[i].prev == old(nodes[i].prev)
    {
      node := new Node(num, head, junk);
      head := node;
      nodes := [node] + nodes;
      values := [num] + values;
      Sort();
    }

    /** list_remove: walks from `head` to the first node holding `num`. A
        list without `num` is left as it is. The found node is freed; when it
        is the last node it is freed without being unlinked, so the list
        still reaches it and still shows its value. Otherwise it is unlinked:
        `head` moves on when it is the head, and else its predecessor's
        `next` skips it and, when its own `prev` is set, its successor's
        `prev` takes that value. The first access is `curr->next`, so the
        list must not be empty. */
    method Remove(num: int)
      requires Valid() && head != null
      modifies this, nodes
      ensures Valid()
      ensures num !in old(values) ==> nodes == old(nodes) && values == old(values) && freed == old(freed)
      ensures num in old(values) ==>
                var k := IndexOf(old(values), num);
                && freed == old(freed) + {old(nodes)[k]}
                && if k + 1 == |old(nodes)| then nodes == old(nodes) && values == old(values) && !NoDangling()
                   else nodes == old(nodes)[..k] + old(nodes)[k + 1..] && values == OrderedList.Remove(old(values), num)
      ensures num in old(values) && 0 < IndexOf(old(values), num) && IndexOf(old(values), num) + 1 < |old(nodes)| ==>
                var k := IndexOf(old(values), num);
                old(nodes)[k + 1].prev == if old(nodes[k].prev) != null then old(nodes[k].prev) else old(nodes[k + 1].prev)
      ensures forall i :: 0 <= i < |old(nodes)| && !(num in old(values) && 0 < IndexOf(old(values), num) && i == IndexOf(old(values), num) + 1) ==>
                old(nodes)[i].prev == old(nodes[i].prev)
    {
      var curr, prevCurr, k, found := Seek(num);
      assert Valid();
      if !found {
        return;
      }
      RemovedValues(values, num);
      ghost var last := k + 1 == |nodes|;
      FreeFound(curr, prevCurr, k);
      assert last ==> nodes[k] in freed;
    }

    /** Lines 48-62 of list_remove: the found node is freed, and unlinked
        unless it is the last node. */
    method FreeFound(curr: Node, prevCurr: Node?, ghost k: nat)
      requires Valid() && k < |nodes| && curr == nodes[k]
      requires if k > 0 then prevCurr == nodes[k - 1] else prevCurr == null
      modifies this, nodes
      ensures Valid() && freed == old(freed) + {curr}
      ensures if k + 1 == |old(nodes)| then nodes == old(nodes) && values == old(values)
              else nodes == old(nodes)[..k] + old(nodes)[k + 1..] && values == old(values)[..k] + old(values)[k + 1..]
      ensures 0 < k && k + 1 < |old(nodes)| ==>
                old(nodes)[k + 1].prev == if old(curr.prev) != null then old(curr.prev) else old(nodes[k + 1].prev)
      ensures forall i :: 0 <= i < |old(nodes)| && !(0 < k && i == k + 1) ==> old(nodes)[i].prev == old(nodes[i].prev)
    {
      var temp := curr;
      if curr.next == null {
        freed := freed + {temp};
        assert Valid();
        return;
      } else if curr == head {
        var second := DropHead();
      } else {
        Unlink(prevCurr, curr, k);
      }
      freed := freed + {temp};
      assert Valid();
    }

    /** Lines 39-47 of list_remove: the walk from `head` to the first node
        holding `num`, or to the last node when there is none. */
    method Seek(num: int) returns (curr: Node?, prevCurr: Node?, ghost k: nat, found: bool)
      requires Valid() && head != null
      ensures k < |nodes| && curr == nodes[k] && (if k > 0 then prevCurr == nodes[k - 1] else prevCurr == null)
      ensures found <==> num in values
      ensures found ==> k == IndexOf(values, num)
    {
      curr := head;
      prevCurr := null;
      k := 0;
      while curr != null && curr.data != num
        invariant k < |nodes| && curr == nodes[k]
        invariant if k > 0 then prevCurr == nodes[k - 1] else prevCurr == null
        invariant forall i :: 0 <= i < k ==> values[i] != num
        decreases |nodes| - k
      {
        if curr.next == null {
          assert values == values[..k] + [values[k]];
          return curr, prevCurr, k, false;
        }
        prevCurr := curr;
        curr := curr.next;
        k := k + 1;
      }
      IndexOfFirst(values, num, k);
      found := true;
    }

    /** Lines 57-60 of list_remove: the predecessor's `next` skips the node
        at `k`, and when that node's `prev` is set its successor's `prev`
        takes the value. */
    method Unlink(prevCurr: Node, curr: Node, ghost k: nat)
      requires Valid() && 0 < k && k + 1 < |nodes| && curr == nodes[k] && prevCurr == nodes[k - 1]
      modifies this`nodes, this`values, prevCurr, nodes[k + 1]
      ensures Valid()
      ensures nodes == old(nodes)[..k] + old(nodes)[k + 1..] && values == old(values)[..k] + old(values)[k + 1..]
      ensures old(nodes)[k + 1].prev == if old(curr.prev) != null then old(curr.prev) else old(nodes[k + 1].prev)
      ensures forall i :: 0 <= i < |old(nodes)| && i != k + 1 ==> old(nodes)[i].prev == old(nodes[i].prev)
    {
      prevCurr.next := curr.next;
      if curr.prev != null {
        curr.next.prev := curr.prev;
      }
      nodes := nodes[..k] + nodes[k + 1..];
      values := values[..k] + values[k + 1..];
    }

    /** Lines 53-55 of list_remove: `head` moves to the second node. */
    method DropHead() returns (second: Node)
      requires Valid() && |nodes| > 1
      modifies this`head, this`nodes, this`values
      ensures Valid() && second == head
      ensures nodes == old(nodes)[1..] && values == old(values)[1..]
    {
      second := head.next;
      head := second;
      nodes := nodes[1..];
      values := values[1..];
    }

    /** The corrected last-node case of list_remove: the predecessor's
        `next`, or `head` for a single node, is cleared. */
    method CutLast(prevCurr: Node?, curr: Node, ghost k: nat)
      requires Valid() && k + 1 == |nodes| && curr == nodes[k] && (k > 0 ==> prevCurr == nodes[k - 1])
      modifies this`head, this`nodes, this`values, prevCurr
      ensures Valid()
      ensures nodes == old(nodes)[..k] && values == old(values)[..k]
      ensures forall i :: 0 <= i < |old(nodes)| ==> old(nodes)[i].prev == old(nodes[i].prev)
    {
      if curr == head {
        head := null;
      } else {
        prevCurr.next := null;
      }
      nodes := nodes[..k];
      values := values[..k];
    }

    /** list_remove with the last node unlinked as well: its predecessor's
        `next`, or `head` when it is the only node, becomes NULL, so no freed
        node stays reachable. */
    method RemoveCorrected(num: int)
      requires Valid() && head != null
      modifies this, nodes
      ensures Valid()
      ensures num !in old(values) ==> nodes == old(nodes) && values == old(values) && freed == old(freed)
      ensures num in old(values) ==>
                var k := IndexOf(old(values), num);
                && freed == old(freed) + {old(nodes)[k]}
                && nodes == old(nodes)[..k] + old(nodes)[k + 1..] && values == OrderedList.Remove(old(values), num)
      ensures old(NoDangling()) ==> NoDangling()
      ensures num in old(values) && 0 < IndexOf(old(values), num) && IndexOf(old(values), num) + 1 < |old(nodes)| ==>
                var k := IndexOf(old(values), num);
                old(nodes)[k + 1].prev == if old(nodes[k].prev) != null then old(nodes[k].prev) else old(nodes[k + 1].prev)
      ensures forall i :: 0 <= i < |old(nodes)| && !(num in old(values) && 0 < IndexOf(old(values), num) && i == IndexOf(old(values), num) + 1) ==>
                old(nodes)[i].prev == old(nodes[i].prev)
    {
      var curr, prevCurr, k, found := Seek(num);
      assert Valid();
      if !found {
        return;
      }
      RemovedValues(values, num);
      ExcisedNotDangling(nodes, freed, k, nodes[..k] + nodes[k + 1..]);
      Excise(curr, prevCurr, k);
    }

    /** The found node of the corrected list_remove leaves the list and is
        freed. */
    method Excise(curr: Node, prevCurr: Node?, ghost k: nat)
      requires Valid() && k < |nodes| && curr == nodes[k]
      requires if k > 0 then prevCurr == nodes[k - 1] else prevCurr == null
      modifies this, nodes
      ensures Valid() && freed == old(freed) + {curr}
      ensures nodes == old(nodes)[..k] + old(nodes)[k + 1..] && values == old(values)[..k] + old(values)[k + 1..]
      ensures 0 < k && k + 1 < |old(nodes)| ==>
                old(nodes)[k + 1].prev == if old(curr.prev) != null then old(curr.prev) else old(nodes[k + 1].prev)
      ensures forall i :: 0 <= i < |old(nodes)| && !(0 < k && i == k + 1) ==> old(nodes)[i].prev == old(nodes[i].prev)
    {
      var temp := curr;
      if curr.next == null {
        CutLast(prevCurr, curr, k);
      } else if curr == head {
        var second := DropHead();
      } else {
        Unlink(prevCurr, curr, k);
      }
      freed := freed + {temp};
      assert Valid();
    }
  }

  /** Taking the `k`-th of distinct nodes out of the list and freeing it
      leaves no freed node in the list. */
  lemma ExcisedNotDangling(nodes: seq<Node>, freed: set<Node>, k: nat, rest: seq<Node>)
    requires k < |nodes| && forall i, j :: 0 <= i < j < |nodes| ==> nodes[i] != nodes[j]
    requires rest == nodes[..k] + nodes[k + 1..]
    ensures (forall i :: 0 <= i < |nodes| ==> nodes[i] !in freed) ==>
              forall i :: 0 <= i < |rest| ==> rest[i] !in freed + {nodes[k]}
  {
    forall i | 0 <= i < |rest| ensures rest[i] == nodes[if i < k then i else i + 1] {
    }
  }

  /** The position of the first `x` in `s`. */
  function IndexOf(s: seq<int>, x: int): (k: nat)
    requires x in s
    ensures k < |s| && s[k] == x && forall i :: 0 <= i < k ==> s[i] != x
  {
    if s[0] == x then 0 else 1 + IndexOf(s[1..], x)
  }

  /** The first position holding `x` is IndexOf's. */
  lemma IndexOfFirst(s: seq<int>, x: int, k: nat)
    requires k < |s| && s[k] == x && forall i :: 0 <= i < k ==> s[i] != x
    ensures IndexOf(s, x) == k
  {
    var j := IndexOf(s, x);
  }

  /** Removing a node that is not the last one removes the first occurrence
      of its value from the list's values. */
  lemma {:induction false} RemovedValues(s: seq<int>, x: int)
    requires x in s
    ensures var k := IndexOf(s, x);
            s[..k] + s[k + 1..] == OrderedList.Remove(s, x)
  {
    var k := IndexOf(s, x);
    if s[0] != x {
      var t := s[1..];
      RemovedValues(t, x);
      var j := IndexOf(t, x);
      assert k == j + 1;
      calc {
        s[..k] + s[k + 1..];
        { assert s[..k] == [s[0]] + t[..j] && s[k + 1..] == t[j + 1..]; }
        [s[0]] + (t[..j] + t[j + 1..]);
        [s[0]] + OrderedList.Remove(t, x);
      }
    }
  }

  /** Removing the last value of [4, 5] leaves the freed node reachable. */
  method RemoveLastDangles() returns (l: List)
    ensures l.Valid() && l.values == [4, 5] && !l.NoDangling()
  {
    l := new List();
    var five := l.Add(5, null);
    assert PassTerminates([4] + [5]);
    var four := l.Add(4, null);
    assert BubblePass([4, 5]) == [4, 5];
    l.Remove(5);
  }
}
