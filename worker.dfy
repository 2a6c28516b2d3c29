/**
 * A worker: one process per node of the search tree.  It holds an element,
 * its cardinality and at most two children, reads orders from its parent,
 * answers point queries (minimum, maximum, exist, insert) on the pipe shared
 * by all workers towards the master, and answers aggregate queries (how many,
 * sum, print) to its parent after combining its children's answers.
 *
 * The first half states, on plain trees, what one order does to a subtree
 * and what it emits (Step), and what a run of orders does (Run).  The second
 * half is the worker itself, a class whose handlers are proved to do exactly
 * that, with "send the order to the child process and let it handle it"
 * modelled as writing to the child's input pipe and letting the child serve it.
 */
module Workers {
  import opened SearchTree
  import opened Protocol
  import opened Channels

  // ---------------------------------------------------------------------
  // What one order does, on plain trees
  // ---------------------------------------------------------------------

  /** Whether the worker's loop goes on, ended on STOP, or aborted on an unknown order. */
  datatype Status = Continue | End | Abort

  /**
   * The effect of one order: the new subtree, what went to the master on the
   * shared pipe, what went up to the parent, what was printed, and the
   * unread rest of the input pipe.
   */
  datatype Reply = Reply(tree: Tree, fanIn: seq<int>, up: seq<int>, printed: seq<Entry>,
                         status: Status, rest: seq<int>)

  predicate KnownOrder(tag: int)
  {
    MW_ORDER_STOP <= tag <= MW_ORDER_PRINT
  }

  /** EXIST and INSERT carry the element after the tag; the other orders are the tag alone. */
  function MessageLength(tag: int): (n: nat)
    ensures 1 <= n <= 2
    ensures n == 2 <==> tag == MW_ORDER_EXIST || tag == MW_ORDER_INSERT
  {
    if tag == MW_ORDER_EXIST || tag == MW_ORDER_INSERT then 2 else 1
  }

  /** The input pipe holds a whole order. */
  predicate Ready(inbox: seq<int>)
  {
    inbox != [] && MessageLength(inbox[0]) <= |inbox|
  }

  /** The input pipe holds a sequence of whole orders. */
  predicate Complete(inbox: seq<int>)
    decreases |inbox|
  {
    inbox == [] || (Ready(inbox) && Complete(inbox[MessageLength(inbox[0])..]))
  }

  /** What the node holding v, or the node missing a child on v's side, sends to the master. */
  function ExistAnswer(found: Option<nat>): (m: seq<int>)
    ensures found.Some? ==> m == [MW_ANSWER_EXIST_YES, found.value]
    ensures found.None? <==> m == [MW_ANSWER_EXIST_NO]
  {
    match found
    case Some(c) => [MW_ANSWER_EXIST_YES, c]
    case None => [MW_ANSWER_EXIST_NO]
  }

  /** The order at the front of the input pipe, served by the subtree t. */
  function Step(t: Tree, inbox: seq<int>): (r: Reply)
    requires t.Node? && Ready(inbox)
    ensures r.tree.Node?
    ensures r.rest == inbox[MessageLength(inbox[0])..]
    ensures inbox[0] != MW_ORDER_INSERT ==> r.tree == t
    ensures r.status == End <==> inbox[0] == MW_ORDER_STOP
    ensures r.status == Abort <==> !KnownOrder(inbox[0])
    ensures r.status == Abort ==> r.fanIn == [] && r.up == [] && r.printed == []
  {
    var tag := inbox[0];
    var rest := inbox[MessageLength(tag)..];
    if tag == MW_ORDER_STOP then Reply(t, [], [], [], End, rest)
    else if tag == MW_ORDER_HOW_MANY then
      Reply(t, [], [MW_ANSWER_HOW_MANY, Total(t), Distinct(t)], [], Continue, rest)
    else if tag == MW_ORDER_MINIMUM then
      Reply(t, [MW_ANSWER_MINIMUM, SearchTree.Minimum(t)], [], [], Continue, rest)
    else if tag == MW_ORDER_MAXIMUM then
      Reply(t, [MW_ANSWER_MAXIMUM, SearchTree.Maximum(t)], [], [], Continue, rest)
    else if tag == MW_ORDER_EXIST then
      Reply(t, ExistAnswer(Find(t, inbox[1])), [], [], Continue, rest)
    else if tag == MW_ORDER_SUM then
      Reply(t, [], [MW_ANSWER_SUM, SearchTree.Sum(t)], [], Continue, rest)
    else if tag == MW_ORDER_INSERT then
      Reply(SearchTree.Insert(t, inbox[1]), [MW_ANSWER_INSERT], [], [], Continue, rest)
    else if tag == MW_ORDER_PRINT then
      Reply(t, [], [MW_ANSWER_PRINT], Listing(t), Continue, rest)
    else
      Reply(t, [], [], [], Abort, rest)
  }

  /** The effect of a run of orders. */
  datatype Outcome = Outcome(tree: Tree, fanIn: seq<int>, up: seq<int>, printed: seq<Entry>, status: Status)

  /** Outputs of earlier orders, followed by an outcome. */
  function Prefix(fanIn: seq<int>, up: seq<int>, printed: seq<Entry>, o: Outcome): (p: Outcome)
    ensures p.tree == o.tree && p.status == o.status
    ensures p.fanIn == fanIn + o.fanIn && p.up == up + o.up && p.printed == printed + o.printed
  {
    Outcome(o.tree, fanIn + o.fanIn, up + o.up, printed + o.printed, o.status)
  }

  /**
   * The worker's loop: orders are served one after the other until STOP ends
   * the loop, an unknown order aborts it, or the input pipe is empty (the
   * process then waits for its next order).
   */
  function Run(t: Tree, inbox: seq<int>): (o: Outcome)
    requires t.Node? && Complete(inbox)
    ensures o.tree.Node?
    ensures inbox == [] ==> o == Outcome(t, [], [], [], Continue)
    decreases |inbox|
  {
    if inbox == [] then Outcome(t, [], [], [], Continue)
    else
      var r := Step(t, inbox);
      if r.status != Continue then Outcome(r.tree, r.fanIn, r.up, r.printed, r.status)
      else Prefix(r.fanIn, r.up, r.printed, Run(r.tree, r.rest))
  }

  /** The loop resumed on t and inbox, after earlier orders emitted fanIn, up and printed. */
  function Resume(t: Tree, inbox: seq<int>, fanIn: seq<int>, up: seq<int>, printed: seq<Entry>): Outcome
    requires t.Node? && Complete(inbox)
    decreases |inbox|
  {
    if inbox == [] then Outcome(t, fanIn, up, printed, Continue)
    else
      var r := Step(t, inbox);
      if r.status != Continue then Outcome(r.tree, fanIn + r.fanIn, up + r.up, printed + r.printed, r.status)
      else Resume(r.tree, r.rest, fanIn + r.fanIn, up + r.up, printed + r.printed)
  }

  /** Outputs prefixed twice are prefixed once with both. */
  lemma PrefixPrefix(f1: seq<int>, u1: seq<int>, p1: seq<Entry>, f2: seq<int>, u2: seq<int>, p2: seq<Entry>, o: Outcome)
    ensures Prefix(f1, u1, p1, Prefix(f2, u2, p2, o)) == Prefix(f1 + f2, u1 + u2, p1 + p2, o)
  {
    assert f1 + (f2 + o.fanIn) == (f1 + f2) + o.fanIn;
    assert u1 + (u2 + o.up) == (u1 + u2) + o.up;
    assert p1 + (p2 + o.printed) == (p1 + p2) + o.printed;
  }

  /** Resuming is running the rest of the orders after the earlier outputs. */
  lemma {:induction false} ResumePrefix(t: Tree, inbox: seq<int>, fanIn: seq<int>, up: seq<int>, printed: seq<Entry>)
    requires t.Node? && Complete(inbox)
    ensures Resume(t, inbox, fanIn, up, printed) == Prefix(fanIn, up, printed, Run(t, inbox))
    decreases |inbox|
  {
    if inbox != [] {
      var r := Step(t, inbox);
      if r.status == Continue {
        ResumePrefix(r.tree, r.rest, fanIn + r.fanIn, up + r.up, printed + r.printed);
        PrefixPrefix(fanIn, up, printed, r.fanIn, r.up, r.printed, Run(r.tree, r.rest));
      }
    }
  }

  // ---------------------------------------------------------------------
  // What the orders mean
  // ---------------------------------------------------------------------

  /**
   * INSERT: exactly one acknowledgement reaches the master, nothing goes up,
   * exactly one copy of v is added, order is kept, and a node is created
   * exactly when v was absent.
   */
  lemma {:induction false} InsertStep(t: Tree, v: int, rest: seq<int>)
    requires t.Node? && Ordered(t) && Positive(t)
    ensures var r := Step(t, [MW_ORDER_INSERT, v] + rest);
      && r.fanIn == [MW_ANSWER_INSERT] && r.up == [] && r.printed == []
      && r.status == Continue && r.rest == rest
      && Ordered(r.tree) && Positive(r.tree)
      && (forall x :: Count(r.tree, x) == Count(t, x) + (if x == v then 1 else 0))
      && Distinct(r.tree) == Distinct(t) + (if Count(t, v) == 0 then 1 else 0)
  {
    var inbox := [MW_ORDER_INSERT, v] + rest;
    assert inbox[1] == v && inbox[2..] == rest;
    InsertOrdered(t, v);
    InsertPositive(t, v);
    forall x
      ensures Count(SearchTree.Insert(t, v), x) == Count(t, x) + (if x == v then 1 else 0)
    {
      InsertCount(t, v, x);
    }
    FindCount(t, v);
    InsertNodes(t, v);
  }

  /** EXIST: one answer to the master, YES with the count when v is held, NO otherwise. */
  lemma {:induction false} ExistStep(t: Tree, v: int, rest: seq<int>)
    requires t.Node? && Ordered(t) && Positive(t)
    ensures var r := Step(t, [MW_ORDER_EXIST, v] + rest);
      && r.tree == t && r.up == [] && r.printed == [] && r.status == Continue && r.rest == rest
      && (Count(t, v) > 0 ==> r.fanIn == [MW_ANSWER_EXIST_YES, Count(t, v)])
      && (Count(t, v) == 0 ==> r.fanIn == [MW_ANSWER_EXIST_NO])
  {
    var inbox := [MW_ORDER_EXIST, v] + rest;
    assert inbox[1] == v && inbox[2..] == rest;
    FindCount(t, v);
  }

  /** MINIMUM and MAXIMUM: one answer to the master, with the least (greatest) held element. */
  lemma {:induction false} ExtremaStep(t: Tree, rest: seq<int>)
    requires t.Node? && Ordered(t) && Positive(t)
    ensures var r := Step(t, [MW_ORDER_MINIMUM] + rest);
      && r.tree == t && r.up == [] && r.printed == [] && r.status == Continue && r.rest == rest
      && |r.fanIn| == 2 && r.fanIn[0] == MW_ANSWER_MINIMUM
      && Count(t, r.fanIn[1]) > 0 && (forall x :: Count(t, x) > 0 ==> r.fanIn[1] <= x)
    ensures var r := Step(t, [MW_ORDER_MAXIMUM] + rest);
      && r.tree == t && r.up == [] && r.printed == [] && r.status == Continue && r.rest == rest
      && |r.fanIn| == 2 && r.fanIn[0] == MW_ANSWER_MAXIMUM
      && Count(t, r.fanIn[1]) > 0 && (forall x :: Count(t, x) > 0 ==> x <= r.fanIn[1])
  {
    assert ([MW_ORDER_MINIMUM] + rest)[1..] == rest;
    assert ([MW_ORDER_MAXIMUM] + rest)[1..] == rest;
    forall x
      ensures Count(t, x) > 0 ==> SearchTree.Minimum(t) <= x <= SearchTree.Maximum(t)
    {
      MinimumLeast(t, x);
      MaximumGreatest(t, x);
    }
    MinimumLeast(t, SearchTree.Minimum(t));
    MaximumGreatest(t, SearchTree.Maximum(t));
  }

  /**
   * HOW_MANY, SUM and PRINT answer the parent: the total and distinct counts
   * and the weighted sum agree with the printed listing, which is strictly
   * ascending and holds exactly the held elements with their counts.
   */
  lemma {:induction false} AggregateStep(t: Tree, rest: seq<int>)
    requires t.Node? && Ordered(t) && Positive(t)
    ensures var r := Step(t, [MW_ORDER_HOW_MANY] + rest);
      r.tree == t && r.fanIn == [] && r.printed == [] && r.rest == rest
      && r.up == [MW_ANSWER_HOW_MANY, CardSum(Listing(t)), |Listing(t)|]
    ensures var r := Step(t, [MW_ORDER_SUM] + rest);
      r.tree == t && r.fanIn == [] && r.printed == [] && r.rest == rest
      && r.up == [MW_ANSWER_SUM, WeightedSum(Listing(t))]
    ensures var r := Step(t, [MW_ORDER_PRINT] + rest);
      && r.tree == t && r.fanIn == [] && r.rest == rest && r.up == [MW_ANSWER_PRINT]
      && Ascending(r.printed)
      && (forall x, c :: (x, c) in r.printed <==> c == Count(t, x) && c > 0)
  {
    assert ([MW_ORDER_HOW_MANY] + rest)[1..] == rest;
    assert ([MW_ORDER_SUM] + rest)[1..] == rest;
    assert ([MW_ORDER_PRINT] + rest)[1..] == rest;
    AggregatesMatchListing(t);
    ListingAscending(t);
    forall x, c: nat
      ensures (x, c) in Listing(t) <==> c == Count(t, x) && c > 0
    {
      ListingCounts(t, x, c);
    }
  }

  /**
   * The two counts howManyAction sends up as written: nbElements starts at
   * 1 in every worker, as nbDistinctElements does, instead of at the
   * worker's cardinality.
   */
  function HowManyAsWritten(t: Tree): (counts: (nat, nat))
    ensures counts.0 == counts.1
    ensures counts.0 == 0 <==> t.Leaf?
  {
    match t
    case Leaf => (0, 0)
    case Node(l, _, _, r) =>
      var (nl, dl) := HowManyAsWritten(l);
      var (nr, dr) := HowManyAsWritten(r);
      (1 + nl + nr, 1 + dl + dr)
  }

  /** As written, both counts are the number of distinct elements. */
  lemma {:induction false} HowManyAsWrittenCountsWorkers(t: Tree)
    ensures HowManyAsWritten(t) == (Distinct(t), Distinct(t))
  {
    match t
    case Leaf =>
    case Node(l, _, _, r) =>
      HowManyAsWrittenCountsWorkers(l);
      HowManyAsWrittenCountsWorkers(r);
  }

  /** The tree of workers that inserting 5, 3, 8 and 3 builds. */
  lemma UndercountTree()
    ensures InsertAll(Leaf, [5, 3, 8, 3]) == Node(Node(Leaf, 3, 2, Leaf), 5, 1, Node(Leaf, 8, 1, Leaf))
  {
    var t1 := Node(Leaf, 5, 1, Leaf);
    var t2 := Node(Node(Leaf, 3, 1, Leaf), 5, 1, Leaf);
    var t3 := Node(Node(Leaf, 3, 1, Leaf), 5, 1, Node(Leaf, 8, 1, Leaf));
    var t4 := Node(Node(Leaf, 3, 2, Leaf), 5, 1, Node(Leaf, 8, 1, Leaf));
    assert [5, 3, 8, 3][1..] == [3, 8, 3] && [3, 8, 3][1..] == [8, 3] && [8, 3][1..] == [3];
    assert InsertAll(t4, []) == t4;
    assert InsertAll(t3, [3]) == InsertAll(t4, []);
    assert InsertAll(t2, [8, 3]) == InsertAll(t3, [3]);
    assert InsertAll(t1, [3, 8, 3]) == InsertAll(t2, [8, 3]);
    assert InsertAll(Leaf, [5, 3, 8, 3]) == InsertAll(t1, [3, 8, 3]);
  }

  /** Inserting 5, 3, 8 and 3 holds four elements, but the total as written is 3. */
  lemma HowManyAsWrittenUndercounts()
    ensures var t := InsertAll(Leaf, [5, 3, 8, 3]);
      Total(t) == 4 && HowManyAsWritten(t).0 == 3
  {
    UndercountTree();
    var three, eight := Node(Leaf, 3, 2, Leaf), Node(Leaf, 8, 1, Leaf);
    assert HowManyAsWritten(three) == (1, 1) && HowManyAsWritten(eight) == (1, 1);
  }

  /** The frames of a run of INSERT orders. */
  function InsertOrders(vs: seq<int>): (m: seq<int>)
    ensures |m| == 2 * |vs|
  {
    if vs == [] then [] else [MW_ORDER_INSERT, vs[0]] + InsertOrders(vs[1..])
  }

  function Repeat(x: int, n: nat): (m: seq<int>)
    ensures |m| == n && forall i :: 0 <= i < n ==> m[i] == x
  {
    if n == 0 then [] else [x] + Repeat(x, n - 1)
  }

  /** An INSERT at the front of the inbox: one acknowledgement, then the rest runs on the grown tree. */
  lemma RunInsertHead(t: Tree, v: int, rest: seq<int>)
    requires t.Node? && Complete(rest)
    ensures Complete([MW_ORDER_INSERT, v] + rest)
    ensures Run(t, [MW_ORDER_INSERT, v] + rest) ==
      Prefix([MW_ANSWER_INSERT], [], [], Run(SearchTree.Insert(t, v), rest))
  {
    var m := [MW_ORDER_INSERT, v] + rest;
    assert m[1] == v && m[2..] == rest;
  }

  /** A run of inserts builds the same tree as inserting the values in order, with one acknowledgement each. */
  lemma {:induction false} RunInserts(t: Tree, vs: seq<int>)
    requires t.Node?
    ensures Complete(InsertOrders(vs))
    ensures Run(t, InsertOrders(vs)) == Outcome(InsertAll(t, vs), Repeat(MW_ANSWER_INSERT, |vs|), [], [], Continue)
    decreases |vs|
  {
    if vs != [] {
      RunInserts(SearchTree.Insert(t, vs[0]), vs[1..]);
      RunInsertHead(t, vs[0], InsertOrders(vs[1..]));
      assert [MW_ANSWER_INSERT] + Repeat(MW_ANSWER_INSERT, |vs| - 1) == Repeat(MW_ANSWER_INSERT, |vs|);
    }
  }

  /** Nothing after STOP is served: the run ends there, having changed nothing. */
  lemma {:induction false} RunStops(t: Tree, rest: seq<int>)
    requires t.Node?
    ensures Complete([MW_ORDER_STOP] + rest) ==>
      Run(t, [MW_ORDER_STOP] + rest) == Outcome(t, [], [], [], End)
  {
  }


  // ---------------------------------------------------------------------
  // The worker process
  // ---------------------------------------------------------------------

  class Worker {
    var elt: int
    var cardinality: nat
    var left: Worker?
    var right: Worker?
    /** Set once this worker has received STOP: its loop ends after the order. */
    var stopped: bool

    /** parentToWorker: the orders from the parent (or from the master, for the first worker). */
    const fromParent: Pipe
    /** workerToParent: the answers to aggregate queries. */
    const toParent: Pipe
    /** workerToMaster: shared by all workers, read by the master. */
    const toMaster: Pipe
    /** Standard output, shared by all processes. */
    const console: Console

    /** The subtree this worker is the root of. */
    ghost var Subtree: Tree
    /** This worker, its descendants, and the two pipes between each of them and its parent. */
    ghost var Repr: set<object>

    /**
     * The invariant of a subtree of workers.  It does not read the worker's
     * own two pipes, so that the parent may write to them and read from them.
     */
    ghost predicate Valid()
      reads this, Repr - {fromParent, toParent}
      decreases Repr
    {
      && this in Repr && fromParent in Repr && toParent in Repr && fromParent != toParent
      && toMaster !in Repr && console !in Repr
      && cardinality >= 1
      && (left != null ==>
            && left in Repr && left.Repr <= Repr && this !in left.Repr
            && fromParent !in left.Repr && toParent !in left.Repr
            && left.toMaster == toMaster && left.console == console
            && (left.stopped ==> stopped)
            && left.Valid()
            && left.fromParent.buf == [] && left.toParent.buf == [])
      && (right != null ==>
            && right in Repr && right.Repr <= Repr && this !in right.Repr
            && fromParent !in right.Repr && toParent !in right.Repr
            && right.toMaster == toMaster && right.console == console
            && (right.stopped ==> stopped)
            && right.Valid()
            && right.fromParent.buf == [] && right.toParent.buf == [])
      && (left != null && right != null ==> left.Repr !! right.Repr)
      && Subtree == Node(if left == null then Leaf else left.Subtree, elt, cardinality,
                         if right == null then Leaf else right.Subtree)
    }

    /** Every worker of a valid subtree holds its element at least once. */
    lemma {:induction false} SubtreePositive()
      requires Valid()
      ensures Positive(Subtree)
      decreases Repr
    {
      if left != null {
        left.SubtreePositive();
      }
      if right != null {
        right.SubtreePositive();
      }
    }

    /**
     * This worker and every worker below it have received STOP: the
     * waitpid on a child returns only once that child has waited for its own
     * children.
     */
    ghost predicate AllStopped()
      requires Valid()
      reads this, Repr - {fromParent, toParent}
      decreases Repr
    {
      && stopped
      && (left != null ==> left.AllStopped())
      && (right != null ==> right.AllStopped())
    }

    /**
     * A new worker holding v once (createWorker, then parseArgs and main):
     * having been created means v was just inserted, so it acknowledges the
     * insertion to the master before entering its loop.
     */
    constructor (v: int, fromParent: Pipe, toParent: Pipe, toMaster: Pipe, console: Console)
      requires fromParent != toParent && fromParent != toMaster && toParent != toMaster
      modifies toMaster
      ensures Valid() && fresh(Repr - {fromParent, toParent}) && !stopped
      ensures Repr == {this, fromParent, toParent}
      ensures Subtree == Node(Leaf, v, 1, Leaf)
      ensures this.fromParent == fromParent && this.toParent == toParent
      ensures this.toMaster == toMaster && this.console == console
      ensures toMaster.buf == old(toMaster.buf) + [MW_ANSWER_INSERT]
    {
      elt := v;
      cardinality := 1;
      left := null;
      right := null;
      stopped := false;
      this.fromParent := fromParent;
      this.toParent := toParent;
      this.toMaster := toMaster;
      this.console := console;
      Subtree := Node(Leaf, v, 1, Leaf);
      Repr := {this, fromParent, toParent};
      new;
      toMaster.Write(MW_ANSWER_INSERT);
    }

    /** One iteration of the worker's loop: read an order and dispatch it. */
    method Serve() returns (status: Status)
      requires Valid() && !stopped && Ready(fromParent.buf)
      modifies Repr, toMaster, console
      decreases Repr, 3
      ensures Valid() && old(Repr) <= Repr && fresh(Repr - old(Repr))
      ensures old(fromParent.buf)[0] != MW_ORDER_INSERT ==> Repr == old(Repr)
      ensures var r := Step(old(Subtree), old(fromParent.buf));
        && Subtree == r.tree && status == r.status && fromParent.buf == r.rest
        && toMaster.buf == old(toMaster.buf) + r.fanIn
        && toParent.buf == old(toParent.buf) + r.up
        && console.lines == old(console.lines) + r.printed
        && stopped == (r.status == End)
      ensures stopped ==> AllStopped()
    {
      var tag := fromParent.Read();
      if tag == MW_ORDER_STOP {
        StopAction();
        status := End;
      } else if tag == MW_ORDER_HOW_MANY {
        HowManyAction();
        status := Continue;
      } else if tag == MW_ORDER_MINIMUM {
        MinimumAction();
        status := Continue;
      } else if tag == MW_ORDER_MAXIMUM {
        MaximumAction();
        status := Continue;
      } else if tag == MW_ORDER_EXIST {
        ExistAction();
        status := Continue;
      } else if tag == MW_ORDER_SUM {
        SumAction();
        status := Continue;
      } else if tag == MW_ORDER_INSERT {
        InsertAction();
        status := Continue;
      } else if tag == MW_ORDER_PRINT {
        PrintAction();
        status := Continue;
      } else {
        // an unknown order: the process exits with a failure
        status := Abort;
      }
    }

    /** STOP: each existing child is stopped, and has finished, before this worker ends. */
    method StopAction()
      requires Valid() && !stopped
      modifies Repr, toMaster, console
      decreases Repr, 2
      ensures Valid() && stopped && Repr == old(Repr) && Subtree == old(Subtree)
      ensures left == old(left) && right == old(right)
      ensures AllStopped()
      ensures fromParent.buf == old(fromParent.buf) && toParent.buf == old(toParent.buf)
      ensures toMaster.buf == old(toMaster.buf) && console.lines == old(console.lines)
    {
      stopped := true;
      if left != null {
        Forward(left, [MW_ORDER_STOP]);
      }
      StopRight();
    }

    /** The second half of STOP: the right child. */
    method StopRight()
      requires Valid() && stopped && (right != null ==> !right.stopped)
      requires left != null ==> left.AllStopped()
      modifies Repr, toMaster, console
      decreases Repr, 1
      ensures Valid() && stopped && Repr == old(Repr) && Subtree == old(Subtree)
      ensures left == old(left) && right == old(right)
      ensures AllStopped()
      ensures fromParent.buf == old(fromParent.buf) && toParent.buf == old(toParent.buf)
      ensures toMaster.buf == old(toMaster.buf) && console.lines == old(console.lines)
    {
      if right != null {
        Forward(right, [MW_ORDER_STOP]);
      }
    }

    /**
     * HOW_MANY: the local cardinality and one distinct element, plus each
     * child's two answers, sent up to the parent after the acknowledgement.
     */
    method HowManyAction()
      requires Valid() && !stopped
      modifies Repr, toMaster, console
      decreases Repr, 2
      ensures Valid() && !stopped && Repr == old(Repr) && Subtree == old(Subtree)
      ensures fromParent.buf == old(fromParent.buf)
      ensures toParent.buf == old(toParent.buf) + [MW_ANSWER_HOW_MANY, Total(Subtree), Distinct(Subtree)]
      ensures toMaster.buf == old(toMaster.buf) && console.lines == old(console.lines)
    {
      var nbElements := cardinality;
      var nbDistinctElements := 1;
      if left != null {
        var n, d := AskHowMany(left);
        nbElements := nbElements + n;
        nbDistinctElements := nbDistinctElements + d;
      }
      HowManyRight(nbElements, nbDistinctElements);
    }

    /** The second half of HOW_MANY: add the right child's counts to n and d and answer the parent. */
    method HowManyRight(n: int, d: int)
      requires Valid() && !stopped
      modifies Repr, toMaster, console
      decreases Repr, 1
      ensures Valid() && !stopped && Repr == old(Repr) && Subtree == old(Subtree)
      ensures fromParent.buf == old(fromParent.buf)
      ensures toParent.buf == old(toParent.buf) +
        [MW_ANSWER_HOW_MANY, n + Total(Subtree.right), d + Distinct(Subtree.right)]
      ensures toMaster.buf == old(toMaster.buf) && console.lines == old(console.lines)
    {
      var nbElements := n;
      var nbDistinctElements := d;
      if right != null {
        var n', d' := AskHowMany(right);
        nbElements := nbElements + n';
        nbDistinctElements := nbDistinctElements + d';
      }
      toParent.Send([MW_ANSWER_HOW_MANY, nbElements, nbDistinctElements]);
    }

    /** MINIMUM: the worker with no left child answers the master; the others only forward left. */
    method MinimumAction()
      requires Valid() && !stopped
      modifies Repr, toMaster, console
      decreases Repr, 2
      ensures Valid() && !stopped && Repr == old(Repr) && Subtree == old(Subtree)
      ensures fromParent.buf == old(fromParent.buf) && toParent.buf == old(toParent.buf)
      ensures toMaster.buf == old(toMaster.buf) + [MW_ANSWER_MINIMUM, SearchTree.Minimum(Subtree)]
      ensures console.lines == old(console.lines)
    {
      if left == null {
        toMaster.Send([MW_ANSWER_MINIMUM, elt]);
      } else {
        Forward(left, [MW_ORDER_MINIMUM]);
      }
    }

    /** MAXIMUM: the mirror image of MINIMUM, on the right. */
    method MaximumAction()
      requires Valid() && !stopped
      modifies Repr, toMaster, console
      decreases Repr, 2
      ensures Valid() && !stopped && Repr == old(Repr) && Subtree == old(Subtree)
      ensures fromParent.buf == old(fromParent.buf) && toParent.buf == old(toParent.buf)
      ensures toMaster.buf == old(toMaster.buf) + [MW_ANSWER_MAXIMUM, SearchTree.Maximum(Subtree)]
      ensures console.lines == old(console.lines)
    {
      if right == null {
        toMaster.Send([MW_ANSWER_MAXIMUM, elt]);
      } else {
        Forward(right, [MW_ORDER_MAXIMUM]);
      }
    }

    /**
     * EXIST: the worker holding the element answers YES and its cardinality
     * to the master; a worker missing the child on the element's side answers
     * NO; the others forward the order and the element to that child.
     */
    method ExistAction()
      requires Valid() && !stopped && fromParent.buf != []
      modifies Repr, toMaster, console
      decreases Repr, 2
      ensures Valid() && !stopped && Repr == old(Repr) && Subtree == old(Subtree)
      ensures fromParent.buf == old(fromParent.buf)[1..] && toParent.buf == old(toParent.buf)
      ensures toMaster.buf == old(toMaster.buf) + ExistAnswer(Find(Subtree, old(fromParent.buf)[0]))
      ensures console.lines == old(console.lines)
    {
      var eltToTest := fromParent.Read();
      if eltToTest == elt {
        toMaster.Send([MW_ANSWER_EXIST_YES, cardinality]);
      } else if eltToTest < elt {
        ExistLeft(eltToTest);
      } else {
        ExistRight(eltToTest);
      }
    }

    /** EXIST of an element below this worker's: NO without a left child, else asked of the left child. */
    method ExistLeft(v: int)
      requires Valid() && !stopped && v < elt
      modifies Repr, toMaster, console
      decreases Repr, 1
      ensures Valid() && !stopped && Repr == old(Repr) && Subtree == old(Subtree)
      ensures fromParent.buf == old(fromParent.buf) && toParent.buf == old(toParent.buf)
      ensures toMaster.buf == old(toMaster.buf) + ExistAnswer(Find(Subtree, v))
      ensures console.lines == old(console.lines)
    {
      if left == null {
        toMaster.Write(MW_ANSWER_EXIST_NO);
      } else {
        Forward(left, [MW_ORDER_EXIST, v]);
      }
    }

    /** EXIST of an element above this worker's: NO without a right child, else asked of the right child. */
    method ExistRight(v: int)
      requires Valid() && !stopped && elt < v
      modifies Repr, toMaster, console
      decreases Repr, 1
      ensures Valid() && !stopped && Repr == old(Repr) && Subtree == old(Subtree)
      ensures fromParent.buf == old(fromParent.buf) && toParent.buf == old(toParent.buf)
      ensures toMaster.buf == old(toMaster.buf) + ExistAnswer(Find(Subtree, v))
      ensures console.lines == old(console.lines)
    {
      if right == null {
        toMaster.Write(MW_ANSWER_EXIST_NO);
      } else {
        Forward(right, [MW_ORDER_EXIST, v]);
      }
    }

    /** SUM: element times cardinality plus each child's sum, sent up after the acknowledgement. */
    method SumAction()
      requires Valid() && !stopped
      modifies Repr, toMaster, console
      decreases Repr, 2
      ensures Valid() && !stopped && Repr == old(Repr) && Subtree == old(Subtree)
      ensures fromParent.buf == old(fromParent.buf)
      ensures toParent.buf == old(toParent.buf) + [MW_ANSWER_SUM, SearchTree.Sum(Subtree)]
      ensures toMaster.buf == old(toMaster.buf) && console.lines == old(console.lines)
    {
      var sumLocal := elt * cardinality;
      if left != null {
        var sumLeft := AskSum(left);
        sumLocal := sumLocal + sumLeft;
      }
      SumRight(sumLocal);
    }

    /** The second half of SUM: add the right child's sum to s and answer the parent. */
    method SumRight(s: int)
      requires Valid() && !stopped
      modifies Repr, toMaster, console
      decreases Repr, 1
      ensures Valid() && !stopped && Repr == old(Repr) && Subtree == old(Subtree)
      ensures fromParent.buf == old(fromParent.buf)
      ensures toParent.buf == old(toParent.buf) + [MW_ANSWER_SUM, s + SearchTree.Sum(Subtree.right)]
      ensures toMaster.buf == old(toMaster.buf) && console.lines == old(console.lines)
    {
      var sumLocal := s;
      if right != null {
        var sumRight := AskSum(right);
        sumLocal := sumLocal + sumRight;
      }
      toParent.Send([MW_ANSWER_SUM, sumLocal]);
    }

    /**
     * INSERT: an equal element bumps the cardinality and acknowledges to the
     * master; otherwise the element goes to the child on its side, created
     * on the spot (it then acknowledges itself) when missing.
     */
    method InsertAction()
      requires Valid() && !stopped && fromParent.buf != []
      modifies Repr, toMaster, console
      decreases Repr, 2
      ensures Valid() && !stopped && old(Repr) <= Repr && fresh(Repr - old(Repr))
      ensures fromParent.buf == old(fromParent.buf)[1..] && toParent.buf == old(toParent.buf)
      ensures Subtree == SearchTree.Insert(old(Subtree), old(fromParent.buf)[0])
      ensures toMaster.buf == old(toMaster.buf) + [MW_ANSWER_INSERT]
      ensures console.lines == old(console.lines)
    {
      var elementToInsert := fromParent.Read();
      if elementToInsert == elt {
        cardinality := cardinality + 1;
        Subtree := Node(Subtree.left, elt, cardinality, Subtree.right);
        toMaster.Write(MW_ANSWER_INSERT);
      } else if elementToInsert < elt {
        if left == null {
          AddLeft(elementToInsert);
        } else {
          InsertLeft(elementToInsert);
        }
      } else if right == null {
        AddRight(elementToInsert);
      } else {
        InsertRight(elementToInsert);
      }
    }

    /** INSERT of an element below this worker's: forwarded to the left child. */
    method InsertLeft(v: int)
      requires Valid() && !stopped && v < elt && left != null
      modifies Repr, toMaster, console
      decreases Repr, 1
      ensures Valid() && !stopped && old(Repr) <= Repr && fresh(Repr - old(Repr))
      ensures fromParent.buf == old(fromParent.buf) && toParent.buf == old(toParent.buf)
      ensures Subtree == SearchTree.Insert(old(Subtree), v)
      ensures toMaster.buf == old(toMaster.buf) + [MW_ANSWER_INSERT]
      ensures console.lines == old(console.lines)
    {
      AskInsert(left, v);
      assert right != null ==> right.Valid() && left.Repr !! right.Repr;
      Repr, Subtree := Repr + left.Repr, Node(left.Subtree, elt, cardinality, Subtree.right);
    }

    /** INSERT of an element below this worker's, with no left child: a new left child holding it. */
    method AddLeft(v: int)
      requires Valid() && !stopped && v < elt && left == null
      modifies Repr, toMaster, console
      ensures Valid() && !stopped && old(Repr) <= Repr && fresh(Repr - old(Repr))
      ensures fromParent.buf == old(fromParent.buf) && toParent.buf == old(toParent.buf)
      ensures Subtree == SearchTree.Insert(old(Subtree), v)
      ensures toMaster.buf == old(toMaster.buf) + [MW_ANSWER_INSERT]
      ensures console.lines == old(console.lines)
    {
      left := Spawn(v, toMaster, console);
      Repr, Subtree := Repr + left.Repr, Node(left.Subtree, elt, cardinality, Subtree.right);
    }

    /** INSERT of an element above this worker's: forwarded to the right child. */
    method InsertRight(v: int)
      requires Valid() && !stopped && elt < v && right != null
      modifies Repr, toMaster, console
      decreases Repr, 1
      ensures Valid() && !stopped && old(Repr) <= Repr && fresh(Repr - old(Repr))
      ensures fromParent.buf == old(fromParent.buf) && toParent.buf == old(toParent.buf)
      ensures Subtree == SearchTree.Insert(old(Subtree), v)
      ensures toMaster.buf == old(toMaster.buf) + [MW_ANSWER_INSERT]
      ensures console.lines == old(console.lines)
    {
      AskInsert(right, v);
      assert left != null ==> left.Valid() && left.Repr !! right.Repr;
      Repr, Subtree := Repr + right.Repr, Node(Subtree.left, elt, cardinality, right.Subtree);
    }

    /** INSERT of an element above this worker's, with no right child: a new right child holding it. */
    method AddRight(v: int)
      requires Valid() && !stopped && elt < v && right == null
      modifies Repr, toMaster, console
      ensures Valid() && !stopped && old(Repr) <= Repr && fresh(Repr - old(Repr))
      ensures fromParent.buf == old(fromParent.buf) && toParent.buf == old(toParent.buf)
      ensures Subtree == SearchTree.Insert(old(Subtree), v)
      ensures toMaster.buf == old(toMaster.buf) + [MW_ANSWER_INSERT]
      ensures console.lines == old(console.lines)
    {
      right := Spawn(v, toMaster, console);
      Repr, Subtree := Repr + right.Repr, Node(Subtree.left, elt, cardinality, right.Subtree);
    }

    /**
     * PRINT: the left subtree prints, then this worker prints its element and
     * cardinality, then the right subtree prints; then one acknowledgement
     * goes up to the parent.
     */
    method PrintAction()
      requires Valid() && !stopped
      modifies Repr, toMaster, console
      decreases Repr, 2
      ensures Valid() && !stopped && Repr == old(Repr) && Subtree == old(Subtree)
      ensures fromParent.buf == old(fromParent.buf)
      ensures console.lines == old(console.lines) + Listing(Subtree)
      ensures toParent.buf == old(toParent.buf) + [MW_ANSWER_PRINT]
      ensures toMaster.buf == old(toMaster.buf)
    {
      if left != null {
        AskPrint(left);
      }
      PrintRight();
    }

    /** The second half of PRINT: this worker prints, the right subtree prints, then the acknowledgement goes up. */
    method PrintRight()
      requires Valid() && !stopped
      modifies Repr, toMaster, console
      decreases Repr, 1
      ensures Valid() && !stopped && Repr == old(Repr) && Subtree == old(Subtree)
      ensures fromParent.buf == old(fromParent.buf)
      ensures console.lines == old(console.lines) + [(elt, cardinality)] + Listing(Subtree.right)
      ensures toParent.buf == old(toParent.buf) + [MW_ANSWER_PRINT]
      ensures toMaster.buf == old(toMaster.buf)
    {
      console.Emit(elt, cardinality);
      if right != null {
        AskPrint(right);
      }
      toParent.Write(MW_ANSWER_PRINT);
    }

    /**
     * The worker's loop: serve the orders waiting in the input pipe until
     * STOP, an unknown order, or an empty pipe.
     */
    method Loop() returns (status: Status)
      requires Valid() && !stopped && Complete(fromParent.buf)
      modifies Repr, toMaster, console
      ensures Valid() && old(Repr) <= Repr && fresh(Repr - old(Repr))
      ensures var o := Run(old(Subtree), old(fromParent.buf));
        && Subtree == o.tree && status == o.status
        && toMaster.buf == old(toMaster.buf) + o.fanIn
        && toParent.buf == old(toParent.buf) + o.up
        && console.lines == old(console.lines) + o.printed
        && stopped == (o.status == End)
      ensures status == End ==> AllStopped()
      ensures status == Continue ==> fromParent.buf == []
    {
      ghost var goal := Resume(Subtree, fromParent.buf, toMaster.buf, toParent.buf, console.lines);
      ResumePrefix(Subtree, fromParent.buf, toMaster.buf, toParent.buf, console.lines);
      status := Continue;
      while status == Continue && fromParent.buf != []
        invariant Valid() && old(Repr) <= Repr && fresh(Repr - old(Repr))
        invariant Complete(fromParent.buf)
        invariant stopped == (status == End)
        invariant status == End ==> AllStopped()
        invariant status == Continue ==> goal == Resume(Subtree, fromParent.buf, toMaster.buf, toParent.buf, console.lines)
        invariant status != Continue ==> goal == Outcome(Subtree, toMaster.buf, toParent.buf, console.lines, status)
        decreases |fromParent.buf|, if status == Continue then 1 else 0
      {
        status := Serve();
      }
    }
  }

  /**
   * A parent hands one order to a child: the order goes down the child's
   * input pipe and the child serves it.  What the child sends up stays in
   * the child's output pipe, for the parent to read.
   */
  method Forward(child: Worker, order: seq<int>)
    requires child.Valid() && !child.stopped
    requires child.fromParent.buf == [] && child.toParent.buf == []
    requires |order| >= 1 && |order| == MessageLength(order[0])
    modifies child.Repr, child.toMaster, child.console
    decreases child.Repr, 4
    ensures child.Valid() && old(child.Repr) <= child.Repr && fresh(child.Repr - old(child.Repr))
    ensures order[0] != MW_ORDER_INSERT ==> child.Repr == old(child.Repr)
    ensures child.fromParent.buf == []
    ensures var r := Step(old(child.Subtree), order);
      && child.Subtree == r.tree && child.toParent.buf == r.up
      && child.stopped == (r.status == End)
      && child.toMaster.buf == old(child.toMaster.buf) + r.fanIn
      && child.console.lines == old(child.console.lines) + r.printed
    ensures order[0] == MW_ORDER_STOP ==> child.AllStopped()
  {
    child.fromParent.Send(order);
    var _ := child.Serve();
  }

  /**
   * HOW_MANY sent to a child, and the child's answer read back: the
   * acknowledgement, then the child's total and distinct counts.
   */
  method AskHowMany(child: Worker) returns (n: int, d: int)
    requires child.Valid() && !child.stopped
    requires child.fromParent.buf == [] && child.toParent.buf == []
    modifies child.Repr, child.toMaster, child.console
    decreases child.Repr, 5
    ensures child.Valid() && child.Repr == old(child.Repr) && !child.stopped
    ensures child.Subtree == old(child.Subtree)
    ensures child.fromParent.buf == [] && child.toParent.buf == []
    ensures child.toMaster.buf == old(child.toMaster.buf) && child.console.lines == old(child.console.lines)
    ensures n == Total(child.Subtree) && d == Distinct(child.Subtree)
  {
    Forward(child, [MW_ORDER_HOW_MANY]);
    var answer := child.toParent.Receive(3);
    assert answer[0] == MW_ANSWER_HOW_MANY;
    n, d := answer[1], answer[2];
  }

  /** INSERT sent to a child: the child's subtree gains v, and one acknowledgement reaches the master. */
  method AskInsert(child: Worker, v: int)
    requires child.Valid() && !child.stopped
    requires child.fromParent.buf == [] && child.toParent.buf == []
    modifies child.Repr, child.toMaster, child.console
    decreases child.Repr, 5
    ensures child.Valid() && old(child.Repr) <= child.Repr && fresh(child.Repr - old(child.Repr)) && !child.stopped
    ensures child.Subtree == SearchTree.Insert(old(child.Subtree), v)
    ensures child.fromParent.buf == [] && child.toParent.buf == []
    ensures child.toMaster.buf == old(child.toMaster.buf) + [MW_ANSWER_INSERT]
    ensures child.console.lines == old(child.console.lines)
  {
    Forward(child, [MW_ORDER_INSERT, v]);
  }

  /** SUM sent to a child, and the child's answer read back: the acknowledgement, then its sum. */
  method AskSum(child: Worker) returns (s: int)
    requires child.Valid() && !child.stopped
    requires child.fromParent.buf == [] && child.toParent.buf == []
    modifies child.Repr, child.toMaster, child.console
    decreases child.Repr, 5
    ensures child.Valid() && child.Repr == old(child.Repr) && !child.stopped
    ensures child.Subtree == old(child.Subtree)
    ensures child.fromParent.buf == [] && child.toParent.buf == []
    ensures child.toMaster.buf == old(child.toMaster.buf) && child.console.lines == old(child.console.lines)
    ensures s == SearchTree.Sum(child.Subtree)
  {
    Forward(child, [MW_ORDER_SUM]);
    var answer := child.toParent.Receive(2);
    assert answer[0] == MW_ANSWER_SUM;
    s := answer[1];
  }

  /** PRINT sent to a child: its subtree prints, and its acknowledgement is read back. */
  method AskPrint(child: Worker)
    requires child.Valid() && !child.stopped
    requires child.fromParent.buf == [] && child.toParent.buf == []
    modifies child.Repr, child.toMaster, child.console
    decreases child.Repr, 5
    ensures child.Valid() && child.Repr == old(child.Repr) && !child.stopped
    ensures child.Subtree == old(child.Subtree)
    ensures child.fromParent.buf == [] && child.toParent.buf == []
    ensures child.toMaster.buf == old(child.toMaster.buf)
    ensures child.console.lines == old(child.console.lines) + Listing(child.Subtree)
  {
    Forward(child, [MW_ORDER_PRINT]);
    var ack := child.toParent.Read();
    assert ack == MW_ANSWER_PRINT;
  }

  /**
   * A new child process holding v (createWorker): two fresh pipes to its
   * parent, the shared pipe to the master and the console.
   */
  method Spawn(v: int, toMaster: Pipe, console: Console) returns (w: Worker)
    modifies toMaster
    ensures w.Valid() && fresh(w.Repr) && !w.stopped
    ensures w.Subtree == Node(Leaf, v, 1, Leaf)
    ensures w.fromParent.buf == [] && w.toParent.buf == []
    ensures w.toMaster == toMaster && w.console == console
    ensures toMaster.buf == old(toMaster.buf) + [MW_ANSWER_INSERT]
  {
    var down := new Pipe();
    var up := new Pipe();
    w := new Worker(v, down, up, toMaster, console);
  }
}
