/**
 * The abstract value held by a tree of workers: a binary search tree whose
 * nodes carry an element and its cardinality (the number of times it was
 * inserted).  Every worker process owns exactly one node; this module states,
 * on plain values, what the workers compute together, and proves it.
 */
module SearchTree {

  datatype Tree = Leaf | Node(left: Tree, elt: int, card: nat, right: Tree)

  /** One line of the sorted listing printed by PRINT: an element and its cardinality. */
  type Entry = (int, nat)

  datatype Option<T> = None | Some(value: T)

  // ---------------------------------------------------------------------
  // Reference definitions (independent of the search order)
  // ---------------------------------------------------------------------

  /** How many copies of x the tree holds, counted over every node. */
  function Count(t: Tree, x: int): nat
  {
    match t
    case Leaf => 0
    case Node(l, e, c, r) => Count(l, x) + (if e == x then c else 0) + Count(r, x)
  }

  /** Every element stored in t is strictly below b. */
  predicate AllBelow(t: Tree, b: int)
  {
    match t
    case Leaf => true
    case Node(l, e, _, r) => e < b && AllBelow(l, b) && AllBelow(r, b)
  }

  /** Every element stored in t is strictly above b. */
  predicate AllAbove(t: Tree, b: int)
  {
    match t
    case Leaf => true
    case Node(l, e, _, r) => e > b && AllAbove(l, b) && AllAbove(r, b)
  }

  /** Strict BST order: left values < element < right values, at every node. */
  predicate Ordered(t: Tree)
  {
    match t
    case Leaf => true
    case Node(l, e, _, r) => AllBelow(l, e) && AllAbove(r, e) && Ordered(l) && Ordered(r)
  }

  /** Every node has cardinality at least one. */
  predicate Positive(t: Tree)
  {
    match t
    case Leaf => true
    case Node(l, _, c, r) => c >= 1 && Positive(l) && Positive(r)
  }

  // ---------------------------------------------------------------------
  // What the workers compute
  // ---------------------------------------------------------------------

  /**
   * INSERT: an equal element bumps the cardinality; a smaller (larger) one
   * goes left (right), and a missing child becomes a new node of cardinality 1.
   */
  function Insert(t: Tree, v: int): Tree
  {
    match t
    case Leaf => Node(Leaf, v, 1, Leaf)
    case Node(l, e, c, r) =>
      if v == e then Node(l, e, c + 1, r)
      else if v < e then Node(Insert(l, v), e, c, r)
      else Node(l, e, c, Insert(r, v))
  }

  /** Inserts the values of s one after the other, in order. */
  function InsertAll(t: Tree, s: seq<int>): Tree
    decreases |s|
  {
    if s == [] then t else InsertAll(Insert(t, s[0]), s[1..])
  }

  /** EXIST: the cardinality of the node holding v, found by descent; None at a missing child. */
  function Find(t: Tree, v: int): Option<nat>
  {
    match t
    case Leaf => None
    case Node(l, e, c, r) =>
      if v == e then Some(c)
      else if v < e then Find(l, v)
      else Find(r, v)
  }

  /** MINIMUM: the element of the node reached by always going left. */
  function Minimum(t: Tree): int
    requires t.Node?
  {
    if t.left == Leaf then t.elt else Minimum(t.left)
  }

  /** MAXIMUM: the element of the node reached by always going right. */
  function Maximum(t: Tree): int
    requires t.Node?
  {
    if t.right == Leaf then t.elt else Maximum(t.right)
  }

  /** HOW_MANY, first result: local cardinality plus the children's totals. */
  function Total(t: Tree): nat
  {
    match t
    case Leaf => 0
    case Node(l, _, c, r) => Total(l) + c + Total(r)
  }

  /** HOW_MANY, second result: one per node plus the children's counts. */
  function Distinct(t: Tree): nat
  {
    match t
    case Leaf => 0
    case Node(l, _, _, r) => Distinct(l) + 1 + Distinct(r)
  }

  /** SUM: element times cardinality plus the children's sums. */
  function Sum(t: Tree): int
  {
    match t
    case Leaf => 0
    case Node(l, e, c, r) => Sum(l) + e * c + Sum(r)
  }

  /** PRINT: left subtree, then this node's (element, cardinality), then right subtree. */
  function Listing(t: Tree): seq<Entry>
  {
    match t
    case Leaf => []
    case Node(l, e, c, r) => Listing(l) + [(e, c)] + Listing(r)
  }

  // ---------------------------------------------------------------------
  // Sums over a listing, and the order of a listing
  // ---------------------------------------------------------------------

  function CardSum(s: seq<Entry>): int
  {
    if s == [] then 0 else s[0].1 + CardSum(s[1..])
  }

  function WeightedSum(s: seq<Entry>): int
  {
    if s == [] then 0 else s[0].0 * s[0].1 + WeightedSum(s[1..])
  }

  function SeqSum(s: seq<int>): int
  {
    if s == [] then 0 else s[0] + SeqSum(s[1..])
  }

  predicate Ascending(s: seq<Entry>)
  {
    forall i, j :: 0 <= i < j < |s| ==> s[i].0 < s[j].0
  }

  // ---------------------------------------------------------------------
  // Insert
  // ---------------------------------------------------------------------

  /** Inserting v adds exactly one copy of v and leaves every other count alone. */
  lemma {:induction false} InsertCount(t: Tree, v: int, x: int)
    ensures Count(Insert(t, v), x) == Count(t, x) + (if x == v then 1 else 0)
  {
    match t
    case Leaf =>
    case Node(l, e, c, r) =>
      if v == e {
      } else if v < e {
        InsertCount(l, v, x);
      } else {
        InsertCount(r, v, x);
      }
  }

  lemma {:induction false} InsertBelow(t: Tree, v: int, b: int)
    requires AllBelow(t, b) && v < b
    ensures AllBelow(Insert(t, v), b)
  {
    match t
    case Leaf =>
    case Node(l, e, c, r) =>
      if v == e {
      } else if v < e {
        InsertBelow(l, v, b);
      } else {
        InsertBelow(r, v, b);
      }
  }

  lemma {:induction false} InsertAbove(t: Tree, v: int, b: int)
    requires AllAbove(t, b) && v > b
    ensures AllAbove(Insert(t, v), b)
  {
    match t
    case Leaf =>
    case Node(l, e, c, r) =>
      if v == e {
      } else if v < e {
        InsertAbove(l, v, b);
      } else {
        InsertAbove(r, v, b);
      }
  }

  /** Insert keeps strict BST order, hence never creates two nodes with equal values. */
  lemma {:induction false} InsertOrdered(t: Tree, v: int)
    requires Ordered(t)
    ensures Ordered(Insert(t, v))
  {
    match t
    case Leaf =>
    case Node(l, e, c, r) =>
      if v == e {
      } else if v < e {
        InsertOrdered(l, v);
        InsertBelow(l, v, e);
      } else {
        InsertOrdered(r, v);
        InsertAbove(r, v, e);
      }
  }

  lemma {:induction false} InsertPositive(t: Tree, v: int)
    requires Positive(t)
    ensures Positive(Insert(t, v))
  {
    match t
    case Leaf =>
    case Node(l, e, c, r) =>
      if v == e {
      } else if v < e {
        InsertPositive(l, v);
      } else {
        InsertPositive(r, v);
      }
  }

  /**
   * Insert creates a node exactly when the element is new, and then exactly
   * one, holding the element with cardinality 1; otherwise it bumps the
   * cardinality of the node holding the element.
   */
  lemma {:induction false} InsertNodes(t: Tree, v: int)
    ensures Find(t, v).None? ==> Distinct(Insert(t, v)) == Distinct(t) + 1
    ensures Find(t, v).Some? ==> Distinct(Insert(t, v)) == Distinct(t)
    ensures Find(Insert(t, v), v) == Some(if Find(t, v).Some? then Find(t, v).value + 1 else 1)
  {
    match t
    case Leaf =>
    case Node(l, e, c, r) =>
      if v == e {
      } else if v < e {
        InsertNodes(l, v);
      } else {
        InsertNodes(r, v);
      }
  }

  /** Insert changes the total and the sum by exactly the one inserted copy. */
  lemma {:induction false} InsertAggregates(t: Tree, v: int)
    ensures Total(Insert(t, v)) == Total(t) + 1
    ensures Sum(Insert(t, v)) == Sum(t) + v
  {
    match t
    case Leaf =>
    case Node(l, e, c, r) =>
      if v == e {
      } else if v < e {
        InsertAggregates(l, v);
      } else {
        InsertAggregates(r, v);
      }
  }

  // ---------------------------------------------------------------------
  // Exist
  // ---------------------------------------------------------------------

  lemma {:induction false} BelowCount(t: Tree, b: int, x: int)
    requires AllBelow(t, b) && x >= b
    ensures Count(t, x) == 0
  {
    match t
    case Leaf =>
    case Node(l, e, c, r) =>
      BelowCount(l, b, x);
      BelowCount(r, b, x);
  }

  lemma {:induction false} AboveCount(t: Tree, b: int, x: int)
    requires AllAbove(t, b) && x <= b
    ensures Count(t, x) == 0
  {
    match t
    case Leaf =>
    case Node(l, e, c, r) =>
      AboveCount(l, b, x);
      AboveCount(r, b, x);
  }

  /**
   * On an ordered tree the descent of EXIST finds exactly the count of the
   * whole tree: EXIST_YES with c iff v is held c >= 1 times, EXIST_NO iff it is absent.
   */
  lemma {:induction false} FindCount(t: Tree, v: int)
    requires Ordered(t) && Positive(t)
    ensures Find(t, v).Some? <==> Count(t, v) > 0
    ensures Find(t, v).Some? ==> Find(t, v).value == Count(t, v)
  {
    match t
    case Leaf =>
    case Node(l, e, c, r) =>
      if v == e {
        BelowCount(l, e, v);
        AboveCount(r, e, v);
      } else if v < e {
        FindCount(l, v);
        AboveCount(r, e, v);
      } else {
        FindCount(r, v);
        BelowCount(l, e, v);
      }
  }

  // ---------------------------------------------------------------------
  // Minimum and maximum
  // ---------------------------------------------------------------------

  lemma {:induction false} BelowBound(t: Tree, b: int, x: int)
    requires AllBelow(t, b) && Count(t, x) > 0
    ensures x < b
  {
    match t
    case Leaf =>
    case Node(l, e, c, r) =>
      if Count(l, x) > 0 {
        BelowBound(l, b, x);
      } else if Count(r, x) > 0 {
        BelowBound(r, b, x);
      }
  }

  lemma {:induction false} AboveBound(t: Tree, b: int, x: int)
    requires AllAbove(t, b) && Count(t, x) > 0
    ensures x > b
  {
    match t
    case Leaf =>
    case Node(l, e, c, r) =>
      if Count(l, x) > 0 {
        AboveBound(l, b, x);
      } else if Count(r, x) > 0 {
        AboveBound(r, b, x);
      }
  }

  /** The element reported by MINIMUM is held by the tree and no held element is smaller. */
  lemma {:induction false} MinimumLeast(t: Tree, x: int)
    requires t.Node? && Ordered(t) && Positive(t)
    ensures Count(t, Minimum(t)) > 0
    ensures Count(t, x) > 0 ==> Minimum(t) <= x
  {
    var Node(l, e, c, r) := t;
    assert Count(t, x) == Count(l, x) + (if e == x then c else 0) + Count(r, x);
    if l == Leaf {
      AboveCount(r, e, e);
      if Count(t, x) > 0 && x != e {
        AboveBound(r, e, x);
      }
    } else {
      MinimumLeast(l, x);
      BelowBound(l, e, Minimum(l));
      if Count(t, x) > 0 && Count(l, x) == 0 {
        if x != e {
          AboveBound(r, e, x);
        }
      }
    }
  }

  /** The element reported by MAXIMUM is held by the tree and no held element is larger. */
  lemma {:induction false} MaximumGreatest(t: Tree, x: int)
    requires t.Node? && Ordered(t) && Positive(t)
    ensures Count(t, Maximum(t)) > 0
    ensures Count(t, x) > 0 ==> x <= Maximum(t)
  {
    var Node(l, e, c, r) := t;
    assert Count(t, x) == Count(l, x) + (if e == x then c else 0) + Count(r, x);
    if r == Leaf {
      BelowCount(l, e, e);
      if Count(t, x) > 0 && x != e {
        BelowBound(l, e, x);
      }
    } else {
      MaximumGreatest(r, x);
      AboveBound(r, e, Maximum(r));
      if Count(t, x) > 0 && Count(r, x) == 0 {
        if x != e {
          BelowBound(l, e, x);
        }
      }
    }
  }

  // ---------------------------------------------------------------------
  // Print
  // ---------------------------------------------------------------------

  lemma {:induction false} ListingBelow(t: Tree, b: int)
    requires AllBelow(t, b)
    ensures forall i :: 0 <= i < |Listing(t)| ==> Listing(t)[i].0 < b
  {
    match t
    case Leaf =>
    case Node(l, e, c, r) =>
      ListingBelow(l, b);
      ListingBelow(r, b);
  }

  lemma {:induction false} ListingAbove(t: Tree, b: int)
    requires AllAbove(t, b)
    ensures forall i :: 0 <= i < |Listing(t)| ==> Listing(t)[i].0 > b
  {
    match t
    case Leaf =>
    case Node(l, e, c, r) =>
      ListingAbove(l, b);
      ListingAbove(r, b);
  }

  /** Under BST order the printed elements are strictly ascending. */
  lemma {:induction false} ListingAscending(t: Tree)
    requires Ordered(t)
    ensures Ascending(Listing(t))
  {
    match t
    case Leaf =>
    case Node(l, e, c, r) =>
      ListingAscending(l);
      ListingAscending(r);
      ListingBelow(l, e);
      ListingAbove(r, e);
      var s := Listing(t);
      var nl := |Listing(l)|;
      forall i, j | 0 <= i < j < |s|
        ensures s[i].0 < s[j].0
      {
        if j < nl {
          assert s[i] == Listing(l)[i] && s[j] == Listing(l)[j];
        } else if i > nl {
          assert s[i] == Listing(r)[i - nl - 1] && s[j] == Listing(r)[j - nl - 1];
        } else if i == nl {
          assert s[j] == Listing(r)[j - nl - 1];
        } else if j == nl {
          assert s[i] == Listing(l)[i];
        } else {
          assert s[i] == Listing(l)[i] && s[j] == Listing(r)[j - nl - 1];
        }
      }
  }

  /**
   * The listing holds exactly the held elements, each once, with its count:
   * (x, c) is printed iff x is held c >= 1 times.
   */
  lemma {:induction false} ListingCounts(t: Tree, x: int, c: nat)
    requires Ordered(t) && Positive(t)
    ensures (x, c) in Listing(t) <==> c == Count(t, x) && c > 0
  {
    match t
    case Leaf =>
    case Node(l, e, k, r) =>
      ListingCounts(l, x, c);
      ListingCounts(r, x, c);
      if x < e {
        AboveCount(r, e, x);
        ListingAbove(r, e);
      } else if x > e {
        BelowCount(l, e, x);
        ListingBelow(l, e);
      } else {
        BelowCount(l, e, x);
        AboveCount(r, e, x);
        ListingBelow(l, e);
        ListingAbove(r, e);
      }
  }

  lemma {:induction false} CardSumAppend(a: seq<Entry>, b: seq<Entry>)
    ensures CardSum(a + b) == CardSum(a) + CardSum(b)
    ensures WeightedSum(a + b) == WeightedSum(a) + WeightedSum(b)
  {
    if a == [] {
      assert a + b == b;
    } else {
      assert (a + b)[1..] == a[1..] + b;
      CardSumAppend(a[1..], b);
    }
  }

  /**
   * The aggregates gathered up the parent chain agree with the printed
   * listing: HOW_MANY = (sum of cardinalities, number of entries) and
   * SUM = sum of element times cardinality.
   */
  lemma {:induction false} AggregatesMatchListing(t: Tree)
    ensures Total(t) == CardSum(Listing(t))
    ensures Distinct(t) == |Listing(t)|
    ensures Sum(t) == WeightedSum(Listing(t))
  {
    match t
    case Leaf =>
    case Node(l, e, c, r) =>
      AggregatesMatchListing(l);
      AggregatesMatchListing(r);
      CardSumAppend(Listing(l), [(e, c)]);
      CardSumAppend(Listing(l) + [(e, c)], Listing(r));
  }

  // ---------------------------------------------------------------------
  // Sequences of inserts
  // ---------------------------------------------------------------------

  lemma {:induction false} InsertAllCount(t: Tree, s: seq<int>, x: int)
    ensures Count(InsertAll(t, s), x) == Count(t, x) + multiset(s)[x]
    decreases |s|
  {
    if s != [] {
      InsertCount(t, s[0], x);
      InsertAllCount(Insert(t, s[0]), s[1..], x);
      assert s == [s[0]] + s[1..];
    }
  }

  /** Inserting one more value after a batch is inserting it into the batch's result. */
  lemma {:induction false} InsertAllSnoc(t: Tree, s: seq<int>, v: int)
    ensures InsertAll(t, s + [v]) == Insert(InsertAll(t, s), v)
    decreases |s|
  {
    if s == [] {
      assert s + [v] == [v];
    } else {
      assert (s + [v])[1..] == s[1..] + [v];
      InsertAllSnoc(Insert(t, s[0]), s[1..], v);
    }
  }

  lemma {:induction false} InsertAllInvariants(t: Tree, s: seq<int>)
    requires Ordered(t) && Positive(t)
    ensures Ordered(InsertAll(t, s)) && Positive(InsertAll(t, s))
    decreases |s|
  {
    if s != [] {
      InsertOrdered(t, s[0]);
      InsertPositive(t, s[0]);
      InsertAllInvariants(Insert(t, s[0]), s[1..]);
    }
  }

  lemma {:induction false} InsertAllAggregates(t: Tree, s: seq<int>)
    ensures Total(InsertAll(t, s)) == Total(t) + |s|
    ensures Sum(InsertAll(t, s)) == Sum(t) + SeqSum(s)
    decreases |s|
  {
    if s != [] {
      InsertAggregates(t, s[0]);
      InsertAllAggregates(Insert(t, s[0]), s[1..]);
    }
  }

  /** After inserting N pairwise distinct new values, the tree has N more nodes. */
  lemma {:induction false} InsertAllDistinct(t: Tree, s: seq<int>)
    requires Ordered(t) && Positive(t)
    requires forall i, j :: 0 <= i < j < |s| ==> s[i] != s[j]
    requires forall i :: 0 <= i < |s| ==> Count(t, s[i]) == 0
    ensures Distinct(InsertAll(t, s)) == Distinct(t) + |s|
    decreases |s|
  {
    if s != [] {
      var v := s[0];
      FindCount(t, v);
      InsertNodes(t, v);
      InsertOrdered(t, v);
      InsertPositive(t, v);
      forall i | 0 <= i < |s[1..]|
        ensures Count(Insert(t, v), s[1..][i]) == 0
      {
        InsertCount(t, v, s[1..][i]);
        assert s[1..][i] == s[i + 1];
      }
      InsertAllDistinct(Insert(t, v), s[1..]);
    }
  }

  lemma {:induction false} AscendingTail(s: seq<Entry>)
    requires Ascending(s) && s != []
    ensures Ascending(s[1..])
    ensures forall e :: e in s[1..] ==> s[0].0 < e.0
  {
    forall e | e in s[1..]
      ensures s[0].0 < e.0
    {
      var i :| 0 <= i < |s[1..]| && s[1..][i] == e;
      assert s[i + 1] == e;
    }
  }

  lemma FirstIsMember(s: seq<Entry>)
    ensures s != [] ==> s[0] in s
  {
  }

  /** Two strictly ascending listings with the same entries start with the same entry. */
  lemma {:induction false} AscendingHeads(a: seq<Entry>, b: seq<Entry>)
    requires Ascending(a) && Ascending(b) && a != [] && b != []
    requires forall e :: e in a <==> e in b
    ensures a[0] == b[0]
  {
    AscendingTail(a);
    AscendingTail(b);
    FirstIsMember(a);
    FirstIsMember(b);
    assert a == [a[0]] + a[1..];
    assert b == [b[0]] + b[1..];
  }

  /** ... and, that entry removed, the rest have the same entries. */
  lemma {:induction false} AscendingTails(a: seq<Entry>, b: seq<Entry>)
    requires Ascending(a) && Ascending(b) && a != [] && b != [] && a[0] == b[0]
    requires forall e :: e in a <==> e in b
    ensures forall e :: e in a[1..] <==> e in b[1..]
  {
    AscendingTail(a);
    AscendingTail(b);
    assert a == [a[0]] + a[1..];
    assert b == [b[0]] + b[1..];
    forall e
      ensures e in a[1..] <==> e in b[1..]
    {
      if e in a[1..] {
        assert e in b && e != b[0];
      }
      if e in b[1..] {
        assert e in a && e != a[0];
      }
    }
  }

  /** Two strictly ascending listings with the same entries are the same listing. */
  lemma {:induction false} AscendingUnique(a: seq<Entry>, b: seq<Entry>)
    requires Ascending(a) && Ascending(b)
    requires forall e :: e in a <==> e in b
    ensures a == b
    decreases |a|
  {
    FirstIsMember(a);
    FirstIsMember(b);
    if a != [] {
      AscendingHeads(a, b);
      AscendingTails(a, b);
      AscendingTail(a);
      AscendingTail(b);
      AscendingUnique(a[1..], b[1..]);
      assert a == [a[0]] + a[1..];
      assert b == [b[0]] + b[1..];
    }
  }

  /**
   * The final set of (value, cardinality) pairs does not depend on the
   * insertion order: two orderings of the same multiset of inserted values
   * print the same listing and count every value alike.
   */
  lemma OrderIndependent(s1: seq<int>, s2: seq<int>)
    requires multiset(s1) == multiset(s2)
    ensures forall x :: Count(InsertAll(Leaf, s1), x) == Count(InsertAll(Leaf, s2), x)
    ensures Listing(InsertAll(Leaf, s1)) == Listing(InsertAll(Leaf, s2))
  {
    var t1, t2 := InsertAll(Leaf, s1), InsertAll(Leaf, s2);
    forall x
      ensures Count(t1, x) == Count(t2, x)
    {
      InsertAllCount(Leaf, s1, x);
      InsertAllCount(Leaf, s2, x);
    }
    InsertAllInvariants(Leaf, s1);
    InsertAllInvariants(Leaf, s2);
    ListingAscending(t1);
    ListingAscending(t2);
    forall e: Entry
      ensures e in Listing(t1) <==> e in Listing(t2)
    {
      ListingCounts(t1, e.0, e.1);
      ListingCounts(t2, e.0, e.1);
    }
    AscendingUnique(Listing(t1), Listing(t2));
  }
}
