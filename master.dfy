/**
 * The master: it owns the first worker (the root of the tree of workers),
 * serves the client's orders one per loop iteration, answers on its own when
 * the set is empty, creates the first worker on the first insertion, and
 * otherwise forwards each order to the first worker and relays the answer,
 * read from the first worker's own pipe (HOW_MANY, SUM, PRINT) or from the
 * pipe shared by all workers (MINIMUM, MAXIMUM, EXIST, INSERT).
 *
 * The first half states, on plain trees, what each client order does to the
 * set and what the client receives (Respond), and what a whole session of
 * orders does (Session); the second half is the master itself.
 */
module Masters {
  import opened SearchTree
  import opened Protocol
  import opened Channels
  import opened Workers

  // ---------------------------------------------------------------------
  // What one client order does, on plain trees
  // ---------------------------------------------------------------------

  /** The new set, the answer for the client, and what the workers printed. */
  datatype Response = Response(tree: Tree, answer: Answer, printed: seq<Entry>)

  /** The master's relay of a worker's EXIST verdict. */
  function ExistReply(found: Option<nat>): (a: Answer)
    ensures found.Some? <==> a.ExistYes?
    ensures a.ExistYes? ==> a.card == found.value
    ensures found.None? <==> a == ExistNo
  {
    match found
    case Some(c) => ExistYes(c)
    case None => ExistNo
  }

  /** One client order served on the set t (the empty tree when there is no first worker). */
  function Respond(t: Tree, req: Request): (r: Response)
    ensures WellFormed(r.answer) && !r.answer.Unrecognised? && !r.answer.InsertManyOk?
    ensures !(req.Insert? || req.InsertMany?) ==> r.tree == t
    ensures !req.Print? ==> r.printed == []
  {
    match req
    case Stop => Response(t, StopOk, [])
    case HowMany =>
      Response(t, if t == Leaf then HowManyOk(0, 0) else HowManyOk(Total(t), Distinct(t)), [])
    case Minimum =>
      Response(t, if t == Leaf then MinimumEmpty else MinimumOk(SearchTree.Minimum(t)), [])
    case Maximum =>
      Response(t, if t == Leaf then MaximumEmpty else MaximumOk(SearchTree.Maximum(t)), [])
    case Exist(v) =>
      Response(t, if t == Leaf then ExistNo else ExistReply(Find(t, v)), [])
    case Sum =>
      Response(t, if t == Leaf then SumOk(0) else SumOk(SearchTree.Sum(t)), [])
    case Insert(v) => Response(SearchTree.Insert(t, v), InsertOk, [])
    case InsertMany(vs) => Response(InsertAll(t, vs), InsertOk, [])
    case Print => Response(t, PrintOk, Listing(t))
  }

  /** The values an order adds to the set. */
  function Added(req: Request): (s: seq<int>)
    ensures !(req.Insert? || req.InsertMany?) ==> s == []
  {
    match req
    case Insert(v) => [v]
    case InsertMany(vs) => vs
    case _ => []
  }

  // ---------------------------------------------------------------------
  // What the orders mean
  // ---------------------------------------------------------------------

  /** A set whose every node holds its element at least once is empty exactly when nothing is held. */
  lemma {:induction false} EmptyIffNothingHeld(t: Tree)
    requires Positive(t)
    ensures t == Leaf <==> forall x :: Count(t, x) == 0
  {
    if t.Node? {
      assert Count(t, t.elt) >= t.card >= 1;
    }
  }

  /**
   * Every order keeps the set a positive search tree, and the set afterwards
   * holds exactly what it held plus the values the order inserts.
   */
  lemma {:induction false} RespondUpdates(t: Tree, req: Request, x: int)
    requires Ordered(t) && Positive(t)
    ensures var r := Respond(t, req);
      && Ordered(r.tree) && Positive(r.tree)
      && Count(r.tree, x) == Count(t, x) + multiset(Added(req))[x]
  {
    match req
    case Insert(v) =>
      InsertOrdered(t, v);
      InsertPositive(t, v);
      InsertCount(t, v, x);
    case InsertMany(vs) =>
      InsertAllInvariants(t, vs);
      InsertAllCount(t, vs, x);
    case _ =>
  }

  /** On an empty set the master answers alone: no count, no sum, no extremes, nothing found. */
  lemma RespondEmpty(v: int)
    ensures Respond(Leaf, Stop).answer == StopOk
    ensures Respond(Leaf, HowMany).answer == HowManyOk(0, 0)
    ensures Respond(Leaf, Sum).answer == SumOk(0)
    ensures Respond(Leaf, Minimum).answer == MinimumEmpty
    ensures Respond(Leaf, Maximum).answer == MaximumEmpty
    ensures Respond(Leaf, Exist(v)).answer == ExistNo
    ensures Respond(Leaf, Print) == Response(Leaf, PrintOk, [])
  {
  }

  /** HOW_MANY and SUM: the counts and the weighted sum of the held elements. */
  lemma {:induction false} RespondAggregates(t: Tree)
    requires Ordered(t) && Positive(t)
    ensures Respond(t, HowMany).answer == HowManyOk(CardSum(Listing(t)), |Listing(t)|)
    ensures Respond(t, Sum).answer == SumOk(WeightedSum(Listing(t)))
  {
    AggregatesMatchListing(t);
  }

  /** MINIMUM and MAXIMUM: empty exactly when nothing is held, otherwise the least and greatest held element. */
  lemma {:induction false} RespondExtremes(t: Tree)
    requires Ordered(t) && Positive(t)
    ensures var a := Respond(t, Minimum).answer;
      && (a == MinimumEmpty <==> forall x :: Count(t, x) == 0)
      && (a.MinimumOk? ==> Count(t, a.min) > 0 && forall x :: Count(t, x) > 0 ==> a.min <= x)
    ensures var a := Respond(t, Maximum).answer;
      && (a == MaximumEmpty <==> forall x :: Count(t, x) == 0)
      && (a.MaximumOk? ==> Count(t, a.max) > 0 && forall x :: Count(t, x) > 0 ==> x <= a.max)
  {
    EmptyIffNothingHeld(t);
    if t.Node? {
      forall x | Count(t, x) > 0
        ensures SearchTree.Minimum(t) <= x <= SearchTree.Maximum(t)
      {
        MinimumLeast(t, x);
        MaximumGreatest(t, x);
      }
      MinimumLeast(t, SearchTree.Minimum(t));
      MaximumGreatest(t, SearchTree.Maximum(t));
    }
  }

  /** EXIST: YES with the count exactly when the element is held, NO exactly when it is not. */
  lemma {:induction false} RespondExist(t: Tree, v: int)
    requires Ordered(t) && Positive(t)
    ensures var a := Respond(t, Exist(v)).answer;
      && (a == ExistYes(Count(t, v)) <==> Count(t, v) > 0)
      && (a == ExistNo <==> Count(t, v) == 0)
  {
    FindCount(t, v);
  }

  /** PRINT: the printed lines are strictly ascending and list exactly the held elements with their counts. */
  lemma {:induction false} RespondPrint(t: Tree)
    requires Ordered(t) && Positive(t)
    ensures var r := Respond(t, Print);
      && r.answer == PrintOk && Ascending(r.printed)
      && forall x, c :: (x, c) in r.printed <==> c == Count(t, x) && c > 0
  {
    ListingAscending(t);
    forall x, c: nat
      ensures (x, c) in Listing(t) <==> c == Count(t, x) && c > 0
    {
      ListingCounts(t, x, c);
    }
  }

  // ---------------------------------------------------------------------
  // A session: the orders of the client pipe, one per loop iteration
  // ---------------------------------------------------------------------

  /**
   * One iteration of the master's loop, on plain values: the new set, the
   * reply to the client, the printed lines, whether the loop goes on, and
   * the unread rest of the client pipe.
   */
  datatype Round = Round(tree: Tree, reply: seq<int>, printed: seq<Entry>, status: Status, rest: seq<int>)

  /**
   * The order at the front of the client pipe, read and served on the set t:
   * a known order is answered as Respond says and ends the loop exactly when
   * it is STOP; an unknown one aborts the master with no other effect.
   */
  function Turn(t: Tree, buf: seq<int>): (r: Round)
    requires buf != [] && !DecodeRequest(buf).Truncated?
    ensures |r.rest| < |buf|
    ensures r.status == Abort <==> DecodeRequest(buf).Unknown?
    ensures r.status == End <==> DecodeRequest(buf) == Parsed(Stop, 1)
    ensures r.status == Abort ==> r.tree == t && r.reply == [] && r.printed == [] && r.rest == buf[1..]
  {
    var p := DecodeRequest(buf);
    if p.Unknown? then Round(t, [], [], Abort, buf[1..])
    else
      var x := Respond(t, p.req);
      Round(x.tree, EncodeAnswer(x.answer), x.printed, if p.req.Stop? then End else Continue, buf[p.used..])
  }

  /** INSERT_MANY read with its count and elements: the set gains them all, and the client one INSERT_OK. */
  lemma TurnInsertMany(t: Tree, input: seq<int>)
    requires input != [] && (input[0] <= 0 || input[0] < |input|)
    ensures var n := if input[0] <= 0 then 0 else input[0];
      Turn(t, [CM_ORDER_INSERT_MANY] + input) ==
      Round(InsertAll(t, input[1..1 + n]), [CM_ANSWER_INSERT_OK], [], Continue, input[1 + n..])
  {
    var frame := [CM_ORDER_INSERT_MANY] + input;
    var n := if input[0] <= 0 then 0 else input[0];
    assert frame[2..2 + n] == input[1..1 + n] && frame[2 + n..] == input[1 + n..];
  }

  /** An order without operands, read from the front of the client pipe: the rest of the pipe is left as it was. */
  lemma TurnPlain(t: Tree, req: Request, input: seq<int>)
    requires req.Stop? || req.HowMany? || req.Minimum? || req.Maximum? || req.Sum? || req.Print?
    ensures var x := Respond(t, req);
      Turn(t, EncodeRequest(req) + input) ==
      Round(x.tree, EncodeAnswer(x.answer), x.printed, if req.Stop? then End else Continue, input)
  {
    var frame := EncodeRequest(req) + input;
    assert frame[1..] == input;
  }

  /** EXIST or INSERT with its element read from the front of the client pipe: the rest of the pipe follows. */
  lemma TurnOperand(t: Tree, req: Request, input: seq<int>)
    requires (req.Exist? || req.Insert?) && input != [] && input[0] == req.elt
    ensures var x := Respond(t, req);
      Turn(t, [EncodeRequest(req)[0]] + input) == Round(x.tree, EncodeAnswer(x.answer), [], Continue, input[1..])
  {
    var frame := [EncodeRequest(req)[0]] + input;
    assert frame[2..] == input[1..];
  }

  /** The client pipe holds whole orders, up to STOP or an unknown order. */
  predicate Framed(buf: seq<int>)
    decreases |buf|
  {
    buf == [] ||
    match DecodeRequest(buf)
    case Truncated => false
    case Unknown(_) => true
    case Parsed(req, used) => req.Stop? || Framed(buf[used..])
  }

  /** The set, everything sent to the client, everything printed, and how the loop ended. */
  datatype Transcript = Transcript(tree: Tree, replies: seq<int>, printed: seq<Entry>, status: Status)

  /**
   * The master's loop on the client pipe buf, after earlier orders sent
   * replies and printed printed: one order per iteration, until STOP, an
   * unknown order (the master aborts), or an empty pipe (it waits).
   */
  function Session(t: Tree, buf: seq<int>, replies: seq<int>, printed: seq<Entry>): (s: Transcript)
    requires Framed(buf)
    ensures |replies| <= |s.replies| && s.replies[..|replies|] == replies
    decreases |buf|
  {
    if buf == [] then Transcript(t, replies, printed, Continue)
    else
      var r := Turn(t, buf);
      assert (replies + r.reply)[..|replies|] == replies;
      if r.status != Continue then Transcript(r.tree, replies + r.reply, printed + r.printed, r.status)
      else Session(r.tree, r.rest, replies + r.reply, printed + r.printed)
  }

  /** The same loop, on orders rather than on the ints of the pipe. */
  function Replay(t: Tree, reqs: seq<Request>, replies: seq<int>, printed: seq<Entry>): (s: Transcript)
    ensures s.status != Abort
    ensures s.status == End <==> Request.Stop in reqs
    decreases |reqs|
  {
    if reqs == [] then Transcript(t, replies, printed, Continue)
    else
      var r := Respond(t, reqs[0]);
      if reqs[0].Stop? then Transcript(r.tree, replies + EncodeAnswer(r.answer), printed + r.printed, End)
      else
        assert reqs == [reqs[0]] + reqs[1..];
        Replay(r.tree, reqs[1..], replies + EncodeAnswer(r.answer), printed + r.printed)
  }

  /** The values inserted by the orders served, that is, up to the first STOP. */
  function Inserted(reqs: seq<Request>): (s: seq<int>)
    decreases |reqs|
  {
    if reqs == [] || reqs[0].Stop? then [] else Added(reqs[0]) + Inserted(reqs[1..])
  }

  /**
   * The pipe holding the frames of some orders is read back as exactly those
   * orders: the session on the ints is the session on the orders.
   */
  lemma {:induction false} SessionFrames(t: Tree, reqs: seq<Request>, replies: seq<int>, printed: seq<Entry>)
    ensures Framed(Frames(reqs))
    ensures Session(t, Frames(reqs), replies, printed) == Replay(t, reqs, replies, printed)
    decreases |reqs|
  {
    if reqs != [] {
      var m := EncodeRequest(reqs[0]);
      DecodeEncode(reqs[0], Frames(reqs[1..]));
      assert Frames(reqs)[|m|..] == Frames(reqs[1..]);
      var r := Respond(t, reqs[0]);
      SessionFrames(r.tree, reqs[1..], replies + EncodeAnswer(r.answer), printed + r.printed);
    }
  }

  /** Nothing after STOP is served. */
  lemma {:induction false} StopEndsReplay(t: Tree, before: seq<Request>, after: seq<Request>, replies: seq<int>, printed: seq<Entry>)
    ensures Replay(t, before + [Stop] + after, replies, printed) == Replay(t, before + [Stop], replies, printed)
    decreases |before|
  {
    if before == [] {
      assert ([Stop] + after)[0] == Stop;
    } else {
      var r := Respond(t, before[0]);
      assert (before + [Stop] + after)[1..] == before[1..] + [Stop] + after;
      assert (before + [Stop])[1..] == before[1..] + [Stop];
      if !before[0].Stop? {
        StopEndsReplay(r.tree, before[1..], after, replies + EncodeAnswer(r.answer), printed + r.printed);
      }
    }
  }

  /**
   * At the end of a session the set holds exactly what it held before plus
   * every value inserted by the orders served, and it is still a positive
   * search tree.
   */
  lemma {:induction false} ReplayCounts(t: Tree, reqs: seq<Request>, replies: seq<int>, printed: seq<Entry>, x: int)
    requires Ordered(t) && Positive(t)
    ensures var s := Replay(t, reqs, replies, printed);
      && Ordered(s.tree) && Positive(s.tree)
      && Count(s.tree, x) == Count(t, x) + multiset(Inserted(reqs))[x]
    decreases |reqs|
  {
    if reqs != [] {
      var r := Respond(t, reqs[0]);
      RespondUpdates(t, reqs[0], x);
      if !reqs[0].Stop? {
        ReplayCounts(r.tree, reqs[1..], replies + EncodeAnswer(r.answer), printed + r.printed, x);
      }
    }
  }

  // ---------------------------------------------------------------------
  // The master process
  // ---------------------------------------------------------------------

  class Master {
    /** The first worker; null exactly when firstWorkerPid is -1, that is, when the set is empty. */
    var root: Worker?

    /** masterToFirstWorker and firstWorkerToMaster: the two pipes with the first worker. */
    const masterToFirstWorker: Pipe
    const firstWorkerToMaster: Pipe
    /** workersToMaster: the pipe every worker writes its point answers to. */
    const workersToMaster: Pipe
    /** The two named pipes with the client. */
    const clientToMaster: Pipe
    const masterToClient: Pipe
    /** Standard output, where the workers print. */
    const console: Console

    /** The two pipes with the first worker, and the first worker's own footprint. */
    ghost var Repr: set<object>

    /** The set held by the workers. */
    ghost function Contents(): Tree
      reads this, root
    {
      if root == null then Leaf else root.Subtree
    }

    /** The first worker, if any, has not been stopped. */
    ghost predicate Live()
      reads this, root
    {
      root == null || !root.stopped
    }

    ghost predicate Valid()
      reads this, Repr, workersToMaster
    {
      && masterToFirstWorker in Repr && firstWorkerToMaster in Repr
      && masterToFirstWorker != firstWorkerToMaster
      && this !in Repr && (root != null ==> root in Repr)
      && workersToMaster !in Repr && clientToMaster !in Repr && masterToClient !in Repr
      && workersToMaster != clientToMaster && workersToMaster != masterToClient
      && clientToMaster != masterToClient
      && (root == null ==> Repr == {masterToFirstWorker, firstWorkerToMaster})
      && (root != null ==>
            && Repr == root.Repr
            && root.fromParent == masterToFirstWorker && root.toParent == firstWorkerToMaster
            && root.toMaster == workersToMaster && root.console == console
            && root.Valid())
      && masterToFirstWorker.buf == [] && firstWorkerToMaster.buf == [] && workersToMaster.buf == []
      && Ordered(Contents())
    }

    /** init: the three pipes with the workers, and no first worker yet. */
    constructor (clientToMaster: Pipe, masterToClient: Pipe, console: Console)
      requires clientToMaster != masterToClient
      ensures Valid() && Live() && root == null && Contents() == Leaf
      ensures fresh(Repr) && fresh(workersToMaster)
      ensures this.clientToMaster == clientToMaster && this.masterToClient == masterToClient
      ensures this.console == console
    {
      var toFirst := new Pipe();
      var fromFirst := new Pipe();
      var fromAll := new Pipe();
      masterToFirstWorker, firstWorkerToMaster, workersToMaster := toFirst, fromFirst, fromAll;
      this.clientToMaster, this.masterToClient, this.console := clientToMaster, masterToClient, console;
      root := null;
      Repr := {toFirst, fromFirst};
    }

    /**
     * The order tag has been read from the client pipe, which then held input,
     * and served on the set t as Turn says, with status as the outcome:
     * the set, the rest of the client pipe, the reply and the printed lines.
     */
    ghost predicate Served(tag: int, status: Status, t: Tree, input: seq<int>, output: seq<int>, lines: seq<Entry>)
      requires !DecodeRequest([tag] + input).Truncated?
      reads this, root, clientToMaster, masterToClient, console
    {
      var r := Turn(t, [tag] + input);
      && r.status == status && Contents() == r.tree && clientToMaster.buf == r.rest
      && masterToClient.buf == output + r.reply && console.lines == lines + r.printed
    }

    /** STOP: the first worker, if any, is stopped with all its descendants; then the client is acknowledged. */
    method OrderStop()
      requires Valid() && Live()
      modifies Repr, workersToMaster, masterToClient, console
      ensures Valid() && Repr == old(Repr)
      ensures root != null ==> root.AllStopped()
      ensures Served(CM_ORDER_STOP, End, old(Contents()), old(clientToMaster.buf), old(masterToClient.buf), old(console.lines))
    {
      TurnPlain(Contents(), Stop, clientToMaster.buf);
      if root != null {
        Forward(root, [MW_ORDER_STOP]);
      }
      masterToClient.Write(CM_ANSWER_STOP_OK);
    }

    /** HOW_MANY: (0, 0) on an empty set, else the first worker's two counts, read from its own pipe. */
    method OrderHowMany()
      requires Valid() && Live()
      modifies Repr, workersToMaster, masterToClient, console
      ensures Valid() && Live() && Repr == old(Repr)
      ensures Served(CM_ORDER_HOW_MANY, Continue, old(Contents()), old(clientToMaster.buf), old(masterToClient.buf), old(console.lines))
    {
      TurnPlain(Contents(), HowMany, clientToMaster.buf);
      if root == null {
        masterToClient.Send([CM_ANSWER_HOW_MANY_OK, 0, 0]);
      } else {
        var nbElements, nbDistinctElements := AskHowMany(root);
        masterToClient.Send([CM_ANSWER_HOW_MANY_OK, nbElements, nbDistinctElements]);
      }
    }

    /** MINIMUM: EMPTY on an empty set, else the value the leftmost worker sends on the shared pipe. */
    method OrderMinimum()
      requires Valid() && Live()
      modifies Repr, workersToMaster, masterToClient, console
      ensures Valid() && Live() && Repr == old(Repr)
      ensures Served(CM_ORDER_MINIMUM, Continue, old(Contents()), old(clientToMaster.buf), old(masterToClient.buf), old(console.lines))
    {
      TurnPlain(Contents(), Minimum, clientToMaster.buf);
      if root == null {
        masterToClient.Write(CM_ANSWER_MINIMUM_EMPTY);
      } else {
        var min := AskMinimum(root);
        masterToClient.Send([CM_ANSWER_MINIMUM_OK, min]);
      }
    }

    /** MAXIMUM: EMPTY on an empty set, else the value the rightmost worker sends on the shared pipe. */
    method OrderMaximum()
      requires Valid() && Live()
      modifies Repr, workersToMaster, masterToClient, console
      ensures Valid() && Live() && Repr == old(Repr)
      ensures Served(CM_ORDER_MAXIMUM, Continue, old(Contents()), old(clientToMaster.buf), old(masterToClient.buf), old(console.lines))
    {
      TurnPlain(Contents(), Maximum, clientToMaster.buf);
      if root == null {
        masterToClient.Write(CM_ANSWER_MAXIMUM_EMPTY);
      } else {
        var max := AskMaximum(root);
        masterToClient.Send([CM_ANSWER_MAXIMUM_OK, max]);
      }
    }

    /**
     * EXIST: the element is read from the client; NO on an empty set, else
     * the verdict of the worker concerned, relayed with the count after YES.
     */
    method OrderExist()
      requires Valid() && Live() && clientToMaster.buf != []
      modifies Repr, workersToMaster, clientToMaster, masterToClient, console
      ensures Valid() && Live() && Repr == old(Repr)
      ensures Served(CM_ORDER_EXIST, Continue, old(Contents()), old(clientToMaster.buf), old(masterToClient.buf), old(console.lines))
    {
      TurnOperand(Contents(), Exist(clientToMaster.buf[0]), clientToMaster.buf);
      var elementToTest := clientToMaster.Read();
      if root == null {
        masterToClient.Write(CM_ANSWER_EXIST_NO);
      } else {
        var found, quantity := AskExist(root, elementToTest);
        if found {
          masterToClient.Send([CM_ANSWER_EXIST_YES, quantity]);
        } else {
          masterToClient.Write(CM_ANSWER_EXIST_NO);
        }
      }
    }

    /** SUM: 0 on an empty set, else the first worker's sum, read from its own pipe. */
    method OrderSum()
      requires Valid() && Live()
      modifies Repr, workersToMaster, masterToClient, console
      ensures Valid() && Live() && Repr == old(Repr)
      ensures Served(CM_ORDER_SUM, Continue, old(Contents()), old(clientToMaster.buf), old(masterToClient.buf), old(console.lines))
    {
      TurnPlain(Contents(), Sum, clientToMaster.buf);
      if root == null {
        masterToClient.Send([CM_ANSWER_SUM_OK, 0]);
      } else {
        var sum := AskSum(root);
        masterToClient.Send([CM_ANSWER_SUM_OK, sum]);
      }
    }

    /**
     * The insertion shared by INSERT and INSERT_MANY: the first worker is
     * created with v on an empty set, else INSERT and v go to it; either
     * way exactly one acknowledgement is read from the shared pipe.
     */
    method InsertOne(v: int)
      requires Valid() && Live()
      modifies this, Repr, workersToMaster, console
      ensures Valid() && Live() && root != null
      ensures old(root) != null ==> root == old(root)
      ensures old(Repr) <= Repr && fresh(Repr - old(Repr))
      ensures Contents() == SearchTree.Insert(old(Contents()), v)
      ensures console.lines == old(console.lines)
    {
      if root == null {
        root := new Worker(v, masterToFirstWorker, firstWorkerToMaster, workersToMaster, console);
      } else {
        AskInsert(root, v);
      }
      Repr := root.Repr;
      var ack := workersToMaster.Read();
      assert ack == MW_ANSWER_INSERT;
      InsertOrdered(old(Contents()), v);
    }

    /** INSERT: the element is read from the client, inserted, and the client acknowledged. */
    method OrderInsert()
      requires Valid() && Live() && clientToMaster.buf != []
      modifies this, Repr, workersToMaster, clientToMaster, masterToClient, console
      ensures Valid() && Live() && root != null
      ensures old(root) != null ==> root == old(root)
      ensures old(Repr) <= Repr && fresh(Repr - old(Repr))
      ensures Served(CM_ORDER_INSERT, Continue, old(Contents()), old(clientToMaster.buf), old(masterToClient.buf), old(console.lines))
    {
      TurnOperand(Contents(), Insert(clientToMaster.buf[0]), clientToMaster.buf);
      var elementToInsert := clientToMaster.Read();
      InsertOne(elementToInsert);
      masterToClient.Write(CM_ANSWER_INSERT_OK);
    }

    /** The elements of an INSERT_MANY order, inserted one after the other. */
    method InsertBatch(elements: seq<int>)
      requires Valid() && Live()
      modifies this, Repr, workersToMaster, console
      ensures Valid() && Live()
      ensures old(root) != null ==> root == old(root)
      ensures old(Repr) <= Repr && fresh(Repr - old(Repr))
      ensures Contents() == InsertAll(old(Contents()), elements)
      ensures console.lines == old(console.lines)
    {
      var i := 0;
      while i < |elements|
        invariant 0 <= i <= |elements|
        invariant Valid() && Live()
        invariant old(root) != null ==> root == old(root)
        invariant old(Repr) <= Repr && fresh(Repr - old(Repr))
        invariant Contents() == InsertAll(old(Contents()), elements[..i])
        invariant console.lines == old(console.lines)
      {
        InsertOne(elements[i]);
        InsertAllSnoc(old(Contents()), elements[..i], elements[i]);
        assert elements[..i + 1] == elements[..i] + [elements[i]];
        i := i + 1;
      }
      assert elements[..i] == elements;
    }

    /**
     * INSERT_MANY: a count and that many elements are read from the client
     * (a count of zero or less reads none), each element is inserted in
     * turn, and the client is acknowledged once.
     */
    method OrderInsertMany()
      requires Valid() && Live() && clientToMaster.buf != []
      requires clientToMaster.buf[0] <= 0 || clientToMaster.buf[0] < |clientToMaster.buf|
      modifies this, Repr, workersToMaster, clientToMaster, masterToClient, console
      ensures Valid() && Live()
      ensures old(root) != null ==> root == old(root)
      ensures old(Repr) <= Repr && fresh(Repr - old(Repr))
      ensures Served(CM_ORDER_INSERT_MANY, Continue, old(Contents()), old(clientToMaster.buf), old(masterToClient.buf), old(console.lines))
    {
      TurnInsertMany(Contents(), clientToMaster.buf);
      var elements := ReadBatch(clientToMaster);
      InsertBatch(elements);
      masterToClient.Write(CM_ANSWER_INSERT_OK);
    }

    /** PRINT: the workers print the set in order; then the client is acknowledged, also on an empty set. */
    method OrderPrint()
      requires Valid() && Live()
      modifies Repr, workersToMaster, masterToClient, console
      ensures Valid() && Live() && Repr == old(Repr)
      ensures Served(CM_ORDER_PRINT, Continue, old(Contents()), old(clientToMaster.buf), old(masterToClient.buf), old(console.lines))
    {
      TurnPlain(Contents(), Print, clientToMaster.buf);
      if root != null {
        AskPrint(root);
      }
      masterToClient.Write(CM_ANSWER_PRINT_OK);
    }

    /**
     * One iteration of the master's loop: the order's tag is read from the
     * client and the order served; an unknown tag aborts the master.  The
     * client writes each order whole, so the reads that follow the tag find
     * what they need.
     */
    method Serve() returns (status: Status)
      requires Valid() && Live() && clientToMaster.buf != []
      requires !DecodeRequest(clientToMaster.buf).Truncated?
      modifies this, Repr, workersToMaster, clientToMaster, masterToClient, console
      ensures Valid() && old(Repr) <= Repr && fresh(Repr - old(Repr))
      ensures old(root) != null ==> root == old(root)
      ensures status == Continue ==> Live()
      ensures status == End && root != null ==> root.AllStopped()
      ensures var r := Turn(old(Contents()), old(clientToMaster.buf));
        && Contents() == r.tree && status == r.status && clientToMaster.buf == r.rest
        && masterToClient.buf == old(masterToClient.buf) + r.reply
        && console.lines == old(console.lines) + r.printed
    {
      var order := clientToMaster.Read();
      if order == CM_ORDER_STOP {
        OrderStop();
        status := End;
      } else if order == CM_ORDER_HOW_MANY {
        OrderHowMany();
        status := Continue;
      } else if order == CM_ORDER_MINIMUM {
        OrderMinimum();
        status := Continue;
      } else if order == CM_ORDER_MAXIMUM {
        OrderMaximum();
        status := Continue;
      } else if order == CM_ORDER_EXIST {
        OrderExist();
        status := Continue;
      } else if order == CM_ORDER_SUM {
        OrderSum();
        status := Continue;
      } else if order == CM_ORDER_INSERT {
        OrderInsert();
        status := Continue;
      } else if order == CM_ORDER_INSERT_MANY {
        OrderInsertMany();
        status := Continue;
      } else if order == CM_ORDER_PRINT {
        OrderPrint();
        status := Continue;
      } else {
        status := Abort;
      }
    }

    /**
     * The master's loop on the orders the client has written: it ends on
     * STOP, aborts on an unknown order, and otherwise goes on until every
     * order written is served (the process then waits for the next one).
     */
    method Loop() returns (status: Status)
      requires Valid() && Live() && Framed(clientToMaster.buf)
      modifies this, Repr, workersToMaster, clientToMaster, masterToClient, console
      ensures Valid() && old(Repr) <= Repr && fresh(Repr - old(Repr))
      ensures var s := Session(old(Contents()), old(clientToMaster.buf), old(masterToClient.buf), old(console.lines));
        && Contents() == s.tree && status == s.status
        && masterToClient.buf == s.replies && console.lines == s.printed
      ensures status == Continue ==> clientToMaster.buf == []
      ensures status == End && root != null ==> root.AllStopped()
    {
      ghost var goal := Session(Contents(), clientToMaster.buf, masterToClient.buf, console.lines);
      status := Continue;
      while status == Continue && clientToMaster.buf != []
        invariant Valid() && old(Repr) <= Repr && fresh(Repr - old(Repr))
        invariant status == Continue ==> Live() && Framed(clientToMaster.buf)
        invariant status == End && root != null ==> root.AllStopped()
        invariant status == Continue ==>
          goal == Session(Contents(), clientToMaster.buf, masterToClient.buf, console.lines)
        invariant status != Continue ==>
          goal == Transcript(Contents(), masterToClient.buf, console.lines, status)
        decreases |clientToMaster.buf|, if status == Continue then 1 else 0
      {
        status := Serve();
      }
    }
  }

  /**
   * The operands of INSERT_MANY read from the client pipe: the count, read
   * as none when it is not positive, then that many elements.
   */
  method ReadBatch(clientToMaster: Pipe) returns (elements: seq<int>)
    requires clientToMaster.buf != []
    requires clientToMaster.buf[0] <= 0 || clientToMaster.buf[0] < |clientToMaster.buf|
    modifies clientToMaster
    ensures var n := if old(clientToMaster.buf)[0] <= 0 then 0 else old(clientToMaster.buf)[0];
      elements == old(clientToMaster.buf)[1..1 + n] && clientToMaster.buf == old(clientToMaster.buf)[1 + n..]
  {
    var nbOfElements := clientToMaster.Read();
    var n := if nbOfElements <= 0 then 0 else nbOfElements;
    elements := clientToMaster.Receive(n);
  }

  /** MINIMUM sent to the first worker, and the answer read back from the pipe shared by the workers. */
  method AskMinimum(first: Worker) returns (min: int)
    requires first.Valid() && !first.stopped && first.Subtree.Node?
    requires first.fromParent.buf == [] && first.toParent.buf == [] && first.toMaster.buf == []
    modifies first.Repr, first.toMaster, first.console
    ensures first.Valid() && first.Repr == old(first.Repr) && !first.stopped
    ensures first.Subtree == old(first.Subtree)
    ensures first.fromParent.buf == [] && first.toParent.buf == [] && first.toMaster.buf == []
    ensures first.console.lines == old(first.console.lines)
    ensures min == SearchTree.Minimum(first.Subtree)
  {
    Forward(first, [MW_ORDER_MINIMUM]);
    var answer := first.toMaster.Receive(2);
    assert answer[0] == MW_ANSWER_MINIMUM;
    min := answer[1];
  }

  /** MAXIMUM sent to the first worker, and the answer read back from the pipe shared by the workers. */
  method AskMaximum(first: Worker) returns (max: int)
    requires first.Valid() && !first.stopped && first.Subtree.Node?
    requires first.fromParent.buf == [] && first.toParent.buf == [] && first.toMaster.buf == []
    modifies first.Repr, first.toMaster, first.console
    ensures first.Valid() && first.Repr == old(first.Repr) && !first.stopped
    ensures first.Subtree == old(first.Subtree)
    ensures first.fromParent.buf == [] && first.toParent.buf == [] && first.toMaster.buf == []
    ensures first.console.lines == old(first.console.lines)
    ensures max == SearchTree.Maximum(first.Subtree)
  {
    Forward(first, [MW_ORDER_MAXIMUM]);
    var answer := first.toMaster.Receive(2);
    assert answer[0] == MW_ANSWER_MAXIMUM;
    max := answer[1];
  }

  /**
   * EXIST and v sent to the first worker, and the verdict read back from the
   * pipe shared by the workers: the acknowledgement, then the count after YES.
   */
  method AskExist(first: Worker, v: int) returns (found: bool, quantity: int)
    requires first.Valid() && !first.stopped
    requires first.fromParent.buf == [] && first.toParent.buf == [] && first.toMaster.buf == []
    modifies first.Repr, first.toMaster, first.console
    ensures first.Valid() && first.Repr == old(first.Repr) && !first.stopped
    ensures first.Subtree == old(first.Subtree)
    ensures first.fromParent.buf == [] && first.toParent.buf == [] && first.toMaster.buf == []
    ensures first.console.lines == old(first.console.lines)
    ensures found <==> Find(first.Subtree, v).Some?
    ensures found ==> quantity == Find(first.Subtree, v).value
  {
    Forward(first, [MW_ORDER_EXIST, v]);
    var ack := first.toMaster.Read();
    found := ack != MW_ANSWER_EXIST_NO;
    quantity := 0;
    if found {
      quantity := first.toMaster.Read();
    }
  }
}
