/**
 * The integer messages exchanged over the pipes: orders and answers between
 * the client and the master, and between the master and the workers.  Every
 * message is a sequence of ints: a tag, then the payload that tag announces.
 *
 * The numeric codes live in client_master.h and master_worker.h, which are
 * not part of this model; the values below are one assignment in which all
 * the codes of a kind are pairwise distinct, which is all the code relies on.
 */
module Protocol {

  // Orders from the client to the master.
  const CM_ORDER_NONE := 0
  const CM_ORDER_STOP := 1
  const CM_ORDER_HOW_MANY := 2
  const CM_ORDER_MINIMUM := 3
  const CM_ORDER_MAXIMUM := 4
  const CM_ORDER_EXIST := 5
  const CM_ORDER_SUM := 6
  const CM_ORDER_INSERT := 7
  const CM_ORDER_INSERT_MANY := 8
  const CM_ORDER_PRINT := 9
  const CM_ORDER_LOCAL := 10

  // Answers from the master to the client.
  const CM_ANSWER_STOP_OK := 20
  const CM_ANSWER_HOW_MANY_OK := 21
  const CM_ANSWER_MINIMUM_OK := 22
  const CM_ANSWER_MINIMUM_EMPTY := 23
  const CM_ANSWER_MAXIMUM_OK := 24
  const CM_ANSWER_MAXIMUM_EMPTY := 25
  const CM_ANSWER_EXIST_YES := 26
  const CM_ANSWER_EXIST_NO := 27
  const CM_ANSWER_SUM_OK := 28
  const CM_ANSWER_INSERT_OK := 29
  const CM_ANSWER_INSERT_MANY_OK := 30
  const CM_ANSWER_PRINT_OK := 31

  // Orders from the master (or a parent worker) to a worker.
  const MW_ORDER_STOP := 40
  const MW_ORDER_HOW_MANY := 41
  const MW_ORDER_MINIMUM := 42
  const MW_ORDER_MAXIMUM := 43
  const MW_ORDER_EXIST := 44
  const MW_ORDER_SUM := 45
  const MW_ORDER_INSERT := 46
  const MW_ORDER_PRINT := 47

  // Answers from a worker, to its parent or to the master.
  const MW_ANSWER_HOW_MANY := 50
  const MW_ANSWER_MINIMUM := 51
  const MW_ANSWER_MAXIMUM := 52
  const MW_ANSWER_EXIST_YES := 53
  const MW_ANSWER_EXIST_NO := 54
  const MW_ANSWER_SUM := 55
  const MW_ANSWER_INSERT := 56
  const MW_ANSWER_PRINT := 57

  /** An order the master serves, with the payload it reads after the tag. */
  datatype Request =
    | Stop
    | HowMany
    | Minimum
    | Maximum
    | Exist(elt: int)
    | Sum
    | Insert(elt: int)
    | InsertMany(elts: seq<int>)
    | Print

  /** The master's reading of the client pipe: INSERT_MANY is a count followed by that many values. */
  function EncodeRequest(r: Request): (m: seq<int>)
    ensures |m| >= 1 && m[0] != CM_ORDER_NONE && m[0] != CM_ORDER_LOCAL
    ensures r.Exist? || r.Insert? ==> |m| == 2
    ensures !(r.Exist? || r.Insert? || r.InsertMany?) ==> |m| == 1
    ensures r.InsertMany? ==> |m| == 2 + |r.elts| && m[1] == |r.elts| && m[2..] == r.elts
  {
    match r
    case Stop => [CM_ORDER_STOP]
    case HowMany => [CM_ORDER_HOW_MANY]
    case Minimum => [CM_ORDER_MINIMUM]
    case Maximum => [CM_ORDER_MAXIMUM]
    case Exist(v) => [CM_ORDER_EXIST, v]
    case Sum => [CM_ORDER_SUM]
    case Insert(v) => [CM_ORDER_INSERT, v]
    case InsertMany(vs) =>
      var m := [CM_ORDER_INSERT_MANY, |vs|] + vs;
      assert m[2..] == vs;
      m
    case Print => [CM_ORDER_PRINT]
  }

  /** What the master makes of the front of its input pipe. */
  datatype Parse =
    | Unknown(tag: int)          // the switch's default case: the master aborts
    | Truncated                  // a read came back short: the master's assertion fails
    | Parsed(req: Request, used: nat)

  /**
   * One order read from the client pipe.  A count of INSERT_MANY values
   * that is zero or negative reads no value at all.
   */
  function DecodeRequest(buf: seq<int>): (p: Parse)
    ensures p.Parsed? ==> 1 <= p.used <= |buf|
    ensures p.Parsed? && (|buf| < 2 || buf[1] >= 0) ==> EncodeRequest(p.req) == buf[..p.used]
    ensures p.Parsed? && |buf| >= 2 && buf[1] < 0 ==>
      EncodeRequest(p.req) == buf[..p.used] || p == Parsed(InsertMany([]), 2)
    ensures p.Unknown? ==> |buf| >= 1 && p.tag == buf[0]
    // the switch's default case: a tag that names none of the nine orders the master serves
    ensures p.Unknown? <==> buf != [] && !(CM_ORDER_STOP <= buf[0] <= CM_ORDER_PRINT)
    // a read came back short: the tag's operand, the count, or some of the counted values are missing
    ensures p.Truncated? <==>
      || buf == []
      || ((buf[0] == CM_ORDER_EXIST || buf[0] == CM_ORDER_INSERT) && |buf| < 2)
      || (buf[0] == CM_ORDER_INSERT_MANY && (|buf| < 2 || (buf[1] > 0 && |buf| < 2 + buf[1])))
  {
    if buf == [] then Truncated
    else
      var tag := buf[0];
      if tag == CM_ORDER_STOP then Parsed(Stop, 1)
      else if tag == CM_ORDER_HOW_MANY then Parsed(HowMany, 1)
      else if tag == CM_ORDER_MINIMUM then Parsed(Minimum, 1)
      else if tag == CM_ORDER_MAXIMUM then Parsed(Maximum, 1)
      else if tag == CM_ORDER_SUM then Parsed(Sum, 1)
      else if tag == CM_ORDER_PRINT then Parsed(Print, 1)
      else if tag == CM_ORDER_EXIST || tag == CM_ORDER_INSERT then
        if |buf| < 2 then Truncated
        else if tag == CM_ORDER_EXIST then Parsed(Exist(buf[1]), 2)
        else Parsed(Insert(buf[1]), 2)
      else if tag == CM_ORDER_INSERT_MANY then
        if |buf| < 2 then Truncated
        else
          var n := if buf[1] <= 0 then 0 else buf[1];
          if |buf| < 2 + n then Truncated
          else Parsed(InsertMany(buf[2..2 + n]), 2 + n)
      else Unknown(tag)
  }

  /** Reading back what was framed gives the same order, and consumes exactly its frame. */
  lemma {:induction false} DecodeEncode(r: Request, rest: seq<int>)
    ensures DecodeRequest(EncodeRequest(r) + rest) == Parsed(r, |EncodeRequest(r)|)
  {
    var m := EncodeRequest(r) + rest;
    if r.InsertMany? {
      var n := |r.elts|;
      assert m[2..2 + n] == r.elts;
    }
  }

  /** The frames of several orders, one after the other. */
  function Frames(reqs: seq<Request>): (m: seq<int>)
    ensures reqs == [] <==> m == []
  {
    if reqs == [] then [] else EncodeRequest(reqs[0]) + Frames(reqs[1..])
  }

  /** An answer the master sends to the client. */
  datatype Answer =
    | StopOk
    | HowManyOk(total: int, distinct: int)
    | MinimumOk(min: int)
    | MinimumEmpty
    | MaximumOk(max: int)
    | MaximumEmpty
    | ExistYes(card: int)
    | ExistNo
    | SumOk(sum: int)
    | InsertOk
    | InsertManyOk
    | PrintOk
    | Unrecognised(ack: int)   // any other acknowledgement: the client reads nothing more

  predicate KnownAck(ack: int)
  {
    CM_ANSWER_STOP_OK <= ack <= CM_ANSWER_PRINT_OK
  }

  /** An answer that has a frame: an unrecognised acknowledgement must not be a known one. */
  predicate WellFormed(a: Answer)
  {
    a.Unrecognised? ==> !KnownAck(a.ack)
  }

  /** The acknowledgement, followed by the payload the client reads after it. */
  function EncodeAnswer(a: Answer): (m: seq<int>)
    ensures 1 <= |m| <= 3
    ensures a.HowManyOk? <==> |m| == 3
    ensures (a.MinimumOk? || a.MaximumOk? || a.ExistYes? || a.SumOk?) <==> |m| == 2
    ensures WellFormed(a) ==> (KnownAck(m[0]) <==> !a.Unrecognised?)
  {
    match a
    case StopOk => [CM_ANSWER_STOP_OK]
    case HowManyOk(t, d) => [CM_ANSWER_HOW_MANY_OK, t, d]
    case MinimumOk(v) => [CM_ANSWER_MINIMUM_OK, v]
    case MinimumEmpty => [CM_ANSWER_MINIMUM_EMPTY]
    case MaximumOk(v) => [CM_ANSWER_MAXIMUM_OK, v]
    case MaximumEmpty => [CM_ANSWER_MAXIMUM_EMPTY]
    case ExistYes(c) => [CM_ANSWER_EXIST_YES, c]
    case ExistNo => [CM_ANSWER_EXIST_NO]
    case SumOk(s) => [CM_ANSWER_SUM_OK, s]
    case InsertOk => [CM_ANSWER_INSERT_OK]
    case InsertManyOk => [CM_ANSWER_INSERT_MANY_OK]
    case PrintOk => [CM_ANSWER_PRINT_OK]
    case Unrecognised(ack) => [ack]
  }
}
