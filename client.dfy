/**
 * The client: it parses its command line, then either sends one order to the
 * master and reads the master's answer, or (for "local") counts the
 * occurrences of an element in an array without the master, splitting the
 * array into one contiguous range per thread.
 */
module Client {
  import opened Protocol
  import opened Channels

  // ---------------------------------------------------------------------
  // Command line
  // ---------------------------------------------------------------------

  /** What the command line asks for. */
  datatype Command =
    | Remote(req: Request)                                        // one order sent as it is
    | InsertRandom(nb: int, min: int, max: int)                   // insertmany <nb> <min> <max>
    | Local(nbThreads: int, elt: int, nb: int, min: int, max: int) // local <nbThreads> <elt> <nb> <min> <max>

  /** Why the command line is refused (each case ends in usage). */
  datatype Usage =
    | MissingCommand
    | UnknownCommand
    | WrongArity
    | NonPositiveNb
    | MaxBelowMin
    | NonPositiveThreads
    | MaxNotAboveMin

  datatype Result<T> = Ok(value: T) | Err(error: Usage)

  /** The order a command token names; CM_ORDER_NONE for any other word. */
  function OrderOf(token: string): (o: int)
    ensures o == CM_ORDER_NONE || CM_ORDER_STOP <= o <= CM_ORDER_LOCAL
  {
    if token == "stop" then CM_ORDER_STOP
    else if token == "howmany" then CM_ORDER_HOW_MANY
    else if token == "min" then CM_ORDER_MINIMUM
    else if token == "max" then CM_ORDER_MAXIMUM
    else if token == "exist" then CM_ORDER_EXIST
    else if token == "sum" then CM_ORDER_SUM
    else if token == "insert" then CM_ORDER_INSERT
    else if token == "insertmany" then CM_ORDER_INSERT_MANY
    else if token == "print" then CM_ORDER_PRINT
    else if token == "local" then CM_ORDER_LOCAL
    else CM_ORDER_NONE
  }

  /** The command token of each order. */
  function Token(order: int): string
  {
    if order == CM_ORDER_STOP then "stop"
    else if order == CM_ORDER_HOW_MANY then "howmany"
    else if order == CM_ORDER_MINIMUM then "min"
    else if order == CM_ORDER_MAXIMUM then "max"
    else if order == CM_ORDER_EXIST then "exist"
    else if order == CM_ORDER_SUM then "sum"
    else if order == CM_ORDER_INSERT then "insert"
    else if order == CM_ORDER_INSERT_MANY then "insertmany"
    else if order == CM_ORDER_PRINT then "print"
    else "local"
  }

  /** The number of command-line words (program name included) each order takes. */
  function Arity(order: int): nat
  {
    if order == CM_ORDER_EXIST || order == CM_ORDER_INSERT then 3
    else if order == CM_ORDER_INSERT_MANY then 5
    else if order == CM_ORDER_LOCAL then 7
    else 2
  }

  /** The order code of a command. */
  function Order(cmd: Command): int
  {
    match cmd
    case Remote(req) => EncodeRequest(req)[0]
    case InsertRandom(_, _, _) => CM_ORDER_INSERT_MANY
    case Local(_, _, _, _, _) => CM_ORDER_LOCAL
  }

  /** A command the parser can produce: every check of the command line passed. */
  predicate Accepted(cmd: Command)
  {
    match cmd
    case Remote(req) => !req.InsertMany?
    case InsertRandom(nb, min, max) => nb >= 1 && min <= max
    case Local(nbThreads, _, nb, min, max) => nbThreads >= 1 && nb >= 1 && min < max
  }

  // strtol: optional white space, an optional sign, then the longest run of
  // decimal digits; a word with no digits reads as 0.

  predicate IsDigit(c: char)
  {
    '0' as int <= c as int <= '9' as int
  }

  predicate IsSpace(c: char)
  {
    c == ' ' || c == '\t' || c == '\n' || c == '\r' || c as int == 12 || c as int == 11
  }

  /** The longest prefix of decimal digits. */
  function LeadingDigits(s: string): (d: string)
    ensures |d| <= |s| && d == s[..|d|]
    ensures forall i :: 0 <= i < |d| ==> IsDigit(d[i])
    ensures |d| < |s| ==> !IsDigit(s[|d|])
  {
    if s == [] || !IsDigit(s[0]) then [] else [s[0]] + LeadingDigits(s[1..])
  }

  /** The value of a run of decimal digits, most significant first. */
  function DigitsValue(d: string): nat
    requires forall i :: 0 <= i < |d| ==> IsDigit(d[i])
  {
    if d == [] then 0
    else
      var last := d[|d| - 1];
      assert IsDigit(last);
      10 * DigitsValue(d[..|d| - 1]) + (last as int - '0' as int)
  }

  /** strtol(s, NULL, 10), without its clamping to the range of long. */
  function StrToInt(s: string): int
  {
    if s != [] && IsSpace(s[0]) then StrToInt(s[1..])
    else if s != [] && s[0] == '-' then -(DigitsValue(LeadingDigits(s[1..])) as int)
    else if s != [] && s[0] == '+' then DigitsValue(LeadingDigits(s[1..]))
    else DigitsValue(LeadingDigits(s))
  }

  /** The decimal digits of n, with no leading zero. */
  function DigitsOf(n: nat): (d: string)
    ensures d != [] && forall i :: 0 <= i < |d| ==> IsDigit(d[i])
  {
    if n < 10 then [('0' as int + n) as char]
    else DigitsOf(n / 10) + [('0' as int + n % 10) as char]
  }

  /** n written in decimal, as a user types it. */
  function IntToStr(n: int): (s: string)
    ensures s != [] && !IsSpace(s[0]) && s[0] != '+'
  {
    if n < 0 then "-" + DigitsOf(-n) else DigitsOf(n)
  }

  lemma {:induction false} DigitsRoundTrip(n: nat)
    ensures DigitsValue(DigitsOf(n)) == n
    decreases n
  {
    var d := DigitsOf(n);
    if n >= 10 {
      DigitsRoundTrip(n / 10);
      assert d[..|d| - 1] == DigitsOf(n / 10);
    }
  }

  /** A run of digits is its own longest digit prefix. */
  lemma {:induction false} AllDigits(d: string)
    requires forall i :: 0 <= i < |d| ==> IsDigit(d[i])
    ensures LeadingDigits(d) == d
    decreases |d|
  {
    if d != [] {
      AllDigits(d[1..]);
    }
  }

  /** strtol reads back what IntToStr writes. */
  lemma IntRoundTrip(n: int)
    ensures StrToInt(IntToStr(n)) == n
  {
    if n < 0 {
      assert IntToStr(n)[1..] == DigitsOf(-n);
      AllDigits(DigitsOf(-n));
      DigitsRoundTrip(-n);
    } else {
      AllDigits(DigitsOf(n));
      DigitsRoundTrip(n);
    }
  }

  /** The digit run stops at the first character that is not a digit. */
  lemma {:induction false} LeadingDigitsStop(d: string, rest: string)
    requires forall i :: 0 <= i < |d| ==> IsDigit(d[i])
    requires rest == [] || !IsDigit(rest[0])
    ensures LeadingDigits(d + rest) == d
    decreases |d|
  {
    if d != [] {
      assert (d + rest)[1..] == d[1..] + rest;
      LeadingDigitsStop(d[1..], rest);
    } else {
      assert d + rest == rest;
    }
  }

  /** A word made of digits up to a character that is not one reads as those digits. */
  lemma StrToIntDigits(d: string, rest: string)
    requires d != [] && forall i :: 0 <= i < |d| ==> IsDigit(d[i])
    requires rest == [] || !IsDigit(rest[0])
    ensures StrToInt(d + rest) == DigitsValue(d)
  {
    LeadingDigitsStop(d, rest);
    assert (d + rest)[0] == d[0];
  }

  /** Leading white space is skipped. */
  lemma StrToIntSpace(w: string)
    ensures StrToInt(" " + w) == StrToInt(w)
  {
    assert (" " + w)[1..] == w;
  }

  /** A sign before a run of digits is taken. */
  lemma StrToIntSign(d: string, rest: string)
    requires forall i :: 0 <= i < |d| ==> IsDigit(d[i])
    requires rest == [] || !IsDigit(rest[0])
    ensures StrToInt("-" + (d + rest)) == -(DigitsValue(d) as int)
    ensures StrToInt("+" + (d + rest)) == DigitsValue(d)
  {
    LeadingDigitsStop(d, rest);
    assert ("-" + (d + rest))[1..] == d + rest;
    assert ("+" + (d + rest))[1..] == d + rest;
  }

  /**
   * What strtol reads from a word: leading white space is skipped, a sign is
   * taken, leading zeros do not matter, and reading stops at the first
   * character that is not a digit.
   */
  lemma StrToIntReads(d: string, rest: string)
    requires d != [] && forall i :: 0 <= i < |d| ==> IsDigit(d[i])
    requires rest == [] || !IsDigit(rest[0])
    ensures StrToInt(d + rest) == DigitsValue(d)
    ensures StrToInt(" " + (d + rest)) == DigitsValue(d)
    ensures StrToInt("-" + (d + rest)) == -(DigitsValue(d) as int)
    ensures StrToInt("+" + (d + rest)) == DigitsValue(d)
    ensures StrToInt(("0" + d) + rest) == DigitsValue(d)
  {
    StrToIntDigits(d, rest);
    StrToIntSpace(d + rest);
    StrToIntSign(d, rest);
    StrToIntDigits("0" + d, rest);
    ZeroDigit(d);
  }

  /** A leading zero does not change the value of a run of digits. */
  lemma {:induction false} ZeroDigit(d: string)
    requires forall i :: 0 <= i < |d| ==> IsDigit(d[i])
    ensures DigitsValue("0" + d) == DigitsValue(d)
    decreases |d|
  {
    if d != [] {
      ZeroDigit(d[..|d| - 1]);
      assert ("0" + d)[..|d|] == "0" + d[..|d| - 1];
    }
  }

  /**
   * parseArgs: the command token, then the number of words the order takes,
   * then the values, with the range checks of insertmany and local, each
   * failure being the first check that fails.  Values are whole numbers.
   */
  function ParseArgs(argv: seq<string>): (r: Result<Command>)
    requires |argv| >= 1
    ensures |argv| == 1 <==> r == Err(MissingCommand)
    ensures r == Err(UnknownCommand) <==> |argv| >= 2 && OrderOf(argv[1]) == CM_ORDER_NONE
    ensures r == Err(WrongArity) <==>
      |argv| >= 2 && OrderOf(argv[1]) != CM_ORDER_NONE && |argv| != Arity(OrderOf(argv[1]))
    ensures r.Ok? ==> Accepted(r.value) && Order(r.value) == OrderOf(argv[1]) && |argv| == Arity(Order(r.value))
    // the orders without operands are accepted once their word count is right
    ensures |argv| == 2 && OrderOf(argv[1]) != CM_ORDER_NONE && Arity(OrderOf(argv[1])) == 2 ==>
      r.Ok? && r.value.Remote?
    // exist and insert carry the value strtof reads from their operand
    ensures |argv| == 3 && OrderOf(argv[1]) == CM_ORDER_EXIST ==> r == Ok(Remote(Exist(StrToInt(argv[2]))))
    ensures |argv| == 3 && OrderOf(argv[1]) == CM_ORDER_INSERT ==> r == Ok(Remote(Insert(StrToInt(argv[2]))))
    // insertmany: nb is checked first, then max against min
    ensures |argv| == 5 && OrderOf(argv[1]) == CM_ORDER_INSERT_MANY ==>
      var nb, min, max := StrToInt(argv[2]), StrToInt(argv[3]), StrToInt(argv[4]);
      && (r == Err(NonPositiveNb) <==> nb < 1)
      && (r == Err(MaxBelowMin) <==> nb >= 1 && max < min)
      && (r.Ok? <==> nb >= 1 && min <= max)
      && (r.Ok? ==> r.value == InsertRandom(nb, min, max))
    // local: nbThreads first, then nb, then max strictly above min
    ensures |argv| == 7 && OrderOf(argv[1]) == CM_ORDER_LOCAL ==>
      var k, elt, nb := StrToInt(argv[2]), StrToInt(argv[3]), StrToInt(argv[4]);
      var min, max := StrToInt(argv[5]), StrToInt(argv[6]);
      && (r == Err(NonPositiveThreads) <==> k < 1)
      && (r == Err(NonPositiveNb) <==> k >= 1 && nb < 1)
      && (r == Err(MaxNotAboveMin) <==> k >= 1 && nb >= 1 && max <= min)
      && (r.Ok? <==> k >= 1 && nb >= 1 && min < max)
      && (r.Ok? ==> r.value == Local(k, elt, nb, min, max))
  {
    if |argv| == 1 then Err(MissingCommand)
    else
      var order := OrderOf(argv[1]);
      if order == CM_ORDER_NONE then Err(UnknownCommand)
      else if |argv| != Arity(order) then Err(WrongArity)
      else if order == CM_ORDER_EXIST then Ok(Remote(Exist(StrToInt(argv[2]))))
      else if order == CM_ORDER_INSERT then Ok(Remote(Insert(StrToInt(argv[2]))))
      else if order == CM_ORDER_INSERT_MANY then
        var nb, min, max := StrToInt(argv[2]), StrToInt(argv[3]), StrToInt(argv[4]);
        if nb < 1 then Err(NonPositiveNb)
        else if max < min then Err(MaxBelowMin)
        else Ok(InsertRandom(nb, min, max))
      else if order == CM_ORDER_LOCAL then
        var nbThreads, elt, nb := StrToInt(argv[2]), StrToInt(argv[3]), StrToInt(argv[4]);
        var min, max := StrToInt(argv[5]), StrToInt(argv[6]);
        if nbThreads < 1 then Err(NonPositiveThreads)
        else if nb < 1 then Err(NonPositiveNb)
        else if max <= min then Err(MaxNotAboveMin)
        else Ok(Local(nbThreads, elt, nb, min, max))
      else if order == CM_ORDER_STOP then Ok(Remote(Stop))
      else if order == CM_ORDER_HOW_MANY then Ok(Remote(HowMany))
      else if order == CM_ORDER_MINIMUM then Ok(Remote(Minimum))
      else if order == CM_ORDER_MAXIMUM then Ok(Remote(Maximum))
      else if order == CM_ORDER_SUM then Ok(Remote(Sum))
      else Ok(Remote(Print))
  }

  /** The word count parseArgs demands of each order is that of the order's own command line. */
  lemma RenderArity(exe: string, cmd: Command)
    requires Accepted(cmd)
    ensures |Render(exe, cmd)| == Arity(Order(cmd))
  {
  }

  /** The command line that asks for cmd. */
  function Render(exe: string, cmd: Command): (argv: seq<string>)
    ensures |argv| >= 2 && argv[0] == exe
  {
    match cmd
    case Remote(req) =>
      if req.Exist? || req.Insert? then [exe, Token(Order(cmd)), IntToStr(req.elt)]
      else [exe, Token(Order(cmd))]
    case InsertRandom(nb, min, max) => [exe, "insertmany", IntToStr(nb), IntToStr(min), IntToStr(max)]
    case Local(k, elt, nb, min, max) =>
      [exe, "local", IntToStr(k), IntToStr(elt), IntToStr(nb), IntToStr(min), IntToStr(max)]
  }

  /** Each order's token names that order. */
  lemma TokenNamesOrder(order: int)
    requires CM_ORDER_STOP <= order <= CM_ORDER_LOCAL
    ensures OrderOf(Token(order)) == order
  {
  }

  /** Every command the parser accepts is read back from its own command line. */
  lemma ParseRender(exe: string, cmd: Command)
    requires Accepted(cmd)
    ensures ParseArgs(Render(exe, cmd)) == Ok(cmd)
  {
    TokenNamesOrder(Order(cmd));
    match cmd
    case Remote(req) =>
      if req.Exist? || req.Insert? {
        IntRoundTrip(req.elt);
      }
    case InsertRandom(nb, min, max) =>
      IntRoundTrip(nb);
      IntRoundTrip(min);
      IntRoundTrip(max);
    case Local(k, elt, nb, min, max) =>
      IntRoundTrip(k);
      IntRoundTrip(elt);
      IntRoundTrip(nb);
      IntRoundTrip(min);
      IntRoundTrip(max);
  }

  // ---------------------------------------------------------------------
  // Talking to the master
  // ---------------------------------------------------------------------

  /**
   * The order a remote command sends; for insertmany, the values the client
   * draws in [min, max[ are a parameter.
   */
  function RequestOf(cmd: Command, values: seq<int>): (req: Request)
    requires !cmd.Local?
    ensures cmd.Remote? ==> req == cmd.req
    ensures cmd.InsertRandom? ==> req == InsertMany(values)
  {
    if cmd.InsertRandom? then InsertMany(values) else cmd.req
  }

  /**
   * sendData as written: the tag, the element after exist and insert, and
   * nb, min and max after insertmany, where the master reads a count and
   * then that many values.
   */
  function FrameAsWritten(cmd: Command): (m: seq<int>)
    requires !cmd.Local?
    ensures |m| >= 1 && m[0] == Order(cmd)
  {
    match cmd
    case Remote(req) => EncodeRequest(req)
    case InsertRandom(nb, min, max) => [CM_ORDER_INSERT_MANY, nb, min, max]
  }

  /**
   * The frame as written, read by the master with its check of the value
   * read corrected and min and max taken as whole numbers: with nb > 2 the
   * values come back short, and with nb == 2 the master takes min and max
   * themselves as the two values (max lies outside [min, max[).
   */
  lemma FrameAsWrittenMisread()
    ensures DecodeRequest(FrameAsWritten(InsertRandom(3, 5, 9))).Truncated?
    ensures DecodeRequest(FrameAsWritten(InsertRandom(2, 5, 9))) == Parsed(InsertMany([5, 9]), 4)
  {
    assert [CM_ORDER_INSERT_MANY, 2, 5, 9][2..4] == [5, 9];
  }

  /**
   * sendData: the tag, then the element after exist and insert, then for
   * insertmany the count and the values drawn; the master reads back exactly
   * the order (see DecodeEncode).
   */
  method SendData(cmd: Command, values: seq<int>, clientToMaster: Pipe)
    requires Accepted(cmd) && !cmd.Local?
    requires cmd.InsertRandom? ==> |values| == cmd.nb
    modifies clientToMaster
    ensures clientToMaster.buf == old(clientToMaster.buf) + EncodeRequest(RequestOf(cmd, values))
  {
    match cmd {
      case Remote(req) =>
        clientToMaster.Write(Order(cmd));
        if req.Exist? || req.Insert? {
          clientToMaster.Write(req.elt);
        }
      case InsertRandom(nb, _, _) =>
        SendBatch(values, clientToMaster);
    }
  }

  /** The insertmany branch of sendData: the tag, the count, then each value in turn. */
  method SendBatch(values: seq<int>, clientToMaster: Pipe)
    modifies clientToMaster
    ensures clientToMaster.buf == old(clientToMaster.buf) + EncodeRequest(InsertMany(values))
  {
    clientToMaster.Write(CM_ORDER_INSERT_MANY);
    clientToMaster.Write(|values|);
    ghost var start := clientToMaster.buf;
    var i := 0;
    while i < |values|
      invariant 0 <= i <= |values|
      invariant clientToMaster.buf == start + values[..i]
    {
      clientToMaster.Write(values[i]);
      assert values[..i + 1] == values[..i] + [values[i]];
      i := i + 1;
    }
    assert values[..i] == values;
  }

  /** What the client makes of the front of the master's pipe. */
  datatype Reception = Received(answer: Answer, used: nat) | Short

  /**
   * receiveAnswer: the acknowledgement, then two ints after HOW_MANY_OK,
   * one int after MINIMUM_OK, MAXIMUM_OK, EXIST_YES and SUM_OK, and nothing
   * after the others; an acknowledgement it does not know is read alone.
   */
  function ReceiveAnswer(buf: seq<int>): (r: Reception)
    ensures r.Received? ==> 1 <= r.used <= |buf| && EncodeAnswer(r.answer) == buf[..r.used]
    ensures r.Received? ==> WellFormed(r.answer)
    ensures r.Short? <==>
      || buf == []
      || (buf[0] == CM_ANSWER_HOW_MANY_OK && |buf| < 3)
      || ((buf[0] == CM_ANSWER_MINIMUM_OK || buf[0] == CM_ANSWER_MAXIMUM_OK ||
           buf[0] == CM_ANSWER_EXIST_YES || buf[0] == CM_ANSWER_SUM_OK) && |buf| < 2)
  {
    if buf == [] then Short
    else
      var ack := buf[0];
      if ack == CM_ANSWER_HOW_MANY_OK then
        if |buf| < 3 then Short else Received(HowManyOk(buf[1], buf[2]), 3)
      else if ack == CM_ANSWER_MINIMUM_OK || ack == CM_ANSWER_MAXIMUM_OK
           || ack == CM_ANSWER_EXIST_YES || ack == CM_ANSWER_SUM_OK then
        if |buf| < 2 then Short
        else if ack == CM_ANSWER_MINIMUM_OK then Received(MinimumOk(buf[1]), 2)
        else if ack == CM_ANSWER_MAXIMUM_OK then Received(MaximumOk(buf[1]), 2)
        else if ack == CM_ANSWER_EXIST_YES then Received(ExistYes(buf[1]), 2)
        else Received(SumOk(buf[1]), 2)
      else if ack == CM_ANSWER_STOP_OK then Received(StopOk, 1)
      else if ack == CM_ANSWER_MINIMUM_EMPTY then Received(MinimumEmpty, 1)
      else if ack == CM_ANSWER_MAXIMUM_EMPTY then Received(MaximumEmpty, 1)
      else if ack == CM_ANSWER_EXIST_NO then Received(ExistNo, 1)
      else if ack == CM_ANSWER_INSERT_OK then Received(InsertOk, 1)
      else if ack == CM_ANSWER_INSERT_MANY_OK then Received(InsertManyOk, 1)
      else if ack == CM_ANSWER_PRINT_OK then Received(PrintOk, 1)
      else Received(Unrecognised(ack), 1)
  }

  /** The client reads back exactly the answer the master framed, and no more. */
  lemma ReceiveEncode(a: Answer, rest: seq<int>)
    requires WellFormed(a)
    ensures ReceiveAnswer(EncodeAnswer(a) + rest) == Received(a, |EncodeAnswer(a)|)
  {
  }

  // ---------------------------------------------------------------------
  // local: counting with several threads
  // ---------------------------------------------------------------------

  /** The number of occurrences of x in s. */
  function Occurrences(s: seq<int>, x: int): (n: nat)
    ensures n <= |s|
  {
    if s == [] then 0 else Occurrences(s[..|s| - 1], x) + (if s[|s| - 1] == x then 1 else 0)
  }

  /** Occurrences is the multiplicity of x in s. */
  lemma {:induction false} OccurrencesMultiplicity(s: seq<int>, x: int)
    ensures Occurrences(s, x) == multiset(s)[x]
    decreases |s|
  {
    if s != [] {
      OccurrencesMultiplicity(s[..|s| - 1], x);
      assert s == s[..|s| - 1] + [s[|s| - 1]];
    }
  }

  /** The counts of two adjacent ranges add up to the count of their union. */
  lemma OccurrencesSplit(s: seq<int>, i: int, j: int, k: int, x: int)
    requires 0 <= i <= j <= k <= |s|
    ensures Occurrences(s[i..k], x) == Occurrences(s[i..j], x) + Occurrences(s[j..k], x)
  {
    OccurrencesMultiplicity(s[i..k], x);
    OccurrencesMultiplicity(s[i..j], x);
    OccurrencesMultiplicity(s[j..k], x);
    assert s[i..k] == s[i..j] + s[j..k];
  }

  /** A thread's count, added to the count of the ranges before it, gives the count up to its range's end. */
  lemma ThreadShare(s: seq<int>, startIdx: int, endIdx: int, x: int)
    requires 0 <= startIdx <= endIdx <= |s|
    ensures Occurrences(s[..endIdx], x) == Occurrences(s[..startIdx], x) + Occurrences(s[startIdx..endIdx], x)
  {
    OccurrencesSplit(s, 0, startIdx, endIdx, x);
    assert s[0..startIdx] == s[..startIdx] && s[0..endIdx] == s[..endIdx];
  }

  /** The counter the threads share (the mutex that guards it in the program is not modelled). */
  class Counter {
    var result: int

    constructor ()
      ensures result == 0
    {
      result := 0;
    }
  }

  /**
   * threadFunction: the occurrences of elt in tab[startIdx..endIdx], counted
   * locally, then added to the shared counter.
   */
  method ThreadFunction(tab: array<int>, startIdx: int, endIdx: int, elt: int, shared: Counter)
    requires 0 <= startIdx <= endIdx <= tab.Length
    modifies shared
    ensures shared.result == old(shared.result) + Occurrences(tab[startIdx..endIdx], elt)
  {
    var localCount := 0;
    var i := startIdx;
    while i < endIdx
      invariant startIdx <= i <= endIdx
      invariant localCount == Occurrences(tab[startIdx..i], elt)
    {
      assert tab[startIdx..i + 1][..i - startIdx] == tab[startIdx..i];
      if tab[i] == elt {
        localCount := localCount + 1;
      }
      i := i + 1;
    }
    shared.result := shared.result + localCount;
  }

  /** The i-th thread's share: nb / k elements, one more for the first nb % k threads. */
  function Portion(nb: nat, k: nat, i: nat): (n: nat)
    requires k >= 1
    ensures nb / k <= n <= nb / k + 1
    ensures i >= k ==> n == nb / k
  {
    nb / k + (if i < nb % k then 1 else 0)
  }

  /** Where the i-th thread's range starts: the sizes of the i ranges before it. */
  function Start(nb: nat, k: nat, i: nat): (s: nat)
    requires k >= 1
    ensures i <= k ==> s <= nb
    ensures s >= i * (nb / k)
  {
    MulMonotone(if i <= k then i else k, k, nb / k);
    i * (nb / k) + (if i < nb % k then i else nb % k)
  }

  /** The ranges cover [0, nb) in order, one per thread, each of its thread's size. */
  ghost predicate Partition(ranges: seq<(int, int)>, nb: nat, k: nat)
    requires k >= 1
  {
    && |ranges| == k
    && ranges[0].0 == 0 && ranges[k - 1].1 == nb
    && (forall i :: 0 <= i < k ==> ranges[i].1 - ranges[i].0 == Portion(nb, k, i))
    && (forall i :: 0 < i < k ==> ranges[i].0 == ranges[i - 1].1)
  }

  lemma MulStep(i: int, q: int)
    ensures (i + 1) * q == i * q + q
  {
  }

  lemma MulMonotone(i: int, k: int, q: int)
    requires i <= k && q >= 0
    ensures i * q <= k * q
  {
    assert k * q - i * q == (k - i) * q;
  }

  /** Each range ends where the next one starts, and the last one ends at nb. */
  lemma StartStep(nb: nat, k: nat, i: nat)
    requires k >= 1 && i < k
    ensures Start(nb, k, i + 1) == Start(nb, k, i) + Portion(nb, k, i)
    ensures Start(nb, k, i + 1) <= nb
    ensures i + 1 == k ==> Start(nb, k, i + 1) == nb
  {
    var q, r := nb / k, nb % k;
    MulStep(i, q);
    MulMonotone(i + 1, k, q);
    assert k * q + r == nb;
  }

  /**
   * lauchThreads: nbThreads threads each count elt in their own contiguous
   * range of tab (the random array, nb elements), adding into the shared
   * counter; then a linear count checks the result.  The threads run one
   * after the other here: addition does not depend on their order.
   */
  method LaunchThreads(tab: array<int>, nbThreads: int, elt: int)
    returns (result: int, nbVerif: int, ranges: seq<(int, int)>)
    requires nbThreads >= 1
    ensures Partition(ranges, tab.Length, nbThreads)
    ensures result == nbVerif == Occurrences(tab[..], elt)
  {
    var nb := tab.Length;
    var shared := new Counter();
    var portionSize := nb / nbThreads;
    var remainder := nb % nbThreads;
    var currentIndex := 0;
    ranges := [];
    var i := 0;
    while i < nbThreads
      invariant 0 <= i <= nbThreads && |ranges| == i
      invariant currentIndex == Start(nb, nbThreads, i) && currentIndex <= nb
      invariant i > 0 ==> ranges[0].0 == 0 && ranges[i - 1].1 == currentIndex
      invariant forall j :: 0 <= j < i ==> ranges[j].1 - ranges[j].0 == Portion(nb, nbThreads, j)
      invariant forall j :: 0 < j < i ==> ranges[j].0 == ranges[j - 1].1
      invariant i == nbThreads ==> currentIndex == nb
      invariant shared.result == Occurrences(tab[..currentIndex], elt)
    {
      StartStep(nb, nbThreads, i);
      var endIdx := currentIndex + portionSize + (if i < remainder then 1 else 0);
      ThreadFunction(tab, currentIndex, endIdx, elt, shared);
      ThreadShare(tab[..], currentIndex, endIdx, elt);
      ranges := ranges + [(currentIndex, endIdx)];
      currentIndex := endIdx;
      i := i + 1;
    }
    assert tab[..currentIndex] == tab[..];
    result := shared.result;

    nbVerif := 0;
    var j := 0;
    while j < nb
      invariant 0 <= j <= nb
      invariant nbVerif == Occurrences(tab[..j], elt)
    {
      assert tab[..j + 1][..j] == tab[..j];
      if tab[j] == elt {
        nbVerif := nbVerif + 1;
      }
      j := j + 1;
    }
  }
}
