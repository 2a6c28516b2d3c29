/**
 * The communication channels as buffers.  A pipe holds the ints written to it
 * and not yet read: writing appends one int, reading removes the oldest one.
 * The console collects the (element, cardinality) lines the workers print.
 */
module Channels {
  import opened SearchTree

  class Pipe {
    var buf: seq<int>

    constructor ()
      ensures buf == []
    {
      buf := [];
    }

    /** writeToWorker, and every write of one int. */
    method Write(x: int)
      modifies this
      ensures buf == old(buf) + [x]
    {
      buf := buf + [x];
    }

    /** A message of several ints, written in one go. */
    method Send(m: seq<int>)
      modifies this
      ensures buf == old(buf) + m
    {
      buf := buf + m;
    }

    /** readWorker, and every read of one int: the reader needs something written. */
    method Read() returns (x: int)
      requires buf != []
      modifies this
      ensures x == old(buf)[0] && buf == old(buf)[1..]
      ensures old(buf) == [x] + buf
    {
      x := buf[0];
      buf := buf[1..];
    }

    /** The next n ints, read in one go: the reader needs them written. */
    method Receive(n: nat) returns (m: seq<int>)
      requires n <= |buf|
      modifies this
      ensures m == old(buf)[..n] && buf == old(buf)[n..]
    {
      m := buf[..n];
      buf := buf[n..];
    }
  }

  class Console {
    var lines: seq<Entry>

    constructor ()
      ensures lines == []
    {
      lines := [];
    }

    /** One printed line: an element and its cardinality. */
    method Emit(elt: int, card: nat)
      modifies this
      ensures lines == old(lines) + [(elt, card)]
    {
      lines := lines + [(elt, card)];
    }
  }
}
