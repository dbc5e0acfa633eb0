/** Receive-side message framing shared by the library class and the sketch.

    Both versions of the receive handler copy each byte of a transport chunk
    into a fixed buffer and cut a message whenever a newline arrives.  The
    library version also cuts when the buffer is one byte short of full (the
    last slot is kept for the C string terminator).  This module gives that
    byte loop as a function on values, `Run`, and proves what it promises:
    no byte is lost or reordered, a chunk may be split anywhere, every
    message is a well-formed frame, and a separator-terminated line comes out
    as exactly one message. */
module Framing {

  /** The separator, hard-coded in both receive loops. */
  const Newline: char := '\n'

  /** The C string terminator written after a completed message. */
  const Nul: char := '\0'

  /** When a message is cut without a separator. */
  datatype Policy =
    | FlushWhenFull(size: nat)   // library: cut once `size - 1` bytes are buffered
    | NoBoundCheck              // sketch: cut on the separator only

  /** The messages emitted so far, in order, and the bytes buffered since the
      last cut (`buffer[0..index)`). */
  datatype Reassembly = Reassembly(messages: seq<seq<char>>, pending: seq<char>)

  const Start: Reassembly := Reassembly([], [])

  /** One iteration of the receive loop: append the byte, then cut if it is
      the separator or (library only) the buffer has reached `size - 1`. */
  function Step(r: Reassembly, c: char, p: Policy): (next: Reassembly)
  {
    var q := r.pending + [c];
    if c == Newline || (p.FlushWhenFull? && |q| == p.size - 1) then
      Reassembly(r.messages + [q], [])
    else
      Reassembly(r.messages, q)
  }

  /** The receive loop over a whole byte sequence, oldest byte first. */
  function Run(r: Reassembly, s: seq<char>, p: Policy): (result: Reassembly)
    decreases |s|
  {
    if s == [] then r else Step(Run(r, s[..|s| - 1], p), s[|s| - 1], p)
  }

  /** All messages laid end to end. */
  function Concat(ms: seq<seq<char>>): (stream: seq<char>)
  {
    if ms == [] then [] else Concat(ms[..|ms| - 1]) + ms[|ms| - 1]
  }

  /** A message the loop can emit: non-empty, no separator before its last
      byte, and ended either by the separator or by a full buffer. */
  ghost predicate Framed(m: seq<char>, p: Policy)
  {
    |m| >= 1 && Newline !in m[..|m| - 1] &&
    (m[|m| - 1] == Newline || (p.FlushWhenFull? && |m| == p.size - 1)) &&
    (p.FlushWhenFull? ==> |m| <= p.size - 1)
  }

  /** Bytes the loop can hold between two chunks: no separator and, in the
      library, at most `size - 2` of them, so that the next byte and the
      terminator after it both fit. */
  ghost predicate Partial(q: seq<char>, p: Policy)
  {
    Newline !in q && (p.FlushWhenFull? ==> |q| <= p.size - 2)
  }

  ghost predicate Sound(r: Reassembly, p: Policy)
  {
    (forall i :: 0 <= i < |r.messages| ==> Framed(r.messages[i], p)) &&
    Partial(r.pending, p)
  }

  /** A buffer of at least two slots: one for a byte, one for the terminator. */
  predicate Usable(p: Policy)
  {
    p.FlushWhenFull? ==> p.size >= 2
  }

  lemma ConcatSnoc(ms: seq<seq<char>>, m: seq<char>)
    ensures Concat(ms + [m]) == Concat(ms) + m
  {
    assert (ms + [m])[..|ms + [m]| - 1] == ms;
  }

  /** Unfolding `Run` on a sequence whose last byte is `c`. */
  lemma RunSnoc(r: Reassembly, s: seq<char>, c: char, p: Policy)
    ensures Run(r, s + [c], p) == Step(Run(r, s, p), c, p)
  {
    assert (s + [c])[..|s + [c]| - 1] == s;
  }

  /** Splitting the input into chunks anywhere does not change the result:
      the buffered partial message of one call is the prefix of the next. */
  lemma {:induction false} RunAppend(r: Reassembly, a: seq<char>, b: seq<char>, p: Policy)
    ensures Run(r, a + b, p) == Run(Run(r, a, p), b, p)
    decreases |b|
  {
    if b == [] {
      assert a + b == a;
    } else {
      var b', c := b[..|b| - 1], b[|b| - 1];
      assert b == b' + [c];
      assert a + b == (a + b') + [c];
      RunAppend(r, a, b', p);
      RunSnoc(r, a + b', c, p);
      RunSnoc(Run(r, a, p), b', c, p);
    }
  }

  /** Conservation: the emitted messages followed by the pending bytes are
      exactly the bytes received, in order; earlier messages are kept as a
      prefix of the later list. */
  lemma {:induction false} Conservation(r: Reassembly, s: seq<char>, p: Policy)
    ensures Concat(Run(r, s, p).messages) + Run(r, s, p).pending
            == Concat(r.messages) + r.pending + s
    ensures r.messages <= Run(r, s, p).messages
    decreases |s|
  {
    if s != [] {
      var s', c := s[..|s| - 1], s[|s| - 1];
      assert s == s' + [c];
      Conservation(r, s', p);
      RunSnoc(r, s', c, p);
      var mid := Run(r, s', p);
      var q := mid.pending + [c];
      if c == Newline || (p.FlushWhenFull? && |q| == p.size - 1) {
        ConcatSnoc(mid.messages, q);
        assert Concat(mid.messages + [q]) + [] == Concat(mid.messages) + mid.pending + [c];
      }
      assert Concat(r.messages) + r.pending + s == Concat(r.messages) + r.pending + s' + [c];
    }
  }

  /** One step keeps every message framed and the pending part bounded. */
  lemma StepSound(r: Reassembly, c: char, p: Policy)
    requires Usable(p) && Sound(r, p)
    ensures Sound(Step(r, c, p), p)
  {
    var q := r.pending + [c];
    var r' := Step(r, c, p);
    if c == Newline || (p.FlushWhenFull? && |q| == p.size - 1) {
      assert q[..|q| - 1] == r.pending;
      assert Framed(q, p);
      assert forall i :: 0 <= i < |r'.messages| ==>
        r'.messages[i] == if i < |r.messages| then r.messages[i] else q;
    } else {
      assert Newline !in q;
    }
  }

  /** Every byte sequence, however it arrives, yields only framed messages
      and a bounded partial: with the library policy, each message has
      between 1 and `size - 1` bytes and between bytes the buffer index is
      at most `size - 2`, so both buffer writes stay in bounds. */
  lemma {:induction false} RunSound(r: Reassembly, s: seq<char>, p: Policy)
    requires Usable(p) && Sound(r, p)
    ensures Sound(Run(r, s, p), p)
    decreases |s|
  {
    if s != [] {
      RunSound(r, s[..|s| - 1], p);
      StepSound(Run(r, s[..|s| - 1], p), s[|s| - 1], p);
    }
  }

  lemma StartSound(p: Policy)
    requires Usable(p)
    ensures Sound(Start, p)
  {
  }

  /** Bytes without a separator, while the buffer is not full, only extend
      the pending part. */
  lemma {:induction false} PartialAccumulates(r: Reassembly, s: seq<char>, p: Policy)
    requires Newline !in s
    requires p.FlushWhenFull? ==> |r.pending| + |s| < p.size - 1
    ensures Run(r, s, p) == Reassembly(r.messages, r.pending + s)
    decreases |s|
  {
    if s != [] {
      var s', c := s[..|s| - 1], s[|s| - 1];
      assert s == s' + [c];
      assert Newline !in s';
      PartialAccumulates(r, s', p);
      assert r.pending + s' + [c] == r.pending + s;
    }
  }

  /** A separator-terminated line that fits is emitted as one message made
      of the pending bytes, the line and the separator itself, and the
      buffer index returns to 0. */
  lemma LineEmits(r: Reassembly, line: seq<char>, p: Policy)
    requires Newline !in line
    requires p.FlushWhenFull? ==> |r.pending| + |line| < p.size - 1
    ensures Run(r, line + [Newline], p)
            == Reassembly(r.messages + [r.pending + line + [Newline]], [])
  {
    PartialAccumulates(r, line, p);
    RunSnoc(r, line, Newline, p);
  }

  /** Library policy: `size - 1` bytes without a separator are emitted as a
      message of their own and the index resets; no byte is dropped. */
  lemma FullBufferFlushes(r: Reassembly, s: seq<char>, size: nat)
    requires Newline !in s && s != []
    requires |r.pending| + |s| == size - 1
    ensures Run(r, s, FlushWhenFull(size))
            == Reassembly(r.messages + [r.pending + s], [])
  {
    var s', c := s[..|s| - 1], s[|s| - 1];
    assert s == s' + [c];
    assert Newline !in s';
    PartialAccumulates(r, s', FlushWhenFull(size));
    RunSnoc(r, s', c, FlushWhenFull(size));
    assert r.pending + s' + [c] == r.pending + s;
  }

  /** One chunk holding two lines yields two messages, in input order. */
  lemma MultiMessageChunk(p: Policy)
    requires p.FlushWhenFull? ==> p.size >= 4
    ensures Run(Start, "ab\ncd\n", p) == Reassembly(["ab\n", "cd\n"], [])
  {
    var first, second := "ab" + [Newline], "cd" + [Newline];
    assert "ab\ncd\n" == first + second;
    RunAppend(Start, first, second, p);
    LineEmits(Start, "ab", p);
    assert Start.pending + "ab" + [Newline] == "ab\n";
    assert Start.messages + ["ab\n"] == ["ab\n"];
    assert Run(Start, first, p) == Reassembly(["ab\n"], []);
    LineEmits(Reassembly(["ab\n"], []), "cd", p);
    assert [] + "cd" + [Newline] == "cd\n";
  }

  /** With a four-byte buffer and no separator, the library cuts every three
      bytes and emits the pieces; it does not discard them.  The next line
      is then received intact. */
  lemma FullBufferExample()
    ensures Run(Start, "abcdef", FlushWhenFull(4)) == Reassembly(["abc", "def"], [])
    ensures Run(Start, "abcdefg\n", FlushWhenFull(4)) == Reassembly(["abc", "def", "g\n"], [])
  {
    var p := FlushWhenFull(4);
    assert "abcdef" == "abc" + "def";
    RunAppend(Start, "abc", "def", p);
    FullBufferFlushes(Start, "abc", 4);
    assert Start.pending + "abc" == "abc";
    assert Start.messages + ["abc"] == ["abc"];
    assert Run(Start, "abc", p) == Reassembly(["abc"], []);
    FullBufferFlushes(Reassembly(["abc"], []), "def", 4);
    assert [] + "def" == "def";
    assert Run(Start, "abcdef", p) == Reassembly(["abc", "def"], []);
    var last := "g" + [Newline];
    assert "abcdefg\n" == "abcdef" + last;
    RunAppend(Start, "abcdef", last, p);
    LineEmits(Reassembly(["abc", "def"], []), "g", p);
    assert [] + "g" + [Newline] == "g\n";
  }

  lemma {:induction false} ConcatCons(m: seq<char>, ms: seq<seq<char>>)
    ensures Concat([m] + ms) == m + Concat(ms)
    decreases |ms|
  {
    if ms == [] {
      assert [m] + ms == [] + [m];
      ConcatSnoc([], m);
    } else {
      var ms', l := ms[..|ms| - 1], ms[|ms| - 1];
      assert ms == ms' + [l];
      assert [m] + ms == ([m] + ms') + [l];
      ConcatCons(m, ms');
      ConcatSnoc([m] + ms', l);
      ConcatSnoc(ms', l);
    }
  }

  /** On an empty buffer a framed message is emitted whole. */
  lemma FrameEmits(r: Reassembly, m: seq<char>, p: Policy)
    requires r.pending == [] && Framed(m, p)
    ensures Run(r, m, p) == Reassembly(r.messages + [m], [])
  {
    if m[|m| - 1] == Newline {
      var line := m[..|m| - 1];
      assert m == line + [Newline];
      LineEmits(r, line, p);
      assert r.pending + line + [Newline] == m;
    } else {
      assert Newline !in m by {
        assert m == m[..|m| - 1] + [m[|m| - 1]];
      }
      FullBufferFlushes(r, m, p.size);
      assert r.pending + m == m;
    }
  }

  /** Dropping the first message keeps a split sound. */
  lemma SoundTail(x: Reassembly, p: Policy)
    requires Sound(x, p) && x.messages != []
    ensures Sound(Reassembly(x.messages[1..], x.pending), p)
    ensures Framed(x.messages[0], p)
  {
    var rest := x.messages[1..];
    assert forall i :: 0 <= i < |rest| ==> rest[i] == x.messages[i + 1];
  }

  /** Read front to back, a sound split is what the loop produces: started
      on an empty buffer, feeding the loop the messages of `x` laid end to
      end and then its pending bytes emits exactly those messages and leaves
      exactly those bytes pending. */
  lemma {:induction false} RunOfSplit(r: Reassembly, x: Reassembly, p: Policy)
    requires r.pending == [] && Sound(x, p)
    ensures Run(r, Concat(x.messages) + x.pending, p)
            == Reassembly(r.messages + x.messages, x.pending)
    decreases |x.messages|
  {
    if x.messages == [] {
      assert Concat(x.messages) + x.pending == x.pending;
      PartialAccumulates(r, x.pending, p);
      assert r.pending + x.pending == x.pending;
      assert r.messages + x.messages == r.messages;
    } else {
      var m, rest := x.messages[0], x.messages[1..];
      var x', t := Reassembly(rest, x.pending), Concat(rest) + x.pending;
      var r' := Reassembly(r.messages + [m], []);
      assert x.messages == [m] + rest;
      ConcatCons(m, rest);
      assert Concat(x.messages) + x.pending == m + t;
      SoundTail(x, p);
      FrameEmits(r, m, p);
      RunAppend(r, m, t, p);
      RunOfSplit(r', x', p);
      assert r'.messages + rest == r.messages + x.messages;
    }
  }

  /** For either policy the result of `Run` is the only way to cut the
      received bytes into framed messages followed by a partial: with the
      sketch's policy the messages are exactly the input's lines, newline
      included; with the library's each message is forced in turn, ending
      at the first newline if it comes within `size - 1` bytes and after
      exactly `size - 1` bytes otherwise. */
  lemma SplitIsUnique(x: Reassembly, s: seq<char>, p: Policy)
    requires Sound(x, p)
    requires Concat(x.messages) + x.pending == s
    ensures x == Run(Start, s, p)
  {
    RunOfSplit(Start, x, p);
    assert Start.messages + x.messages == x.messages;
  }
}
