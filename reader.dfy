/**
 * The byte-to-line loop of the watcher: bytes read from the socket, in
 * chunks of any size, are appended one at a time to a growable line
 * buffer; each newline ends a line, which is handed, without its newline,
 * to the protocol state machine, and the buffer is emptied while keeping
 * its capacity.
 *
 * `Scan` is the byte-by-byte specification of the loop and `Split` an
 * independent definition (cut at each newline); they are proved equal, and
 * `ReadSocket` is proved against both.
 */
module Reader {
  import opened Protocol

  newtype byte = x: int | 0 <= x < 0x100

  const NEWLINE: byte := 10
  const NUL: byte := 0

  /** Capacity of the line buffer when the read loop starts. */
  const INITIAL_CAPACITY: nat := 4096

  // ---------------------------------------------------------------------
  // Specification of line reassembly

  /** The lines completed so far and the unterminated fragment after them. */
  datatype Reassembly = Reassembly(lines: seq<seq<byte>>, pending: seq<byte>)

  /** One byte of the loop: a newline completes the pending fragment as a
      line, any other byte extends it. */
  function Push(r: Reassembly, b: byte): Reassembly
  {
    if b == NEWLINE then Reassembly(r.lines + [r.pending], [])
    else Reassembly(r.lines, r.pending + [b])
  }

  /** The bytes of `s` pushed one by one, in order. */
  function Scan(r: Reassembly, s: seq<byte>): Reassembly
  {
    if s == [] then r else Push(Scan(r, s[..|s| - 1]), s[|s| - 1])
  }

  /** The bytes of all chunks, in order. */
  function Concat(chunks: seq<seq<byte>>): seq<byte>
  {
    if chunks == [] then [] else chunks[0] + Concat(chunks[1..])
  }

  /** The lines, each followed by its newline, then the fragment. */
  function Unsplit(lines: seq<seq<byte>>, pending: seq<byte>): seq<byte>
  {
    if lines == [] then pending else lines[0] + [NEWLINE] + Unsplit(lines[1..], pending)
  }

  /** `p` put in front of the first line of `r`, or in front of its
      fragment when `r` has no line. */
  function Prepend(p: seq<byte>, r: Reassembly): Reassembly
  {
    if r.lines == [] then Reassembly([], p + r.pending)
    else Reassembly([p + r.lines[0]] + r.lines[1..], r.pending)
  }

  /** A stream cut at each newline, built from the back: a newline ends an
      empty line in front of the lines of the rest; any other byte goes in
      front of the first line of the rest. */
  function Split(s: seq<byte>): Reassembly
  {
    if s == [] then Reassembly([], [])
    else
      var rest := Split(s[1..]);
      if s[0] == NEWLINE then Reassembly([[]] + rest.lines, rest.pending)
      else Prepend([s[0]], rest)
  }

  // ---------------------------------------------------------------------
  // Properties of line reassembly

  /** The cut loses nothing but the newlines: no line and not the fragment
      holds a newline, and putting a newline after each line gives the
      stream back. */
  lemma {:induction false} SplitRoundTrip(s: seq<byte>)
    ensures forall k :: 0 <= k < |Split(s).lines| ==> NEWLINE !in Split(s).lines[k]
    ensures NEWLINE !in Split(s).pending
    ensures Unsplit(Split(s).lines, Split(s).pending) == s
    decreases |s|
  {
    if s != [] {
      var rest := Split(s[1..]);
      SplitRoundTrip(s[1..]);
      assert s == [s[0]] + s[1..];
      if s[0] == NEWLINE {
        assert ([[]] + rest.lines)[1..] == rest.lines;
      } else if rest.lines != [] {
        var r := Split(s);
        assert r.lines[1..] == rest.lines[1..];
        assert Unsplit(r.lines, r.pending) == [s[0]] + Unsplit(rest.lines, rest.pending);
      }
    }
  }

  /** Putting nothing in front changes nothing. */
  lemma PrependEmpty(r: Reassembly)
    ensures Prepend([], r) == r
  {
    if r.lines != [] {
      assert [] + r.lines[0] == r.lines[0];
      assert [r.lines[0]] + r.lines[1..] == r.lines;
    } else {
      assert [] + r.pending == r.pending;
    }
  }

  /** Putting `q` and then `p` in front is putting `p + q` in front. */
  lemma PrependPrepend(p: seq<byte>, q: seq<byte>, r: Reassembly)
    ensures Prepend(p, Prepend(q, r)) == Prepend(p + q, r)
  {
    if r.lines != [] {
      assert ([q + r.lines[0]] + r.lines[1..])[1..] == r.lines[1..];
      assert p + (q + r.lines[0]) == p + q + r.lines[0];
    } else {
      assert p + (q + r.pending) == p + q + r.pending;
    }
  }

  /** A newline-free prefix of a stream is the front of its first line (or
      of its fragment). */
  lemma {:induction false} SplitPrefix(l: seq<byte>, s: seq<byte>)
    requires NEWLINE !in l
    ensures Split(l + s) == Prepend(l, Split(s))
    decreases |l|
  {
    if l == [] {
      assert l + s == s;
      PrependEmpty(Split(s));
    } else {
      assert (l + s)[1..] == l[1..] + s;
      assert (l + s)[0] == l[0] != NEWLINE;
      SplitPrefix(l[1..], s);
      PrependPrepend([l[0]], l[1..], Split(s));
      assert [l[0]] + l[1..] == l;
    }
  }

  /** The cut at newlines is the only way to write a stream as newline-free
      lines, each followed by a newline, and a newline-free fragment. */
  lemma {:induction false} SplitUnique(lines: seq<seq<byte>>, pending: seq<byte>)
    requires forall k :: 0 <= k < |lines| ==> NEWLINE !in lines[k]
    requires NEWLINE !in pending
    ensures Split(Unsplit(lines, pending)) == Reassembly(lines, pending)
    decreases |lines|
  {
    if lines == [] {
      assert pending + [] == pending;
      SplitPrefix(pending, []);
    } else {
      var l := lines[0];
      var rest := Unsplit(lines[1..], pending);
      assert Unsplit(lines, pending) == l + ([NEWLINE] + rest);
      SplitUnique(lines[1..], pending);
      SplitPrefix(l, [NEWLINE] + rest);
      assert ([NEWLINE] + rest)[1..] == rest;
      assert l + [] == l;
      assert [l] + lines[1..] == lines;
    }
  }

  /** Pushing the bytes of `a + b` is pushing those of `a`, then, from the
      state reached, those of `b`: the pending fragment carried across a
      read boundary makes the boundary invisible. */
  lemma {:induction false} ScanAppend(r: Reassembly, a: seq<byte>, b: seq<byte>)
    ensures Scan(r, a + b) == Scan(Scan(r, a), b)
    decreases |b|
  {
    if b == [] {
      assert a + b == a;
    } else {
      var b' := b[..|b| - 1];
      assert (a + b)[..|a + b| - 1] == a + b';
      assert (a + b)[|a + b| - 1] == b[|b| - 1];
      ScanAppend(r, a, b');
    }
  }

  /** The chunks read one after the other, each from the state the previous
      one left. */
  function ScanChunks(r: Reassembly, chunks: seq<seq<byte>>): Reassembly
    decreases |chunks|
  {
    if chunks == [] then r else ScanChunks(Scan(r, chunks[0]), chunks[1..])
  }

  /** Reading chunk after chunk, with the fragment carried over, is reading
      their concatenation at once. */
  lemma {:induction false} ScanChunksIsScan(r: Reassembly, chunks: seq<seq<byte>>)
    ensures ScanChunks(r, chunks) == Scan(r, Concat(chunks))
    decreases |chunks|
  {
    if chunks != [] {
      ScanChunksIsScan(Scan(r, chunks[0]), chunks[1..]);
      ScanAppend(r, chunks[0], Concat(chunks[1..]));
    }
  }

  /** Two ways of cutting one stream into reads deliver the same lines and
      leave the same fragment. */
  lemma ChunkBoundariesInvisible(c1: seq<seq<byte>>, c2: seq<seq<byte>>)
    requires Concat(c1) == Concat(c2)
    ensures ScanChunks(Reassembly([], []), c1) == ScanChunks(Reassembly([], []), c2)
  {
    ScanChunksIsScan(Reassembly([], []), c1);
    ScanChunksIsScan(Reassembly([], []), c2);
  }

  /** Pushing a byte and then the rest is pushing the whole stream. */
  lemma ScanCons(r: Reassembly, b: byte, t: seq<byte>)
    ensures Scan(r, [b] + t) == Scan(Push(r, b), t)
  {
    ScanAppend(r, [b], t);
    assert [b][..0] == [];
  }

  /** A newline right after `p` makes `p` a line of its own. */
  lemma PrependNewline(p: seq<byte>, t: seq<byte>)
    ensures Prepend(p, Split([NEWLINE] + t)) == Reassembly([p] + Split(t).lines, Split(t).pending)
  {
    var rt := Split(t);
    assert ([NEWLINE] + t)[1..] == t;
    assert Split([NEWLINE] + t) == Reassembly([[]] + rt.lines, rt.pending);
    assert ([[]] + rt.lines)[1..] == rt.lines;
    assert p + [] == p;
  }

  /** A newline ends the fragment as a line. */
  lemma ScanFromNewline(lines: seq<seq<byte>>, p: seq<byte>, t: seq<byte>)
    requires Scan(Reassembly(lines + [p], []), t)
          == Reassembly(lines + [p] + Prepend([], Split(t)).lines, Prepend([], Split(t)).pending)
    ensures Scan(Reassembly(lines, p), [NEWLINE] + t)
         == Reassembly(lines + Prepend(p, Split([NEWLINE] + t)).lines, Prepend(p, Split([NEWLINE] + t)).pending)
  {
    var rt := Split(t);
    ScanCons(Reassembly(lines, p), NEWLINE, t);
    PrependEmpty(rt);
    PrependNewline(p, t);
    assert lines + [p] + rt.lines == lines + ([p] + rt.lines) by {
      var u := [p] + rt.lines;
      assert forall k :: 0 <= k < |u| ==> (lines + [p] + rt.lines)[|lines| + k] == u[k];
    }
  }

  /** Any other byte extends the fragment. */
  lemma ScanFromOther(lines: seq<seq<byte>>, p: seq<byte>, b: byte, t: seq<byte>)
    requires b != NEWLINE
    requires Scan(Reassembly(lines, p + [b]), t)
          == Reassembly(lines + Prepend(p + [b], Split(t)).lines, Prepend(p + [b], Split(t)).pending)
    ensures Scan(Reassembly(lines, p), [b] + t)
         == Reassembly(lines + Prepend(p, Split([b] + t)).lines, Prepend(p, Split([b] + t)).pending)
  {
    ScanCons(Reassembly(lines, p), b, t);
    assert ([b] + t)[1..] == t;
    assert Split([b] + t) == Prepend([b], Split(t));
    PrependPrepend(p, [b], Split(t));
  }

  /** From lines `lines` and fragment `p`, the loop keeps `lines`, puts `p`
      in front of what the rest of the stream cuts into, and appends that. */
  lemma {:induction false} ScanFrom(lines: seq<seq<byte>>, p: seq<byte>, s: seq<byte>)
    ensures Scan(Reassembly(lines, p), s)
         == Reassembly(lines + Prepend(p, Split(s)).lines, Prepend(p, Split(s)).pending)
    decreases |s|
  {
    if s == [] {
      assert lines + [] == lines;
      assert p + [] == p;
    } else {
      var b, t := s[0], s[1..];
      assert s == [b] + t;
      if b == NEWLINE {
        ScanFrom(lines + [p], [], t);
        ScanFromNewline(lines, p, t);
      } else {
        ScanFrom(lines, p + [b], t);
        ScanFromOther(lines, p, b, t);
      }
    }
  }

  /** The byte-by-byte loop, started empty, cuts the stream at its newlines. */
  lemma ScanIsSplit(s: seq<byte>)
    ensures Scan(Reassembly([], []), s) == Split(s)
  {
    ScanFrom([], [], s);
    PrependEmpty(Split(s));
    assert [] + Split(s).lines == Split(s).lines;
  }

  // ---------------------------------------------------------------------
  // The line buffer

  /** The growable buffer of the read loop: `buf` is the allocated block,
      its length the capacity, and `buf[..len]` the bytes of the line read
      so far. */
  class LineBuffer {
    var buf: array<byte>
    var len: nat

    /** There is always a free byte after the line, and the capacity never
        falls below its initial size. */
    ghost predicate Valid()
      reads this
    {
      len < buf.Length && INITIAL_CAPACITY <= buf.Length
    }

    /** The bytes of the unterminated line held. */
    function Pending(): seq<byte>
      reads this, buf
      requires Valid()
    {
      buf[..len]
    }

    constructor ()
      ensures Valid() && fresh(buf)
      ensures buf.Length == INITIAL_CAPACITY && Pending() == []
    {
      buf := new byte[INITIAL_CAPACITY];
      len := 0;
    }

    /** Double the capacity, keeping every byte of the block (what the
        resize in the read loop is meant to do). */
    method Grow()
      requires Valid()
      modifies this
      ensures Valid() && fresh(buf)
      ensures buf.Length == 2 * old(buf.Length)
      ensures len == old(len) && Pending() == old(Pending())
    {
      var grown := new byte[2 * buf.Length];
      var i := 0;
      while i < buf.Length
        invariant buf == old(buf) && len == old(len)
        invariant 0 <= i <= buf.Length < grown.Length
        invariant grown[..i] == buf[..i]
      {
        grown[i] := buf[i];
        i := i + 1;
      }
      assert grown[..len] == grown[..buf.Length][..len];
      buf := grown;
    }

    /** Append one byte, first doubling the capacity when `len + 1` has
        reached it. */
    method Append(b: byte)
      requires Valid()
      modifies this, buf
      ensures Valid() && (buf == old(buf) || fresh(buf))
      ensures buf.Length == if old(len) + 1 >= old(buf.Length) then 2 * old(buf.Length) else old(buf.Length)
      ensures Pending() == old(Pending()) + [b]
    {
      if len + 1 >= buf.Length {
        Grow();
      }
      buf[len] := b;
      len := len + 1;
    }

    /** Hand over the line just ended by a newline: the newline is
        overwritten by a terminator, the bytes before it are the line, and
        the buffer is emptied with its capacity kept. */
    method TakeLine() returns (line: seq<byte>)
      requires Valid() && len > 0 && buf[len - 1] == NEWLINE
      modifies this, buf
      ensures Valid() && buf == old(buf)
      ensures buf[old(len) - 1] == NUL
      ensures line + [NEWLINE] == old(Pending())
      ensures Pending() == []
    {
      buf[len - 1] := NUL;
      line := buf[..len - 1];
      len := 0;
    }
  }

  /** The lines of a stream decoded one by one. */
  function Decoded(decode: seq<byte> -> Message, lines: seq<seq<byte>>): seq<Message>
  {
    if lines == [] then [] else Decoded(decode, lines[..|lines| - 1]) + [decode(lines[|lines| - 1])]
  }

  /** One byte of the loop: appended to the line buffer; when it is a
      newline, the line it ends is handed to the state machine. */
  method FeedByte(lb: LineBuffer, ps: ProgramState, b: byte, decode: seq<byte> -> Message,
                  delivered: seq<seq<byte>>)
    returns (delivered': seq<seq<byte>>)
    requires lb.Valid() && ps.Valid()
    requires ps.View() == Run(Initial(), Decoded(decode, delivered))
    modifies lb, lb.buf, ps
    ensures lb.Valid() && ps.Valid()
    ensures lb.buf == old(lb.buf) || fresh(lb.buf)
    ensures Reassembly(delivered', lb.Pending()) == Push(Reassembly(delivered, old(lb.Pending())), b)
    ensures ps.View() == Run(Initial(), Decoded(decode, delivered'))
  {
    ghost var pending := lb.Pending();
    delivered' := delivered;
    lb.Append(b);
    if b == NEWLINE {
      var line := lb.TakeLine();
      assert line == pending by {
        assert (line + [NEWLINE])[..|line|] == line;
        assert (pending + [NEWLINE])[..|pending|] == pending;
      }
      assert (delivered + [line])[..|delivered|] == delivered;
      delivered' := delivered + [line];
      ps.ProcessLine(decode(line));
    }
  }

  /** The bytes of one chunk fed in turn: lines and the pending fragment
      evolve as `Scan` says, and the program state follows the lines
      handed over. */
  method ReadChunk(lb: LineBuffer, ps: ProgramState, chunk: seq<byte>, decode: seq<byte> -> Message,
                   delivered: seq<seq<byte>>)
    returns (delivered': seq<seq<byte>>)
    requires lb.Valid() && ps.Valid()
    requires ps.View() == Run(Initial(), Decoded(decode, delivered))
    modifies lb, lb.buf, ps
    ensures lb.Valid() && ps.Valid()
    ensures lb.buf == old(lb.buf) || fresh(lb.buf)
    ensures Reassembly(delivered', lb.Pending()) == Scan(Reassembly(delivered, old(lb.Pending())), chunk)
    ensures ps.View() == Run(Initial(), Decoded(decode, delivered'))
  {
    ghost var start := Reassembly(delivered, lb.Pending());
    delivered' := delivered;
    var i := 0;
    assert chunk[..0] == [];
    while i < |chunk|
      invariant 0 <= i <= |chunk|
      invariant lb.Valid() && ps.Valid()
      invariant lb.buf == old(lb.buf) || fresh(lb.buf)
      invariant Scan(start, chunk[..i]) == Reassembly(delivered', lb.Pending())
      invariant ps.View() == Run(Initial(), Decoded(decode, delivered'))
    {
      assert chunk[..i + 1] == chunk[..i] + [chunk[i]];
      assert Scan(start, chunk[..i] + [chunk[i]]) == Push(Scan(start, chunk[..i]), chunk[i]);
      delivered' := FeedByte(lb, ps, chunk[i], decode, delivered');
      i := i + 1;
    }
    assert chunk[..i] == chunk;
  }

  /** The read loop over the chunks the socket returns, until end of
      stream.  Every newline-terminated line of the whole stream is
      delivered exactly once, in order, without its newline, and the
      program state is what those lines make of the initial state; the
      unterminated rest is never processed.  `decode` stands for the JSON
      parser. */
  method ReadSocket(chunks: seq<seq<byte>>, decode: seq<byte> -> Message)
    returns (ps: ProgramState, delivered: seq<seq<byte>>, leftover: seq<byte>)
    ensures ps.Valid()
    ensures Reassembly(delivered, leftover) == Split(Concat(chunks))
    ensures ps.View() == Run(Initial(), Decoded(decode, delivered))
  {
    ps := new ProgramState();
    var lb := new LineBuffer();
    delivered := [];
    ghost var done: seq<byte> := [];
    var k := 0;
    while k < |chunks|
      invariant 0 <= k <= |chunks|
      invariant lb.Valid() && ps.Valid()
      invariant fresh(lb) && fresh(lb.buf) && fresh(ps)
      invariant Concat(chunks) == done + Concat(chunks[k..])
      invariant Scan(Reassembly([], []), done) == Reassembly(delivered, lb.Pending())
      invariant ps.View() == Run(Initial(), Decoded(decode, delivered))
    {
      var chunk := chunks[k];
      assert chunks[k..][1..] == chunks[k + 1..];
      assert Concat(chunks[k..]) == chunk + Concat(chunks[k + 1..]);
      assert done + Concat(chunks[k..]) == (done + chunk) + Concat(chunks[k + 1..]);
      ScanAppend(Reassembly([], []), done, chunk);
      delivered := ReadChunk(lb, ps, chunk, decode, delivered);
      done := done + chunk;
      k := k + 1;
    }
    assert chunks[k..] == [];
    assert done + [] == done;
    ScanIsSplit(done);
    leftover := lb.Pending();
  }

  // ---------------------------------------------------------------------
  // The resize as written

  /** The block `lb.buf` designates: the bytes of the line, or nothing
      defined once the pointer has been overwritten. */
  datatype Storage = Holds(bytes: seq<byte>) | Indeterminate

  /** The line buffer as the loop keeps it, with the capacity as a number. */
  datatype RawBuffer = RawBuffer(store: Storage, len: nat, capacity: nat)

  /** The append step as written: when `len + 1` reaches the capacity, the
      block is resized but the result of the resize is dropped and an
      uninitialised pointer is stored in its place, so the bytes of the line
      are no longer reachable and the byte goes through that pointer. */
  function AppendAsWritten(rb: RawBuffer, b: byte): RawBuffer
  {
    if rb.len + 1 >= rb.capacity then RawBuffer(Indeterminate, rb.len + 1, 2 * rb.capacity)
    else if rb.store.Holds? then RawBuffer(Holds(rb.store.bytes + [b]), rb.len + 1, rb.capacity)
    else RawBuffer(Indeterminate, rb.len + 1, rb.capacity)
  }

  /** The bytes of one line, newline included, appended as written to a
      buffer just allocated. */
  function FillAsWritten(s: seq<byte>): RawBuffer
  {
    if s == [] then RawBuffer(Holds([]), 0, INITIAL_CAPACITY)
    else AppendAsWritten(FillAsWritten(s[..|s| - 1]), s[|s| - 1])
  }

  /** Up to 4095 bytes the buffer as written holds the line. */
  lemma {:induction false} FillAsWrittenShort(s: seq<byte>)
    requires |s| < INITIAL_CAPACITY
    ensures FillAsWritten(s) == RawBuffer(Holds(s), |s|, INITIAL_CAPACITY)
    decreases |s|
  {
    if s != [] {
      FillAsWrittenShort(s[..|s| - 1]);
      assert s[..|s| - 1] + [s[|s| - 1]] == s;
    }
  }

  /** From the 4096th byte of a line on (a line of 4095 bytes and its
      newline is enough), the buffer as written no longer holds the line,
      whereas `LineBuffer.Append` keeps every byte. */
  lemma {:induction false} FillAsWrittenLong(s: seq<byte>)
    requires |s| >= INITIAL_CAPACITY
    ensures FillAsWritten(s).store == Indeterminate
    ensures FillAsWritten(s).len == |s|
    decreases |s|
  {
    var init := s[..|s| - 1];
    if |s| == INITIAL_CAPACITY {
      FillAsWrittenShort(init);
    } else {
      FillAsWrittenLong(init);
    }
  }
}
