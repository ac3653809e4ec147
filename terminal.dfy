/**
 * The byte-stream primitives of the pseudo-terminal package: the chunk
 * buffering reader `BetterReader`, the line-feed rewrite `LF_to_CRLF`, and the
 * PTY (controlling side) / PTT (observer side) pair.
 *
 * Streams are modelled by the chunks they carry: a reader's delegate is the
 * list of chunks it has yet to deliver, and a `ReadableStream` controller is
 * the list of chunks enqueued on it so far.
 */
module Terminal {
  import opened Common

  // ---------------------------------------------------------------------------
  // Text encoding (the `TextEncoder` used by both write paths)
  // ---------------------------------------------------------------------------

  /** The UTF-8 encoding of one Unicode scalar value. */
  function Utf8EncodeChar(c: char): (r: seq<Byte>)
    ensures 1 <= |r| <= 4
    ensures r[0] == LF <==> c == '\n'
    ensures |r| > 1 ==> forall k :: 0 <= k < |r| ==> r[k] >= 0x80
  {
    var cp := c as int;
    if cp < 0x80 then [cp]
    else if cp < 0x800 then [0xC0 + cp / 64, 0x80 + cp % 64]
    else if cp < 0x10000 then [0xE0 + cp / 4096, 0x80 + (cp / 64) % 64, 0x80 + cp % 64]
    else [0xF0 + cp / 262144, 0x80 + (cp / 4096) % 64, 0x80 + (cp / 64) % 64, 0x80 + cp % 64]
  }

  /** `TextEncoder.encode`: UTF-8, character by character. */
  function Utf8Encode(s: string): seq<Byte>
  {
    if s == [] then [] else Utf8EncodeChar(s[0]) + Utf8Encode(s[1..])
  }

  lemma {:induction false} Utf8EncodeAppend(s: string, t: string)
    ensures Utf8Encode(s + t) == Utf8Encode(s) + Utf8Encode(t)
  {
    if s == [] {
      assert s + t == t;
    } else {
      assert (s + t)[1..] == s[1..] + t;
      Utf8EncodeAppend(s[1..], t);
    }
  }

  /** A chunk handed to a writable stream: a string or a byte array. */
  datatype WriteChunk = Text(text: string) | Binary(bytes: Chunk)

  /** What a write path enqueues for a chunk before any rewriting. */
  function ChunkBytes(chunk: WriteChunk): Chunk
  {
    match chunk
    case Text(s) => Utf8Encode(s)
    case Binary(b) => b
  }

  // ---------------------------------------------------------------------------
  // LF_to_CRLF
  // ---------------------------------------------------------------------------

  /** The number of line-feed bytes in `s`. */
  function CountLF(s: seq<Byte>): nat
  {
    if s == [] then 0 else (if s[0] == LF then 1 else 0) + CountLF(s[1..])
  }

  /** What one input byte becomes: a line feed gets a carriage return in front. */
  function ExpandByte(b: Byte): seq<Byte>
  {
    if b == LF then [CR, LF] else [b]
  }

  /** The intended rewrite: every 0x0A replaced by 0x0D 0x0A, all else kept in order. */
  function ExpandLF(s: seq<Byte>): seq<Byte>
  {
    if s == [] then [] else ExpandByte(s[0]) + ExpandLF(s[1..])
  }

  lemma {:induction false} ExpandLFAppend(s: seq<Byte>, t: seq<Byte>)
    ensures ExpandLF(s + t) == ExpandLF(s) + ExpandLF(t)
    ensures CountLF(s + t) == CountLF(s) + CountLF(t)
  {
    if s == [] {
      assert s + t == t;
    } else {
      assert (s + t)[1..] == s[1..] + t;
      ExpandLFAppend(s[1..], t);
    }
  }

  /** The output is exactly one byte longer per line feed of the input. */
  lemma {:induction false} ExpandLFLength(s: seq<Byte>)
    ensures |ExpandLF(s)| == |s| + CountLF(s)
  {
    if s != [] {
      ExpandLFLength(s[1..]);
    }
  }

  /** Inverse of the rewrite: a CR directly followed by LF collapses to the LF. */
  function CollapseCRLF(t: seq<Byte>): seq<Byte>
  {
    if t == [] then []
    else if |t| >= 2 && t[0] == CR && t[1] == LF then [LF] + CollapseCRLF(t[2..])
    else [t[0]] + CollapseCRLF(t[1..])
  }

  lemma {:induction false} ExpandLFNotLeadingLF(s: seq<Byte>)
    ensures ExpandLF(s) == [] <==> s == []
    ensures ExpandLF(s) != [] ==> ExpandLF(s)[0] != LF
  {
  }

  /** The rewrite loses nothing: collapsing CR LF pairs gives the input back. */
  lemma {:induction false} CollapseExpandLF(s: seq<Byte>)
    ensures CollapseCRLF(ExpandLF(s)) == s
  {
    if s != [] {
      var rest := ExpandLF(s[1..]);
      CollapseExpandLF(s[1..]);
      if s[0] == LF {
        assert ExpandLF(s) == [CR, LF] + rest;
        assert ExpandLF(s)[2..] == rest;
      } else {
        ExpandLFNotLeadingLF(s[1..]);
        assert ExpandLF(s) == [s[0]] + rest;
        assert ExpandLF(s)[1..] == rest;
      }
    }
  }

  /** No check for an existing CR: `\r\n` becomes `\r\r\n`, so the rewrite is not idempotent. */
  lemma ExpandLFNotIdempotent()
    ensures ExpandLF([CR, LF]) == [CR, CR, LF]
    ensures ExpandLF(ExpandLF([LF])) != ExpandLF([LF])
  {
    assert ExpandLF([LF]) == [CR, LF];
    assert ExpandLF([CR, LF]) == [CR] + ExpandLF([LF]);
  }

  /** The string-level view: `\n` characters become `\r\n`, nothing else changes. */
  function NewlinesToCRLF(s: string): string
  {
    if s == [] then [] else (if s[0] == '\n' then "\r\n" else [s[0]]) + NewlinesToCRLF(s[1..])
  }

  /**
   * Rewriting the encoded bytes is the same as encoding the text with its
   * newlines rewritten: UTF-8 never puts 0x0A inside a multi-byte character.
   */
  lemma {:induction false} ExpandLFOfText(s: string)
    ensures ExpandLF(Utf8Encode(s)) == Utf8Encode(NewlinesToCRLF(s))
  {
    if s != [] {
      var head := Utf8EncodeChar(s[0]);
      ExpandLFOfText(s[1..]);
      ExpandLFAppend(head, Utf8Encode(s[1..]));
      Utf8EncodeAppend(if s[0] == '\n' then "\r\n" else [s[0]], NewlinesToCRLF(s[1..]));
      if s[0] == '\n' {
        assert head == [LF];
        assert ExpandLF(head) == [CR, LF];
        assert Utf8Encode("\r\n") == [CR, LF];
      } else {
        ExpandLFNoLF(head);
        assert Utf8Encode([s[0]]) == head;
      }
    }
  }

  lemma ExpandLFNoLF(head: seq<Byte>)
    requires 1 <= |head| <= 4 && head[0] != LF
    requires |head| > 1 ==> forall k :: 0 <= k < |head| ==> head[k] >= 0x80
    ensures ExpandLF(head) == head
  {
    var i := |head|;
    while i > 0
      invariant 0 <= i <= |head|
      invariant ExpandLF(head[i..]) == head[i..]
    {
      i := i - 1;
      assert head[i..] == [head[i]] + head[i + 1..];
    }
  }

  /**
   * `PTY.LF_to_CRLF`: count the line feeds, allocate an output of exactly the
   * resulting size, then copy with a moving output index.
   */
  method LfToCrlf(input: array<Byte>) returns (output: array<Byte>)
    ensures fresh(output)
    ensures output.Length == input.Length + CountLF(input[..])
    ensures output[..] == ExpandLF(input[..])
  {
    var lfCount := CountLineFeeds(input);
    output := new Byte[input.Length + lfCount];
    ExpandLFLength(input[..]);
    CopyExpanded(input, output);
  }

  /** The counting loop of `LF_to_CRLF`. */
  method CountLineFeeds(input: array<Byte>) returns (lfCount: nat)
    ensures lfCount == CountLF(input[..])
  {
    lfCount := 0;
    for i := 0 to input.Length
      invariant lfCount == CountLF(input[..i])
    {
      PrefixStep(input[..], i);
      if input[i] == LF {
        lfCount := lfCount + 1;
      }
    }
    assert input[..] == input[..input.Length];
  }

  /** The copying loop of `LF_to_CRLF`, into an output of exactly the right size. */
  method CopyExpanded(input: array<Byte>, output: array<Byte>)
    requires input != output && output.Length == input.Length + CountLF(input[..])
    modifies output
    ensures output[..] == ExpandLF(input[..])
  {
    var outputIndex := 0;
    for i := 0 to input.Length
      invariant outputIndex == i + CountLF(input[..i]) <= output.Length
      invariant output[..outputIndex] == ExpandLF(input[..i])
    {
      PrefixStep(input[..], i);
      ghost var before := output[..outputIndex];
      if input[i] == LF {
        output[outputIndex] := CR;
        outputIndex := outputIndex + 1;
      }
      output[outputIndex] := input[i];
      outputIndex := outputIndex + 1;
      assert output[..outputIndex] == before + ExpandByte(input[i]);
    }
    assert input[..] == input[..input.Length];
    assert output[..] == output[..outputIndex];
  }

  /** Extending the prefix by one byte extends its rewrite by that byte's rewrite. */
  lemma PrefixStep(s: seq<Byte>, i: nat)
    requires i < |s|
    ensures ExpandLF(s[..i + 1]) == ExpandLF(s[..i]) + ExpandByte(s[i])
    ensures CountLF(s[..i + 1]) == CountLF(s[..i]) + |ExpandByte(s[i])| - 1
    ensures i + 1 + CountLF(s[..i + 1]) <= |s| + CountLF(s)
  {
    assert s[..i + 1] == s[..i] + [s[i]];
    assert [s[i]][1..] == [];
    ExpandLFAppend(s[..i], [s[i]]);
    ExpandLFAppend(s[..i + 1], s[i + 1..]);
    assert s[..i + 1] + s[i + 1..] == s;
  }

  // ---------------------------------------------------------------------------
  // BetterReader
  // ---------------------------------------------------------------------------

  /** What a stream reader's `read()` resolves to: `{ value, done }`. */
  datatype ReadRecord = ReadRecord(value: Option<Chunk>, done: bool)

  /** The underlying chunked stream a `BetterReader` wraps. */
  class ChunkSource {
    /** The chunks the stream has yet to deliver, in order. */
    var pending: seq<Chunk>

    constructor (chunks: seq<Chunk>)
      ensures pending == chunks
    {
      pending := chunks;
    }

    /** `read()`: the next chunk, or `{ value: undefined, done: true }` at the end. */
    method Read() returns (r: ReadRecord)
      modifies this
      ensures old(pending) == [] ==> r == ReadRecord(None, true) && pending == []
      ensures old(pending) != [] ==>
        r == ReadRecord(Some(old(pending)[0]), false) && pending == old(pending)[1..]
    {
      if pending == [] {
        r := ReadRecord(None, true);
      } else {
        r := ReadRecord(Some(pending[0]), false);
        pending := pending[1..];
      }
    }
  }

  /**
   * What `read()` without a buffer returns: the delegate's record itself, or
   * one merged byte array of everything buffered.
   */
  datatype PlainRead = Record(record: ReadRecord) | Merged(bytes: Chunk)

  /**
   * The failure of an exact read: the delegate reported the end of the stream,
   * its `undefined` value was pushed as a chunk and `getTotalBytesReady_`
   * threw a `TypeError` reading its length.
   */
  datatype ReadError = EndOfStreamTypeError

  /** The merge loop of `getChunk_`: one array holding every chunk, in order. */
  method Merge(chunks: seq<Chunk>) returns (merged: Chunk)
    ensures merged == Flatten(chunks)
  {
    var len := TotalLength(chunks);
    var a := new Byte[len];
    var offset := 0;
    for i := 0 to |chunks|
      invariant offset == TotalLength(chunks[..i]) <= len
      invariant a[..offset] == Flatten(chunks[..i])
    {
      FlattenPrefixStep(chunks, i);
      PrefixLength(chunks, i + 1);
      Place(a, offset, chunks[i]);
      offset := offset + |chunks[i]|;
    }
    assert chunks[..|chunks|] == chunks;
    merged := a[..];
  }

  /** `a.set(item, offset)`: the bytes of `item` written at `offset`, all others kept. */
  method Place(a: array<Byte>, offset: nat, item: Chunk)
    requires offset + |item| <= a.Length
    modifies a
    ensures a[..offset + |item|] == old(a[..offset]) + item
    ensures a[offset + |item|..] == old(a[offset + |item|..])
  {
    forall j | 0 <= j < |item| {
      a[offset + j] := item[j];
    }
  }

  /** The chunk list the as-written fill loop walks: the first chunk, then the delegate's. */
  function FillSequence(buffered: seq<Chunk>, pending: seq<Chunk>): seq<Chunk>
  {
    if buffered != [] then [Flatten(buffered)] + pending else pending
  }

  /** The index of the first chunk at least `n` bytes long, or `|cs|` if none is. */
  function FirstFit(cs: seq<Chunk>, n: nat): (k: nat)
    ensures k <= |cs|
    ensures forall i :: 0 <= i < k ==> |cs[i]| < n
    ensures k < |cs| ==> |cs[k]| >= n
  {
    if cs == [] then 0
    else if |cs[0]| >= n then 0
    else 1 + FirstFit(cs[1..], n)
  }

  /** `BetterReader`: a chunk buffer over a delegate stream. */
  class BetterReader {
    const delegate: ChunkSource
    /** `chunks_`: bytes taken from the delegate and not yet handed out. */
    var chunks: seq<Chunk>

    /** Everything still to be read: the buffered chunks, then the delegate's. */
    ghost function Stream(): seq<Byte>
      reads this, delegate
    {
      Flatten(chunks) + Flatten(delegate.pending)
    }

    constructor (delegate: ChunkSource)
      ensures this.delegate == delegate && chunks == []
    {
      this.delegate := delegate;
      chunks := [];
    }

    /**
     * `getChunk_`: the delegate's next value when nothing is buffered,
     * otherwise all buffered chunks merged into one; either way the buffer is
     * left empty.
     */
    method GetChunk() returns (c: Option<Chunk>)
      modifies this, delegate
      ensures chunks == []
      ensures old(chunks) != [] ==>
        c == Some(Flatten(old(chunks))) && delegate.pending == old(delegate.pending)
      ensures old(chunks) == [] && old(delegate.pending) == [] ==>
        c == None && delegate.pending == []
      ensures old(chunks) == [] && old(delegate.pending) != [] ==>
        c == Some(old(delegate.pending)[0]) && delegate.pending == old(delegate.pending)[1..]
    {
      if chunks == [] {
        var rec := delegate.Read();
        c := rec.value;
        return;
      }
      var merged := Merge(chunks);
      chunks := [];
      c := Some(merged);
    }

    /** `read()` without a buffer. */
    method Read() returns (r: PlainRead)
      modifies this, delegate
      ensures chunks == []
      ensures old(chunks) == [] && old(delegate.pending) == [] ==>
        r == Record(ReadRecord(None, true)) && delegate.pending == []
      ensures old(chunks) == [] && old(delegate.pending) != [] ==>
        r == Record(ReadRecord(Some(old(delegate.pending)[0]), false))
        && delegate.pending == old(delegate.pending)[1..]
      ensures old(chunks) != [] ==>
        r == Merged(Flatten(old(chunks))) && delegate.pending == old(delegate.pending)
    {
      if chunks == [] {
        var rec := delegate.Read();
        return Record(rec);
      }
      var c := GetChunk();
      r := Merged(c.value);
    }

    /**
     * The copy loop of `read(buf)`: shift chunks into `buf` at a moving
     * offset; a chunk that overruns the buffer is split and its tail put back
     * at the front.
     */
    method CopyOut(buf: array<Byte>)
      requires chunks != [] && TotalLength(chunks) >= buf.Length
      modifies this, buf
      ensures buf[..] + Flatten(chunks) == old(Flatten(chunks))
      ensures buf[..] + Stream() == old(Stream())
    {
      ghost var whole := Flatten(chunks);
      var offset := 0;
      while true
        invariant 0 <= offset <= buf.Length
        invariant chunks != [] || offset < buf.Length
        invariant offset + TotalLength(chunks) >= buf.Length
        invariant buf[..offset] + Flatten(chunks) == whole
        decreases buf.Length - offset, |chunks|
      {
        // `chunks_` is never empty here, so the 'calculation is wrong' throw cannot happen.
        var item := TakeFront(buf.Length - offset);
        ghost var before := buf[..offset];
        Place(buf, offset, item);
        assert before + item + Flatten(chunks) == whole;
        offset := offset + |item|;
        if offset == buf.Length {
          break;
        }
      }
      assert buf[..] == buf[..offset];
      assert buf[..] + Stream() == whole + Flatten(delegate.pending);
    }

    /**
     * One step of the copy loop: shift the first chunk; if it holds more than
     * `room` bytes, split it and put its tail back at the front.
     */
    method TakeFront(room: nat) returns (item: Chunk)
      requires chunks != []
      modifies this
      ensures item + Flatten(chunks) == old(Flatten(chunks))
      ensures |item| <= room
      ensures |item| < room ==> |chunks| < old(|chunks|)
    {
      item := chunks[0];
      FlattenHead(chunks);
      chunks := chunks[1..];
      if |item| > room {
        SplitChunk(item, Flatten(chunks), room);
        FlattenHead([item[room..]] + chunks);
        chunks := [item[room..]] + chunks;
        item := item[..room];
      }
    }

    /** The first `this.chunks_.push(await this.getChunk_())` of `read(buf)`; `false` at the end of the stream. */
    method PushFirst() returns (started: bool)
      modifies this, delegate
      ensures started <==> old(chunks) != [] || old(delegate.pending) != []
      ensures Stream() == old(Stream())
      ensures started ==> chunks != []
      ensures !started ==> delegate.pending == []
    {
      var first := GetChunk();
      if first.None? {
        return false;
      }
      chunks := chunks + [first.value];
      assert Flatten(chunks) == first.value + Flatten([]);
      return true;
    }

    /** The fill loop of `read(buf)`: push delegate chunks until at least `n` bytes are buffered. */
    method FillTo(n: nat) returns (filled: bool)
      requires chunks != []
      modifies this, delegate
      ensures chunks != [] && Stream() == old(Stream())
      ensures filled <==> n <= |old(Stream())|
      ensures filled ==> TotalLength(chunks) >= n
      ensures !filled ==> delegate.pending == []
    {
      ghost var whole := Stream();
      while TotalLength(chunks) < n
        invariant chunks != []
        invariant Flatten(chunks) + Flatten(delegate.pending) == whole
        decreases |delegate.pending|
      {
        var rec := delegate.Read();
        if rec.value.None? {
          return false;
        }
        FlattenAppend(chunks, [rec.value.value]);
        assert Flatten([rec.value.value]) == rec.value.value + Flatten([]);
        chunks := chunks + [rec.value.value];
      }
      return true;
    }

    /**
     * `read(buf)`, as the fill loop is evidently meant to work: take the first
     * chunk, then push delegate chunks until at least `buf.Length` bytes are
     * buffered, then copy.
     */
    method ReadExact(buf: array<Byte>) returns (r: Result<(), ReadError>)
      modifies this, delegate, buf
      ensures r.Err? <==>
        |old(Stream())| < buf.Length || (old(chunks) == [] && old(delegate.pending) == [])
      ensures r.Ok? ==> buf[..] + Stream() == old(Stream())
      ensures r.Err? ==> Stream() == old(Stream()) && delegate.pending == []
    {
      var started := PushFirst();
      if !started {
        return Err(EndOfStreamTypeError);
      }
      var filled := FillTo(buf.Length);
      if !filled {
        return Err(EndOfStreamTypeError);
      }
      CopyOut(buf);
      return Ok(());
    }

    /**
     * `read(buf)` as written. In `this.chunks_.push(await this.getChunk_())`
     * the receiver array is read before `getChunk_` runs; when bytes are
     * buffered, `getChunk_` merges them and installs a new empty array, so the
     * merged chunk is pushed onto the discarded array. The loop therefore only
     * succeeds on a single chunk at least `buf.Length` long and drops every
     * shorter chunk before it.
     */
    method ReadExactAsWritten(buf: array<Byte>) returns (r: Result<(), ReadError>)
      modifies this, delegate, buf
      ensures var cs := FillSequence(old(chunks), old(delegate.pending));
              var k := FirstFit(cs, buf.Length);
              && (r.Ok? <==> k < |cs|)
              && (r.Ok? ==> buf[..] == cs[k][..buf.Length]
                            && Flatten(chunks) == cs[k][buf.Length..]
                            && delegate.pending == cs[k + 1..])
    {
      ghost var cs := FillSequence(chunks, delegate.pending);
      var first := GetChunk();
      if first.None? {
        return Err(EndOfStreamTypeError);
      }
      chunks := chunks + [first.value];
      var filled := FillAsWritten(buf.Length, cs);
      if !filled {
        return Err(EndOfStreamTypeError);
      }
      ghost var k := FirstFit(cs, buf.Length);
      assert Flatten(chunks) == cs[k] + Flatten([]);
      CopyOut(buf);
      assert cs[k] == buf[..] + Flatten(chunks);
      return Ok(());
    }

    /**
     * The fill loop of `read(buf)` as written, from the first chunk of `cs`:
     * every chunk shorter than `n` is pushed onto a discarded array, so the
     * loop stops at the first chunk at least `n` long, alone in the buffer.
     */
    method FillAsWritten(n: nat, ghost cs: seq<Chunk>) returns (filled: bool)
      requires cs != [] && chunks == [cs[0]] && delegate.pending == cs[1..]
      modifies this, delegate
      ensures filled <==> FirstFit(cs, n) < |cs|
      ensures filled ==> chunks == [cs[FirstFit(cs, n)]] && delegate.pending == cs[FirstFit(cs, n) + 1..]
    {
      ghost var j := 0;
      while TotalLength(chunks) < n
        invariant 0 <= j <= |cs|
        invariant forall i :: 0 <= i < j ==> |cs[i]| < n
        invariant (chunks == [] && delegate.pending == cs[j..])
               || (j < |cs| && chunks == [cs[j]] && delegate.pending == cs[j + 1..])
        decreases 2 * |delegate.pending| + |chunks|
      {
        // The array `this.chunks_` names before the await: replaced by getChunk_ iff non-empty.
        var detached := chunks != [];
        if detached {
          assert Flatten(chunks) == cs[j] + Flatten([]);
          j := j + 1;
        }
        var c := GetChunk();
        if c.None? {
          return false;
        }
        if !detached {
          chunks := chunks + [c.value];
        }
      }
      assert Flatten(chunks) == cs[j] + Flatten([]);
      return true;
    }
  }

  /**
   * The stream `[1] [2, 3]` read into a two-byte buffer: the bytes delivered
   * are `2, 3`, although the first two bytes of the stream are `1, 2`.
   */
  method ReadExactAsWrittenDropsBytes() returns (got: seq<Byte>, streamPrefix: seq<Byte>)
    ensures streamPrefix == [1, 2] && got == [2, 3]
  {
    var source := new ChunkSource([[1], [2, 3]]);
    var reader := new BetterReader(source);
    streamPrefix := (Flatten(source.pending))[..2];
    var buf := new Byte[2];
    var r := reader.ReadExactAsWritten(buf);
    assert FillSequence([], [[1], [2, 3]]) == [[1], [2, 3]];
    assert FirstFit([[1], [2, 3]], 2) == 1;
    got := buf[..];
  }

  // ---------------------------------------------------------------------------
  // PTT and PTY
  // ---------------------------------------------------------------------------

  /** PTT, the pseudo-terminal target (the observer side). */
  class Ptt {
    /** The PTY this target was created for. */
    const pty: Pty
    /** The chunks enqueued on this target's readable stream so far. */
    var queue: seq<Chunk>

    constructor (pty: Pty)
      ensures this.pty == pty && queue == []
    {
      this.pty := pty;
      queue := [];
    }

    /**
     * A write on the target: strings are encoded, the owning PTY's
     * `outputNLCR` flag decides the CRLF rewrite, and the chunk goes to the
     * PTY's single inbound stream.
     */
    method Write(chunk: WriteChunk)
      modifies pty
      ensures pty.inbound == old(pty.inbound) +
        [if pty.outputNLCR then ExpandLF(ChunkBytes(chunk)) else ChunkBytes(chunk)]
      ensures pty.outputNLCR == old(pty.outputNLCR) && pty.targets == old(pty.targets)
    {
      var bytes := ChunkBytes(chunk);
      if pty.outputNLCR {
        var a := new Byte[|bytes|](i requires 0 <= i < |bytes| => bytes[i]);
        assert a[..] == bytes;
        var converted := LfToCrlf(a);
        bytes := converted[..];
      }
      pty.inbound := pty.inbound + [bytes];
    }
  }

  /** PTY, the pseudo-terminal device: one inbound stream, many targets. */
  class Pty {
    /** `outputModeflags.outputNLCR`. */
    var outputNLCR: bool
    /** The chunks enqueued on the PTY's own readable stream (fed by its targets). */
    var inbound: seq<Chunk>
    /** Registered targets, in registration order; never shrunk. */
    var targets: seq<Ptt>

    /** Every target belongs to this PTY and is registered once. */
    ghost predicate Valid()
      reads this
    {
      && (forall i :: 0 <= i < |targets| ==> targets[i].pty == this)
      && (forall i, j :: 0 <= i < j < |targets| ==> targets[i] != targets[j])
    }

    constructor ()
      ensures Valid()
      ensures outputNLCR && inbound == [] && targets == []
    {
      outputNLCR := true;
      inbound := [];
      targets := [];
    }

    /** `getPTT`: creates one new target, appends it and returns it. */
    method GetPtt() returns (t: Ptt)
      requires Valid()
      modifies this
      ensures Valid() && fresh(t)
      ensures t.pty == this && t.queue == []
      ensures targets == old(targets) + [t]
      ensures outputNLCR == old(outputNLCR) && inbound == old(inbound)
    {
      t := new Ptt(this);
      targets := targets + [t];
    }

    /**
     * A write on the PTY: strings are encoded and the same chunk, never
     * CRLF-rewritten, is enqueued on every registered target in order.
     */
    method Write(chunk: WriteChunk)
      requires Valid()
      modifies set t | t in targets
      ensures forall i :: 0 <= i < |targets| ==>
        targets[i].queue == old(targets[i].queue) + [ChunkBytes(chunk)]
    {
      var bytes := ChunkBytes(chunk);
      for i := 0 to |targets|
        invariant forall k :: 0 <= k < i ==> targets[k].queue == old(targets[k].queue) + [bytes]
        invariant forall k :: i <= k < |targets| ==> targets[k].queue == old(targets[k].queue)
      {
        targets[i].queue := targets[i].queue + [bytes];
      }
    }
  }

  /** The `\n` of the text written to a PTT comes out as `\r\n` (the default mode). */
  lemma PttTextNewlines(s: string)
    ensures ExpandLF(ChunkBytes(Text(s))) == Utf8Encode(NewlinesToCRLF(s))
  {
    ExpandLFOfText(s);
  }
}
