/** The server-sent-event reader of `sse-parser.ts`: a line buffer over the
    text chunks a response body delivers, and a per-line filter that hands
    whatever survives to `JSON.parse`.

    The body is given as the sequence of already-decoded text chunks followed
    by how the last read ended; `JSON.parse` is the `decode` parameter, which
    produces a value (`None` for the JSON literal `null`) or the error it
    throws. */
module SseParser {
  import opened Common
  import opened RagTypes

  /** What one line contributes: nothing, one payload, or a parse error. */
  datatype LineResult<T> = Skip | Payload(value: T) | Invalid(error: Error)

  /** How the last `reader.read()` ended. */
  datatype ReadEnd = EndOfStream | ReadFailed(error: Error)

  /** The complete lines found so far and the unterminated remainder. */
  datatype LineBuffer = LineBuffer(lines: seq<string>, rest: string)

  /** The text `parseSSELine` hands to `JSON.parse`: the trimmed line, with one
      leading `data:` removed and the remainder trimmed again. */
  function Body(line: string): string {
    var trimmed := Trim(line);
    if StartsWith(trimmed, "data:") then Trim(trimmed[5..]) else trimmed
  }

  /** Lines naming an SSE field other than `data`. */
  predicate IsFieldLine(s: string) {
    StartsWith(s, "event:") || StartsWith(s, "id:") || StartsWith(s, "retry:")
  }

  /** `parseSSELine`, followed by the caller's `parsed !== null` test: a
      line whose JSON is `null` yields nothing. */
  function ParseLine<T>(line: string, decode: string -> Result<Option<T>, Error>): (r: LineResult<T>)
    ensures Blank(line) ==> r == Skip
    ensures r.Skip? <==> IsFieldLine(Body(line)) || Body(line) == "" || Body(line) == "[DONE]"
                         || decode(Body(line)) == Success(None)
    ensures r.Payload? ==> decode(Body(line)) == Success(Some(r.value))
    ensures r.Invalid? ==> decode(Body(line)) == Failure(r.error)
  {
    var trimmed := Trim(line);
    if trimmed == "" then Skip
    else
      var body := if StartsWith(trimmed, "data:") then Trim(trimmed[5..]) else trimmed;
      if IsFieldLine(body) then Skip
      else if body == "" || body == "[DONE]" then Skip
      else
        match decode(body)
        case Success(None) => Skip
        case Success(Some(v)) => Payload(v)
        case Failure(e) => Invalid(e)
  }

  /** A `data:` prefix is transparent: the line behind it is parsed exactly as
      if it had been sent bare (unless it carries a second `data:`, which is
      not stripped). */
  lemma DataPrefixTransparent<T>(x: string, decode: string -> Result<Option<T>, Error>)
    requires !StartsWith(Trim(x), "data:")
    ensures ParseLine("data:" + x, decode) == ParseLine(x, decode)
  {
    DataPrefixBody(x);
  }

  lemma DataPrefixBody(x: string)
    ensures Trim("data:" + x) != ""
    ensures Body("data:" + x) == Trim(x)
  {
    var o := TrimOffset(x);
    var t := Trim(x);
    var a, b := x[..o], x[o + |t|..];
    assert x == a + t + b;
    if t == [] {
      DataPrefixBlank(x);
    } else {
      DataPrefixCore(a, t, b);
    }
  }

  lemma DataPrefixBlank(x: string)
    requires Blank(x)
    ensures Trim("data:" + x) == "data:"
    ensures Body("data:" + x) == Trim(x)
  {
    DataPrefixBlankTrim(x);
    var prefix := "data:";
    assert prefix[..5] == prefix;
    assert Trim(prefix[5..]) == [];
    assert Trim(x) == [];
  }

  lemma DataPrefixBlankTrim(x: string)
    requires Blank(x)
    ensures Trim("data:" + x) == "data:"
  {
    var prefix := "data:";
    assert !IsWhitespace(prefix[0]) && !IsWhitespace(prefix[4]);
    TrimUnique([], prefix, x);
    assert [] + prefix + x == prefix + x;
  }

  lemma DataPrefixCore(a: string, t: string, b: string)
    requires Blank(a) && Blank(b) && t != []
    requires !IsWhitespace(t[0]) && !IsWhitespace(t[|t| - 1])
    ensures Trim("data:" + (a + t + b)) == "data:" + a + t
    ensures Body("data:" + (a + t + b)) == t
  {
    var core := "data:" + a + t;
    DataPrefixTrim(a, t, b);
    assert StartsWith(core, "data:") by {
      assert core[..5] == "data:";
    }
    assert core[5..] == a + t + [];
    TrimUnique(a, t, []);
  }

  lemma DataPrefixTrim(a: string, t: string, b: string)
    requires Blank(a) && Blank(b) && t != []
    requires !IsWhitespace(t[|t| - 1])
    ensures Trim("data:" + (a + t + b)) == "data:" + a + t
  {
    var core := "data:" + a + t;
    assert core[0] == 'd';
    assert core[|core| - 1] == t[|t| - 1];
    assert [] + core + b == "data:" + (a + t + b);
    TrimUnique([], core, b);
  }

  lemma BlankAppend(a: string, b: string)
    requires Blank(a) && Blank(b)
    ensures Blank(a + b)
  {
    assert forall i :: 0 <= i < |a + b| ==> (a + b)[i] == if i < |a| then a[i] else b[i - |a|];
  }

  /** `[DONE]`, bare or behind `data:`, yields nothing. */
  lemma DoneYieldsNothing<T>(x: string, decode: string -> Result<Option<T>, Error>)
    requires Trim(x) == "[DONE]"
    ensures ParseLine(x, decode) == Skip
    ensures ParseLine("data:" + x, decode) == Skip
  {
    assert !StartsWith(Trim(x), "data:") by {
      assert Trim(x)[0] == '[';
    }
    DataPrefixTransparent(x, decode);
  }

  // ---------------------------------------------------------------------------
  // The read loop

  /** The `buffer += chunk; lines = buffer.split('\n'); buffer = lines.pop()`
      loop of `parseSSEStream`, over the remaining chunks. */
  function Feed(buffer: string, chunks: seq<string>): (b: LineBuffer)
    decreases |chunks|
  {
    if chunks == [] then LineBuffer([], buffer)
    else
      var parts := Split(buffer + chunks[0], '\n');
      var next := Feed(Last(parts), chunks[1..]);
      LineBuffer(AllButLast(parts) + next.lines, next.rest)
  }

  /** Parse lines in order until the first parse error. */
  function Emit<T>(lines: seq<string>, decode: string -> Result<Option<T>, Error>): (d: Drained<T>)
    ensures |d.items| <= |lines|
  {
    if lines == [] then Drained([], Completed)
    else
      match ParseLine(lines[0], decode)
      case Skip => Emit(lines[1..], decode)
      case Payload(v) =>
        var rest := Emit(lines[1..], decode);
        Drained([v] + rest.items, rest.end)
      case Invalid(e) => Drained([], Failed(e))
  }

  /** `parseSSEStream`: read every chunk, parse each completed line; after the
      last read, parse a non-blank leftover as one more line. A read error that
      reports the peer closing the connection ends the stream like a normal
      end; any other read error is rethrown after the lines already complete
      (the leftover is then not parsed). */
  function Decode<T>(chunks: seq<string>, readEnd: ReadEnd, decode: string -> Result<Option<T>, Error>): (d: Drained<T>)
  {
    var fed := Feed("", chunks);
    if readEnd.ReadFailed? && !ClosedByPeer(readEnd.error) then
      var d := Emit(fed.lines, decode);
      if d.end.Failed? then d else Drained(d.items, Failed(readEnd.error))
    else
      Emit(fed.lines + (if Blank(fed.rest) then [] else [fed.rest]), decode)
  }

  /** Reference reading of the whole body at once: every line of the text is
      parsed in order; a fatal read error drops the unterminated last line and
      is thrown at the end. */
  function DecodeText<T>(text: string, readEnd: ReadEnd, decode: string -> Result<Option<T>, Error>): Drained<T> {
    var lines := Split(text, '\n');
    if readEnd.ReadFailed? && !ClosedByPeer(readEnd.error) then
      var d := Emit(AllButLast(lines), decode);
      if d.end.Failed? then d else Drained(d.items, Failed(readEnd.error))
    else
      Emit(lines, decode)
  }

  /** The buffer never holds a newline, and the completed lines followed by
      the buffer are exactly the lines of everything read so far. */
  lemma FeedIsSplit(buffer: string, chunks: seq<string>)
    requires '\n' !in buffer
    ensures '\n' !in Feed(buffer, chunks).rest
    ensures Feed(buffer, chunks).lines + [Feed(buffer, chunks).rest]
         == Split(buffer + Concat(chunks), '\n')
  {
    FeedRestClean(buffer, chunks);
    FeedLines(buffer, chunks);
  }

  lemma {:induction false} FeedRestClean(buffer: string, chunks: seq<string>)
    requires '\n' !in buffer
    ensures '\n' !in Feed(buffer, chunks).rest
    decreases |chunks|
  {
    if chunks != [] {
      var parts := Split(buffer + chunks[0], '\n');
      SplitPieces(buffer + chunks[0], '\n');
      assert '\n' !in Last(parts);
      FeedRestClean(Last(parts), chunks[1..]);
    }
  }

  lemma {:induction false} FeedLines(buffer: string, chunks: seq<string>)
    requires '\n' !in buffer
    ensures Feed(buffer, chunks).lines + [Feed(buffer, chunks).rest]
         == Split(buffer + Concat(chunks), '\n')
    decreases |chunks|
  {
    if chunks == [] {
      SplitNoSeparator(buffer, '\n');
      assert buffer + Concat(chunks) == buffer;
    } else {
      var parts := Split(buffer + chunks[0], '\n');
      SplitPieces(buffer + chunks[0], '\n');
      assert '\n' !in Last(parts);
      var next := Feed(Last(parts), chunks[1..]);
      assert Feed(buffer, chunks) == LineBuffer(AllButLast(parts) + next.lines, next.rest);
      FeedLines(Last(parts), chunks[1..]);
      SplitAppend(buffer + chunks[0], Concat(chunks[1..]), '\n');
      assert Concat(chunks) == chunks[0] + Concat(chunks[1..]);
      assert buffer + Concat(chunks) == (buffer + chunks[0]) + Concat(chunks[1..]);
      assert (AllButLast(parts) + next.lines) + [next.rest] == AllButLast(parts) + (next.lines + [next.rest]);
    }
  }

  /** A blank final line contributes nothing. */
  lemma EmitBlankLast<T>(lines: seq<string>, last: string, decode: string -> Result<Option<T>, Error>)
    requires Blank(last)
    ensures Emit(lines + [last], decode) == Emit(lines, decode)
    decreases |lines|
  {
    if lines == [] {
      assert lines + [last] == [last];
    } else {
      assert (lines + [last])[1..] == lines[1..] + [last];
      EmitBlankLast(lines[1..], last, decode);
    }
  }

  /** Chunk-boundary invariance: however the body is cut into reads, the
      decoded stream is the one obtained by reading the whole text at once. */
  lemma DecodeMatchesText<T>(chunks: seq<string>, readEnd: ReadEnd, decode: string -> Result<Option<T>, Error>)
    ensures Decode(chunks, readEnd, decode) == DecodeText(Concat(chunks), readEnd, decode)
  {
    var fed := Feed("", chunks);
    FeedIsSplit("", chunks);
    assert "" + Concat(chunks) == Concat(chunks);
    var lines := Split(Concat(chunks), '\n');
    assert AllButLast(lines) == fed.lines by {
      assert lines == fed.lines + [fed.rest];
    }
    if !(readEnd.ReadFailed? && !ClosedByPeer(readEnd.error)) {
      assert lines == fed.lines + [fed.rest];
      if Blank(fed.rest) {
        EmitBlankLast(fed.lines, fed.rest, decode);
        assert fed.lines + [] == fed.lines;
        assert Decode(chunks, readEnd, decode) == Emit(fed.lines, decode);
      } else {
        assert Decode(chunks, readEnd, decode) == Emit(lines, decode);
      }
    }
  }

  /** Corollary: re-chunking the body never changes what is decoded. */
  lemma ChunkingInvariance<T>(chunks: seq<string>, readEnd: ReadEnd, decode: string -> Result<Option<T>, Error>)
    ensures Decode(chunks, readEnd, decode) == Decode([Concat(chunks)], readEnd, decode)
  {
    DecodeMatchesText(chunks, readEnd, decode);
    DecodeMatchesText([Concat(chunks)], readEnd, decode);
    ConcatSingle(Concat(chunks));
  }

  /** A line that yields nothing can be removed without changing the result:
      in particular a `[DONE]` line does not stop the loop. */
  lemma {:induction false} SkippedLineIsTransparent<T>(before: seq<string>, line: string, after: seq<string>,
                                                       decode: string -> Result<Option<T>, Error>)
    requires ParseLine(line, decode) == Skip
    ensures Emit(before + [line] + after, decode) == Emit(before + after, decode)
    decreases |before|
  {
    if before == [] {
      assert before + [line] + after == [line] + after;
      assert ([line] + after)[1..] == after;
      assert before + after == after;
    } else {
      assert (before + [line] + after)[1..] == before[1..] + [line] + after;
      assert (before + after)[1..] == before[1..] + after;
      assert (before + [line] + after)[0] == before[0] == (before + after)[0];
      SkippedLineIsTransparent(before[1..], line, after, decode);
    }
  }

  /** A line whose JSON is `null` is dropped like a skipped line. */
  lemma NullPayloadIsTransparent<T>(before: seq<string>, line: string, after: seq<string>,
                                    decode: string -> Result<Option<T>, Error>)
    requires decode(Body(line)) == Success(None)
    ensures Emit(before + [line] + after, decode) == Emit(before + after, decode)
  {
    SkippedLineIsTransparent(before, line, after, decode);
  }

  /** A read error announcing that the server closed the connection ends the
      stream exactly like a normal end of the body. */
  lemma PeerCloseIsNormalEnd<T>(chunks: seq<string>, e: Error, decode: string -> Result<Option<T>, Error>)
    requires ClosedByPeer(e)
    ensures Decode(chunks, ReadFailed(e), decode) == Decode(chunks, EndOfStream, decode)
  {
  }

  /** With no parse error in the completed lines, any other read error is
      surfaced after their payloads, and the leftover line is dropped. */
  lemma OtherReadErrorPropagates<T>(chunks: seq<string>, e: Error, decode: string -> Result<Option<T>, Error>)
    requires !ClosedByPeer(e)
    ensures Decode(chunks, ReadFailed(e), decode).end.Failed?
    ensures Emit(AllButLast(Split(Concat(chunks), '\n')), decode).end == Completed ==>
              Decode(chunks, ReadFailed(e), decode)
              == Drained(Emit(AllButLast(Split(Concat(chunks), '\n')), decode).items, Failed(e))
  {
    DecodeMatchesText(chunks, ReadFailed(e), decode);
  }

  /** A body with no newline at all is parsed as one final line once the
      stream ends. */
  lemma UnterminatedBodyIsOneLine<T>(chunks: seq<string>, decode: string -> Result<Option<T>, Error>)
    requires '\n' !in Concat(chunks)
    ensures Decode(chunks, EndOfStream, decode) == Emit([Concat(chunks)], decode)
  {
    DecodeMatchesText(chunks, EndOfStream, decode);
    SplitNoSeparator(Concat(chunks), '\n');
  }
}
