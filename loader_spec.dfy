/**
 * Pure definitions behind the file loader (gtef-file-loader.c): the queue of
 * chunks read, the size of a read request, the size ceiling, charset
 * detection, per-chunk conversion and the removal of the trailing newline.
 */
module LoaderSpec {
  import opened Wrappers

  newtype byte = x: int | 0 <= x < 256

  // ---------------------------------------------------------------------------
  // The contents queue

  /** All the bytes of the queue, in queue order. */
  function Concat(chunks: seq<seq<byte>>): seq<byte>
  {
    if chunks == [] then [] else Concat(chunks[..|chunks| - 1]) + chunks[|chunks| - 1]
  }

  /** The sum of the chunk sizes. */
  function TotalLength(chunks: seq<seq<byte>>): nat
  {
    if chunks == [] then 0 else TotalLength(chunks[..|chunks| - 1]) + |chunks[|chunks| - 1]|
  }

  /** Every queued chunk holds at least one byte. */
  predicate NonEmptyChunks(chunks: seq<seq<byte>>)
  {
    forall i | 0 <= i < |chunks| :: |chunks[i]| > 0
  }

  /** The bytes counted are the bytes kept. */
  lemma {:induction false} ConcatLength(chunks: seq<seq<byte>>)
    ensures |Concat(chunks)| == TotalLength(chunks)
  {
    if chunks != [] {
      ConcatLength(chunks[..|chunks| - 1]);
    }
  }

  /** Pushing a non-empty chunk at the tail keeps the chunks non-empty and adds its size. */
  lemma PushTail(chunks: seq<seq<byte>>, data: seq<byte>)
    requires NonEmptyChunks(chunks) && data != []
    ensures NonEmptyChunks(chunks + [data])
    ensures TotalLength(chunks + [data]) == TotalLength(chunks) + |data|
  {
    assert (chunks + [data])[..|chunks|] == chunks;
  }

  /** A queue of non-empty chunks holds at least as many bytes as chunks. */
  lemma {:induction false} NonEmptyChunksLength(chunks: seq<seq<byte>>)
    requires NonEmptyChunks(chunks)
    ensures TotalLength(chunks) >= |chunks|
    ensures TotalLength(chunks) == 0 <==> chunks == []
  {
    if chunks != [] {
      NonEmptyChunksLength(chunks[..|chunks| - 1]);
    }
  }

  // ---------------------------------------------------------------------------
  // Reading and the size ceiling

  /** read_next_chunk asks for MAX (1, chunk_size) bytes. */
  function ReadRequestSize(chunkSize: int): (n: int)
    ensures n >= 1 && n >= chunkSize
    ensures chunkSize >= 1 ==> n == chunkSize
  {
    if chunkSize > 1 then chunkSize else 1
  }

  /** The ceiling test of get_file_size_cb; a maximum of -1 means unlimited. */
  predicate TooBigFor(size: int, maxSize: int)
  {
    maxSize >= 0 && size > maxSize
  }

  // ---------------------------------------------------------------------------
  // Detection

  /** uchardet, seen as a function of all the bytes it was fed. */
  type Detector = seq<byte> -> Option<string>

  /**
   * The charset kept by determine_encoding: the detected one when it is a
   * non-empty name, otherwise the one held before.
   */
  function DetectedCharset(detect: Detector, chunks: seq<seq<byte>>, previous: Option<string>): (c: Option<string>)
    ensures c.Some? && c != previous ==> c == detect(Concat(chunks)) && c.value != ""
    ensures previous.None? ==> (c.Some? <==> detect(Concat(chunks)).Some? && detect(Concat(chunks)).value != "")
    ensures detect(Concat(chunks)).Some? && detect(Concat(chunks)).value != "" ==> c == detect(Concat(chunks))
  {
    var found := detect(Concat(chunks));
    if found.Some? && found.value != "" then found else previous
  }

  // ---------------------------------------------------------------------------
  // Conversion

  datatype FeedResult = Fragment(text: string) | FeedError(message: string)

  /**
   * The encoding converter: opening it for a charset may fail with a
   * message, and feeding it one chunk yields a text fragment or an error.
   */
  datatype Converter = Converter(openError: string -> Option<string>, feed: (string, seq<byte>) -> FeedResult)

  /** What feeding a queue gives: the text produced, the chunks left, the first error. */
  datatype Converted = Converted(text: string, rest: seq<seq<byte>>, error: Option<string>)

  /**
   * The conversion loop of convert_and_insert_contents: chunks are taken from
   * the head; the first error stops the loop after its chunk was taken.
   */
  function ConvertChunks(conv: Converter, charset: string, chunks: seq<seq<byte>>): Converted
  {
    if chunks == [] then Converted("", [], None)
    else
      match conv.feed(charset, chunks[0])
      case FeedError(message) => Converted("", chunks[1..], Some(message))
      case Fragment(t) =>
        var r := ConvertChunks(conv, charset, chunks[1..]);
        Converted(t + r.text, r.rest, r.error)
  }

  /** Without an error the queue is drained; an error leaves a strict suffix of it. */
  lemma {:induction false} ConvertChunksRest(conv: Converter, charset: string, chunks: seq<seq<byte>>)
    ensures var r := ConvertChunks(conv, charset, chunks);
      && (r.error.None? ==> r.rest == [])
      && (r.error.Some? ==> |r.rest| < |chunks| && r.rest == chunks[|chunks| - |r.rest|..])
  {
    if chunks != [] && conv.feed(charset, chunks[0]).Fragment? {
      ConvertChunksRest(conv, charset, chunks[1..]);
      var r := ConvertChunks(conv, charset, chunks[1..]);
      if r.error.Some? {
        assert chunks[1..][|chunks[1..]| - |r.rest|..] == chunks[|chunks| - |r.rest|..];
      }
    }
  }

  /** True when every chunk converts. */
  predicate AllConvert(conv: Converter, charset: string, chunks: seq<seq<byte>>)
  {
    forall i | 0 <= i < |chunks| :: conv.feed(charset, chunks[i]).Fragment?
  }

  /** The fragments of the chunks, joined in order (built from the tail). */
  function JoinFragments(conv: Converter, charset: string, chunks: seq<seq<byte>>): string
    requires AllConvert(conv, charset, chunks)
  {
    if chunks == [] then ""
    else JoinFragments(conv, charset, chunks[..|chunks| - 1]) + conv.feed(charset, chunks[|chunks| - 1]).text
  }

  lemma {:induction false} JoinFragmentsCons(conv: Converter, charset: string, chunks: seq<seq<byte>>)
    requires chunks != [] && AllConvert(conv, charset, chunks)
    ensures JoinFragments(conv, charset, chunks)
         == conv.feed(charset, chunks[0]).text + JoinFragments(conv, charset, chunks[1..])
  {
    if |chunks| > 1 {
      var front := chunks[..|chunks| - 1];
      assert front[1..] == chunks[1..][..|chunks[1..]| - 1];
      JoinFragmentsCons(conv, charset, front);
    } else {
      assert chunks[1..] == [];
    }
  }

  /** When every chunk converts, the text is all fragments in order and the queue is drained. */
  lemma {:induction false} ConvertAllSucceed(conv: Converter, charset: string, chunks: seq<seq<byte>>)
    requires AllConvert(conv, charset, chunks)
    ensures ConvertChunks(conv, charset, chunks) == Converted(JoinFragments(conv, charset, chunks), [], None)
  {
    if chunks != [] {
      assert AllConvert(conv, charset, chunks[1..]) by {
        forall i | 0 <= i < |chunks[1..]| ensures conv.feed(charset, chunks[1..][i]).Fragment? {
          assert chunks[1..][i] == chunks[i + 1];
        }
      }
      ConvertAllSucceed(conv, charset, chunks[1..]);
      JoinFragmentsCons(conv, charset, chunks);
    }
  }

  /**
   * When chunk k is the first one that fails, its error is reported, the
   * fragments of the chunks before it are kept and the chunks after it remain.
   */
  lemma {:induction false} ConvertFirstError(conv: Converter, charset: string, chunks: seq<seq<byte>>, k: nat)
    requires k < |chunks| && conv.feed(charset, chunks[k]).FeedError?
    requires AllConvert(conv, charset, chunks[..k])
    ensures ConvertChunks(conv, charset, chunks)
         == Converted(JoinFragments(conv, charset, chunks[..k]), chunks[k + 1..], Some(conv.feed(charset, chunks[k]).message))
  {
    if k == 0 {
      assert chunks[..k] == [];
    } else {
      assert chunks[..k][0] == chunks[0];
      assert chunks[1..][..k - 1] == chunks[..k][1..];
      assert chunks[1..][k - 1 + 1..] == chunks[k + 1..];
      var between := chunks[1..][..k - 1];
      assert AllConvert(conv, charset, between) by {
        forall i | 0 <= i < |between| ensures conv.feed(charset, between[i]).Fragment? {
          assert between[i] == chunks[..k][i + 1];
        }
      }
      ConvertFirstError(conv, charset, chunks[1..], k - 1);
      JoinFragmentsCons(conv, charset, chunks[..k]);
    }
  }

  /** The value the load task is completed with: a boolean or an error. */
  datatype TaskResult = ReturnedBool(value: bool) | ReturnedError(error: LoadError)

  /** The error a load ends with. */
  datatype LoadError =
    | Io(cause: IoError)                  // passed on from the query, the mount, the open or a read
    | TooBig                              // GTEF_FILE_LOADER_ERROR_TOO_BIG
    | EncodingAutoDetectionFailed         // GTEF_FILE_LOADER_ERROR_ENCODING_AUTO_DETECTION_FAILED
    | ConversionFailed(message: string)   // from opening or feeding the encoding converter

  /** A GIO error: G_IO_ERROR_NOT_MOUNTED, or any other one by its code. */
  datatype IoError = NotMounted | OtherIoError(code: nat)

  /** The buffer text, the chunks left in the queue and the task value after the conversion. */
  datatype AfterConversion = AfterConversion(text: string, rest: seq<seq<byte>>, result: TaskResult)

  /**
   * The end of convert_and_insert_contents once the converter is open: the
   * text gets the converted fragments; an error ends the task with it and
   * leaves the chunks after the failing one, otherwise the trailing newline
   * is removed when the buffer asks for it.
   */
  function InsertConverted(trimNewline: bool, text: string, c: Converted): AfterConversion
  {
    if c.error.Some? then AfterConversion(text + c.text, c.rest, ReturnedError(ConversionFailed(c.error.value)))
    else AfterConversion(if trimNewline then TrimTrailingNewline(text + c.text) else text + c.text, [], ReturnedBool(true))
  }

  /**
   * convert_and_insert_contents from a buffer holding `text` and a queue
   * `queue`: without a buffer the task returns FALSE; a converter that cannot
   * be opened, or the first chunk that fails, ends it with that error and
   * keeps the text inserted so far; otherwise the whole queue is inserted and
   * the trailing newline removed when the buffer asks for it.
   */
  function ConvertAndInsertOutcome(bufferAlive: bool, trimNewline: bool, conv: Converter, cs: string,
                                   text: string, queue: seq<seq<byte>>): AfterConversion
  {
    if !bufferAlive then AfterConversion(text, queue, ReturnedBool(false))
    else if conv.openError(cs).Some? then AfterConversion(text, queue, ReturnedError(ConversionFailed(conv.openError(cs).value)))
    else InsertConverted(trimNewline, text, ConvertChunks(conv, cs, queue))
  }

  /**
   * Without a buffer nothing is converted and the task returns FALSE; an
   * error keeps the text as a prefix and leaves a suffix of the queue; TRUE
   * drains the queue.
   */
  lemma ConvertAndInsertOutcomeSpec(bufferAlive: bool, trimNewline: bool, conv: Converter, cs: string,
                                    text: string, queue: seq<seq<byte>>)
    ensures var r := ConvertAndInsertOutcome(bufferAlive, trimNewline, conv, cs, text, queue);
      && (!bufferAlive ==> r == AfterConversion(text, queue, ReturnedBool(false)))
      && (bufferAlive ==> r.result != ReturnedBool(false))
      && (r.result.ReturnedError? ==> text <= r.text && |r.rest| <= |queue| && r.rest == queue[|queue| - |r.rest|..])
      && (r.result == ReturnedBool(true) ==> r.rest == [])
      && (bufferAlive && conv.openError(cs).Some? ==>
            r == AfterConversion(text, queue, ReturnedError(ConversionFailed(conv.openError(cs).value))))
  {
    if !bufferAlive || conv.openError(cs).Some? {
      assert queue[|queue| - |queue|..] == queue;
    } else {
      var c := ConvertChunks(conv, cs, queue);
      ConvertChunksRest(conv, cs, queue);
      assert ConvertAndInsertOutcome(bufferAlive, trimNewline, conv, cs, text, queue) == InsertConverted(trimNewline, text, c);
    }
  }

  /** A queue whose every chunk converts is inserted whole, in queue order, and the task returns TRUE. */
  lemma ConvertAndInsertAllConvert(trimNewline: bool, conv: Converter, cs: string,
                                   text: string, queue: seq<seq<byte>>)
    requires conv.openError(cs).None? && AllConvert(conv, cs, queue)
    ensures var joined := text + JoinFragments(conv, cs, queue);
      ConvertAndInsertOutcome(true, trimNewline, conv, cs, text, queue)
      == AfterConversion(if trimNewline then TrimTrailingNewline(joined) else joined, [], ReturnedBool(true))
  {
    ConvertAllSucceed(conv, cs, queue);
  }

  /**
   * When chunk k is the first that fails, the load ends with its error, the
   * fragments of the chunks before it stay in the buffer and the chunks
   * after it stay queued.
   */
  lemma ConvertAndInsertFirstError(trimNewline: bool, conv: Converter, cs: string,
                                   text: string, queue: seq<seq<byte>>, k: nat)
    requires conv.openError(cs).None?
    requires k < |queue| && conv.feed(cs, queue[k]).FeedError?
    requires AllConvert(conv, cs, queue[..k])
    ensures ConvertAndInsertOutcome(true, trimNewline, conv, cs, text, queue)
         == AfterConversion(text + JoinFragments(conv, cs, queue[..k]), queue[k + 1..],
                            ReturnedError(ConversionFailed(conv.feed(cs, queue[k]).message)))
  {
    ConvertFirstError(conv, cs, queue, k);
  }

  /**
   * determine_encoding and the conversion it leads to: without a usable
   * charset the load fails with ENCODING_AUTO_DETECTION_FAILED and the
   * queue is left as it is.
   */
  function DetermineEncodingOutcome(bufferAlive: bool, trimNewline: bool, detect: Detector, conv: Converter,
                                    text: string, queue: seq<seq<byte>>, previous: Option<string>): AfterConversion
  {
    var cs := DetectedCharset(detect, queue, previous);
    if cs.None? then AfterConversion(text, queue, ReturnedError(EncodingAutoDetectionFailed))
    else ConvertAndInsertOutcome(bufferAlive, trimNewline, conv, cs.value, text, queue)
  }

  // ---------------------------------------------------------------------------
  // Trailing newline

  /** The characters GtkTextBuffer ends a line with: LF, CR and U+2029 PARAGRAPH SEPARATOR. */
  predicate IsLineBreak(c: char)
  {
    c == '\n' || c == '\r' || c == '\U{2029}'
  }

  /** A line terminator of GtkTextBuffer; CR LF counts as one. */
  predicate IsLineTerminator(t: string)
  {
    t == "\n" || t == "\r" || t == "\r\n" || t == "\U{2029}"
  }

  /**
   * remove_trailing_newline_if_needed: when the last line is empty and a line
   * comes before it, the terminator ending that line is deleted.
   */
  function TrimTrailingNewline(s: string): string
  {
    if |s| >= 2 && s[|s| - 2..] == "\r\n" then s[..|s| - 2]
    else if |s| >= 1 && IsLineBreak(s[|s| - 1]) then s[..|s| - 1]
    else s
  }

  /**
   * The trim keeps a prefix; it removes something exactly when the text ends
   * with a line break, and what it removes is one whole line terminator.
   */
  lemma TrimTrailingNewlineSpec(s: string)
    ensures var r := TrimTrailingNewline(s);
      && |r| <= |s| && r == s[..|r|]
      && (r != s <==> |s| > 0 && IsLineBreak(s[|s| - 1]))
      && (r != s ==> IsLineTerminator(s[|r|..]))
      && (|s| >= 2 && s[|s| - 2..] == "\r\n" ==> r == s[..|s| - 2])
  {
  }

  /** Appending a terminator to a text, then trimming, gives the text back. */
  lemma AppendThenTrim(s: string, t: string)
    requires IsLineTerminator(t)
    requires t == "\n" ==> s == [] || s[|s| - 1] != '\r'
    ensures TrimTrailingNewline(s + t) == s
  {
    var u := s + t;
    assert u[..|s|] == s;
    if t == "\n" && |s| >= 1 {
      assert u[|u| - 2..] == [s[|s| - 1], '\n'];
    }
  }

  /** Exactly one terminator is removed: "a\n" gives "a", "a\n\n" gives "a\n". */
  lemma TrimExamples()
    ensures TrimTrailingNewline("a\n") == "a"
    ensures TrimTrailingNewline("a\n\n") == "a\n"
    ensures TrimTrailingNewline("a\r\n") == "a"
    ensures TrimTrailingNewline("\n") == ""
    ensures TrimTrailingNewline("a") == "a"
    ensures TrimTrailingNewline("") == ""
  {
    assert "a\n"[0..] == "a\n" && "a\n"[..1] == "a";
    assert "a\n\n"[1..] == "\n\n" && "a\n\n"[..2] == "a\n";
    assert "a\r\n"[1..] == "\r\n" && "a\r\n"[..1] == "a";
    assert "\n"[..0] == "";
  }
}
