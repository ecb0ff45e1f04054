/**
 * GtefFileLoader (gtef-file-loader.c): loads the contents of a location into
 * a GtefBuffer, one load at a time.
 *
 * Each GIO completion callback is a method that receives the outcome of the
 * operation as a parameter; `pending` records which operation has been
 * issued and not yet completed, so each callback requires its own operation
 * to be pending. The fields of the loader mirror GtefFileLoaderPrivate, the
 * fields of the task mirror TaskData, and the buffer is its text, its cursor
 * and its modified flag.
 */
module FileLoader {
  import opened Wrappers
  import opened LoaderSpec

  /** gint64 */
  type Int64 = x: int | -0x8000_0000_0000_0000 <= x < 0x8000_0000_0000_0000

  const DefaultMaxSize: int := 50 * 1000 * 1000
  const DefaultChunkSize: int := 32 * 1024

  /** Outcome of g_file_query_info: an error, or the size attribute when the info has one. */
  datatype QueryResult = QueryFailed(cause: IoError) | QueryInfo(size: Option<nat>)

  /** Outcome of g_input_stream_read_bytes: an error or the bytes read (none at the end of the stream). */
  datatype ReadResult = ReadFailed(cause: IoError) | ReadBytes(data: seq<byte>)

  /** The GIO operation issued for the task and not yet completed. */
  datatype Pending = Idle | QueryingSize | Mounting | Opening | Reading(count: int)

  /** What gtef_file_loader_load_async did: started a load, or warned and returned. */
  datatype StartOutcome = Started | AlreadyLoading | NoLocation

  /** The for loop of determine_encoding: every chunk is handed to the detector, in queue order. */
  method FeedDetector(chunks: seq<seq<byte>>) returns (fed: seq<byte>)
    ensures fed == Concat(chunks)
  {
    fed := [];
    for i := 0 to |chunks|
      invariant fed == Concat(chunks[..i])
    {
      assert chunks[..i + 1][..i] == chunks[..i];
      fed := fed + chunks[i];
    }
    assert chunks[..|chunks|] == chunks;
  }

  class Loader {
    // GtefFileLoaderPrivate; the weak references are liveness flags.
    var bufferAlive: bool
    var fileAlive: bool
    const hasLocation: bool
    var maxSize: int
    var chunkSize: int
    var taskActive: bool

    // The GTask: its pending operation and the value it was completed with.
    var pending: Pending
    var result: Option<TaskResult>

    // TaskData
    var hasProgressCallback: bool
    var totalBytesRead: int
    var totalSize: int
    var contents: seq<seq<byte>>
    var charset: Option<string>
    var triedMount: bool

    // The GtefFile: whether it was marked mounted.
    var fileMounted: bool

    // The GtefBuffer.
    var text: string
    var cursor: nat
    var modified: bool
    const implicitTrailingNewline: bool

    /** The calls made to the progress callback, as (bytes read, total size). */
    var progressReports: seq<(int, int)>


    /** The configuration bounds the setters keep. */
    ghost predicate ValidConfig()
      reads this`maxSize, this`chunkSize
    {
      -1 <= maxSize && 1 <= chunkSize
    }

    /**
     * Every queued chunk is non-empty and, until a charset is chosen and
     * the conversion starts popping the queue, the bytes counted are those
     * of the queued chunks.
     */
    ghost predicate ValidQueue()
      reads this`contents, this`charset, this`totalBytesRead
    {
      NonEmptyChunks(contents) && (charset.None? ==> totalBytesRead == TotalLength(contents))
    }

    /** Every progress report has bytes_read <= total_size. */
    ghost predicate ValidProgress()
      reads this`totalSize, this`progressReports
    {
      && 0 <= totalSize
      && forall i | 0 <= i < |progressReports| :: 0 < progressReports[i].0 <= progressReports[i].1
    }

    /** The task: one operation pending at most, none once the task has its value. */
    ghost predicate ValidTask()
      reads this`taskActive, this`pending, this`result, this`charset
    {
      && (taskActive ==> hasLocation)
      && (!taskActive ==> pending == Idle && result == None)
      && (pending != Idle ==> result == None && charset == None)
      && (charset.Some? ==> charset.value != "")
    }

    ghost predicate Valid()
      reads this
    {
      && ValidConfig()
      && ValidQueue()
      && ValidProgress()
      && ValidTask()
      && cursor <= |text|
    }

    /** gtef_file_loader_new: the buffer and the file, the max-size and chunk-size defaults. */
    constructor (hasLocation: bool, fileMounted: bool, text: string, implicitTrailingNewline: bool)
      ensures Valid()
      ensures this.hasLocation == hasLocation && this.fileMounted == fileMounted
      ensures this.text == text && this.implicitTrailingNewline == implicitTrailingNewline
      ensures bufferAlive && fileAlive && !taskActive
      ensures maxSize == DefaultMaxSize && chunkSize == DefaultChunkSize
    {
      this.hasLocation := hasLocation;
      this.fileMounted := fileMounted;
      this.text := text;
      this.implicitTrailingNewline := implicitTrailingNewline;
      bufferAlive, fileAlive := true, true;
      maxSize, chunkSize := DefaultMaxSize, DefaultChunkSize;
      taskActive, pending, result := false, Idle, None;
      hasProgressCallback, totalBytesRead, totalSize := false, 0, 0;
      contents, charset, triedMount := [], None, false;
      cursor, modified, progressReports := 0, false, [];
    }

    /** The buffer was finalized: the weak pointer becomes NULL. */
    method BufferDestroyed()
      modifies this`bufferAlive
      ensures !bufferAlive
    {
      bufferAlive := false;
    }

    /** The file was finalized: the weak pointer becomes NULL. */
    method FileDestroyed()
      modifies this`fileAlive
      ensures !fileAlive
    {
      fileAlive := false;
    }

    /** gtef_file_loader_set_max_size; `notified` is the property notification. */
    method SetMaxSize(value: Int64) returns (notified: bool)
      requires Valid()
      modifies this`maxSize
      ensures Valid()
      ensures maxSize == if value >= -1 && !taskActive then value else old(maxSize)
      ensures notified <==> value >= -1 && !taskActive && value != old(maxSize)
    {
      notified := false;
      if value < -1 || taskActive {
        return;
      }
      if maxSize != value {
        maxSize := value;
        notified := true;
      }
    }

    /** gtef_file_loader_set_chunk_size; unlike max-size it may change during a load. */
    method SetChunkSize(value: Int64) returns (notified: bool)
      requires Valid()
      modifies this`chunkSize
      ensures Valid()
      ensures chunkSize == if value >= 1 then value else old(chunkSize)
      ensures notified <==> value >= 1 && value != old(chunkSize)
    {
      notified := false;
      if value < 1 {
        return;
      }
      if chunkSize != value {
        chunkSize := value;
        notified := true;
      }
    }

    /** contents_converted_cb: the fragment goes at the buffer end, the cursor at its start. */
    method ContentsConvertedCb(fragment: string)
      requires Valid() && bufferAlive
      modifies this`text, this`cursor
      ensures Valid()
      ensures text == old(text) + fragment && cursor == 0
    {
      text := text + fragment;
      cursor := 0;
    }

    /** remove_trailing_newline_if_needed: deleting text pulls the cursor back inside it. */
    method RemoveTrailingNewlineIfNeeded()
      requires Valid()
      modifies this`text, this`cursor
      ensures Valid()
      ensures text == if bufferAlive && implicitTrailingNewline then TrimTrailingNewline(old(text)) else old(text)
      ensures cursor == if old(cursor) <= |text| then old(cursor) else |text|
    {
      if !bufferAlive || !implicitTrailingNewline {
        return;
      }
      text := TrimTrailingNewline(text);
      if cursor > |text| {
        cursor := |text|;
      }
    }


    /**
     * The state of the conversion loop after the fragments `done` were
     * inserted: the text is the starting text and them, and converting the
     * queue left gives what converting the whole starting queue gives.
     */
    ghost predicate Feeding(conv: Converter, cs: string, text0: string, queue0: seq<seq<byte>>, done: string)
      reads this
    {
      && Valid() && bufferAlive && charset == Some(cs)
      && text == text0 + done
      && ConvertChunks(conv, cs, queue0)
         == var c := ConvertChunks(conv, cs, contents); Converted(done + c.text, c.rest, c.error)
    }

    /** g_queue_pop_head on the queue of chunks. */
    method PopHead() returns (chunk: seq<byte>)
      requires Valid() && contents != [] && charset.Some?
      modifies this`contents
      ensures Valid()
      ensures chunk == old(contents)[0] && contents == old(contents)[1..] && chunk != []
    {
      chunk := contents[0];
      contents := contents[1..];
    }

    /** One pass of the conversion loop: the head chunk is popped and converted, and its fragment inserted. */
    method FeedChunk(conv: Converter, cs: string, ghost text0: string, ghost queue0: seq<seq<byte>>, ghost done: string)
      returns (error: Option<string>, ghost done': string)
      requires Feeding(conv, cs, text0, queue0, done) && contents != []
      modifies this`contents, this`text, this`cursor
      ensures error.None? ==> Feeding(conv, cs, text0, queue0, done') && |contents| < old(|contents|)
      ensures old(cursor) == 0 ==> cursor == 0
      ensures error.Some? ==>
        Valid() && text == text0 + done && ConvertChunks(conv, cs, queue0) == Converted(done, contents, error)
    {
      ghost var c, later := ConvertChunks(conv, cs, contents), ConvertChunks(conv, cs, contents[1..]);
      var chunk := PopHead();
      match conv.feed(cs, chunk) {
        case FeedError(message) =>
          assert c == Converted("", contents, Some(message));
          assert done + "" == done;
          return Some(message), done;
        case Fragment(t) =>
          assert c == Converted(t + later.text, later.rest, later.error);
          assert (done + t) + later.text == done + (t + later.text);
          assert text0 + (done + t) == (text0 + done) + t;
          ContentsConvertedCb(t);
          return None, done + t;
      }
    }

    /**
     * The while loop of convert_and_insert_contents: pops the chunks from
     * the head and appends each converted fragment at the buffer end, until
     * the queue is empty or a chunk fails; `error` is that chunk's error.
     */
    method FeedQueue(conv: Converter, cs: string) returns (error: Option<string>)
      requires Valid() && taskActive && pending == Idle && result == None && bufferAlive && charset == Some(cs)
      modifies this`contents, this`text, this`cursor
      ensures Valid()
      ensures var c := ConvertChunks(conv, cs, old(contents));
        text == old(text) + c.text && contents == c.rest && error == c.error
      ensures error.None? ==> contents == []
      ensures old(cursor) == 0 ==> cursor == 0
    {
      ghost var text0, queue0 := text, contents;
      ghost var done: string := "";
      assert text0 + "" == text0;
      while contents != []
        invariant Feeding(conv, cs, text0, queue0, done)
        invariant old(cursor) == 0 ==> cursor == 0
        decreases |contents|
      {
        error, done := FeedChunk(conv, cs, text0, queue0, done);
        if error.Some? {
          return;
        }
      }
      assert done + "" == done;
      return None;
    }

    /**
     * convert_and_insert_contents: without a buffer the task returns FALSE;
     * a converter that cannot be opened, or the first chunk that fails, ends
     * the load with that error and leaves the text inserted so far; otherwise
     * the trailing newline is removed as the buffer asks and the task
     * returns TRUE.
     */
    method ConvertAndInsert(conv: Converter)
      requires Valid() && taskActive && pending == Idle && result == None && charset.Some?
      modifies this`result, this`contents, this`text, this`cursor
      ensures Valid()
      ensures var o := ConvertAndInsertOutcome(old(bufferAlive), implicitTrailingNewline, conv, charset.value, old(text), old(contents));
        text == o.text && contents == o.rest && result == Some(o.result)
      ensures old(cursor) == 0 ==> cursor == 0
    {
      if !bufferAlive {
        result := Some(ReturnedBool(false));
        return;
      }
      var cs := charset.value;
      var openError := conv.openError(cs);
      if openError.Some? {
        result := Some(ReturnedError(ConversionFailed(openError.value)));
        return;
      }
      var error := FeedQueue(conv, cs);
      if error.Some? {
        result := Some(ReturnedError(ConversionFailed(error.value)));
        return;
      }
      RemoveTrailingNewlineIfNeeded();
      result := Some(ReturnedBool(true));
    }

    /**
     * determine_encoding: the detector sees the whole queue; without a
     * usable charset the load fails, otherwise the contents are converted.
     */
    method DetermineEncoding(detect: Detector, conv: Converter)
      requires Valid() && taskActive && pending == Idle && result == None
      modifies this`charset, this`result, this`contents, this`text, this`cursor
      ensures Valid()
      ensures charset == DetectedCharset(detect, old(contents), old(charset))
      ensures var o := DetermineEncodingOutcome(old(bufferAlive), implicitTrailingNewline, detect, conv, old(text), old(contents), old(charset));
        text == o.text && contents == o.rest && result == Some(o.result)
      ensures old(cursor) == 0 ==> cursor == 0
    {
      var fed := FeedDetector(contents);
      var found := detect(fed);
      if found.Some? && found.value != "" {
        charset := found;
      }
      if charset.None? {
        result := Some(ReturnedError(EncodingAutoDetectionFailed));
        return;
      }
      ConvertAndInsert(conv);
    }

    /** read_next_chunk: asks the stream for MAX (1, chunk_size) bytes. */
    method ReadNextChunk()
      requires Valid() && taskActive && pending == Idle && result == None && charset == None
      modifies this`pending
      ensures Valid()
      ensures pending == Reading(ReadRequestSize(chunkSize))
    {
      pending := Reading(ReadRequestSize(chunkSize));
    }

    /**
     * The progress report of read_next_chunk_cb: only when a callback is set
     * and the total size is known, with the total raised to the bytes read
     * if it was smaller.
     */
    method ReportProgress()
      requires Valid() && totalBytesRead > 0
      modifies this`totalSize, this`progressReports
      ensures Valid()
      ensures hasProgressCallback && old(totalSize) > 0 ==>
        && totalSize == (if old(totalSize) < totalBytesRead then totalBytesRead else old(totalSize))
        && progressReports == old(progressReports) + [(totalBytesRead, totalSize)]
      ensures !(hasProgressCallback && old(totalSize) > 0) ==>
        totalSize == old(totalSize) && progressReports == old(progressReports)
    {
      if hasProgressCallback && totalSize > 0 {
        if totalSize < totalBytesRead {
          totalSize := totalBytesRead;
        }
        progressReports := progressReports + [(totalBytesRead, totalSize)];
      }
    }

    /**
     * The non-empty branch of read_next_chunk_cb: the chunk is pushed at the
     * tail and counted, the next read is issued, and only then is progress
     * reported.
     */
    method QueueChunk(data: seq<byte>)
      requires Valid() && taskActive && pending == Idle && result == None && charset == None && data != []
      modifies this`pending, this`contents, this`totalBytesRead, this`totalSize, this`progressReports
      ensures Valid()
      ensures pending == Reading(ReadRequestSize(chunkSize))
      ensures contents == old(contents) + [data] && totalBytesRead == old(totalBytesRead) + |data|
      ensures hasProgressCallback && old(totalSize) > 0 ==>
        && totalSize == (if old(totalSize) < totalBytesRead then totalBytesRead else old(totalSize))
        && progressReports == old(progressReports) + [(totalBytesRead, totalSize)]
      ensures !(hasProgressCallback && old(totalSize) > 0) ==>
        totalSize == old(totalSize) && progressReports == old(progressReports)
    {
      PushTail(contents, data);
      NonEmptyChunksLength(contents);
      contents := contents + [data];
      totalBytesRead := totalBytesRead + |data|;
      ReadNextChunk();
      ReportProgress();
    }

    /**
     * read_next_chunk_cb: an error ends the load; zero bytes end the reading
     * and lead to the detection; any other chunk is queued.
     */
    method ReadNextChunkCb(r: ReadResult, detect: Detector, conv: Converter)
      requires Valid() && pending.Reading?
      modifies this`pending, this`result, this`contents, this`totalBytesRead, this`totalSize, this`progressReports
      modifies this`charset, this`text, this`cursor
      ensures Valid()
      ensures r.ReadFailed? ==>
        && pending == Idle && result == Some(ReturnedError(Io(r.cause)))
        && contents == old(contents) && totalBytesRead == old(totalBytesRead) && totalSize == old(totalSize)
        && progressReports == old(progressReports) && text == old(text) && cursor == old(cursor) && charset == old(charset)
      ensures r.ReadBytes? && r.data != [] ==>
        && pending == Reading(ReadRequestSize(chunkSize)) && result == None
        && contents == old(contents) + [r.data]
        && totalBytesRead == old(totalBytesRead) + |r.data|
        && text == old(text) && cursor == old(cursor) && charset == old(charset)
        && (hasProgressCallback && old(totalSize) > 0 ==>
              && totalSize == (if old(totalSize) < totalBytesRead then totalBytesRead else old(totalSize))
              && progressReports == old(progressReports) + [(totalBytesRead, totalSize)])
        && (!(hasProgressCallback && old(totalSize) > 0) ==>
              totalSize == old(totalSize) && progressReports == old(progressReports))
      ensures r == ReadBytes([]) ==>
        && pending == Idle && totalBytesRead == old(totalBytesRead) && totalSize == old(totalSize)
        && progressReports == old(progressReports)
        && charset == DetectedCharset(detect, old(contents), old(charset))
        && var o := DetermineEncodingOutcome(old(bufferAlive), implicitTrailingNewline, detect, conv, old(text), old(contents), old(charset));
           text == o.text && contents == o.rest && result == Some(o.result)
    {
      Complete();
      match r {
        case ReadFailed(cause) =>
          result := Some(ReturnedError(Io(cause)));
        case ReadBytes(data) =>
          if |data| == 0 {
            DetermineEncoding(detect, conv);
          } else {
            QueueChunk(data);
          }
      }
    }

    /** The GIO operation of the task has completed. */
    method Complete()
      requires Valid()
      modifies this`pending
      ensures Valid() && pending == Idle
    {
      pending := Idle;
    }

    /** open_file_cb: an error ends the load, otherwise reading starts. */
    method OpenFileCb(err: Option<IoError>)
      requires Valid() && pending == Opening
      modifies this`pending, this`result
      ensures Valid()
      ensures err.Some? ==> pending == Idle && result == Some(ReturnedError(Io(err.value)))
      ensures err.None? ==> pending == Reading(ReadRequestSize(chunkSize)) && result == None
    {
      Complete();
      if err.Some? {
        result := Some(ReturnedError(Io(err.value)));
        return;
      }
      ReadNextChunk();
    }

    /** open_file: g_file_read_async on the location. */
    method OpenFile()
      requires Valid() && taskActive && pending == Idle && result == None && charset == None
      modifies this`pending
      ensures Valid()
      ensures pending == Opening
    {
      pending := Opening;
    }

    /** get_file_size: g_file_query_info_async for the size attribute. */
    method GetFileSize()
      requires Valid() && taskActive && pending == Idle && result == None && charset == None
      modifies this`pending
      ensures Valid()
      ensures pending == QueryingSize
    {
      pending := QueryingSize;
    }

    /** recover_not_mounted: records the attempt, then mounts the enclosing volume. */
    method RecoverNotMounted()
      requires Valid() && taskActive && pending == Idle && result == None && charset == None && !triedMount
      modifies this`pending, this`triedMount
      ensures Valid()
      ensures pending == Mounting && triedMount
    {
      triedMount := true;
      pending := Mounting;
    }

    /** mount_cb: an error ends the load; otherwise the file is marked mounted and the size query is retried. */
    method MountCb(err: Option<IoError>)
      requires Valid() && pending == Mounting
      modifies this`pending, this`result, this`fileMounted
      ensures Valid()
      ensures err.Some? ==>
        pending == Idle && result == Some(ReturnedError(Io(err.value))) && fileMounted == old(fileMounted)
      ensures err.None? ==>
        pending == QueryingSize && result == None && fileMounted == (old(fileMounted) || fileAlive)
    {
      Complete();
      if err.Some? {
        result := Some(ReturnedError(Io(err.value)));
        return;
      }
      if fileAlive {
        fileMounted := true;
      }
      GetFileSize();
    }

    /**
     * get_file_size_cb: a first NOT_MOUNTED error starts the mount recovery,
     * any other error ends the load; a known size above a non-negative
     * maximum ends it with TOO_BIG; otherwise the file is opened.
     */
    method GetFileSizeCb(r: QueryResult)
      requires Valid() && pending == QueryingSize
      modifies this`pending, this`result, this`totalSize, this`triedMount
      ensures Valid()
      ensures r.QueryFailed? && r.cause == NotMounted && !old(triedMount) ==>
        pending == Mounting && result == None && triedMount && totalSize == old(totalSize)
      ensures r.QueryFailed? && !(r.cause == NotMounted && !old(triedMount)) ==>
        && pending == Idle && result == Some(ReturnedError(Io(r.cause)))
        && triedMount == old(triedMount) && totalSize == old(totalSize)
      ensures r.QueryInfo? ==>
        triedMount == old(triedMount) && totalSize == (if r.size.Some? then r.size.value else old(totalSize))
      ensures r.QueryInfo? && r.size.Some? && TooBigFor(r.size.value, maxSize) ==>
        pending == Idle && result == Some(ReturnedError(TooBig))
      ensures r.QueryInfo? && !(r.size.Some? && TooBigFor(r.size.value, maxSize)) ==>
        pending == Opening && result == None
    {
      Complete();
      match r {
        case QueryFailed(cause) =>
          if cause == NotMounted && !triedMount {
            RecoverNotMounted();
          } else {
            result := Some(ReturnedError(Io(cause)));
          }
        case QueryInfo(size) =>
          if size.Some? {
            totalSize := size.value;
            if maxSize >= 0 && totalSize > maxSize {
              result := Some(ReturnedError(TooBig));
              return;
            }
          }
          OpenFile();
      }
    }

    /** start_loading: without a buffer the task returns FALSE; otherwise the buffer is emptied and the size queried. */
    method StartLoading()
      requires Valid() && taskActive && pending == Idle && result == None && charset == None
      modifies this`text, this`cursor, this`result, this`pending
      ensures Valid()
      ensures !bufferAlive ==>
        result == Some(ReturnedBool(false)) && pending == Idle && text == old(text) && cursor == old(cursor)
      ensures bufferAlive ==> text == "" && cursor == 0 && pending == QueryingSize && result == None
    {
      if !bufferAlive {
        result := Some(ReturnedBool(false));
        return;
      }
      text, cursor := "", 0;
      GetFileSize();
    }

    /**
     * gtef_file_loader_load_async: a second load while one is active only
     * warns and leaves everything untouched, as does a missing location.
     */
    method LoadAsync(progressCallback: bool) returns (outcome: StartOutcome)
      requires Valid()
      modifies this`taskActive, this`pending, this`result, this`hasProgressCallback, this`totalBytesRead
      modifies this`totalSize, this`contents, this`charset, this`triedMount, this`progressReports
      modifies this`text, this`cursor
      ensures Valid()
      ensures old(taskActive) ==> outcome == AlreadyLoading && unchanged(this)
      ensures !old(taskActive) && !hasLocation ==> outcome == NoLocation && unchanged(this)
      ensures !old(taskActive) && hasLocation ==>
        && outcome == Started && taskActive
        && hasProgressCallback == progressCallback && totalBytesRead == 0 && totalSize == 0
        && contents == [] && charset == None && !triedMount && progressReports == []
      ensures !old(taskActive) && hasLocation && bufferAlive ==>
        text == "" && cursor == 0 && pending == QueryingSize && result == None
      ensures !old(taskActive) && hasLocation && !bufferAlive ==>
        text == old(text) && cursor == old(cursor) && pending == Idle && result == Some(ReturnedBool(false))
    {
      if taskActive {
        return AlreadyLoading;
      }
      if !hasLocation {
        return NoLocation;
      }
      BeginTask(progressCallback);
      StartLoading();
      outcome := Started;
    }

    /** The task that gtef_file_loader_load_async creates: the callback kept, the counters and the queue reset. */
    method BeginTask(progressCallback: bool)
      requires Valid() && !taskActive && hasLocation
      modifies this`taskActive, this`hasProgressCallback, this`totalBytesRead, this`totalSize
      modifies this`contents, this`charset, this`triedMount, this`progressReports
      ensures Valid()
      ensures taskActive && pending == Idle && result == None
      ensures hasProgressCallback == progressCallback && totalBytesRead == 0 && totalSize == 0
      ensures contents == [] && charset == None && !triedMount && progressReports == []
    {
      ResetQueue();
      taskActive, hasProgressCallback, totalSize, progressReports := true, progressCallback, 0, [];
    }

    /** The queue, the byte count, the charset and the mount attempt of a new task. */
    method ResetQueue()
      requires Valid() && !taskActive
      modifies this`totalBytesRead, this`contents, this`charset, this`triedMount
      ensures Valid()
      ensures totalBytesRead == 0 && contents == [] && charset == None && !triedMount
    {
      totalBytesRead, contents, charset, triedMount := 0, [], None, false;
      assert ValidQueue();
    }

    /**
     * gtef_file_loader_load_finish with finish_loading: the cursor goes to
     * the start and the buffer is marked unmodified, the task's value or
     * error is returned and the task is cleared, so a new load may start.
     * Without a task the call only fails.
     */
    method LoadFinish() returns (ok: bool, error: Option<LoadError>)
      requires Valid()
      requires taskActive ==> result.Some?
      modifies this`taskActive, this`result, this`cursor, this`modified
      ensures Valid()
      ensures !old(taskActive) ==> !ok && error.None? && unchanged(this)
      ensures old(taskActive) ==> !taskActive && result == None
      ensures old(taskActive) && bufferAlive ==> cursor == 0 && !modified
      ensures old(taskActive) && !bufferAlive ==> cursor == old(cursor) && modified == old(modified)
      ensures old(taskActive) && old(result).value.ReturnedBool? ==> ok == old(result).value.value && error.None?
      ensures old(taskActive) && old(result).value.ReturnedError? ==> !ok && error == Some(old(result).value.error)
    {
      if !taskActive {
        return false, None;
      }
      if bufferAlive {
        cursor := 0;
        modified := false;
      }
      match result.value {
        case ReturnedBool(b) =>
          ok, error := b, None;
        case ReturnedError(e) =>
          ok, error := false, Some(e);
      }
      taskActive := false;
      result := None;
    }
  }
}
