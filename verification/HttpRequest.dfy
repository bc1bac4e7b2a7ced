/** The life cycle of an HTTP download: temporary file, destination, memory buffer and running hash. */
module HttpRequest {
  import opened Bytes
  import opened Wrappers
  import opened Sha256Words
  import opened Sha256Spec
  import opened Sha256

  datatype HttpState = Queued | Running | Done | Error | Aborted

  /** The two paths a request works on, m_aDestAbsoluteTmp and m_aDestAbsolute. */
  class Files {
    var tmp: Option<seq<octet>>
    var dest: Option<seq<octet>>

    /** fs_remove of the temporary file. */
    method Remove(ok: bool)
      modifies `tmp
      ensures tmp == if ok then None else old(tmp)
    {
      if ok {
        tmp := None;
      }
    }

    /** fs_rename of the temporary file to the destination. */
    method Rename(ok: bool) returns (failed: bool)
      modifies this
      ensures failed <==> !(ok && old(tmp).Some?)
      ensures if failed then tmp == old(tmp) && dest == old(dest) else tmp == None && dest == old(tmp)
    {
      failed := !(ok && tmp.Some?);
      if !failed {
        dest := tmp;
        tmp := None;
      }
    }
  }

  /** How far a request has come. */
  datatype Phase =
    | Created     // not started
    | Receiving   // BeforeInit has succeeded, every chunk so far was taken
    | Refused     // BeforeInit or OnData has told the caller to abort
    | Completed   // OnCompletionInternal has been called
    | Skipped     // the engine has found that nothing needs to be downloaded

  /** Twice the size until the chunk fits. */
  method GrownSize(bufferSize: nat, needed: nat) returns (newBufferSize: nat)
    ensures newBufferSize >= needed && newBufferSize >= 1024 && newBufferSize >= bufferSize
    ensures newBufferSize == bufferSize || newBufferSize == 1024 || newBufferSize < 2 * needed
  {
    newBufferSize := if 1024 < bufferSize then bufferSize else 1024;
    while needed > newBufferSize
      invariant newBufferSize >= 1024 && newBufferSize >= bufferSize
      invariant newBufferSize == bufferSize || newBufferSize == 1024 || newBufferSize < 2 * needed
      decreases needed - newBufferSize
    {
      newBufferSize := newBufferSize * 2;
    }
  }

  class Request {
    const files: Files
    const ctx: Sha256Ctx
    const writeToMemory: bool
    const writeToFile: bool
    const skipByFileTime: bool
    const maxResponseSize: int
    const expected: Option<seq<octet>>
    var validateBeforeOverwrite: bool
    var ifModifiedSince: int
    var actual: Option<seq<octet>>
    var responseLength: nat
    var statusCode: int
    var bufferSize: nat
    var buffer: array<octet>
    var file: bool
    var state: HttpState

    ghost var phase: Phase
    ghost var original: Option<seq<octet>>  // the destination before the request
    ghost var received: seq<octet>          // the chunks taken so far
    ghost var whole: bool                   // none of them was 4 GiB or longer
    ghost var hashed: seq<octet>            // what the hash was taken of
    ghost var clean: bool                   // no removal of the temporary file has failed

    ghost predicate WithinCap()
      reads `received
    {
      maxResponseSize >= 0 ==> |received| <= maxResponseSize
    }

    ghost predicate InMemory()
      reads `buffer, `bufferSize, `responseLength, `received, buffer
    {
      && buffer.Length == bufferSize
      && (bufferSize <= 1024 || bufferSize < 2 * responseLength)
      && (writeToMemory ==> responseLength <= bufferSize && buffer[..responseLength] == received)
    }

    /** What Result() returns. */
    ghost predicate ResultIs(content: seq<octet>)
      reads `responseLength, `buffer, buffer
    {
      responseLength == |content| <= buffer.Length && buffer[..responseLength] == content
    }

    /** What holds while data comes in. */
    ghost predicate Holding()
      reads this, files, buffer, ctx
    {
      && file == writeToFile && (writeToFile ==> files.tmp == Some(received)) && files.dest == original
      && responseLength == |received| && WithinCap() && InMemory()
      && (whole ==> ctx.message == received)
    }

    /** The download is complete and is what was expected. */
    ghost predicate Verified()
      reads `actual, `hashed, `whole, `received
    {
      && actual == Some(Sha256Spec.Sha256(hashed)) && (whole ==> hashed == received)
      && (expected.Some? ==> actual == expected) && WithinCap()
    }

    ghost predicate AwaitsValidation()
      reads this
    {
      state == Done && validateBeforeOverwrite && writeToFile && statusCode != 304
    }

    /** What holds once the request is completed. */
    ghost predicate Settled()
      reads this, files
    {
      && !file && state in {Done, Error, Aborted}
      && (files.dest == original || (files.dest == Some(received) && Verified()))
      && (AwaitsValidation() ==> files.tmp == Some(received) && Verified())
      && (writeToFile && clean && !AwaitsValidation() ==> files.tmp == None)
    }

    /** The request, its files and its buffer are no part of the hash context. */
    ghost predicate Apart()
      reads this, ctx
    {
      var mine: set<object> := {this, files, buffer};
      mine !! ctx.Repr()
    }

    ghost predicate Valid()
      reads this, files, ctx, ctx.state, ctx.buf, buffer
    {
      && Apart()
      && match phase
         case Created =>
           && ctx.Valid() && ctx.message == [] && received == [] && whole && clean && state == Queued && statusCode == 0
           && !file && responseLength == 0 && bufferSize == buffer.Length == 0 && files.dest == original
         case Receiving => ctx.Valid() && Holding() && clean && state in {Queued, Running}
         case Refused => ctx.Valid() && files.dest == original && clean && state in {Queued, Running}
         case Completed => Settled()
         case Skipped => !file && state in {Done, Error}
    }

    constructor (files: Files, writeToMemory: bool, writeToFile: bool, validate: bool, skipByFileTime: bool,
                 maxResponseSize: int, expected: Option<seq<octet>>)
      ensures Valid() && phase == Created && this.files == files && fresh(ctx.Repr()) && fresh(buffer)
      ensures this.writeToMemory == writeToMemory && this.writeToFile == writeToFile
      ensures validateBeforeOverwrite == validate && this.skipByFileTime == skipByFileTime
      ensures this.maxResponseSize == maxResponseSize && this.expected == expected
      ensures statusCode == 0 && ifModifiedSince == -1
    {
      hide Sha256Ctx.Valid, Sha256Spec.Sha256, Holding, Settled, Verified;
      this.files, this.writeToMemory, this.writeToFile := files, writeToMemory, writeToFile;
      this.validateBeforeOverwrite, this.skipByFileTime := validate, skipByFileTime;
      this.maxResponseSize, this.expected := maxResponseSize, expected;
      ifModifiedSince, actual, responseLength, statusCode := -1, None, 0, 0;
      bufferSize, file, state := 0, false, Queued;
      phase, received, whole, hashed, clean, original := Created, [], true, [], true, files.dest;
      ctx := new Sha256Ctx.Init();
      buffer := new octet[0];
    }

    /** The time the server is asked about: that of the existing file, if it is wanted and there is one. */
    ghost function Since(fileTime: Option<int>): int
      reads `ifModifiedSince
    {
      if writeToFile && skipByFileTime && fileTime.Some? then fileTime.value else ifModifiedSince
    }

    /** BeforeInit; the file time, and whether the folder and the file could be created, are the system's. */
    method BeforeInit(fileTime: Option<int>, folderCreated: bool, fileOpened: bool) returns (ok: bool)
      requires Valid() && phase == Created
      modifies `ifModifiedSince, `file, `phase, files`tmp
      ensures Valid() && phase == if ok then Receiving else Refused
      ensures ok <==> !writeToFile || (folderCreated && fileOpened)
      ensures files.tmp == if writeToFile && ok then Some([]) else old(files.tmp)
      ensures ifModifiedSince == old(Since(fileTime))
    {
      hide Sha256Ctx.Valid;
      if writeToFile {
        if skipByFileTime {
          if fileTime.Some? {
            ifModifiedSince := fileTime.value;
          }
        }
        if !folderCreated {
          phase := Refused;
          return false;
        }
        file := fileOpened;
        if !file {
          phase := Refused;
          return false;
        }
        files.tmp := Some([]);
      }
      phase := Receiving;
      return true;
    }

    /** The part of OnData that keeps the chunk in memory. */
    method Store(data: seq<octet>)
      requires InMemory() && responseLength == |received| && writeToMemory
      modifies `buffer, `bufferSize, buffer
      ensures buffer == old(buffer) || fresh(buffer)
      ensures buffer.Length == bufferSize && responseLength + |data| <= bufferSize
      ensures bufferSize <= 1024 || bufferSize < 2 * (responseLength + |data|)
      ensures buffer[..responseLength + |data|] == received + data
    {
      var newBufferSize := GrownSize(bufferSize, responseLength + |data|);
      if newBufferSize != bufferSize {
        var grown := new octet[newBufferSize];
        forall i | 0 <= i < responseLength {
          grown[i] := buffer[i];
        }
        assert grown[..responseLength] == buffer[..responseLength];
        buffer := grown;
        bufferSize := newBufferSize;
      }
      forall i | 0 <= i < |data| {
        buffer[responseLength + i] := data[i];
      }
    }

    /** The parts of OnData that write the chunk where it is wanted. */
    method Write(data: seq<octet>, written: nat) returns (result: nat)
      requires InMemory() && responseLength == |received| && (writeToFile ==> files.tmp == Some(received))
      requires Apart() && written <= |data|
      modifies `buffer, `bufferSize, buffer, files`tmp, `responseLength, `received
      ensures result == if writeToFile then written else |data|
      ensures received == old(received) + data && responseLength == |received| && InMemory()
      ensures if writeToFile then result == |data| ==> files.tmp == Some(received) else files.tmp == old(files.tmp)
      ensures Apart() && (buffer == old(buffer) || fresh(buffer))
    {
      hide WithinCap, Sha256Spec.Sha256;
      result := |data|;
      if writeToMemory {
        Store(data);
      }
      if writeToFile {
        assert written == |data| ==> data[..written] == data;
        files.tmp := Some(files.tmp.value + data[..written]);
        result := written;
      }
      responseLength := responseLength + |data|;
      received := received + data;
    }

    /** OnData; the file takes the first `written` bytes. */
    method OnData(data: seq<octet>, written: nat) returns (result: nat)
      requires Valid() && phase == Receiving && written <= |data|
      modifies `responseLength, `buffer, `bufferSize, `phase, `received, `whole
      modifies buffer, files`tmp, ctx, ctx.state, ctx.buf
      ensures Valid() && (buffer == old(buffer) || fresh(buffer))
      ensures result == |data| <==>
                && (maxResponseSize >= 0 ==> |old(received)| + |data| <= maxResponseSize)
                && (writeToFile && data != [] ==> written == |data|)
      ensures if result == |data| then phase == Receiving && received == old(received) + data else phase == Refused
      ensures result == |data| ==> ctx.message == old(ctx.message) + Absorbed(data)
      ensures old(whole) && |data| < U32_RANGE ==> whole
      ensures ctx.Repr() == old(ctx.Repr()) && (!writeToFile ==> files.tmp == old(files.tmp))
    {
      hide Sha256Ctx.Valid, Sha256Spec.Sha256, Absorbed, Settled, Verified, InMemory;
      if maxResponseSize >= 0 && responseLength + |data| > maxResponseSize {
        phase := Refused;
        return 0;
      }
      if |data| == 0 {
        assert received + data == received;
        AbsorbedWhole(data);
        return |data|;
      }
      ctx.Update(data);
      AbsorbedWhole(data);
      result := Write(data, written);
      whole := whole && |data| < U32_RANGE;
      if result != |data| {
        phase := Refused;
      }
    }

    /** The engine notes the server's answer before it completes the request. */
    method SetStatus(code: int)
      requires Valid() && phase in {Receiving, Refused}
      modifies `statusCode
      ensures Valid() && statusCode == code
    {
      hide Sha256Ctx.Valid, Sha256Spec.Sha256, InMemory;
      statusCode := code;
    }

    /** The engine completes a request that need not be run. */
    method Skip()
      requires Valid() && phase == Created
      modifies `state, `phase
      ensures Valid() && phase == Skipped && state == Done && statusCode == 0 && !file
    {
      hide Sha256Ctx.Valid;
      state := Done;
      phase := Skipped;
    }

    /** The hash part of OnCompletionInternal. */
    method CheckHash(outcome: HttpState) returns (verdict: HttpState)
      requires Valid() && phase in {Created, Receiving, Refused} && (outcome == Done ==> phase == Receiving)
      modifies `actual, `hashed, ctx, ctx.state, ctx.buf
      ensures outcome == Done ==> hashed == old(ctx.message) && actual == Some(Sha256Spec.Sha256(hashed))
      ensures verdict == if outcome == Done && expected.Some? && actual != expected then Error else outcome
      ensures verdict == Done ==> Verified()
      ensures ctx.Repr() == old(ctx.Repr())
    {
      hide Sha256Ctx.Valid, Sha256Spec.Sha256, InMemory;
      verdict := outcome;
      if outcome == Done {
        hashed := ctx.message;
        var digest := ctx.Done();
        actual := Some(digest);
        if expected.Some? && actual != expected {
          verdict := Error;
        }
      }
    }

    /** Puts the existing destination in memory instead of a body that was not sent. */
    method Reload(reloaded: bool) returns (ok: bool)
      modifies `buffer, `responseLength
      ensures ok <==> reloaded && files.dest.Some?
      ensures fresh(buffer)
      ensures ok ==> ResultIs(files.dest.value)
    {
      buffer := new octet[0];
      responseLength := 0;
      ok := reloaded && files.dest.Some?;
      if ok {
        var content := files.dest.value;
        buffer := new octet[|content|](i requires 0 <= i < |content| => content[i]);
        responseLength := |content|;
      }
    }

    /** The file is closed, and then: what a 304 answer stands for is there, or the download gets its place. */
    ghost predicate FilePlaced(closed: bool, renamed: bool, reloaded: bool)
      reads `statusCode, `ifModifiedSince, `validateBeforeOverwrite, files`dest
    {
      && closed
      && if statusCode == 304 then ifModifiedSince >= 0 && (writeToMemory ==> reloaded && files.dest.Some?)
         else validateBeforeOverwrite || renamed
    }

    /** The file part of OnCompletionInternal. */
    method SettleFile(outcome: HttpState, closed: bool, removed: bool, renamed: bool, reloaded: bool)
      returns (verdict: HttpState)
      requires writeToFile && outcome in {Done, Error, Aborted} && files.dest == original && clean
      requires outcome == Done ==> file && files.tmp == Some(received)
      modifies `file, `clean, `buffer, `responseLength, files
      ensures !file && verdict in {Done, Error, Aborted}
      ensures verdict == Done <==> outcome == Done && old(FilePlaced(closed, renamed, reloaded))
      ensures verdict == Aborted <==> outcome == Aborted && (old(file) ==> closed)
      ensures buffer == old(buffer) || fresh(buffer)
      ensures files.dest == if verdict == Done && statusCode != 304 && !validateBeforeOverwrite
                            then Some(received) else original
      ensures files.tmp == if verdict == Done && statusCode != 304 && validateBeforeOverwrite then Some(received)
                           else if removed || (verdict == Done && statusCode != 304) then None else old(files.tmp)
      ensures clean <==> removed || (verdict == Done && statusCode != 304)
      ensures verdict == Done && statusCode != 304 ==> buffer == old(buffer) && responseLength == old(responseLength)
      ensures verdict == Done && statusCode == 304 && writeToMemory ==> files.dest.Some? && ResultIs(files.dest.value)
    {
      verdict := outcome;
      if file && !closed {
        verdict := Error;
      }
      file := false;
      if verdict == Error || verdict == Aborted {
        files.Remove(removed);
        clean := removed;
      } else if statusCode == 304 {
        files.Remove(removed);
        clean := removed;
        if ifModifiedSince < 0 {
          verdict := Error;
        } else if writeToMemory {
          var ok := Reload(reloaded);
          if !ok {
            verdict := Error;
          }
        }
      } else if !validateBeforeOverwrite {
        var failed := files.Rename(renamed);
        if failed {
          verdict := Error;
          files.Remove(removed);
          clean := removed;
        }
      }
    }

    /** OnCompletionInternal; a refused request must not be completed as done (http.h:191-197). */
    method OnCompletionInternal(outcome: HttpState, closed: bool, removed: bool, renamed: bool, reloaded: bool)
      requires Valid() && phase in {Created, Receiving, Refused}
      requires outcome in {Done, Error, Aborted} && (outcome == Done ==> phase == Receiving)
      modifies `actual, `hashed, `file, `clean, `buffer, `responseLength, `state, `phase
      modifies files, ctx, ctx.state, ctx.buf
      ensures Valid() && phase == Completed && (buffer == old(buffer) || fresh(buffer)) && (removed ==> clean)
      ensures state == Done <==>
                && outcome == Done
                && (expected.Some? ==> Sha256Spec.Sha256(old(ctx.message)) == expected.value)
                && (writeToFile ==> old(FilePlaced(closed, renamed, reloaded)))
      ensures state == Aborted <==> outcome == Aborted && (writeToFile && old(file) ==> closed)
      ensures state in {Done, Error, Aborted} && (state == Done ==> Verified())
      ensures outcome == Done ==> actual == Some(Sha256Spec.Sha256(old(ctx.message)))
      ensures files.dest == if writeToFile && state == Done && statusCode != 304 && !validateBeforeOverwrite
                            then Some(received) else old(files.dest)
      ensures files.tmp == if !writeToFile then old(files.tmp)
                           else if state == Done && statusCode != 304
                           then if validateBeforeOverwrite then Some(received) else None
                           else if removed then None else old(files.tmp)
      ensures state == Done && writeToMemory && !(writeToFile && statusCode == 304) ==> ResultIs(received)
      ensures state == Done && writeToMemory && writeToFile && statusCode == 304 ==>
                files.dest.Some? && ResultIs(files.dest.value)
    {
      hide Valid, Settled, Holding, Verified, AwaitsValidation, InMemory, ResultIs, WithinCap, FilePlaced;
      hide Sha256Ctx.Valid, Sha256Spec.Sha256;
      BeforeCompletion();
      var verdict := CheckHash(outcome);
      if writeToFile {
        verdict := SettleFile(verdict, closed, removed, renamed, reloaded);
      } else {
        file := false;
      }
      state := verdict;
      phase := Completed;
      AfterCompletion();
    }

    lemma BeforeCompletion()
      requires Valid() && phase in {Created, Receiving, Refused}
      ensures clean && files.dest == original && Apart()
      ensures phase == Receiving ==>
                && file == writeToFile && (writeToFile ==> files.tmp == Some(received))
                && (writeToMemory ==> ResultIs(received))
    {
      hide Sha256Ctx.Valid, Sha256Spec.Sha256;
    }

    lemma AfterCompletion()
      requires Apart() && phase == Completed && !file
      requires state in {Done, Error, Aborted} && (state == Done ==> Verified())
      requires files.dest == if writeToFile && state == Done && statusCode != 304 && !validateBeforeOverwrite
                             then Some(received) else original
      requires writeToFile ==>
                 if state == Done && statusCode != 304 && validateBeforeOverwrite
                 then files.tmp == Some(received) else clean ==> files.tmp == None
      ensures Valid()
    {
      hide Verified;
    }

    /**
      OnValidation. It does not look at the state: what it places is what it should be as long as the
      request is done, or has left no temporary file behind.
    */
    method OnValidation(success: bool, removed: bool, renamed: bool)
      requires validateBeforeOverwrite
      modifies `validateBeforeOverwrite, `state, `clean, files
      ensures var placed := success && statusCode != 304 && writeToFile && renamed && old(files.tmp).Some?;
              && files.dest == (if placed then old(files.tmp) else old(files.dest))
              && files.tmp == (if placed || (writeToFile && removed) then None else old(files.tmp))
              && state == (if placed || (success && statusCode == 304 && ifModifiedSince >= 0) then old(state)
                           else Error)
              && !validateBeforeOverwrite && (old(clean) && removed ==> clean)
              && (old(Valid()) && phase in {Completed, Skipped} && (old(state) == Done || !placed) ==> Valid())
    {
      hide Verified, Holding, Sha256Ctx.Valid;
      validateBeforeOverwrite := false;
      if success {
        if statusCode == 304 {
          if ifModifiedSince < 0 {
            state := Error;
          }
          Discard(removed);
          return;
        }
        // without a file both paths are empty and cannot be renamed
        var failed := files.Rename(renamed && writeToFile);
        if failed {
          state := Error;
          Discard(removed);
        }
      } else {
        state := Error;
        Discard(removed);
      }
    }

    /** Removes the temporary file, if there is one. */
    method Discard(removed: bool)
      modifies `clean, files`tmp
      ensures files.tmp == if writeToFile && removed then None else old(files.tmp)
      ensures clean == (old(clean) && (removed || !writeToFile))
    {
      if writeToFile {
        files.Remove(removed);
        clean := clean && removed;
      }
    }

    /** The destructor, which asserts that the file has been closed. */
    method Destroy(removed: bool)
      requires !file
      modifies `validateBeforeOverwrite, `state, `clean, files
      ensures files.dest == old(files.dest) && (old(clean) && removed ==> clean)
      ensures var refused := old(state) == Done && old(validateBeforeOverwrite);
              && state == (if refused then Error else old(state))
              && files.tmp == if refused && writeToFile && removed then None else old(files.tmp)
      ensures old(Valid()) ==> Valid() && (writeToFile && phase == Completed && clean ==> files.tmp == None)
    {
      hide Verified, Holding, Sha256Ctx.Valid;
      if state == Done && validateBeforeOverwrite {
        OnValidation(false, removed, false);
      }
    }
  }

  /** The hash of a file, read in pieces of 64 KiB. */
  method CalculateSha256(content: Option<seq<octet>>, readable: bool) returns (digest: Option<seq<octet>>)
    ensures digest == if readable && content.Some? then Some(Sha256Spec.Sha256(content.value)) else None
  {
    hide Sha256Ctx.Valid, Sha256Spec.Sha256, Absorbed;
    if !(readable && content.Some?) {
      return None;
    }
    var ctx := new Sha256Ctx.Init();
    var rest := content.value;
    while true
      invariant ctx.Valid() && fresh(ctx.Repr()) && ctx.message + rest == content.value
      decreases |rest|
    {
      var bytes := Min(|rest|, 64 * 1024);
      if bytes == 0 {
        break;
      }
      AbsorbedWhole(rest[..bytes]);
      ctx.Update(rest[..bytes]);
      assert rest == rest[..bytes] + rest[bytes..];
      rest := rest[bytes..];
    }
    assert ctx.message == content.value;
    var result := ctx.Done();
    return Some(result);
  }

  /** The destination already is what is expected, and can be read. */
  ghost predicate MatchesExisting(writeToFile: bool, expected: Option<seq<octet>>, dest: Option<seq<octet>>,
                                  readable: bool)
  {
    writeToFile && expected.Some? && dest.Some? && readable && Sha256Spec.Sha256(dest.value) == expected.value
  }

  /** ShouldSkipRequest. */
  method ShouldSkipRequest(r: Request, readable: bool) returns (skip: bool)
    ensures skip <==> MatchesExisting(r.writeToFile, r.expected, r.files.dest, readable)
  {
    hide Sha256Spec.Sha256;
    if r.writeToFile && r.expected.Some? {
      var digest := CalculateSha256(r.files.dest, readable);
      if digest.Some? && digest.value == r.expected.value {
        return true;
      }
    }
    return false;
  }

  // ----- whole runs -----

  /** What the system, the server and the caller of a request decide. */
  datatype Script = Script(
    readable: bool, fileTime: Option<int>, folderCreated: bool, fileOpened: bool,
    written: seq<nat>, outcome: HttpState, statusCode: int,
    closed: bool, removed: bool, renamed: bool, reloaded: bool,
    doneOnly: bool, validation: Option<bool>)

  ghost predicate ScriptFor(script: Script, chunks: seq<seq<octet>>) {
    && script.outcome in {Done, Error, Aborted} && |script.written| == |chunks|
    && forall i :: 0 <= i < |chunks| ==> script.written[i] <= |chunks[i]|
  }

  lemma NextChunk(chunks: seq<seq<octet>>, i: nat)
    requires i < |chunks|
    ensures Concat(chunks[..i + 1]) == Concat(chunks[..i]) + chunks[i]
    ensures AbsorbedAll(chunks[..i + 1]) == AbsorbedAll(chunks[..i]) + Absorbed(chunks[i])
    ensures |Concat(chunks[..i + 1])| <= |Concat(chunks)|
  {
    hide Absorbed;
    assert chunks[..i + 1] == chunks[..i] + [chunks[i]];
    assert chunks[..i + 1][..i] == chunks[..i];
    ConcatAppend(chunks[..i], chunks[i]);
    assert chunks == chunks[..i + 1] + chunks[i + 1..];
    ConcatParts(chunks[..i + 1], chunks[i + 1..]);
  }

  /** Every chunk is taken: together they stay within the cap, and each is written whole. */
  ghost predicate AllTaken(r: Request, chunks: seq<seq<octet>>, script: Script)
    requires ScriptFor(script, chunks)
  {
    && (r.maxResponseSize >= 0 ==> |Concat(chunks)| <= r.maxResponseSize)
    && (r.writeToFile ==> forall i :: 0 <= i < |chunks| ==> script.written[i] == |chunks[i]|)
  }

  /** Hands the chunks over one by one until one is refused. */
  method Receive(r: Request, chunks: seq<seq<octet>>, script: Script) returns (taken: bool)
    requires r.Valid() && r.phase == Receiving && r.received == r.ctx.message == [] && r.whole
    requires ScriptFor(script, chunks)
    modifies r`responseLength, r`buffer, r`bufferSize, r`phase, r`received, r`whole
    modifies r.buffer, r.files`tmp, r.ctx, r.ctx.state, r.ctx.buf
    ensures r.Valid() && (r.buffer == old(r.buffer) || fresh(r.buffer)) && r.ctx.Repr() == old(r.ctx.Repr())
    ensures taken <==> AllTaken(r, chunks, script)
    ensures if taken then r.phase == Receiving && r.received == Concat(chunks) else r.phase == Refused
    ensures taken ==> r.ctx.message == AbsorbedAll(chunks)
    ensures taken && (forall i :: 0 <= i < |chunks| ==> |chunks[i]| < U32_RANGE) ==> r.whole
    ensures !r.writeToFile ==> r.files.tmp == old(r.files.tmp)
  {
    hide Request.Valid, Absorbed;
    for i := 0 to |chunks|
      invariant r.Valid() && r.phase == Receiving && r.received == Concat(chunks[..i])
      invariant r.ctx.message == AbsorbedAll(chunks[..i])
      invariant r.maxResponseSize >= 0 ==> |Concat(chunks[..i])| <= r.maxResponseSize
      invariant r.writeToFile ==> forall k :: 0 <= k < i ==> script.written[k] == |chunks[k]|
      invariant (r.buffer == old(r.buffer) || fresh(r.buffer)) && r.ctx.Repr() == old(r.ctx.Repr())
      invariant (forall k :: 0 <= k < i ==> |chunks[k]| < U32_RANGE) ==> r.whole
      invariant !r.writeToFile ==> r.files.tmp == old(r.files.tmp)
    {
      var result := r.OnData(chunks[i], script.written[i]);
      NextChunk(chunks, i);
      if result != |chunks[i]| {
        return false;
      }
    }
    assert chunks[..|chunks|] == chunks;
    return true;
  }

  /** The destination is the whole download, complete, within the cap, as expected and validated. */
  ghost predicate Delivered(dest: Option<seq<octet>>, chunks: seq<seq<octet>>, script: Script,
                            maxResponseSize: int, expected: Option<seq<octet>>, validate: bool)
  {
    var body := Concat(chunks);
    && dest == Some(body) && script.outcome == Done && script.statusCode != 304
    && (maxResponseSize >= 0 ==> |body| <= maxResponseSize)
    && (expected.Some? && (forall i :: 0 <= i < |chunks| ==> |chunks[i]| < U32_RANGE) ==>
          Sha256Spec.Sha256(body) == expected.value)
    && (validate ==> script.validation == Some(true))
  }

  /**
    What it takes for a download to be done: the files can be created, every chunk is taken, the transfer
    succeeds, the hash is the expected one, and the file is closed and put in its place. A 304 answer
    takes the existing file instead, if the server was asked about one.
  */
  ghost predicate Succeeds(r: Request, chunks: seq<seq<octet>>, script: Script)
    requires ScriptFor(script, chunks)
    reads r, r.files
  {
    && (r.writeToFile ==> script.folderCreated && script.fileOpened)
    && AllTaken(r, chunks, script) && script.outcome == Done
    && (r.expected.Some? ==> Sha256Spec.Sha256(AbsorbedAll(chunks)) == r.expected.value)
    && (r.writeToFile ==>
          && script.closed
          && if script.statusCode == 304
             then r.Since(script.fileTime) >= 0 && (r.writeToMemory ==> script.reloaded && r.files.dest.Some?)
             else r.validateBeforeOverwrite || script.renamed)
  }

  /** The request up to its completion. */
  method Perform(r: Request, chunks: seq<seq<octet>>, script: Script)
    requires r.Valid() && r.phase == Created && ScriptFor(script, chunks)
    modifies r, r.files, r.buffer, r.ctx, r.ctx.state, r.ctx.buf
    ensures r.Valid() && r.phase == Completed && r.validateBeforeOverwrite == old(r.validateBeforeOverwrite)
    ensures script.removed ==> r.clean
    ensures r.state == Done <==> old(Succeeds(r, chunks, script))
    ensures r.state == Done ==>
              && r.Verified() && r.received == Concat(chunks)
              && script.outcome == Done && r.statusCode == script.statusCode
    ensures r.ifModifiedSince == old(r.Since(script.fileTime))
    ensures r.state == Done && (forall i :: 0 <= i < |chunks| ==> |chunks[i]| < U32_RANGE) ==> r.whole
    ensures r.files.dest == if r.writeToFile && r.state == Done && r.statusCode != 304 && !r.validateBeforeOverwrite
                            then Some(r.received) else old(r.files.dest)
  {
    hide Request.Valid, Request.Verified, Sha256Spec.Sha256, Concat, AbsorbedAll;
    var taken := false;
    FreshRequest(r);
    var ok := r.BeforeInit(script.fileTime, script.folderCreated, script.fileOpened);
    if ok {
      taken := Receive(r, chunks, script);
      r.SetStatus(script.statusCode);
    }
    var outcome := if taken then script.outcome else Error;
    r.OnCompletionInternal(outcome, script.closed, script.removed, script.renamed, script.reloaded);
  }

  lemma FreshRequest(r: Request)
    requires r.Valid() && r.phase == Created
    ensures r.received == r.ctx.message == [] && r.whole && !r.file
  {
  }

  /** What a completed request has in its temporary file. */
  lemma CompletedFiles(r: Request)
    requires r.Valid() && r.phase == Completed
    ensures !r.file && (r.AwaitsValidation() ==> r.files.tmp == Some(r.received))
    ensures r.writeToFile && r.clean && !r.AwaitsValidation() ==> r.files.tmp == None
  {
    hide Request.Verified;
  }

  lemma VerifiedIsDelivered(r: Request, chunks: seq<seq<octet>>, script: Script, validate: bool)
    requires r.Verified() && r.received == Concat(chunks) && script.outcome == Done && script.statusCode != 304
    requires (forall i :: 0 <= i < |chunks| ==> |chunks[i]| < U32_RANGE) ==> r.whole
    requires validate ==> script.validation == Some(true)
    ensures Delivered(Some(r.received), chunks, script, r.maxResponseSize, r.expected, validate)
  {
    hide Sha256Spec.Sha256, Concat;
  }

  /** A request that waits to be validated is, with success, and what is validated gets its place. */
  ghost predicate Confirmed(r: Request, script: Script)
    reads r
  {
    r.validateBeforeOverwrite ==>
      && script.validation == Some(true)
      && if script.statusCode == 304 then r.Since(script.fileTime) >= 0 else r.writeToFile && script.renamed
  }

  /**
    A whole run: skipped or performed, then perhaps validated, then destroyed. A caller that validates
    requests without looking whether they are done relies on the removal of what failed downloads leave.
  */
  method Run(r: Request, chunks: seq<seq<octet>>, script: Script) returns (skipped: bool)
    requires r.Valid() && r.phase == Created && ScriptFor(script, chunks)
    modifies r, r.files, r.buffer, r.ctx, r.ctx.state, r.ctx.buf
    ensures skipped <==> MatchesExisting(r.writeToFile, r.expected, old(r.files.dest), script.readable)
    ensures !skipped && r.files.dest != old(r.files.dest) && (script.doneOnly || script.removed) ==>
              Delivered(r.files.dest, chunks, script, r.maxResponseSize, r.expected, old(r.validateBeforeOverwrite))
    ensures !skipped ==> (r.state == Done <==> old(Succeeds(r, chunks, script) && Confirmed(r, script)))
    ensures !skipped && r.writeToFile && r.state == Done && script.statusCode != 304 ==>
              r.files.dest == Some(Concat(chunks))
    ensures !skipped && r.writeToFile && script.removed ==> r.files.tmp == None
    ensures skipped ==>
              var validate, left := old(r.validateBeforeOverwrite), old(r.files.tmp);
              var moved := validate && script.validation == Some(true) && script.renamed && left.Some?;
              && r.files.dest == (if moved then left else old(r.files.dest))
              && r.files.tmp == (if moved || (validate && script.removed) then None else left)
              && r.state == if moved || !validate then Done else Error
  {
    hide Sha256Ctx.Valid, Sha256Spec.Sha256, Request.Valid, Request.Verified, Delivered, Succeeds, Concat;
    ghost var validate := r.validateBeforeOverwrite;
    skipped := ShouldSkipRequest(r, script.readable);
    if skipped {
      r.Skip();
    } else {
      Perform(r, chunks, script);
      CompletedFiles(r);
      if r.state == Done && r.writeToFile && r.statusCode != 304 && (!validate || script.validation == Some(true)) {
        VerifiedIsDelivered(r, chunks, script, validate);
      }
    }
    if script.validation.Some? && (r.state == Done || !script.doneOnly) && r.validateBeforeOverwrite {
      r.OnValidation(script.validation.value, script.removed, script.renamed);
    }
    r.Destroy(script.removed);
  }

  /**
    The one way another file gets to the destination of a request that is done: it is skipped because
    the destination matches, validated all the same, and an earlier process has left a temporary file.
  */
  method StaleFileTakesOver(r: Request, body: seq<octet>, stale: seq<octet>, script: Script) returns (skipped: bool)
    requires r.Valid() && r.phase == Created && r.writeToFile && r.validateBeforeOverwrite
    requires r.files.dest == Some(body) && r.files.tmp == Some(stale) && r.expected == Some(Sha256Spec.Sha256(body))
    requires ScriptFor(script, []) && script.readable && script.renamed && script.validation == Some(true)
    modifies r, r.files, r.buffer, r.ctx, r.ctx.state, r.ctx.buf
    ensures skipped && r.files.dest == Some(stale) && r.state == Done
  {
    hide Sha256Spec.Sha256, Request.Valid;
    skipped := Run(r, [], script);
  }

  /**
    And the one way for a request that is not: its transfer fails, its temporary file cannot be removed,
    and it is validated all the same. Here nothing at all has been downloaded.
  */
  method FailedDownloadTakesOver(r: Request, fileTime: Option<int>, statusCode: int)
    requires r.Valid() && r.phase == Created && r.writeToFile && r.validateBeforeOverwrite && statusCode != 304
    modifies r, r.files, r.buffer, r.ctx, r.ctx.state, r.ctx.buf
    ensures r.state == Error && r.files.dest == Some([])
  {
    hide Sha256Ctx.Valid, Sha256Spec.Sha256, Request.Valid, Request.Verified;
    FreshRequest(r);
    var ok := r.BeforeInit(fileTime, true, true);
    StartedFile(r);
    r.SetStatus(statusCode);
    r.OnCompletionInternal(Error, true, false, true, true);
    r.OnValidation(true, false, true);
  }

  lemma StartedFile(r: Request)
    requires r.Valid() && r.phase == Receiving && r.writeToFile
    ensures r.files.tmp == Some(r.received)
  {
    hide Sha256Ctx.Valid;
  }
}
