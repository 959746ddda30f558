/**
 * `hash_check` (hash.py:463-534): one pass over the file feeds every chunk to
 * every requested accumulator, then each accumulator is finalised into hex.
 *
 * The surroundings are parameters: what `os.stat` reports, what `open` finds
 * (or that it raises) and which read raises OSError, if any, form a `Disk`.
 * The `hash_time` and `file_read_time` entries of the result count the timed
 * intervals that are summed into them instead of measuring seconds.
 */
module HashCheck {
  import opened Wrappers
  import HashLib
  import Chunking
  import Progress
  import Reader

  /** `BLOCK_SIZE_FACTOR` of hash.py:23: `--blocksize` counts decimal kilobytes. */
  const BlockSizeFactor: nat := 1000

  /**
   * The file as hash_check meets it: the `st_size` of `os.stat` (None when it
   * raises), the bytes `open` gives access to (None when it raises), and the
   * number of reads that succeed before one raises (None when none does).
   */
  datatype Disk = Disk(stat: Option<nat>, contents: Option<seq<bv8>>, readFault: Option<nat>)

  /** The `hr_dict` that hash_check returns. */
  datatype HrDict = HrDict(
    failure: nat,
    fileSource: string,
    shortSource: string,
    readBlocks: nat,
    fileSize: nat,
    fileReadTime: nat,
    hashList: seq<string>,
    hashTime: map<string, nat>,
    hashHex: map<string, string>)

  /** How a call of hash_check ends: it returns `hr_dict`, or an exception escapes it. */
  datatype Outcome = Returned(hr: HrDict) | AttributeError(name: string) | UnboundLocalError

  /**
   * What the run did besides its result: the chunks read (in order), the bytes
   * each accumulator of `hlib_dict` absorbed, the loop counters and the
   * progress lines written.
   */
  datatype Trace = Trace(
    chunks: seq<seq<bv8>>,
    accumulators: map<string, seq<bv8>>,
    fileLoop: nat,
    fileLoops: nat,
    updateLoop: nat,
    reports: seq<Progress.Report>)

  /** The distinct names of a hash list: the keys of `hlib_dict`. */
  function Names(hList: seq<string>): set<string> {
    set h | h in hList
  }

  predicate Distinct(keys: seq<string>) {
    forall a, b :: 0 <= a < b < |keys| ==> keys[a] != keys[b]
  }

  /**
   * `short_source` of hash.py:479-480: the path itself when shorter than 63
   * characters, otherwise "..." and its last 60 characters.
   */
  function ShortSource(file: string): (r: string)
    ensures |r| <= 63
    ensures |file| < 63 ==> r == file
    ensures |file| >= 63 ==> |r| == 63 && r[..3] == "..." && r[3..] == file[|file| - 60..]
  {
    if |file| < 63 then file else "..." + file[|file| - 60..]
  }

  /** The first name of the list that hashlib has no constructor for. */
  function FirstUnavailable(lib: HashLib.Library, hList: seq<string>): (r: Option<string>)
    ensures r.None? <==> forall h :: h in hList ==> h in lib.names
    ensures r.Some? ==> (exists i :: 0 <= i < |hList| && hList[i] == r.value && r.value !in lib.names
                                   && (forall j :: 0 <= j < i ==> hList[j] in lib.names))
  {
    if hList == [] then None
    else if hList[0] !in lib.names then Some(hList[0])
    else
      assert forall h :: h in hList ==> h == hList[0] || h in hList[1..];
      FirstUnavailable(lib, hList[1..])
  }

  /** The name FirstUnavailable finds is the one whose constructor raises first. */
  lemma {:induction false} FirstUnavailableAt(lib: HashLib.Library, hList: seq<string>, i: nat)
    requires i < |hList| && hList[i] !in lib.names
    requires forall h :: h in hList[..i] ==> h in lib.names
    ensures FirstUnavailable(lib, hList) == Some(hList[i])
  {
    if i > 0 {
      assert hList[0] in hList[..i];
      assert hList[1..][..i - 1] == hList[..i][1..];
      FirstUnavailableAt(lib, hList[1..], i - 1);
    }
  }

  /**
   * The `except OSError` handler of hash.py:531-534 as written: when the
   * error came from `os.stat` inside the `hr_dict` literal, `hr_dict` was
   * never bound and the handler itself raises UnboundLocalError.
   */
  function ExceptHandlerAsWritten(bound: Option<HrDict>): (r: Outcome)
    ensures bound.None? <==> r == UnboundLocalError
  {
    if bound.None? then UnboundLocalError else Returned(bound.value.(failure := 1))
  }

  /**
   * The handler as evidently intended: every OSError yields a result marked
   * `failure = 1`, keeping whatever hash_check had recorded.
   */
  function ExceptHandler(bound: Option<HrDict>, fileSource: string, readBlocks: nat, hList: seq<string>): (r: HrDict)
    ensures r.failure == 1
    ensures bound.None? ==> (r.fileSource == fileSource && r.readBlocks == readBlocks && r.hashList == hList
                             && r.fileReadTime == 0 && r.hashTime == map[] && r.hashHex == map[])
    ensures bound.Some? ==> ExceptHandlerAsWritten(bound) == Returned(r)
  {
    if bound.Some? then bound.value.(failure := 1)
    else HrDict(1, fileSource, ShortSource(fileSource), readBlocks, 0, 0, hList, map[], map[])
  }

  /** The two handlers differ exactly when `os.stat` raised. */
  lemma StatFailureUnbound(fileSource: string, readBlocks: nat, hList: seq<string>, bound: Option<HrDict>)
    ensures ExceptHandlerAsWritten(bound) == UnboundLocalError <==> bound.None?
    ensures bound.Some? ==> ExceptHandlerAsWritten(bound) == Returned(ExceptHandler(bound, fileSource, readBlocks, hList))
  {
  }

  /**
   * When `os.stat` reports 0 bytes for a file that has some (a file under
   * /proc, say), `file_loops` is 0, the step is 1, and the first loop's line
   * divides by `file_loops` (hash.py:521): ZeroDivisionError as written; the
   * guarded percentage writes 100%.
   */
  lemma ZeroStatDividesByZero(contents: seq<bv8>, readBlocks: nat)
    requires readBlocks > 0 && |contents| > 0
    ensures var fileLoops := Chunking.CeilDiv(0, readBlocks);
      var updateLoop := Progress.UpdateLoop(fileLoops);
      var reports := Progress.Sampled(|Chunking.Chunks(contents, readBlocks)|, updateLoop, fileLoops);
      && fileLoops == 0 && updateLoop == 1
      && reports != [] && reports[0] == Progress.Percent(1, 0)
      && Progress.PercentAsWritten(1, 0).None?
      && Progress.ProgressPercent(1, 0) == 100.0
  {
    Chunking.ChunkCount(contents, readBlocks);
    assert Chunking.CeilDiv(0, readBlocks) == 0;
    Progress.SampledFirst(|Chunking.Chunks(contents, readBlocks)|, 1, 0);
  }

  /** hash.py:489-493: one fresh accumulator, a zero time and an empty hex per distinct name. */
  method CreateAccumulators(lib: HashLib.Library, hList: seq<string>)
    returns (missing: Option<string>, keys: seq<string>, hlibDict: map<string, seq<bv8>>,
             hashTime: map<string, nat>, hashHex: map<string, string>)
    ensures missing == FirstUnavailable(lib, hList)
    ensures missing.None? ==>
      && Distinct(keys) && (forall h :: h in keys <==> h in hList)
      && hlibDict.Keys == Names(hList) && hashTime.Keys == Names(hList) && hashHex.Keys == Names(hList)
      && forall k :: k in hlibDict ==> hlibDict[k] == [] && hashTime[k] == 0 && hashHex[k] == ""
  {
    keys, hlibDict, hashTime, hashHex := [], map[], map[], map[];
    var i := 0;
    while i < |hList|
      invariant 0 <= i <= |hList|
      invariant forall h :: h in hList[..i] ==> h in lib.names
      invariant Distinct(keys) && forall h :: h in keys <==> h in hList[..i]
      invariant hlibDict.Keys == hashTime.Keys == hashHex.Keys == Names(hList[..i])
      invariant forall k :: k in hlibDict ==> hlibDict[k] == [] && hashTime[k] == 0 && hashHex[k] == ""
    {
      var h := hList[i];
      if h !in lib.names {
        FirstUnavailableAt(lib, hList, i);
        missing := Some(h);
        return;
      }
      if h !in hlibDict {
        keys := keys + [h];
      }
      hlibDict, hashTime, hashHex := hlibDict[h := []], hashTime[h := 0], hashHex[h := ""];
      assert hList[..i + 1] == hList[..i] + [h];
      i := i + 1;
    }
    assert hList[..i] == hList;
    missing := None;
  }

  /** Taking one more key adds that key, and a distinct list's next key is not yet taken. */
  lemma NamesStep(keys: seq<string>, j: nat)
    requires j < |keys|
    ensures Names(keys[..j + 1]) == Names(keys[..j]) + {keys[j]}
    ensures Distinct(keys) ==> keys[j] !in Names(keys[..j])
  {
    assert keys[..j + 1] == keys[..j] + [keys[j]];
  }

  /** hash.py:515-517: the chunk goes once to every accumulator, and each update is timed. */
  method UpdateAll(keys: seq<string>, hlibDict: map<string, seq<bv8>>, hashTime: map<string, nat>, chunk: seq<bv8>)
    returns (hlibDict': map<string, seq<bv8>>, hashTime': map<string, nat>)
    requires Distinct(keys)
    requires hlibDict.Keys == hashTime.Keys == Names(keys)
    ensures hlibDict'.Keys == hlibDict.Keys && hashTime'.Keys == hashTime.Keys
    ensures forall k :: k in hlibDict ==> hlibDict'[k] == hlibDict[k] + chunk && hashTime'[k] == hashTime[k] + 1
  {
    hlibDict', hashTime' := hlibDict, hashTime;
    var j := 0;
    while j < |keys|
      invariant 0 <= j <= |keys|
      invariant hlibDict'.Keys == hlibDict.Keys && hashTime'.Keys == hashTime.Keys
      invariant forall k :: k in hlibDict ==>
        if k in Names(keys[..j]) then hlibDict'[k] == hlibDict[k] + chunk && hashTime'[k] == hashTime[k] + 1
        else hlibDict'[k] == hlibDict[k] && hashTime'[k] == hashTime[k]
    {
      var k := keys[j];
      NamesStep(keys, j);
      hlibDict' := hlibDict'[k := hlibDict'[k] + chunk];
      hashTime' := hashTime'[k := hashTime'[k] + 1];
      j := j + 1;
    }
    assert keys[..j] == keys;
  }

  /**
   * hash.py:525-528: every accumulator is finalised once (a timed call) and
   * its hex stored under its name.
   */
  method FinaliseAll(lib: HashLib.Library, keys: seq<string>, hlibDict: map<string, seq<bv8>>,
                     hashTime: map<string, nat>, hashHex: map<string, string>, length: nat)
    returns (hashTime': map<string, nat>, hashHex': map<string, string>)
    requires Distinct(keys)
    requires hlibDict.Keys == hashTime.Keys == hashHex.Keys == Names(keys)
    ensures hashTime'.Keys == hashTime.Keys && hashHex'.Keys == hashHex.Keys
    ensures forall k :: k in hlibDict ==>
      hashHex'[k] == HashLib.Finalise(lib, k, hlibDict[k], length) && hashTime'[k] == hashTime[k] + 1
  {
    hashTime', hashHex' := hashTime, hashHex;
    var j := 0;
    while j < |keys|
      invariant 0 <= j <= |keys|
      invariant hashTime'.Keys == hashTime.Keys && hashHex'.Keys == hashHex.Keys
      invariant forall k :: k in hlibDict ==>
        if k in Names(keys[..j]) then hashHex'[k] == HashLib.Finalise(lib, k, hlibDict[k], length) && hashTime'[k] == hashTime[k] + 1
        else hashTime'[k] == hashTime[k]
    {
      var k := keys[j];
      NamesStep(keys, j);
      var hex := HashLib.Finalise(lib, k, hlibDict[k], length);
      hashTime' := hashTime'[k := hashTime'[k] + 1];
      hashHex' := hashHex'[k := hex];
      j := j + 1;
    }
    assert keys[..j] == keys;
  }

  /** How many reads succeed: all data-bearing reads, unless a read raises first. */
  function ReadsDone(readFault: Option<nat>, dataReads: nat): (r: nat)
    ensures r <= dataReads
    ensures readFault.Some? && readFault.value <= dataReads ==> r == readFault.value
  {
    if readFault.Some? && readFault.value <= dataReads then readFault.value else dataReads
  }

  /** A read raises before the terminating empty read has returned. */
  predicate ReadFails(readFault: Option<nat>, dataReads: nat) {
    readFault.Some? && readFault.value <= dataReads
  }

  /**
   * `hash_check(h_list)`, following the corrected program on two paths:
   * - when `os.stat` raises, the handler is the corrected ExceptHandler and a
   *   record with `failure = 1` is returned, where the source raises
   *   UnboundLocalError (ExceptHandlerAsWritten, StatFailureUnbound);
   * - when `st_size` is 0 for a file with data, the progress lines are the
   *   guarded `Percent(_, 0)` of ProgressPercent and the run succeeds, where
   *   the source raises ZeroDivisionError at the first line (ZeroStatDividesByZero).
   */
  method HashCheck(lib: HashLib.Library, hList: seq<string>, fileSource: string,
                   blocksize: nat, length: nat, disk: Disk)
    returns (out: Outcome, trace: Trace)
    requires blocksize >= 1
    // os.stat raises: a failure result, nothing read
    ensures disk.stat.None? ==>
      out == Returned(ExceptHandler(None, fileSource, blocksize * BlockSizeFactor, hList)) && trace.chunks == []
    // an unknown name: AttributeError from its constructor, before the file is opened
    ensures disk.stat.Some? && FirstUnavailable(lib, hList).Some? ==>
      out == AttributeError(FirstUnavailable(lib, hList).value) && trace.chunks == []
    // otherwise hr_dict is returned, with one entry per distinct name
    ensures disk.stat.Some? && FirstUnavailable(lib, hList).None? ==>
      && out.Returned?
      && out.hr.fileSource == fileSource && out.hr.shortSource == ShortSource(fileSource)
      && out.hr.readBlocks == blocksize * BlockSizeFactor && out.hr.fileSize == disk.stat.value
      && out.hr.hashList == hList
      && out.hr.hashTime.Keys == Names(hList) && out.hr.hashHex.Keys == Names(hList)
      && trace.accumulators.Keys == Names(hList)
      && trace.fileLoops == Chunking.CeilDiv(disk.stat.value, blocksize * BlockSizeFactor)
      && trace.updateLoop == Progress.UpdateLoop(trace.fileLoops)
    // open raises: failure, nothing read, nothing hashed
    ensures disk.stat.Some? && FirstUnavailable(lib, hList).None? && disk.contents.None? ==>
      && out.hr.failure == 1 && out.hr.fileReadTime == 0 && trace.chunks == [] && trace.reports == []
      && forall k :: k in Names(hList) ==>
           out.hr.hashTime[k] == 0 && out.hr.hashHex[k] == "" && trace.accumulators[k] == []
    // the file opened: the chunks read are the file's chunks up to the first failing read
    ensures disk.stat.Some? && FirstUnavailable(lib, hList).None? && disk.contents.Some? ==>
      var all := Chunking.Chunks(disk.contents.value, blocksize * BlockSizeFactor);
      var done := ReadsDone(disk.readFault, |all|);
      && trace.chunks == all[..done]
      && trace.fileLoop == done
      && (forall i :: 0 <= i < |trace.chunks| ==> 0 < |trace.chunks[i]| <= blocksize * BlockSizeFactor)
      && (forall k :: k in Names(hList) ==> trace.accumulators[k] == Chunking.Concat(trace.chunks))
      && (ReadFails(disk.readFault, |all|) ==>
            && out.hr.failure == 1 && out.hr.fileReadTime == done
            && trace.reports == Progress.Sampled(done, trace.updateLoop, trace.fileLoops)
            && forall k :: k in Names(hList) ==> out.hr.hashTime[k] == done && out.hr.hashHex[k] == "")
      && (!ReadFails(disk.readFault, |all|) ==>
            && out.hr.failure == 0 && out.hr.fileReadTime == done + 1
            && Chunking.Concat(trace.chunks) == disk.contents.value
            && trace.reports == Progress.Sampled(done, trace.updateLoop, trace.fileLoops) + [Progress.Complete]
            && forall k :: k in Names(hList) ==>
                 && out.hr.hashTime[k] == done + 1
                 && out.hr.hashHex[k] == HashLib.Finalise(lib, k, disk.contents.value, length))
    // a file as long as os.stat says, read without error, takes exactly file_loops loops
    ensures disk.stat.Some? && FirstUnavailable(lib, hList).None? && disk.contents.Some?
            && disk.stat.value == |disk.contents.value|
            && !ReadFails(disk.readFault, |Chunking.Chunks(disk.contents.value, blocksize * BlockSizeFactor)|) ==>
      trace.fileLoop == trace.fileLoops
  {
    var readBlocks := blocksize * BlockSizeFactor;
    trace := Trace([], map[], 0, 0, 0, []);
    if disk.stat.None? {
      out := Returned(ExceptHandler(None, fileSource, readBlocks, hList));
      return;
    }
    var fileSize := disk.stat.value;
    var missing, keys, hlibDict, hashTime, hashHex := CreateAccumulators(lib, hList);
    if missing.Some? {
      out := AttributeError(missing.value);
      return;
    }
    var fileLoop := 0;
    var fileLoops := Chunking.CeilDiv(fileSize, readBlocks);
    var updateLoop := Progress.UpdateLoop(fileLoops);
    var hr := HrDict(0, fileSource, ShortSource(fileSource), readBlocks, fileSize, 0, hList, hashTime, hashHex);
    if disk.contents.None? {
      out := Returned(ExceptHandler(Some(hr), fileSource, readBlocks, hList));
      trace := Trace([], hlibDict, 0, fileLoops, updateLoop, []);
      return;
    }
    var contents := disk.contents.value;
    var failed, chunks, hlibDict', hashTime', fileReadTime, reports :=
      ReadLoop(keys, hlibDict, hashTime, contents, disk.readFault, readBlocks, updateLoop, fileLoops);
    trace := Trace(chunks, hlibDict', |chunks|, fileLoops, updateLoop, reports);
    Chunking.ChunkSizes(contents, readBlocks);
    Chunking.ChunkCount(contents, readBlocks);
    if failed {
      hr := hr.(fileReadTime := fileReadTime, hashTime := hashTime');
      out := Returned(ExceptHandler(Some(hr), fileSource, readBlocks, hList));
      return;
    }
    hashTime, hashHex := FinaliseAll(lib, keys, hlibDict', hashTime', hashHex, length);
    out := Returned(hr.(fileReadTime := fileReadTime, hashTime := hashTime, hashHex := hashHex));
  }

  /**
   * What the accumulators and their timers hold after `n` chunks joining to
   * `absorbed`: each accumulator has absorbed exactly those bytes on top of its
   * start state, and each timer counts one timed update per chunk.
   */
  ghost predicate AbsorbedAll(hlibDict: map<string, seq<bv8>>, hashTime: map<string, nat>,
                              hlibDict': map<string, seq<bv8>>, hashTime': map<string, nat>,
                              absorbed: seq<bv8>, n: nat)
  {
    && hashTime.Keys == hlibDict.Keys
    && hlibDict'.Keys == hlibDict.Keys && hashTime'.Keys == hashTime.Keys
    && forall k :: k in hlibDict ==> hlibDict'[k] == hlibDict[k] + absorbed && hashTime'[k] == hashTime[k] + n
  }

  /** Feeding one more chunk to every accumulator keeps AbsorbedAll. */
  lemma AbsorbStep(hlibDict: map<string, seq<bv8>>, hashTime: map<string, nat>,
                   before: map<string, seq<bv8>>, timesBefore: map<string, nat>,
                   after: map<string, seq<bv8>>, timesAfter: map<string, nat>,
                   absorbed: seq<bv8>, n: nat, chunk: seq<bv8>)
    requires AbsorbedAll(hlibDict, hashTime, before, timesBefore, absorbed, n)
    requires after.Keys == before.Keys && timesAfter.Keys == timesBefore.Keys
    requires forall k :: k in before ==> after[k] == before[k] + chunk && timesAfter[k] == timesBefore[k] + 1
    ensures AbsorbedAll(hlibDict, hashTime, after, timesAfter, absorbed + chunk, n + 1)
  {
    forall k | k in hlibDict
      ensures after[k] == hlibDict[k] + (absorbed + chunk)
    {
      assert after[k] == (hlibDict[k] + absorbed) + chunk;
    }
  }

  /**
   * What the read loop has produced after `|chunks|` successful reads that
   * left the file at `pos`: `readCount` read calls and as many timed reads,
   * the chunks so far are the file's first chunks and join to its first `pos`
   * bytes, every accumulator has absorbed them, and the percentage lines of
   * those loops have been written.
   */
  ghost predicate Reading(hlibDict: map<string, seq<bv8>>, hashTime: map<string, nat>,
                          contents: seq<bv8>, readFault: Option<nat>, readBlocks: nat, updateLoop: nat, fileLoops: nat,
                          pos: nat, readCount: nat, chunks: seq<seq<bv8>>, current: map<string, seq<bv8>>,
                          times: map<string, nat>, fileReadTime: nat, reports: seq<Progress.Report>)
  {
    && readBlocks > 0 && updateLoop >= 1
    && readCount == |chunks| == fileReadTime
    && (readFault.Some? ==> readFault.value >= |chunks|)
    && Chunking.ChunksSoFar(contents, readBlocks, pos, chunks)
    && AbsorbedAll(hlibDict, hashTime, current, times, Chunking.Concat(chunks), |chunks|)
    && reports == Progress.Sampled(|chunks|, updateLoop, fileLoops)
  }

  /**
   * What the read loop has produced when it ends: it fails exactly when a read
   * raises before the terminating empty read; the chunks read are the file's
   * chunks up to that point (all of them, joining to the file, when none
   * failed); the timed reads include the empty one; the percentage lines of
   * those loops are followed by the final 100% unless a read failed; and every
   * accumulator has absorbed the chunks read, with one timed update per chunk.
   */
  ghost predicate LoopOutcome(hlibDict: map<string, seq<bv8>>, hashTime: map<string, nat>,
                              contents: seq<bv8>, readFault: Option<nat>, readBlocks: nat, updateLoop: nat,
                              fileLoops: nat, failed: bool, chunks: seq<seq<bv8>>, current: map<string, seq<bv8>>,
                              times: map<string, nat>, fileReadTime: nat, reports: seq<Progress.Report>)
    requires readBlocks > 0 && updateLoop >= 1
  {
    var all := Chunking.Chunks(contents, readBlocks);
    var done := ReadsDone(readFault, |all|);
    && failed == ReadFails(readFault, |all|)
    && chunks == all[..done]
    && fileReadTime == (if failed then done else done + 1)
    && reports == Progress.Sampled(done, updateLoop, fileLoops) + (if failed then [] else [Progress.Complete])
    && (!failed ==> Chunking.Concat(chunks) == contents)
    && hashTime.Keys == hlibDict.Keys && current.Keys == hlibDict.Keys && times.Keys == hashTime.Keys
    && forall k :: k in hlibDict ==>
         current[k] == hlibDict[k] + Chunking.Concat(chunks) && times[k] == hashTime[k] + |chunks|
  }

  /**
   * How the read loop ends: on a read that raises after `|chunks|` successful
   * reads (`failed`), or on the empty read at the end of the file with no fault
   * yet.
   */
  lemma LoopExit(hlibDict: map<string, seq<bv8>>, hashTime: map<string, nat>,
                 contents: seq<bv8>, readFault: Option<nat>, readBlocks: nat, updateLoop: nat, fileLoops: nat,
                 failed: bool, pos: nat, chunks: seq<seq<bv8>>, current: map<string, seq<bv8>>,
                 times: map<string, nat>, fileReadTime: nat, reports: seq<Progress.Report>)
    requires readBlocks > 0 && updateLoop >= 1
    requires Chunking.ChunksSoFar(contents, readBlocks, pos, chunks)
    requires AbsorbedAll(hlibDict, hashTime, current, times, Chunking.Concat(chunks), |chunks|)
    requires failed ==> readFault == Some(|chunks|)
    requires !failed ==> pos == |contents| && (readFault.Some? ==> readFault.value > |chunks|)
    requires fileReadTime == |chunks| + (if failed then 0 else 1)
    requires reports == Progress.Sampled(|chunks|, updateLoop, fileLoops) + (if failed then [] else [Progress.Complete])
    ensures LoopOutcome(hlibDict, hashTime, contents, readFault, readBlocks, updateLoop, fileLoops,
                        failed, chunks, current, times, fileReadTime, reports)
  {
    Chunking.SoFarIsPrefix(contents, readBlocks, chunks, pos);
    if !failed {
      Chunking.AtEnd(contents, readBlocks, chunks, pos);
      assert Chunking.Chunks(contents, readBlocks)[..|chunks|] == chunks;
    }
  }

  /**
   * The body of the read loop after a non-empty read (hash.py:515-521): the
   * chunk goes to every accumulator, the loop is counted, and every
   * `updateLoop`-th loop writes a percentage line.
   */
  method Feed(keys: seq<string>, hlibDict: map<string, seq<bv8>>, hashTime: map<string, nat>,
              contents: seq<bv8>, readBlocks: nat, updateLoop: nat, fileLoops: nat,
              pos: nat, chunks: seq<seq<bv8>>, current: map<string, seq<bv8>>, times: map<string, nat>,
              fileLoop: nat, reports: seq<Progress.Report>, chunk: seq<bv8>)
    returns (chunks': seq<seq<bv8>>, current': map<string, seq<bv8>>, times': map<string, nat>,
             fileLoop': nat, reports': seq<Progress.Report>)
    requires readBlocks > 0 && updateLoop >= 1
    requires Distinct(keys)
    requires hlibDict.Keys == hashTime.Keys == Names(keys)
    requires pos < |contents| && chunk == contents[pos..if pos + readBlocks <= |contents| then pos + readBlocks else |contents|]
    requires Chunking.ChunksSoFar(contents, readBlocks, pos, chunks)
    requires AbsorbedAll(hlibDict, hashTime, current, times, Chunking.Concat(chunks), |chunks|)
    requires fileLoop == |chunks| && reports == Progress.Sampled(fileLoop, updateLoop, fileLoops)
    ensures chunks' == chunks + [chunk] && fileLoop' == fileLoop + 1
    ensures Chunking.ChunksSoFar(contents, readBlocks, pos + |chunk|, chunks')
    ensures AbsorbedAll(hlibDict, hashTime, current', times', Chunking.Concat(chunks'), |chunks'|)
    ensures reports' == Progress.Sampled(fileLoop', updateLoop, fileLoops)
  {
    Chunking.Advance(contents, readBlocks, chunks, pos);
    current', times' := UpdateAll(keys, current, times, chunk);
    AbsorbStep(hlibDict, hashTime, current, times, current', times', Chunking.Concat(chunks), |chunks|, chunk);
    chunks' := chunks + [chunk];
    fileLoop' := fileLoop + 1;
    var line := if fileLoop' % updateLoop == 0
                then [Progress.Percent(fileLoop', fileLoops)] else [];
    reports' := reports + line;
  }

  /**
   * One pass of the `while True` loop of hash.py:502-523: read a chunk (a
   * timed call); an OSError from the read ends the loop as a failure; an
   * empty chunk writes the 100% line and ends it; any other chunk is fed on.
   */
  method Step(f: Reader.FileHandle, keys: seq<string>, hlibDict: map<string, seq<bv8>>, hashTime: map<string, nat>,
              contents: seq<bv8>, readFault: Option<nat>, readBlocks: nat, updateLoop: nat, fileLoops: nat,
              chunks: seq<seq<bv8>>, current: map<string, seq<bv8>>, times: map<string, nat>,
              fileLoop: nat, fileReadTime: nat, reports: seq<Progress.Report>)
    returns (stop: bool, failed: bool, chunks': seq<seq<bv8>>, current': map<string, seq<bv8>>,
             times': map<string, nat>, fileLoop': nat, fileReadTime': nat, reports': seq<Progress.Report>)
    requires f.Valid() && f.contents == contents && f.faultAt == readFault
    requires Distinct(keys) && hlibDict.Keys == hashTime.Keys == Names(keys)
    requires fileLoop == |chunks|
    requires Reading(hlibDict, hashTime, contents, readFault, readBlocks, updateLoop, fileLoops,
                     f.pos, f.readCount, chunks, current, times, fileReadTime, reports)
    modifies f
    ensures f.Valid()
    ensures stop ==> LoopOutcome(hlibDict, hashTime, contents, readFault, readBlocks, updateLoop, fileLoops,
                                 failed, chunks', current', times', fileReadTime', reports')
    ensures !stop ==> old(f.pos) < f.pos && fileLoop' == |chunks'|
    ensures !stop ==> Reading(hlibDict, hashTime, contents, readFault, readBlocks, updateLoop, fileLoops,
                              f.pos, f.readCount, chunks', current', times', fileReadTime', reports')
  {
    chunks', current', times', fileLoop', fileReadTime', reports' := chunks, current, times, fileLoop, fileReadTime, reports;
    var pos := f.pos;
    var r := f.Read(readBlocks);
    if r.ReadError? {
      stop, failed := true, true;
      LoopExit(hlibDict, hashTime, contents, readFault, readBlocks, updateLoop, fileLoops,
               failed, pos, chunks', current', times', fileReadTime', reports');
      return;
    }
    fileReadTime' := fileReadTime' + 1;
    var chunk := r.bytes;
    if |chunk| == 0 {
      reports' := reports' + [Progress.Complete];
      stop, failed := true, false;
      LoopExit(hlibDict, hashTime, contents, readFault, readBlocks, updateLoop, fileLoops,
               failed, pos, chunks', current', times', fileReadTime', reports');
      return;
    }
    stop, failed := false, false;
    chunks', current', times', fileLoop', reports' :=
      Feed(keys, hlibDict, hashTime, contents, readBlocks, updateLoop, fileLoops,
           pos, chunks', current', times', fileLoop', reports', chunk);
  }

  /**
   * The `with open(...)` block's `while True` loop (hash.py:502-523), run
   * one Step at a time until a read fails or the file is exhausted.
   */
  method ReadLoop(keys: seq<string>, hlibDict: map<string, seq<bv8>>, hashTime: map<string, nat>,
                  contents: seq<bv8>, readFault: Option<nat>, readBlocks: nat, updateLoop: nat, fileLoops: nat)
    returns (failed: bool, chunks: seq<seq<bv8>>, hlibDict': map<string, seq<bv8>>,
             hashTime': map<string, nat>, fileReadTime: nat, reports: seq<Progress.Report>)
    requires readBlocks > 0 && updateLoop >= 1
    requires Distinct(keys)
    requires hlibDict.Keys == hashTime.Keys == Names(keys)
    ensures LoopOutcome(hlibDict, hashTime, contents, readFault, readBlocks, updateLoop, fileLoops,
                        failed, chunks, hlibDict', hashTime', fileReadTime, reports)
  {
    var f := new Reader.FileHandle.Open(contents, readFault);
    hlibDict', hashTime' := hlibDict, hashTime;
    fileReadTime := 0;
    chunks := [];
    reports := [];
    var fileLoop := 0;
    assert Chunking.Concat(chunks) == [] && contents[..0] == [] && contents[0..] == contents;
    while true
      invariant f.Valid() && f.contents == contents && f.faultAt == readFault
      invariant fileLoop == |chunks|
      invariant Reading(hlibDict, hashTime, contents, readFault, readBlocks, updateLoop, fileLoops,
                        f.pos, f.readCount, chunks, hlibDict', hashTime', fileReadTime, reports)
      decreases |contents| - f.pos
    {
      var stop;
      stop, failed, chunks, hlibDict', hashTime', fileLoop, fileReadTime, reports :=
        Step(f, keys, hlibDict, hashTime, contents, readFault, readBlocks, updateLoop, fileLoops,
             chunks, hlibDict', hashTime', fileLoop, fileReadTime, reports);
      if stop {
        return;
      }
    }
  }
}
