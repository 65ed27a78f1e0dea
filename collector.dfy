/** The collector's run: check the options, open the output file, write the
    column header, resolve the start block, then walk backwards writing each
    block's rows until the stop block has been written. */
module Collector {
  import opened Csv
  import opened Subspace
  import opened Traversal
  import opened Config
  import opened Sequences

  /** The output file, opened for writing (truncated). `written` holds the
      text of every append, in order. */
  class OutputFile {
    const path: string
    var written: seq<string>
    var closed: bool

    constructor Open(path: string)
      ensures this.path == path && written == [] && !closed
    {
      this.path := path;
      written := [];
      closed := false;
    }

    method Append(text: string)
      requires !closed
      modifies this`written
      ensures written == old(written) + [text]
    {
      written := written + [text];
    }

    method Close()
      requires !closed
      modifies this`closed
      ensures closed
    {
      closed := true;
    }
  }

  /** How a run ends: an exit status, or an abort on a failed chain query. */
  datatype Outcome = Exit(code: nat) | Aborted(error: WalkError)

  /** Appends one vote row per farmer-vote event of block `number`, in the
      event log's order. */
  method EmitVotes(file: OutputFile, number: nat, events: seq<Event>)
    requires !file.closed
    modifies file`written
    ensures file.written == old(file.written) + Lines(VoteRows(number, events))
  {
    for i := 0 to |events|
      invariant file.written == old(file.written) + Lines(VoteRows(number, events[..i]))
    {
      var e := events[i];
      ghost var before := file.written;
      ghost var added := Lines(EventRows(number, e));
      if IsFarmerVote(e) {
        var row := Row(number, Vote, VoteAddress(e));
        file.Append(Line(row));
        assert EventRows(number, e) == [row];
        assert [row][1..] == [];
        assert added == [Line(row)];
      } else {
        assert added == [];
        assert before + added == before;
      }
      assert file.written == before + added;
      LinesOfVotesSnoc(old(file.written), number, events[..i], e);
      TakeSnoc(events, i);
    }
    TakeAll(events);
  }

  /** Appends the rows of one visited block: its block row, then its vote
      rows. */
  method EmitBlock(file: OutputFile, v: Visit)
    requires !file.closed
    modifies file`written
    ensures file.written == old(file.written) + Lines(BlockRows(v))
  {
    var blockRow := Row(v.number, Block, v.digest.rewardAddress);
    file.Append(Line(blockRow));
    EmitVotes(file, v.number, v.events);
    LinesAppend([blockRow], VoteRows(v.number, v.events));
    assert Lines([blockRow]) == [Line(blockRow)] + Lines([]);
  }

  /** The main loop: from `startHash`, fetch each header, append its block
      row and vote rows, stop after the block numbered `stop`, otherwise count
      it, log progress every 1000 blocks and move to its parent. */
  method Traverse(c: Chain, startHash: Hash, stop: nat, file: OutputFile)
    returns (status: Status, processed: nat, progress: seq<Message>)
    requires WellFormed(c) && !file.closed
    modifies file`written
    ensures var t := Walk(c, startHash, stop);
      status == t.status && processed == ProcessedCount(t) && progress == ProgressLog(processed) &&
      file.written == old(file.written) + Lines(Rows(t.visited))
  {
    var cursor := startHash;
    ghost var done: seq<Visit> := [];
    processed, progress := 0, [];
    while true
      invariant Walk(c, startHash, stop).visited == done + Walk(c, cursor, stop).visited
      invariant Walk(c, startHash, stop).status == Walk(c, cursor, stop).status
      invariant processed == |done| && progress == ProgressLog(processed)
      invariant file.written == old(file.written) + Lines(Rows(done))
      decreases Height(c, cursor)
    {
      if cursor !in c.headers {
        status := Failed(UnknownBlock(cursor));
        assert done + [] == done;
        return;
      }
      var header := c.headers[cursor];
      if header.preRuntime.None? {
        status := Failed(MissingDigest(header.number));
        assert done + [] == done;
        return;
      }
      var number := header.number;
      var visit := VisitOf(cursor, header);
      EmitBlock(file, visit);
      LinesOfRowsSnoc(old(file.written), done, visit);
      if number == stop {
        assert Walk(c, cursor, stop) == Trace([visit], Finished);
        status := Finished;
        done := done + [visit];
        return;
      }
      processed := processed + 1;
      if processed % 1000 == 0 {
        progress := progress + [ProcessedBlocks(processed)];
      }
      WalkResume(c, startHash, cursor, stop, done);
      done := done + [visit];
      cursor := header.parentHash;
    }
  }

  /** A whole run. Refused options give their exit status before any file
      is opened; otherwise the file holds the column header and then the rows
      of every visited block, and a finished walk closes the file and exits
      with status 0. */
  method Run(env: Env, c: Chain) returns (outcome: Outcome, file: OutputFile?, log: seq<Message>)
    requires WellFormed(c)
    ensures Load(env).ConfigError? ==> outcome == Exit(Load(env).exitCode) && file == null && log == []
    ensures Load(env).Ready? ==> file != null && fresh(file) && file.path == Load(env).settings.output
    ensures Load(env).Ready? && Load(env).settings.startAtBlock !in c.hashAt ==>
      var start := Load(env).settings.startAtBlock;
      file != null && outcome == Aborted(UnknownStart(start)) &&
      file.written == [HeaderLine] && !file.closed && log == []
    ensures Load(env).Ready? && Load(env).settings.startAtBlock in c.hashAt ==>
      var s := Load(env).settings;
      var t := Walk(c, c.hashAt[s.startAtBlock], s.stopAtBlock);
      file != null &&
      file.written == [HeaderLine] + Lines(Rows(t.visited)) &&
      file.closed == t.status.Finished? &&
      outcome == (if t.status.Finished? then Exit(0) else Aborted(t.status.error)) &&
      log == [StartingFrom(s.startAtBlock)] + ProgressLog(ProcessedCount(t))
             + (if t.status.Finished? then [FinishedSuccessfully] else [])
  {
    log := [];
    var loaded := Load(env);
    if loaded.ConfigError? {
      outcome, file := Exit(loaded.exitCode), null;
      return;
    }
    var s := loaded.settings;
    file := new OutputFile.Open(s.output);
    file.Append(HeaderLine);
    if s.startAtBlock !in c.hashAt {
      outcome := Aborted(UnknownStart(s.startAtBlock));
      return;
    }
    var startHash := c.hashAt[s.startAtBlock];
    log := [StartingFrom(s.startAtBlock)];
    var status, processed, progress := Traverse(c, startHash, s.stopAtBlock, file);
    log := log + progress;
    if status.Failed? {
      outcome := Aborted(status.error);
      return;
    }
    file.Close();
    log := log + [FinishedSuccessfully];
    outcome := Exit(0);
  }
}
