/** The backward walk of the collector's main loop, as a specification: which
    blocks it visits from a starting hash, how it ends, which rows it writes,
    and which progress messages it logs. */
module Traversal {
  import opened Csv
  import opened Subspace
  import opened Sequences

  /** A block whose rows were written: the hash it was fetched at, its
      number, its parent hash, its decoded digest and its event log. */
  datatype Visit = Visit(hash: Hash, number: nat, parentHash: Hash, digest: PreDigest, events: seq<Event>)

  /** Why a run aborts: `getBlockHash` knows no block with the start number,
      `getHeader` knows no block with the cursor hash, or the header has no
      pre-runtime digest log to decode. */
  datatype WalkError = UnknownStart(number: nat) | UnknownBlock(hash: Hash) | MissingDigest(number: nat)

  datatype Status = Finished | Failed(error: WalkError)

  /** The blocks whose rows were written, in visiting order, and how the walk
      ended. */
  datatype Trace = Trace(visited: seq<Visit>, status: Status)

  /** The visit of header `h`, fetched at `hash`. */
  function VisitOf(hash: Hash, h: Header): Visit
    requires h.preRuntime.Some?
  {
    Visit(hash, h.number, h.parentHash, h.preRuntime.value, h.events)
  }

  /** The termination measure: one more than the cursor block's number, or 0
      when the node has no block with that hash. */
  function Height(c: Chain, cursor: Hash): nat {
    if cursor in c.headers then c.headers[cursor].number + 1 else 0
  }

  /** The walk from `cursor`: fetch the header, decode its digest, write the
      block's rows, stop if its number is `stop`, otherwise go on from its
      parent hash. */
  function Walk(c: Chain, cursor: Hash, stop: nat): Trace
    requires WellFormed(c)
    decreases Height(c, cursor)
  {
    if cursor !in c.headers then Trace([], Failed(UnknownBlock(cursor)))
    else
      var h := c.headers[cursor];
      if h.preRuntime.None? then Trace([], Failed(MissingDigest(h.number)))
      else if h.number == stop then Trace([VisitOf(cursor, h)], Finished)
      else
        assert ParentOneBelow(c, cursor);
        var rest := Walk(c, h.parentHash, stop);
        Trace([VisitOf(cursor, h)] + rest.visited, rest.status)
  }

  /** The walk ends exactly at the first block numbered `stop`: a finished
      walk's last visited block is the stop block, and no other visited block
      is. */
  lemma {:induction false} WalkEndsAtStop(c: Chain, cursor: Hash, stop: nat)
    requires WellFormed(c)
    ensures var t := Walk(c, cursor, stop);
      (t.status.Finished? ==> |t.visited| > 0) &&
      forall i :: 0 <= i < |t.visited| ==>
        (t.visited[i].number == stop <==> t.status.Finished? && i == |t.visited| - 1)
    decreases Height(c, cursor)
  {
    if cursor in c.headers {
      var h := c.headers[cursor];
      if h.preRuntime.Some? && h.number != stop {
        var rest := Walk(c, h.parentHash, stop);
        WalkStep(c, cursor, stop);
        WalkEndsAtStop(c, h.parentHash, stop);
        var t := Walk(c, cursor, stop);
        assert t.visited == [VisitOf(cursor, h)] + rest.visited;
        forall i | 0 < i < |t.visited|
          ensures t.visited[i].number == stop <==> t.status.Finished? && i == |t.visited| - 1
        {
          assert t.visited[i] == rest.visited[i - 1];
        }
      }
    }
  }

  /** One step of the walk past a block that is not the stop block: the
      block's visit, then the walk from its parent, which is lower. */
  lemma WalkStep(c: Chain, cursor: Hash, stop: nat)
    requires WellFormed(c) && cursor in c.headers
    requires c.headers[cursor].preRuntime.Some? && c.headers[cursor].number != stop
    ensures var h := c.headers[cursor];
      var rest := Walk(c, h.parentHash, stop);
      Height(c, h.parentHash) < Height(c, cursor) &&
      Walk(c, cursor, stop) == Trace([VisitOf(cursor, h)] + rest.visited, rest.status)
  {
    assert ParentOneBelow(c, cursor);
  }

  /** The walk from `start` resumed at `cursor` after the blocks `done`:
      passing a block that is not the stop block moves it to `done` and the
      cursor to its parent. */
  lemma WalkResume(c: Chain, start: Hash, cursor: Hash, stop: nat, done: seq<Visit>)
    requires WellFormed(c) && cursor in c.headers
    requires c.headers[cursor].preRuntime.Some? && c.headers[cursor].number != stop
    requires Walk(c, start, stop).visited == done + Walk(c, cursor, stop).visited
    requires Walk(c, start, stop).status == Walk(c, cursor, stop).status
    ensures var h := c.headers[cursor];
      Height(c, h.parentHash) < Height(c, cursor) &&
      Walk(c, start, stop).visited == (done + [VisitOf(cursor, h)]) + Walk(c, h.parentHash, stop).visited &&
      Walk(c, start, stop).status == Walk(c, h.parentHash, stop).status
  {
    var h := c.headers[cursor];
    var rest := Walk(c, h.parentHash, stop);
    WalkStep(c, cursor, stop);
    Associative(done, [VisitOf(cursor, h)], rest.visited);
    assert (done + [VisitOf(cursor, h)]) + rest.visited == done + ([VisitOf(cursor, h)] + rest.visited);
  }

  /** Visited block numbers count down by one from the starting block: each
      block is visited once, in strictly descending order. */
  lemma {:induction false} WalkDescends(c: Chain, cursor: Hash, stop: nat)
    requires WellFormed(c) && cursor in c.headers
    ensures var t := Walk(c, cursor, stop);
      |t.visited| <= c.headers[cursor].number + 1 &&
      forall i :: 0 <= i < |t.visited| ==> t.visited[i].number + i == c.headers[cursor].number
    decreases Height(c, cursor)
  {
    var h := c.headers[cursor];
    if h.preRuntime.Some? && h.number != stop {
      var rest := Walk(c, h.parentHash, stop);
      assert ParentOneBelow(c, cursor);
      if h.parentHash in c.headers {
        WalkDescends(c, h.parentHash, stop);
      }
      assert Walk(c, cursor, stop).visited == [VisitOf(cursor, h)] + rest.visited;
    }
  }

  /** The walk follows parent links: the first visit is at the starting
      hash, each later visit is at the parent hash of the visit before it,
      every visit is the header the node serves at its hash, and a walk that
      fails on an unknown hash failed on the hash it would have visited next. */
  lemma {:induction false} WalkFollowsParents(c: Chain, cursor: Hash, stop: nat)
    requires WellFormed(c)
    ensures var t := Walk(c, cursor, stop);
      (|t.visited| > 0 ==> t.visited[0].hash == cursor) &&
      (forall i :: 0 < i < |t.visited| ==> t.visited[i].hash == t.visited[i - 1].parentHash) &&
      (forall i :: 0 <= i < |t.visited| ==>
        t.visited[i].hash in c.headers && c.headers[t.visited[i].hash].preRuntime.Some? &&
        t.visited[i] == VisitOf(t.visited[i].hash, c.headers[t.visited[i].hash])) &&
      (t.status.Failed? && t.status.error.UnknownBlock? ==>
        t.status.error.hash == (if t.visited == [] then cursor else t.visited[|t.visited| - 1].parentHash))
    decreases Height(c, cursor)
  {
    if cursor in c.headers {
      var h := c.headers[cursor];
      if h.preRuntime.Some? && h.number != stop {
        var rest := Walk(c, h.parentHash, stop);
        WalkStep(c, cursor, stop);
        WalkFollowsParents(c, h.parentHash, stop);
        var t := Walk(c, cursor, stop);
        assert t.visited == [VisitOf(cursor, h)] + rest.visited;
        forall i | 0 < i < |t.visited|
          ensures t.visited[i].hash == t.visited[i - 1].parentHash
        {
          assert t.visited[i] == rest.visited[i - 1];
          if i > 1 {
            assert t.visited[i - 1] == rest.visited[i - 2];
          }
        }
        if rest.visited != [] {
          assert t.visited[|t.visited| - 1] == rest.visited[|rest.visited| - 1];
        }
      }
    }
  }

  /** The node serves block k: it knows its hash, its header and the
      header's pre-runtime digest. */
  predicate Served(c: Chain, k: nat) {
    k in c.hashAt && c.hashAt[k] in c.headers && c.headers[c.hashAt[k]].preRuntime.Some?
  }

  /** Block k's parent hash is the hash of block k - 1. */
  predicate LinkedBelow(c: Chain, k: nat)
    requires Served(c, k)
  {
    k > 0 && k - 1 in c.hashAt && c.headers[c.hashAt[k]].parentHash == c.hashAt[k - 1]
  }

  /** The visit of block k. */
  function CanonicalVisit(c: Chain, k: nat): Visit
    requires Served(c, k)
  {
    VisitOf(c.hashAt[k], c.headers[c.hashAt[k]])
  }

  /** Blocks `stop..start` form an unbroken parent chain the node serves,
      each with a pre-runtime digest. */
  predicate Canonical(c: Chain, stop: nat, start: nat) {
    forall k :: stop <= k <= start ==> Served(c, k) && (k > stop ==> LinkedBelow(c, k))
  }

  /** From block `start >= stop` on an unbroken chain, the walk visits exactly
      the blocks start, start-1, ..., stop, each once, and finishes. */
  lemma {:induction false} WalkCanonical(c: Chain, stop: nat, start: nat)
    requires WellFormed(c) && stop <= start && Canonical(c, stop, start)
    ensures Served(c, start)
    ensures var t := Walk(c, c.hashAt[start], stop);
      t.status == Finished && |t.visited| == start - stop + 1 &&
      forall i :: 0 <= i < |t.visited| ==> Served(c, start - i) && t.visited[i] == CanonicalVisit(c, start - i)
    decreases start - stop
  {
    assert Served(c, start);
    var h := c.headers[c.hashAt[start]];
    assert h.number == start;
    if start > stop {
      assert LinkedBelow(c, start);
      assert Canonical(c, stop, start - 1);
      WalkCanonical(c, stop, start - 1);
      var rest := Walk(c, c.hashAt[start - 1], stop);
      var t := Walk(c, c.hashAt[start], stop);
      WalkStep(c, c.hashAt[start], stop);
      forall i | 0 < i < |t.visited|
        ensures Served(c, start - i) && t.visited[i] == CanonicalVisit(c, start - i)
      {
        assert t.visited[i] == rest.visited[i - 1];
        assert start - 1 - (i - 1) == start - i;
      }
    }
  }

  /** With no guard at genesis, a walk that starts below `stop` never meets
      it, so it fails. */
  lemma WalkPastGenesis(c: Chain, cursor: Hash, stop: nat)
    requires WellFormed(c) && cursor in c.headers && c.headers[cursor].number < stop
    ensures Walk(c, cursor, stop).status.Failed?
  {
    WalkDescends(c, cursor, stop);
    WalkEndsAtStop(c, cursor, stop);
    var t := Walk(c, cursor, stop);
    assert t.visited == [] || t.visited[|t.visited| - 1].number != stop;
  }

  /** `processedBlocks` after the walk: the visited blocks other than the
      stop block. */
  function ProcessedCount(t: Trace): nat {
    if t.status.Finished? && |t.visited| > 0 then |t.visited| - 1 else |t.visited|
  }

  /** The processed counter counts exactly the visited blocks that are not
      the stop block. */
  lemma WalkProcessedCount(c: Chain, cursor: Hash, stop: nat)
    requires WellFormed(c)
    ensures var t := Walk(c, cursor, stop);
      ProcessedCount(t) <= |t.visited| &&
      forall i :: 0 <= i < |t.visited| ==> (i < ProcessedCount(t) <==> t.visited[i].number != stop)
  {
    WalkEndsAtStop(c, cursor, stop);
  }

  /** The rows written for one visited block: its block row, then its vote
      rows. */
  function BlockRows(v: Visit): seq<Row> {
    [Row(v.number, Block, v.digest.rewardAddress)] + VoteRows(v.number, v.events)
  }

  /** The rows written for a sequence of visited blocks, in order. */
  function Rows(vs: seq<Visit>): seq<Row> {
    if vs == [] then [] else BlockRows(vs[0]) + Rows(vs[1..])
  }

  lemma {:induction false} RowsAppend(a: seq<Visit>, b: seq<Visit>)
    ensures Rows(a + b) == Rows(a) + Rows(b)
    decreases |a|
  {
    if a == [] {
      assert a + b == b;
    } else {
      assert (a + b)[0] == a[0];
      assert (a + b)[1..] == a[1..] + b;
      RowsAppend(a[1..], b);
      Associative(BlockRows(a[0]), Rows(a[1..]), Rows(b));
    }
  }

  lemma RowsSnoc(done: seq<Visit>, v: Visit)
    ensures Rows(done + [v]) == Rows(done) + BlockRows(v)
  {
    RowsAppend(done, [v]);
    assert Rows([v]) == BlockRows(v) + Rows([]);
    assert BlockRows(v) + [] == BlockRows(v);
  }

  /** Appending a visited block appends the lines of its rows. */
  lemma LinesOfRowsSnoc(prefix: seq<string>, done: seq<Visit>, v: Visit)
    ensures (prefix + Lines(Rows(done))) + Lines(BlockRows(v)) == prefix + Lines(Rows(done + [v]))
  {
    RowsSnoc(done, v);
    LinesAppend(Rows(done), BlockRows(v));
    Associative(prefix, Lines(Rows(done)), Lines(BlockRows(v)));
  }

  /** The rows of a finished walk end with the stop block's block row and
      its vote rows: the stop block is always in the output. */
  lemma StopBlockRowsLast(c: Chain, cursor: Hash, stop: nat)
    requires WellFormed(c) && Walk(c, cursor, stop).status.Finished?
    ensures var vs := Walk(c, cursor, stop).visited;
      vs[|vs| - 1].number == stop &&
      Rows(vs) == Rows(vs[..|vs| - 1]) + [Row(stop, Block, vs[|vs| - 1].digest.rewardAddress)]
                  + VoteRows(stop, vs[|vs| - 1].events)
  {
    WalkEndsAtStop(c, cursor, stop);
    var vs := Walk(c, cursor, stop).visited;
    var last := vs[|vs| - 1];
    assert vs == vs[..|vs| - 1] + [last];
    RowsAppend(vs[..|vs| - 1], [last]);
    assert Rows([last]) == BlockRows(last) + Rows([]);
  }

  /** The block rows among `rows`, in order. */
  function BlockRowsOf(rows: seq<Row>): seq<Row> {
    if rows == [] then []
    else (if rows[0].authorType == Block then [rows[0]] else []) + BlockRowsOf(rows[1..])
  }

  lemma {:induction false} BlockRowsOfAppend(a: seq<Row>, b: seq<Row>)
    ensures BlockRowsOf(a + b) == BlockRowsOf(a) + BlockRowsOf(b)
    decreases |a|
  {
    if a == [] {
      assert a + b == b;
    } else {
      assert (a + b)[0] == a[0];
      assert (a + b)[1..] == a[1..] + b;
      BlockRowsOfAppend(a[1..], b);
      Associative((if a[0].authorType == Block then [a[0]] else []), BlockRowsOf(a[1..]), BlockRowsOf(b));
    }
  }

  lemma {:induction false} NoBlockRowsAmongVotes(number: nat, events: seq<Event>)
    ensures BlockRowsOf(VoteRows(number, events)) == []
    decreases |events|
  {
    if events != [] {
      var head := EventRows(number, events[0]);
      BlockRowsOfAppend(head, VoteRows(number, events[1..]));
      NoBlockRowsAmongVotes(number, events[1..]);
    }
  }

  /** Exactly one block row per visited block, in visiting order, carrying
      the block's number and the reward address of its digest. */
  lemma {:induction false} OneBlockRowPerVisit(vs: seq<Visit>)
    ensures var b := BlockRowsOf(Rows(vs));
      |b| == |vs| &&
      forall i :: 0 <= i < |vs| ==> b[i] == Row(vs[i].number, Block, vs[i].digest.rewardAddress)
    decreases |vs|
  {
    if vs != [] {
      var v := vs[0];
      var blockRow := Row(v.number, Block, v.digest.rewardAddress);
      var rest := BlockRowsOf(Rows(vs[1..]));
      BlockRowsOfAppend(BlockRows(v), Rows(vs[1..]));
      BlockRowsOfAppend([blockRow], VoteRows(v.number, v.events));
      NoBlockRowsAmongVotes(v.number, v.events);
      assert BlockRowsOf([blockRow]) == [blockRow] + BlockRowsOf([]);
      assert BlockRowsOf(BlockRows(v)) == [blockRow];
      OneBlockRowPerVisit(vs[1..]);
      var b := BlockRowsOf(Rows(vs));
      assert b == [blockRow] + rest;
      forall i | 0 < i < |vs|
        ensures b[i] == Row(vs[i].number, Block, vs[i].digest.rewardAddress)
      {
        assert b[i] == rest[i - 1] && vs[1..][i - 1] == vs[i];
      }
    }
  }

  /** Every row written for `vs` carries the number of one of the blocks of
      `vs`. */
  lemma {:induction false} RowsNumbers(vs: seq<Visit>)
    ensures forall r :: r in Rows(vs) ==> exists k :: 0 <= k < |vs| && r.blockNumber == vs[k].number
    decreases |vs|
  {
    if vs != [] {
      RowsNumbers(vs[1..]);
      VoteRowsAreVotes(vs[0].number, vs[0].events);
      forall r | r in Rows(vs)
        ensures exists k :: 0 <= k < |vs| && r.blockNumber == vs[k].number
      {
        if r in Rows(vs[1..]) {
          var k :| 0 <= k < |vs[1..]| && r.blockNumber == vs[1..][k].number;
          assert r.blockNumber == vs[k + 1].number;
        } else {
          assert r in BlockRows(vs[0]);
          assert r.blockNumber == vs[0].number;
        }
      }
    }
  }

  predicate StrictlyDescending(vs: seq<Visit>) {
    forall i, j :: 0 <= i < j < |vs| ==> vs[i].number > vs[j].number
  }

  predicate NonIncreasing(rows: seq<Row>) {
    forall i, j :: 0 <= i < j < |rows| ==> rows[i].blockNumber >= rows[j].blockNumber
  }

  /** A block's rows, all with its number, followed by rows of lower
      numbers in order, are in order. */
  lemma NonIncreasingJoin(head: seq<Row>, tail: seq<Row>, n: nat)
    requires forall r :: r in head ==> r.blockNumber == n
    requires forall r :: r in tail ==> r.blockNumber < n
    requires NonIncreasing(tail)
    ensures NonIncreasing(head + tail)
  {
    var rows := head + tail;
    forall i, j | 0 <= i < j < |rows|
      ensures rows[i].blockNumber >= rows[j].blockNumber
    {
      if j < |head| {
        assert rows[i] == head[i] && rows[j] == head[j];
        assert head[i] in head && head[j] in head;
      } else if i < |head| {
        assert rows[i] == head[i] && head[i] in head;
        assert rows[j] == tail[j - |head|] && tail[j - |head|] in tail;
      } else {
        assert rows[i] == tail[i - |head|] && rows[j] == tail[j - |head|];
      }
    }
  }

  /** Rows written for blocks visited in strictly descending order are in
      non-increasing block-number order. */
  lemma {:induction false} RowsDescending(vs: seq<Visit>)
    requires StrictlyDescending(vs)
    ensures NonIncreasing(Rows(vs))
    decreases |vs|
  {
    if vs != [] {
      var tail := Rows(vs[1..]);
      assert StrictlyDescending(vs[1..]) by {
        forall i, j | 0 <= i < j < |vs| - 1 ensures vs[1..][i].number > vs[1..][j].number {
          assert vs[1..][i] == vs[i + 1] && vs[1..][j] == vs[j + 1];
        }
      }
      RowsDescending(vs[1..]);
      RowsNumbers(vs[1..]);
      VoteRowsAreVotes(vs[0].number, vs[0].events);
      assert forall r :: r in tail ==> r.blockNumber < vs[0].number by {
        forall r | r in tail ensures r.blockNumber < vs[0].number {
          var k :| 0 <= k < |vs[1..]| && r.blockNumber == vs[1..][k].number;
          assert vs[1..][k] == vs[k + 1];
        }
      }
      NonIncreasingJoin(BlockRows(vs[0]), tail, vs[0].number);
    }
  }

  /** The output of any walk is ordered by descending block number. */
  lemma WalkRowsDescending(c: Chain, cursor: Hash, stop: nat)
    requires WellFormed(c)
    ensures NonIncreasing(Rows(Walk(c, cursor, stop).visited))
  {
    if cursor in c.headers {
      WalkDescends(c, cursor, stop);
    }
    RowsDescending(Walk(c, cursor, stop).visited);
  }

  /** The console messages of a run. */
  datatype Message = StartingFrom(block: nat) | ProcessedBlocks(count: nat) | FinishedSuccessfully

  /** The progress messages logged while `processedBlocks` counts up to n. */
  function ProgressLog(n: nat): seq<Message> {
    if n == 0 then []
    else ProgressLog(n - 1) + (if n % 1000 == 0 then [ProcessedBlocks(n)] else [])
  }

  /** After n processed blocks the log holds one message per completed
      thousand: 1000, 2000, ..., in order. */
  lemma {:induction false} ProgressLogExact(n: nat)
    ensures |ProgressLog(n)| == n / 1000
    ensures forall i :: 0 <= i < n / 1000 ==> ProgressLog(n)[i] == ProcessedBlocks(1000 * (i + 1))
  {
    if n > 0 {
      ProgressLogExact(n - 1);
      if n % 1000 == 0 {
        assert (n - 1) / 1000 == n / 1000 - 1;
      } else {
        assert (n - 1) / 1000 == n / 1000;
      }
    }
  }

  /** A progress message for count k is logged exactly when k is a positive
      multiple of 1000 that the counter has reached. */
  lemma ProgressMessageIff(n: nat, k: nat)
    ensures ProcessedBlocks(k) in ProgressLog(n) <==> 0 < k <= n && k % 1000 == 0
  {
    ProgressLogExact(n);
    if 0 < k <= n && k % 1000 == 0 {
      var i := k / 1000 - 1;
      assert ProgressLog(n)[i] == ProcessedBlocks(k);
    }
    if ProcessedBlocks(k) in ProgressLog(n) {
      var i :| 0 <= i < |ProgressLog(n)| && ProgressLog(n)[i] == ProcessedBlocks(k);
      assert k == 1000 * (i + 1);
    }
  }
}
