/** What the collector sees of a Subspace node: block hashes by number,
    headers by hash (with their already-decoded pre-runtime digest and the
    block's event log), and the rows each block contributes to the file. */
module Subspace {
  import opened Wrappers
  import opened Csv
  import opened Sequences

  /** An opaque block hash. */
  type Hash = string

  /** The decoded `SubPreDigest` layout: a slot and a solution carrying the
      author's public key and its reward address. */
  datatype PreDigest = PreDigest(slot: nat, publicKey: Address, rewardAddress: Address)

  /** One event record; `data` holds the event's fields as rendered text. */
  datatype Event = Event(section: string, methodName: string, data: seq<string>)

  /** A block header as the node returns it. `preRuntime` is the decoded
      payload of the first pre-runtime digest log, `None` when the header has
      no such log. `events` is the event log stored at the block's hash. */
  datatype Header = Header(number: nat, parentHash: Hash, preRuntime: Option<PreDigest>, events: seq<Event>)

  /** `hashAt` answers `getBlockHash(number)`, `headers` answers
      `getHeader(hash)` and, through each header's `events`,
      `system.events.at(hash)`. */
  datatype Chain = Chain(hashAt: map<nat, Hash>, headers: map<Hash, Header>)

  /** A header the node serves is numbered one above its parent, when the
      node serves the parent too. */
  predicate ParentOneBelow(c: Chain, h: Hash)
    requires h in c.headers
  {
    var p := c.headers[h].parentHash;
    p in c.headers ==> c.headers[h].number > 0 && c.headers[p].number == c.headers[h].number - 1
  }

  /** The hash of block n is the hash of a header numbered n, and every
      served header is one above its served parent. In particular the genesis
      header's parent hash names no block the node serves. */
  predicate WellFormed(c: Chain) {
    (forall n :: n in c.hashAt && c.hashAt[n] in c.headers ==> c.headers[c.hashAt[n]].number == n) &&
    (forall h {:trigger ParentOneBelow(c, h)} :: h in c.headers ==> ParentOneBelow(c, h))
  }

  /** The filter the collector applies to every event record. */
  predicate IsFarmerVote(e: Event) {
    e.section == "subspace" && e.methodName == "FarmerVote"
  }

  /** The second data field of the event (the vote's reward address), as a
      template literal renders it: "undefined" when the field is absent. */
  function VoteAddress(e: Event): Address {
    if |e.data| >= 2 then e.data[1] else "undefined"
  }

  /** The row written for one event of block `number`: a vote row for a
      farmer vote, none otherwise. */
  function EventRows(number: nat, e: Event): seq<Row> {
    if IsFarmerVote(e) then [Row(number, Vote, VoteAddress(e))] else []
  }

  /** The vote rows written for the event log of block `number`. */
  function VoteRows(number: nat, events: seq<Event>): seq<Row> {
    if events == [] then [] else EventRows(number, events[0]) + VoteRows(number, events[1..])
  }

  lemma {:induction false} VoteRowsAppend(number: nat, a: seq<Event>, b: seq<Event>)
    ensures VoteRows(number, a + b) == VoteRows(number, a) + VoteRows(number, b)
    decreases |a|
  {
    if a == [] {
      assert a + b == b;
    } else {
      var head := EventRows(number, a[0]);
      assert (a + b)[0] == a[0];
      assert (a + b)[1..] == a[1..] + b;
      assert VoteRows(number, a + b) == head + VoteRows(number, a[1..] + b);
      VoteRowsAppend(number, a[1..], b);
      Associative(head, VoteRows(number, a[1..]), VoteRows(number, b));
    }
  }

  /** Appending the lines of one more event's rows gives the lines of the
      vote rows of the longer event log. */
  lemma LinesOfVotesSnoc(prefix: seq<string>, number: nat, events: seq<Event>, e: Event)
    ensures (prefix + Lines(VoteRows(number, events))) + Lines(EventRows(number, e))
      == prefix + Lines(VoteRows(number, events + [e]))
  {
    VoteRowsAppend(number, events, [e]);
    assert VoteRows(number, [e]) == EventRows(number, e) + VoteRows(number, []);
    assert EventRows(number, e) + [] == EventRows(number, e);
    LinesAppend(VoteRows(number, events), EventRows(number, e));
    Associative(prefix, Lines(VoteRows(number, events)), Lines(EventRows(number, e)));
  }

  /** Every vote row carries the including block's number and the Vote type,
      and its address is that of one of the block's farmer-vote events. */
  lemma {:induction false} VoteRowsAreVotes(number: nat, events: seq<Event>)
    ensures forall r :: r in VoteRows(number, events) ==>
      r.blockNumber == number && r.authorType == Vote &&
      exists e :: e in events && IsFarmerVote(e) && r.rewardAddress == VoteAddress(e)
    decreases |events|
  {
    if events != [] {
      VoteRowsAreVotes(number, events[1..]);
      forall r | r in VoteRows(number, events)
        ensures r.blockNumber == number && r.authorType == Vote &&
          exists e :: e in events && IsFarmerVote(e) && r.rewardAddress == VoteAddress(e)
      {
        if r in VoteRows(number, events[1..]) {
          var e :| e in events[1..] && IsFarmerVote(e) && r.rewardAddress == VoteAddress(e);
          assert e in events;
        } else {
          assert events[0] in events;
        }
      }
    }
  }

  /** A block yields no vote row exactly when none of its events is a farmer
      vote. */
  lemma {:induction false} NoVoteRowsIff(number: nat, events: seq<Event>)
    ensures VoteRows(number, events) == [] <==> forall i :: 0 <= i < |events| ==> !IsFarmerVote(events[i])
    decreases |events|
  {
    if events != [] {
      NoVoteRowsIff(number, events[1..]);
      assert forall i :: 1 <= i < |events| ==> events[i] == events[1..][i - 1];
    }
  }

  /** Each farmer-vote event yields its own row, after the rows of the events
      before it and before the rows of the events after it: the vote rows
      follow the event log's order. */
  lemma VoteRowAt(number: nat, events: seq<Event>, i: nat)
    requires i < |events| && IsFarmerVote(events[i])
    ensures VoteRows(number, events) ==
      VoteRows(number, events[..i]) + [Row(number, Vote, VoteAddress(events[i]))] + VoteRows(number, events[i + 1..])
  {
    assert events == events[..i] + ([events[i]] + events[i + 1..]);
    VoteRowsAppend(number, events[..i], [events[i]] + events[i + 1..]);
    assert ([events[i]] + events[i + 1..])[1..] == events[i + 1..];
  }
}
