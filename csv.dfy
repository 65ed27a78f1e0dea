/** The lines of the output CSV file: a fixed column header followed by one
    `<block_number>,<author_type>,<reward_address>` line per attributed
    event. Every line is written newline-terminated, exactly as appended. */
module Csv {
  import opened Wrappers
  import opened Sequences

  /** An account identifier as rendered into the file (its address string). */
  type Address = string

  /** The `author_type` column: the block's author or a farmer vote. */
  datatype AuthorType = Block | Vote

  datatype Row = Row(blockNumber: nat, authorType: AuthorType, rewardAddress: Address)

  /** The column header, written once as the first line of the file. */
  const HeaderLine: string := "block_number,author_type,reward_address\n"

  function KindName(k: AuthorType): string {
    match k
    case Block => "block"
    case Vote => "vote"
  }

  predicate IsDigit(ch: char) {
    '0' <= ch <= '9'
  }

  function Digit(d: nat): (ch: char)
    requires d < 10
    ensures IsDigit(ch) && ch as int - '0' as int == d
  {
    ('0' as int + d) as char
  }

  /** The decimal rendering of a block number, as a template literal
      renders a JavaScript number: digits only, no leading zero. */
  function DecimalString(n: nat): (s: string)
    ensures |s| > 0 && (s[0] == '0' ==> n == 0 && s == "0")
    ensures forall i :: 0 <= i < |s| ==> IsDigit(s[i])
    decreases n
  {
    if n < 10 then [Digit(n)] else DecimalString(n / 10) + [Digit(n % 10)]
  }

  /** Reads a non-empty run of decimal digits back into a number. */
  function ParseDecimal(s: string): (r: Option<nat>)
    ensures r.Some? ==> |s| > 0 && forall i :: 0 <= i < |s| ==> IsDigit(s[i])
    decreases |s|
  {
    if |s| == 0 || !IsDigit(s[|s| - 1]) then None
    else
      var d := s[|s| - 1] as int - '0' as int;
      if |s| == 1 then Some(d)
      else match ParseDecimal(s[..|s| - 1])
        case None => None
        case Some(p) => Some(p * 10 + d)
  }

  lemma {:induction false} DecimalRoundTrip(n: nat)
    ensures ParseDecimal(DecimalString(n)) == Some(n)
    decreases n
  {
    if n >= 10 {
      var s := DecimalString(n);
      assert s[..|s| - 1] == DecimalString(n / 10);
      DecimalRoundTrip(n / 10);
    }
  }

  /** The line appended for one row. */
  function Line(r: Row): string {
    DecimalString(r.blockNumber) + "," + KindName(r.authorType) + "," + r.rewardAddress + "\n"
  }

  /** The index of the first comma of `s`, or `|s|` when there is none. */
  function FirstComma(s: string): (k: nat)
    ensures k <= |s| && (k < |s| ==> s[k] == ',')
    ensures forall i :: 0 <= i < k ==> s[i] != ','
    decreases |s|
  {
    if |s| == 0 || s[0] == ',' then 0 else 1 + FirstComma(s[1..])
  }

  /** Reads what follows the number's comma: the author type and its comma,
      then the address. */
  function ParseTail(n: nat, rest: string): (r: Option<Row>)
    ensures r.Some? ==> r.value.blockNumber == n
  {
    if |rest| >= 6 && rest[..6] == "block," then Some(Row(n, Block, rest[6..]))
    else if |rest| >= 5 && rest[..5] == "vote," then Some(Row(n, Vote, rest[5..]))
    else None
  }

  /** Reads one written line back into the row it records: the number up to
      the first comma, then the author type and its comma, then the address
      up to the line's terminating newline. */
  function ParseLine(s: string): (r: Option<Row>)
    ensures r.Some? ==> |s| > 0 && s[|s| - 1] == '\n' && IsDigit(s[0])
  {
    if |s| == 0 || s[|s| - 1] != '\n' then None
    else
      var body := s[..|s| - 1];
      var k := FirstComma(body);
      if k == |body| then None
      else match ParseDecimal(body[..k])
        case None => None
        case Some(n) => ParseTail(n, body[k + 1..])
  }

  /** In a run of digits followed by a comma, the first comma is the one
      after the digits. */
  lemma FirstCommaAfterDigits(d: string, tail: string)
    requires forall i :: 0 <= i < |d| ==> IsDigit(d[i])
    requires |tail| > 0 && tail[0] == ','
    ensures FirstComma(d + tail) == |d|
  {
    var s := d + tail;
    assert s[|d|] == ',';
    assert forall i :: 0 <= i < |d| ==> s[i] == d[i];
  }

  /** What follows the number's comma: the author type, a comma, then the
      address. */
  function Tail(r: Row): string {
    KindName(r.authorType) + "," + r.rewardAddress
  }

  /** A line made of digits, a comma and a tail reads as the number of the
      digits with the tail read after it. */
  lemma ParseLineOfShape(s: string, d: string, rest: string)
    requires forall i :: 0 <= i < |d| ==> IsDigit(d[i])
    requires s == d + ([','] + rest) + "\n"
    ensures ParseLine(s) == match ParseDecimal(d)
      case None => None
      case Some(n) => ParseTail(n, rest)
  {
    var body := d + ([','] + rest);
    assert s[..|s| - 1] == body;
    FirstCommaAfterDigits(d, [','] + rest);
    assert body[..|d|] == d;
    assert body[|d| + 1..] == rest;
  }

  lemma TailRoundTrip(r: Row)
    ensures ParseTail(r.blockNumber, Tail(r)) == Some(r)
  {
    var rest := Tail(r);
    match r.authorType
    case Block =>
      assert rest == "block," + r.rewardAddress;
      assert rest[..6] == "block,";
    case Vote =>
      assert rest == "vote," + r.rewardAddress;
      assert rest[0] == 'v';
      assert rest[..5] == "vote,";
  }

  /** Every data line reads back as the row it was written for, whatever the
      address contains. */
  lemma LineRoundTrip(r: Row)
    ensures ParseLine(Line(r)) == Some(r)
  {
    var d := DecimalString(r.blockNumber);
    assert Line(r) == d + ([','] + Tail(r)) + "\n";
    ParseLineOfShape(Line(r), d, Tail(r));
    DecimalRoundTrip(r.blockNumber);
    TailRoundTrip(r);
  }

  /** The column header never reads as a data row, so a reader can tell it
      apart from every line written after it. */
  lemma HeaderIsNotARow(r: Row)
    ensures ParseLine(HeaderLine) == None
    ensures Line(r) != HeaderLine
  {
    assert !IsDigit(HeaderLine[0]);
    assert IsDigit(Line(r)[0]);
  }

  /** The lines appended for a sequence of rows, in order. */
  function Lines(rows: seq<Row>): seq<string> {
    if rows == [] then [] else [Line(rows[0])] + Lines(rows[1..])
  }

  lemma {:induction false} LinesAppend(a: seq<Row>, b: seq<Row>)
    ensures Lines(a + b) == Lines(a) + Lines(b)
    decreases |a|
  {
    if a == [] {
      assert a + b == b;
    } else {
      assert (a + b)[0] == a[0];
      assert (a + b)[1..] == a[1..] + b;
      LinesAppend(a[1..], b);
      Associative([Line(a[0])], Lines(a[1..]), Lines(b));
    }
  }
}
