/** The GOR record stream both spreadsheet converters write: per request a metadata line
    `1 <id> <timestamp> 0`, the request text on its own line, and the record separator
    `"\n\n🐵🙈🙉\n"`. */
module GorFormat {
  import opened Wrappers
  import opened Text
  import opened Seqs

  /** The record separator: a blank line, the three wise monkeys, a newline. */
  const SEP: string := "\n\n\U{1F435}\U{1F648}\U{1F649}\n"

  /** One request record: identifier, timestamp in nanoseconds and request text. */
  datatype Record = Record(id: string, timestamp: int, text: string)

  /** The metadata line: type flag 1 (a request), identifier, timestamp, ack flag 0. */
  function MetaLine(id: string, timestamp: int): string {
    "1 " + id + " " + IntToDecimal(timestamp) + " 0\n"
  }

  /** A record as written, without its separator. */
  function Block(r: Record): (b: string)
    ensures b != "" && b[|b| - 1] == '\n'
  {
    MetaLine(r.id, r.timestamp) + r.text + "\n"
  }

  function Blocks(recs: seq<Record>): seq<string> {
    Map(recs, Block)
  }

  /** The blocks in order, each followed by exactly one separator. */
  function Terminated(blocks: seq<string>): string
    decreases |blocks|
  {
    if blocks == [] then "" else blocks[0] + SEP + Terminated(blocks[1..])
  }

  /** What both converters write after the item at index `i` of `n` items inside their
      loop: a separator, except after the last item. */
  function InnerSep(i: nat, n: nat): string {
    if i < n - 1 then SEP else ""
  }

  /** The `k`-th text paired with the `k`-th identifier and the `k`-th timestamp drawn. */
  function Records(texts: seq<string>, ids: nat -> string, stamps: nat -> int): seq<Record> {
    seq(|texts|, k requires 0 <= k < |texts| => Record(ids(k), stamps(k), texts[k]))
  }

  lemma {:induction false} TerminatedAppend(blocks: seq<string>, b: string)
    ensures Terminated(blocks + [b]) == Terminated(blocks) + (b + SEP)
    decreases |blocks|
  {
    var last := b + SEP;
    if blocks == [] {
      assert blocks + [b] == [b];
      assert Terminated([b]) == last + Terminated([]);
      assert last + "" == last;
      assert "" + last == last;
    } else {
      var rest := blocks[1..];
      assert (blocks + [b])[0] == blocks[0];
      assert (blocks + [b])[1..] == rest + [b];
      TerminatedAppend(rest, b);
      ConcatAssoc(blocks[0] + SEP, Terminated(rest), last);
    }
  }

  /** The stream of the first `j` blocks grows by one terminated block. */
  lemma TerminatedSnoc(blocks: seq<string>, j: nat)
    requires 0 < j <= |blocks|
    ensures Terminated(blocks[..j]) == Terminated(blocks[..j - 1]) + (blocks[j - 1] + SEP)
  {
    assert blocks[..j] == blocks[..j - 1] + [blocks[j - 1]];
    TerminatedAppend(blocks[..j - 1], blocks[j - 1]);
  }

  lemma TerminatedLast(blocks: seq<string>)
    requires blocks != []
    ensures var i := |blocks| - 1;
            Terminated(blocks) == Terminated(blocks[..i]) + (blocks[i] + SEP)
  {
    var i := |blocks| - 1;
    assert blocks == blocks[..i] + [blocks[i]];
    TerminatedAppend(blocks[..i], blocks[i]);
  }

  // ---------------------------------------------------------------- writing in a loop

  /** A loop over the first `j` of the blocks to write: each block, then a separator
      unless it is the last block of the list. */
  function Written(blocks: seq<string>, j: nat): string
    requires j <= |blocks|
    decreases j
  {
    if j == 0 then ""
    else Written(blocks, j - 1) + blocks[j - 1] + InnerSep(j - 1, |blocks|)
  }

  /** Before the last block, every block written so far already has its separator. */
  lemma {:induction false} WrittenPrefix(blocks: seq<string>, j: nat)
    requires j < |blocks|
    ensures Written(blocks, j) == Terminated(blocks[..j])
    decreases j
  {
    if j > 0 {
      WrittenPrefix(blocks, j - 1);
      WrittenExtends(blocks, j);
    } else {
      assert blocks[..j] == [];
    }
  }

  lemma WrittenExtends(blocks: seq<string>, j: nat)
    requires 0 < j < |blocks|
    ensures Written(blocks, j - 1) == Terminated(blocks[..j - 1]) ==>
            Written(blocks, j) == Terminated(blocks[..j])
  {
    var i := j - 1;
    assert InnerSep(i, |blocks|) == SEP;
    ConcatAssoc(Written(blocks, i), blocks[i], SEP);
    TerminatedSnoc(blocks, j);
  }

  /** The last block gets its separator only from the final write, so every block is
      followed by exactly one separator; with no block the output is a lone separator. */
  lemma WrittenStream(blocks: seq<string>)
    ensures Written(blocks, |blocks|) + SEP == if blocks == [] then SEP else Terminated(blocks)
  {
    if blocks != [] {
      var i := |blocks| - 1;
      WrittenPrefix(blocks, i);
      assert InnerSep(i, |blocks|) == "";
      ConcatEmpty(Written(blocks, i) + blocks[i]);
      ConcatAssoc(Written(blocks, i), blocks[i], SEP);
      TerminatedLast(blocks);
    }
  }

  // ---------------------------------------------------------------- reading back

  /** Reads a metadata line back: four space-separated fields, the flags `1` and `0`
      around a non-empty identifier and a decimal timestamp, then a newline. */
  function DecodeMeta(line: string): Option<(string, int)> {
    if line == "" || line[|line| - 1] != '\n' then None
    else
      var fields := Split(line[..|line| - 1], " ", -1);
      if |fields| == 4 && fields[0] == "1" && fields[1] != "" && fields[3] == "0"
         && ParseInt(fields[2]).Some?
      then Some((fields[1], ParseInt(fields[2]).value))
      else None
  }

  /** The metadata line is decodable: it gives back the identifier and the timestamp,
      provided the identifier is non-empty and has no space in it. */
  lemma MetaLineRoundTrip(id: string, timestamp: int)
    requires id != "" && ' ' !in id
    ensures DecodeMeta(MetaLine(id, timestamp)) == Some((id, timestamp))
  {
    var d := IntToDecimal(timestamp);
    var fields := ["1", id, d, "0"];
    var line := MetaLine(id, timestamp);
    MetaLineFields(id, d);
    assert line == Join(fields, " ") + "\n";
    assert line[..|line| - 1] == Join(fields, " ");
    SplitJoinChar(fields, ' ');
    IntDecimalRoundTrip(timestamp);
  }

  /** The metadata line is its four fields joined by single spaces. */
  lemma MetaLineFields(id: string, d: string)
    ensures "1 " + id + " " + d + " 0" == Join(["1", id, d, "0"], " ")
  {
    var fields := ["1", id, d, "0"];
    assert fields[1..] == [id, d, "0"];
    assert fields[1..][1..] == [d, "0"];
    assert Join([d, "0"], " ") == d + " " + "0";
    assert Join([id, d, "0"], " ") == id + " " + (d + " " + "0");
    assert Join(fields, " ") == "1" + " " + (id + " " + (d + " " + "0"));
  }

  /** Reads a record back: the metadata line up to the first newline, then the text up to
      the final newline. */
  function DecodeBlock(b: string): Option<Record> {
    match IndexOf(b, "\n")
    case None => None
    case Some(i) =>
      if i + 2 > |b| || b[|b| - 1] != '\n' then None
      else match DecodeMeta(b[..i + 1])
        case None => None
        case Some((id, ts)) => Some(Record(id, ts, b[i + 1..|b| - 1]))
  }

  /** A record whose identifier is non-empty and holds no space and no newline is read back
      from its block unchanged, whatever its text. */
  lemma BlockRoundTrip(r: Record)
    requires r.id != "" && ' ' !in r.id && '\n' !in r.id
    ensures DecodeBlock(Block(r)) == Some(r)
  {
    var d := IntToDecimal(r.timestamp);
    var head := "1 " + r.id + " " + d + " 0";
    var b := Block(r);
    assert MetaLine(r.id, r.timestamp) == head + "\n";
    assert '\n' !in head by {
      assert head == "1 " + (r.id + (" " + (d + " 0")));
    }
    assert b == head + ['\n'] + (r.text + "\n");
    FirstCharAfter(head, '\n', r.text + "\n");
    assert b[..|head| + 1] == MetaLine(r.id, r.timestamp);
    MetaLineRoundTrip(r.id, r.timestamp);
    assert b[|head| + 1..|b| - 1] == r.text;
  }

  /** The separator cannot begin inside a block that ends with a newline and does not
      itself contain the separator: its first occurrence is right after the block. */
  lemma FirstSepAfterBlock(b: string, rest: string)
    requires Splittable(b)
    ensures IndexOf(b + SEP + rest, SEP) == Some(|b|)
  {
    var s := b + SEP + rest;
    assert s[|b|..|b| + |SEP|] == SEP;
    assert OccursAt(s, SEP, |b|);
    forall j: nat | j < |b|
      ensures !OccursAt(s, SEP, j)
    {
      if j + |SEP| <= |b| {
        assert s[j..j + |SEP|] == b[j..j + |SEP|];
        assert !OccursAt(b, SEP, j);
      } else {
        var d := |b| - 1 - j;
        assert s[j + d] == '\n';
        if d >= 2 {
          assert SEP[d] != '\n';
        } else {
          assert s[j + 2] == SEP[1 - d] == '\n';
          assert SEP[2] != '\n';
        }
      }
    }
  }

  /** A block as both converters write it: a non-empty text ending in a newline that
      does not contain the separator. */
  predicate Splittable(b: string) {
    b != "" && b[|b| - 1] == '\n' && !Contains(b, SEP)
  }

  /** Splitting a stream of terminated blocks on the separator gives the blocks back,
      one piece per block and in order. */
  lemma {:induction false} SplitTerminated(blocks: seq<string>, tail: string)
    requires forall k :: 0 <= k < |blocks| ==> Splittable(blocks[k])
    ensures Split(Terminated(blocks) + tail, SEP, -1) == blocks + Split(tail, SEP, -1)
    decreases |blocks|
  {
    if blocks == [] {
      assert Terminated(blocks) + tail == tail;
    } else {
      SplitTerminated(blocks[1..], tail);
      SplitTerminatedStep(blocks[0], blocks[1..], tail);
      assert blocks == [blocks[0]] + blocks[1..];
    }
  }

  lemma SplitTerminatedStep(b: string, more: seq<string>, tail: string)
    requires Splittable(b)
    ensures Split(Terminated(more) + tail, SEP, -1) == more + Split(tail, SEP, -1) ==>
            Split(Terminated([b] + more) + tail, SEP, -1) == [b] + more + Split(tail, SEP, -1)
  {
    var rest := Terminated(more) + tail;
    TerminatedCons(b, more, tail);
    SplitAfterBlock(b, rest);
    ConcatAssoc([b], more, Split(tail, SEP, -1));
  }

  lemma TerminatedCons(b: string, more: seq<string>, tail: string)
    ensures Terminated([b] + more) + tail == b + SEP + (Terminated(more) + tail)
  {
    assert ([b] + more)[1..] == more;
  }

  lemma SplitAfterBlock(b: string, rest: string)
    requires Splittable(b)
    ensures Split(b + SEP + rest, SEP, -1) == [b] + Split(rest, SEP, -1)
  {
    FirstSepAfterBlock(b, rest);
    SplitAtFirst(b, SEP, rest, -1);
  }

  /** A stream in which every block is followed by exactly one separator splits into its
      blocks, in order, and one empty trailing piece. */
  lemma SplitStream(blocks: seq<string>)
    requires forall k :: 0 <= k < |blocks| ==> Splittable(blocks[k])
    ensures Split(Terminated(blocks), SEP, -1) == blocks + [""]
  {
    SplitTerminated(blocks, "");
    assert Terminated(blocks) + "" == Terminated(blocks);
    SplitSeparatorOnly();
  }

  /** A stream with one separator too many at the end splits into its blocks and TWO
      empty trailing pieces. */
  lemma SplitStreamExtraSep(blocks: seq<string>)
    requires forall k :: 0 <= k < |blocks| ==> Splittable(blocks[k])
    ensures Split(Terminated(blocks) + SEP, SEP, -1) == blocks + ["", ""]
  {
    SplitTerminated(blocks, SEP);
    SplitSeparatorOnly();
  }

  /** Splitting the empty text or a lone separator. */
  lemma SplitSeparatorOnly()
    ensures Split("", SEP, -1) == [""]
    ensures Split(SEP, SEP, -1) == ["", ""]
  {
    assert !OccursAt("", SEP, 0);
    assert OccursAt(SEP, SEP, 0);
    assert SEP == "" + SEP + "";
    SplitAtFirst("", SEP, "", -1);
  }
}
