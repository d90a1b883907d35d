/** Turning a multi-line FASTA file into a one-line one: the sequence lines under each
    `>` header are joined, and every record is written back as two lines. */
module BioFilesProcessor {
  import opened Wrappers
  import opened Text
  import opened PyDict

  /** Sequences by header line (the header keeps its `>`). */
  type Records = Dict<string, string>

  /** The variables of the reading loop: the records stored so far, the last header
      (`None` while never assigned) and the sequence characters collected since it. */
  datatype FastaState = FastaState(seqs: Records, name: Option<string>, sequence: string)

  const Start := FastaState([], None, [])

  predicate IsHeader(line: string) {
    StartsWith(line, ">")
  }

  /** One turn of the loop, given the stripped line. A header first stores what was
      collected under the previous header, but only if something was collected. */
  function FastaStep(st: FastaState, line: string): Result<FastaState> {
    if IsHeader(line) then
      if st.sequence != [] then
        if st.name.None? then Failure(NameError)
        else Success(FastaState(Put(st.seqs, st.name.value, st.sequence), Some(line), []))
      else Success(st.(name := Some(line)))
    else Success(st.(sequence := st.sequence + line))
  }

  /** The loop over the remaining stripped lines, stopping at the first error. */
  function GroupFrom(st: FastaState, lines: seq<string>): Result<FastaState>
    decreases |lines|
  {
    if lines == [] then Success(st)
    else match FastaStep(st, lines[0])
      case Failure(e) => Failure(e)
      case Success(next) => GroupFrom(next, lines[1..])
  }

  /** After the loop the last header is stored unconditionally, even with nothing
      collected under it. */
  function Flush(st: FastaState): Result<Records> {
    if st.name.None? then Failure(NameError) else Success(Put(st.seqs, st.name.value, st.sequence))
  }

  /** What the loop keeps true: distinct keys, and the bound name and every key are
      header lines of the file. */
  predicate Stored(st: FastaState, all: seq<string>) {
    && Valid(st.seqs)
    && (st.name.Some? ==> IsHeader(st.name.value) && st.name.value in all)
    && forall j :: 0 <= j < |st.seqs| ==> IsHeader(st.seqs[j].0) && st.seqs[j].0 in all
  }

  /** Every turn of the loop, and the final store, keep `Stored`. */
  lemma {:induction false} GroupStored(st: FastaState, lines: seq<string>, all: seq<string>)
    requires Stored(st, all) && forall i :: 0 <= i < |lines| ==> lines[i] in all
    ensures GroupFrom(st, lines).Success? ==> Stored(GroupFrom(st, lines).value, all)
    ensures GroupFrom(st, lines).Success? && Flush(GroupFrom(st, lines).value).Success? ==>
      Stored(GroupFrom(st, lines).value.(seqs := Flush(GroupFrom(st, lines).value).value), all)
    decreases |lines|
  {
    if lines != [] {
      if IsHeader(lines[0]) && st.sequence != [] && st.name.Some? {
        PutSpec(st.seqs, st.name.value, st.sequence);
      }
      if FastaStep(st, lines[0]).Success? {
        GroupStored(FastaStep(st, lines[0]).value, lines[1..], all);
      }
    } else if st.name.Some? {
      PutSpec(st.seqs, st.name.value, st.sequence);
    }
  }

  /** The loop only ever fails with an unbound name. */
  lemma {:induction false} GroupFailure(st: FastaState, lines: seq<string>)
    ensures GroupFrom(st, lines).Failure? ==> GroupFrom(st, lines).error == NameError
    decreases |lines|
  {
    if lines != [] && FastaStep(st, lines[0]).Success? {
      GroupFailure(FastaStep(st, lines[0]).value, lines[1..]);
    }
  }

  /** `convert_multiline_fasta_to_oneline` on the lines of the input file: the records
      it stores, or the error. The keys are distinct stripped header lines. */
  function ConvertResult(lines: seq<string>): (r: Result<Records>)
    ensures r.Failure? ==> r.error == NameError
    ensures r.Success? ==> Valid(r.value)
    ensures r.Success? ==> forall j :: 0 <= j < |r.value| ==> IsHeader(r.value[j].0) && IsStripped(r.value[j].0)
    ensures r.Success? ==> forall j :: 0 <= j < |r.value| ==> r.value[j].0 in StripAll(lines)
  {
    var stripped := StripAll(lines);
    GroupStored(Start, stripped, stripped);
    GroupFailure(Start, stripped);
    match GroupFrom(Start, stripped)
    case Failure(e) => Failure(e)
    case Success(st) =>
      match Flush(st)
      case Failure(e) => Failure(e)
      case Success(seqs) =>
        assert forall j :: 0 <= j < |seqs| ==> IsStripped(seqs[j].0) by {
          forall j | 0 <= j < |seqs| ensures IsStripped(seqs[j].0) {
            var m :| 0 <= m < |stripped| && stripped[m] == seqs[j].0;
          }
        }
        Success(seqs)
  }

  /** The two lines written for each record, in order: header, then sequence. */
  function FastaLines(records: Records): (lines: seq<string>)
    ensures |lines| == 2 * |records|
  {
    if records == [] then [] else [records[0].0, records[0].1] + FastaLines(records[1..])
  }

  // ---------------------------------------------------------------------------
  // The grouping, stated block by block

  /** A header line and the sequence lines under it. */
  datatype Block = Block(header: string, body: seq<string>)

  /** The lines of a file made of these blocks, in order. */
  function Flatten(blocks: seq<Block>): seq<string> {
    if blocks == [] then [] else [blocks[0].header] + blocks[0].body + Flatten(blocks[1..])
  }

  /** Each block starts with a header and has no header among its sequence lines. */
  predicate WellFormedBlocks(blocks: seq<Block>) {
    forall k :: 0 <= k < |blocks| ==>
      IsHeader(blocks[k].header) && forall i :: 0 <= i < |blocks[k].body| ==> !IsHeader(blocks[k].body[i])
  }

  /** A block followed by another header is stored only if it has sequence characters. */
  function StoreIfCollected(d: Records, b: Block): Records {
    if Join(b.body) != [] then Put(d, b.header, Join(b.body)) else d
  }

  function StoreAll(d: Records, blocks: seq<Block>): Records
    decreases |blocks|
  {
    if blocks == [] then d else StoreAll(StoreIfCollected(d, blocks[0]), blocks[1..])
  }

  /** The grouping the loop performs, block by block: each block's value is its lines
      joined in order; every block but the last is stored only when that value is
      non-empty, the last one always; a repeated header keeps its first position and
      takes the later value. */
  function Grouped(blocks: seq<Block>): Records
    requires |blocks| > 0
  {
    var last := blocks[|blocks| - 1];
    Put(StoreAll([], blocks[..|blocks| - 1]), last.header, Join(last.body))
  }

  /** The value the last block with header `h` and a non-empty sequence carries, if
      there is such a block. */
  function LastCollected(blocks: seq<Block>, h: string): Option<string>
    decreases |blocks|
  {
    if blocks == [] then None
    else match LastCollected(blocks[1..], h)
      case Some(v) => Some(v)
      case None => if blocks[0].header == h && Join(blocks[0].body) != [] then Some(Join(blocks[0].body)) else None
  }

  /** After storing blocks, a header holds the value of its last block with a
      non-empty sequence; a header with no such block keeps what it held. */
  lemma {:induction false} StoreAllGet(d: Records, blocks: seq<Block>, h: string)
    ensures Get(StoreAll(d, blocks), h) ==
      if LastCollected(blocks, h).Some? then LastCollected(blocks, h) else Get(d, h)
    decreases |blocks|
  {
    if blocks != [] {
      var b := blocks[0];
      if Join(b.body) != [] {
        PutSpec(d, b.header, Join(b.body));
      }
      StoreAllGet(StoreIfCollected(d, b), blocks[1..], h);
    }
  }

  /** Storing blocks keeps the keys distinct. */
  lemma {:induction false} StoreAllValid(d: Records, blocks: seq<Block>)
    requires Valid(d)
    ensures Valid(StoreAll(d, blocks))
    decreases |blocks|
  {
    if blocks != [] {
      var b := blocks[0];
      if Join(b.body) != [] {
        PutSpec(d, b.header, Join(b.body));
      }
      StoreAllValid(StoreIfCollected(d, b), blocks[1..]);
    }
  }

  /** What the grouping stores under each header: the last header always, with its
      own (possibly empty) value; any other header only if one of its blocks has a
      non-empty sequence, and then the value of the last such block. */
  lemma GroupedGet(blocks: seq<Block>, h: string)
    requires |blocks| > 0
    ensures Valid(Grouped(blocks))
    ensures var last := blocks[|blocks| - 1];
      Get(Grouped(blocks), h) ==
        if h == last.header then Some(Join(last.body)) else LastCollected(blocks[..|blocks| - 1], h)
  {
    var last := blocks[|blocks| - 1];
    var stored := StoreAll([], blocks[..|blocks| - 1]);
    StoreAllValid([], blocks[..|blocks| - 1]);
    StoreAllGet([], blocks[..|blocks| - 1], h);
    PutSpec(stored, last.header, Join(last.body));
  }

  /** What a header stores of the state before it: the collected sequence under the
      bound name, if anything was collected. */
  function Pending(st: FastaState): Records
    requires st.name.Some? || st.sequence == []
  {
    if st.sequence != [] then Put(st.seqs, st.name.value, st.sequence) else st.seqs
  }

  /** A sequence line in front of the rest is appended to the collected sequence. */
  lemma GroupLine(st: FastaState, line: string, rest: seq<string>)
    requires !IsHeader(line)
    ensures GroupFrom(st, [line] + rest) == GroupFrom(st.(sequence := st.sequence + line), rest)
  {
    assert ([line] + rest)[0] == line && ([line] + rest)[1..] == rest;
  }

  /** Sequence lines are appended to the collected sequence, in order. */
  lemma {:induction false} GroupBody(st: FastaState, body: seq<string>, rest: seq<string>)
    requires forall i :: 0 <= i < |body| ==> !IsHeader(body[i])
    ensures GroupFrom(st, body + rest) == GroupFrom(st.(sequence := st.sequence + Join(body)), rest)
    decreases |body|
  {
    if body == [] {
      assert body + rest == rest;
      assert st.sequence + Join(body) == st.sequence;
    } else {
      var next := st.(sequence := st.sequence + body[0]);
      calc {
        GroupFrom(st, body + rest);
        == { assert body + rest == [body[0]] + (body[1..] + rest);
             GroupLine(st, body[0], body[1..] + rest); }
        GroupFrom(next, body[1..] + rest);
        == { GroupBody(next, body[1..], rest); }
        GroupFrom(next.(sequence := next.sequence + Join(body[1..])), rest);
        == { assert next.sequence + Join(body[1..]) == st.sequence + Join(body); }
        GroupFrom(st.(sequence := st.sequence + Join(body)), rest);
      }
    }
  }

  /** One block: its header stores what was pending, then its lines are collected. */
  lemma GroupBlock(st: FastaState, b: Block, rest: seq<string>)
    requires IsHeader(b.header) && forall i :: 0 <= i < |b.body| ==> !IsHeader(b.body[i])
    requires st.name.Some? || st.sequence == []
    ensures GroupFrom(st, [b.header] + b.body + rest) ==
      GroupFrom(FastaState(Pending(st), Some(b.header), Join(b.body)), rest)
  {
    var st1 := FastaState(Pending(st), Some(b.header), []);
    assert FastaStep(st, b.header) == Success(st1);
    var lines := [b.header] + b.body + rest;
    assert lines[0] == b.header && lines[1..] == b.body + rest;
    assert GroupFrom(st, lines) == GroupFrom(st1, b.body + rest);
    GroupBody(st1, b.body, rest);
    assert st1.(sequence := st1.sequence + Join(b.body)) == FastaState(Pending(st), Some(b.header), Join(b.body));
  }

  /** Reading a file made of blocks, from a state whose collected sequence has a name
      (or is empty), ends with every block but the last stored as `StoreAll` says and
      the last one pending. */
  lemma {:induction false} GroupBlocks(st: FastaState, blocks: seq<Block>)
    requires WellFormedBlocks(blocks) && |blocks| > 0
    requires st.name.Some? || st.sequence == []
    ensures var last := blocks[|blocks| - 1];
      GroupFrom(st, Flatten(blocks)) ==
        Success(FastaState(StoreAll(Pending(st), blocks[..|blocks| - 1]), Some(last.header), Join(last.body)))
    decreases |blocks|
  {
    var b, rest := blocks[0], blocks[1..];
    var st2 := FastaState(Pending(st), Some(b.header), Join(b.body));
    assert GroupFrom(st, Flatten(blocks)) == GroupFrom(st2, Flatten(rest)) by {
      assert Flatten(blocks) == [b.header] + b.body + Flatten(rest);
      GroupBlock(st, b, Flatten(rest));
    }
    if rest == [] {
      assert blocks[..|blocks| - 1] == [];
    } else {
      assert WellFormedBlocks(rest) by {
        forall k | 0 <= k < |rest| ensures IsHeader(rest[k].header) { assert rest[k] == blocks[k + 1]; }
      }
      assert StoreAll(Pending(st), blocks[..|blocks| - 1]) == StoreAll(Pending(st2), rest[..|rest| - 1]) by {
        assert Pending(st2) == StoreIfCollected(Pending(st), b);
        assert blocks[..|blocks| - 1][1..] == rest[..|rest| - 1];
      }
      GroupBlocks(st2, rest);
    }
  }

  /** A file whose stripped lines are blank lines followed by a sequence of blocks
      converts to `Grouped`: the blank lines collect nothing. */
  lemma ConvertBlocks(lines: seq<string>, blanks: seq<string>, blocks: seq<Block>)
    requires WellFormedBlocks(blocks) && |blocks| > 0
    requires (forall i :: 0 <= i < |blanks| ==> blanks[i] == []) && StripAll(lines) == blanks + Flatten(blocks)
    ensures ConvertResult(lines) == Success(Grouped(blocks))
  {
    JoinEmpty(blanks);
    GroupBody(Start, blanks, Flatten(blocks));
    assert Start.(sequence := Start.sequence + Join(blanks)) == Start;
    GroupBlocks(Start, blocks);
  }

  /** A small file in which `>a` first has no sequence lines and later comes back. */
  const ExampleLines: seq<string> := [">a", ">b", "AC", " GT ", ">a", "T"]

  const ExampleBlocks: seq<Block> := [Block(">a", []), Block(">b", ["AC", "GT"]), Block(">a", ["T"])]

  lemma ExampleAsBlocks()
    ensures WellFormedBlocks(ExampleBlocks) && StripAll(ExampleLines) == Flatten(ExampleBlocks)
  {
    assert Strip(" GT ") == "GT";
    assert "AC"[..1] == "A" && "GT"[..1] == "G" && "T"[..1] == "T";
  }

  lemma ExampleGrouped()
    ensures Grouped(ExampleBlocks) == [(">b", "ACGT"), (">a", "T")]
  {
    var blocks := ExampleBlocks;
    assert Join(["AC", "GT"]) == "ACGT";
    assert blocks[..2] == [blocks[0], blocks[1]];
    assert StoreIfCollected([], blocks[0]) == [];
    assert StoreIfCollected([], blocks[1]) == [(">b", "ACGT")];
    assert StoreAll([], blocks[..2]) == StoreAll([], [blocks[1]]);
    assert [blocks[1]][1..] == [];
    assert StoreAll([], [blocks[1]]) == StoreAll([(">b", "ACGT")], []);
    assert Join(["T"]) == "T";
    assert Find([(">b", "ACGT")], ">a").None? by { assert ">b"[1] != ">a"[1]; }
  }

  /** On the file `>a`, `>b`, `AC`, ` GT `, `>a`, `T`, the first `>a` has no sequence
      lines, so it is not stored, and its repeat is appended after `>b`. */
  lemma EmptyRecordDropped()
    ensures ConvertResult(ExampleLines) == Success([(">b", "ACGT"), (">a", "T")])
  {
    ExampleAsBlocks();
    assert [] + Flatten(ExampleBlocks) == Flatten(ExampleBlocks);
    ConvertBlocks(ExampleLines, [], ExampleBlocks);
    ExampleGrouped();
  }

  // ---------------------------------------------------------------------------
  // When the name is unbound

  /** Some line is a header. */
  predicate HasHeader(lines: seq<string>) {
    exists i :: 0 <= i < |lines| && IsHeader(lines[i])
  }

  /** The lines before the first header. */
  function Preamble(lines: seq<string>): seq<string> {
    if lines == [] || IsHeader(lines[0]) then [] else [lines[0]] + Preamble(lines[1..])
  }

  /** Once a name is bound the loop cannot fail and the name stays bound. */
  lemma {:induction false} GroupBound(st: FastaState, lines: seq<string>)
    requires st.name.Some?
    ensures GroupFrom(st, lines).Success? && GroupFrom(st, lines).value.name.Some?
    decreases |lines|
  {
    if lines != [] {
      GroupBound(FastaStep(st, lines[0]).value, lines[1..]);
    }
  }

  /** From a state with no name, the conversion fails exactly when no header follows
      or something was collected before the first one. */
  lemma {:induction false} GroupUnbound(st: FastaState, lines: seq<string>)
    requires st.name.None?
    ensures (GroupFrom(st, lines).Failure? || GroupFrom(st, lines).value.name.None?) <==>
      !HasHeader(lines) || st.sequence + Join(Preamble(lines)) != []
    decreases |lines|
  {
    if lines == [] {
      assert !HasHeader(lines);
    } else if IsHeader(lines[0]) {
      assert HasHeader(lines);
      assert st.sequence + Join(Preamble(lines)) == st.sequence;
      if st.sequence == [] {
        GroupBound(st.(name := Some(lines[0])), lines[1..]);
      }
    } else {
      var next := st.(sequence := st.sequence + lines[0]);
      assert GroupFrom(st, lines) == GroupFrom(next, lines[1..]);
      assert next.sequence + Join(Preamble(lines[1..])) == st.sequence + Join(Preamble(lines)) by {
        assert Preamble(lines) == [lines[0]] + Preamble(lines[1..]);
      }
      assert HasHeader(lines) <==> HasHeader(lines[1..]) by {
        if HasHeader(lines) {
          var i :| 0 <= i < |lines| && IsHeader(lines[i]);
          assert lines[1..][i - 1] == lines[i];
        }
        if HasHeader(lines[1..]) {
          var i :| 0 <= i < |lines[1..]| && IsHeader(lines[1..][i]);
          assert lines[i + 1] == lines[1..][i];
        }
      }
      GroupUnbound(next, lines[1..]);
    }
  }

  /** The conversion fails, with an unbound name, exactly when the file has no header
      or has a non-blank line before its first header. */
  lemma ConvertFails(lines: seq<string>)
    ensures ConvertResult(lines).Failure? <==>
      !HasHeader(StripAll(lines)) || exists i :: 0 <= i < |Preamble(StripAll(lines))| && Preamble(StripAll(lines))[i] != []
  {
    GroupUnbound(Start, StripAll(lines));
    JoinEmpty(Preamble(StripAll(lines)));
    assert Start.sequence + Join(Preamble(StripAll(lines))) == Join(Preamble(StripAll(lines)));
  }

  // ---------------------------------------------------------------------------
  // Reading the output back

  /** The lines written for record `k` sit at positions `2k` and `2k + 1`. */
  lemma {:induction false} FastaLinesAt(records: Records, k: nat)
    requires k < |records|
    ensures FastaLines(records)[2 * k] == records[k].0 && FastaLines(records)[2 * k + 1] == records[k].1
  {
    if k > 0 {
      FastaLinesAt(records[1..], k - 1);
    }
  }

  /** Each record as a block with a single sequence line. */
  function OneLineBlocks(records: Records): (blocks: seq<Block>)
    ensures |blocks| == |records|
    ensures forall k :: 0 <= k < |records| ==> blocks[k] == Block(records[k].0, [records[k].1])
  {
    if records == [] then [] else [Block(records[0].0, [records[0].1])] + OneLineBlocks(records[1..])
  }

  lemma {:induction false} FlattenOneLine(records: Records)
    ensures Flatten(OneLineBlocks(records)) == FastaLines(records)
  {
    if records != [] {
      FlattenOneLine(records[1..]);
      assert OneLineBlocks(records)[1..] == OneLineBlocks(records[1..]);
    }
  }

  /** Records that can be written and read back unchanged: distinct stripped header
      keys, and stripped non-empty sequences that do not look like headers, none of
      them holding a line break. */
  predicate OneLineRecords(records: Records) {
    && Valid(records)
    && forall j :: 0 <= j < |records| ==>
      && IsHeader(records[j].0) && IsStripped(records[j].0) && NoLineBreak(records[j].0)
      && records[j].1 != [] && IsStripped(records[j].1) && !IsHeader(records[j].1)
      && NoLineBreak(records[j].1)
  }

  /** Storing the one-line blocks `k` to `n - 1` after the first `k` records gives the
      first `n` records. */
  lemma {:induction false} StoreOneLine(records: Records, k: nat, n: nat)
    requires OneLineRecords(records) && k <= n <= |records|
    ensures StoreAll(records[..k], OneLineBlocks(records)[k..n]) == records[..n]
    decreases n - k
  {
    if k < n {
      var blocks := OneLineBlocks(records);
      assert StoreIfCollected(records[..k], blocks[k]) == records[..k + 1] by {
        assert Join([records[k].1]) == records[k].1;
        PutNext(records, k);
      }
      assert StoreAll(records[..k], blocks[k..n]) == StoreAll(records[..k + 1], blocks[k + 1..n]) by {
        assert blocks[k..n][0] == blocks[k] && blocks[k..n][1..] == blocks[k + 1..n];
      }
      StoreOneLine(records, k + 1, n);
    }
  }

  /** The one-line file of such records has only stripped lines. */
  lemma OneLineStripped(records: Records)
    requires OneLineRecords(records)
    ensures StripAll(FastaLines(records)) == FastaLines(records)
  {
    var lines := FastaLines(records);
    forall i | 0 <= i < |lines| ensures Strip(lines[i]) == lines[i] {
      FastaLinesAt(records, i / 2);
      StripStripped(lines[i]);
    }
  }

  /** The last record, stored after the others, completes the records. */
  lemma OneLineLast(records: Records)
    requires OneLineRecords(records) && |records| > 0
    ensures var n := |records|;
      Put(records[..n - 1], records[n - 1].0, Join([records[n - 1].1])) == records
  {
    var n := |records|;
    assert Join([records[n - 1].1]) == records[n - 1].1;
    PutNext(records, n - 1);
    assert records[..n] == records;
  }

  /** Grouping the one-line blocks of such records gives back the records. */
  lemma OneLineGrouped(records: Records)
    requires OneLineRecords(records) && |records| > 0
    ensures Grouped(OneLineBlocks(records)) == records
  {
    var n := |records|;
    var blocks := OneLineBlocks(records);
    assert StoreAll([], blocks[..n - 1]) == records[..n - 1] by {
      StoreOneLine(records, 0, n - 1);
      assert records[..0] == [];
      assert blocks[0..n - 1] == blocks[..n - 1];
    }
    OneLineLast(records);
  }

  /** Each one-line block starts with its header and holds no header line. */
  lemma OneLineWellFormed(records: Records)
    requires OneLineRecords(records)
    ensures WellFormedBlocks(OneLineBlocks(records))
  {
    var blocks := OneLineBlocks(records);
    forall k | 0 <= k < |blocks|
      ensures IsHeader(blocks[k].header) && forall i :: 0 <= i < |blocks[k].body| ==> !IsHeader(blocks[k].body[i])
    {
      assert blocks[k].body == [records[k].1];
    }
  }

  /** Converting the written one-line file gives back the same records in the same
      order. */
  lemma OneLineRoundTrip(records: Records)
    requires OneLineRecords(records) && |records| > 0
    ensures ConvertResult(FastaLines(records)) == Success(records)
  {
    OneLineStripped(records);
    FlattenOneLine(records);
    OneLineGrouped(records);
    OneLineWellFormed(records);
    assert [] + Flatten(OneLineBlocks(records)) == Flatten(OneLineBlocks(records));
    ConvertBlocks(FastaLines(records), [], OneLineBlocks(records));
  }

  /** The reading loop (and the final store) over the lines of the input file. */
  method GroupRecords(lines: seq<string>) returns (r: Result<Records>)
    ensures r == ConvertResult(lines)
  {
    var seqs: Records := [];
    var name: Option<string> := None;
    var sequence: string := [];
    ghost var stripped := StripAll(lines);
    for i := 0 to |lines|
      invariant GroupFrom(FastaState(seqs, name, sequence), stripped[i..]) == GroupFrom(Start, stripped)
    {
      var line := Strip(lines[i]);
      assert stripped[i..][1..] == stripped[i + 1..];
      if StartsWith(line, ">") {
        if |sequence| != 0 {
          if name.None? {
            return Failure(NameError);
          }
          seqs := Put(seqs, name.value, sequence);
          sequence := [];
        }
        name := Some(line);
      } else {
        sequence := sequence + line;
      }
    }
    if name.None? {
      return Failure(NameError);
    }
    seqs := Put(seqs, name.value, sequence);
    return Success(seqs);
  }

  /** The writing loop: each record as its header line and its sequence line. */
  method WriteRecords(seqs: Records, path: string) returns (file: FileWrite)
    ensures file == FileWrite(path, FastaLines(seqs))
  {
    var written: seq<string> := [];
    for j := 0 to |seqs|
      invariant written + FastaLines(seqs[j..]) == FastaLines(seqs)
    {
      assert seqs[j..][1..] == seqs[j + 1..];
      written := written + [seqs[j].0];
      written := written + [seqs[j].1];
    }
    assert seqs[|seqs|..] == [];
    file := FileWrite(path, written);
  }

  /** What the conversion returns: the records, the file written, and whether the
      warning about the default output name is shown. */
  datatype FastaOutput = FastaOutput(seqs: Records, written: FileWrite, warning: bool)

  /** `convert_multiline_fasta_to_oneline`: the lines of `<input_fasta>.fasta` are
      grouped by header, and the records are written two lines each to
      `<output_fasta>.fasta`, which defaults to `<input_fasta>_oneline.fasta` with a
      warning. */
  method ConvertMultilineFastaToOneline(inputFasta: string, lines: seq<string>, outputFasta: Option<string>)
    returns (r: Result<FastaOutput>)
    ensures ConvertResult(lines).Failure? ==> r == Failure(ConvertResult(lines).error)
    ensures ConvertResult(lines).Success? ==>
      && r.Success? && r.value.seqs == ConvertResult(lines).value
      && r.value.written.path == (if outputFasta.None? then inputFasta + "_oneline" else outputFasta.value) + ".fasta"
      && r.value.written.lines == FastaLines(r.value.seqs)
      && (r.value.warning <==> outputFasta.None?)
  {
    var grouped := GroupRecords(lines);
    if grouped.Failure? {
      return Failure(grouped.error);
    }
    var seqs := grouped.value;
    var warningMessage: bool;
    var output: string;
    if outputFasta.None? {
      warningMessage := true;
      output := inputFasta + "_oneline";
    } else {
      warningMessage := false;
      output := outputFasta.value;
    }
    var file := WriteRecords(seqs, output + ".fasta");
    return Success(FastaOutput(seqs, file, warningMessage));
  }
}
