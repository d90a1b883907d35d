/** The front-end of the toolkit: filtering the reads of a FASTQ file by GC content,
    length and mean quality, and running one nucleotide transform over several
    sequences. */
module UltimateTools {
  import opened Wrappers
  import opened Text
  import opened PyDict
  import opened DnaRnaTools
  import opened FastqTools

  // ---------------------------------------------------------------------------
  // filter_fastq_seqs

  /** `gc_bounds`: a single number is an upper bound, otherwise a (lower, upper) pair. */
  datatype GcBoundsArg = GcUpper(hi: real) | GcRange(lo: real, hi: real)

  /** `length_bounds`: a single integer is an upper bound, otherwise a (lower, upper) pair. */
  datatype LengthBoundsArg = LengthUpper(hi: int) | LengthRange(lo: int, hi: int)

  /** The defaults: GC content from 0 to 100, length from 0 to 2^32, quality 0. */
  const DefaultGcBounds := GcRange(0.0, 100.0)
  const DefaultLengthBounds := LengthRange(0, 0x1_0000_0000)
  const DefaultQualityThreshold := 0

  /** A single number `g` stands for the pair (0, g). */
  function GcPair(arg: GcBoundsArg): (real, real) {
    match arg
    case GcUpper(hi) => (0.0, hi)
    case GcRange(lo, hi) => (lo, hi)
  }

  function LengthPair(arg: LengthBoundsArg): (int, int) {
    match arg
    case LengthUpper(hi) => (0, hi)
    case LengthRange(lo, hi) => (lo, hi)
  }

  /** The bounds check: an upper GC bound above 100, crossed bounds, or a quality
      threshold outside 0..40 are rejected; a negative lower bound is not. */
  predicate BoundsRejected(gc: (real, real), len: (int, int), qualityThreshold: int) {
    gc.1 > 100.0 || gc.0 > gc.1 || len.0 > len.1 || !(0 <= qualityThreshold <= 40)
  }

  /** With the default arguments the bounds are accepted, and a read whose sequence
      is non-empty and at most 2^32 long passes exactly when its quality string can
      be scored. */
  lemma DefaultsPass(entry: (string, (string, string)))
    requires entry.1.0 != [] && |entry.1.0| <= 0x1_0000_0000
    ensures !BoundsRejected(GcPair(DefaultGcBounds), LengthPair(DefaultLengthBounds), DefaultQualityThreshold)
    ensures Passes(entry, GcPair(DefaultGcBounds), LengthPair(DefaultLengthBounds), DefaultQualityThreshold) <==>
      QualityVerdict(entry.1.1, DefaultQualityThreshold).Success?
  {
    if QualityVerdict(entry.1.1, 0).Success? {
      QualityZeroThreshold(entry.1.1);
    }
  }

  /** Whether a read passes all three checks (its sequence must be non-empty for its
      GC content to exist). */
  predicate Passes(entry: (string, (string, string)), gc: (real, real), len: (int, int), qualityThreshold: int)
    requires entry.1.0 != []
  {
    GcInBounds(entry.1.0, gc) && LengthInBounds(entry.1.0, len)
    && QualityVerdict(entry.1.1, qualityThreshold) == Success(true)
  }

  /** Every read has a non-empty sequence. */
  predicate NonEmptySequences(seqs: Reads) {
    forall j :: 0 <= j < |seqs| ==> seqs[j].1.0 != []
  }

  /** For each read in order, whether it passes. */
  function PassFlags(seqs: Reads, gc: (real, real), len: (int, int), qualityThreshold: int): (flags: seq<bool>)
    requires NonEmptySequences(seqs)
    ensures |flags| == |seqs|
    ensures forall i :: 0 <= i < |seqs| ==> flags[i] == Passes(seqs[i], gc, len, qualityThreshold)
  {
    seq(|seqs|, i requires 0 <= i < |seqs| => Passes(seqs[i], gc, len, qualityThreshold))
  }

  /** The reads that pass, in their original order. */
  function Kept(seqs: Reads, gc: (real, real), len: (int, int), qualityThreshold: int): Reads
    requires NonEmptySequences(seqs)
  {
    Filter(seqs, PassFlags(seqs, gc, len, qualityThreshold))
  }

  /** The filtered dict is a sub-dict of the reads with the values unchanged and the
      names still distinct: it holds a name exactly when the read under that name
      passes all three checks. */
  lemma KeptGet(seqs: Reads, gc: (real, real), len: (int, int), qualityThreshold: int, k: string)
    requires Valid(seqs) && NonEmptySequences(seqs)
    ensures Valid(Kept(seqs, gc, len, qualityThreshold))
    ensures Get(Kept(seqs, gc, len, qualityThreshold), k) ==
      if Get(seqs, k).Some? && Passes((k, Get(seqs, k).value), gc, len, qualityThreshold) then Get(seqs, k) else None
  {
    var flags := PassFlags(seqs, gc, len, qualityThreshold);
    FilterValid(seqs, flags);
    FilterGet(seqs, flags, k);
    if Find(seqs, k).Some? {
      var i := Find(seqs, k).value;
      assert seqs[i] == (k, Get(seqs, k).value);
    }
  }

  /** Looking up read `j`'s name in the three dictionaries finds its own entries,
      whose verdicts combine to its flag. */
  lemma VerdictsAt(seqs: Reads, gcAndLen: Dict<string, seq<bool>>, quality: Dict<string, bool>, flags: seq<bool>, j: nat)
    requires Valid(seqs) && |flags| == |seqs| && j < |seqs|
    requires Valid(gcAndLen) && Keys(gcAndLen) == Keys(seqs) && Valid(quality) && Keys(quality) == Keys(seqs)
    requires forall j :: 0 <= j < |seqs| ==>
      |gcAndLen[j].1| == 2 && flags[j] == (gcAndLen[j].1[0] && gcAndLen[j].1[1] && quality[j].1)
    ensures Get(seqs, seqs[j].0) == Some(seqs[j].1)
    ensures Get(gcAndLen, seqs[j].0) == Some(gcAndLen[j].1) && Get(quality, seqs[j].0) == Some(quality[j].1)
    ensures |gcAndLen[j].1| == 2 && flags[j] == (gcAndLen[j].1[0] && gcAndLen[j].1[1] && quality[j].1)
  {
    assert Keys(gcAndLen)[j] == seqs[j].0 && Keys(quality)[j] == seqs[j].0;
    GetAt(gcAndLen, j);
    GetAt(quality, j);
    GetAt(seqs, j);
  }

  /** The filter loop of `filter_fastq_seqs`: given the two verdict dicts, each keyed
      like the reads, a read is copied over when all three of its verdicts are true
      (`flags` names those reads). */
  method KeepPassing(seqs: Reads, gcAndLen: Dict<string, seq<bool>>, quality: Dict<string, bool>, ghost flags: seq<bool>)
    returns (filtered: Reads)
    requires Valid(seqs) && |flags| == |seqs|
    requires Valid(gcAndLen) && Keys(gcAndLen) == Keys(seqs) && Valid(quality) && Keys(quality) == Keys(seqs)
    requires forall j :: 0 <= j < |seqs| ==>
      |gcAndLen[j].1| == 2 && flags[j] == (gcAndLen[j].1[0] && gcAndLen[j].1[1] && quality[j].1)
    ensures filtered == Filter(seqs, flags)
  {
    filtered := [];
    for j := 0 to |seqs|
      invariant filtered == Filter(seqs[..j], flags[..j])
    {
      var key := seqs[j].0;
      VerdictsAt(seqs, gcAndLen, quality, flags, j);
      var verdicts := Get(gcAndLen, key).value;
      FilterStep(seqs, flags, j);
      if verdicts[0] && verdicts[1] && Get(quality, key).value {
        filtered := Put(filtered, key, Get(seqs, key).value);
      }
    }
    assert seqs[..|seqs|] == seqs && flags[..|seqs|] == flags;
  }

  /** What `filter_fastq_seqs` returns and writes. */
  datatype FilterOutput = FilterOutput(kept: Reads, written: FileWrite)

  /** `filter_fastq_seqs` over the lines of the input file: read the reads, normalise
      and check the bounds, compute the three verdicts, keep the reads that pass, and
      save them under the output name, which defaults to the input path. The reader
      uses the original name test when `corrected` is false, as the program does, and
      the corrected one when it is true. */
  method FilterFastqSeqs(inputPath: string, lines: seq<string>, gcBounds: GcBoundsArg,
                         lengthBounds: LengthBoundsArg, qualityThreshold: int, outputFilename: Option<string>,
                         corrected: bool)
    returns (r: Result<FilterOutput>)
    ensures ReadResult(lines, corrected).Failure? ==> r == Failure(ReadResult(lines, corrected).error)
    ensures ReadResult(lines, corrected).Success? ==>
      var seqs := ReadResult(lines, corrected).value;
      var gc, len := GcPair(gcBounds), LengthPair(lengthBounds);
      && (BoundsRejected(gc, len, qualityThreshold) ==> r == Failure(ValueError))
      && (!BoundsRejected(gc, len, qualityThreshold) && !NonEmptySequences(seqs) ==> r == Failure(ZeroDivisionError))
      && (!BoundsRejected(gc, len, qualityThreshold) && NonEmptySequences(seqs) ==>
            (r.Failure? <==> exists j :: 0 <= j < |seqs| && QualityVerdict(seqs[j].1.1, qualityThreshold).Failure?))
      && (r.Failure? && !BoundsRejected(gc, len, qualityThreshold) && NonEmptySequences(seqs) ==>
            exists j :: 0 <= j < |seqs| && QualityVerdict(seqs[j].1.1, qualityThreshold) == Failure(r.error)
              && forall i :: 0 <= i < j ==> QualityVerdict(seqs[i].1.1, qualityThreshold).Success?)
      && (r.Success? ==>
            && NonEmptySequences(seqs)
            && r.value.kept == Kept(seqs, gc, len, qualityThreshold)
            && var name := if outputFilename.None? then inputPath else outputFilename.value;
               r.value.written == FileWrite(PathJoin("fastq_filtrator_results", name + ".fastq"), FastqLines(r.value.kept)))
  {
    var read := ReadFile(lines, corrected);
    if read.Failure? {
      return Failure(read.error);
    }
    var seqs := read.value;
    var gc := GcPair(gcBounds);
    var len := LengthPair(lengthBounds);
    if BoundsRejected(gc, len, qualityThreshold) {
      return Failure(ValueError);
    }
    var gcAndLen := IsGcAndLengthInBounds(seqs, gc, len);
    if gcAndLen.Failure? {
      return Failure(gcAndLen.error);
    }
    var quality := IsQualityInBounds(seqs, qualityThreshold);
    if quality.Failure? {
      return Failure(quality.error);
    }
    var filtered := KeepPassing(seqs, gcAndLen.value, quality.value, PassFlags(seqs, gc, len, qualityThreshold));
    var name := if outputFilename.None? then inputPath else outputFilename.value;
    var file := SaveResults(filtered, name);
    return Success(FilterOutput(filtered, file));
  }

  // ---------------------------------------------------------------------------
  // run_dna_rna_tools

  /** The four transforms that can be asked for by name. */
  datatype Tool = Transcribe | Reverse | Complement | ReverseComplement

  /** The dispatch table: a tool name, or a missing key. */
  function ToolNamed(name: string): Option<Tool> {
    if name == "transcribe" then Some(Transcribe)
    else if name == "reverse" then Some(Reverse)
    else if name == "complement" then Some(Complement)
    else if name == "reverse_complement" then Some(ReverseComplement)
    else None
  }

  /** A sequence the tools accept: only the letters of `AUTGCautgc`, and not both T
      and U once upper-cased. */
  predicate Readable(s: string) {
    && (forall i :: 0 <= i < |s| ==> IsNucleotide(s[i]))
    && !('T' in Upper(s) && 'U' in Upper(s))
  }

  /** Every accepted sequence can be complemented: its letters are all keys of the
      complement table. */
  lemma ReadableComplementable(s: string)
    requires Readable(s)
    ensures Complementable(s)
  {
    forall i | 0 <= i < |s| ensures s[i] in ComplementTable {
      assert IsNucleotide(s[i]);
    }
  }

  /** The chosen transform applied to an accepted sequence. */
  function Apply(tool: Tool, s: string): (r: string)
    requires Readable(s)
    ensures |r| == |s|
  {
    ReadableComplementable(s);
    match tool
    case Transcribe => DnaRnaTools.Transcribe(s)
    case Reverse => DnaRnaTools.Reverse(s)
    case Complement => DnaRnaTools.Complement(s)
    case ReverseComplement => DnaRnaTools.ReverseComplement(s)
  }

  /** Upper-casing gives T exactly for T and t, and U exactly for U and u. */
  lemma UpperTU(c: char)
    ensures UpperChar(c) == 'T' <==> c == 'T' || c == 't'
    ensures UpperChar(c) == 'U' <==> c == 'U' || c == 'u'
  {
  }

  /** An upper-cased T in a transcript comes from a U, and an upper-cased U from a T. */
  lemma TranscribeLetters(s: string)
    ensures 'T' in Upper(DnaRnaTools.Transcribe(s)) ==> 'U' in Upper(s)
    ensures 'U' in Upper(DnaRnaTools.Transcribe(s)) ==> 'T' in Upper(s)
  {
    var t := DnaRnaTools.Transcribe(s);
    var r := Upper(t);
    if 'T' in r {
      var a :| 0 <= a < |r| && r[a] == 'T';
      UpperTU(t[a]);
      UpperTU(s[a]);
      assert Upper(s)[a] == 'U';
    }
    if 'U' in r {
      var b :| 0 <= b < |r| && r[b] == 'U';
      UpperTU(t[b]);
      UpperTU(s[b]);
      assert Upper(s)[b] == 'T';
    }
  }

  /** Transcription keeps a sequence acceptable: it swaps T and U, so a sequence with
      only one of them still has only one. */
  lemma TranscribeReadable(s: string)
    requires Readable(s)
    ensures Readable(DnaRnaTools.Transcribe(s))
  {
    var r := DnaRnaTools.Transcribe(s);
    forall i | 0 <= i < |s| ensures IsNucleotide(r[i]) {
      assert IsNucleotide(s[i]);
    }
    TranscribeLetters(s);
  }

  /** A letter of the reversed sequence is a letter of the sequence. */
  lemma ReverseLetters(s: string, c: char)
    ensures c in Upper(DnaRnaTools.Reverse(s)) ==> c in Upper(s)
  {
    var r := Upper(DnaRnaTools.Reverse(s));
    if c in r {
      var a :| 0 <= a < |r| && r[a] == c;
      assert Upper(s)[|s| - 1 - a] == c;
    }
  }

  /** Reversal keeps a sequence acceptable: it only moves letters around. */
  lemma ReverseReadable(s: string)
    requires Readable(s)
    ensures Readable(DnaRnaTools.Reverse(s))
  {
    var r := DnaRnaTools.Reverse(s);
    forall i | 0 <= i < |s| ensures IsNucleotide(r[i]) {
      assert IsNucleotide(s[|s| - 1 - i]);
    }
    ReverseLetters(s, 'T');
    ReverseLetters(s, 'U');
  }

  /** The complement of an acceptable sequence is acceptable: it holds no U at all. */
  lemma ComplementReadable(s: string)
    requires Complementable(s)
    ensures Readable(DnaRnaTools.Complement(s))
  {
    var r := DnaRnaTools.Complement(s);
    var u := Upper(r);
    forall i | 0 <= i < |s| ensures IsNucleotide(r[i]) && u[i] != 'U' {
      PairedLetter(r[i]);
    }
    assert 'U' !in u;
  }

  /** A letter a base pairs with is a nucleotide, and never U in either case. */
  lemma PairedLetter(c: char)
    requires c in "ATGCatgc"
    ensures IsNucleotide(c) && UpperChar(c) != 'U'
  {
  }

  /** Every transform turns an accepted sequence into one the tools accept again, so
      the tools can be chained. */
  lemma ApplyReadable(tool: Tool, s: string)
    requires Readable(s)
    ensures Readable(Apply(tool, s))
  {
    ReadableComplementable(s);
    match tool
    case Transcribe => TranscribeReadable(s);
    case Reverse => ReverseReadable(s);
    case Complement => ComplementReadable(s);
    case ReverseComplement =>
      ComplementReadable(s);
      ReverseReadable(DnaRnaTools.Complement(s));
  }

  /** What `run_dna_rna_tools` returns: the bare result for a single sequence,
      otherwise the list of results (`None` for a rejected sequence). */
  datatype DnaOutput = Single(result: Option<string>) | Many(results: seq<Option<string>>)

  /** The result for one sequence: `None` if it is rejected, the transform if it is
      accepted, and a missing key if the tool name is unknown. */
  function ResultFor(s: string, tool: Option<Tool>): Result<Option<string>> {
    if !Readable(s) then Success(None)
    else if tool.None? then Failure(KeyError)
    else Success(Some(Apply(tool.value, s)))
  }

  /** `run_dna_rna_tools(*args)`: the last argument names the tool, the others are the
      sequences. No arguments at all cannot be unpacked; an unknown tool name fails
      at the first accepted sequence. Otherwise there is one result per sequence, in
      order, and the warning is shown exactly when some sequence was rejected. */
  method RunDnaRnaTools(args: seq<string>) returns (r: Result<DnaOutput>, warning: bool)
    ensures args == [] ==> r == Failure(ValueError)
    ensures args != [] ==>
      var seqs, tool := args[..|args| - 1], ToolNamed(args[|args| - 1]);
      && (r.Failure? <==> tool.None? && exists i :: 0 <= i < |seqs| && Readable(seqs[i]))
      && (r.Failure? ==> r.error == KeyError)
      && (r.Success? ==>
            && (r.value.Single? <==> |seqs| == 1)
            && (r.value.Single? ==> r.value.result == ResultFor(seqs[0], tool).value)
            && (r.value.Many? ==>
                  && |r.value.results| == |seqs|
                  && forall i :: 0 <= i < |seqs| ==> r.value.results[i] == ResultFor(seqs[i], tool).value)
            && (warning <==> exists i :: 0 <= i < |seqs| && !Readable(seqs[i])))
  {
    if args == [] {
      return Failure(ValueError), false;
    }
    var seqs := args[..|args| - 1];
    var functionName := args[|args| - 1];
    var tool := ToolNamed(functionName);
    var resultList: seq<Option<string>> := [];
    var showWarningMessage := false;
    for j := 0 to |seqs|
      invariant |resultList| == j
      invariant forall i :: 0 <= i < j ==> ResultFor(seqs[i], tool).Success?
      invariant forall i :: 0 <= i < j ==> resultList[i] == ResultFor(seqs[i], tool).value
      invariant showWarningMessage <==> exists i :: 0 <= i < j && !Readable(seqs[i])
    {
      var s := seqs[j];
      if !Readable(s) {
        assert ResultFor(s, tool) == Success(None);
        resultList := resultList + [None];
        showWarningMessage := true;
      } else {
        if tool.None? {
          return Failure(KeyError), false;
        }
        var res := Apply(tool.value, s);
        assert ResultFor(s, tool) == Success(Some(res));
        resultList := resultList + [Some(res)];
      }
    }
    warning := showWarningMessage;
    if |resultList| == 1 {
      return Success(Single(resultList[0])), warning;
    }
    return Success(Many(resultList)), warning;
  }
}
