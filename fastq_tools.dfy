/** FASTQ reads: the Phred+33 quality table, GC content, the per-read checks used by
    the filter, reading a FASTQ file and writing reads back out. */
module FastqTools {
  import opened Wrappers
  import opened Text
  import opened PyDict
  import opened DnaRnaTools

  /** Phred+33: each character from `!` to `I` with its code point and the quality it encodes. */
  const AsciiQScore: map<char, seq<int>> := map[
    '!' := [33, 0], '"' := [34, 1], '#' := [35, 2], '$' := [36, 3], '%' := [37, 4], '&' := [38, 5],
    '\'' := [39, 6], '(' := [40, 7], ')' := [41, 8], '*' := [42, 9], '+' := [43, 10], ',' := [44, 11],
    '-' := [45, 12], '.' := [46, 13], '/' := [47, 14], '0' := [48, 15], '1' := [49, 16], '2' := [50, 17],
    '3' := [51, 18], '4' := [52, 19], '5' := [53, 20], '6' := [54, 21], '7' := [55, 22], '8' := [56, 23],
    '9' := [57, 24], ':' := [58, 25], ';' := [59, 26], '<' := [60, 27], '=' := [61, 28], '>' := [62, 29],
    '?' := [63, 30], '@' := [64, 31], 'A' := [65, 32], 'B' := [66, 33], 'C' := [67, 34], 'D' := [68, 35],
    'E' := [69, 36], 'F' := [70, 37], 'G' := [71, 38], 'H' := [72, 39], 'I' := [73, 40]]

  /** Reads by name; each name maps to its (sequence, quality) pair. */
  type Reads = Dict<string, (string, string)>

  /** The table's keys are exactly the characters from `!` to `I`. */
  lemma AsciiQScoreKeys(c: char)
    ensures c in AsciiQScore <==> '!' <= c <= 'I'
  {
  }

  /** Each entry holds the character's code point and that code point minus 33. */
  lemma AsciiQScoreValues(c: char)
    requires c in AsciiQScore
    ensures AsciiQScore[c] == [c as int, c as int - 33]
  {
  }

  /** The quality a character encodes: `ASCII_Q_SCORE[c][1]`. */
  function Phred(c: char): (q: int)
    requires c in AsciiQScore
    ensures q == c as int - 33 && 0 <= q <= 40
  {
    AsciiQScoreKeys(c);
    AsciiQScoreValues(c);
    AsciiQScore[c][1]
  }

  // ---------------------------------------------------------------------------
  // GC content

  /** A G or a C, in either case. */
  predicate IsGc(c: char) {
    UpperChar(c) == 'G' || UpperChar(c) == 'C'
  }

  /** The number of G and C letters, in either case. */
  function GcCount(s: string): (n: nat)
    ensures n <= |s|
  {
    if s == [] then 0 else GcCount(s[..|s| - 1]) + (if IsGc(s[|s| - 1]) then 1 else 0)
  }

  /** Appending one character adds one to the count exactly when it is a G or a C. */
  lemma GcCountSnoc(s: string, c: char)
    ensures GcCount(s + [c]) == GcCount(s) + (if IsGc(c) then 1 else 0)
  {
    assert (s + [c])[..|s|] == s;
  }

  /** The count is what the source computes: `seq.upper().count('G') + seq.upper().count('C')`. */
  lemma {:induction false} GcCountUpper(s: string)
    ensures GcCount(s) == Count(Upper(s), 'G') + Count(Upper(s), 'C')
  {
    if s != [] {
      var s' := s[..|s| - 1];
      GcCountUpper(s');
      assert Upper(s)[..|s| - 1] == Upper(s');
    }
  }

  /** The count over a concatenation is the sum of the counts. */
  lemma {:induction false} GcCountConcat(a: string, b: string)
    ensures GcCount(a + b) == GcCount(a) + GcCount(b)
  {
    if b == [] {
      assert a + b == a;
    } else {
      var b' := b[..|b| - 1];
      GcCountConcat(a, b');
      assert a + b == (a + b') + [b[|b| - 1]];
      assert b == b' + [b[|b| - 1]];
      GcCountSnoc(a + b', b[|b| - 1]);
      GcCountSnoc(b', b[|b| - 1]);
    }
  }

  /** The count is zero exactly when there is no G or C. */
  lemma {:induction false} GcCountZero(s: string)
    ensures GcCount(s) == 0 <==> forall i :: 0 <= i < |s| ==> !IsGc(s[i])
  {
    if s != [] {
      var s' := s[..|s| - 1];
      GcCountZero(s');
      assert s == s' + [s[|s| - 1]];
      GcCountSnoc(s', s[|s| - 1]);
    }
  }

  /** The count is the full length exactly when every character is a G or a C. */
  lemma {:induction false} GcCountFull(s: string)
    ensures GcCount(s) == |s| <==> forall i :: 0 <= i < |s| ==> IsGc(s[i])
  {
    if s != [] {
      var s' := s[..|s| - 1];
      GcCountFull(s');
      assert s == s' + [s[|s| - 1]];
      GcCountSnoc(s', s[|s| - 1]);
    }
  }

  /** One character counts one exactly when it is a G or a C. */
  lemma GcCountSingle(c: char)
    ensures GcCount([c]) == if IsGc(c) then 1 else 0
  {
    GcCountSnoc([], c);
    assert [] + [c] == [c];
  }

  /** `calculate_gc_content`: the percentage of G and C letters; an empty sequence
      divides by zero. */
  function GcContent(s: string): (r: Result<real>)
    ensures r.Failure? <==> s == []
    ensures r.Failure? ==> r.error == ZeroDivisionError
    ensures r.Success? ==> 0.0 <= r.value <= 100.0
  {
    if s == [] then Failure(ZeroDivisionError)
    else
      Percentage(GcCount(s), |s|);
      Success(GcCount(s) as real / |s| as real * 100.0)
  }

  /** `n / total * 100` lies between 0 and 100, reaching 0 only for `n == 0` and 100
      only for `n == total`. */
  lemma Percentage(n: nat, total: nat)
    requires 0 < total && n <= total
    ensures 0.0 <= n as real / total as real * 100.0 <= 100.0
    ensures n as real / total as real * 100.0 == 0.0 <==> n == 0
    ensures n as real / total as real * 100.0 == 100.0 <==> n == total
  {
    var m, t := n as real, total as real;
    var q := m / t;
    assert q * t == m;
    ProductSign(q, t);
    assert (q - 1.0) * t == m - t;
    ProductSign(q - 1.0, t);
  }

  /** Multiplying by a positive number keeps the sign. */
  lemma ProductSign(x: real, y: real)
    requires y > 0.0
    ensures x * y > 0.0 <==> x > 0.0
    ensures x * y < 0.0 <==> x < 0.0
  {
  }

  /** The content is 0 exactly when there is no G or C, and 100 exactly when there
      is nothing else. */
  lemma GcContentExtremes(s: string)
    requires s != []
    ensures GcContent(s).value == 0.0 <==> forall i :: 0 <= i < |s| ==> !IsGc(s[i])
    ensures GcContent(s).value == 100.0 <==> forall i :: 0 <= i < |s| ==> IsGc(s[i])
  {
    GcCountZero(s);
    GcCountFull(s);
    Percentage(GcCount(s), |s|);
  }

  /** Base pairing sends G and C to C and G, and every other base to A or T. */
  lemma IsGcComplement(c: char)
    requires c in ComplementTable
    ensures IsGc(ComplementTable[c]) <==> IsGc(c)
  {
  }

  /** Complementing swaps G with C and A with T or U, so it keeps the GC count. */
  lemma {:induction false} GcCountComplement(s: string)
    requires Complementable(s)
    ensures GcCount(Complement(s)) == GcCount(s)
  {
    if s != [] {
      var init := s[..|s| - 1];
      assert Complement(s)[..|s| - 1] == Complement(init);
      GcCountComplement(init);
      IsGcComplement(s[|s| - 1]);
    }
  }

  /** Reversing keeps the GC count. */
  lemma {:induction false} GcCountReverse(s: string)
    ensures GcCount(Reverse(s)) == GcCount(s)
  {
    if s != [] {
      GcCountReverse(s[1..]);
      GcCountSnoc(Reverse(s[1..]), s[0]);
      assert s == [s[0]] + s[1..];
      GcCountConcat([s[0]], s[1..]);
      GcCountSingle(s[0]);
    }
  }

  /** GC content depends only on the length and the GC count. */
  lemma GcContentSameCount(a: string, b: string)
    requires |a| == |b| && GcCount(a) == GcCount(b)
    ensures GcContent(a) == GcContent(b)
  {
  }

  /** A sequence, its complement, its reverse and its reverse complement all have the
      same GC content. */
  lemma GcContentStrandInvariant(s: string)
    requires Complementable(s)
    ensures GcContent(Complement(s)) == GcContent(s)
    ensures GcContent(Reverse(s)) == GcContent(s)
    ensures GcContent(ReverseComplement(s)) == GcContent(s)
  {
    var c := Complement(s);
    GcCountComplement(s);
    GcContentSameCount(c, s);
    GcCountReverse(s);
    GcContentSameCount(Reverse(s), s);
    GcCountReverse(c);
    assert ReverseComplement(s) == Reverse(c);
    GcContentSameCount(Reverse(c), s);
  }

  // ---------------------------------------------------------------------------
  // The per-read checks

  /** The GC verdict for one non-empty sequence: its content lies within the bounds. */
  predicate GcInBounds(s: string, gcBounds: (real, real))
    requires s != []
  {
    gcBounds.0 <= GcContent(s).value <= gcBounds.1
  }

  /** The length verdict for one sequence. */
  predicate LengthInBounds(s: string, lengthBounds: (int, int)) {
    lengthBounds.0 <= |s| <= lengthBounds.1
  }

  /** `is_gc_and_length_in_bounds`: for each read in order, the list
      [GC content within bounds, length within bounds]; an empty sequence divides
      by zero. */
  method IsGcAndLengthInBounds(seqs: Reads, gcBounds: (real, real), lengthBounds: (int, int))
    returns (r: Result<Dict<string, seq<bool>>>)
    requires Valid(seqs)
    ensures r.Failure? <==> exists j :: 0 <= j < |seqs| && seqs[j].1.0 == []
    ensures r.Failure? ==> r.error == ZeroDivisionError
    ensures r.Success? ==> Valid(r.value) && Keys(r.value) == Keys(seqs)
    ensures r.Success? ==> forall j :: 0 <= j < |seqs| ==>
      r.value[j].1 == [GcInBounds(seqs[j].1.0, gcBounds), LengthInBounds(seqs[j].1.0, lengthBounds)]
  {
    var result: Dict<string, seq<bool>> := [];
    for j := 0 to |seqs|
      invariant |result| == j
      invariant forall i :: 0 <= i < j ==> seqs[i].1.0 != []
      invariant forall i :: 0 <= i < j ==>
        result[i] == (seqs[i].0, [GcInBounds(seqs[i].1.0, gcBounds), LengthInBounds(seqs[i].1.0, lengthBounds)])
    {
      var key := seqs[j].0;
      var s := seqs[j].1.0;
      var gc := GcContent(s);
      if gc.Failure? {
        return Failure(gc.error);
      }
      assert Find(result, key).None?;
      result := AddVerdicts(result, key, s, gc.value, gcBounds, lengthBounds);
    }
    return Success(result);
  }

  /** The body of `is_gc_and_length_in_bounds`'s loop for a new key: the key is given
      the GC verdict, then the length verdict is appended to its list. */
  method AddVerdicts(result: Dict<string, seq<bool>>, key: string, s: string, gc: real,
                     gcBounds: (real, real), lengthBounds: (int, int))
    returns (result': Dict<string, seq<bool>>)
    requires Find(result, key).None?
    ensures result' == result + [(key, [gcBounds.0 <= gc <= gcBounds.1, LengthInBounds(s, lengthBounds)])]
  {
    var gcOk := gcBounds.0 <= gc <= gcBounds.1;
    if gcOk {
      result' := Put(result, key, [true]);
    } else {
      result' := Put(result, key, [false]);
    }
    assert result' == result + [(key, [gcOk])];
    FindAppend(result, key, [gcOk], key);
    var verdicts := Get(result', key).value;
    var lenOk := lengthBounds.0 <= |s| <= lengthBounds.1;
    assert verdicts + [lenOk] == [gcOk, lenOk];
    if lenOk {
      result' := Put(result', key, verdicts + [true]);
    } else {
      result' := Put(result', key, verdicts + [false]);
    }
    PutLast(result, key, [gcOk], [gcOk, lenOk]);
  }

  /** The sum of a list of integers (`sum`). */
  function Sum(xs: seq<int>): int {
    if xs == [] then 0 else Sum(xs[..|xs| - 1]) + xs[|xs| - 1]
  }

  /** The qualities of a quality string whose characters are all in the table. */
  function Scores(qual: string): (q: seq<int>)
    requires forall i :: 0 <= i < |qual| ==> qual[i] in AsciiQScore
    ensures |q| == |qual| && forall i :: 0 <= i < |qual| ==> q[i] == Phred(qual[i])
  {
    seq(|qual|, i requires 0 <= i < |qual| => Phred(qual[i]))
  }

  /** The quality verdict for one read: a character outside the table is a missing
      key, an empty quality string divides by zero, and otherwise the mean quality is
      compared with the threshold. */
  function QualityVerdict(qual: string, qualityThreshold: int): (r: Result<bool>)
    ensures r.Failure? <==> qual == [] || exists i :: 0 <= i < |qual| && qual[i] !in AsciiQScore
    ensures r.Failure? ==> (r.error == KeyError <==> exists i :: 0 <= i < |qual| && qual[i] !in AsciiQScore)
    ensures r.Failure? ==> r.error in {KeyError, ZeroDivisionError}
  {
    if exists i :: 0 <= i < |qual| && qual[i] !in AsciiQScore then Failure(KeyError)
    else if qual == [] then Failure(ZeroDivisionError)
    else Success(Sum(Scores(qual)) as real / |qual| as real >= qualityThreshold as real)
  }

  /** Dividing by a positive count: the mean reaches `t` exactly when the total
      reaches `t` times the count. */
  lemma MeanAtLeast(total: int, n: int, t: int)
    requires n > 0
    ensures total as real / n as real >= t as real <==> total >= t * n
  {
    var q := total as real / n as real;
    assert q * n as real == total as real;
    assert (q - t as real) * n as real == total as real - (t * n) as real;
    ProductSign(q - t as real, n as real);
  }

  /** The mean-quality test is the sum of the qualities compared with the threshold
      times the length. */
  lemma QualityVerdictSum(qual: string, qualityThreshold: int)
    requires QualityVerdict(qual, qualityThreshold).Success?
    ensures QualityVerdict(qual, qualityThreshold).value <==> Sum(Scores(qual)) >= qualityThreshold * |qual|
  {
    assert qual != [] && forall i :: 0 <= i < |qual| ==> qual[i] in AsciiQScore;
    var total, n, t := Sum(Scores(qual)), |qual|, qualityThreshold;
    assert QualityVerdict(qual, t).value == (total as real / n as real >= t as real);
    MeanAtLeast(total, n, t);
  }

  /** Qualities are never negative, so their sum is not either. */
  lemma {:induction false} SumScoresNonNegative(qual: string)
    requires forall i :: 0 <= i < |qual| ==> qual[i] in AsciiQScore
    ensures Sum(Scores(qual)) >= 0
  {
    if qual != [] {
      var init := qual[..|qual| - 1];
      SumScoresNonNegative(init);
      assert Scores(qual)[..|qual| - 1] == Scores(init);
    }
  }

  /** With the default threshold 0 every read whose quality string is readable passes. */
  lemma QualityZeroThreshold(qual: string)
    requires QualityVerdict(qual, 0).Success?
    ensures QualityVerdict(qual, 0).value
  {
    QualityVerdictSum(qual, 0);
    SumScoresNonNegative(qual);
  }

  /** `is_quality_in_bounds`: for each read in order, whether its mean quality reaches
      the threshold; the first read whose verdict fails decides the error. */
  method IsQualityInBounds(seqs: Reads, qualityThreshold: int) returns (r: Result<Dict<string, bool>>)
    requires Valid(seqs)
    ensures r.Success? <==> forall j :: 0 <= j < |seqs| ==> QualityVerdict(seqs[j].1.1, qualityThreshold).Success?
    ensures r.Failure? ==> exists j :: (0 <= j < |seqs|
      && QualityVerdict(seqs[j].1.1, qualityThreshold) == Failure(r.error)
      && forall i :: 0 <= i < j ==> QualityVerdict(seqs[i].1.1, qualityThreshold).Success?)
    ensures r.Success? ==> Valid(r.value) && Keys(r.value) == Keys(seqs)
    ensures r.Success? ==> forall j :: 0 <= j < |seqs| ==>
      r.value[j].1 == QualityVerdict(seqs[j].1.1, qualityThreshold).value
  {
    var result: Dict<string, bool> := [];
    for j := 0 to |seqs|
      invariant |result| == j
      invariant forall i :: 0 <= i < j ==> QualityVerdict(seqs[i].1.1, qualityThreshold).Success?
      invariant forall i :: 0 <= i < j ==>
        result[i] == (seqs[i].0, QualityVerdict(seqs[i].1.1, qualityThreshold).value)
    {
      var key := seqs[j].0;
      var verdict := ReadQualityVerdict(seqs[j].1.1, qualityThreshold);
      if verdict.Failure? {
        return Failure(verdict.error);
      }
      assert Find(result, key).None?;
      result := Put(result, key, verdict.value);
    }
    return Success(result);
  }

  /** The body of `is_quality_in_bounds`'s loop for one read: the qualities are
      looked up one character at a time, then their mean is compared with the
      threshold. */
  method ReadQualityVerdict(qual: string, qualityThreshold: int) returns (r: Result<bool>)
    ensures r == QualityVerdict(qual, qualityThreshold)
  {
    var qualList: seq<int> := [];
    for k := 0 to |qual|
      invariant forall i :: 0 <= i < k ==> qual[i] in AsciiQScore
      invariant qualList == Scores(qual[..k])
    {
      if qual[k] !in AsciiQScore {
        assert QualityVerdict(qual, qualityThreshold) == Failure(KeyError) by {
          assert 0 <= k < |qual| && qual[k] !in AsciiQScore;
        }
        return Failure(KeyError);
      }
      qualList := qualList + [Phred(qual[k])];
    }
    assert qual[..|qual|] == qual;
    assert !exists i :: 0 <= i < |qual| && qual[i] !in AsciiQScore;
    if |qualList| == 0 {
      return Failure(ZeroDivisionError);
    }
    var meanQual := Sum(qualList) as real / |qualList| as real;
    assert qualList == Scores(qual);
    return Success(meanQual >= qualityThreshold as real);
  }

  // ---------------------------------------------------------------------------
  // Reading and writing FASTQ files

  /** The variables of `read_file`'s loop: the reads stored so far and the last
      name and sequence seen (`None` while never assigned). */
  datatype ReadState = ReadState(seqs: Reads, name: Option<string>, sequence: Option<string>)

  /** Before the first line: nothing stored, no name, no sequence. */
  const Initial := ReadState([], None, None)

  /** Which odd line numbers may hold a name. As written, the test is `i % 3 != 0`,
      which also rejects the name lines 9, 21, 33, ...; the corrected test picks
      exactly the first line of each four-line record. */
  predicate MayBeName(i: nat, corrected: bool) {
    if corrected then i % 4 == 1 else i % 3 != 0
  }

  /** One turn of the loop on line `i` (counted from 1), given the stripped line. */
  function ReadStep(st: ReadState, i: nat, line: string, corrected: bool): Result<ReadState> {
    if i % 4 == 0 then
      if st.name.None? || st.sequence.None? then Failure(NameError)
      else Success(st.(seqs := Put(st.seqs, st.name.value, (st.sequence.value, line))))
    else if i % 2 == 0 then Success(st.(sequence := Some(line)))
    else if MayBeName(i, corrected) && StartsWith(line, "@") then Success(st.(name := Some(line)))
    else Success(st)
  }

  /** The rest of the loop: the stripped lines from position `i` on, read from state
      `st`, stopping at the first error. */
  function ReadRange(st: ReadState, lines: seq<string>, i: nat, corrected: bool): (r: Result<ReadState>)
    requires i <= |lines|
    ensures i == |lines| ==> r == Success(st)
    decreases |lines| - i
  {
    if i == |lines| then Success(st)
    else match ReadStep(st, i + 1, lines[i], corrected)
      case Failure(e) => Failure(e)
      case Success(next) => ReadRange(next, lines, i + 1, corrected)
  }

  /** Once a name is bound, and a sequence too from the second line on, the rest of
      the loop cannot fail. */
  lemma {:induction false} ReadNeverFails(st: ReadState, lines: seq<string>, i: nat, corrected: bool)
    requires i <= |lines| && st.name.Some? && (i >= 2 ==> st.sequence.Some?)
    ensures ReadRange(st, lines, i, corrected).Success?
    decreases |lines| - i
  {
    if i < |lines| {
      var next := ReadStep(st, i + 1, lines[i], corrected).value;
      ReadNeverFails(next, lines, i + 1, corrected);
    }
  }

  /** Reading fails, with an unbound name, exactly when there are at least four lines
      and the first does not start with `@`: only the first line can bind a name
      before the first read is stored, whichever name test is used. */
  lemma ReadFails(lines: seq<string>, corrected: bool)
    ensures var r := ReadRange(Initial, lines, 0, corrected);
      && (r.Failure? <==> |lines| >= 4 && !StartsWith(lines[0], "@"))
      && (r.Failure? ==> r.error == NameError)
  {
    if |lines| > 0 {
      if StartsWith(lines[0], "@") {
        var st1 := Initial.(name := Some(lines[0]));
        assert ReadStep(Initial, 1, lines[0], corrected) == Success(st1);
        ReadNeverFails(st1, lines, 1, corrected);
      } else {
        assert ReadStep(Initial, 1, lines[0], corrected) == Success(Initial);
        if |lines| > 1 {
          var st2 := Initial.(sequence := Some(lines[1]));
          assert ReadRange(Initial, lines, 1, corrected) == ReadRange(st2, lines, 2, corrected);
          if |lines| > 2 {
            assert !MayBeName(3, corrected);
            assert ReadRange(st2, lines, 2, corrected) == ReadRange(st2, lines, 3, corrected);
          }
        }
      }
    }
  }

  /** What the loop keeps true of its state after `i` of the stripped lines: the keys
      are distinct, at most one read is stored per four lines, and the bound name and
      every key are lines starting with `@`. */
  predicate Stored(st: ReadState, lines: seq<string>, i: nat) {
    && Valid(st.seqs) && |st.seqs| <= i / 4
    && (st.name.Some? ==> StartsWith(st.name.value, "@") && st.name.value in lines)
    && forall j :: 0 <= j < |st.seqs| ==> StartsWith(st.seqs[j].0, "@") && st.seqs[j].0 in lines
  }

  /** Every turn of the loop keeps `Stored`. */
  lemma {:induction false} ReadStores(st: ReadState, lines: seq<string>, i: nat, corrected: bool)
    requires i <= |lines| && Stored(st, lines, i) && ReadRange(st, lines, i, corrected).Success?
    ensures Stored(ReadRange(st, lines, i, corrected).value, lines, |lines|)
    decreases |lines| - i
  {
    if i < |lines| {
      if (i + 1) % 4 == 0 {
        PutSpec(st.seqs, st.name.value, (st.sequence.value, lines[i]));
      }
      var next := ReadStep(st, i + 1, lines[i], corrected).value;
      ReadStores(next, lines, i + 1, corrected);
    }
  }

  /** `read_file` as the loop over all the lines: the reads it stores, or its error.
      It fails, with an unbound name, exactly when there are at least four lines and
      the first does not start with `@`; otherwise it stores at most one read per
      four lines, under distinct names that are stripped lines starting with `@`. */
  function ReadResult(lines: seq<string>, corrected: bool): (r: Result<Reads>)
    ensures r.Failure? <==> |lines| >= 4 && !StartsWith(Strip(lines[0]), "@")
    ensures r.Failure? ==> r.error == NameError
    ensures r.Success? ==> Valid(r.value) && |r.value| <= |lines| / 4
    ensures r.Success? ==> forall j :: 0 <= j < |r.value| ==>
      StartsWith(r.value[j].0, "@") && IsStripped(r.value[j].0)
  {
    var stripped := StripAll(lines);
    ReadFails(stripped, corrected);
    match ReadRange(Initial, stripped, 0, corrected)
    case Failure(e) => Failure(e)
    case Success(st) =>
      ReadStores(Initial, stripped, 0, corrected);
      assert forall j :: 0 <= j < |st.seqs| ==> IsStripped(st.seqs[j].0) by {
        forall j | 0 <= j < |st.seqs| ensures IsStripped(st.seqs[j].0) {
          var m :| 0 <= m < |stripped| && stripped[m] == st.seqs[j].0;
        }
      }
      Success(st.seqs)
  }

  /** `read_file`: each line is stripped; the fourth line of a record stores
      (sequence, quality) under the last name, the second sets the sequence, and an
      odd line that passes the name test sets the name when it starts with `@`. With
      `corrected` false the name test is the original `i % 3 != 0`; with it true, the
      first line of each record. */
  method ReadFile(lines: seq<string>, corrected: bool) returns (r: Result<Reads>)
    ensures r == ReadResult(lines, corrected)
  {
    var seqs: Reads := [];
    var name: Option<string> := None;
    var sequence: Option<string> := None;
    ghost var stripped := StripAll(lines);
    for i := 1 to |lines| + 1
      invariant ReadRange(ReadState(seqs, name, sequence), stripped, i - 1, corrected) ==
        ReadRange(Initial, stripped, 0, corrected)
    {
      var line := Strip(lines[i - 1]);
      if i % 4 == 0 {
        if name.None? || sequence.None? {
          return Failure(NameError);
        }
        var qual := line;
        seqs := Put(seqs, name.value, (sequence.value, qual));
      } else if i % 2 == 0 {
        sequence := Some(line);
      } else if (if corrected then i % 4 == 1 else i % 3 != 0) && StartsWith(line, "@") {
        name := Some(line);
      }
    }
    return Success(seqs);
  }

  /** `save_results`: the reads are written, in order, four lines each, to
      `fastq_filtrator_results/<output_filename>.fastq`. */
  method SaveResults(filteredFastqSeqs: Reads, outputFilename: string) returns (file: FileWrite)
    ensures file.path == PathJoin("fastq_filtrator_results", outputFilename + ".fastq")
    ensures file.lines == FastqLines(filteredFastqSeqs)
  {
    var dirName := "fastq_filtrator_results";
    var written: seq<string> := [];
    for j := 0 to |filteredFastqSeqs|
      invariant written == FastqLines(filteredFastqSeqs[..j])
    {
      var (name, (s, qual)) := filteredFastqSeqs[j];
      written := written + [name];
      written := written + [s];
      written := written + ["+"];
      written := written + [qual];
      assert filteredFastqSeqs[..j + 1][..j] == filteredFastqSeqs[..j];
    }
    assert filteredFastqSeqs[..|filteredFastqSeqs|] == filteredFastqSeqs;
    file := FileWrite(PathJoin(dirName, outputFilename + ".fastq"), written);
  }
  /** The four lines `save_results` writes for each read: name, sequence, `+`, quality. */
  function FastqLines(records: Reads): (lines: seq<string>)
    ensures |lines| == 4 * |records|
  {
    if records == [] then []
    else
      var (name, (s, qual)) := records[|records| - 1];
      FastqLines(records[..|records| - 1]) + [name, s, "+", qual]
  }

  /** The four lines written for read `k` sit at positions `4k` to `4k + 3`. */
  lemma {:induction false} FastqLinesAt(records: Reads, k: nat)
    requires k < |records|
    ensures var lines := FastqLines(records);
      && lines[4 * k] == records[k].0 && lines[4 * k + 1] == records[k].1.0
      && lines[4 * k + 2] == "+" && lines[4 * k + 3] == records[k].1.1
  {
    if k < |records| - 1 {
      FastqLinesAt(records[..|records| - 1], k);
    }
  }


  /** The positions of the four lines of a record that starts after line `n`. */
  lemma RecordLineNumbers(n: nat)
    requires n % 4 == 0
    ensures (n + 1) % 4 == 1 && (n + 1) % 2 == 1 && (n + 2) % 4 == 2 && (n + 2) % 2 == 0
    ensures (n + 3) % 4 == 3 && (n + 3) % 2 == 1 && (n + 4) % 4 == 0
  {
    var q := n / 4;
    assert n == 4 * q;
    RemainderOfFour(n + 1, q, 1);
    RemainderOfFour(n + 2, q, 2);
    RemainderOfFour(n + 3, q, 3);
    RemainderOfFour(n + 4, q + 1, 0);
    RemainderOfTwo(n + 1, 2 * q, 1);
    RemainderOfTwo(n + 2, 2 * q + 1, 0);
    RemainderOfTwo(n + 3, 2 * q + 1, 1);
  }

  /** `4 * q + r` with `0 <= r < 4` leaves remainder `r` modulo 4. */
  lemma RemainderOfFour(x: int, q: int, r: int)
    requires 0 <= r < 4 && x == 4 * q + r
    ensures x % 4 == r
  {
  }

  /** `2 * q + r` with `0 <= r < 2` leaves remainder `r` modulo 2. */
  lemma RemainderOfTwo(x: int, q: int, r: int)
    requires 0 <= r < 2 && x == 2 * q + r
    ensures x % 2 == r
  {
  }

  /** Reading one four-line record from state `st`: the name line binds the name if
      the name test lets it through, and the quality line stores the read under
      whatever name is then bound. */
  lemma ReadRecord(st: ReadState, lines: seq<string>, n: nat, corrected: bool)
    requires n % 4 == 0 && n + 4 <= |lines|
    requires StartsWith(lines[n], "@") && !StartsWith(lines[n + 2], "@")
    ensures var bound := if MayBeName(n + 1, corrected) then Some(lines[n]) else st.name;
      ReadRange(st, lines, n, corrected) ==
        if bound.None? then Failure(NameError)
        else ReadRange(ReadState(Put(st.seqs, bound.value, (lines[n + 1], lines[n + 3])), bound, Some(lines[n + 1])),
                       lines, n + 4, corrected)
  {
    RecordLineNumbers(n);
    var st1 := if MayBeName(n + 1, corrected) then st.(name := Some(lines[n])) else st;
    assert ReadStep(st, n + 1, lines[n], corrected) == Success(st1);
    var st2 := st1.(sequence := Some(lines[n + 1]));
    assert ReadStep(st1, n + 2, lines[n + 1], corrected) == Success(st2);
    assert ReadStep(st2, n + 3, lines[n + 2], corrected) == Success(st2);
    assert ReadRange(st, lines, n, corrected) == ReadRange(st1, lines, n + 1, corrected);
    assert ReadRange(st1, lines, n + 1, corrected) == ReadRange(st2, lines, n + 2, corrected);
    assert ReadRange(st2, lines, n + 2, corrected) == ReadRange(st2, lines, n + 3, corrected);
  }

  /** Well-formed reads: distinct names, each a stripped line starting with `@`, and
      stripped sequences and qualities, none of them holding a line break. */
  predicate WellFormed(records: Reads) {
    && Valid(records)
    && forall j :: 0 <= j < |records| ==>
      StartsWith(records[j].0, "@") && IsStripped(records[j].0)
      && IsStripped(records[j].1.0) && IsStripped(records[j].1.1)
      && NoLineBreak(records[j].0) && NoLineBreak(records[j].1.0) && NoLineBreak(records[j].1.1)
  }

  /** Every line written for well-formed reads is already stripped, so stripping the
      lines again when reading them changes nothing. */
  lemma FastqLinesStripped(records: Reads)
    requires WellFormed(records)
    ensures StripAll(FastqLines(records)) == FastqLines(records)
  {
    var lines := FastqLines(records);
    forall i | 0 <= i < |lines| ensures Strip(lines[i]) == lines[i] {
      FastqLinesAt(records, i / 4);
      StripStripped(lines[i]);
    }
  }

  /** When the name test admits the first line of record `k`, the four lines written
      for read `k` add it to a state holding the reads before it. */
  lemma ReadFastqRecord(records: Reads, k: nat, st: ReadState, corrected: bool)
    requires WellFormed(records) && k < |records| && st.seqs == records[..k]
    requires MayBeName(4 * k + 1, corrected)
    ensures ReadRange(st, FastqLines(records), 4 * k, corrected) ==
      ReadRange(ReadState(records[..k + 1], Some(records[k].0), Some(records[k].1.0)), FastqLines(records), 4 * (k + 1), corrected)
  {
    var lines := FastqLines(records);
    var (name, (s, qual)) := records[k];
    var n := 4 * k;
    FastqLinesAt(records, k);
    assert lines[n] == name && lines[n + 1] == s && lines[n + 2] == "+" && lines[n + 3] == qual;
    assert !StartsWith("+", "@");
    RemainderOfFour(n, k, 0);
    ReadRecord(st, lines, n, corrected);
    PutNext(records, k);
    var next := ReadState(records[..k + 1], Some(name), Some(s));
    assert ReadRange(st, lines, n, corrected) == ReadRange(next, lines, n + 4, corrected);
    assert n + 4 == 4 * (k + 1);
  }

  /** With the corrected name test, reading the lines written for reads `k` onwards,
      from any state holding the first `k` reads, ends holding all of them. */
  lemma {:induction false} ReadFastqFrom(records: Reads, k: nat, st: ReadState)
    requires WellFormed(records) && k <= |records| && st.seqs == records[..k]
    ensures ReadRange(st, FastqLines(records), 4 * k, true).Success?
    ensures ReadRange(st, FastqLines(records), 4 * k, true).value.seqs == records
    decreases |records| - k
  {
    var lines := FastqLines(records);
    if k == |records| {
      assert records[..k] == records;
      assert ReadRange(st, lines, 4 * k, true) == Success(st);
    } else {
      var next := ReadState(records[..k + 1], Some(records[k].0), Some(records[k].1.0));
      RemainderOfFour(4 * k + 1, k, 1);
      ReadFastqRecord(records, k, st, true);
      ReadFastqFrom(records, k + 1, next);
    }
  }

  /** With the corrected name test, reading back what `save_results` writes gives the
      same reads in the same order. */
  lemma ReadFastqLines(records: Reads)
    requires WellFormed(records)
    ensures ReadResult(FastqLines(records), true) == Success(records)
  {
    FastqLinesStripped(records);
    ReadFastqFrom(records, 0, Initial);
  }

  /** As written, the name test rejects line 9, so the third read's lines store it
      under the name still bound from the second read. */
  lemma ReadThirdAsWritten(records: Reads)
    requires WellFormed(records) && |records| == 3
    ensures var st2 := ReadState(records[..2], Some(records[1].0), Some(records[1].1.0));
      ReadRange(st2, FastqLines(records), 8, false) ==
        Success(ReadState([records[0], (records[1].0, records[2].1)], Some(records[1].0), Some(records[2].1.0)))
  {
    var lines := FastqLines(records);
    var r0, r1, r2 := records[0], records[1], records[2];
    var st2 := ReadState(records[..2], Some(r1.0), Some(r1.1.0));
    FastqLinesAt(records, 2);
    assert !StartsWith("+", "@");
    assert !MayBeName(9, false);
    ReadRecord(st2, lines, 8, false);
    assert records[..2] == [r0, r1];
    assert Find([r0, r1], r1.0) == Some(1);
    assert Put([r0, r1], r1.0, (r2.1.0, r2.1.1)) == [r0, (r1.0, r2.1)];
  }

  /** As written, the name test rejects line 9, so of three reads the third is stored
      under the second one's name and the second is lost. */
  lemma ReadThreeRecordsAsWritten(records: Reads)
    requires WellFormed(records) && |records| == 3
    ensures ReadResult(FastqLines(records), false) ==
      Success([records[0], (records[1].0, records[2].1)])
  {
    var lines := FastqLines(records);
    FastqLinesStripped(records);
    assert records[..0] == [];
    assert MayBeName(1, false) && MayBeName(5, false);
    ReadFastqRecord(records, 0, Initial, false);
    var st1 := ReadState(records[..1], Some(records[0].0), Some(records[0].1.0));
    ReadFastqRecord(records, 1, st1, false);
    ReadThirdAsWritten(records);
    var st2 := ReadState(records[..2], Some(records[1].0), Some(records[1].1.0));
    var last := ReadState([records[0], (records[1].0, records[2].1)], Some(records[1].0), Some(records[2].1.0));
    assert ReadRange(Initial, lines, 0, false) == ReadRange(st1, lines, 4, false);
    assert ReadRange(st1, lines, 4, false) == ReadRange(st2, lines, 8, false);
    assert ReadRange(Initial, StripAll(lines), 0, false) == Success(last);
  }

  /** A concrete file on which the reader as written loses a read. */
  lemma ReadAsWrittenLosesRead()
    ensures var records := [("@r1", ("ACGT", "IIII")), ("@r2", ("GGCC", "IIII")), ("@r3", ("TTAA", "IIII"))];
      && ReadResult(FastqLines(records), true) == Success(records)
      && ReadResult(FastqLines(records), false) == Success([("@r1", ("ACGT", "IIII")), ("@r2", ("TTAA", "IIII"))])
  {
    var records := [("@r1", ("ACGT", "IIII")), ("@r2", ("GGCC", "IIII")), ("@r3", ("TTAA", "IIII"))];
    assert WellFormed(records);
    ReadFastqLines(records);
    ReadThreeRecordsAsWritten(records);
  }
}
