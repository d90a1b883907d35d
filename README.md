# Bioinformatics toolkit: a Dafny model

This project models the core of a small bioinformatics toolkit written in Python:

- **Nucleotide transforms** (`src/dna_rna_tools.py`): transcription (T and U swap places), complement (base pairing through a table, case kept), reversal and reverse complement.
- **Protein validity** (`src/protein_tools.py`): the amino-acid name table, the RNA codon table, and the check that a string uses only amino-acid letters and `*`.
- **FASTQ reads** (`src/fastq_tools.py`):
  - the Phred+33 quality table;
  - GC content as a percentage;
  - the per-read GC, length and mean-quality verdicts;
  - reading a FASTQ file four lines per read, and writing reads back out.
- **The front end** (`ultimate_tools.py`):
  - `filter_fastq_seqs` reads a FASTQ file, normalises and checks the bounds, keeps the reads that pass all three checks, and saves them;
  - `run_dna_rna_tools` applies one named transform to several sequences, turning sequences it cannot read into `None` with a warning.
- **FASTA conversion** (`bio_files_processor.py`): `convert_multiline_fasta_to_oneline` joins the sequence lines under each `>` header and writes every record as two lines.

## How Python is modelled

- A Python `dict` is an insertion-ordered sequence of pairs with distinct keys (module `PyDict`). Assigning to an existing key replaces its value in place; a new key is appended.
- Exceptions become `Result` values. `PyError` names the four exceptions the code can raise:
  - `NameError`: a loop variable read before it is assigned;
  - `KeyError`: a table lookup with a missing key;
  - `ZeroDivisionError`: a mean or a percentage over an empty string;
  - `ValueError`: rejected bounds, or no arguments to unpack.
- Files are lines: a reader receives the lines of its input file. A writer returns a `FileWrite` holding the path it would open and the lines it would write.
- Each loop is a method with loop invariants. Each method is either proved equal to a specification function (a fold over the stripped lines, or a filter), about which the lemmas state what it does, or given ensures that state its result read by read.

Modules: `Wrappers`, `Text` (strip, startswith, join, count, upper and lower), `PyDict`, `DnaRnaTools`, `ProteinTools`, `FastqTools`, `UltimateTools` and `BioFilesProcessor`.

## Model

| member | source | states |
|---|---|---|
| Text.Strip | src/fastq_tools.py:182 | `str.strip()` leaves a string with no whitespace at either end, and never a longer one |
| Text.StripSlice | bio_files_processor.py:18 | strip removes only whitespace, and only from the two ends: the result is a slice of the line with whitespace on both sides of it |
| Text.StripBlank | bio_files_processor.py:18 | a line strips to the empty string exactly when it is blank |
| Text.JoinEmpty | bio_files_processor.py:21 | `''.join(parts)` is empty exactly when every part is empty |
| Text.Count | src/fastq_tools.py:103 | `s.count(c)` is the multiplicity of `c` in `s`, at most `len(s)` |
| Text.PathJoin | src/fastq_tools.py:205 | `os.path.join(dir, name)`: an absolute name replaces the directory; otherwise the result starts with the directory and ends with the name |
| PyDict.Get | ultimate_tools.py:53-56 | `d[k]` for a key that is present; absent exactly when no entry has key `k`; in a dict with distinct keys it is that entry's value |
| PyDict.PutSpec | bio_files_processor.py:21 | after `d[k] = v`: `k` holds `v`; every other key keeps its value; the keys stay distinct; existing keys keep their positions; the dict grows exactly when `k` was new |
| PyDict.FilterGet | ultimate_tools.py:51-56 | a dict comprehension that keeps flagged entries holds a key exactly when the key's entry is flagged, with its value unchanged |
| PyDict.FilterValid | ultimate_tools.py:51-56 | filtering keeps the keys distinct |
| DnaRnaTools.Transcribe | src/dna_rna_tools.py:26-27 | T and U, and t and u, trade places; every other character is kept; the length is kept |
| DnaRnaTools.TranscribeInvolution | src/dna_rna_tools.py:15-27 | transcribing twice gives back the original sequence (DNA to RNA and back) |
| DnaRnaTools.Complement | src/dna_rna_tools.py:41 | each character is replaced by its table partner, position by position; the case and the length are kept, and the result holds no U |
| DnaRnaTools.ComplementChecked | src/dna_rna_tools.py:30-41 | `complement` fails with a missing key exactly when some character is not in the table; otherwise it is the complement |
| DnaRnaTools.PairsBack | src/dna_rna_tools.py:6-12 | every base except U pairs back with itself |
| DnaRnaTools.ComplementInvolution | src/dna_rna_tools.py:6-12 | on strings without U, complementing twice gives back the original |
| DnaRnaTools.ComplementOfUracil | src/dna_rna_tools.py:11 | with U it does not: U complements to A, which complements to T |
| DnaRnaTools.Reverse | src/dna_rna_tools.py:55 | `seq[::-1]`: position `i` of the result holds position `len(s)-1-i` of the input |
| DnaRnaTools.ReverseInvolution | src/dna_rna_tools.py:44-55 | reversing twice gives back the original |
| DnaRnaTools.ReverseComplement | src/dna_rna_tools.py:69 | the reversed complement is also the complement of the reversed sequence; position `i` holds the partner of position `len(s)-1-i` |
| DnaRnaTools.ReverseComplementChecked | src/dna_rna_tools.py:58-69 | `reverse_complement` fails with a missing key exactly when some character is not in the complement table |
| ProteinTools.IsProteinValid | src/protein_tools.py:62 | a sequence is valid exactly when each of its characters is a key of the codon table |
| ProteinTools.RnaAaTableKeys | src/protein_tools.py:26-48 | the codon table's keys are the twenty amino-acid letters in each case, and `*` |
| ProteinTools.ProteinValidConcat | src/protein_tools.py:62 | the empty sequence is valid, and a concatenation is valid exactly when both parts are |
| ProteinTools.ProteinValidLower | src/protein_tools.py:27-47 | lowercasing keeps a valid protein valid, because every uppercase key has a lowercase counterpart |
| ProteinTools.AminoacidDictKeys | src/protein_tools.py:3-24 | every amino acid with a name is also a key of the codon table |
| ProteinTools.CodonShape | src/protein_tools.py:27-47 | every listed codon is three RNA bases: the uppercase keys and the first three stop codons list uppercase codons that encode their key under the standard genetic code, and all other rows list lowercase codons |
| ProteinTools.UpperCodonsDisjoint | src/protein_tools.py:27-47 | no uppercase codon is listed under two different keys |
| ProteinTools.UpperCodonsCover | src/protein_tools.py:26-48 | each of the 64 uppercase codons is listed, under the key the genetic code assigns to it |
| FastqTools.AsciiQScoreKeys | src/fastq_tools.py:5-47 | the quality table's keys are exactly the characters `!` to `I` |
| FastqTools.AsciiQScoreValues | src/fastq_tools.py:5-47 | each entry holds the character's code point and that code point minus 33 |
| FastqTools.Phred | src/fastq_tools.py:163 | the quality a character encodes is its code point minus 33, between 0 and 40 |
| FastqTools.GcCountUpper | src/fastq_tools.py:103 | the GC count equals `seq.upper().count('G') + seq.upper().count('C')` |
| FastqTools.GcContent | src/fastq_tools.py:90-103 | the GC percentage fails with a division by zero exactly on the empty sequence, and otherwise lies between 0 and 100 |
| FastqTools.Percentage | src/fastq_tools.py:103 | `n / total * 100` lies in [0, 100]; it is 0 only for `n == 0` and 100 only for `n == total` |
| FastqTools.GcContentExtremes | src/fastq_tools.py:103 | the content is 0 exactly when there is no G or C, and 100 exactly when there is nothing else |
| FastqTools.GcCountComplement | src/fastq_tools.py:103 | complementing keeps the GC count |
| FastqTools.GcCountReverse | src/fastq_tools.py:103 | reversing keeps the GC count |
| FastqTools.GcContentStrandInvariant | src/fastq_tools.py:103 | a sequence, its complement, its reverse and its reverse complement have the same GC content |
| FastqTools.IsGcAndLengthInBounds | src/fastq_tools.py:126-137 | each read, in order and under the same key, maps to [GC content within bounds, length within bounds]; it fails with a division by zero exactly when some sequence is empty |
| FastqTools.AddVerdicts | src/fastq_tools.py:128-136 | for a new key, the loop body appends one entry: the key with [GC verdict, length verdict] |
| FastqTools.QualityVerdict | src/fastq_tools.py:160-168 | one read's verdict is a missing key exactly when a quality character is outside the table; otherwise an empty quality string divides by zero |
| FastqTools.QualityVerdictSum | src/fastq_tools.py:164-168 | the mean quality reaches the threshold exactly when the sum of the qualities reaches threshold × length |
| FastqTools.MeanAtLeast | src/fastq_tools.py:164-165 | for a positive count, `total / n >= t` exactly when `total >= t * n` |
| FastqTools.QualityZeroThreshold | src/fastq_tools.py:142 | with the default threshold 0, every read whose quality string is readable passes |
| FastqTools.IsQualityInBounds | src/fastq_tools.py:158-169 | each read, in order and under the same key, maps to its quality verdict; it fails exactly when some verdict fails, with the error of the first one |
| FastqTools.ReadQualityVerdict | src/fastq_tools.py:160-168 | the inner loop that looks up each quality, then compares the mean, computes that read's verdict |
| FastqTools.ReadNeverFails | src/fastq_tools.py:183-189 | once a name is bound, and a sequence too from the second line on, the rest of the reading loop cannot fail |
| FastqTools.ReadFails | src/fastq_tools.py:183-189 | reading fails, with an unbound name, exactly when there are at least four lines and the first does not start with `@`, whichever name test is used |
| FastqTools.ReadStores | src/fastq_tools.py:181-190 | every turn of the loop keeps the keys distinct, stores at most one read per four lines, and binds only lines starting with `@` |
| FastqTools.ReadResult | src/fastq_tools.py:172-190 | `read_file` fails with an unbound name exactly when there are at least four lines and the first does not start with `@`; otherwise it stores at most ⌊n/4⌋ reads, under distinct stripped names starting with `@` |
| FastqTools.ReadFile | src/fastq_tools.py:179-190 | the reading loop computes `ReadResult`, with the name test as written (`i % 3 != 0`) or corrected (`i % 4 == 1`) as its flag selects |
| FastqTools.ReadRecord | src/fastq_tools.py:183-189 | one four-line record: the name line binds the name if the name test admits it, and the quality line stores (sequence, quality) under the name then bound |
| FastqTools.SaveResults | src/fastq_tools.py:201-211 | the reads are written in order, four lines each, to `fastq_filtrator_results/<name>.fastq` |
| FastqTools.FastqLinesAt | src/fastq_tools.py:206-210 | read `k` is written at lines `4k` to `4k+3`: name, sequence, `+`, quality |
| FastqTools.FastqLinesStripped | src/fastq_tools.py:182 | the lines written for well-formed reads are already stripped |
| FastqTools.ReadFastqLines | src/fastq_tools.py:179-210 | with the corrected name test, reading back what `save_results` writes gives the same reads in the same order, for distinct stripped names starting with `@` and stripped sequences and qualities without line breaks |
| FastqTools.ReadThreeRecordsAsWritten | src/fastq_tools.py:188 | as written, of three reads the second is lost and the third is stored under the second one's name |
| FastqTools.ReadAsWrittenLosesRead | src/fastq_tools.py:188 | a concrete three-read file that the corrected reader reads back whole and the reader as written does not |
| UltimateTools.DefaultsPass | ultimate_tools.py:8-12 | the default bounds (GC 0 to 100, length 0 to 2^32, quality 0) are accepted, and under them a read with a non-empty sequence of at most 2^32 letters passes exactly when its quality string can be scored |
| UltimateTools.KeptGet | ultimate_tools.py:51-56 | the filtered dict is a sub-dict of the reads with values unchanged and distinct names: it holds a name exactly when that read passes the GC, length and quality checks |
| UltimateTools.KeepPassing | ultimate_tools.py:51-56 | the filter loop copies over exactly the reads whose three verdicts are true, in order |
| UltimateTools.FilterFastqSeqs | ultimate_tools.py:8-62 | the input is read by `read_file`, with the name test as written when the flag is false, as the program does. Reader errors propagate. A scalar bound `g` stands for `(0, g)`. Bad bounds (GC upper above 100, crossed bounds, threshold outside 0..40) raise `ValueError`; a negative lower bound does not. An empty sequence divides by zero, and otherwise the first read whose quality string cannot be scored fails the call with that read's error. Otherwise the passing reads are kept and written under the output name, which defaults to the input path |
| UltimateTools.ReadableComplementable | ultimate_tools.py:98-99 | every sequence the tools accept can be complemented without a missing key |
| UltimateTools.TranscribeReadable | ultimate_tools.py:98-99 | transcription keeps a sequence acceptable |
| UltimateTools.ReverseReadable | ultimate_tools.py:98-99 | reversal keeps a sequence acceptable |
| UltimateTools.ComplementReadable | ultimate_tools.py:98-99 | the complement of any complementable sequence is acceptable |
| UltimateTools.ApplyReadable | ultimate_tools.py:97-104 | every transform turns an accepted sequence into an accepted one, so results can be fed back in |
| UltimateTools.RunDnaRnaTools | ultimate_tools.py:65-111 | no arguments cannot be unpacked; an unknown tool name fails exactly when some sequence is accepted. Otherwise there is one result per sequence, in order: `None` for a rejected sequence, the transform for an accepted one. A single sequence gives the bare result, and the warning is set exactly when some sequence was rejected |
| BioFilesProcessor.GroupStored | bio_files_processor.py:17-26 | the loop and the final store keep the keys distinct, and every key and the bound name are header lines of the file |
| BioFilesProcessor.GroupFailure | bio_files_processor.py:17-26 | the loop only ever fails with an unbound name |
| BioFilesProcessor.ConvertResult | bio_files_processor.py:14-26 | the conversion only fails with an unbound name; the keys are distinct, each one of the input lines after stripping, starting with `>` |
| BioFilesProcessor.StoreAllGet | bio_files_processor.py:20-22 | after storing blocks, a header holds the value of its last block with a non-empty sequence (last write wins), or keeps what it held |
| BioFilesProcessor.StoreAllValid | bio_files_processor.py:21 | storing blocks keeps the keys distinct |
| BioFilesProcessor.GroupedGet | bio_files_processor.py:17-26 | the last header is always stored with its own, possibly empty, sequence; any other header is stored only if one of its blocks collected characters, and then holds the value of the last such block |
| BioFilesProcessor.GroupBody | bio_files_processor.py:24-25 | sequence lines are appended to the collected sequence, in order |
| BioFilesProcessor.GroupBlock | bio_files_processor.py:19-25 | a header stores what was collected under the previous header, if anything was; then its own lines are collected |
| BioFilesProcessor.GroupBlocks | bio_files_processor.py:17-25 | reading a file made of blocks stores every block but the last as the block grouping says, and leaves the last one pending |
| BioFilesProcessor.ConvertBlocks | bio_files_processor.py:14-26 | a file whose stripped lines are blank lines followed by header-led blocks converts to the block grouping: each value is the block's lines joined in order |
| BioFilesProcessor.EmptyRecordDropped | bio_files_processor.py:20-23 | on the file `>a`, `>b`, `AC`, ` GT `, `>a`, `T`, the empty first `>a` is not stored and its repeat is appended after `>b` |
| BioFilesProcessor.GroupBound | bio_files_processor.py:17-25 | once a name is bound, the loop cannot fail and the name stays bound |
| BioFilesProcessor.GroupUnbound | bio_files_processor.py:17-26 | from a state with no name, the conversion fails exactly when no header follows or something was collected before the first header |
| BioFilesProcessor.ConvertFails | bio_files_processor.py:14-26 | the conversion fails exactly when the file has no header, or has a non-blank line before its first header |
| BioFilesProcessor.FastaLinesAt | bio_files_processor.py:35-37 | record `k` is written at lines `2k` (header) and `2k+1` (sequence) |
| BioFilesProcessor.OneLineStripped | bio_files_processor.py:18 | the one-line file of stripped records is left unchanged by stripping |
| BioFilesProcessor.OneLineGrouped | bio_files_processor.py:17-26 | grouping the one-line blocks of such records gives the records back |
| BioFilesProcessor.OneLineRoundTrip | bio_files_processor.py:14-37 | converting the written one-line file gives back the same records in the same order, for records with no line break in a header or a sequence |
| BioFilesProcessor.GroupRecords | bio_files_processor.py:14-26 | the reading loop and the final store compute `ConvertResult` |
| BioFilesProcessor.WriteRecords | bio_files_processor.py:34-37 | each record is written as its header line, then its sequence line, in dict order |
| BioFilesProcessor.ConvertMultilineFastaToOneline | bio_files_processor.py:1-42 | the records returned are the records written, two lines each. The output is `<output_fasta>.fasta`, or `<input_fasta>_oneline.fasta` with a warning when no output name is given. Grouping errors propagate |

## Left out

- File and directory effects are not modelled: `open`, `os.path.exists` and `os.mkdir` (src/fastq_tools.py:180, 201-205; bio_files_processor.py:15, 34). Readers take the lines of their file; writers return the path and the lines. The `.fasta` suffix on the input name (bio_files_processor.py:15) is left to the caller that supplies the lines.
- The `print` warnings (ultimate_tools.py:107, bio_files_processor.py:40) are returned as a boolean flag, not printed.
- The module-level call at bio_files_processor.py:45 is not modelled: it is I/O on a fixed file name.
- FastqTools.GcContent: computed in exact real arithmetic. Python's float division and multiplication can round, so a value within one rounding step of a bound may compare differently in the original.
- FastqTools.QualityVerdict: the mean quality is an exact rational, not a Python float; the same rounding caveat applies at the threshold.
- FastqTools.ReadFastqLines: stated for well-formed reads, whose names, sequences and qualities hold no line break (a text file would split such a string into several lines).
- Text.Strip: strips ASCII whitespace only (space, tab to carriage return, and the four separator controls). Python also strips non-ASCII whitespace such as U+0085 and U+00A0.
- Text.Upper and Text.Lower change ASCII letters only, which is all the tables use.
- UltimateTools.FilterFastqSeqs: bounds are either a scalar or a pair. A tuple of another length is not modelled (Python would index it, or raise `IndexError`), and neither is a float `length_bounds` (Python would raise `TypeError` when indexing it).
- DnaRnaTools.Complement and DnaRnaTools.ReverseComplement require every character to be in the complement table. The missing-key path of the original is modelled separately, by `ComplementChecked` and `ReverseComplementChecked`. `run_dna_rna_tools` calls the transforms only on sequences it has already accepted, which are always complementable.
- BioFilesProcessor.OneLineRoundTrip: stated for non-empty records with distinct stripped header keys and stripped, non-empty, non-header values, none holding a line break (a text file would split such a string into several lines). Other records are not written back unchanged (an empty value is dropped unless it is last; a value starting with `>` reads as a header).
- `run_ultimate_protein_tools` (ultimate_tools.py:114-162) is not modelled. Its dispatch table names functions (ultimate_tools.py:144-147) that do not exist in src/protein_tools.py, so it cannot dispatch.
- custom_random_forest.py, genscan_scripts.py and test_ubt.py are not part of this model: they are an sklearn and multiprocessing wrapper, web scraping, and tests of classes not in these files.

## Findings

| source | as written | input that shows it | evidently intended | confidence | as-written member | corrected member |
|---|---|---|---|---|---|---|
| src/fastq_tools.py:188 | a line may bind the name only if `i % 3 != 0`, which also rejects the name lines 9, 21, 33, … (line `4k+1` where `k ≡ 2 mod 3`) | a FASTQ file of three reads `@r1`, `@r2`, `@r3`: line 9 (`@r3`) is skipped, so the third read overwrites `@r2` and the second read is lost | the first line of every four-line record binds the name (`i % 4 == 1`), so that reading back what `save_results` writes gives the same reads | not executed | FastqTools.ReadThreeRecordsAsWritten | FastqTools.ReadFastqLines |
