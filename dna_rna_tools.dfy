/** Nucleotide transforms: transcription, complement, reversal and reverse complement,
    each applied character by character through a fixed table. */
module DnaRnaTools {
  import opened Wrappers

  /** Transcription swaps thymine and uracil, in either case. */
  const TranscribeTable: map<char, char> := map['T' := 'U', 't' := 'u', 'U' := 'T', 'u' := 't']

  /** Base pairing; both T and U pair with A. */
  const ComplementTable: map<char, char> := map[
    'A' := 'T', 'a' := 't',
    'G' := 'C', 'g' := 'c',
    'T' := 'A', 't' := 'a',
    'C' := 'G', 'c' := 'g',
    'U' := 'A', 'u' := 'a']

  /** The letters DNA and RNA sequences are written in. */
  predicate IsNucleotide(c: char) {
    c in "AUTGCautgc"
  }

  predicate IsLowerCase(c: char) {
    'a' <= c <= 'z'
  }

  /** Every character of `s` is a key of the complement table. */
  predicate Complementable(s: string) {
    forall i :: 0 <= i < |s| ==> s[i] in ComplementTable
  }

  /** `transcribe`: T and U (and t and u) trade places; every other character,
      whether a nucleotide or not, is left as it is. */
  function Transcribe(s: string): (r: string)
    ensures |r| == |s|
    ensures forall i :: 0 <= i < |s| ==>
      && (r[i] == 'U' <==> s[i] == 'T') && (r[i] == 'T' <==> s[i] == 'U')
      && (r[i] == 'u' <==> s[i] == 't') && (r[i] == 't' <==> s[i] == 'u')
      && (s[i] !in "TUtu" ==> r[i] == s[i])
  {
    if s == [] then []
    else
      var c := if s[0] in TranscribeTable then TranscribeTable[s[0]] else s[0];
      [c] + Transcribe(s[1..])
  }

  /** Transcribing twice gives back the original: DNA to RNA and back again. */
  lemma TranscribeInvolution(s: string)
    ensures Transcribe(Transcribe(s)) == s
  {
  }

  /** `complement`: position by position, each base is replaced by the base it pairs
      with, keeping its case; the result never contains U. */
  function Complement(s: string): (r: string)
    requires Complementable(s)
    ensures |r| == |s|
    ensures forall i :: 0 <= i < |s| ==>
      && r[i] == ComplementTable[s[i]]
      && r[i] in "ATGCatgc"
      && (IsLowerCase(r[i]) <==> IsLowerCase(s[i]))
  {
    if s == [] then [] else [ComplementTable[s[0]]] + Complement(s[1..])
  }

  /** `complement` on any string: a character outside the table is a missing key. */
  function ComplementChecked(s: string): (r: Result<string>)
    ensures r.Failure? <==> exists i :: 0 <= i < |s| && s[i] !in ComplementTable
    ensures r.Failure? ==> r.error == KeyError
    ensures r.Success? ==> Complementable(s) && r.value == Complement(s)
  {
    if Complementable(s) then Success(Complement(s)) else Failure(KeyError)
  }

  /** Every base other than U pairs back with itself. */
  lemma PairsBack(c: char)
    requires c in ComplementTable && c != 'U' && c != 'u'
    ensures ComplementTable[c] in ComplementTable && ComplementTable[ComplementTable[c]] == c
  {
  }

  /** On strings without U, complementing twice gives back the original. */
  lemma ComplementInvolution(s: string)
    requires Complementable(s)
    requires forall i :: 0 <= i < |s| ==> s[i] != 'U' && s[i] != 'u'
    ensures Complement(Complement(s)) == s
  {
    var c := Complement(s);
    forall i | 0 <= i < |s| ensures c[i] in ComplementTable && ComplementTable[c[i]] == s[i] {
      PairsBack(s[i]);
    }
  }

  /** With U present it is not: U pairs with A, and A pairs with T. */
  lemma ComplementOfUracil()
    ensures Complement(Complement("U")) == "T"
  {
    assert Complement("U") == "A";
  }

  /** `reverse`: the characters in the opposite order. */
  function Reverse(s: string): (r: string)
    ensures |r| == |s|
    ensures forall i :: 0 <= i < |s| ==> r[i] == s[|s| - 1 - i]
  {
    if s == [] then [] else Reverse(s[1..]) + [s[0]]
  }

  /** Reversing twice gives back the original. */
  lemma ReverseInvolution(s: string)
    ensures Reverse(Reverse(s)) == s
  {
  }

  /** `reverse_complement`: the reversed complement, which is also the complement of
      the reversed sequence. */
  function ReverseComplement(s: string): (r: string)
    requires Complementable(s)
    ensures |r| == |s|
    ensures Complementable(Reverse(s)) && r == Complement(Reverse(s))
    ensures forall i :: 0 <= i < |s| ==> r[i] == ComplementTable[s[|s| - 1 - i]]
  {
    Reverse(Complement(s))
  }

  /** `reverse_complement` on any string: the complement's missing key, or the
      reversed complement. */
  function ReverseComplementChecked(s: string): (r: Result<string>)
    ensures r.Failure? <==> exists i :: 0 <= i < |s| && s[i] !in ComplementTable
    ensures r.Failure? ==> r.error == KeyError
    ensures r.Success? ==> Complementable(s) && r.value == ReverseComplement(s)
  {
    match ComplementChecked(s)
    case Failure(e) => Failure(e)
    case Success(c) => Success(Reverse(c))
  }
}
