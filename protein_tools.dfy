/** Amino-acid tables and the protein alphabet check. */
module ProteinTools {
  import opened Text

  /** One-letter amino-acid codes and their names, in both cases. */
  const AminoacidDict: map<char, string> := map[
    'A' := "Alanine", 'a' := "alanine",
    'C' := "Cysteine", 'c' := "cysteine",
    'D' := "Aspartic acid", 'd' := "aspartic acid",
    'E' := "Glutamic acid", 'e' := "glutamic acid",
    'F' := "Phenylalanine", 'f' := "Phenylalanine",
    'G' := "Glycine", 'g' := "glycine",
    'H' := "Histidine", 'h' := "histidine",
    'I' := "Isoleucine", 'i' := "isoleucine",
    'K' := "Lysine", 'k' := "lysine",
    'L' := "Leucine", 'l' := "leucine",
    'M' := "Methionine", 'm' := "methionine",
    'N' := "Asparagine", 'n' := "asparagine",
    'P' := "Proline", 'p' := "proline",
    'Q' := "Glutamine", 'q' := "glutamine",
    'R' := "Arginine", 'r' := "arginine",
    'S' := "Serine", 's' := "serine",
    'T' := "Threonine", 't' := "threonine",
    'V' := "Valine", 'v' := "valine",
    'W' := "Tryptophan", 'w' := "tryptophan",
    'Y' := "Tyrosine", 'y' := "tyrosine"]

  /** For each amino acid (and `*` for stop) the RNA codons that encode it. */
  const RnaAaTable: map<char, seq<string>> := map[
    'F' := ["UUU", "UUC"], 'f' := ["uuu", "uuc"],
    'L' := ["UUA", "UUG", "CUU", "CUC", "CUA", "CUG"], 'l' := ["uua", "uug", "cuu", "cuc", "cua", "cug"],
    'S' := ["UCU", "UCC", "UCA", "UCG", "AGU", "AGC"], 's' := ["ucu", "ucc", "uca", "ucg", "agu", "agc"],
    'Y' := ["UAU", "UAC"], 'y' := ["uau", "uac"],
    '*' := ["UAA", "UAG", "UGA", "uaa", "uag", "uga"],
    'C' := ["UGU", "UGC"], 'c' := ["ugu", "ugc"],
    'W' := ["UGG"], 'w' := ["ugg"],
    'P' := ["CCU", "CCC", "CCA", "CCG"], 'p' := ["ccu", "ccc", "cca", "ccg"],
    'H' := ["CAU", "CAC"], 'h' := ["cau", "cac"],
    'Q' := ["CAA", "CAG"], 'q' := ["caa", "cag"],
    'R' := ["CGU", "CGC", "CGA", "CGG", "AGA", "AGG"], 'r' := ["cgu", "cgc", "cga", "cgg", "aga", "agg"],
    'I' := ["AUU", "AUC", "AUA"], 'i' := ["auu", "auc", "aua"],
    'M' := ["AUG"], 'm' := ["aug"],
    'T' := ["ACU", "ACC", "ACA", "ACG"], 't' := ["acu", "acc", "aca", "acg"],
    'N' := ["AAU", "AAC"], 'n' := ["aau", "aac"],
    'K' := ["AAA", "AAG"], 'k' := ["aaa", "aag"],
    'V' := ["GUU", "GUC", "GUA", "GUG"], 'v' := ["guu", "guc", "gua", "gug"],
    'A' := ["GCU", "GCC", "GCA", "GCG"], 'a' := ["gcu", "gcc", "gca", "gcg"],
    'D' := ["GAU", "GAC"], 'd' := ["gau", "gac"],
    'E' := ["GAA", "GAG"], 'e' := ["gaa", "gag"],
    'G' := ["GGU", "GGC", "GGA", "GGG"], 'g' := ["ggu", "ggc", "gga", "ggg"]]

  const UpperAminoAcids: string := "ACDEFGHIKLMNPQRSTVWY"
  const LowerAminoAcids: string := "acdefghiklmnpqrstvwy"

  /** `is_protein_valid`: the set of characters of `s` is a subset of the table's keys. */
  function IsProteinValid(s: string): (r: bool)
    ensures r <==> forall i :: 0 <= i < |s| ==> s[i] in RnaAaTable
  {
    (set c | c in s) <= RnaAaTable.Keys
  }

  /** The keys are the twenty amino-acid letters in each case, and `*`. */
  lemma RnaAaTableKeys(c: char)
    ensures c in RnaAaTable <==> c in UpperAminoAcids || c in LowerAminoAcids || c == '*'
  {
  }

  /** Validity holds for the empty string and is decided character by character. */
  lemma ProteinValidConcat(a: string, b: string)
    ensures IsProteinValid([])
    ensures IsProteinValid(a + b) <==> IsProteinValid(a) && IsProteinValid(b)
  {
    assert forall i :: 0 <= i < |b| ==> (a + b)[|a| + i] == b[i];
  }

  /** Every uppercase key has its lowercase counterpart, so lowercasing keeps a
      valid protein valid. */
  lemma ProteinValidLower(s: string)
    requires IsProteinValid(s)
    ensures IsProteinValid(Lower(s))
  {
    forall i | 0 <= i < |s| ensures LowerChar(s[i]) in RnaAaTable {
      RnaAaTableKeys(s[i]);
      if s[i] in UpperAminoAcids {
        LowerAminoAcid(s[i]);
      } else {
        LowerKeepsLower(s[i]);
      }
      RnaAaTableKeys(LowerChar(s[i]));
    }
  }

  /** Lowercasing sends each uppercase amino-acid letter to its lowercase one. */
  lemma LowerAminoAcid(c: char)
    requires c in UpperAminoAcids
    ensures LowerChar(c) in LowerAminoAcids
  {
  }

  /** Lowercase letters and `*` are left alone by lowercasing. */
  lemma LowerKeepsLower(c: char)
    requires c in LowerAminoAcids || c == '*'
    ensures LowerChar(c) == c
  {
  }

  /** Every amino acid that has a name also has codons. */
  lemma AminoacidDictKeys()
    ensures AminoacidDict.Keys <= RnaAaTable.Keys
  {
  }

  predicate IsRnaBase(c: char) {
    c == 'U' || c == 'C' || c == 'A' || c == 'G'
  }

  predicate IsUpperCodon(codon: string) {
    |codon| == 3 && IsRnaBase(codon[0]) && IsRnaBase(codon[1]) && IsRnaBase(codon[2])
  }

  predicate IsLowerRnaBase(c: char) {
    c == 'u' || c == 'c' || c == 'a' || c == 'g'
  }

  predicate IsLowerCodon(codon: string) {
    |codon| == 3 && IsLowerRnaBase(codon[0]) && IsLowerRnaBase(codon[1]) && IsLowerRnaBase(codon[2])
  }

  /** The standard genetic code, read off the codon's three bases and written
      independently of the table: the amino acid (or `*`) an uppercase codon encodes. */
  function GeneticCode(codon: string): (aa: char)
    requires IsUpperCodon(codon)
    ensures aa in UpperAminoAcids || aa == '*'
  {
    var x, y, z := codon[0], codon[1], codon[2];
    var pyrimidine := z == 'U' || z == 'C';
    match y
    case 'U' =>
      if x == 'U' then (if pyrimidine then 'F' else 'L')
      else if x == 'C' then 'L'
      else if x == 'A' then (if z == 'G' then 'M' else 'I')
      else 'V'
    case 'C' =>
      if x == 'U' then 'S' else if x == 'C' then 'P' else if x == 'A' then 'T' else 'A'
    case 'A' =>
      if x == 'U' then (if pyrimidine then 'Y' else '*')
      else if x == 'C' then (if pyrimidine then 'H' else 'Q')
      else if x == 'A' then (if pyrimidine then 'N' else 'K')
      else (if pyrimidine then 'D' else 'E')
    case 'G' =>
      if x == 'U' then (if pyrimidine then 'C' else if z == 'A' then '*' else 'W')
      else if x == 'C' then 'R'
      else if x == 'A' then (if pyrimidine then 'S' else 'R')
      else 'G'
  }

  // The table is checked a few keys at a time: a lookup in the 41-entry map is
  // expensive, so each helper below looks up at most a few rows.

  lemma RowsFL(k: char, j: nat)
    requires k in "FL" && j < |RnaAaTable[k]|
    ensures IsUpperCodon(RnaAaTable[k][j]) && GeneticCode(RnaAaTable[k][j]) == k
  {
  }

  lemma RowsYSCW(k: char, j: nat)
    requires k in "YSCW" && j < |RnaAaTable[k]|
    ensures IsUpperCodon(RnaAaTable[k][j]) && GeneticCode(RnaAaTable[k][j]) == k
  {
  }

  lemma RowsRHQ(k: char, j: nat)
    requires k in "RHQ" && j < |RnaAaTable[k]|
    ensures IsUpperCodon(RnaAaTable[k][j]) && GeneticCode(RnaAaTable[k][j]) == k
  {
  }

  lemma RowsPIMT(k: char, j: nat)
    requires k in "PIMT" && j < |RnaAaTable[k]|
    ensures IsUpperCodon(RnaAaTable[k][j]) && GeneticCode(RnaAaTable[k][j]) == k
  {
  }

  lemma RowsNKVA(k: char, j: nat)
    requires k in "NKVA" && j < |RnaAaTable[k]|
    ensures IsUpperCodon(RnaAaTable[k][j]) && GeneticCode(RnaAaTable[k][j]) == k
  {
  }

  lemma RowsDEGStop(k: char, j: nat)
    requires k in "DEG*" && j < |RnaAaTable[k]| && (k == '*' ==> j < 3)
    ensures IsUpperCodon(RnaAaTable[k][j]) && GeneticCode(RnaAaTable[k][j]) == k
  {
  }

  lemma LowerRowsFLY(k: char, j: nat)
    requires k in "fly" && j < |RnaAaTable[k]|
    ensures IsLowerCodon(RnaAaTable[k][j])
  {
  }

  lemma LowerRowsSC(k: char, j: nat)
    requires k in "sc" && j < |RnaAaTable[k]|
    ensures IsLowerCodon(RnaAaTable[k][j])
  {
  }

  lemma LowerRowsWRHQPI(k: char, j: nat)
    requires k in "wrhqpi" && j < |RnaAaTable[k]|
    ensures IsLowerCodon(RnaAaTable[k][j])
  {
  }

  lemma LowerRowsMTNKVA(k: char, j: nat)
    requires k in "mtnkva" && j < |RnaAaTable[k]|
    ensures IsLowerCodon(RnaAaTable[k][j])
  {
  }

  lemma LowerRowsDEGStop(k: char, j: nat)
    requires k in "deg*" && j < |RnaAaTable[k]| && (k == '*' ==> j >= 3)
    ensures IsLowerCodon(RnaAaTable[k][j])
  {
  }

  /** The uppercase rows: each codon is three uppercase bases that encode the key. */
  lemma UpperRows(k: char, j: nat)
    requires k in UpperAminoAcids || k == '*'
    requires k in RnaAaTable && j < |RnaAaTable[k]| && (k == '*' ==> j < 3)
    ensures IsUpperCodon(RnaAaTable[k][j]) && GeneticCode(RnaAaTable[k][j]) == k
  {
    if k in "FL" { RowsFL(k, j); }
    else if k in "YSCW" { RowsYSCW(k, j); }
    else if k in "RHQ" { RowsRHQ(k, j); }
    else if k in "PIMT" { RowsPIMT(k, j); }
    else if k in "NKVA" { RowsNKVA(k, j); }
    else { RowsDEGStop(k, j); }
  }

  /** The lowercase rows: each codon is three lowercase bases. */
  lemma LowerRows(k: char, j: nat)
    requires k in LowerAminoAcids || k == '*'
    requires k in RnaAaTable && j < |RnaAaTable[k]| && (k == '*' ==> j >= 3)
    ensures IsLowerCodon(RnaAaTable[k][j])
  {
    if k in "fly" { LowerRowsFLY(k, j); }
    else if k in "sc" { LowerRowsSC(k, j); }
    else if k in "wrhqpi" { LowerRowsWRHQPI(k, j); }
    else if k in "mtnkva" { LowerRowsMTNKVA(k, j); }
    else { LowerRowsDEGStop(k, j); }
  }

  /** Every codon is three RNA bases. The rows of the uppercase keys, and the first
      three stop codons, are uppercase codons that encode their key under the genetic
      code; every other row (the lowercase keys, the last three stop codons) is a
      lowercase codon. */
  lemma CodonShape(k: char, j: nat)
    requires k in RnaAaTable && j < |RnaAaTable[k]|
    ensures if k in UpperAminoAcids || (k == '*' && j < 3)
      then IsUpperCodon(RnaAaTable[k][j]) && GeneticCode(RnaAaTable[k][j]) == k
      else IsLowerCodon(RnaAaTable[k][j])
  {
    if k in UpperAminoAcids || (k == '*' && j < 3) {
      UpperRows(k, j);
    } else {
      RnaAaTableKeys(k);
      LowerRows(k, j);
    }
  }

  /** No uppercase codon is listed under two different keys. */
  lemma UpperCodonsDisjoint(k1: char, j1: nat, k2: char, j2: nat)
    requires k1 in RnaAaTable && j1 < |RnaAaTable[k1]| && IsUpperCodon(RnaAaTable[k1][j1])
    requires k2 in RnaAaTable && j2 < |RnaAaTable[k2]|
    requires RnaAaTable[k1][j1] == RnaAaTable[k2][j2]
    ensures k1 == k2
  {
    CodonShape(k1, j1);
    CodonShape(k2, j2);
  }

  lemma CoverF(codon: string)
    requires IsUpperCodon(codon) && GeneticCode(codon) == 'F'
    ensures codon in RnaAaTable['F']
  {
    assert codon == [codon[0], codon[1], codon[2]];
    assert RnaAaTable['F'] == ["UUU", "UUC"];
  }

  lemma CoverL(codon: string)
    requires IsUpperCodon(codon) && GeneticCode(codon) == 'L'
    ensures codon in RnaAaTable['L']
  {
    assert codon == [codon[0], codon[1], codon[2]];
    assert RnaAaTable['L'] == ["UUA", "UUG", "CUU", "CUC", "CUA", "CUG"];
  }

  lemma CoverYS(k: char, codon: string)
    requires (k == 'Y' || k == 'S') && IsUpperCodon(codon) && GeneticCode(codon) == k
    ensures codon in RnaAaTable[k]
  {
    assert codon == [codon[0], codon[1], codon[2]];
    assert RnaAaTable['Y'] == ["UAU", "UAC"] && RnaAaTable['S'] == ["UCU", "UCC", "UCA", "UCG", "AGU", "AGC"];
  }

  lemma CoverCW(k: char, codon: string)
    requires (k == 'C' || k == 'W') && IsUpperCodon(codon) && GeneticCode(codon) == k
    ensures codon in RnaAaTable[k]
  {
    assert codon == [codon[0], codon[1], codon[2]];
    assert RnaAaTable['C'] == ["UGU", "UGC"] && RnaAaTable['W'] == ["UGG"];
  }

  lemma CoverRH(k: char, codon: string)
    requires (k == 'R' || k == 'H') && IsUpperCodon(codon) && GeneticCode(codon) == k
    ensures codon in RnaAaTable[k]
  {
    assert codon == [codon[0], codon[1], codon[2]];
    assert RnaAaTable['R'] == ["CGU", "CGC", "CGA", "CGG", "AGA", "AGG"] && RnaAaTable['H'] == ["CAU", "CAC"];
  }

  lemma CoverQP(k: char, codon: string)
    requires (k == 'Q' || k == 'P') && IsUpperCodon(codon) && GeneticCode(codon) == k
    ensures codon in RnaAaTable[k]
  {
    assert codon == [codon[0], codon[1], codon[2]];
    assert RnaAaTable['Q'] == ["CAA", "CAG"] && RnaAaTable['P'] == ["CCU", "CCC", "CCA", "CCG"];
  }

  lemma CoverIM(k: char, codon: string)
    requires (k == 'I' || k == 'M') && IsUpperCodon(codon) && GeneticCode(codon) == k
    ensures codon in RnaAaTable[k]
  {
    assert codon == [codon[0], codon[1], codon[2]];
    assert RnaAaTable['I'] == ["AUU", "AUC", "AUA"] && RnaAaTable['M'] == ["AUG"];
  }

  lemma CoverTN(k: char, codon: string)
    requires (k == 'T' || k == 'N') && IsUpperCodon(codon) && GeneticCode(codon) == k
    ensures codon in RnaAaTable[k]
  {
    assert codon == [codon[0], codon[1], codon[2]];
    assert RnaAaTable['T'] == ["ACU", "ACC", "ACA", "ACG"] && RnaAaTable['N'] == ["AAU", "AAC"];
  }

  lemma CoverKV(k: char, codon: string)
    requires (k == 'K' || k == 'V') && IsUpperCodon(codon) && GeneticCode(codon) == k
    ensures codon in RnaAaTable[k]
  {
    assert codon == [codon[0], codon[1], codon[2]];
    assert RnaAaTable['K'] == ["AAA", "AAG"] && RnaAaTable['V'] == ["GUU", "GUC", "GUA", "GUG"];
  }

  lemma CoverAD(k: char, codon: string)
    requires (k == 'A' || k == 'D') && IsUpperCodon(codon) && GeneticCode(codon) == k
    ensures codon in RnaAaTable[k]
  {
    assert codon == [codon[0], codon[1], codon[2]];
    assert RnaAaTable['A'] == ["GCU", "GCC", "GCA", "GCG"] && RnaAaTable['D'] == ["GAU", "GAC"];
  }

  lemma CoverEG(k: char, codon: string)
    requires (k == 'E' || k == 'G') && IsUpperCodon(codon) && GeneticCode(codon) == k
    ensures codon in RnaAaTable[k]
  {
    assert codon == [codon[0], codon[1], codon[2]];
    assert RnaAaTable['E'] == ["GAA", "GAG"] && RnaAaTable['G'] == ["GGU", "GGC", "GGA", "GGG"];
  }

  lemma CoverStop(codon: string)
    requires IsUpperCodon(codon) && GeneticCode(codon) == '*'
    ensures codon in RnaAaTable['*']
  {
    assert codon == [codon[0], codon[1], codon[2]];
    assert RnaAaTable['*'][..3] == ["UAA", "UAG", "UGA"];
  }

  /** All 64 uppercase codons are listed, each under the key the genetic code gives it. */
  lemma UpperCodonsCover(codon: string)
    requires IsUpperCodon(codon)
    ensures GeneticCode(codon) in RnaAaTable && codon in RnaAaTable[GeneticCode(codon)]
  {
    var k := GeneticCode(codon);
    RnaAaTableKeys(k);
    if k == 'F' { CoverF(codon); }
    else if k == 'L' { CoverL(codon); }
    else if k == 'Y' || k == 'S' { CoverYS(k, codon); }
    else if k == 'C' || k == 'W' { CoverCW(k, codon); }
    else if k == 'R' || k == 'H' { CoverRH(k, codon); }
    else if k == 'Q' || k == 'P' { CoverQP(k, codon); }
    else if k == 'I' || k == 'M' { CoverIM(k, codon); }
    else if k == 'T' || k == 'N' { CoverTN(k, codon); }
    else if k == 'K' || k == 'V' { CoverKV(k, codon); }
    else if k == 'A' || k == 'D' { CoverAD(k, codon); }
    else if k == 'E' || k == 'G' { CoverEG(k, codon); }
    else { CoverStop(codon); }
  }
}
