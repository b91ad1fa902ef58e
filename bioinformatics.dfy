/** Model of simpler/bioinformatics.py: the nucleotide string transforms and
    the FASTA reader.  Strings are sequences of characters; the mass tables
    are floating point and are not modelled. */
module Bioinformatics {

  import opened Wrappers
  import opened Builtins
  import opened Strings

  // ---------------------------------------------------------------------
  // dna_to_rna, rna_to_dna

  /** `s.replace(a, b)` for single characters: every `a` becomes `b`. */
  function Replace(s: string, a: char, b: char): (r: string)
    ensures |r| == |s| && forall i :: 0 <= i < |s| ==> r[i] == if s[i] == a then b else s[i]
  {
    if s == [] then [] else [if s[0] == a then b else s[0]] + Replace(s[1..], a, b)
  }

  /** `dna_to_rna`: thymine becomes uracil. */
  function DnaToRna(dna: string): (rna: string)
    ensures |rna| == |dna| && 'T' !in rna
    ensures forall i :: 0 <= i < |dna| && dna[i] != 'T' ==> rna[i] == dna[i]
    ensures forall i :: 0 <= i < |dna| && dna[i] == 'T' ==> rna[i] == 'U'
  {
    Replace(dna, 'T', 'U')
  }

  /** `rna_to_dna`: uracil becomes thymine. */
  function RnaToDna(rna: string): (dna: string)
    ensures |dna| == |rna| && 'U' !in dna
    ensures forall i :: 0 <= i < |rna| && rna[i] != 'U' ==> dna[i] == rna[i]
    ensures forall i :: 0 <= i < |rna| && rna[i] == 'U' ==> dna[i] == 'T'
  {
    Replace(rna, 'U', 'T')
  }

  /** Transcribing a DNA string without uracil and back gives it again. */
  lemma DnaRoundTrip(dna: string)
    requires 'U' !in dna
    ensures RnaToDna(DnaToRna(dna)) == dna
  {
    var back := RnaToDna(DnaToRna(dna));
    forall i | 0 <= i < |dna|
      ensures back[i] == dna[i]
    {
      assert dna[i] in dna;
    }
  }

  /** Likewise for an RNA string without thymine. */
  lemma RnaRoundTrip(rna: string)
    requires 'T' !in rna
    ensures DnaToRna(RnaToDna(rna)) == rna
  {
    var back := DnaToRna(RnaToDna(rna));
    forall i | 0 <= i < |rna|
      ensures back[i] == rna[i]
    {
      assert rna[i] in rna;
    }
  }

  // ---------------------------------------------------------------------
  // reverse_complement

  /** The translation table of `reverse_complement`: `G`-`C` and `A`-`U`
      for RNA, `G`-`C` and `A`-`T` for DNA; other characters are kept. */
  function Complement(c: char, isRna: bool): char
  {
    var partner := if isRna then 'U' else 'T';
    if c == 'G' then 'C'
    else if c == 'C' then 'G'
    else if c == 'A' then partner
    else if c == partner then 'A'
    else c
  }

  lemma ComplementInvolution(c: char, isRna: bool)
    ensures Complement(Complement(c, isRna), isRna) == c
  {
  }

  /** `seq.translate(...)`. */
  function Translate(s: string, isRna: bool): (r: string)
    ensures |r| == |s|
  {
    seq(|s|, i requires 0 <= i < |s| => Complement(s[i], isRna))
  }

  /** `reverse_complement(seq, is_rna)`: the translated string reversed. */
  function ReverseComplement(s: string, isRna: bool): string
  {
    Reverse(Translate(s, isRna))
  }

  /** Position `i` of the result is the complement of position
      `len - 1 - i` of the input. */
  lemma ReverseComplementAt(s: string, isRna: bool, i: int)
    requires 0 <= i < |s|
    ensures |ReverseComplement(s, isRna)| == |s|
    ensures ReverseComplement(s, isRna)[i] == Complement(s[|s| - 1 - i], isRna)
  {
    ReverseAt(Translate(s, isRna), i);
  }

  /** Taking the reverse complement twice gives the string back. */
  lemma ReverseComplementInvolution(s: string, isRna: bool)
    ensures ReverseComplement(ReverseComplement(s, isRna), isRna) == s
  {
    var once := ReverseComplement(s, isRna);
    var twice := ReverseComplement(once, isRna);
    forall i | 0 <= i < |s|
      ensures twice[i] == s[i]
    {
      ReverseComplementAt(once, isRna, i);
      ReverseComplementAt(s, isRna, |s| - 1 - i);
      ComplementInvolution(s[i], isRna);
    }
  }

  // ---------------------------------------------------------------------
  // rna_to_protein

  /** `codon_table[codon]`: the amino acid letter of an RNA codon, or
      `Stop`; `None` where the dictionary has no such key. */
  function CodonTable(codon: string): Option<string>
  {
    if |codon| == 3 then Amino(codon[0], codon[1], codon[2]) else None
  }

  /** The 64 entries of `codon_table`, in its order. */
  function Amino(a: char, b: char, c: char): Option<string>
  {
    match (a, b, c)
    case ('U', 'U', 'U') => Some("F")
    case ('C', 'U', 'U') => Some("L")
    case ('A', 'U', 'U') => Some("I")
    case ('G', 'U', 'U') => Some("V")
    case ('U', 'U', 'C') => Some("F")
    case ('C', 'U', 'C') => Some("L")
    case ('A', 'U', 'C') => Some("I")
    case ('G', 'U', 'C') => Some("V")
    case ('U', 'U', 'A') => Some("L")
    case ('C', 'U', 'A') => Some("L")
    case ('A', 'U', 'A') => Some("I")
    case ('G', 'U', 'A') => Some("V")
    case ('U', 'U', 'G') => Some("L")
    case ('C', 'U', 'G') => Some("L")
    case ('A', 'U', 'G') => Some("M")
    case ('G', 'U', 'G') => Some("V")
    case ('U', 'C', 'U') => Some("S")
    case ('C', 'C', 'U') => Some("P")
    case ('A', 'C', 'U') => Some("T")
    case ('G', 'C', 'U') => Some("A")
    case ('U', 'C', 'C') => Some("S")
    case ('C', 'C', 'C') => Some("P")
    case ('A', 'C', 'C') => Some("T")
    case ('G', 'C', 'C') => Some("A")
    case ('U', 'C', 'A') => Some("S")
    case ('C', 'C', 'A') => Some("P")
    case ('A', 'C', 'A') => Some("T")
    case ('G', 'C', 'A') => Some("A")
    case ('U', 'C', 'G') => Some("S")
    case ('C', 'C', 'G') => Some("P")
    case ('A', 'C', 'G') => Some("T")
    case ('G', 'C', 'G') => Some("A")
    case ('U', 'A', 'U') => Some("Y")
    case ('C', 'A', 'U') => Some("H")
    case ('A', 'A', 'U') => Some("N")
    case ('G', 'A', 'U') => Some("D")
    case ('U', 'A', 'C') => Some("Y")
    case ('C', 'A', 'C') => Some("H")
    case ('A', 'A', 'C') => Some("N")
    case ('G', 'A', 'C') => Some("D")
    case ('U', 'A', 'A') => Some("Stop")
    case ('C', 'A', 'A') => Some("Q")
    case ('A', 'A', 'A') => Some("K")
    case ('G', 'A', 'A') => Some("E")
    case ('U', 'A', 'G') => Some("Stop")
    case ('C', 'A', 'G') => Some("Q")
    case ('A', 'A', 'G') => Some("K")
    case ('G', 'A', 'G') => Some("E")
    case ('U', 'G', 'U') => Some("C")
    case ('C', 'G', 'U') => Some("R")
    case ('A', 'G', 'U') => Some("S")
    case ('G', 'G', 'U') => Some("G")
    case ('U', 'G', 'C') => Some("C")
    case ('C', 'G', 'C') => Some("R")
    case ('A', 'G', 'C') => Some("S")
    case ('G', 'G', 'C') => Some("G")
    case ('U', 'G', 'A') => Some("Stop")
    case ('C', 'G', 'A') => Some("R")
    case ('A', 'G', 'A') => Some("R")
    case ('G', 'G', 'A') => Some("G")
    case ('U', 'G', 'G') => Some("W")
    case ('C', 'G', 'G') => Some("R")
    case ('A', 'G', 'G') => Some("R")
    case ('G', 'G', 'G') => Some("G")
    case _ => None
  }

  /** `rna[n:n + 3]` for `n` in `range(0, 3 * (len(rna) // 3), 3)`: the
      complete codons, any one or two trailing nucleotides left over. */
  function Codons(rna: string): (cs: seq<string>)
    ensures |cs| == |rna| / 3
    ensures forall i :: 0 <= i < |cs| ==> 3 * i + 3 <= |rna| && cs[i] == rna[3 * i..3 * i + 3]
  {
    seq(|rna| / 3, i requires 0 <= i < |rna| / 3 => rna[3 * i..3 * i + 3])
  }

  /** Looking each codon up in `codon_table`, in order; the first codon
      that is not a key raises `KeyError` and is the error here. */
  function Translation(codons: seq<string>): (r: Result<seq<string>, string>)
    ensures r.Success? ==> |r.value| == |codons|
    ensures r.Success? ==> forall i :: 0 <= i < |codons| ==> CodonTable(codons[i]) == Some(r.value[i])
    ensures r.Failure? ==> CodonTable(r.error).None? && r.error in codons
  {
    if codons == [] then Success([])
    else
      match CodonTable(codons[0])
      case None => Failure(codons[0])
      case Some(amino) =>
        match Translation(codons[1..])
        case Failure(e) => Failure(e)
        case Success(rest) => Success([amino] + rest)
  }

  /** The lookup fails exactly when some codon is not in the table. */
  lemma TranslationFails(codons: seq<string>)
    ensures Translation(codons).Failure? <==> exists i :: 0 <= i < |codons| && CodonTable(codons[i]).None?
  {
    if Translation(codons).Failure? {
      var e := Translation(codons).error;
      var i :| 0 <= i < |codons| && codons[i] == e;
    }
  }

  /** `rna_to_protein(rna)` as written: the joined letters go through
      `strip('Stop')`, which removes the characters `S`, `t`, `o` and `p`
      from both ends rather than the word `Stop`. */
  function RnaToProteinAsWritten(rna: string): Result<string, string>
  {
    match Translation(Codons(rna))
    case Failure(e) => Failure(e)
    case Success(aminos) => Success(StripChars(Concat(aminos), {'S', 't', 'o', 'p'}))
  }

  /** Serine, `UCU`, on its own translates to the empty string, because its
      letter `S` is among the stripped characters. */
  lemma SerineStripped()
    ensures RnaToProteinAsWritten("UCU") == Success("")
    ensures RnaToProtein("UCU") == Success("S")
  {
    var codons := Codons("UCU");
    assert |codons| == 1 && codons[0] == "UCU"[0..3] == "UCU";
    assert codons == ["UCU"];
    assert CodonTable("UCU") == Some("S");
    assert codons[1..] == [];
    assert Translation(codons[1..]) == Success([]);
    var one: seq<string> := ["S"];
    assert one + [] == one;
    assert Translation(codons) == Success(["S"]);
    assert Concat(["S"]) == "S";
    assert StripChars("S", {'S', 't', 'o', 'p'}) == "";
    assert Strip(["S"], IsStop) == ["S"];
  }

  predicate IsStop(amino: string)
  {
    amino == "Stop"
  }

  /** `rna_to_protein(rna)` as intended: the `Stop` entries at both ends of
      the translation are dropped, and every other letter is kept. */
  function RnaToProtein(rna: string): Result<string, string>
  {
    match Translation(Codons(rna))
    case Failure(e) => Failure(e)
    case Success(aminos) => Success(Concat(Strip(aminos, IsStop)))
  }

  /** The corrected translation is the joined letters of the codons between
      the leading and the trailing stop codons, the first and last of them
      being real amino acids. */
  lemma RnaToProteinKeeps(rna: string) returns (i: nat, j: nat)
    requires Translation(Codons(rna)).Success?
    ensures var aminos := Translation(Codons(rna)).value;
      i <= j <= |aminos|
      && RnaToProtein(rna) == Success(Concat(aminos[i..j]))
      && (forall k :: 0 <= k < i ==> aminos[k] == "Stop")
      && (forall k :: j <= k < |aminos| ==> aminos[k] == "Stop")
      && (i < j ==> aminos[i] != "Stop" && aminos[j - 1] != "Stop")
  {
    var aminos := Translation(Codons(rna)).value;
    i, j := StripSlice(aminos, IsStop);
  }

  /** Both versions read only the complete codons: one or two trailing
      nucleotides change nothing. */
  lemma RnaToProteinIgnoresTail(rna: string, extra: string)
    requires |rna| % 3 == 0 && |extra| < 3
    ensures RnaToProteinAsWritten(rna + extra) == RnaToProteinAsWritten(rna)
    ensures RnaToProtein(rna + extra) == RnaToProtein(rna)
  {
    var a, b := Codons(rna + extra), Codons(rna);
    assert |a| == |b|;
    forall i | 0 <= i < |a|
      ensures a[i] == b[i]
    {
      assert (rna + extra)[3 * i..3 * i + 3] == rna[3 * i..3 * i + 3];
    }
    assert a == b;
  }

  /** Each of the 64 codons over `ACGU` is in the table, so an RNA string
      over those letters always translates. */
  lemma CodonTableComplete(codon: string)
    requires |codon| == 3
    ensures CodonTable(codon).Some? <==> forall k :: 0 <= k < 3 ==> codon[k] in "ACGU"
  {
    assert codon[0] in "ACGU" && codon[1] in "ACGU" && codon[2] in "ACGU" ==>
      forall k :: 0 <= k < 3 ==> codon[k] in "ACGU";
  }

  // ---------------------------------------------------------------------
  // parse_fasta

  /** An `OrderedDict` from record names to sequences: the names in the
      order they were first inserted, and the contents. */
  datatype Records = Records(names: seq<string>, dnas: map<string, string>)

  /** What the reader holds between lines: the records and, once a header
      has been read, the name of the current record. */
  datatype Reader = Reader(records: Records, current: Option<string>)

  /** `dnas[None]`: a sequence line before the first header. */
  datatype FastaError = KeyError

  /** `parse_fasta` returns the whole dictionary, or with `first` the
      sequence of the first record. */
  datatype Parsed = All(records: Records) | First(dna: string)

  /** The current record, if any, is in the dictionary. */
  predicate HasCurrent(st: Reader)
  {
    st.current.Some? ==> st.current.value in st.records.dnas
  }

  /** An `OrderedDict`: the insertion order lists each key once. */
  ghost predicate Ordered(records: Records)
  {
    (forall i, j :: 0 <= i < j < |records.names| ==> records.names[i] != records.names[j])
    && (forall k :: k in records.dnas <==> k in records.names)
  }

  /** `line.startswith('>')`. */
  predicate IsHeader(line: string)
  {
    |line| >= 1 && line[0] == '>'
  }

  /** `line[1:].strip()`. */
  function HeaderName(line: string): string
    requires IsHeader(line)
  {
    Trim(line[1..])
  }

  /** One turn of the loop of `parse_fasta`. */
  function Step(st: Reader, line: string): (r: Result<Reader, FastaError>)
    requires HasCurrent(st)
    ensures r.Success? ==> HasCurrent(r.value)
  {
    var names, dnas := st.records.names, st.records.dnas;
    if IsHeader(line) then
      var name := HeaderName(line);
      var names' := if name in dnas then names else names + [name];
      Success(Reader(Records(names', dnas[name := []]), Some(name)))
    else if st.current.None? then Failure(KeyError)
    else
      var name := st.current.value;
      Success(Reader(Records(names, dnas[name := dnas[name] + Trim(line)]), st.current))
  }

  /** The reader after the lines `lines`, starting from an empty
      dictionary and no current record. */
  function Read(lines: seq<string>): (r: Result<Reader, FastaError>)
    ensures r.Success? ==> HasCurrent(r.value)
  {
    if lines == [] then Success(Reader(Records([], map[]), None))
    else
      match Read(lines[..|lines| - 1])
      case Failure(e) => Failure(e)
      case Success(st) => Step(st, lines[|lines| - 1])
  }

  /** `parse_fasta(data_string, first)`. */
  function ParseFastaSpec(data: string, first: bool): Result<Parsed, FastaError>
  {
    match Read(Split(data, '\n'))
    case Failure(e) => Failure(e)
    case Success(st) =>
      if first then
        ReadNames(Split(data, '\n'));
        ReadOrdered(Split(data, '\n'));
        Success(First(st.records.dnas[st.records.names[0]]))
      else Success(All(st.records))
  }

  /** `parse_fasta`: read the lines, then answer with the first record's
      sequence or with the whole dictionary. */
  method ParseFasta(data: string, first: bool) returns (r: Result<Parsed, FastaError>)
    ensures r == ParseFastaSpec(data, first)
  {
    var lines := Split(data, '\n');
    var read := ReadLines(lines);
    if read.Failure? {
      return Failure(read.error);
    }
    var records := read.value.records;
    if first {
      ReadNames(lines);
      ReadOrdered(lines);
      return Success(First(records.dnas[records.names[0]]));
    }
    return Success(All(records));
  }

  /** The loop of `parse_fasta` over the lines, keeping the dictionary and
      the name of the current record. */
  method ReadLines(lines: seq<string>) returns (r: Result<Reader, FastaError>)
    ensures r == Read(lines)
  {
    var names: seq<string>, dnas: map<string, string> := [], map[];
    var current: Option<string> := None;
    for i := 0 to |lines|
      invariant Read(lines[..i]) == Success(Reader(Records(names, dnas), current))
    {
      assert lines[..i + 1][..i] == lines[..i];
      var line := lines[i];
      if IsHeader(line) {
        var name := Trim(line[1..]);
        if name !in dnas {
          names := names + [name];
        }
        dnas := dnas[name := []];
        current := Some(name);
      } else {
        if current.None? {
          EarlyKeyError(lines, i);
          return Failure(KeyError);
        }
        dnas := dnas[current.value := dnas[current.value] + Trim(line)];
      }
    }
    assert lines[..|lines|] == lines;
    return Success(Reader(Records(names, dnas), current));
  }

  /** A line other than a header read with no current record fails the
      whole read with `KeyError`. */
  lemma EarlyKeyError(lines: seq<string>, i: int)
    requires 0 <= i < |lines| && !IsHeader(lines[i])
    requires Read(lines[..i]).Success? && Read(lines[..i]).value.current.None?
    ensures Read(lines) == Failure(KeyError)
  {
    var prefix := lines[..i + 1];
    assert prefix[..i] == lines[..i] && prefix[i] == lines[i] && prefix[0] == lines[0];
    assert Read(prefix).Failure?;
    ReadFails(prefix);
    ReadFails(lines);
  }

  /** Stepping keeps the dictionary ordered. */
  lemma StepOrdered(st: Reader, line: string)
    requires HasCurrent(st) && Ordered(st.records) && Step(st, line).Success?
    ensures Ordered(Step(st, line).value.records)
  {
    var names, dnas := st.records.names, st.records.dnas;
    if IsHeader(line) {
      var name := HeaderName(line);
      if name in dnas {
        assert Step(st, line).value.records == Records(names, dnas[name := []]);
        SameKeysOrdered(st.records, dnas[name := []]);
      } else {
        assert Step(st, line).value.records == Records(names + [name], dnas[name := []]);
        AppendOrdered(st.records, name);
      }
    } else {
      var name := st.current.value;
      assert Step(st, line).value.records == Records(names, dnas[name := dnas[name] + Trim(line)]);
      SameKeysOrdered(st.records, dnas[name := dnas[name] + Trim(line)]);
    }
  }

  /** New values for keys already there keep the dictionary ordered. */
  lemma SameKeysOrdered(records: Records, dnas: map<string, string>)
    requires Ordered(records) && dnas.Keys == records.dnas.Keys
    ensures Ordered(Records(records.names, dnas))
  {
    forall k
      ensures k in dnas <==> k in records.names
    {
      assert k in dnas <==> k in records.dnas;
    }
  }

  /** A new key appended to an ordered dictionary keeps it ordered. */
  lemma AppendOrdered(records: Records, name: string)
    requires Ordered(records) && name !in records.dnas
    ensures Ordered(Records(records.names + [name], records.dnas[name := []]))
  {
    var names, names' := records.names, records.names + [name];
    assert name !in names;
    forall i, j | 0 <= i < j < |names'|
      ensures names'[i] != names'[j]
    {
      assert names'[i] == names[i];
      if j < |names| {
        assert names'[j] == names[j];
      }
    }
    forall k
      ensures k in records.dnas[name := []] <==> k in names'
    {
      assert k in names' <==> k in names || k == name;
    }
  }

  /** The dictionary read is always ordered: its insertion order lists each
      of its keys exactly once. */
  lemma {:induction false} ReadOrdered(lines: seq<string>)
    requires Read(lines).Success?
    ensures Ordered(Read(lines).value.records)
  {
    if lines != [] {
      var init := lines[..|lines| - 1];
      ReadOrdered(init);
      StepOrdered(Read(init).value, lines[|lines| - 1]);
    }
  }

  /** Reading fails exactly when the first line is not a header. */
  lemma {:induction false} ReadFails(lines: seq<string>)
    ensures Read(lines).Failure? <==> lines != [] && !IsHeader(lines[0])
  {
    if |lines| > 1 {
      var init := lines[..|lines| - 1];
      ReadFails(init);
      assert init[0] == lines[0];
      if IsHeader(lines[0]) {
        ReadCurrent(init);
      }
    }
  }

  /** Once a header has been read there is a current record. */
  lemma {:induction false} ReadCurrent(lines: seq<string>)
    requires lines != [] && IsHeader(lines[0]) && Read(lines).Success?
    ensures Read(lines).value.current.Some?
  {
    if |lines| > 1 {
      var init := lines[..|lines| - 1];
      assert init[0] == lines[0];
      ReadCurrent(init);
    }
  }

  /** After a successful read of at least one line there is a record, the
      first of them named by the first header. */
  lemma {:induction false} ReadNames(lines: seq<string>)
    requires lines != [] && Read(lines).Success?
    ensures IsHeader(lines[0])
    ensures Read(lines).value.records.names != []
    ensures Read(lines).value.records.names[0] == HeaderName(lines[0])
  {
    ReadFails(lines);
    if |lines| > 1 {
      var init := lines[..|lines| - 1];
      assert init[0] == lines[0];
      ReadNames(init);
    }
  }

  /** `parse_fasta` fails exactly when the text does not start with a
      header line; an empty text is a single empty line and fails too. */
  lemma ParseFastaFails(data: string, first: bool)
    ensures ParseFastaSpec(data, first).Failure? <==> !IsHeader(Split(data, '\n')[0])
  {
    ReadFails(Split(data, '\n'));
  }

  /** With `first`, the result is the sequence of the record named by the
      first header line. */
  lemma ParseFastaFirst(data: string)
    requires ParseFastaSpec(data, true).Success?
    ensures IsHeader(Split(data, '\n')[0]) && Read(Split(data, '\n')).Success?
    ensures var lines := Split(data, '\n');
      var st := Read(lines).value;
      HeaderName(lines[0]) in st.records.dnas
      && ParseFastaSpec(data, true) == Success(First(st.records.dnas[HeaderName(lines[0])]))
  {
    var lines := Split(data, '\n');
    ReadNames(lines);
    ReadOrdered(lines);
    ReadFails(lines);
  }

  /** The stripped lines of a record body, joined. */
  function Body(lines: seq<string>): string
  {
    if lines == [] then [] else Body(lines[..|lines| - 1]) + Trim(lines[|lines| - 1])
  }

  /** Reading one more line is one more step. */
  lemma ReadSnoc(lines: seq<string>, line: string)
    requires Read(lines).Success?
    ensures Read(lines + [line]) == Step(Read(lines).value, line)
  {
    assert (lines + [line])[..|lines|] == lines;
  }

  lemma SnocSplit<T>(a: seq<T>, b: seq<T>)
    requires b != []
    ensures a + b == (a + b[..|b| - 1]) + [b[|b| - 1]]
    ensures b[..|b| - 1] + [b[|b| - 1]] == b
  {
    assert b == b[..|b| - 1] + [b[|b| - 1]];
  }

  lemma Overwrite(m: map<string, string>, k: string, a: string, b: string, c: string)
    ensures m[k := a + b][k := (a + b) + c] == m[k := a + (b + c)]
  {
    assert (a + b) + c == a + (b + c);
  }

  lemma Restart(m: map<string, string>, k: string, b: string)
    ensures m[k := []][k := [] + b] == m[k := b]
  {
    assert [] + b == b;
  }

  /** The reader after appending the lines `body` to the current record. */
  function Appended(st: Reader, body: seq<string>): Reader
    requires HasCurrent(st) && st.current.Some?
  {
    var name := st.current.value;
    Reader(Records(st.records.names, st.records.dnas[name := st.records.dnas[name] + Body(body)]), st.current)
  }

  /** Sequence lines after a header are stripped and appended to the
      current record; nothing else changes. */
  lemma {:induction false} ReadBody(lines: seq<string>, body: seq<string>)
    requires Read(lines).Success? && Read(lines).value.current.Some?
    requires forall k :: 0 <= k < |body| ==> !IsHeader(body[k])
    ensures Read(lines + body) == Success(Appended(Read(lines).value, body))
  {
    var st := Read(lines).value;
    if body == [] {
      assert lines + body == lines;
      AppendedNil(st);
    } else {
      var init, last := body[..|body| - 1], body[|body| - 1];
      SnocSplit(lines, body);
      ReadBody(lines, init);
      ReadSnoc(lines + init, last);
      AppendedStep(st, init, last);
    }
  }

  lemma AppendedNil(st: Reader)
    requires HasCurrent(st) && st.current.Some?
    ensures Appended(st, []) == st
  {
    var name, dnas := st.current.value, st.records.dnas;
    assert dnas[name] + [] == dnas[name];
    assert dnas[name := dnas[name]] == dnas;
  }

  lemma AppendedStep(st: Reader, init: seq<string>, last: string)
    requires HasCurrent(st) && st.current.Some? && !IsHeader(last)
    ensures Step(Appended(st, init), last) == Success(Appended(st, init + [last]))
  {
    assert (init + [last])[..|init|] == init;
    var name, dnas := st.current.value, st.records.dnas;
    Overwrite(dnas, name, dnas[name], Body(init), Trim(last));
  }

  /** A header followed by sequence lines: the record named by the header
      is (re)started and ends up holding the stripped lines joined, a new
      name goes to the end of the order, and no other record changes. */
  lemma ReadRecord(before: seq<string>, header: string, body: seq<string>)
    requires Read(before).Success? && IsHeader(header)
    requires forall k :: 0 <= k < |body| ==> !IsHeader(body[k])
    ensures var prev := Read(before).value.records;
      var name := HeaderName(header);
      var after := Read(before + [header] + body);
      after.Success?
      && after.value.current == Some(name)
      && after.value.records.names == (if name in prev.dnas then prev.names else prev.names + [name])
      && after.value.records.dnas == prev.dnas[name := Body(body)]
  {
    ReadSnoc(before, header);
    var prev := Read(before).value.records;
    var name := HeaderName(header);
    var started := Reader(Records(if name in prev.dnas then prev.names else prev.names + [name], prev.dnas[name := []]), Some(name));
    assert Read(before + [header]) == Success(started);
    ReadBody(before + [header], body);
    Restart(prev.dnas, name, Body(body));
  }
}
