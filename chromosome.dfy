/** The chromosome whitelist: a data line is kept only when its first column
    names one of the human chromosomes 1..22, X, Y or MT, bare or with a
    `chr` prefix. */
module Chromosome {

  /** Python's `str(n)` for a natural number: its decimal numeral. */
  function NatToString(n: nat): string
    decreases n
  {
    if n < 10 then ["0123456789"[n]]
    else NatToString(n / 10) + ["0123456789"[n % 10]]
  }

  /** `[prefix + str(x) for x in range(1, 23)]` */
  function Numbered(prefix: string): (r: seq<string>)
    ensures |r| == 22
    ensures forall i :: 0 <= i < 22 ==> r[i] == prefix + NatToString(i + 1)
  {
    seq(22, i requires 0 <= i < 22 => prefix + NatToString(i + 1))
  }

  /** The list `is_valid_chr` builds on every call, in the same order. */
  function ValidChromList(): seq<string>
  {
    Numbered("") + ["X", "Y", "MT"] + Numbered("chr") + ["chrX", "chrY", "chrMT"]
  }

  /** `is_valid_chr`: membership in the whitelist. */
  predicate IsValidChr(chrom: string)
  {
    chrom in ValidChromList()
  }

  // An independent description of the same set, by the shape of the name.

  predicate IsDigit(c: char) { '0' <= c <= '9' }

  /** A decimal numeral written without leading zeros. */
  predicate IsCanonicalNumeral(s: string)
  {
    |s| > 0 && (forall k :: 0 <= k < |s| ==> IsDigit(s[k])) && (s[0] == '0' ==> |s| == 1)
  }

  /** The number a string of digits denotes. */
  function NumeralValue(s: string): nat
    requires forall k :: 0 <= k < |s| ==> IsDigit(s[k])
  {
    if |s| == 0 then 0
    else
      assert IsDigit(s[|s| - 1]);
      NumeralValue(s[..|s| - 1]) * 10 + (s[|s| - 1] as int - '0' as int)
  }

  /** The name of a human chromosome: an autosome numbered 1 to 22, X, Y or the mitochondrion MT. */
  predicate IsChromosomeName(s: string)
  {
    s == "X" || s == "Y" || s == "MT" ||
    (IsCanonicalNumeral(s) && 1 <= NumeralValue(s) <= 22)
  }

  lemma DigitAt(d: nat)
    requires d < 10
    ensures IsDigit("0123456789"[d]) && "0123456789"[d] as int - '0' as int == d
  {
  }

  /** `str(n)` is a canonical numeral denoting `n`. */
  lemma {:induction false} NatToStringNumeral(n: nat)
    ensures IsCanonicalNumeral(NatToString(n))
    ensures NumeralValue(NatToString(n)) == n
    decreases n
  {
    var s := NatToString(n);
    if n < 10 {
      DigitAt(n);
    } else {
      NatToStringNumeral(n / 10);
      DigitAt(n % 10);
      var p := NatToString(n / 10);
      assert s[..|s| - 1] == p;
      assert |p| == 1 ==> p[..0] == [];
    }
  }

  /** A canonical numeral with more than one digit denotes a number of at least 10. */
  lemma {:induction false} LongNumeralAtLeastTen(s: string)
    requires IsCanonicalNumeral(s) && |s| >= 2
    ensures NumeralValue(s) >= 10
    decreases |s|
  {
    var p := s[..|s| - 1];
    assert p[0] == s[0];
    if |p| >= 2 {
      LongNumeralAtLeastTen(p);
    } else {
      assert p == [s[0]] && p[..0] == [];
      assert NumeralValue(p) == s[0] as int - '0' as int;
    }
  }

  /** Every canonical numeral is `str` of the number it denotes. */
  lemma {:induction false} CanonicalNumeralIsNatToString(s: string)
    requires IsCanonicalNumeral(s)
    ensures NatToString(NumeralValue(s)) == s
    decreases |s|
  {
    var v := NumeralValue(s);
    if |s| == 1 {
      assert s[..0] == [];
      var d := s[0] as int - '0' as int;
      DigitAt(d);
      assert "0123456789"[d] == s[0];
    } else {
      LongNumeralAtLeastTen(s);
      var p := s[..|s| - 1];
      assert p[0] == s[0];
      CanonicalNumeralIsNatToString(p);
      var d := s[|s| - 1] as int - '0' as int;
      DigitAt(d);
      assert v / 10 == NumeralValue(p) && v % 10 == d;
      assert "0123456789"[d] == s[|s| - 1];
      assert s == p + [s[|s| - 1]];
    }
  }

  /** A numeral denoting 1..22 occurs in `Numbered(prefix)`, behind the prefix. */
  lemma NumeralInNumbered(prefix: string, s: string)
    requires IsCanonicalNumeral(s) && 1 <= NumeralValue(s) <= 22
    ensures prefix + s in Numbered(prefix)
  {
    CanonicalNumeralIsNatToString(s);
    assert Numbered(prefix)[NumeralValue(s) - 1] == prefix + s;
  }

  /** Everything in `Numbered(prefix)` is the prefix followed by a numeral denoting 1..22. */
  lemma NumberedShape(prefix: string, c: string)
    requires c in Numbered(prefix)
    ensures |c| > |prefix| && c[..|prefix|] == prefix
    ensures IsChromosomeName(c[|prefix|..])
  {
    var i :| 0 <= i < 22 && Numbered(prefix)[i] == c;
    NatToStringNumeral(i + 1);
    assert c == prefix + NatToString(i + 1);
    assert c[|prefix|..] == NatToString(i + 1);
  }

  /** The name of a chromosome, bare or behind `chr`. */
  predicate IsChromosomeField(c: string)
  {
    IsChromosomeName(c) || (|c| >= 3 && c[..3] == "chr" && IsChromosomeName(c[3..]))
  }

  /** Everything on the whitelist is a chromosome name, bare or behind `chr`. */
  lemma ValidChrIsChromosomeField(c: string)
    requires IsValidChr(c)
    ensures IsChromosomeField(c)
  {
    var bare, pre := Numbered(""), Numbered("chr");
    assert ValidChromList() == bare + ["X", "Y", "MT"] + pre + ["chrX", "chrY", "chrMT"];
    if c in bare {
      NumberedShape("", c);
      assert c[0..] == c;
    } else if c in pre {
      NumberedShape("chr", c);
    }
  }

  /** Every chromosome name, bare or behind `chr`, is on the whitelist. */
  lemma ChromosomeFieldIsValidChr(c: string)
    requires IsChromosomeField(c)
    ensures IsValidChr(c)
  {
    if IsChromosomeName(c) {
      assert "" + c == c;
      NameIsValidChr("", c);
    } else {
      var s := c[3..];
      assert c == "chr" + s;
      NameIsValidChr("chr", s);
    }
  }

  /** A chromosome name behind either prefix is on the whitelist. */
  lemma NameIsValidChr(prefix: string, s: string)
    requires prefix == "" || prefix == "chr"
    requires IsChromosomeName(s)
    ensures IsValidChr(prefix + s)
  {
    WhitelistParts(prefix + s);
    if IsCanonicalNumeral(s) && 1 <= NumeralValue(s) <= 22 {
      NumeralInNumbered(prefix, s);
    } else if prefix == "" {
      assert prefix + s == s;
    } else {
      assert s == "X" || s == "Y" || s == "MT";
      if s == "X" {
        assert prefix + s == "chrX";
      } else if s == "Y" {
        assert prefix + s == "chrY";
      } else {
        assert prefix + s == "chrMT";
      }
    }
  }

  /** The four parts of the whitelist. */
  lemma WhitelistParts(c: string)
    ensures (c in Numbered("") || c in Numbered("chr") || c in ["X", "Y", "MT"] ||
             c in ["chrX", "chrY", "chrMT"]) ==> IsValidChr(c)
  {
  }

  /** `is_valid_chr(c)` holds exactly when `c` is one of 1..22, X, Y, MT, bare or behind `chr`. */
  lemma IsValidChrIff(c: string)
    ensures IsValidChr(c) <==> IsChromosomeField(c)
  {
    if IsValidChr(c) {
      ValidChrIsChromosomeField(c);
    }
    if IsChromosomeField(c) {
      ChromosomeFieldIsValidChr(c);
    }
  }

  /** The set has exactly 50 names: 25 chromosomes, each bare and prefixed. */
  lemma ValidChromListSize()
    ensures |ValidChromList()| == 50
  {
  }

  /** A contig name such as `GL000220.1` is not on the whitelist. */
  lemma RejectsContigName()
    ensures !IsValidChr("GL000220.1")
  {
    IsValidChrIff("GL000220.1");
    assert !IsDigit("GL000220.1"[0]);
    assert "GL000220.1"[..3] != "chr";
  }

  /** Numerals outside 1..22, or written with a leading zero, are not on the whitelist. */
  lemma RejectsOtherNumerals()
    ensures !IsValidChr("23") && !IsValidChr("0") && !IsValidChr("01")
  {
    IsValidChrIff("23");
    IsValidChrIff("0");
    IsValidChrIff("01");
    assert NumeralValue("23") == 23 by { assert "23"[..1] == "2" && "2"[..0] == ""; }
    assert NumeralValue("0") == 0 by { assert "0"[..0] == ""; }
  }

  /** The `chr` prefix applies to the same names: `chrY` passes, `chrM` does not. */
  lemma PrefixedNames()
    ensures IsValidChr("chrY") && !IsValidChr("chrM")
  {
    IsValidChrIff("chrY");
    IsValidChrIff("chrM");
    assert "chrY"[..3] == "chr" && "chrY"[3..] == "Y";
    assert "chrM"[3..] == "M" && !IsDigit('M');
  }
}
