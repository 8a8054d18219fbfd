/**
 * The colour codec and the catalogue matcher of color.py. Lab colours and the
 * CIE 1976 colour difference between them are computed in floating point by a
 * third-party library; here a Lab colour is a value of the type parameter `L`
 * and the distance is the parameter `dist`.
 */
module Color {
  import opened Wrappers
  import opened PyText
  import opened ListSort

  /** An RGB triple as hex_to_rgb returns it and rgb_to_hex takes it: Python ints, not only bytes. */
  datatype Rgb = Rgb(r: int, g: int, b: int)

  predicate IsByteTriple(c: Rgb)
  {
    0 <= c.r < 256 && 0 <= c.g < 256 && 0 <= c.b < 256
  }

  /** `s[i:j]`, with Python's clamping of the bounds to the string. */
  function Slice(s: string, i: nat, j: nat): (r: string)
    requires i <= j
    ensures |r| <= j - i
    ensures j <= |s| ==> r == s[i..j]
    ensures j > |s| ==> r == s[(if i <= |s| then i else |s|)..]
  {
    var hi := if j <= |s| then j else |s|;
    var lo := if i <= hi then i else hi;
    s[lo..hi]
  }

  predicate IsHash(c: char)
  {
    c == '#'
  }

  /**
   * `hex_to_rgb`: drop every leading '#', read characters 0-1, 2-3 and 4-5 with
   * `int(., 16)`; anything after them is ignored, and a piece that `int`
   * rejects raises ValueError.
   */
  function HexToRgb(hexStr: string): (r: Result<Rgb>)
    ensures r.Err? ==> r.error == ValueError
  {
    ReadTriple(TrimLeft(hexStr, IsHash))
  }

  /** `tuple(int(h[i:i+2], 16) for i in (0, 2, 4))`. */
  function ReadTriple(h: string): (r: Result<Rgb>)
    ensures r.Err? ==> r.error == ValueError
  {
    Combine(ParseHexInt(Slice(h, 0, 2)), ParseHexInt(Slice(h, 2, 4)), ParseHexInt(Slice(h, 4, 6)))
  }

  /** The triple of three parsed pieces, or the ValueError the first rejected piece raises. */
  function Combine(r: Option<int>, g: Option<int>, b: Option<int>): Result<Rgb>
  {
    if r.Some? && g.Some? && b.Some? then Ok(Rgb(r.value, g.value, b.value)) else Err(ValueError)
  }

  /** `format(c.r, '02x')` and so on, behind a '#': the string `rgb_to_hex` returns. */
  function RgbToHex(c: Rgb): (h: string)
    ensures |h| >= 7 && h[0] == '#'
  {
    "#" + Format02x(c.r) + Format02x(c.g) + Format02x(c.b)
  }

  /** An `sRGBColor` built with `is_upscaled=True`: each channel divided by 255. */
  datatype SrgbColor = SrgbColor(red: real, green: real, blue: real)

  /** `hex_to_srgb`: the parse of `hex_to_rgb`, repeated in the source, scaled into [0, 1]. */
  function HexToSrgb(hexStr: string): (r: Result<SrgbColor>)
    ensures r.Ok? <==> HexToRgb(hexStr).Ok?
    ensures r.Err? ==> r.error == ValueError
    ensures r.Ok? ==>
      var c := HexToRgb(hexStr).value;
      r.value.red * 255.0 == c.r as real && r.value.green * 255.0 == c.g as real && r.value.blue * 255.0 == c.b as real
  {
    var h := TrimLeft(hexStr, IsHash);
    var r := ParseHexInt(Slice(h, 0, 2));
    var g := ParseHexInt(Slice(h, 2, 4));
    var b := ParseHexInt(Slice(h, 4, 6));
    if r.Some? && g.Some? && b.Some? then
      Ok(SrgbColor(r.value as real / 255.0, g.value as real / 255.0, b.value as real / 255.0))
    else Err(ValueError)
  }

  /** The byte two hexadecimal digits spell, the first one the more significant. */
  function ByteValue(hi: char, lo: char): int
  {
    16 * DigitValue(hi) + DigitValue(lo)
  }

  /** The triple that a '#'-free string starting with six hexadecimal digits spells. */
  function SpelledRgb(t: string): Rgb
    requires |t| >= 6
  {
    Rgb(ByteValue(t[0], t[1]), ByteValue(t[2], t[3]), ByteValue(t[4], t[5]))
  }

  predicate StartsWithSixHexDigits(t: string)
  {
    |t| >= 6 && forall i :: 0 <= i < 6 ==> IsHexDigit(t[i])
  }

  predicate AllHashes(s: string)
  {
    forall i :: 0 <= i < |s| ==> s[i] == '#'
  }

  lemma ParseTwoDigits(s: string)
    requires |s| == 2 && IsHexDigit(s[0]) && IsHexDigit(s[1])
    ensures ParseHexInt(s) == Some(ByteValue(s[0], s[1]))
  {
    ParsePlainDigits(s);
    assert s[..1] == [s[0]] && [s[0]][..0] == [];
    assert HexValue([s[0]]) == DigitValue(s[0]);
  }

  /** Characters i and i + 1 of `h`, both hexadecimal digits, read as one byte. */
  lemma ParsePieceAt(h: string, i: nat)
    requires i + 2 <= |h| && IsHexDigit(h[i]) && IsHexDigit(h[i + 1])
    ensures ParseHexInt(Slice(h, i, i + 2)) == Some(ByteValue(h[i], h[i + 1]))
  {
    var p := h[i..i + 2];
    assert p[0] == h[i] && p[1] == h[i + 1];
    ParseTwoDigits(p);
  }

  /**
   * After any number of '#', six hexadecimal digits in either case parse to
   * the triple they spell, three bytes; characters after the sixth are ignored.
   */
  lemma HexToRgbOfSixDigits(hashes: string, t: string)
    requires AllHashes(hashes) && StartsWithSixHexDigits(t)
    ensures HexToRgb(hashes + t) == Ok(SpelledRgb(t))
    ensures IsByteTriple(SpelledRgb(t))
  {
    TrimLeftDropsPrefix(hashes, t, IsHash);
    assert TrimLeft(t, IsHash) == t;
    ReadSixDigits(t);
  }

  lemma ReadSixDigits(t: string)
    requires StartsWithSixHexDigits(t)
    ensures ReadTriple(t) == Ok(SpelledRgb(t))
  {
    ParsePieceAt(t, 0);
    ParsePieceAt(t, 2);
    ParsePieceAt(t, 4);
    ReadTripleOfParsed(t, ByteValue(t[0], t[1]), ByteValue(t[2], t[3]), ByteValue(t[4], t[5]));
  }

  lemma ReadTripleOfParsed(h: string, a: int, b: int, c: int)
    requires ParseHexInt(Slice(h, 0, 2)) == Some(a)
    requires ParseHexInt(Slice(h, 2, 4)) == Some(b)
    requires ParseHexInt(Slice(h, 4, 6)) == Some(c)
    ensures ReadTriple(h) == Ok(Rgb(a, b, c))
  {
  }

  /** A digit pair spells the same byte in either case. */
  lemma SpelledRgbIgnoresCase(t: string)
    requires StartsWithSixHexDigits(t)
    ensures StartsWithSixHexDigits(Lower(t)) && SpelledRgb(Lower(t)) == SpelledRgb(t)
  {
    forall i | 0 <= i < 6
      ensures IsHexDigit(Lower(t)[i]) && DigitValue(Lower(t)[i]) == DigitValue(t[i])
    {
      DigitValueIgnoresCase(t[i]);
    }
  }

  /** Upper- and lower-case spellings of the six digits parse to the same triple. */
  lemma HexToRgbIgnoresCase(hashes: string, t: string)
    requires AllHashes(hashes) && StartsWithSixHexDigits(t)
    ensures StartsWithSixHexDigits(Lower(t))
    ensures HexToRgb(hashes + Lower(t)) == HexToRgb(hashes + t)
  {
    SpelledRgbIgnoresCase(t);
    HexToRgbOfSixDigits(hashes, t);
    HexToRgbOfSixDigits(hashes, Lower(t));
  }

  /** A triple of bytes is written as '#' and six lower-case digits, and only a triple of bytes is. */
  lemma RgbToHexShape(c: Rgb)
    ensures IsByteTriple(c) <==>
      var h := RgbToHex(c);
      |h| == 7 && h[0] == '#' && forall i :: 1 <= i < 7 ==> IsLowerHexDigit(h[i])
  {
    Format02xByte(c.r);
    Format02xByte(c.g);
    Format02xByte(c.b);
    var h := RgbToHex(c);
    if |h| == 7 {
      var x, y, z := Format02x(c.r), Format02x(c.g), Format02x(c.b);
      assert |x| == 2 && |y| == 2 && |z| == 2;
      assert x[0] == h[1] && x[1] == h[2] && y[0] == h[3] && y[1] == h[4] && z[0] == h[5] && z[1] == h[6];
    }
  }

  /** The two digits `format(n, '02x')` writes for a byte spell that byte again. */
  lemma ByteValueOfHexChars(n: int)
    requires 0 <= n < 256
    ensures ByteValue(HexChar(n / 16), HexChar(n % 16)) == n
  {
  }

  /** One '#' and six hexadecimal digits parse to the triple the digits spell. */
  lemma HexToRgbOfHashed(h: string)
    requires |h| >= 7 && h[0] == '#' && StartsWithSixHexDigits(h[1..])
    ensures HexToRgb(h) == Ok(SpelledRgb(h[1..]))
  {
    var t := h[1..];
    assert !IsHash(t[0]);
    assert TrimLeft(t, IsHash) == t;
    ReadSixDigits(t);
  }

  /** The six digits after the '#' that rgb_to_hex writes for a triple of bytes spell that triple. */
  lemma RgbToHexSpells(c: Rgb)
    requires IsByteTriple(c)
    ensures var h := RgbToHex(c);
      |h| == 7 && h[0] == '#' && StartsWithSixHexDigits(h[1..]) && SpelledRgb(h[1..]) == c
  {
    Format02xByte(c.r);
    Format02xByte(c.g);
    Format02xByte(c.b);
    var h := RgbToHex(c);
    assert h[1] == HexChar(c.r / 16) && h[2] == HexChar(c.r % 16);
    assert h[3] == HexChar(c.g / 16) && h[4] == HexChar(c.g % 16);
    assert h[5] == HexChar(c.b / 16) && h[6] == HexChar(c.b % 16);
    var t := h[1..];
    assert t[0] == h[1] && t[1] == h[2] && t[2] == h[3] && t[3] == h[4] && t[4] == h[5] && t[5] == h[6];
    ByteValueOfHexChars(c.r);
    ByteValueOfHexChars(c.g);
    ByteValueOfHexChars(c.b);
  }

  /** hex_to_rgb(rgb_to_hex(c)) == c for every triple of bytes. */
  lemma RgbHexRoundTrip(c: Rgb)
    requires IsByteTriple(c)
    ensures HexToRgb(RgbToHex(c)) == Ok(c)
  {
    RgbToHexSpells(c);
    HexToRgbOfHashed(RgbToHex(c));
  }

  /** The two digits of a byte spelled in lower case are written back by `format(., '02x')`. */
  lemma Format02xOfDigits(hi: char, lo: char)
    requires IsLowerHexDigit(hi) && IsLowerHexDigit(lo)
    ensures Format02x(ByteValue(hi, lo)) == [hi, lo]
  {
    var n := ByteValue(hi, lo);
    Format02xByte(n);
    assert n / 16 == DigitValue(hi) && n % 16 == DigitValue(lo);
    HexCharOfDigit(hi);
    HexCharOfDigit(lo);
  }

  /** Six lower-case digits are written back, behind a '#', from the triple they spell. */
  lemma SpelledRgbWrittenBack(t: string)
    requires |t| == 6 && forall i :: 0 <= i < 6 ==> IsLowerHexDigit(t[i])
    ensures RgbToHex(SpelledRgb(t)) == "#" + t
  {
    Format02xOfDigits(t[0], t[1]);
    Format02xOfDigits(t[2], t[3]);
    Format02xOfDigits(t[4], t[5]);
    assert t == [t[0], t[1]] + [t[2], t[3]] + [t[4], t[5]];
  }

  /** The other direction: six lower-case digits, parsed and written back, give '#' and the same digits. */
  lemma HexRgbRoundTrip(t: string)
    requires |t| == 6 && forall i :: 0 <= i < 6 ==> IsLowerHexDigit(t[i])
    ensures HexToRgb(t).Ok? && RgbToHex(HexToRgb(t).value) == "#" + t
  {
    assert TrimLeft(t, IsHash) == t;
    ReadSixDigits(t);
    SpelledRgbWrittenBack(t);
  }

  /** A string that does not start with '#' reads as its three parsed pieces. */
  lemma HexToRgbOfPieces(h: string, a: int, b: int, c: int)
    requires |h| > 0 && !IsHash(h[0])
    requires ParseHexInt(Slice(h, 0, 2)) == Some(a)
    requires ParseHexInt(Slice(h, 2, 4)) == Some(b)
    requires ParseHexInt(Slice(h, 4, 6)) == Some(c)
    ensures HexToRgb(h) == Ok(Rgb(a, b, c))
  {
    assert TrimLeft(h, IsHash) == h;
    ReadTripleOfParsed(h, a, b, c);
  }

  /** A piece that `int(., 16)` rejects is a ValueError. */
  lemma RejectsNonHexDigits()
    ensures HexToRgb("ZZZZZZ") == Err(ValueError)
  {
    assert TrimLeft("ZZZZZZ", IsHash) == "ZZZZZZ";
    assert Slice("ZZZZZZ", 0, 2) == "ZZ";
    assert IntLiteral("ZZ") == "ZZ";
    assert ParseHexInt("ZZ") == None;
  }

  /** A short string is not rejected: the slices are clamped, so "12345" reads as (0x12, 0x34, 0x5). */
  lemma ReadsShortInput()
    ensures HexToRgb("12345") == Ok(Rgb(18, 52, 5))
  {
    var h := "12345";
    assert Slice(h, 0, 2) == "12" && Slice(h, 2, 4) == "34" && Slice(h, 4, 6) == "5";
    ParseTwoDigits("12");
    ParseTwoDigits("34");
    ParsePlainDigits("5");
    assert HexValue("5") == 5 by {
      assert "5"[..0] == [];
    }
    HexToRgbOfPieces(h, 18, 52, 5);
  }

  /** `int(., 16)` takes a sign and surrounding whitespace: "+f", " 1" and "-1" read as 15, 1 and -1. */
  lemma IntAcceptsSignsAndSpaces()
    ensures ParseHexInt("+f") == Some(15)
    ensures ParseHexInt(" 1") == Some(1)
    ensures ParseHexInt("-1") == Some(-1)
  {
    assert IntLiteral("+f") == "+f" && SplitSign("+f") == (false, "f");
    assert TrimLeft(" 1", IsIntSpace) == "1" && IntLiteral(" 1") == "1";
    assert "f"[..0] == [] && "1"[..0] == [];
    ParseNegatedDigits("-1");
    assert "-1"[1..] == "1";
  }

  /** So hex_to_rgb accepts signed and padded pieces: "+f 1-1" reads as (15, 1, -1). */
  lemma AcceptsSignsAndSpaces()
    ensures HexToRgb("+f 1-1") == Ok(Rgb(15, 1, -1))
  {
    var h := "+f 1-1";
    assert Slice(h, 0, 2) == "+f" && Slice(h, 2, 4) == " 1" && Slice(h, 4, 6) == "-1";
    IntAcceptsSignsAndSpaces();
    HexToRgbOfPieces(h, 15, 1, -1);
  }

  /** Leading '#'s are all dropped and characters after the sixth digit are ignored. */
  lemma TruncatesLongInput()
    ensures HexToRgb("##a1B2c3ff") == Ok(Rgb(161, 178, 195))
  {
    var t := "a1B2c3ff";
    assert TrimLeft("##a1B2c3ff", IsHash) == t;
    ReadSixDigits(t);
    assert SpelledRgb(t) == Rgb(161, 178, 195) by {
      assert ByteValue('a', '1') == 161 && ByteValue('B', '2') == 178 && ByteValue('c', '3') == 195;
    }
  }

  // ---------------------------------------------------------------------------
  // The catalogue matcher

  /** A catalogue row as csv.DictReader yields it: the text of the columns the code reads. */
  datatype Row = Row(hex: string, coco: string, mard: string, available: string)

  /** One repository element: the Lab colour computed when the catalogue was loaded, and its row. */
  datatype Entry<L> = Entry(lab: L, row: Row)

  /** One element of find_closest_colors' result, the tuple (distance, Lab colour, row). */
  datatype Match<L> = Match(distance: real, lab: L, row: Row)

  /** The sort key `lambda x: x[0]`. */
  function Distance<L>(m: Match<L>): real
  {
    m.distance
  }

  /** `row['available'].lower() == 'true'`. */
  predicate IsAvailable(row: Row)
    ensures IsAvailable(row) <==> AnyCase(row.available, "true")
  {
    LowerIsAnyCase(row.available, "true");
    Lower(row.available) == "true"
  }

  /** Whether the filter of find_closest_colors lets the row through. */
  predicate Eligible(availableOnly: bool, row: Row)
  {
    !availableOnly || IsAvailable(row)
  }

  /** `distances` as the loop of find_closest_colors leaves it after the entries of `repository`. */
  function Candidates<L>(repository: seq<Entry<L>>, target: L, availableOnly: bool, dist: (L, L) -> real): (r: seq<Match<L>>)
    ensures |r| <= |repository|
  {
    if repository == [] then []
    else
      var e := repository[|repository| - 1];
      var before := Candidates(repository[..|repository| - 1], target, availableOnly, dist);
      if Eligible(availableOnly, e.row) then before + [Match(dist(e.lab, target), e.lab, e.row)] else before
  }

  /** What find_closest_colors returns: the first `k` candidates after the stable sort by distance. */
  function ClosestColors<L>(repository: seq<Entry<L>>, target: L, k: nat, availableOnly: bool, dist: (L, L) -> real): (r: seq<Match<L>>)
    ensures |r| <= k && |r| <= |repository|
  {
    var sorted := SortBy(Candidates(repository, target, availableOnly, dist), Distance);
    sorted[..Min(k, |sorted|)]
  }

  /** The positions of the repository entries the filter lets through. */
  function EligibleIndices<L>(repository: seq<Entry<L>>, availableOnly: bool): set<nat>
  {
    set i: nat | i < |repository| && Eligible(availableOnly, repository[i].row)
  }

  /** Every candidate is an eligible repository entry paired with its distance to the query. */
  lemma {:induction false} CandidatesFromRepository<L>(repository: seq<Entry<L>>, target: L, availableOnly: bool, dist: (L, L) -> real)
    ensures forall m :: m in Candidates(repository, target, availableOnly, dist) ==>
      Eligible(availableOnly, m.row) && m.distance == dist(m.lab, target) && Entry(m.lab, m.row) in repository
  {
    if repository != [] {
      var init := repository[..|repository| - 1];
      CandidatesFromRepository(init, target, availableOnly, dist);
      assert forall e :: e in init ==> e in repository;
    }
  }

  /** Adding an entry adds its position to the eligible ones exactly when the filter lets it through. */
  lemma EligibleIndicesSnoc<L>(repository: seq<Entry<L>>, availableOnly: bool)
    requires repository != []
    ensures var n := |repository| - 1;
      var before := EligibleIndices(repository[..n], availableOnly);
      n !in before &&
      EligibleIndices(repository, availableOnly) == if Eligible(availableOnly, repository[n].row) then before + {n} else before
  {
    var n := |repository| - 1;
    assert forall i :: 0 <= i < n ==> repository[..n][i] == repository[i];
  }

  /** There is one candidate per eligible entry. */
  lemma {:induction false} CandidatesCount<L>(repository: seq<Entry<L>>, target: L, availableOnly: bool, dist: (L, L) -> real)
    ensures |Candidates(repository, target, availableOnly, dist)| == |EligibleIndices(repository, availableOnly)|
  {
    if repository == [] {
      assert EligibleIndices(repository, availableOnly) == {};
    } else {
      CandidatesCount(repository[..|repository| - 1], target, availableOnly, dist);
      EligibleIndicesSnoc(repository, availableOnly);
    }
  }

  /** Without the filter, entry i of the repository is candidate i. */
  lemma {:induction false} CandidatesUnfiltered<L>(repository: seq<Entry<L>>, target: L, dist: (L, L) -> real)
    ensures |Candidates(repository, target, false, dist)| == |repository|
    ensures forall i :: 0 <= i < |repository| ==>
      Candidates(repository, target, false, dist)[i] == Match(dist(repository[i].lab, target), repository[i].lab, repository[i].row)
  {
    if repository != [] {
      CandidatesUnfiltered(repository[..|repository| - 1], target, dist);
    }
  }

  /** The positions of the entries the filter lets through, in catalogue order. */
  function EligiblePositions<L>(repository: seq<Entry<L>>, availableOnly: bool): (p: seq<nat>)
    ensures forall t :: 0 <= t < |p| ==> p[t] < |repository| && Eligible(availableOnly, repository[p[t]].row)
    ensures forall t, u :: 0 <= t < u < |p| ==> p[t] < p[u]
    ensures forall i :: 0 <= i < |repository| && Eligible(availableOnly, repository[i].row) ==> i in p
  {
    if repository == [] then []
    else
      var n := |repository| - 1;
      var before := EligiblePositions(repository[..n], availableOnly);
      assert forall i :: 0 <= i < n ==> repository[..n][i] == repository[i];
      if Eligible(availableOnly, repository[n].row) then before + [n] else before
  }

  /**
   * The candidates are exactly the eligible entries, in catalogue order, each
   * paired with its distance: candidate t is the entry at eligible position t.
   */
  lemma {:induction false} CandidatesAtPositions<L>(repository: seq<Entry<L>>, target: L, availableOnly: bool, dist: (L, L) -> real)
    ensures var c := Candidates(repository, target, availableOnly, dist);
      var p := EligiblePositions(repository, availableOnly);
      |c| == |p| &&
      forall t :: 0 <= t < |p| ==> c[t] == Match(dist(repository[p[t]].lab, target), repository[p[t]].lab, repository[p[t]].row)
  {
    if repository != [] {
      var n := |repository| - 1;
      var before := repository[..n];
      CandidatesAtPositions(before, target, availableOnly, dist);
      var c0 := Candidates(before, target, availableOnly, dist);
      var p0 := EligiblePositions(before, availableOnly);
      var c := Candidates(repository, target, availableOnly, dist);
      var p := EligiblePositions(repository, availableOnly);
      assert c == if Eligible(availableOnly, repository[n].row) then c0 + [Match(dist(repository[n].lab, target), repository[n].lab, repository[n].row)] else c0;
      assert p == if Eligible(availableOnly, repository[n].row) then p0 + [n] else p0;
      forall t | 0 <= t < |p0|
        ensures c[t] == Match(dist(repository[p[t]].lab, target), repository[p[t]].lab, repository[p[t]].row)
      {
        assert c[t] == c0[t] && p[t] == p0[t];
        assert before[p0[t]] == repository[p0[t]];
      }
    }
  }

  /**
   * Every eligible entry becomes a candidate, and of two eligible entries the
   * earlier one in the catalogue comes first among the candidates.
   */
  lemma CandidatesKeepOrder<L>(repository: seq<Entry<L>>, target: L, availableOnly: bool, dist: (L, L) -> real)
    ensures var c := Candidates(repository, target, availableOnly, dist);
      forall i :: 0 <= i < |repository| && Eligible(availableOnly, repository[i].row) ==>
        Match(dist(repository[i].lab, target), repository[i].lab, repository[i].row) in c
    ensures var c := Candidates(repository, target, availableOnly, dist);
      forall i, j :: 0 <= i < j < |repository| && Eligible(availableOnly, repository[i].row) && Eligible(availableOnly, repository[j].row) ==>
        exists a, b :: (0 <= a < b < |c| &&
          c[a] == Match(dist(repository[i].lab, target), repository[i].lab, repository[i].row) &&
          c[b] == Match(dist(repository[j].lab, target), repository[j].lab, repository[j].row))
  {
    var c := Candidates(repository, target, availableOnly, dist);
    var p := EligiblePositions(repository, availableOnly);
    CandidatesAtPositions(repository, target, availableOnly, dist);
    forall i | 0 <= i < |repository| && Eligible(availableOnly, repository[i].row)
      ensures Match(dist(repository[i].lab, target), repository[i].lab, repository[i].row) in c
    {
      var a :| 0 <= a < |p| && p[a] == i;
      assert c[a] == Match(dist(repository[i].lab, target), repository[i].lab, repository[i].row);
    }
    forall i, j | 0 <= i < j < |repository| && Eligible(availableOnly, repository[i].row) && Eligible(availableOnly, repository[j].row)
      ensures exists a, b :: (0 <= a < b < |c| &&
          c[a] == Match(dist(repository[i].lab, target), repository[i].lab, repository[i].row) &&
          c[b] == Match(dist(repository[j].lab, target), repository[j].lab, repository[j].row))
    {
      var a :| 0 <= a < |p| && p[a] == i;
      var b :| 0 <= b < |p| && p[b] == j;
      assert c[a] == Match(dist(repository[i].lab, target), repository[i].lab, repository[i].row);
      assert c[b] == Match(dist(repository[j].lab, target), repository[j].lab, repository[j].row);
    }
  }

  /** The result holds min(k, number of eligible entries) matches; k = 0 gives none. */
  lemma ClosestLength<L>(repository: seq<Entry<L>>, target: L, k: nat, availableOnly: bool, dist: (L, L) -> real)
    ensures |ClosestColors(repository, target, k, availableOnly, dist)| == Min(k, |EligibleIndices(repository, availableOnly)|)
  {
    CandidatesCount(repository, target, availableOnly, dist);
  }

  /** With `available_only`, every returned row is marked available; every returned match comes from the repository. */
  lemma ClosestFromRepository<L>(repository: seq<Entry<L>>, target: L, k: nat, availableOnly: bool, dist: (L, L) -> real)
    ensures forall m :: m in ClosestColors(repository, target, k, availableOnly, dist) ==>
      (availableOnly ==> IsAvailable(m.row)) && m.distance == dist(m.lab, target) && Entry(m.lab, m.row) in repository
  {
    var candidates := Candidates(repository, target, availableOnly, dist);
    CandidatesFromRepository(repository, target, availableOnly, dist);
    var sorted := SortBy(candidates, Distance);
    forall m | m in ClosestColors(repository, target, k, availableOnly, dist)
      ensures m in candidates
    {
      assert m in sorted;
      assert m in multiset(sorted);
    }
  }

  /** The result is in non-decreasing order of distance. */
  lemma ClosestSorted<L>(repository: seq<Entry<L>>, target: L, k: nat, availableOnly: bool, dist: (L, L) -> real)
    ensures Sorted(ClosestColors(repository, target, k, availableOnly, dist), Distance)
  {
    SortBySorted(Candidates(repository, target, availableOnly, dist), Distance);
  }

  /** No candidate left out is nearer to the query than any candidate returned. */
  lemma ClosestAreNearest<L>(repository: seq<Entry<L>>, target: L, k: nat, availableOnly: bool, dist: (L, L) -> real)
    ensures var candidates := Candidates(repository, target, availableOnly, dist);
      var closest := ClosestColors(repository, target, k, availableOnly, dist);
      forall m, i :: m in multiset(candidates) - multiset(closest) && 0 <= i < |closest| ==>
        Distance(closest[i]) <= Distance(m)
  {
    var candidates := Candidates(repository, target, availableOnly, dist);
    var sorted := SortBy(candidates, Distance);
    SortBySorted(candidates, Distance);
    SortedPrefixIsLeast(sorted, Min(k, |sorted|), Distance);
  }

  /** Among equal distances the result keeps repository order: it takes a prefix of each tie group. */
  lemma ClosestKeepsTies<L>(repository: seq<Entry<L>>, target: L, k: nat, availableOnly: bool, dist: (L, L) -> real, d: real)
    ensures WithKey(ClosestColors(repository, target, k, availableOnly, dist), Distance, d)
         <= WithKey(Candidates(repository, target, availableOnly, dist), Distance, d)
  {
    var candidates := Candidates(repository, target, availableOnly, dist);
    var sorted := SortBy(candidates, Distance);
    WithKeyOfPrefix(sorted, Min(k, |sorted|), Distance, d);
    SortByStable(candidates, Distance, d);
  }

  /** The result is the first k of ANY ordering of the candidates that is sorted and keeps ties in order. */
  lemma ClosestIsPrefixOfStableOrder<L>(repository: seq<Entry<L>>, target: L, k: nat, availableOnly: bool, dist: (L, L) -> real, t: seq<Match<L>>)
    requires Sorted(t, Distance)
    requires forall d :: WithKey(t, Distance, d) == WithKey(Candidates(repository, target, availableOnly, dist), Distance, d)
    ensures ClosestColors(repository, target, k, availableOnly, dist) == t[..Min(k, |t|)]
  {
    SortByIsTheStableSort(Candidates(repository, target, availableOnly, dist), t, Distance);
  }

  /**
   * `find_closest_colors(repository, target_lab_color, k, available_only)`:
   * collect the eligible entries with their distances, sort them stably by
   * distance, keep the first k.
   */
  method FindClosestColors<L>(repository: seq<Entry<L>>, target: L, k: nat, availableOnly: bool, dist: (L, L) -> real)
    returns (closest: seq<Match<L>>)
    ensures closest == ClosestColors(repository, target, k, availableOnly, dist)
    ensures |closest| == Min(k, |EligibleIndices(repository, availableOnly)|)
    ensures Sorted(closest, Distance)
    ensures forall m :: m in closest ==> Eligible(availableOnly, m.row) && m.distance == dist(m.lab, target)
  {
    var distances: seq<Match<L>> := [];
    for i := 0 to |repository|
      invariant distances == Candidates(repository[..i], target, availableOnly, dist)
    {
      var e := repository[i];
      assert repository[..i + 1][..i] == repository[..i];
      if availableOnly && !IsAvailable(e.row) {
        continue;
      }
      var d := dist(e.lab, target);
      distances := distances + [Match(d, e.lab, e.row)];
    }
    assert repository[..|repository|] == repository;
    distances := SortBy(distances, Distance);
    closest := distances[..Min(k, |distances|)];
    ClosestLength(repository, target, k, availableOnly, dist);
    ClosestSorted(repository, target, k, availableOnly, dist);
    ClosestFromRepository(repository, target, k, availableOnly, dist);
  }
}
