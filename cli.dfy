/**
 * The command-line colour matcher: each input line is stripped, then either
 * ends the session (`exit` or `quit` in any case), is rejected as a malformed
 * colour, or is looked up in the catalogue.
 */
module Cli {
  import opened Wrappers
  import opened PyText
  import opened ListSort
  import opened Color

  /** What the loop does with one input line. */
  datatype Command = Quit | Reject | Query(hexStr: string)

  /** The characters the validation accepts, `'0123456789ABCDEFabcdef'`. */
  const HexAlphabet: string := "0123456789ABCDEFabcdef"

  /** The validation: exactly six characters, each one from the alphabet. */
  predicate IsSixHex(t: string)
    ensures IsSixHex(t) <==> |t| == 6 && forall i :: 0 <= i < |t| ==> IsHexDigit(t[i])
  {
    AlphabetRun(t);
    |t| == 6 && forall i :: 0 <= i < |t| ==> t[i] in HexAlphabet
  }

  /** The classification of one input line by main's loop. */
  function Classify(line: string): (c: Command)
    ensures c.Query? ==> c.hexStr == Strip(line)
  {
    var t := Strip(line);
    if Lower(t) in ["exit", "quit"] then Quit
    else if !IsSixHex(t) then Reject
    else Query(t)
  }

  /** The session ends exactly on `exit` or `quit`, in any case, after stripping. */
  lemma QuitWords(line: string)
    ensures Classify(line) == Quit <==> AnyCase(Strip(line), "exit") || AnyCase(Strip(line), "quit")
  {
    LowerIsAnyCase(Strip(line), "exit");
    LowerIsAnyCase(Strip(line), "quit");
  }

  /** A character is in the alphabet exactly when it is a hexadecimal digit. */
  lemma AlphabetIsHexDigits(c: char)
    ensures c in HexAlphabet <==> IsHexDigit(c)
  {
    if IsHexDigit(c) {
      if '0' <= c <= '9' {
        assert HexAlphabet[c as int - '0' as int] == c;
      } else if 'A' <= c <= 'F' {
        assert HexAlphabet[10 + c as int - 'A' as int] == c;
      } else {
        assert HexAlphabet[16 + c as int - 'a' as int] == c;
      }
    }
  }

  /** A string is drawn from the alphabet exactly when it is all hexadecimal digits. */
  lemma AlphabetRun(t: string)
    ensures (forall i :: 0 <= i < |t| ==> t[i] in HexAlphabet) <==> (forall i :: 0 <= i < |t| ==> IsHexDigit(t[i]))
  {
    forall i | 0 <= i < |t|
      ensures t[i] in HexAlphabet <==> IsHexDigit(t[i])
    {
      AlphabetIsHexDigits(t[i]);
    }
  }

  /**
   * A line is accepted exactly when its stripped text is six hexadecimal
   * digits; the quit words are checked first, so they are never rejected.
   */
  lemma AcceptedExactly(line: string)
    ensures Classify(line).Query? <==>
      |Strip(line)| == 6 && forall i :: 0 <= i < 6 ==> IsHexDigit(Strip(line)[i])
    ensures Classify(line) == Reject <==>
      !(Lower(Strip(line)) in ["exit", "quit"]) && !IsSixHex(Strip(line))
  {
  }

  /** Surrounding whitespace never changes how a line is classified. */
  lemma ClassifyIgnoresPadding(pre: string, line: string, post: string)
    requires forall i :: 0 <= i < |pre| ==> IsSpace(pre[i])
    requires forall i :: 0 <= i < |post| ==> IsSpace(post[i])
    ensures Classify(pre + line + post) == Classify(line)
  {
    StripIgnoresPadding(pre, line, post);
  }

  /** Classifying the stripped line gives the same answer: the strip happens once, first. */
  lemma ClassifyStripped(line: string)
    ensures Classify(Strip(line)) == Classify(line)
  {
    StripIdempotent(line);
  }

  /** Every accepted line parses as hex_to_rgb reads it, to three values in 0..255, without error. */
  lemma AcceptedParses(line: string)
    ensures Classify(line).Query? ==>
      var t := Classify(line).hexStr;
      |t| == 6 && HexToRgb(t) == Ok(SpelledRgb(t)) && IsByteTriple(SpelledRgb(t))
  {
    if Classify(line).Query? {
      var t := Classify(line).hexStr;
      AcceptedExactly(line);
      assert "" + t == t;
      HexToRgbOfSixDigits("", t);
    }
  }

  /** What main does with one line: stop, report the format error, or show the best matches. */
  datatype Response<L> = Stop | Invalid | Best(hexStr: string, matches: seq<Match<L>>)

  /**
   * One round of main's loop. Only an accepted line is converted to Lab and
   * looked up, with find_closest_colors' defaults `k=5, available_only=False`.
   */
  function Respond<L>(repository: seq<Entry<L>>, hexToLab: string -> L, dist: (L, L) -> real, line: string): (r: Response<L>)
    ensures r.Best? <==> Classify(line).Query?
    ensures r == Stop <==> Classify(line) == Quit
  {
    match Classify(line)
    case Quit => Stop
    case Reject => Invalid
    case Query(h) => Best(h, ClosestColors(repository, hexToLab(h), 5, false, dist))
  }

  /**
   * An accepted line is answered with min(5, catalogue size) catalogue
   * entries, every entry regardless of availability, nearest first.
   */
  lemma BestMatches<L>(repository: seq<Entry<L>>, hexToLab: string -> L, dist: (L, L) -> real, line: string)
    ensures var r := Respond(repository, hexToLab, dist, line);
      r.Best? ==>
      |r.matches| == Min(5, |repository|) &&
      Sorted(r.matches, Distance) &&
      forall m :: m in r.matches ==> m.distance == dist(m.lab, hexToLab(r.hexStr)) && Entry(m.lab, m.row) in repository
  {
    if Classify(line).Query? {
      var target := hexToLab(Classify(line).hexStr);
      CandidatesUnfiltered(repository, target, dist);
      ClosestSorted(repository, target, 5, false, dist);
      ClosestFromRepository(repository, target, 5, false, dist);
    }
  }
}
