/** The search pattern of esqabe/esqabe.py: the estimated word lengths of
    the typed query become a regular expression that matches one word of
    each length, in order, separated by single spaces. */
module Esqabe {
  import opened Common

  /** The regular expression for one word of `n` characters: `[\w-]{n}`. */
  function WordPattern(n: int): (r: string)
    ensures ' ' !in r
  {
    "[\\w-]{" + IntToString(n) + "}"
  }

  function WordPatterns(lengths: seq<int>): (r: seq<string>)
    ensures |r| == |lengths|
    ensures forall i :: 0 <= i < |lengths| ==> r[i] == WordPattern(lengths[i])
  {
    seq(|lengths|, i requires 0 <= i < |lengths| => WordPattern(lengths[i]))
  }

  /** The pattern `generate_pattern` builds: the word patterns joined by
      single spaces. */
  function Pattern(lengths: seq<int>): string
  {
    Join(WordPatterns(lengths), " ")
  }

  /** generate_pattern. */
  method GeneratePattern(kreepWordLen: seq<int>) returns (resultingRegex: string)
    ensures resultingRegex == Pattern(kreepWordLen)
  {
    resultingRegex := "";
    var i := 0;
    while i < |kreepWordLen|
      invariant 0 <= i <= |kreepWordLen|
      invariant resultingRegex == Pattern(kreepWordLen[..i])
      invariant |resultingRegex| > 0 <==> i > 0
    {
      var word := kreepWordLen[i];
      PatternSnoc(kreepWordLen, i);
      if |resultingRegex| > 0 {
        resultingRegex := resultingRegex + " ";
      }
      resultingRegex := resultingRegex + "[\\w-]{" + IntToString(word) + "}";
      i := i + 1;
    }
    assert kreepWordLen[..i] == kreepWordLen;
  }

  /** One more word length appends a space (unless it is the first) and the
      word's pattern. */
  lemma PatternSnoc(lengths: seq<int>, i: nat)
    requires i < |lengths|
    ensures Pattern(lengths[..i + 1]) ==
      if i == 0 then WordPattern(lengths[i]) else Pattern(lengths[..i]) + " " + WordPattern(lengths[i])
  {
    assert WordPatterns(lengths[..i + 1]) == WordPatterns(lengths[..i]) + [WordPattern(lengths[i])];
    JoinSnoc(WordPatterns(lengths[..i]), WordPattern(lengths[i]), " ");
  }

  /** No word lengths give the empty pattern; otherwise splitting the
      pattern at its spaces gives back one word pattern per length, in
      order, so that no space leads, trails or doubles. */
  lemma PatternWords(lengths: seq<int>)
    ensures |lengths| == 0 ==> Pattern(lengths) == ""
    ensures |lengths| > 0 ==> Split(Pattern(lengths), ' ') == WordPatterns(lengths)
  {
    if |lengths| > 0 {
      SplitJoin(WordPatterns(lengths), ' ');
    }
  }

  /** The pattern holds one space fewer than there are word lengths. */
  lemma PatternSpaces(lengths: seq<int>)
    requires |lengths| > 0
    ensures Count(Pattern(lengths), ' ') == |lengths| - 1
  {
    JoinCount(WordPatterns(lengths), ' ');
  }
}
