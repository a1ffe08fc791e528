/**
 * The keyword extractor: the short search phrase derived from a claim by
 * cutting it at the first delimiter phrase of a fixed priority list.
 */
module KeywordExtractor {
  import opened Wrappers
  import opened Strings

  /** The delimiter phrases, in priority order. */
  const Splitters: seq<string> :=
    [" who ", " that ", " which ", " is ", " has ",
     " was ", " were ", " won ", " scored ", " can "]

  /** The scan over `splitters`: the first phrase (in list order) that occurs in
      `lowered` cuts `claim` at that phrase's first occurrence; with none, the whole
      claim is kept. Either way the kept prefix is stripped. */
  function CutAtFirstListed(claim: string, lowered: string, splitters: seq<string>): (r: string)
    requires |lowered| == |claim|
    ensures |r| <= |claim|
    ensures exists n :: 0 <= n <= |claim| && r == Strip(claim[..n])
  {
    if splitters == [] then
      assert claim[..|claim|] == claim;
      Strip(claim)
    else
      match Find(splitters[0], lowered)
      case Some(i) => Strip(claim[..i])
      case None => CutAtFirstListed(claim, lowered, splitters[1..])
  }

  /** `extract_main_keyword`: the claim before its highest-priority delimiter, stripped. */
  function ExtractMainKeyword(claim: string): (keyword: string)
    ensures |keyword| <= |claim|
  {
    CutAtFirstListed(claim, Lower(claim), Splitters)
  }

  /** The keyword is a stripped prefix of the claim, so it has no surrounding whitespace. */
  lemma KeywordIsStrippedPrefix(claim: string)
    ensures exists n :: 0 <= n <= |claim| && ExtractMainKeyword(claim) == Strip(claim[..n])
    ensures Strip(ExtractMainKeyword(claim)) == ExtractMainKeyword(claim)
  {
    var n :| 0 <= n <= |claim| && ExtractMainKeyword(claim) == Strip(claim[..n]);
    StripIdempotent(claim[..n]);
  }

  /** The scan over an arbitrary list stops at the earliest-listed phrase that occurs,
      and cuts at that phrase's first occurrence. */
  lemma {:induction false} CutAtListed(claim: string, lowered: string, splitters: seq<string>, k: nat, i: nat)
    requires |lowered| == |claim|
    requires k < |splitters|
    requires forall m, j :: 0 <= m < k ==> !OccursAt(splitters[m], lowered, j)
    requires OccursAt(splitters[k], lowered, i)
    requires forall j :: 0 <= j < i ==> !OccursAt(splitters[k], lowered, j)
    ensures CutAtFirstListed(claim, lowered, splitters) == Strip(claim[..i])
  {
    FindIsFirst(splitters[0], lowered);
    if k == 0 {
      assert Find(splitters[0], lowered) == Some(i);
    } else {
      assert forall j :: !OccursAt(splitters[0], lowered, j);
      var rest := splitters[1..];
      forall m, j | 0 <= m < k - 1
        ensures !OccursAt(rest[m], lowered, j)
      {
        assert rest[m] == splitters[m + 1];
      }
      CutAtListed(claim, lowered, rest, k - 1, i);
    }
  }

  /** With no phrase of the list occurring, the scan keeps the whole claim. */
  lemma {:induction false} CutAtNone(claim: string, lowered: string, splitters: seq<string>)
    requires |lowered| == |claim|
    requires forall m, j :: 0 <= m < |splitters| ==> !OccursAt(splitters[m], lowered, j)
    ensures CutAtFirstListed(claim, lowered, splitters) == Strip(claim)
  {
    if splitters != [] {
      FindIsFirst(splitters[0], lowered);
      assert forall j :: !OccursAt(splitters[0], lowered, j);
      var rest := splitters[1..];
      forall m, j | 0 <= m < |rest|
        ensures !OccursAt(rest[m], lowered, j)
      {
        assert rest[m] == splitters[m + 1];
      }
      CutAtNone(claim, lowered, rest);
    }
  }

  /** Priority wins over position: when the `k`-th delimiter is the first of the list to
      occur in the lower-cased claim, the keyword is the claim before that delimiter's
      first occurrence, even if a later-listed delimiter occurs further left. */
  lemma KeywordAtFirstListedDelimiter(claim: string, k: nat, i: nat)
    requires k < |Splitters|
    requires forall m, j :: 0 <= m < k ==> !OccursAt(Splitters[m], Lower(claim), j)
    requires OccursAt(Splitters[k], Lower(claim), i)
    requires forall j :: 0 <= j < i ==> !OccursAt(Splitters[k], Lower(claim), j)
    ensures ExtractMainKeyword(claim) == Strip(claim[..i])
  {
    CutAtListed(claim, Lower(claim), Splitters, k, i);
  }

  /** Without any delimiter, the keyword is the stripped claim. */
  lemma KeywordWithoutDelimiter(claim: string)
    requires forall m, j :: 0 <= m < |Splitters| ==> !OccursAt(Splitters[m], Lower(claim), j)
    ensures ExtractMainKeyword(claim) == Strip(claim)
  {
    CutAtNone(claim, Lower(claim), Splitters);
  }
}

/** Worked instances of the extractor's behaviour. */
module KeywordExamples {
  import opened Strings
  import opened KeywordExtractor

  /** An occurrence checked character by character. */
  lemma SpellsAt(p: string, t: string, i: nat)
    requires i + |p| <= |t|
    requires forall k :: 0 <= k < |p| ==> t[i + k] == p[k]
    ensures OccursAt(p, t, i)
  {
    assert t[i..i + |p|] == p;
  }

  /** "Art is a gift that heals": " is " occurs first in the text, but " that " comes
      earlier in the list, so the keyword is "Art is a gift" rather than "Art". */
  lemma PriorityOverPositionExample()
    ensures ExtractMainKeyword("Art is a gift that heals") == "Art is a gift"
  {
    var claim := "Art is a gift that heals";
    ArtCut();
    assert claim[..13] == "Art is a gift";
    StripExact("Art is a gift");
  }

  lemma ArtCut()
    ensures var claim := "Art is a gift that heals";
      ExtractMainKeyword(claim) == Strip(claim[..13])
  {
    ArtLower();
    ArtScan();
    assert Splitters[0] == " who " && Splitters[1] == " that ";
    KeywordAtFirstListedDelimiter("Art is a gift that heals", 1, 13);
  }

  lemma ArtLower()
    ensures Lower("Art is a gift that heals") == "art is a gift that heals"
  {
    var s := "Art is a gift that heals";
    assert Lower(s)[0] == 'a';
    forall k | 1 <= k < |s|
      ensures Lower(s)[k] == s[k]
    {
    }
  }

  lemma ArtScan()
    ensures forall j :: !OccursAt(" who ", "art is a gift that heals", j)
    ensures OccursAt(" that ", "art is a gift that heals", 13)
    ensures forall j :: 0 <= j < 13 ==> !OccursAt(" that ", "art is a gift that heals", j)
  {
    var low := "art is a gift that heals";
    AbsentCharBlocks(" who ", low, 1, 0, |low|);
    AbsentCharBlocks(" that ", low, 2, 0, 15);
    SpellsAt(" that ", low, 13);
  }

  /** "Mars has red soil" is cut at " has ", the first listed delimiter it contains. */
  lemma FirstListedExample()
    ensures ExtractMainKeyword("Mars has red soil") == "Mars"
  {
    var claim := "Mars has red soil";
    MarsCut();
    assert claim[..4] == "Mars";
    StripExact("Mars");
  }

  lemma MarsCut()
    ensures var claim := "Mars has red soil";
      ExtractMainKeyword(claim) == Strip(claim[..4])
  {
    MarsLower();
    MarsScan();
    assert Splitters[0] == " who " && Splitters[1] == " that "
      && Splitters[2] == " which " && Splitters[3] == " is " && Splitters[4] == " has ";
    KeywordAtFirstListedDelimiter("Mars has red soil", 4, 4);
  }

  lemma MarsLower()
    ensures Lower("Mars has red soil") == "mars has red soil"
  {
    var s := "Mars has red soil";
    assert Lower(s)[0] == 'm';
    forall k | 1 <= k < |s|
      ensures Lower(s)[k] == s[k]
    {
    }
  }

  /** Of the first four delimiters, none occurs: the lowered claim has no 'w', no 't',
      and its one 'i' is too close to the end for " is ". */
  lemma MarsScan()
    ensures forall m, j :: 0 <= m < 4 ==> !OccursAt(Splitters[m], "mars has red soil", j)
    ensures OccursAt(" has ", "mars has red soil", 4)
    ensures forall j :: 0 <= j < 4 ==> !OccursAt(" has ", "mars has red soil", j)
  {
    var low := "mars has red soil";
    AbsentCharBlocks(" who ", low, 1, 0, |low|);
    AbsentCharBlocks(" that ", low, 1, 0, |low|);
    AbsentCharBlocks(" which ", low, 1, 0, |low|);
    AbsentCharBlocks(" is ", low, 1, 0, 15);
    assert Splitters[0] == " who " && Splitters[1] == " that "
      && Splitters[2] == " which " && Splitters[3] == " is ";
    AbsentCharBlocks(" has ", low, 1, 0, 5);
    SpellsAt(" has ", low, 4);
  }
}
