/**
 * The verdict generator's parse of the model's reply: the leftmost
 * case-insensitive match of `Verdict:\s*(REAL|FAKE|MISLEADING)` gives the
 * verdict, and no match gives UNKNOWN. The chat-completion call itself is not
 * modelled; its reply arrives as a string.
 */
module VerdictParser {
  import opened Wrappers
  import opened Strings

  datatype Verdict = Real | Fake | Misleading | Unknown

  /** The upper-case label the source reports. */
  function Label(v: Verdict): string {
    match v
    case Real => "REAL"
    case Fake => "FAKE"
    case Misleading => "MISLEADING"
    case Unknown => "UNKNOWN"
  }

  /** The pattern's literal prefix, in lower case. */
  const Marker: string := "verdict:"

  /** The pattern's alternative for a verdict label, in lower case. */
  function Alternative(v: Verdict): string
    requires v != Unknown
  {
    match v
    case Real => "real"
    case Fake => "fake"
    case Misleading => "misleading"
  }

  /** Upper-casing an alternative gives the label the source reports. */
  lemma UpperAlternative(v: Verdict)
    requires v != Unknown
    ensures Upper(Alternative(v)) == Label(v)
  {
  }

  /** An alternative starts with a letter, so no label begins with whitespace. */
  lemma LabelStartsWithLetter(t: string, k: nat, v: Verdict)
    requires v != Unknown && HasAtIgnoringCase(t, k, Alternative(v))
    ensures k < |t| && !IsSpace(t[k])
    ensures LowerChar(t[k]) == Alternative(v)[0]
  {
    var a := Alternative(v);
    assert Lower(t[k..k + |a|])[0] == LowerChar(t[k]);
  }

  /** `t` holds `word` (given in lower case) at index `i`, ignoring ASCII case. */
  predicate HasAtIgnoringCase(t: string, i: nat, word: string) {
    i + |word| <= |t| && Lower(t[i..i + |word|]) == word
  }

  /** The alternative of `(REAL|FAKE|MISLEADING)` that matches at index `j`, tried in order. */
  function LabelAt(t: string, j: nat): (v: Option<Verdict>)
    ensures v != Some(Unknown)
    ensures v.Some? ==> HasAtIgnoringCase(t, j, Alternative(v.value))
  {
    if HasAtIgnoringCase(t, j, "real") then Some(Real)
    else if HasAtIgnoringCase(t, j, "fake") then Some(Fake)
    else if HasAtIgnoringCase(t, j, "misleading") then Some(Misleading)
    else None
  }

  /** The match of the pattern that starts at index `i`, if any: the marker, the longest
      run of whitespace after it, then a label. */
  function MatchAt(t: string, i: nat): (m: Option<Verdict>)
    ensures m != Some(Unknown)
  {
    if HasAtIgnoringCase(t, i, Marker) then
      var j := i + |Marker|;
      LabelAt(t, j + SpaceRunFrom(t, j))
    else None
  }

  /** The greedy `\s*`: the length of the whitespace run that starts at index `j`. */
  function SpaceRunFrom(t: string, j: nat): (n: nat)
    requires j <= |t|
    decreases |t| - j
    ensures j + n <= |t|
    ensures j + n < |t| ==> !IsSpace(t[j + n])
  {
    if j == |t| || !IsSpace(t[j]) then 0 else 1 + SpaceRunFrom(t, j + 1)
  }

  /** Every character of the run is whitespace. */
  lemma {:induction false} SpaceRunIsSpace(t: string, j: nat)
    requires j <= |t|
    ensures forall k :: j <= k < j + SpaceRunFrom(t, j) ==> IsSpace(t[k])
    decreases |t| - j
  {
    if j < |t| && IsSpace(t[j]) {
      SpaceRunIsSpace(t, j + 1);
    }
  }

  /** A whitespace run followed by a non-space character (or the end) is the greedy run. */
  lemma {:induction false} SpaceRunUnique(t: string, j: nat, w: nat)
    requires j + w <= |t|
    requires forall k :: j <= k < j + w ==> IsSpace(t[k])
    requires j + w < |t| ==> !IsSpace(t[j + w])
    ensures SpaceRunFrom(t, j) == w
    decreases w
  {
    if w > 0 {
      assert IsSpace(t[j]);
      SpaceRunUnique(t, j + 1, w - 1);
    }
  }

  /** The regular expression's own reading of a match at `i`: the marker, `w` whitespace
      characters (any number, as `\s*` allows), then the alternative for `v`. */
  ghost predicate PatternAt(t: string, i: nat, w: nat, v: Verdict) {
    && v != Unknown
    && HasAtIgnoringCase(t, i, Marker)
    && i + |Marker| + w <= |t|
    && (forall k :: i + |Marker| <= k < i + |Marker| + w ==> IsSpace(t[k]))
    && HasAtIgnoringCase(t, i + |Marker| + w, Alternative(v))
  }

  /** The greedy reading is the only one: a match at `i` in the regular expression's sense
      exists exactly when `MatchAt` finds one, and it has the same label. */
  lemma MatchAtIsPattern(t: string, i: nat, v: Verdict)
    ensures MatchAt(t, i) == Some(v) <==> exists w: nat :: PatternAt(t, i, w, v)
  {
    if MatchAt(t, i) == Some(v) {
      MatchIsPattern(t, i, v);
    }
    if w: nat :| PatternAt(t, i, w, v) {
      PatternIsMatch(t, i, w, v);
    }
  }

  lemma MatchIsPattern(t: string, i: nat, v: Verdict)
    requires MatchAt(t, i) == Some(v)
    ensures PatternAt(t, i, SpaceRunFrom(t, i + |Marker|), v)
  {
    SpaceRunIsSpace(t, i + |Marker|);
  }

  lemma PatternIsMatch(t: string, i: nat, w: nat, v: Verdict)
    requires PatternAt(t, i, w, v)
    ensures MatchAt(t, i) == Some(v)
  {
    var j := i + |Marker|;
    SpaceRunOfPattern(t, i, w, v);
    LabelsDisjoint(t, j + w, v);
    MatchAfterMarker(t, i);
  }

  /** After the marker, the match is the label past the whitespace run. */
  lemma MatchAfterMarker(t: string, i: nat)
    requires HasAtIgnoringCase(t, i, Marker)
    ensures MatchAt(t, i) == LabelAt(t, i + |Marker| + SpaceRunFrom(t, i + |Marker|))
  {
  }

  /** In a match, the label starts with a letter, so the whitespace before it is the whole run. */
  lemma SpaceRunOfPattern(t: string, i: nat, w: nat, v: Verdict)
    requires PatternAt(t, i, w, v)
    ensures SpaceRunFrom(t, i + |Marker|) == w
  {
    var j := i + |Marker|;
    LabelStartsWithLetter(t, j + w, v);
    SpaceRunUnique(t, j, w);
  }

  /** At most one alternative can match at a given index: their first letters differ. */
  lemma LabelsDisjoint(t: string, j: nat, v: Verdict)
    requires v != Unknown && HasAtIgnoringCase(t, j, Alternative(v))
    ensures LabelAt(t, j) == Some(v)
  {
    LabelStartsWithLetter(t, j, v);
    if HasAtIgnoringCase(t, j, "real") {
      LabelStartsWithLetter(t, j, Real);
    }
    if HasAtIgnoringCase(t, j, "fake") {
      LabelStartsWithLetter(t, j, Fake);
    }
    if HasAtIgnoringCase(t, j, "misleading") {
      LabelStartsWithLetter(t, j, Misleading);
    }
  }

  /** The leftmost index at or after `i` where the pattern matches. */
  function SearchFrom(t: string, i: nat): (r: Option<nat>)
    decreases |t| - i
    ensures r.Some? ==> i <= r.value < |t| && MatchAt(t, r.value).Some?
    ensures r.Some? ==> forall j :: i <= j < r.value ==> MatchAt(t, j).None?
    ensures r.None? ==> forall j :: i <= j ==> MatchAt(t, j).None?
  {
    if i >= |t| then None
    else if MatchAt(t, i).Some? then Some(i)
    else SearchFrom(t, i + 1)
  }

  /** `re.search(r"Verdict:\s*(REAL|FAKE|MISLEADING)", content, re.IGNORECASE)`, reduced to the
      verdict it names: the label of the leftmost match, or `Unknown` when nothing matches. */
  function ParseVerdict(content: string): (v: Verdict)
    ensures v == Unknown <==> forall i: nat :: MatchAt(content, i).None?
    ensures v != Unknown ==>
      exists i: nat :: MatchAt(content, i) == Some(v) && forall j :: 0 <= j < i ==> MatchAt(content, j).None?
  {
    match SearchFrom(content, 0)
    case Some(i) => MatchAt(content, i).value
    case None => Unknown
  }

  /** The text the matched group spans at index `i`: the label as written in the reply. */
  function GroupAt(t: string, i: nat): (g: string)
    requires MatchAt(t, i).Some?
    ensures Lower(g) == Alternative(MatchAt(t, i).value)
  {
    var j := i + |Marker|;
    var k := j + SpaceRunFrom(t, j);
    t[k..k + |Alternative(MatchAt(t, i).value)|]
  }

  /** `verdict_match.group(1).upper() if verdict_match else "UNKNOWN"`: the string the source
      reports, which is always one of the four labels and agrees with `ParseVerdict`. */
  function VerdictText(content: string): (s: string)
    ensures s == Label(ParseVerdict(content))
    ensures s in {"REAL", "FAKE", "MISLEADING", "UNKNOWN"}
  {
    match SearchFrom(content, 0)
    case Some(i) =>
      var g := GroupAt(content, i);
      UpperOfLower(g);
      UpperAlternative(MatchAt(content, i).value);
      Upper(g)
    case None => "UNKNOWN"
  }

  /** The verdict depends on the reply only through where the pattern matches. */
  lemma ParseDeterminedByMatches(t1: string, t2: string)
    requires forall i: nat :: MatchAt(t1, i) == MatchAt(t2, i)
    ensures ParseVerdict(t1) == ParseVerdict(t2)
  {
    var v1, v2 := ParseVerdict(t1), ParseVerdict(t2);
    if v1 != Unknown && v2 != Unknown {
      var i1: nat :| MatchAt(t1, i1) == Some(v1) && forall j :: 0 <= j < i1 ==> MatchAt(t1, j).None?;
      var i2: nat :| MatchAt(t2, i2) == Some(v2) && forall j :: 0 <= j < i2 ==> MatchAt(t2, j).None?;
      assert MatchAt(t2, i1) == Some(v1);
      assert MatchAt(t1, i2) == Some(v2);
    }
  }

  /** Matching ignores case: lower-casing the reply does not change the verdict. */
  lemma ParseIgnoresCase(t: string)
    ensures ParseVerdict(Lower(t)) == ParseVerdict(t)
  {
    forall i: nat
      ensures MatchAt(Lower(t), i) == MatchAt(t, i)
    {
      MatchAtLower(t, i);
    }
    ParseDeterminedByMatches(Lower(t), t);
  }

  lemma MatchAtLower(t: string, i: nat)
    ensures MatchAt(Lower(t), i) == MatchAt(t, i)
  {
    HasAtLower(t, i, Marker);
    var j := i + |Marker|;
    if HasAtIgnoringCase(t, i, Marker) {
      var n := SpaceRunFrom(t, j);
      SpaceRunIsSpace(t, j);
      SpaceRunUnique(Lower(t), j, n);
      LabelAtLower(t, j + n);
      MatchAfterMarker(t, i);
      MatchAfterMarker(Lower(t), i);
    }
  }

  lemma LabelAtLower(t: string, k: nat)
    ensures LabelAt(Lower(t), k) == LabelAt(t, k)
  {
    HasAtLower(t, k, "real");
    HasAtLower(t, k, "fake");
    HasAtLower(t, k, "misleading");
  }

  /** Case-insensitive comparison sees through a lower-casing of the text. */
  lemma HasAtLower(t: string, k: nat, word: string)
    ensures HasAtIgnoringCase(Lower(t), k, word) == HasAtIgnoringCase(t, k, word)
  {
    if k + |word| <= |t| {
      LowerSlice(t, k, k + |word|);
      LowerIdempotent(t[k..k + |word|]);
    }
  }
}
