/** The colour of the risk-score badge (`getRiskScoreColor`): a
    possibly absent risk level string is mapped to a CSS colour by
    looking for four marker strings in a fixed order. The markers are
    the page's literals as they are stored: the UTF-8 bytes of the red,
    orange, yellow and green circle emoji read back as Mac Roman text,
    so each is a four-character string beginning with U+F8FF. */
module RiskColor {
  import opened Wrappers

  const RedMarker: string := "\U{F8FF}\U{FC}\U{EE}\U{A5}"
  const OrangeMarker: string := "\U{F8FF}\U{FC}\U{FC}\U{2020}"
  const YellowMarker: string := "\U{F8FF}\U{FC}\U{FC}\U{B0}"
  const GreenMarker: string := "\U{F8FF}\U{FC}\U{FC}\U{A2}"

  const NoScoreColor: string := "#fff"
  const RedColor: string := "#ff4444"
  const OrangeColor: string := "#ff8800"
  const YellowColor: string := "#ffaa00"
  const GreenColor: string := "#44ff44"
  const DefaultColor: string := "#1fc7d4"

  /** `m` occurs in `s` starting at index `i`. */
  ghost predicate OccursAt(s: string, m: string, i: int)
  {
    0 <= i && i + |m| <= |s| && s[i..i + |m|] == m
  }

  /** `s.includes(m)`: whether `m` occurs anywhere in `s`. */
  function Includes(s: string, m: string): (b: bool)
    ensures b <==> exists i :: OccursAt(s, m, i)
    decreases |s|
  {
    if |m| > |s| then false
    else if s[..|m|] == m then
      assert OccursAt(s, m, 0);
      true
    else
      var rest := Includes(s[1..], m);
      if rest then
        assert exists i :: OccursAt(s, m, i) by {
          var j :| OccursAt(s[1..], m, j);
          assert s[1..][j..j + |m|] == s[j + 1..j + 1 + |m|];
          assert OccursAt(s, m, j + 1);
        }
        rest
      else
        assert forall i | OccursAt(s, m, i) :: i >= 1 && OccursAt(s[1..], m, i - 1) by {
          forall i | OccursAt(s, m, i)
            ensures i >= 1 && OccursAt(s[1..], m, i - 1)
          {
            assert i != 0;
            assert s[1..][i - 1..i - 1 + |m|] == s[i..i + |m|];
          }
        }
        rest
  }

  /** `getRiskScoreColor(riskScore)`. An absent or empty level has no
      colour of its own; otherwise the first marker found, in the order
      red, orange, yellow, green, decides, and a level with none of
      them gets the default accent. */
  function ScoreColor(riskScore: Option<string>): (color: string)
    ensures color == NoScoreColor <==> riskScore.None? || riskScore.value == ""
    ensures color == RedColor <==>
      riskScore.Some? && riskScore.value != "" && Includes(riskScore.value, RedMarker)
    ensures color == OrangeColor <==>
      riskScore.Some? && riskScore.value != "" && !Includes(riskScore.value, RedMarker)
      && Includes(riskScore.value, OrangeMarker)
    ensures color == YellowColor <==>
      riskScore.Some? && riskScore.value != "" && !Includes(riskScore.value, RedMarker)
      && !Includes(riskScore.value, OrangeMarker) && Includes(riskScore.value, YellowMarker)
    ensures color == GreenColor <==>
      riskScore.Some? && riskScore.value != "" && !Includes(riskScore.value, RedMarker)
      && !Includes(riskScore.value, OrangeMarker) && !Includes(riskScore.value, YellowMarker)
      && Includes(riskScore.value, GreenMarker)
    ensures color == DefaultColor <==>
      riskScore.Some? && riskScore.value != "" && !Includes(riskScore.value, RedMarker)
      && !Includes(riskScore.value, OrangeMarker) && !Includes(riskScore.value, YellowMarker)
      && !Includes(riskScore.value, GreenMarker)
  {
    if riskScore.None? || riskScore.value == "" then NoScoreColor
    else if Includes(riskScore.value, RedMarker) then RedColor
    else if Includes(riskScore.value, OrangeMarker) then OrangeColor
    else if Includes(riskScore.value, YellowMarker) then YellowColor
    else if Includes(riskScore.value, GreenMarker) then GreenColor
    else DefaultColor
  }

  /** A marker and the colour it selects. */
  datatype Level = Level(marker: string, color: string)

  /** The markers in the order they are tried. */
  const Levels: seq<Level> := [
    Level(RedMarker, RedColor),
    Level(OrangeMarker, OrangeColor),
    Level(YellowMarker, YellowColor),
    Level(GreenMarker, GreenColor)
  ]

  /** A reference reading of the classifier: the colour of the
      lowest-indexed level whose marker the text contains. */
  ghost predicate FirstLevelFound(levels: seq<Level>, s: string, k: int)
  {
    0 <= k < |levels| && Includes(s, levels[k].marker)
    && forall j :: 0 <= j < k ==> !Includes(s, levels[j].marker)
  }

  /** For a non-empty level, ScoreColor is the colour of the first marker
      found in the priority order, or the default when none is found. */
  lemma ScoreColorIsFirstLevel(s: string)
    requires s != ""
    ensures forall k :: FirstLevelFound(Levels, s, k) ==> ScoreColor(Some(s)) == Levels[k].color
    ensures (forall k :: 0 <= k < |Levels| ==> !Includes(s, Levels[k].marker)) ==> ScoreColor(Some(s)) == DefaultColor
  {
    forall k | FirstLevelFound(Levels, s, k)
      ensures ScoreColor(Some(s)) == Levels[k].color
    {
      if k >= 1 { assert !Includes(s, Levels[0].marker); }
      if k >= 2 { assert !Includes(s, Levels[1].marker); }
      if k >= 3 { assert !Includes(s, Levels[2].marker); }
    }
    if forall k :: 0 <= k < |Levels| ==> !Includes(s, Levels[k].marker) {
      assert !Includes(s, Levels[0].marker) && !Includes(s, Levels[1].marker);
      assert !Includes(s, Levels[2].marker) && !Includes(s, Levels[3].marker);
    }
  }

  /** A text that carries both the red and the green marker is shown red:
      the higher-risk marker wins because it is looked for first. */
  lemma RedBeatsGreen(s: string)
    requires Includes(s, RedMarker) && Includes(s, GreenMarker)
    ensures ScoreColor(Some(s)) == RedColor
  {
  }

  /** A string contains itself, and no other string of its length. */
  lemma IncludesSameLength(s: string, m: string)
    requires |s| == |m|
    ensures Includes(s, m) <==> s == m
  {
    if s == m {
      assert OccursAt(s, m, 0);
    }
  }

  /** No marker is contained in another, so each marker alone selects its own colour. */
  lemma MarkerAloneSelectsItsColor(k: nat)
    requires k < |Levels|
    ensures ScoreColor(Some(Levels[k].marker)) == Levels[k].color
  {
    var s := Levels[k].marker;
    IncludesSameLength(s, RedMarker);
    IncludesSameLength(s, OrangeMarker);
    IncludesSameLength(s, YellowMarker);
    IncludesSameLength(s, GreenMarker);
  }
}
