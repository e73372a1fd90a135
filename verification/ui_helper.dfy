/** The colour a scatterplot point is filled with, chosen by its disaster group. */
module UiHelper {

  import opened Optional

  /** A group the colour lookup knows by name. */
  predicate KnownGroup(group: Option<string>) {
    group == Some("Natural") || group == Some("Technological")
  }

  /** Natural hazards are green, technological ones red, anything else
      (another name, a different spelling, an absent value) gray. */
  function GetDisasterColor(group: Option<string>): (color: string)
    ensures color == "green" || color == "red" || color == "gray"
    ensures color == "green" <==> group == Some("Natural")
    ensures color == "red" <==> group == Some("Technological")
    ensures color == "gray" <==> !KnownGroup(group)
  {
    if group == Some("Natural") then "green"
    else if group == Some("Technological") then "red"
    else "gray"
  }

  /** Two points share a colour exactly when they have the same known group or
      both have a group the lookup does not know. */
  lemma SameColorIffSameClass(a: Option<string>, b: Option<string>)
    ensures GetDisasterColor(a) == GetDisasterColor(b) <==>
              (a == b || (!KnownGroup(a) && !KnownGroup(b)))
  {
  }

  /** Matching is exact: other spellings, the empty string and an absent group
      all fall back to gray. */
  lemma ColorMatchingIsExact()
    ensures GetDisasterColor(Some("natural")) == "gray"
    ensures GetDisasterColor(Some("NATURAL")) == "gray"
    ensures GetDisasterColor(Some("technological")) == "gray"
    ensures GetDisasterColor(Some("Natural ")) == "gray"
    ensures GetDisasterColor(Some("Earthquake")) == "gray"
    ensures GetDisasterColor(Some("")) == "gray"
    ensures GetDisasterColor(None) == "gray"
  {
  }
}
