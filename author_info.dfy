/** The author card shown under a document: level colour, badge text and avatar placeholder. */
module AuthorInfo {
  import opened Wrappers
  import opened Text
  import opened Users

  const Gold := "#ffd700"
  const Silver := "#c0c0c0"
  const Bronze := "#cd7f32"
  const Green := "#10b981"
  const Gray := "#6b7280"

  /** `getLevelColor`: the colour of a level name, compared without regard to case. */
  function GetLevelColor(level: string): (c: string)
    ensures ToLower(level) == "expert" <==> c == Gold
    ensures ToLower(level) == "advanced" <==> c == Silver
    ensures ToLower(level) == "intermediate" <==> c == Bronze
    ensures ToLower(level) == "contributor" <==> c == Green
    ensures c in {Gold, Silver, Bronze, Green, Gray}
  {
    var l := ToLower(level);
    if l == "expert" then Gold
    else if l == "advanced" then Silver
    else if l == "intermediate" then Bronze
    else if l == "contributor" then Green
    else Gray
  }

  /** Level names that differ only in letter case get the same colour. */
  lemma LevelColorIgnoresCase(a: string, b: string)
    requires ToLower(a) == ToLower(b)
    ensures GetLevelColor(a) == GetLevelColor(b)
  {
  }

  /** `getLevelIcon`: a star for the four named levels, a person otherwise. */
  datatype Icon = Star | Person

  function GetLevelIcon(level: string): (i: Icon)
    ensures i == Star <==> GetLevelColor(level) != Gray
  {
    var l := ToLower(level);
    if l == "expert" || l == "advanced" || l == "intermediate" || l == "contributor" then Star else Person
  }

  /** The badge's text colour: black on gold, white on every other colour. */
  function BadgeTextColor(levelColor: string): (c: string)
    ensures c == "#000" <==> levelColor == Gold
    ensures c != "#000" ==> c == "#fff"
  {
    if levelColor == Gold then "#000" else "#fff"
  }

  /**
   * The avatar placeholder: nothing when an avatar URL is set, otherwise the first character of
   * the display name, upper-cased (empty for an empty name).
   */
  function AvatarInitial(avatar: Option<string>, displayName: string): (r: Option<string>)
    ensures avatar.Some? && avatar.value != [] ==> r.None?
    ensures (avatar.None? || avatar.value == []) && displayName != [] ==> r == Some([UpperChar(displayName[0])])
    ensures (avatar.None? || avatar.value == []) && displayName == [] ==> r == Some([])
  {
    if avatar.Some? && avatar.value != [] then None
    else if displayName == [] then Some([])
    else Some([UpperChar(displayName[0])])
  }

  /** The levels computed from a reputation get the colours in rank order; "Beginner" is gray. */
  lemma ComputedLevelColor(reputation: int)
    ensures var c := GetLevelColor(CalculateLevel(reputation));
            (reputation >= 1000 <==> c == Gold) &&
            (500 <= reputation < 1000 <==> c == Silver) &&
            (200 <= reputation < 500 <==> c == Bronze) &&
            (50 <= reputation < 200 <==> c == Green) &&
            (reputation < 50 <==> c == Gray)
  {
    var l := CalculateLevel(reputation);
    if reputation >= 1000 {
      assert ToLower(l) == "expert";
    } else if reputation >= 500 {
      assert ToLower(l) == "advanced";
    } else if reputation >= 200 {
      assert ToLower(l) == "intermediate";
    } else if reputation >= 50 {
      assert ToLower(l) == "contributor";
    } else {
      assert ToLower(l) == "beginner";
    }
  }

  /** The badge text is black exactly for the users whose level is Expert. */
  lemma BlackBadgeForExperts(u: User)
    requires Consistent(u)
    ensures BadgeTextColor(GetLevelColor(u.level)) == "#000" <==> u.reputation >= 1000
  {
    ComputedLevelColor(u.reputation);
  }
}
