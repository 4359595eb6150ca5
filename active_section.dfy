/**
  Which navigation entry of the portfolio is highlighted.

  Each section reports whether it is in view; when those flags change, the
  sections are visited in page order and every section in view becomes the
  active one in turn, so the last one in view wins.  With none in view the
  previous choice stays.
 */
module ActiveSection {

  /** The navigation ids, in page order. */
  const NavOrder: seq<string> := ["home", "about", "skills", "projects"]

  /** The section active before any flag has been seen. */
  const Initial := "home"

  /** The effect: four conditional updates in page order, starting from `previous`. */
  function Select(homeInView: bool, aboutInView: bool, skillsInView: bool, projectsInView: bool,
                  previous: string): (r: string)
    ensures projectsInView ==> r == "projects"
    ensures !projectsInView && skillsInView ==> r == "skills"
    ensures !projectsInView && !skillsInView && aboutInView ==> r == "about"
    ensures !projectsInView && !skillsInView && !aboutInView && homeInView ==> r == "home"
    ensures !homeInView && !aboutInView && !skillsInView && !projectsInView ==> r == previous
    ensures r in NavOrder || r == previous
  {
    var afterHome := if homeInView then "home" else previous;
    var afterAbout := if aboutInView then "about" else afterHome;
    var afterSkills := if skillsInView then "skills" else afterAbout;
    if projectsInView then "projects" else afterSkills
  }

  /** Conditional updates in the given order: each id whose flag is set replaces the current choice. */
  function ApplyUpdates(ids: seq<string>, flags: seq<bool>, current: string): (r: string)
    requires |ids| == |flags|
    decreases |ids|
  {
    if ids == [] then current
    else ApplyUpdates(ids[1..], flags[1..], if flags[0] then ids[0] else current)
  }

  /**
    The updates pick the id of the last set flag, and keep `current` when no
    flag is set.
   */
  lemma {:induction false} LastSetFlagWins(ids: seq<string>, flags: seq<bool>, current: string)
    requires |ids| == |flags|
    ensures (forall j :: 0 <= j < |flags| ==> !flags[j]) ==> ApplyUpdates(ids, flags, current) == current
    ensures forall i :: 0 <= i < |flags| && flags[i] && (forall j :: i < j < |flags| ==> !flags[j]) ==>
              ApplyUpdates(ids, flags, current) == ids[i]
    decreases |ids|
  {
    if ids != [] {
      var next := if flags[0] then ids[0] else current;
      LastSetFlagWins(ids[1..], flags[1..], next);
      forall i | 0 <= i < |flags| && flags[i] && (forall j :: i < j < |flags| ==> !flags[j])
        ensures ApplyUpdates(ids, flags, current) == ids[i]
      {
        if i == 0 {
          assert forall j :: 0 <= j < |flags| - 1 ==> !flags[1..][j] by {
            forall j | 0 <= j < |flags| - 1 ensures !flags[1..][j] { assert flags[1..][j] == flags[j + 1]; }
          }
        } else {
          assert flags[1..][i - 1];
          forall j | i - 1 < j < |flags| - 1 ensures !flags[1..][j] { assert flags[1..][j] == flags[j + 1]; }
        }
      }
      if forall j :: 0 <= j < |flags| ==> !flags[j] {
        forall j | 0 <= j < |flags| - 1 ensures !flags[1..][j] { assert flags[1..][j] == flags[j + 1]; }
      }
    }
  }

  /** The result is one of the ids or `current`. */
  lemma {:induction false} UpdatesStayInIds(ids: seq<string>, flags: seq<bool>, current: string)
    requires |ids| == |flags|
    ensures ApplyUpdates(ids, flags, current) in ids || ApplyUpdates(ids, flags, current) == current
    decreases |ids|
  {
    if ids != [] {
      var next := if flags[0] then ids[0] else current;
      UpdatesStayInIds(ids[1..], flags[1..], next);
      assert forall x :: x in ids[1..] ==> x in ids;
    }
  }

  /** The effect is the sequence of updates over the navigation order, so the last section in view wins. */
  lemma SelectIsLastInView(homeInView: bool, aboutInView: bool, skillsInView: bool, projectsInView: bool,
                           previous: string)
    ensures Select(homeInView, aboutInView, skillsInView, projectsInView, previous) ==
            ApplyUpdates(NavOrder, [homeInView, aboutInView, skillsInView, projectsInView], previous)
  {
    var flags := [homeInView, aboutInView, skillsInView, projectsInView];
    var ids := NavOrder;
    assert ids[1..][1..][1..][1..] == [];
    assert flags[1..][1..][1..][1..] == [];
  }

  /** Starting from the initial section, the active section is always a navigation id. */
  lemma ActiveStaysInNav(homeInView: bool, aboutInView: bool, skillsInView: bool, projectsInView: bool,
                         previous: string)
    requires previous in NavOrder
    ensures Select(homeInView, aboutInView, skillsInView, projectsInView, previous) in NavOrder
    ensures Initial in NavOrder
  {
  }
}
