/**
 * The pin colour of a reported issue: a JavaScript `switch` on the issue
 * name, modelled clause by clause with its fall-through semantics.
 */
module MarkerColor {
  import opened Wrappers

  /** A `case "name":` label or the `default:` label. */
  datatype Label = Case(name: string) | Default

  /** One clause of the switch: its label, the colour it assigns and whether it ends with `break`. */
  datatype Clause = Clause(caseLabel: Label, color: string, breaks: bool)

  /** The switch of the screen's marker rendering, in source order. */
  const IssueSwitch: seq<Clause> := [
    Clause(Case("Violent Animals"), "green", true),
    Clause(Case("Street Light Outage"), "yellow", false),
    Clause(Case("Pavement "), "tomato", true),
    Clause(Case("Illegal Parking"), "wheat", true),
    Clause(Case("Sewage"), "orange", true),
    Clause(Case("Pothole"), "indigo", true),
    Clause(Case("Garbage"), "teal", true),
    Clause(Default, "purple", true)
  ]

  /** The first clause from `i` on whose case label is `name`. */
  function CaseIndex(clauses: seq<Clause>, name: string, i: nat): (r: Option<nat>)
    requires i <= |clauses|
    ensures r.Some? ==> i <= r.value < |clauses| && clauses[r.value].caseLabel == Case(name)
    ensures r.Some? ==> forall j :: i <= j < r.value ==> clauses[j].caseLabel != Case(name)
    ensures r.None? ==> forall j :: i <= j < |clauses| ==> clauses[j].caseLabel != Case(name)
    decreases |clauses| - i
  {
    if i == |clauses| then None
    else if clauses[i].caseLabel == Case(name) then Some(i)
    else CaseIndex(clauses, name, i + 1)
  }

  /** The first default clause from `i` on. */
  function DefaultIndex(clauses: seq<Clause>, i: nat): (r: Option<nat>)
    requires i <= |clauses|
    ensures r.Some? ==> i <= r.value < |clauses| && clauses[r.value].caseLabel == Default
    ensures r.None? ==> forall j :: i <= j < |clauses| ==> clauses[j].caseLabel != Default
    decreases |clauses| - i
  {
    if i == |clauses| then None
    else if clauses[i].caseLabel == Default then Some(i)
    else DefaultIndex(clauses, i + 1)
  }

  /**
   * Executes clauses from `i` on: each assigns its colour, and control falls
   * into the next clause until a `break` or the end of the switch.
   */
  function RunFrom(clauses: seq<Clause>, i: nat, color: Option<string>): (r: Option<string>)
    requires i <= |clauses|
    ensures i < |clauses| ==> r.Some?
    ensures i == |clauses| ==> r == color
    ensures r == color || exists j :: i <= j < |clauses| && r == Some(clauses[j].color)
    ensures forall k :: (i <= k < |clauses| && clauses[k].breaks && forall j :: i <= j < k ==> !clauses[j].breaks)
                          ==> r == Some(clauses[k].color)
    ensures (i < |clauses| && forall j :: i <= j < |clauses| ==> !clauses[j].breaks)
              ==> r == Some(clauses[|clauses| - 1].color)
    decreases |clauses| - i
  {
    if i == |clauses| then color
    else if clauses[i].breaks then Some(clauses[i].color)
    else RunFrom(clauses, i + 1, Some(clauses[i].color))
  }

  /**
   * `switch (name)`: control enters at the first case equal to `name`, else
   * at `default`, else skips the switch; `color` is the variable's value before.
   */
  function Switch(clauses: seq<Clause>, name: string, color: Option<string>): (r: Option<string>)
    ensures (exists j :: 0 <= j < |clauses| && clauses[j].caseLabel in {Case(name), Default}) ==> r.Some?
    ensures (forall j :: 0 <= j < |clauses| ==> clauses[j].caseLabel !in {Case(name), Default}) ==> r == color
    ensures r == color || exists j :: 0 <= j < |clauses| && r == Some(clauses[j].color)
  {
    match CaseIndex(clauses, name, 0)
    case Some(i) => RunFrom(clauses, i, color)
    case None =>
      match DefaultIndex(clauses, 0)
      case Some(i) => RunFrom(clauses, i, color)
      case None => color
  }

  /** The colours a pin can have. */
  const Palette: set<string> := {"green", "tomato", "wheat", "orange", "indigo", "teal", "purple"}

  /** `markerColor` after the switch; it starts out `undefined`. */
  function MarkerColor(issueName: string): (color: Option<string>)
    ensures color.Some? && color.value in Palette && color.value != "yellow"
    ensures issueName == "Violent Animals" ==> color == Some("green")
    ensures issueName == "Street Light Outage" || issueName == "Pavement " ==> color == Some("tomato")
    ensures issueName == "Illegal Parking" ==> color == Some("wheat")
    ensures issueName == "Sewage" ==> color == Some("orange")
    ensures issueName == "Pothole" ==> color == Some("indigo")
    ensures issueName == "Garbage" ==> color == Some("teal")
    ensures issueName !in KnownIssues ==> color == Some("purple")
  {
    IssueSwitchEntry(issueName);
    Switch(IssueSwitch, issueName, None)
  }

  /** The names that have a case of their own. */
  const KnownIssues: set<string> :=
    {"Violent Animals", "Street Light Outage", "Pavement ", "Illegal Parking", "Sewage", "Pothole", "Garbage"}

  /** Where control enters the issue switch for each name. */
  lemma IssueSwitchEntry(name: string)
    ensures CaseIndex(IssueSwitch, name, 0) ==
      if name == "Violent Animals" then Some(0)
      else if name == "Street Light Outage" then Some(1)
      else if name == "Pavement " then Some(2)
      else if name == "Illegal Parking" then Some(3)
      else if name == "Sewage" then Some(4)
      else if name == "Pothole" then Some(5)
      else if name == "Garbage" then Some(6)
      else None
    ensures DefaultIndex(IssueSwitch, 0) == Some(7)
  {
    var s := IssueSwitch;
    assert CaseIndex(s, name, 7) == None;
    assert CaseIndex(s, name, 6) == if name == "Garbage" then Some(6) else None;
    assert CaseIndex(s, name, 5) == if name == "Pothole" then Some(5) else CaseIndex(s, name, 6);
    assert CaseIndex(s, name, 4) == if name == "Sewage" then Some(4) else CaseIndex(s, name, 5);
    assert CaseIndex(s, name, 3) == if name == "Illegal Parking" then Some(3) else CaseIndex(s, name, 4);
    assert CaseIndex(s, name, 2) == if name == "Pavement " then Some(2) else CaseIndex(s, name, 3);
    assert CaseIndex(s, name, 1) == if name == "Street Light Outage" then Some(1) else CaseIndex(s, name, 2);
    assert CaseIndex(s, name, 0) == if name == "Violent Animals" then Some(0) else CaseIndex(s, name, 1);
    assert DefaultIndex(s, 7) == Some(7);
  }

  /** The name without its trailing space has no case of its own. */
  lemma PavementNeedsTrailingSpace()
    ensures MarkerColor("Pavement") == Some("purple")
    ensures MarkerColor("Pavement ") == Some("tomato")
  {
    assert "Pavement" !in KnownIssues;
  }

  /** The switch with the `break` the street-light case lacks. */
  const CorrectedIssueSwitch: seq<Clause> := IssueSwitch[1 := Clause(Case("Street Light Outage"), "yellow", true)]

  function CorrectedMarkerColor(issueName: string): Option<string>
  {
    Switch(CorrectedIssueSwitch, issueName, None)
  }

  /** With the break, street-light outages are yellow and every other name keeps its colour. */
  lemma CorrectedMarkerColorSpec(issueName: string)
    ensures issueName == "Street Light Outage" ==> CorrectedMarkerColor(issueName) == Some("yellow")
    ensures issueName != "Street Light Outage" ==> CorrectedMarkerColor(issueName) == MarkerColor(issueName)
  {
    IssueSwitchEntry(issueName);
    assert forall i :: 0 <= i < |IssueSwitch| ==> CorrectedIssueSwitch[i].caseLabel == IssueSwitch[i].caseLabel;
    SameLabelsSameEntry(IssueSwitch, CorrectedIssueSwitch, issueName, 0);
    SameLabelsSameDefault(IssueSwitch, CorrectedIssueSwitch, 0);
    var i := match CaseIndex(IssueSwitch, issueName, 0) case Some(k) => k case None => 7;
    CorrectedRunFrom(i);
  }

  /** Entered anywhere, the corrected switch differs only in the street-light clause. */
  lemma CorrectedRunFrom(i: nat)
    requires i < |IssueSwitch|
    ensures RunFrom(CorrectedIssueSwitch, i, None) == if i == 1 then Some("yellow") else RunFrom(IssueSwitch, i, None)
  {
    var c := CorrectedIssueSwitch;
    assert c[1].breaks && c[1].color == "yellow";
    if i != 1 {
      assert c[i] == IssueSwitch[i] && c[i].breaks;
    }
  }

  lemma {:induction false} SameLabelsSameEntry(a: seq<Clause>, b: seq<Clause>, name: string, i: nat)
    requires |a| == |b| && i <= |a|
    requires forall j :: 0 <= j < |a| ==> a[j].caseLabel == b[j].caseLabel
    ensures CaseIndex(a, name, i) == CaseIndex(b, name, i)
    decreases |a| - i
  {
    if i < |a| {
      SameLabelsSameEntry(a, b, name, i + 1);
    }
  }

  lemma {:induction false} SameLabelsSameDefault(a: seq<Clause>, b: seq<Clause>, i: nat)
    requires |a| == |b| && i <= |a|
    requires forall j :: 0 <= j < |a| ==> a[j].caseLabel == b[j].caseLabel
    ensures DefaultIndex(a, i) == DefaultIndex(b, i)
    decreases |a| - i
  {
    if i < |a| {
      SameLabelsSameDefault(a, b, i + 1);
    }
  }
}
