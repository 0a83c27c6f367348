/** The small test harness of tests/test.js: a Test has a title and a
    status, a Unit collects the tests its assertions create, a group of
    tests (Tests) collects units and subgroups, and `results` folds a group
    into a report in which a unit fails when one of its tests did not pass
    and a group fails when one of its subgroups did not.

    The body a unit or group is created with is caller code: the model
    returns the new unit or group and the caller goes on to call its
    methods. The report is computed from a value snapshot of the group
    tree (GroupView); Unit.View takes that snapshot of one unit. */
module TestReport {

  class Test {
    var title: string
    var status: string

    /** init(title): the status is 'unknown' until set. */
    constructor (title: string)
      ensures this.title == title && status == "unknown"
    {
      this.title := title;
      status := "unknown";
    }

    /** init(): the same, titled 'Untitled'. */
    constructor Untitled()
      ensures title == "Untitled" && status == "unknown"
    {
      title := "Untitled";
      status := "unknown";
    }

    /** title(t): set the title and return the test itself. */
    method SetTitle(t: string) returns (self: Test)
      modifies this
      ensures self == this && title == t && status == old(status)
    {
      title := t;
      self := this;
    }

    /** status(s): set the status and return the test itself. */
    method SetStatus(s: string) returns (self: Test)
      modifies this
      ensures self == this && status == s && title == old(title)
    {
      status := s;
      self := this;
    }

    function View(): TestView
      reads this
    {
      TestView(title, status)
    }
  }

  class Unit {
    const name: string
    var tests: seq<Test>

    constructor (name: string)
      ensures this.name == name && tests == []
    {
      this.name := name;
      tests := [];
    }

    /** assert(truth): a new test 'Assertion' that passes iff truth holds,
        appended to the unit's tests and returned. */
    method Assert(truth: bool) returns (test: Test)
      modifies this
      ensures fresh(test) && tests == old(tests) + [test]
      ensures test.title == "Assertion"
      ensures test.status == "pass" <==> truth
      ensures test.status == (if truth then "pass" else "fail")
    {
      test := new Test.Untitled();
      test := test.SetTitle("Assertion");
      test := test.SetStatus(if truth then "pass" else "fail");
      tests := tests + [test];
    }

    /** throws(fn): a new test 'Throws' that passes iff fn threw; `threw`
        says whether calling fn raised an exception. */
    method Throws(threw: bool) returns (test: Test)
      modifies this
      ensures fresh(test) && tests == old(tests) + [test]
      ensures test.title == "Throws"
      ensures test.status == "pass" <==> threw
      ensures test.status == (if threw then "pass" else "fail")
    {
      test := new Test.Untitled();
      test := test.SetTitle("Throws");
      if !threw {
        test := test.SetStatus("fail");
      } else {
        test := test.SetStatus("pass");
      }
      tests := tests + [test];
    }

    /** The unit as a value: its name and its tests in order. */
    function View(): (v: UnitView)
      reads this, tests
      ensures v.name == name && |v.tests| == |tests|
      ensures forall i :: 0 <= i < |tests| ==> v.tests[i] == tests[i].View()
    {
      var ts := tests;
      UnitView(name, seq(|ts|, i requires 0 <= i < |ts| reads ts => ts[i].View()))
    }
  }

  class Tests {
    const name: string
    var units: seq<Unit>
    var groups: seq<Tests>

    /** init(name): no units and no subgroups. */
    constructor (name: string)
      ensures this.name == name && units == [] && groups == []
    {
      this.name := name;
      units := [];
      groups := [];
    }

    /** unit(name, body): a new unit goes last among the units and is
        handed to body. */
    method AddUnit(name: string) returns (unit: Unit)
      modifies this
      ensures fresh(unit) && unit.name == name && unit.tests == []
      ensures units == old(units) + [unit] && groups == old(groups)
    {
      unit := new Unit(name);
      units := units + [unit];
    }

    /** group(name, body): a new group goes last among the subgroups and is
        handed to body. */
    method AddGroup(name: string) returns (group: Tests)
      modifies this
      ensures fresh(group) && group.name == name && group.units == [] && group.groups == []
      ensures groups == old(groups) + [group] && units == old(units)
    {
      group := new Tests(name);
      groups := groups + [group];
    }
  }

  // ------------------------------------------------------------- the report

  datatype TestView = TestView(title: string, status: string)
  datatype UnitView = UnitView(name: string, tests: seq<TestView>)
  datatype GroupView = GroupView(name: string, units: seq<UnitView>, groups: seq<GroupView>)

  datatype TestReport = TestReport(name: string, status: string)
  datatype UnitReport = UnitReport(name: string, status: string, tests: seq<TestReport>)
  datatype GroupReport = GroupReport(name: string, units: seq<UnitReport>, groups: seq<GroupReport>, status: string)

  /** Some test of the unit did not pass. */
  predicate UnitFails(u: UnitView)
  {
    exists i :: 0 <= i < |u.tests| && u.tests[i].status != "pass"
  }

  /** The report of one unit: its tests by title and status, in order, and
      'fail' when one of them is not 'pass'. */
  function ReportUnit(u: UnitView): UnitReport
  {
    UnitReport(u.name, if UnitFails(u) then "fail" else "pass",
               seq(|u.tests|, i requires 0 <= i < |u.tests| => TestReport(u.tests[i].title, u.tests[i].status)))
  }

  /** The reports of a list of units, in order. */
  function UnitReports(us: seq<UnitView>): (r: seq<UnitReport>)
    ensures |r| == |us| && forall i :: 0 <= i < |us| ==> r[i] == ReportUnit(us[i])
  {
    seq(|us|, i requires 0 <= i < |us| => ReportUnit(us[i]))
  }

  /** Some report in the list is not 'pass'. */
  predicate AnyFails(rs: seq<GroupReport>)
  {
    exists i :: 0 <= i < |rs| && rs[i].status != "pass"
  }

  predicate AnyUnitFails(rs: seq<UnitReport>)
  {
    exists i :: 0 <= i < |rs| && rs[i].status != "pass"
  }

  /** The report of a group: its units' reports and its subgroups' reports
      in order, and 'fail' when some subgroup's report is not 'pass'. */
  function Report(g: GroupView): GroupReport
    decreases g
  {
    var subs := seq(|g.groups|, i requires 0 <= i < |g.groups| => Report(g.groups[i]));
    GroupReport(g.name, UnitReports(g.units), subs, if AnyFails(subs) then "fail" else "pass")
  }

  /** results() for one unit, as the inner loop builds it. */
  method UnitResults(u: UnitView) returns (unit: UnitReport)
    ensures unit == ReportUnit(u)
  {
    var status := "pass";
    var tests: seq<TestReport> := [];
    for k := 0 to |u.tests|
      invariant |tests| == k
      invariant forall j :: 0 <= j < k ==> tests[j] == TestReport(u.tests[j].title, u.tests[j].status)
      invariant status == "fail" <==> exists j :: 0 <= j < k && u.tests[j].status != "pass"
      invariant status == "pass" || status == "fail"
    {
      var test := TestReport(u.tests[k].title, u.tests[k].status);
      if test.status != "pass" {
        status := "fail";
      }
      tests := tests + [test];
    }
    unit := UnitReport(u.name, status, tests);
  }

  /** results(): the units' reports, then the subgroups' reports, the
      group failing when a subgroup does. */
  method Results(g: GroupView) returns (group: GroupReport)
    ensures group == Report(g)
    decreases g
  {
    var units: seq<UnitReport> := [];
    for k := 0 to |g.units|
      invariant |units| == k && forall j :: 0 <= j < k ==> units[j] == ReportUnit(g.units[j])
    {
      var unit := UnitResults(g.units[k]);
      units := units + [unit];
    }
    var status := "pass";
    var groups: seq<GroupReport> := [];
    for k := 0 to |g.groups|
      invariant |groups| == k && forall j :: 0 <= j < k ==> groups[j] == Report(g.groups[j])
      invariant status == (if AnyFails(groups) then "fail" else "pass")
    {
      var results := Results(g.groups[k]);
      if results.status != "pass" {
        status := "fail";
      }
      assert AnyFails(groups + [results]) <==> AnyFails(groups) || results.status != "pass" by {
        var all := groups + [results];
        assert all[k] == results;
        assert forall j :: 0 <= j < k ==> all[j] == groups[j];
      }
      groups := groups + [results];
    }
    assert units == Report(g).units;
    assert groups == Report(g).groups;
    group := GroupReport(g.name, units, groups, status);
  }

  /** A unit's report fails exactly when one of its tests is not 'pass',
      and it lists every test, in order. */
  lemma UnitVerdict(u: UnitView)
    ensures ReportUnit(u).status == "fail" <==> exists i :: 0 <= i < |u.tests| && u.tests[i].status != "pass"
    ensures ReportUnit(u).status == "pass" <==> forall i :: 0 <= i < |u.tests| ==> u.tests[i].status == "pass"
    ensures |ReportUnit(u).tests| == |u.tests|
    ensures forall i :: 0 <= i < |u.tests| ==> ReportUnit(u).tests[i].name == u.tests[i].title
  {
  }

  /** A group's report fails exactly when one of its subgroups' reports is
      not 'pass'; with no subgroups it passes, whatever its units report. */
  lemma GroupVerdict(g: GroupView)
    ensures Report(g).status == "fail" <==> exists i :: 0 <= i < |g.groups| && Report(g.groups[i]).status != "pass"
    ensures g.groups == [] ==> Report(g).status == "pass"
  {
    var subs := Report(g).groups;
    assert forall i :: 0 <= i < |g.groups| ==> subs[i] == Report(g.groups[i]);
  }

  /** As written, the verdict of every group is 'pass': a group with no
      subgroups passes, so by induction no subgroup ever fails and neither
      does its parent, whatever its units report. */
  lemma {:induction false} GroupAlwaysPasses(g: GroupView)
    ensures Report(g).status == "pass"
    decreases g
  {
    forall i | 0 <= i < |g.groups|
      ensures Report(g.groups[i]).status == "pass"
    {
      GroupAlwaysPasses(g.groups[i]);
    }
  }

  /** A group whose only unit has a failing assertion reports 'fail' for
      the unit and 'pass' for itself. */
  lemma FailingUnitPassingGroup()
    ensures var g := GroupView("suite", [UnitView("unit", [TestView("Assertion", "fail")])], []);
            Report(g).units[0].status == "fail" && Report(g).status == "pass"
  {
    var u := UnitView("unit", [TestView("Assertion", "fail")]);
    assert u.tests[0].status != "pass";
    assert UnitFails(u);
  }

  /** Some unit of the group, or of a group below it, has a test that did
      not pass. */
  predicate FailsAnywhere(g: GroupView)
    decreases g
  {
    (exists i :: 0 <= i < |g.units| && UnitFails(g.units[i]))
    || (exists i :: 0 <= i < |g.groups| && FailsAnywhere(g.groups[i]))
  }

  /** The evidently intended report: the same lists, but the group fails
      when one of its units' reports or one of its subgroups' reports is
      not 'pass'. */
  function ReportCorrected(g: GroupView): GroupReport
    decreases g
  {
    var units := UnitReports(g.units);
    var subs := seq(|g.groups|, i requires 0 <= i < |g.groups| => ReportCorrected(g.groups[i]));
    GroupReport(g.name, units, subs, if AnyUnitFails(units) || AnyFails(subs) then "fail" else "pass")
  }

  /** With the correction a group fails exactly when some test anywhere
      below it did not pass. */
  lemma {:induction false} CorrectedFailsIff(g: GroupView)
    ensures ReportCorrected(g).status == "fail" <==> FailsAnywhere(g)
    ensures ReportCorrected(g).status == "pass" || ReportCorrected(g).status == "fail"
    decreases g
  {
    var r := ReportCorrected(g);
    forall i | 0 <= i < |g.groups|
      ensures r.groups[i].status == "fail" <==> FailsAnywhere(g.groups[i])
      ensures r.groups[i].status == "pass" || r.groups[i].status == "fail"
    {
      CorrectedFailsIff(g.groups[i]);
    }
    forall i | 0 <= i < |g.units|
      ensures r.units[i].status != "pass" <==> UnitFails(g.units[i])
    {
    }
  }

  /** The report keeps the order of units and subgroups, and their names. */
  lemma ReportOrder(g: GroupView)
    ensures Report(g).name == g.name
    ensures |Report(g).units| == |g.units| && |Report(g).groups| == |g.groups|
    ensures forall i :: 0 <= i < |g.units| ==> Report(g).units[i].name == g.units[i].name
    ensures forall i :: 0 <= i < |g.groups| ==> Report(g).groups[i].name == g.groups[i].name
  {
  }
}
