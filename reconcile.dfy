/**
 * The small decisions around the dashboard set-up: the disk trigger's
 * expression, the warnings about templates the server does not have, and
 * what is done with the "Главный экран" dashboard.
 */
module Reconcile {
  import opened Wrappers
  import opened Widgets
  import opened Layout
  import opened PageMerge

  /** The trigger fires when the last free-space percentage of `/hostfs` is below 25. */
  const ExpressionPrefix: string := "last(/"
  const ExpressionSuffix: string := "/vfs.fs.size[/hostfs,pfree])<25"

  /** The trigger expression for a host name: the template with the name put in its place. */
  function TriggerExpression(host: string): string {
    ExpressionPrefix + host + ExpressionSuffix
  }

  /** The host name a disk-trigger expression is about, or None for any other expression. */
  function ExpressionHost(e: string): Option<string> {
    if |e| >= |ExpressionPrefix| + |ExpressionSuffix|
       && e[..|ExpressionPrefix|] == ExpressionPrefix
       && e[|e| - |ExpressionSuffix|..] == ExpressionSuffix
    then Some(e[|ExpressionPrefix|..|e| - |ExpressionSuffix|])
    else None
  }

  /** The host name can be read back from the expression, whatever it holds. */
  lemma ExpressionNamesItsHost(host: string)
    ensures ExpressionHost(TriggerExpression(host)) == Some(host)
  {
    var e := TriggerExpression(host);
    assert e[..|ExpressionPrefix|] == ExpressionPrefix;
    assert e[|e| - |ExpressionSuffix|..] == ExpressionSuffix;
    assert e[|ExpressionPrefix|..|e| - |ExpressionSuffix|] == host;
  }

  /** Every disk-trigger expression is the one built for the host it names. */
  lemma ExpressionIsBuiltForItsHost(e: string)
    requires ExpressionHost(e).Some?
    ensures TriggerExpression(ExpressionHost(e).value) == e
  {
    var h := ExpressionHost(e).value;
    assert e == e[..|ExpressionPrefix|] + h + e[|e| - |ExpressionSuffix|..];
  }

  /** Different hosts get different expressions. */
  lemma TriggerExpressionInjective(a: string, b: string)
    requires TriggerExpression(a) == TriggerExpression(b)
    ensures a == b
  {
    ExpressionNamesItsHost(a);
    ExpressionNamesItsHost(b);
  }

  const DefaultTemplateLinux: string := "Linux by Zabbix agent 2"
  const DefaultTemplateDocker: string := "Docker by Zabbix agent 2"

  /** One template the server's search returned. */
  datatype TemplateRow = TemplateRow(templateid: string, name: string)

  /**
   * What the template search amounts to: the ids to link, the names found,
   * the required names to warn about, and whether no template was found.
   */
  datatype TemplateReport = TemplateReport(templateIds: seq<string>, namesFound: seq<string>, missing: seq<string>, noneFound: bool)

  /** The required names that are not among the found names, in the order required. */
  function MissingNames(required: seq<string>, found: seq<string>): seq<string> {
    if required == [] then []
    else (if required[0] in found then [] else [required[0]]) + MissingNames(required[1..], found)
  }

  /** A name is reported missing exactly when it is required and was not found. */
  lemma {:induction false} MissingNamesExact(required: seq<string>, found: seq<string>)
    ensures forall n :: n in MissingNames(required, found) <==> n in required && n !in found
    ensures |MissingNames(required, found)| <= |required|
    ensures (forall n :: n in required ==> n !in found) ==> MissingNames(required, found) == required
    decreases |required|
  {
    if required != [] {
      MissingNamesExact(required[1..], found);
      assert required == [required[0]] + required[1..];
    }
  }

  /** The template check for the Linux and Docker template names. */
  function CheckTemplates(rows: seq<TemplateRow>, linux: string, docker: string): TemplateReport {
    var ids := seq(|rows|, i requires 0 <= i < |rows| => rows[i].templateid);
    var names := seq(|rows|, i requires 0 <= i < |rows| => rows[i].name);
    TemplateReport(ids, names, MissingNames([linux, docker], names), ids == [])
  }

  /**
   * Each of the two names is warned about exactly when no returned template
   * carries it, nothing else is warned about, every returned id is linked,
   * and "no template" is reported exactly when the search returned nothing.
   */
  lemma CheckTemplatesWarnsExactly(rows: seq<TemplateRow>, linux: string, docker: string)
    ensures var r := CheckTemplates(rows, linux, docker);
            && (linux in r.missing <==> forall i :: 0 <= i < |rows| ==> rows[i].name != linux)
            && (docker in r.missing <==> forall i :: 0 <= i < |rows| ==> rows[i].name != docker)
            && (forall n :: n in r.missing ==> n == linux || n == docker)
            && |r.templateIds| == |rows| && (forall i :: 0 <= i < |rows| ==> r.templateIds[i] == rows[i].templateid)
            && (r.noneFound <==> rows == [])
  {
    var r := CheckTemplates(rows, linux, docker);
    var names := r.namesFound;
    MissingNamesExact([linux, docker], names);
    assert forall i :: 0 <= i < |rows| ==> names[i] == rows[i].name && names[i] in names;
    if linux in names {
      var i :| 0 <= i < |names| && names[i] == linux;
    }
    if docker in names {
      var i :| 0 <= i < |names| && names[i] == docker;
    }
  }

  /** With only the Linux template on the server, only the Docker template is warned about. */
  lemma OnlyLinuxTemplateFound()
    ensures var r := CheckTemplates([TemplateRow("10001", DefaultTemplateLinux)], DefaultTemplateLinux, DefaultTemplateDocker);
            r.templateIds == ["10001"] && r.missing == [DefaultTemplateDocker] && !r.noneFound
  {
    var rows := [TemplateRow("10001", DefaultTemplateLinux)];
    var names := CheckTemplates(rows, DefaultTemplateLinux, DefaultTemplateDocker).namesFound;
    assert names == [DefaultTemplateLinux];
    assert DefaultTemplateDocker !in names by {
      assert DefaultTemplateDocker[0] != DefaultTemplateLinux[0];
    }
    var required := [DefaultTemplateLinux, DefaultTemplateDocker];
    assert required[1..] == [DefaultTemplateDocker];
    assert [DefaultTemplateDocker][1..] == [];
    assert MissingNames([DefaultTemplateDocker], names) == [DefaultTemplateDocker];
    assert MissingNames(required, names) == [DefaultTemplateDocker];
  }

  /** The dashboard this tool maintains. */
  const DashboardName: string := "Главный экран"
  /** Seconds each page is shown for when pages rotate. */
  const DisplayPeriod: int := 60
  /** Permission code of the owner's share: read-write. */
  const ReadWrite: int := 3

  /** A dashboard page as read back: its id and its widgets, each possibly absent. */
  datatype Page = Page(pageid: Option<string>, widgets: Option<seq<Widget>>)

  /** A dashboard the lookup by name returned, with its pages if the reply had them. */
  datatype DashboardRow = DashboardRow(dashboardid: string, pages: Option<seq<Page>>)

  /** Why the dashboard step fails. */
  datatype DashboardError =
    | UntypedWidget(index: nat)  // a widget of the first page has no type
    | NoPageId                   // the first page has no id

  /** What the dashboard step does. */
  datatype DashboardAction =
    | Create(name: string, displayPeriod: int, autoStart: int, widgets: seq<Widget>, userid: int, permission: int)
    | KeepAsIs
    | UpdatePage(dashboardid: string, pageid: string, widgets: seq<Widget>, added: seq<string>)
    | Fail(error: DashboardError)

  /** The names of widgets, "" for an unnamed one. */
  function NamesOf(ws: seq<Widget>): seq<string> {
    seq(|ws|, i requires 0 <= i < |ws| => ws[i].name.GetOr(""))
  }

  /**
   * The dashboard decision: create it with the desired layout when the
   * lookup found none; leave it alone when the first dashboard found has no
   * pages; otherwise write back its first page, repaired.
   */
  function Decide(found: seq<DashboardRow>, gid: int, items: map<string, int>, user: Option<int>): DashboardAction {
    if found == [] then
      Create(DashboardName, DisplayPeriod, 1, DesiredLayout(gid, items), user.GetOr(1), ReadWrite)
    else
      var pages := found[0].pages.GetOr([]);
      if pages == [] then KeepAsIs
      else
        var existing := pages[0].widgets.GetOr([]);
        match Repair(existing, gid, items)
        case Err(e) => Fail(UntypedWidget(e.index))
        case Ok(ws) =>
          if pages[0].pageid.None? then Fail(NoPageId)
          else UpdatePage(found[0].dashboardid, pages[0].pageid.value, ws,
                          NamesOf(ToAdd(DesiredLayout(gid, items), ExistingNames(existing))))
  }

  /**
   * The dashboard step: build the layout for a new dashboard, or repair the
   * first page of the one found.
   */
  method ReconcileDashboard(found: seq<DashboardRow>, gid: int, dashItems: map<string, int>, user: Option<int>)
    returns (action: DashboardAction)
    ensures action == Decide(found, gid, dashItems, user)
  {
    if |found| == 0 {
      var widgets := MakeWidgets(gid, dashItems);
      var userid := if user.Some? then user.value else 1;
      return Create(DashboardName, DisplayPeriod, 1, widgets, userid, ReadWrite);
    }
    var pages := if found[0].pages.Some? then found[0].pages.value else [];
    if |pages| == 0 {
      return KeepAsIs;
    }
    var page := pages[0];
    var existing := if page.widgets.Some? then page.widgets.value else [];
    var merged, toAdd := MergePage(existing, gid, dashItems);
    match merged
    case Err(e) =>
      action := Fail(UntypedWidget(e.index));
    case Ok(ws) =>
      if page.pageid.None? {
        action := Fail(NoPageId);
      } else {
        action := UpdatePage(found[0].dashboardid, page.pageid.value, ws, NamesOf(toAdd));
      }
  }

  /**
   * The three outcomes: a dashboard is created exactly when none was found,
   * left alone exactly when the first one found has no pages, and otherwise
   * its first page is repaired and written back under that page's id, or
   * the step fails.
   */
  lemma DecideThreeWays(found: seq<DashboardRow>, gid: int, items: map<string, int>, user: Option<int>)
    ensures Decide(found, gid, items, user).Create? <==> found == []
    ensures Decide(found, gid, items, user).KeepAsIs? <==> found != [] && found[0].pages.GetOr([]) == []
    ensures Decide(found, gid, items, user).Create? ==>
              var a := Decide(found, gid, items, user);
              a.name == DashboardName && a.userid == user.GetOr(1) && a.permission == ReadWrite
              && NamesDistinct(a.widgets) && PairwiseApart(a.widgets)
    ensures Decide(found, gid, items, user).Fail? && Decide(found, gid, items, user).error.UntypedWidget? ==>
              var existing := found[0].pages.value[0].widgets.value;
              var i := Decide(found, gid, items, user).error.index;
              i < |existing| && existing[i].wtype.None?
    ensures Decide(found, gid, items, user).UpdatePage? ==>
              var a := Decide(found, gid, items, user);
              var page := found[0].pages.value[0];
              var existing := page.widgets.GetOr([]);
              && a.dashboardid == found[0].dashboardid
              && page.pageid == Some(a.pageid)
              && Repair(existing, gid, items) == Ok(a.widgets)
              && a.added == NamesOf(ToAdd(DesiredLayout(gid, items), ExistingNames(existing)))
    ensures found == [] ==>
              var a := Decide(found, gid, items, user);
              a.widgets == DesiredLayout(gid, items) && a.displayPeriod == DisplayPeriod && a.autoStart == 1
    ensures found != [] && found[0].pages.GetOr([]) != [] ==>
              var a := Decide(found, gid, items, user);
              var page := found[0].pages.value[0];
              var existing := page.widgets.GetOr([]);
              && (a.Fail? && a.error.UntypedWidget? <==> !AllTyped(existing))
              && (!AllTyped(existing) ==> a == Fail(UntypedWidget(FirstUntyped(existing))))
              && (a == Fail(NoPageId) <==> AllTyped(existing) && page.pageid.None?)
              && (a.UpdatePage? <==> AllTyped(existing) && page.pageid.Some?)
  {
    DesiredLayoutNames(gid, items);
    DesiredLayoutApart(gid, items);
    if found != [] && found[0].pages.GetOr([]) != [] {
      var existing := found[0].pages.value[0].widgets.GetOr([]);
      MergeRejectsUntyped(existing, DesiredLayout(gid, items), items);
    }
  }

  /**
   * After the page has been written back, the next run writes the same
   * widgets again and adds none.
   */
  lemma RerunAfterUpdate(found: seq<DashboardRow>, gid: int, items: map<string, int>, user: Option<int>)
    requires Decide(found, gid, items, user).UpdatePage?
    ensures var a := Decide(found, gid, items, user);
            var again := [DashboardRow(a.dashboardid, Some([Page(Some(a.pageid), Some(a.widgets))]))];
            Decide(again, gid, items, user) == UpdatePage(a.dashboardid, a.pageid, a.widgets, [])
  {
    var a := Decide(found, gid, items, user);
    var existing := found[0].pages.value[0].widgets.GetOr([]);
    RepairIdempotent(existing, gid, items, a.widgets);
    DecideOnRepairedPage(a.dashboardid, a.pageid, a.widgets, gid, items, user);
  }

  /**
   * After the dashboard has been created, the next run finds its page
   * already in order: it writes the same widgets back and adds none.
   */
  lemma RerunAfterCreate(found: seq<DashboardRow>, gid: int, items: map<string, int>, user: Option<int>, dashboardid: string, pageid: string)
    requires Decide(found, gid, items, user).Create?
    ensures var a := Decide(found, gid, items, user);
            var again := [DashboardRow(dashboardid, Some([Page(Some(pageid), Some(a.widgets))]))];
            Decide(again, gid, items, user) == UpdatePage(dashboardid, pageid, a.widgets, [])
  {
    var l := DesiredLayout(gid, items);
    DesiredLayoutIsRepaired(gid, items);
    DesiredLayoutWellFormed(gid, items);
    MergeIdempotent(l, l, items, l);
    DecideOnRepairedPage(dashboardid, pageid, l, gid, items, user);
  }

  /** A dashboard whose first page is already repaired gets that page written back, with nothing added. */
  lemma DecideOnRepairedPage(dashboardid: string, pageid: string, ws: seq<Widget>, gid: int, items: map<string, int>, user: Option<int>)
    requires Repair(ws, gid, items) == Ok(ws)
    requires ToAdd(DesiredLayout(gid, items), ExistingNames(ws)) == []
    ensures Decide([DashboardRow(dashboardid, Some([Page(Some(pageid), Some(ws))]))], gid, items, user)
            == UpdatePage(dashboardid, pageid, ws, [])
  {
  }
}
