/**
 * The desired dashboard layout (`make_widgets`): a fixed grid of six widgets
 * of which the item-bound ones appear only when their item id is known.
 */
module Layout {
  import opened Wrappers
  import opened Widgets
  import opened Items

  const SeverityName: string := "Проблемы по важности"
  const RunningName: string := "Запущенные контейнеры (docker ps)"
  const ExitedName: string := "Exited контейнеры"
  const ProblemsName: string := "Проблемы и предупреждения"
  const DiskName: string := "Свободно места на диске (%)"
  const SwarmName: string := "Состояние Docker Swarm"

  /** The widget names in layout order. */
  const LayoutOrder: seq<string> := [SeverityName, RunningName, ExitedName, ProblemsName, DiskName, SwarmName]

  /** Width of the dashboard grid in columns. */
  const GridColumns: int := 72

  /** The item key a widget name is bound to (`name_to_key`); the two problem widgets have none. */
  function BoundKey(name: Option<string>): Option<string> {
    if name == Some(RunningName) then Some(KeyRunning)
    else if name == Some(ExitedName) then Some(KeyExited)
    else if name == Some(DiskName) then Some(KeyDisk)
    else if name == Some(SwarmName) then Some(KeySwarm)
    else None
  }

  /** `dash_items.get(key)`. */
  function Lookup(items: map<string, int>, key: string): Option<int> {
    if key in items then Some(items[key]) else None
  }

  /** A widget with all of its keys set, as this tool builds them. */
  function Built(wtype: string, name: string, x: int, y: int, width: int, height: int, fields: seq<Field>): Widget {
    Widget(Some(wtype), Some(name), Some(x), Some(y), Some(width), Some(height), Some(0), None, Some(fields))
  }

  function SeverityWidget(gid: int): Widget {
    Built("problemsbysv", SeverityName, 0, 0, 24, 5,
      [Field(2, "groupids.0", Int(gid)), Field(1, "reference", Str("SEV01"))])
  }

  /** The running- and exited-container widgets share one shape. */
  function ContainerWidget(name: string, x: int, id: int): Widget {
    Built("item", name, x, 0, 24, 8,
      [ItemRef(id), Field(0, "show.0", Int(1)), Field(0, "show.1", Int(2))])
  }

  function ProblemsWidget(gid: int): Widget {
    Built("problems", ProblemsName, 0, 8, 72, 20,
      [ Field(2, "groupids.0", Int(gid)),
        Field(0, "show", Int(3)),
        Field(0, "show_lines", Int(25)),
        Field(0, "show_timeline", Int(1)),
        Field(0, "show_opdata", Int(1)),
        Field(1, "reference", Str("PRB01")) ])
  }

  function DiskWidget(id: int): Widget {
    Built("gauge", DiskName, 0, 28, 24, 10,
      [ ItemRef(id),
        Field(1, "min", Str("0")),
        Field(1, "max", Str("100")),
        Field(0, "show.0", Int(1)), Field(0, "show.1", Int(2)),
        Field(0, "show.2", Int(4)), Field(0, "show.3", Int(5)) ])
  }

  function SwarmWidget(id: int): Widget {
    Built("item", SwarmName, 24, 28, 24, 10,
      [ItemRef(id), Field(0, "show.0", Int(1)), Field(0, "show.1", Int(2))])
  }

  /** The full grid, every item-bound widget bound to its key's id (0 when unknown). */
  function Grid(gid: int, items: map<string, int>): seq<Widget> {
    [ SeverityWidget(gid),
      ContainerWidget(RunningName, 24, Lookup(items, KeyRunning).GetOr(0)),
      ContainerWidget(ExitedName, 48, Lookup(items, KeyExited).GetOr(0)),
      ProblemsWidget(gid),
      DiskWidget(Lookup(items, KeyDisk).GetOr(0)),
      SwarmWidget(Lookup(items, KeySwarm).GetOr(0)) ]
  }

  /** A widget is shown when it is bound to no item, or its item id is truthy. */
  predicate Shown(w: Widget, items: map<string, int>) {
    match BoundKey(w.name)
    case None => true
    case Some(k) => Truthy(Lookup(items, k))
  }

  /** The widgets of `ws` that are shown, in their order. */
  function KeepShown(ws: seq<Widget>, items: map<string, int>): seq<Widget> {
    if ws == [] then []
    else
      var last := ws[|ws| - 1];
      KeepShown(ws[..|ws| - 1], items) + (if Shown(last, items) then [last] else [])
  }

  /** The desired layout: the grid without the widgets whose item is unknown. */
  function DesiredLayout(gid: int, items: map<string, int>): seq<Widget> {
    KeepShown(Grid(gid, items), items)
  }

  /** No two widgets of `ws` carry the same name. */
  predicate NamesDistinct(ws: seq<Widget>) {
    forall i, j :: 0 <= i < j < |ws| ==> ws[i].name != ws[j].name
  }

  /** Whether some widget of `ws` carries the name `n`. */
  predicate HasNamed(ws: seq<Widget>, n: string) {
    exists w :: w in ws && w.name == Some(n)
  }

  function Left(w: Widget): int { w.x.GetOr(0) }
  function Top(w: Widget): int { w.y.GetOr(0) }
  function Width(w: Widget): int { w.width.GetOr(6) }
  function Height(w: Widget): int { w.height.GetOr(4) }

  /** Whether the grid rectangles of two widgets share a cell. */
  predicate Overlap(a: Widget, b: Widget) {
    && Left(a) < Left(b) + Width(b) && Left(b) < Left(a) + Width(a)
    && Top(a) < Top(b) + Height(b) && Top(b) < Top(a) + Height(a)
  }

  /** No two widgets of the list overlap. */
  predicate PairwiseApart(ws: seq<Widget>) {
    forall i, j :: 0 <= i < j < |ws| ==> !Overlap(ws[i], ws[j])
  }

  /** Every widget lies within the grid's columns, starting at row 0 or below. */
  predicate WithinGrid(ws: seq<Widget>) {
    forall i :: 0 <= i < |ws| ==> 0 <= Left(ws[i]) && Left(ws[i]) + Width(ws[i]) <= GridColumns && 0 <= Top(ws[i])
  }

  /** `KeepShown` keeps exactly the shown widgets. */
  lemma {:induction false} KeepShownMembers(ws: seq<Widget>, items: map<string, int>)
    ensures forall w :: w in KeepShown(ws, items) <==> w in ws && Shown(w, items)
    decreases |ws|
  {
    if ws != [] {
      var init := ws[..|ws| - 1];
      KeepShownMembers(init, items);
      assert ws == init + [ws[|ws| - 1]];
    }
  }

  /** Dropping widgets from a list of pairwise apart widgets keeps them apart and in the grid. */
  lemma {:induction false} KeepShownApart(ws: seq<Widget>, items: map<string, int>)
    requires PairwiseApart(ws) && WithinGrid(ws)
    ensures PairwiseApart(KeepShown(ws, items)) && WithinGrid(KeepShown(ws, items))
    decreases |ws|
  {
    if ws != [] {
      var init := ws[..|ws| - 1];
      var last := ws[|ws| - 1];
      assert PairwiseApart(init) && WithinGrid(init);
      KeepShownApart(init, items);
      KeepShownMembers(init, items);
      var k := KeepShown(init, items);
      if Shown(last, items) {
        var r := k + [last];
        forall i | 0 <= i < |k| ensures !Overlap(k[i], last) {
          assert k[i] in init;
          var m :| 0 <= m < |init| && init[m] == k[i];
          assert ws[m] == k[i];
        }
        assert forall i, j :: 0 <= i < j < |r| ==> !Overlap(r[i], r[j]) by {
          forall i, j | 0 <= i < j < |r| ensures !Overlap(r[i], r[j]) {
            if j < |k| { assert r[i] == k[i] && r[j] == k[j]; } else { assert r[i] == k[i] && r[j] == last; }
          }
        }
      }
    }
  }

  /** The fixed grid: no two widgets overlap and all fit in the 72 columns. */
  lemma GridApart(gid: int, items: map<string, int>)
    ensures PairwiseApart(Grid(gid, items)) && WithinGrid(Grid(gid, items))
  {
  }

  /** Names of the grid widgets, one per position. */
  lemma GridNames(gid: int, items: map<string, int>)
    ensures var g := Grid(gid, items);
            && g[0].name == Some(SeverityName) && g[1].name == Some(RunningName)
            && g[2].name == Some(ExitedName) && g[3].name == Some(ProblemsName)
            && g[4].name == Some(DiskName) && g[5].name == Some(SwarmName)
  {
  }

  /**
   * Which widgets the desired layout holds: both problem widgets always, and
   * each item-bound widget exactly when its item id is known and non-zero.
   */
  lemma DesiredLayoutWidgets(gid: int, items: map<string, int>)
    ensures var l := DesiredLayout(gid, items);
            && HasNamed(l, SeverityName) && HasNamed(l, ProblemsName)
            && (HasNamed(l, RunningName) <==> Truthy(Lookup(items, KeyRunning)))
            && (HasNamed(l, ExitedName) <==> Truthy(Lookup(items, KeyExited)))
            && (HasNamed(l, DiskName) <==> Truthy(Lookup(items, KeyDisk)))
            && (HasNamed(l, SwarmName) <==> Truthy(Lookup(items, KeySwarm)))
  {
    var g := Grid(gid, items);
    var l := DesiredLayout(gid, items);
    GridShown(gid, items);
    GridNames(gid, items);
    KeepShownMembers(g, items);
    assert forall w :: w in g ==> w == g[0] || w == g[1] || w == g[2] || w == g[3] || w == g[4] || w == g[5];
    assert g[0] in l && g[3] in l;
    assert Truthy(Lookup(items, KeyRunning)) ==> g[1] in l;
    assert Truthy(Lookup(items, KeyExited)) ==> g[2] in l;
    assert Truthy(Lookup(items, KeyDisk)) ==> g[4] in l;
    assert Truthy(Lookup(items, KeySwarm)) ==> g[5] in l;
  }

  /** Every item-bound widget of the desired layout starts with the binding to its item's current id. */
  lemma DesiredLayoutBindsCurrentIds(gid: int, items: map<string, int>)
    ensures forall w :: w in DesiredLayout(gid, items) && BoundKey(w.name).Some? ==>
              var k := BoundKey(w.name).value;
              && k in items && items[k] != 0
              && w.fields.Some? && |w.fields.value| > 0 && w.fields.value[0] == ItemRef(items[k])
  {
    var g := Grid(gid, items);
    GridBindsLookedUpIds(gid, items);
    KeepShownMembers(g, items);
    forall w | w in g && Shown(w, items) && BoundKey(w.name).Some?
      ensures w.fields.Some? && |w.fields.value| > 0
      ensures w.fields.value[0] == ItemRef(items[BoundKey(w.name).value])
    {
    }
  }

  /** Every item-bound grid widget starts with the binding to its key's looked-up id, 0 when unknown. */
  lemma GridBindsLookedUpIds(gid: int, items: map<string, int>)
    ensures forall w :: w in Grid(gid, items) && BoundKey(w.name).Some? ==>
              && w.fields.Some? && |w.fields.value| > 0
              && w.fields.value[0] == ItemRef(Lookup(items, BoundKey(w.name).value).GetOr(0))
  {
    var g := Grid(gid, items);
    BoundKeysOfNames();
    GridNames(gid, items);
    forall w | w in g && BoundKey(w.name).Some?
      ensures w.fields.Some? && |w.fields.value| > 0
      ensures w.fields.value[0] == ItemRef(Lookup(items, BoundKey(w.name).value).GetOr(0))
    {
      var i :| 0 <= i < 6 && g[i] == w;
      assert i != 0 && i != 3;
    }
  }

  /**
   * Every widget of the desired layout has a type, a position and a size,
   * view mode 0, no widget id and a field list.
   */
  lemma DesiredLayoutBuilt(gid: int, items: map<string, int>)
    ensures forall w :: w in DesiredLayout(gid, items) ==>
              && w.wtype.Some? && w.x.Some? && w.y.Some? && w.width.Some? && w.height.Some?
              && w.viewMode == Some(0) && w.widgetid.None? && w.fields.Some?
  {
    var g := Grid(gid, items);
    KeepShownMembers(g, items);
    assert forall w :: w in g ==> w == g[0] || w == g[1] || w == g[2] || w == g[3] || w == g[4] || w == g[5];
  }

  /** The desired layout's names are non-empty and pairwise distinct. */
  lemma DesiredLayoutNames(gid: int, items: map<string, int>)
    ensures NamesDistinct(DesiredLayout(gid, items))
    ensures forall w :: w in DesiredLayout(gid, items) ==> w.name.Some? && w.name.value != []
  {
    var g := Grid(gid, items);
    GridDistinctNames(gid, items);
    DistinctNames(g, items);
    GridNames(gid, items);
    KeepShownMembers(g, items);
    assert forall w :: w in g ==> w == g[0] || w == g[1] || w == g[2] || w == g[3] || w == g[4] || w == g[5];
  }

  lemma GridDistinctNames(gid: int, items: map<string, int>)
    ensures NamesDistinct(Grid(gid, items))
  {
    var g := Grid(gid, items);
    GridNames(gid, items);
    assert |g| == 6;
    var lens := [20, 33, 17, 25, 27, 22];
    assert forall i :: 0 <= i < 6 ==> g[i].name.Some? && |g[i].name.value| == lens[i];
  }

  /** No two widgets of the desired layout overlap, and all fit in the 72-column grid. */
  lemma DesiredLayoutApart(gid: int, items: map<string, int>)
    ensures PairwiseApart(DesiredLayout(gid, items)) && WithinGrid(DesiredLayout(gid, items))
  {
    GridApart(gid, items);
    KeepShownApart(Grid(gid, items), items);
  }

  /** Filtering keeps names pairwise distinct. */
  lemma {:induction false} DistinctNames(g: seq<Widget>, items: map<string, int>)
    requires NamesDistinct(g)
    ensures NamesDistinct(KeepShown(g, items))
    decreases |g|
  {
    if g != [] {
      var init := g[..|g| - 1];
      assert NamesDistinct(init) by {
        forall i, j | 0 <= i < j < |init| ensures init[i].name != init[j].name {
          assert init[i] == g[i] && init[j] == g[j];
        }
      }
      DistinctNames(init, items);
      KeepShownMembers(init, items);
      var k := KeepShown(init, items);
      var last := g[|g| - 1];
      if Shown(last, items) {
        var r := k + [last];
        assert KeepShown(g, items) == r;
        forall i, j | 0 <= i < j < |r| ensures r[i].name != r[j].name {
          if j < |k| {
            assert r[i] == k[i] && r[j] == k[j];
          } else {
            assert k[i] in init;
            var m :| 0 <= m < |init| && init[m] == k[i];
            assert g[m] == r[i] && r[j] == g[|g| - 1];
          }
        }
      } else {
        assert KeepShown(g, items) == k;
      }
    }
  }

  lemma KeepShownStep(ws: seq<Widget>, items: map<string, int>, k: nat)
    requires k < |ws|
    ensures KeepShown(ws[..k + 1], items) == KeepShown(ws[..k], items) + (if Shown(ws[k], items) then [ws[k]] else [])
  {
    assert ws[..k + 1][..k] == ws[..k];
  }

  /** Whether a widget of this name is shown: it is bound to no item, or its item id is truthy. */
  predicate NameShown(n: string, items: map<string, int>) {
    match BoundKey(Some(n))
    case None => true
    case Some(k) => Truthy(Lookup(items, k))
  }

  /** The names of `ns` whose widgets are shown, in their order. */
  function ShownNames(ns: seq<string>, items: map<string, int>): seq<string> {
    if ns == [] then []
    else
      var last := ns[|ns| - 1];
      ShownNames(ns[..|ns| - 1], items) + (if NameShown(last, items) then [last] else [])
  }

  /** Filtering widgets by `Shown` follows filtering their names by `NameShown`. */
  lemma {:induction false} KeepShownFollowsNames(ws: seq<Widget>, ns: seq<string>, items: map<string, int>)
    requires |ws| == |ns| && forall i :: 0 <= i < |ws| ==> ws[i].name == Some(ns[i])
    ensures |KeepShown(ws, items)| == |ShownNames(ns, items)|
    ensures forall i :: 0 <= i < |KeepShown(ws, items)| ==> KeepShown(ws, items)[i].name == Some(ShownNames(ns, items)[i])
  {
    if ws != [] {
      var n := |ws| - 1;
      KeepShownFollowsNames(ws[..n], ns[..n], items);
      assert Shown(ws[n], items) == NameShown(ns[n], items);
    }
  }

  /**
   * The widgets of the desired layout carry the names of the fixed layout
   * order, without the names whose widgets are not shown, in that order.
   */
  lemma DesiredLayoutOrder(gid: int, items: map<string, int>)
    ensures var l := DesiredLayout(gid, items);
            var ns := ShownNames(LayoutOrder, items);
            |l| == |ns| && forall i :: 0 <= i < |l| ==> l[i].name == Some(ns[i])
  {
    GridNames(gid, items);
    KeepShownFollowsNames(Grid(gid, items), LayoutOrder, items);
  }

  /** Which grid widget is shown, and the widget built from a known id is the grid's. */
  lemma GridShown(gid: int, items: map<string, int>)
    ensures var g := Grid(gid, items);
            && |g| == 6
            && Shown(g[0], items) && Shown(g[3], items)
            && (Shown(g[1], items) <==> Truthy(Lookup(items, KeyRunning)))
            && (Shown(g[2], items) <==> Truthy(Lookup(items, KeyExited)))
            && (Shown(g[4], items) <==> Truthy(Lookup(items, KeyDisk)))
            && (Shown(g[5], items) <==> Truthy(Lookup(items, KeySwarm)))
  {
    BoundKeysOfNames();
    GridNames(gid, items);
  }

  /** The item key of each widget name of the layout. */
  lemma BoundKeysOfNames()
    ensures BoundKey(Some(SeverityName)).None? && BoundKey(Some(ProblemsName)).None?
    ensures BoundKey(Some(RunningName)) == Some(KeyRunning) && BoundKey(Some(ExitedName)) == Some(KeyExited)
    ensures BoundKey(Some(DiskName)) == Some(KeyDisk) && BoundKey(Some(SwarmName)) == Some(KeySwarm)
  {
    assert |RunningName| == 33 && |ExitedName| == 17 && |DiskName| == 27 && |SwarmName| == 22;
    assert |SeverityName| == 20 && |ProblemsName| == 25;
  }

  /**
   * The items the host is given and the widgets bound to items match: every
   * key a widget is bound to is the key of an ensured item, and every ensured
   * item is bound by one of the layout's widgets.
   */
  lemma EnsuredItemsMatchWidgets()
    ensures forall n :: BoundKey(n).Some? ==>
              exists i :: 0 <= i < |ItemsToEnsure| && ItemsToEnsure[i].key == BoundKey(n).value
    ensures forall i :: 0 <= i < |ItemsToEnsure| ==>
              exists j :: 0 <= j < |LayoutOrder| && BoundKey(Some(LayoutOrder[j])) == Some(ItemsToEnsure[i].key)
  {
    BoundKeysOfNames();
    assert BoundKey(Some(LayoutOrder[1])) == Some(ItemsToEnsure[0].key);
    assert BoundKey(Some(LayoutOrder[2])) == Some(ItemsToEnsure[1].key);
    assert BoundKey(Some(LayoutOrder[5])) == Some(ItemsToEnsure[2].key);
    assert BoundKey(Some(LayoutOrder[4])) == Some(ItemsToEnsure[3].key);
    forall n | BoundKey(n).Some?
      ensures exists i :: 0 <= i < |ItemsToEnsure| && ItemsToEnsure[i].key == BoundKey(n).value
    {
      var k := BoundKey(n).value;
      if k == KeyRunning { assert ItemsToEnsure[0].key == k; }
      else if k == KeyExited { assert ItemsToEnsure[1].key == k; }
      else if k == KeySwarm { assert ItemsToEnsure[2].key == k; }
      else { assert ItemsToEnsure[3].key == k; }
    }
  }

  /** `make_widgets`: the list is built by appending the grid's widgets one by one. */
  method MakeWidgets(gid: int, dashItems: map<string, int>) returns (w: seq<Widget>)
    ensures w == DesiredLayout(gid, dashItems)
  {
    ghost var g := Grid(gid, dashItems);
    GridShown(gid, dashItems);
    w := [];
    w := w + [SeverityWidget(gid)];
    KeepShownStep(g, dashItems, 0);
    assert w == KeepShown(g[..1], dashItems);
    var running := Lookup(dashItems, KeyRunning);
    if running.Some? && running.value != 0 {
      w := w + [ContainerWidget(RunningName, 24, running.value)];
    }
    KeepShownStep(g, dashItems, 1);
    assert w == KeepShown(g[..2], dashItems);
    var exited := Lookup(dashItems, KeyExited);
    if exited.Some? && exited.value != 0 {
      w := w + [ContainerWidget(ExitedName, 48, exited.value)];
    }
    KeepShownStep(g, dashItems, 2);
    assert w == KeepShown(g[..3], dashItems);
    w := w + [ProblemsWidget(gid)];
    KeepShownStep(g, dashItems, 3);
    assert w == KeepShown(g[..4], dashItems);
    var disk := Lookup(dashItems, KeyDisk);
    if disk.Some? && disk.value != 0 {
      w := w + [DiskWidget(disk.value)];
    }
    KeepShownStep(g, dashItems, 4);
    assert w == KeepShown(g[..5], dashItems);
    var swarm := Lookup(dashItems, KeySwarm);
    if swarm.Some? && swarm.value != 0 {
      w := w + [SwarmWidget(swarm.value)];
    }
    KeepShownStep(g, dashItems, 5);
    assert g[..6] == g;
  }
}
