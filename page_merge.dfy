/**
 * Repair of an existing dashboard page: the page's widgets are normalised
 * (defaults filled in, item binding refreshed) and the desired widgets whose
 * names the page lacks are appended below everything already on it.
 */
module PageMerge {
  import opened Wrappers
  import opened Widgets
  import opened Items
  import opened Layout

  /** Why the repair stops: the widget at this index has no `type` key. */
  datatype MergeError = WidgetWithoutType(index: nat)

  /** A grid rectangle: column, row, width and height. */
  datatype Rect = Rect(x: int, y: int, width: int, height: int)

  /** Whether the widget has a name that Python treats as true (present, non-empty). */
  predicate NamedWidget(w: Widget) {
    w.name.Some? && w.name.value != []
  }

  /** The non-empty names on the page (`existing_names`). */
  function ExistingNames(ws: seq<Widget>): set<string> {
    set w | w in ws && NamedWidget(w) :: w.name.value
  }

  /** A name is among the page's names exactly when it is non-empty and some widget carries it. */
  lemma ExistingNamesMembers(ws: seq<Widget>, n: string)
    ensures n in ExistingNames(ws) <==> n != [] && exists i :: 0 <= i < |ws| && ws[i].name == Some(n)
  {
    if n in ExistingNames(ws) {
      var w :| w in ws && NamedWidget(w) && w.name.value == n;
      var i :| 0 <= i < |ws| && ws[i] == w;
    }
    if n != [] && exists i :: 0 <= i < |ws| && ws[i].name == Some(n) {
      var i :| 0 <= i < |ws| && ws[i].name == Some(n);
      assert ws[i] in ws;
    }
  }

  /** Whether a desired widget is absent from the page, judged by name. */
  predicate Missing(w: Widget, names: set<string>) {
    !(w.name.Some? && w.name.value in names)
  }

  /** The desired widgets that are missing from the page, in desired order (`to_add`). */
  function ToAdd(desired: seq<Widget>, names: set<string>): seq<Widget> {
    if desired == [] then []
    else
      var last := desired[|desired| - 1];
      ToAdd(desired[..|desired| - 1], names) + (if Missing(last, names) then [last] else [])
  }

  /** The row just below a widget, with the defaults 0 and 4 for `y` and `height`. */
  function Bottom(w: Widget): int {
    Top(w) + Height(w)
  }

  /** The largest bottom row on the page, or 0 for an empty page (`max_bottom`). */
  function MaxBottom(ws: seq<Widget>): int {
    if ws == [] then 0
    else if |ws| == 1 then Bottom(ws[0])
    else
      var m := MaxBottom(ws[..|ws| - 1]);
      var b := Bottom(ws[|ws| - 1]);
      if m < b then b else m
  }

  /** Where an appended widget goes, by name, relative to the first free row `mb`. */
  function PositionFor(name: Option<string>, mb: int): Rect {
    if name == Some(RunningName) then Rect(0, mb, 24, 8)
    else if name == Some(ExitedName) then Rect(24, mb, 24, 8)
    else if name == Some(DiskName) then Rect(48, mb, 24, 10)
    else if name == Some(SwarmName) then Rect(0, mb + 10, 24, 10)
    else Rect(0, mb, 24, 8)
  }

  /** A desired widget moved to its position for the first free row `mb`. */
  function Place(nw: Widget, mb: int): Widget {
    var p := PositionFor(nw.name, mb);
    nw.(x := Some(p.x), y := Some(p.y), width := Some(p.width), height := Some(p.height))
  }

  /** A placed widget starts at or below the row it is placed for. */
  lemma PlaceAtOrBelow(nw: Widget, mb: int)
    ensures Top(Place(nw, mb)) >= mb
  {
  }

  /**
   * The position table gives no place of its own to the two problem
   * widgets: when they are appended together with the running-containers
   * widget, all three get the same cells (column 0, row `mb`, 24 by 8).
   */
  lemma AppendedProblemWidgetsShareCells(gid: int, id: int, mb: int)
    ensures var r := Place(ContainerWidget(RunningName, 24, id), mb);
            var s := Place(SeverityWidget(gid), mb);
            var p := Place(ProblemsWidget(gid), mb);
            && (s.x, s.y, s.width, s.height) == (r.x, r.y, r.width, r.height)
            && (p.x, p.y, p.width, p.height) == (r.x, r.y, r.width, r.height)
    ensures Overlap(Place(SeverityWidget(gid), mb), Place(ContainerWidget(RunningName, 24, id), mb))
    ensures Overlap(Place(ProblemsWidget(gid), mb), Place(ContainerWidget(RunningName, 24, id), mb))
  {
    assert |RunningName| == 33 && |ExitedName| == 17 && |DiskName| == 27 && |SwarmName| == 22;
    assert |SeverityName| == 20 && |ProblemsName| == 25;
  }

  /** Whether the widget id is present and non-empty. */
  predicate HasWidgetId(w: Widget) {
    w.widgetid.Some? && w.widgetid.value != []
  }

  /**
   * A widget's field list after the repair: rebound to the current item id
   * when the widget's name maps to an item key present in `items`.
   */
  function PatchFields(fields: seq<Field>, name: Option<string>, items: map<string, int>): seq<Field> {
    match BoundKey(name)
    case Some(k) => if k in items then Rebind(fields, items[k]) else fields
    case None => fields
  }

  /** An existing widget normalised: defaults filled in, id kept only when set, fields patched. */
  function Clean(w: Widget, items: map<string, int>): Widget
    requires w.wtype.Some?
  {
    Widget(
      w.wtype,
      Some(w.name.GetOr("")),
      Some(w.x.GetOr(0)),
      Some(w.y.GetOr(0)),
      Some(w.width.GetOr(6)),
      Some(w.height.GetOr(4)),
      Some(w.viewMode.GetOr(0)),
      if HasWidgetId(w) then w.widgetid else None,
      if w.fields.Some? then Some(PatchFields(w.fields.value, w.name, items)) else None)
  }

  /** Whether every widget of the page has a type. */
  predicate AllTyped(ws: seq<Widget>) {
    forall i :: 0 <= i < |ws| ==> ws[i].wtype.Some?
  }

  /** The index of the first widget without a type. */
  function FirstUntyped(ws: seq<Widget>): (i: nat)
    requires !AllTyped(ws)
    ensures i < |ws| && ws[i].wtype.None?
    ensures forall k :: 0 <= k < i ==> ws[k].wtype.Some?
  {
    if ws[0].wtype.None? then 0
    else
      assert !AllTyped(ws[1..]) by {
        var k :| 0 <= k < |ws| && ws[k].wtype.None?;
        assert ws[1..][k - 1] == ws[k];
      }
      var i := FirstUntyped(ws[1..]);
      assert forall k :: 1 <= k < i + 1 ==> ws[k] == ws[1..][k - 1];
      1 + i
  }

  /**
   * The repaired page: all existing widgets, cleaned, in their order, then
   * the missing desired widgets at their positions below them; or the index
   * of the first existing widget that has no type.
   */
  function Merge(existing: seq<Widget>, desired: seq<Widget>, items: map<string, int>): Result<seq<Widget>, MergeError> {
    if !AllTyped(existing) then Err(WidgetWithoutType(FirstUntyped(existing)))
    else
      var toAdd := ToAdd(desired, ExistingNames(existing));
      var mb := MaxBottom(existing);
      Ok(CleanAll(existing, items) + PlaceAll(toAdd, mb))
  }

  /** Every widget of a typed page, cleaned, in order. */
  function CleanAll(ws: seq<Widget>, items: map<string, int>): (r: seq<Widget>)
    requires AllTyped(ws)
    ensures |r| == |ws| && forall i :: 0 <= i < |ws| ==> r[i] == Clean(ws[i], items)
  {
    seq(|ws|, i requires 0 <= i < |ws| => Clean(ws[i], items))
  }

  /** Every widget to add, moved to its position for the first free row `mb`, in order. */
  function PlaceAll(ws: seq<Widget>, mb: int): (r: seq<Widget>)
    ensures |r| == |ws| && forall j :: 0 <= j < |ws| ==> r[j] == Place(ws[j], mb)
  {
    seq(|ws|, j requires 0 <= j < |ws| => Place(ws[j], mb))
  }

  /** The repair of a page read back from the server, against the current desired layout. */
  function Repair(existing: seq<Widget>, gid: int, items: map<string, int>): Result<seq<Widget>, MergeError> {
    Merge(existing, DesiredLayout(gid, items), items)
  }

  /** `max_bottom` bounds the bottom of every widget and is attained by one, or is 0 on an empty page. */
  lemma {:induction false} MaxBottomIsMaximum(ws: seq<Widget>)
    ensures forall w :: w in ws ==> Bottom(w) <= MaxBottom(ws)
    ensures ws == [] ==> MaxBottom(ws) == 0
    ensures ws != [] ==> exists i :: 0 <= i < |ws| && Bottom(ws[i]) == MaxBottom(ws)
    decreases |ws|
  {
    if |ws| == 1 {
      assert Bottom(ws[0]) == MaxBottom(ws);
    } else if |ws| > 1 {
      var init := ws[..|ws| - 1];
      MaxBottomIsMaximum(init);
      assert ws == init + [ws[|ws| - 1]];
      var i :| 0 <= i < |init| && Bottom(init[i]) == MaxBottom(init);
      assert ws[i] == init[i];
      if MaxBottom(init) < Bottom(ws[|ws| - 1]) {
        assert Bottom(ws[|ws| - 1]) == MaxBottom(ws);
      }
    }
  }

  /** The widgets to add are the desired widgets that are missing, and only those. */
  lemma {:induction false} ToAddMembers(desired: seq<Widget>, names: set<string>)
    ensures forall w :: w in ToAdd(desired, names) <==> w in desired && Missing(w, names)
    decreases |desired|
  {
    if desired != [] {
      var init := desired[..|desired| - 1];
      ToAddMembers(init, names);
      assert desired == init + [desired[|desired| - 1]];
    }
  }

  /** Nothing is added when every desired widget's name is already on the page. */
  lemma {:induction false} ToAddNoneMissing(desired: seq<Widget>, names: set<string>)
    requires forall w :: w in desired ==> !Missing(w, names)
    ensures ToAdd(desired, names) == []
    decreases |desired|
  {
    if desired != [] {
      var init := desired[..|desired| - 1];
      assert forall w :: w in init ==> w in desired;
      ToAddNoneMissing(init, names);
      assert desired[|desired| - 1] in desired;
    }
  }

  /** Filtering a concatenation filters each part and keeps their order. */
  lemma {:induction false} ToAddAppend(a: seq<Widget>, b: seq<Widget>, names: set<string>)
    ensures ToAdd(a + b, names) == ToAdd(a, names) + ToAdd(b, names)
    decreases |b|
  {
    if b == [] {
      assert a + b == a;
    } else {
      var init := b[..|b| - 1];
      ToAddAppend(a, init, names);
      assert (a + b)[..|a + b| - 1] == a + init;
    }
  }

  /** The repair fails exactly when some widget has no type, naming the first one. */
  lemma MergeRejectsUntyped(existing: seq<Widget>, desired: seq<Widget>, items: map<string, int>)
    ensures Merge(existing, desired, items).Err? <==> exists i :: 0 <= i < |existing| && existing[i].wtype.None?
    ensures Merge(existing, desired, items).Err? ==>
              var i := Merge(existing, desired, items).error.index;
              && i < |existing| && existing[i].wtype.None?
              && forall k :: 0 <= k < i ==> existing[k].wtype.Some?
  {
  }

  /**
   * The repaired page holds the existing widgets, in their order, then the
   * widgets to add; each existing widget keeps its type, its geometry and its
   * view mode, gets its name with "" for none, and keeps its id only when set.
   */
  lemma MergeKeepsExisting(existing: seq<Widget>, desired: seq<Widget>, items: map<string, int>, out: seq<Widget>)
    requires Merge(existing, desired, items) == Ok(out)
    ensures |out| == |existing| + |ToAdd(desired, ExistingNames(existing))|
    ensures forall i :: 0 <= i < |existing| ==>
              && out[i].wtype == existing[i].wtype
              && out[i].name == Some(existing[i].name.GetOr(""))
              && Left(out[i]) == Left(existing[i]) && Top(out[i]) == Top(existing[i])
              && Width(out[i]) == Width(existing[i]) && Height(out[i]) == Height(existing[i])
              && out[i].viewMode == Some(existing[i].viewMode.GetOr(0))
              && (out[i].widgetid.Some? <==> HasWidgetId(existing[i]))
              && (out[i].widgetid.Some? ==> out[i].widgetid == existing[i].widgetid)
              && (out[i].fields.Some? <==> existing[i].fields.Some?)
  {
  }

  /**
   * The field patch: a widget whose name maps to an item key present in
   * `items` has its first `itemid.0` entry replaced by the binding to that
   * item; any other field list comes through unchanged.
   */
  lemma MergePatchesFields(existing: seq<Widget>, desired: seq<Widget>, items: map<string, int>, out: seq<Widget>, i: nat)
    requires Merge(existing, desired, items) == Ok(out)
    requires i < |existing| && existing[i].fields.Some?
    ensures var f := existing[i].fields.value;
            var key := BoundKey(existing[i].name);
            && (key.Some? && key.value in items ==>
                  && (forall p: nat :: FirstItemRef(f, p) ==> out[i].fields == Some(f[p := ItemRef(items[key.value])]))
                  && ((forall k :: 0 <= k < |f| ==> !IsItemRef(f[k])) ==> out[i].fields == Some(f)))
            && (!(key.Some? && key.value in items) ==> out[i].fields == Some(f))
  {
    var key := BoundKey(existing[i].name);
    if key.Some? && key.value in items {
      RebindReplacesFirstItemRef(existing[i].fields.value, items[key.value]);
    }
  }

  /**
   * The appended widgets: the widgets to add, in their order, each moved to
   * its position, which starts at or below `max_bottom`.
   */
  lemma MergeAppendsMissing(existing: seq<Widget>, desired: seq<Widget>, items: map<string, int>, out: seq<Widget>)
    requires Merge(existing, desired, items) == Ok(out)
    ensures var toAdd := ToAdd(desired, ExistingNames(existing));
            && |out| == |existing| + |toAdd|
            && forall k :: 0 <= k < |toAdd| ==>
                 && out[|existing| + k] == Place(toAdd[k], MaxBottom(existing))
                 && Top(out[|existing| + k]) >= MaxBottom(existing)
  {
    var toAdd := ToAdd(desired, ExistingNames(existing));
    var mb := MaxBottom(existing);
    forall k | 0 <= k < |toAdd|
      ensures out[|existing| + k] == Place(toAdd[k], mb) && Top(out[|existing| + k]) >= mb
    {
      PlaceAtOrBelow(toAdd[k], mb);
    }
  }

  /** Every appended widget lies below every existing widget, so none overlaps an existing one. */
  lemma MergePlacesBelow(existing: seq<Widget>, desired: seq<Widget>, items: map<string, int>, out: seq<Widget>)
    requires Merge(existing, desired, items) == Ok(out)
    ensures forall i, j :: 0 <= i < |existing| <= j < |out| ==>
              Bottom(out[i]) <= Top(out[j]) && !Overlap(out[i], out[j])
  {
    var mb := MaxBottom(existing);
    MergeAppendsMissing(existing, desired, items, out);
    assert forall j :: |existing| <= j < |out| ==> Top(out[j]) >= mb by {
      forall j | |existing| <= j < |out| ensures Top(out[j]) >= mb {
        assert Top(out[|existing| + (j - |existing|)]) >= mb;
      }
    }
    KeptAboveMaxBottom(existing, desired, items, out);
  }

  /** Every existing widget, after cleaning, ends at or above `max_bottom`. */
  lemma KeptAboveMaxBottom(existing: seq<Widget>, desired: seq<Widget>, items: map<string, int>, out: seq<Widget>)
    requires Merge(existing, desired, items) == Ok(out)
    ensures forall i :: 0 <= i < |existing| ==> i < |out| && Bottom(out[i]) <= MaxBottom(existing)
  {
    MergeKeepsExisting(existing, desired, items, out);
    MaxBottomIsMaximum(existing);
    forall i | 0 <= i < |existing| ensures Bottom(out[i]) <= MaxBottom(existing) {
      assert existing[i] in existing;
    }
  }

  /** After the repair every desired widget's name is on the page. */
  lemma MergeCoversDesired(existing: seq<Widget>, desired: seq<Widget>, items: map<string, int>, out: seq<Widget>)
    requires Merge(existing, desired, items) == Ok(out)
    ensures forall w :: w in desired && NamedWidget(w) ==> w.name.value in ExistingNames(out)
  {
    var names := ExistingNames(existing);
    var toAdd := ToAdd(desired, names);
    var mb := MaxBottom(existing);
    ToAddMembers(desired, names);
    forall w | w in desired && NamedWidget(w) ensures w.name.value in ExistingNames(out) {
      if Missing(w, names) {
        var j :| 0 <= j < |toAdd| && toAdd[j] == w;
        assert out[|existing| + j] == Place(w, mb);
        ExistingNamesMembers(out, w.name.value);
      } else {
        ExistingNamesMembers(existing, w.name.value);
        var i :| 0 <= i < |existing| && existing[i].name == w.name;
        assert out[i].name == w.name;
        ExistingNamesMembers(out, w.name.value);
      }
    }
  }

  /**
   * What a repair needs of the desired widgets for a second repair to change
   * nothing: each has a type, a non-empty name and a view mode, a widget id
   * only when it is set, and a field list the patch leaves as it is.
   */
  predicate DesiredWellFormed(desired: seq<Widget>, items: map<string, int>) {
    forall w :: w in desired ==>
      && w.wtype.Some? && NamedWidget(w) && w.viewMode.Some?
      && (w.widgetid.Some? ==> HasWidgetId(w))
      && w.fields.Some? && PatchFields(w.fields.value, w.name, items) == w.fields.value
  }

  /** Cleaning a widget a second time changes nothing. */
  lemma CleanIdempotent(w: Widget, items: map<string, int>)
    requires w.wtype.Some?
    ensures Clean(Clean(w, items), items) == Clean(w, items)
  {
    assert BoundKey(Some(w.name.GetOr(""))) == BoundKey(w.name);
    if w.fields.Some? {
      var key := BoundKey(w.name);
      if key.Some? && key.value in items {
        RebindIdempotent(w.fields.value, items[key.value]);
      }
    }
  }

  /** A well-formed desired widget, once placed, comes through cleaning unchanged. */
  lemma CleanKeepsPlaced(w: Widget, mb: int, items: map<string, int>)
    requires DesiredWellFormed([w], items)
    ensures Place(w, mb).wtype.Some? && Clean(Place(w, mb), items) == Place(w, mb)
  {
    assert w in [w];
  }

  /** A repaired page is typed throughout and cleaning leaves each of its widgets as it is. */
  lemma MergedIsClean(existing: seq<Widget>, desired: seq<Widget>, items: map<string, int>, out: seq<Widget>)
    requires DesiredWellFormed(desired, items)
    requires Merge(existing, desired, items) == Ok(out)
    ensures AllTyped(out) && CleanAll(out, items) == out
  {
    var toAdd := ToAdd(desired, ExistingNames(existing));
    var mb := MaxBottom(existing);
    MergeKeepsExisting(existing, desired, items, out);
    MergeAppendsMissing(existing, desired, items, out);
    ToAddMembers(desired, ExistingNames(existing));
    forall i | 0 <= i < |out| ensures out[i].wtype.Some? && Clean(out[i], items) == out[i] {
      if i < |existing| {
        CleanIdempotent(existing[i], items);
      } else {
        var w := toAdd[i - |existing|];
        assert out[|existing| + (i - |existing|)] == Place(w, mb);
        assert w in toAdd;
        assert DesiredWellFormed([w], items);
        CleanKeepsPlaced(w, mb, items);
      }
    }
  }

  /** After a repair no desired widget is missing from the page. */
  lemma MergedLacksNothing(existing: seq<Widget>, desired: seq<Widget>, items: map<string, int>, out: seq<Widget>)
    requires DesiredWellFormed(desired, items)
    requires Merge(existing, desired, items) == Ok(out)
    ensures ToAdd(desired, ExistingNames(out)) == []
  {
    MergeCoversDesired(existing, desired, items, out);
    ToAddNoneMissing(desired, ExistingNames(out));
  }

  /**
   * Repairing a repaired page again, with the same items and desired
   * widgets, returns it unchanged: nothing is appended and no widget moves.
   */
  lemma MergeIdempotent(existing: seq<Widget>, desired: seq<Widget>, items: map<string, int>, out: seq<Widget>)
    requires DesiredWellFormed(desired, items)
    requires Merge(existing, desired, items) == Ok(out)
    ensures ToAdd(desired, ExistingNames(out)) == []
    ensures Merge(out, desired, items) == Ok(out)
  {
    MergedIsClean(existing, desired, items, out);
    MergedLacksNothing(existing, desired, items, out);
    assert PlaceAll([], MaxBottom(out)) == [];
    assert out + [] == out;
  }

  /** The desired layout meets what idempotence needs of the desired widgets. */
  lemma DesiredLayoutWellFormed(gid: int, items: map<string, int>)
    ensures DesiredWellFormed(DesiredLayout(gid, items), items)
  {
    var l := DesiredLayout(gid, items);
    DesiredLayoutBuilt(gid, items);
    DesiredLayoutNames(gid, items);
    DesiredLayoutBindsCurrentIds(gid, items);
    forall w | w in l ensures PatchFields(w.fields.value, w.name, items) == w.fields.value {
      var key := BoundKey(w.name);
      if key.Some? {
        RebindKeepsCurrentBinding(w.fields.value, items[key.value], 0);
      }
    }
  }

  /**
   * Running the repair a second time on the page it produced, with the same
   * item ids, appends nothing and changes nothing.
   */
  lemma RepairIdempotent(existing: seq<Widget>, gid: int, items: map<string, int>, out: seq<Widget>)
    requires Repair(existing, gid, items) == Ok(out)
    ensures ToAdd(DesiredLayout(gid, items), ExistingNames(out)) == []
    ensures Repair(out, gid, items) == Ok(out)
  {
    DesiredLayoutWellFormed(gid, items);
    MergeIdempotent(existing, DesiredLayout(gid, items), items, out);
  }

  /** A page that holds exactly the desired layout is already repaired. */
  lemma DesiredLayoutIsRepaired(gid: int, items: map<string, int>)
    ensures Repair(DesiredLayout(gid, items), gid, items) == Ok(DesiredLayout(gid, items))
  {
    var l := DesiredLayout(gid, items);
    DesiredLayoutWellFormed(gid, items);
    DesiredLayoutBuilt(gid, items);
    forall i | 0 <= i < |l| ensures l[i].wtype.Some? && Clean(l[i], items) == l[i] {
      assert l[i] in l;
    }
    assert CleanAll(l, items) == l;
    forall w | w in l ensures !Missing(w, ExistingNames(l)) {
      var i :| 0 <= i < |l| && l[i] == w;
      ExistingNamesMembers(l, w.name.value);
    }
    ToAddNoneMissing(l, ExistingNames(l));
    assert PlaceAll([], MaxBottom(l)) == [];
    assert l + [] == l;
  }

  /**
   * An exited-containers widget still bound to item 41, on a page where the
   * exited-containers key now resolves to item 77, is rebound to 77 and keeps
   * its place, its size, its id and its other fields.
   */
  lemma StaleBindingIsRepaired()
    ensures var old_ := Widget(Some("item"), Some(ExitedName), Some(48), Some(0), Some(24), Some(8), Some(0),
                               Some("12"), Some([ItemRef(41), Field(0, "show.0", Int(1))]));
            var items := map[KeyExited := 77];
            Merge([old_], [], items) == Ok([old_.(fields := Some([ItemRef(77), Field(0, "show.0", Int(1))]))])
  {
    var old_ := Widget(Some("item"), Some(ExitedName), Some(48), Some(0), Some(24), Some(8), Some(0),
                       Some("12"), Some([ItemRef(41), Field(0, "show.0", Int(1))]));
    var items := map[KeyExited := 77];
    BoundKeysOfNames();
    var f := [ItemRef(41), Field(0, "show.0", Int(1))];
    assert Rebind(f, 77) == [ItemRef(77), Field(0, "show.0", Int(1))] by {
      RebindAt(f, 77, 0);
    }
    assert Clean(old_, items) == old_.(fields := Some([ItemRef(77), Field(0, "show.0", Int(1))]));
    assert AllTyped([old_]);
    assert CleanAll([old_], items) == [Clean(old_, items)];
    assert ToAdd([], ExistingNames([old_])) == [];
    assert PlaceAll([], MaxBottom([old_])) == [];
    assert [Clean(old_, items)] + [] == [Clean(old_, items)];
  }

  /**
   * The repair of a page read back from the server: the desired layout is
   * built, then merged into the page; `added` are the widgets appended.
   */
  method MergePage(existing: seq<Widget>, gid: int, dashItems: map<string, int>)
    returns (r: Result<seq<Widget>, MergeError>, added: seq<Widget>)
    ensures r == Repair(existing, gid, dashItems)
    ensures added == ToAdd(DesiredLayout(gid, dashItems), ExistingNames(existing))
  {
    var newWidgets := MakeWidgets(gid, dashItems);
    r, added := MergeWidgets(existing, newWidgets, dashItems);
  }

  /**
   * The merge loop: each existing widget copied into a clean record, then
   * each missing desired widget moved and appended.
   */
  method MergeWidgets(existing: seq<Widget>, desired: seq<Widget>, dashItems: map<string, int>)
    returns (r: Result<seq<Widget>, MergeError>, toAdd: seq<Widget>)
    ensures r == Merge(existing, desired, dashItems)
    ensures toAdd == ToAdd(desired, ExistingNames(existing))
  {
    var names := ExistingNames(existing);
    toAdd := ToAdd(desired, names);
    var mb := MaxBottom(existing);
    var clean: seq<Widget> := [];
    for n := 0 to |existing|
      invariant |clean| == n
      invariant forall k :: 0 <= k < n ==> existing[k].wtype.Some? && clean[k] == Clean(existing[k], dashItems)
    {
      var w := existing[n];
      if w.wtype.None? {
        assert !AllTyped(existing);
        assert FirstUntyped(existing) == n;
        return Err(WidgetWithoutType(n)), toAdd;
      }
      var c := CleanWidget(w, dashItems);
      clean := clean + [c];
    }
    assert AllTyped(existing);
    assert clean == CleanAll(existing, dashItems);
    var placed: seq<Widget> := [];
    for j := 0 to |toAdd|
      invariant |placed| == j
      invariant forall k :: 0 <= k < j ==> placed[k] == Place(toAdd[k], mb)
    {
      var nw := toAdd[j];
      var p := PositionFor(nw.name, mb);
      nw := nw.(x := Some(p.x), y := Some(p.y), width := Some(p.width), height := Some(p.height));
      placed := placed + [nw];
    }
    assert placed == PlaceAll(toAdd, mb);
    r := Ok(clean + placed);
  }

  /**
   * One existing widget copied into a clean record; its field list is
   * rebound in place when its name maps to a known item.
   */
  method CleanWidget(w: Widget, dashItems: map<string, int>) returns (c: Widget)
    requires w.wtype.Some?
    ensures c == Clean(w, dashItems)
  {
    c := Widget(w.wtype, Some(w.name.GetOr("")), Some(w.x.GetOr(0)), Some(w.y.GetOr(0)),
                Some(w.width.GetOr(6)), Some(w.height.GetOr(4)), Some(w.viewMode.GetOr(0)), None, None);
    if HasWidgetId(w) {
      c := c.(widgetid := w.widgetid);
    }
    if w.fields.Some? {
      var fields := w.fields.value;
      var key := BoundKey(w.name);
      if key.Some? && key.value in dashItems {
        fields := RebindItemField(fields, dashItems[key.value]);
      }
      c := c.(fields := Some(fields));
    }
  }
}
