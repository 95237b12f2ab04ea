# zabbix-init-config, modelled in Dafny

`zabbix-init-config.py` sets up a Zabbix server through its JSON-RPC API. It
creates or finds a host group, a host with the Linux and Docker templates, a
"free disk space below 25%" trigger, four monitored items, and the
"Главный экран" (main screen) dashboard. Almost all of it is network
plumbing. This project models the in-memory computations inside that
plumbing. Each server reply becomes an input value:

- **`.env` loader** (`env_file.dfy`). The first candidate file that exists
  is read line by line. Each `key=value` line is stored into the
  environment map. Comments, blank lines and lines without `=` are skipped.
  A line is split at its first `=`, then whitespace and quotes are trimmed
  with Python's `str.strip` rules (`text.dfy`). Later lines win.
- **Item loop** (`items.dfy`). Each item key is resolved to the id of the
  existing item, or else to the id of a newly created item. The result is
  `dash_items`.
- **Desired layout, `make_widgets`** (`layout.dfy`). A fixed grid of six
  widgets. The four item-bound widgets appear only when their item id is
  known and non-zero. Their `itemid.0` field holds that id in decimal
  (`widgets.dfy`).
- **Page repair** (`page_merge.dfy`). This is a keyed union by widget name
  over the first page of an existing dashboard:
  - each existing widget is normalised (defaults filled in) and keeps its
    geometry;
  - its first `itemid.0` field is rebound to the current item id;
  - desired widgets whose names are missing are appended below the lowest
    occupied row, using a fixed position table.
- **Small decisions** (`reconcile.dfy`):
  - the trigger expression;
  - the missing-template warnings;
  - the three-way dashboard outcome: create, leave alone, or write back the
    repaired first page.

Where the state changes step by step, the source's form is kept. The `.env`
loader, the item loop, the merge loop and the in-place field overwrite with
its `break` are methods with loops. `make_widgets` is a method too: a
straight-line series of guarded appends, as in the source. Each method
except `EnsureItems` is proved equal to a specification function, and the
properties are proved about those functions. `EnsureItems` is specified by a
relation instead: its ensures describes the resulting map directly. Widget
keys that may be missing are `Option` fields. Two `KeyError`s the source
can raise are error values:
- a widget without `type` (line 330) gives `WidgetWithoutType`, and then
  `UntypedWidget`;
- a first page without `dashboard_pageid` (line 347) gives `NoPageId`.

The other reply keys the source indexes directly are assumed present. They
are mandatory fields of the model's reply records, so their `KeyError`
cannot arise:
- `dashboardid` (line 308);
- `templateid` and `name` (lines 131-132);
- `userid` (line 237);
- `itemid` and `itemids` (lines 213 and 228).

## Model

| member | source | states |
|---|---|---|
| Text.StripBounds | zabbix-init-config.py:26 | `strip()` returns a slice of its input. Everything cut from the front and from the back is whitespace, and a non-empty result neither starts nor ends with whitespace. |
| Text.StripRemovesExactlyTheEnds | zabbix-init-config.py:29 | Stripping a character set cuts exactly the maximal runs of set members at both ends. The result is empty exactly when every character is in the set. |
| Text.StripIdempotent | zabbix-init-config.py:29 | Stripping a second time changes nothing. |
| Text.NatToDecimal | zabbix-init-config.py:254 | `str(n)` of a natural number is a non-empty string of digits with no leading zero. |
| Text.DecimalString | zabbix-init-config.py:254 | `str(n)` is non-empty and starts with `-` exactly when `n` is negative. |
| Text.DecimalRoundTrip | zabbix-init-config.py:339 | Reading `str(id)` back as a decimal gives `id` for every integer. |
| Text.DecimalStringInjective | zabbix-init-config.py:339 | Different ids give different strings. |
| EnvFile.FirstIndexOf | zabbix-init-config.py:28 | `partition` splits at an `=` that has no `=` before it. |
| EnvFile.ParseLine | zabbix-init-config.py:26-31 | A line that stores something stores a non-empty key. |
| EnvFile.ParseLineSplitsAtFirstEquals | zabbix-init-config.py:26-31 | A line stores nothing exactly when, once stripped, it is empty, starts with `#` or `=`, or has no `=`. Otherwise the key is the stripped text before the first `=`. The value is the text after it, stripped of whitespace and then of quotes. The key never contains `=`. |
| EnvFile.SkippedLineKeepsEnv | zabbix-init-config.py:27 | A blank line, a comment, a line without `=` or a line with an empty key leaves the environment unchanged. |
| EnvFile.ValueKeepsLaterEquals | zabbix-init-config.py:28 | `A=b=c` stores `b=c` under `A`. |
| EnvFile.KeyAndValueTrimmed | zabbix-init-config.py:29-31 | ` H = 'v' ` stores `v` under `H`. |
| EnvFile.LastAssignmentWins | zabbix-init-config.py:30-31 | After storing the lines of a file, a key is present exactly when it was before or some line assigns it. Its value comes from the last line that assigns it. A key no line assigns keeps its old value. |
| EnvFile.FirstExisting | zabbix-init-config.py:21-23 | The file chosen is the first candidate that exists. None is chosen only when no candidate exists. |
| EnvFile.LoadFile | zabbix-init-config.py:24-31 | The line loop leaves the environment that results from storing every parsed line in order. |
| EnvFile.LoadEnv | zabbix-init-config.py:21-32 | The file loop reads only the first existing candidate (`break`). It leaves the environment unchanged when no candidate exists. |
| Widgets.ItemRef | zabbix-init-config.py:339 | The binding field has type 4 and name `itemid.0`, and its value reads back as the id. |
| Widgets.Rebind | zabbix-init-config.py:336-340 | The patched field list has the same length. Each entry is either unchanged or an `itemid.0` entry replaced by the binding. |
| Widgets.RebindReplacesFirstItemRef | zabbix-init-config.py:337-340 | Only the first `itemid.0` object is replaced, and all other entries stay where they are. A list without one is left unchanged. |
| Widgets.RebindIdempotent | zabbix-init-config.py:337-340 | Patching twice with the same id equals patching once. |
| Widgets.RebindKeepsCurrentBinding | zabbix-init-config.py:337-340 | A list whose first `itemid.0` entry already binds the id is left unchanged. |
| Widgets.RebindItemField | zabbix-init-config.py:334-340 | The in-place overwrite loop over a copy of the list, which stops at the first match, computes `Rebind`. |
| Items.EnsureItems | zabbix-init-config.py:207-231 | A key ends up in `dash_items` exactly when some item with that key resolves. Its id is the one from the first item with that key that resolves. |
| Layout.MakeWidgets | zabbix-init-config.py:239-300 | Appending the widgets step by step builds exactly the desired layout. |
| Layout.DesiredLayoutWidgets | zabbix-init-config.py:239-300 | Both problem widgets are always present. Each item widget is present exactly when its key has a truthy id. |
| Layout.DesiredLayoutBindsCurrentIds | zabbix-init-config.py:248-299 | Every item-bound widget's first field is the binding to the id its key currently has, and that id is known and non-zero. |
| Layout.DesiredLayoutNames | zabbix-init-config.py:239-300 | Names are non-empty and pairwise distinct. |
| Layout.DesiredLayoutApart | zabbix-init-config.py:239-300 | No two widgets overlap, and all of them fit in the 72 grid columns. |
| Layout.DesiredLayoutBuilt | zabbix-init-config.py:241-299 | Every widget has a type, a position, a size, view mode 0 and a field list, and no widget id. |
| Layout.DesiredLayoutOrder | zabbix-init-config.py:239-300 | The widgets come in the fixed layout order: severity, running, exited, problems, disk, Swarm. Names whose widgets are not shown are left out, and the order of the rest is kept. |
| Layout.EnsuredItemsMatchWidgets | zabbix-init-config.py:322-327 | Every key a widget is bound to is the key of one of the four ensured items. Every ensured item is bound by one widget of the layout. |
| Layout.KeepShownMembers | zabbix-init-config.py:249 | The `if item_…:` guards keep exactly the widgets that are shown. |
| Layout.KeepShownApart | zabbix-init-config.py:249-297 | Dropping widgets keeps the rest apart and inside the grid. |
| PageMerge.ExistingNamesMembers | zabbix-init-config.py:312 | A name is among the page's names exactly when it is non-empty and carried by some widget. |
| PageMerge.ToAddMembers | zabbix-init-config.py:314 | The widgets to add are exactly the desired widgets whose names are not on the page. |
| PageMerge.ToAddAppend | zabbix-init-config.py:314 | Filtering keeps the desired order: the filter of a concatenation is the concatenation of the filters. |
| PageMerge.ToAddNoneMissing | zabbix-init-config.py:314 | Nothing is added when every desired name is already on the page. |
| PageMerge.MaxBottomIsMaximum | zabbix-init-config.py:315 | `max_bottom` is at least every widget's `y + height` (defaults 0 and 4) and equals one of them. It is 0 for an empty page. |
| PageMerge.PlaceAtOrBelow | zabbix-init-config.py:316-321 | Every table entry and the default put a widget at row `max_bottom` or lower. |
| PageMerge.FirstUntyped | zabbix-init-config.py:329-330 | Returns the index of a widget without `type`, with every widget before it typed. |
| PageMerge.MergeRejectsUntyped | zabbix-init-config.py:329-330 | The repair fails exactly when some widget has no `type`. It then names the first such widget. |
| PageMerge.MergeKeepsExisting | zabbix-init-config.py:328-332 | The output is every existing widget in order, followed by the widgets to add. Each existing widget keeps its type, x, y, width, height and view mode. Defaults are ""/0/0/6/4/0. Its widget id is kept exactly when it is set, and its field list exactly when present. |
| PageMerge.MergePatchesFields | zabbix-init-config.py:333-341 | A widget whose name maps to a key in `dash_items` has its first `itemid.0` entry replaced by the current binding. Every other field list comes through unchanged. |
| PageMerge.MergeAppendsMissing | zabbix-init-config.py:343-346 | After the existing widgets come the widgets to add, in desired order, each moved to its table position at row `max_bottom` or lower. |
| PageMerge.KeptAboveMaxBottom | zabbix-init-config.py:315 | Every kept widget ends at or above `max_bottom`. |
| PageMerge.MergePlacesBelow | zabbix-init-config.py:343-346 | Every appended widget starts below the bottom of every existing widget and overlaps none of them. |
| PageMerge.MergeCoversDesired | zabbix-init-config.py:312-346 | After the repair, every named desired widget's name is on the page. |
| PageMerge.CleanIdempotent | zabbix-init-config.py:330-341 | Normalising an already normalised widget changes nothing. |
| PageMerge.CleanKeepsPlaced | zabbix-init-config.py:330-345 | An appended desired widget comes through a later normalisation unchanged. |
| PageMerge.MergedIsClean | zabbix-init-config.py:328-346 | Every widget of a repaired page is typed and already normalised. |
| PageMerge.MergedLacksNothing | zabbix-init-config.py:312-314 | A repaired page lacks no desired widget. |
| PageMerge.MergeIdempotent | zabbix-init-config.py:312-346 | Merging again into the output, with the same items, adds nothing and returns the output unchanged. |
| PageMerge.DesiredLayoutWellFormed | zabbix-init-config.py:239-300 | The layout `make_widgets` builds meets what idempotence needs: typed, named, bound to the current ids. |
| PageMerge.RepairIdempotent | zabbix-init-config.py:307-346 | A second run of the page repair, with the same `dash_items`, appends nothing and writes the same widgets. |
| PageMerge.DesiredLayoutIsRepaired | zabbix-init-config.py:350-366 | A page holding exactly the layout a new dashboard is created with is already repaired. |
| PageMerge.StaleBindingIsRepaired | zabbix-init-config.py:330-341 | An "Exited контейнеры" widget bound to item 41 is rebound to 77 when the key resolves to 77. Its geometry, id and other fields are kept. |
| PageMerge.AppendedProblemWidgetsShareCells | zabbix-init-config.py:316-321 | The two problem widgets have no table entry. Appended together with the running-containers widget, they get the same cells: column 0, row `max_bottom`, 24 by 8. Each of them overlaps it. |
| PageMerge.CleanWidget | zabbix-init-config.py:330-342 | The per-widget loop body computes the normalised widget. |
| PageMerge.MergeWidgets | zabbix-init-config.py:312-346 | The two loops compute `Merge` and the widgets to add. |
| PageMerge.MergePage | zabbix-init-config.py:311-346 | The repair of a page, against the layout `make_widgets` builds. |
| Reconcile.ExpressionNamesItsHost | zabbix-init-config.py:170 | The host name is read back from the trigger expression built for it, whatever characters it holds. |
| Reconcile.ExpressionIsBuiltForItsHost | zabbix-init-config.py:50 | Every expression of the template's shape is the one built for the host it names. |
| Reconcile.TriggerExpressionInjective | zabbix-init-config.py:170 | Different hosts get different expressions. |
| Reconcile.MissingNamesExact | zabbix-init-config.py:133-135 | A name is warned about exactly when it is required and not found. |
| Reconcile.CheckTemplatesWarnsExactly | zabbix-init-config.py:131-137 | Each template name is warned about exactly when no returned template carries it, and nothing else is warned about. Every returned id is linked. "No template" is reported exactly when nothing was returned. |
| Reconcile.OnlyLinuxTemplateFound | zabbix-init-config.py:131-135 | With only the Linux template present: one id, and one warning, about the Docker template. |
| Reconcile.ReconcileDashboard | zabbix-init-config.py:302-368 | The dashboard step computes `Decide`. |
| Reconcile.DecideThreeWays | zabbix-init-config.py:307-368 | Create exactly when no dashboard is found. The created dashboard holds exactly the `make_widgets` layout, with display period 60, auto-start 1, the current user (or 1) and permission 3, and its widgets are distinct and non-overlapping. Leave alone exactly when the first dashboard has no pages. Otherwise, on its first page: fail at the first untyped widget exactly when some widget is untyped. Fail for a missing page id exactly when all widgets are typed and the page has no id. Update exactly when all widgets are typed and the page has an id. An update writes the found dashboard's first page, under that page's id, with the repaired widgets and the names of the widgets added. |
| Reconcile.RerunAfterUpdate | zabbix-init-config.py:307-347 | After the page is written back, the next run writes the same widgets again and adds none, provided the server returns the page as written. |
| Reconcile.RerunAfterCreate | zabbix-init-config.py:350-366 | After the dashboard is created, the next run writes its widgets back unchanged and adds none, provided the server returns the page as written. |
| Reconcile.DecideOnRepairedPage | zabbix-init-config.py:307-347 | A dashboard whose first page is already repaired gets that page written back with nothing added. |

## Left out

- `api_request` (lines 62-85), TLS set-up (56-59) and `wait_for_api` (88-99): network I/O, JSON encoding, HTTP error mapping and wall-clock polling. Every server reply is an input value instead: item lookups and creations, the user lookup, the dashboard lookup, the template search.
- A failing item lookup (`item.get` at line 211 is outside the `try` at line 215) aborts the run. An `ItemReply` can express only an empty lookup reply, not a failed one, so this is not representable. Only a failed item creation (caught at line 230) is modelled.
- `Store` assumes a POSIX `os.environ` and lines with no NUL characters. A key or value holding NUL makes `os.environ[...] = ...` raise `ValueError` at line 31, which ends the script. On Windows, `os.environ` upper-cases keys, so `a` and `A` would collide. The model keeps them apart.
- The trigger's description and priority (lines 49 and 51), used only by the trigger creation call.
- The remote get-or-create steps for the group, the host, the trigger and the interface (113-197, 302-306). Their outcomes depend only on server replies. Only the trigger expression and the template check are modelled.
- The configuration reads and defaults after the loader (35-46), including `rstrip("/")` of the URL. They are plain dictionary look-ups. The two default template names appear only as constants in an example.
- Reading the files: the candidate file names (line 21) and their paths are not modelled. A candidate is given as its list of lines, or as absent. Newline characters at the ends of lines are whitespace, so stripping removes them as in the source.
- Integer conversions of JSON values. Ids and geometry are integers in the model. `int()` of a non-numeric string, which would raise, is not modelled. The JSON value types of names are not modelled either: names are strings.
- Widget keys other than type, name, x, y, width, height, view_mode, widgetid and fields. The cleaning step drops them in the source. The model's widget record has no room for them.
- Field entries: an object entry always has a type, a name and a value. An object without a `name` key is not represented separately. It behaves like one with any name other than `itemid.0`.
- A widget key whose value is JSON null is treated like an absent key. For `name`, `x`, `width`, `view_mode` and `type`, the source keeps the null and writes it back (line 330), where the model writes the default, or fails for `type`. For `y` and `height`, the source raises `TypeError` at line 315 and writes nothing, where the model uses the default.
- A `pages` value that is JSON null is treated like an absent key, as the source does (`if pages:`).
- A first page whose `widgets` value is JSON null: the source raises `TypeError` when it iterates it (line 312) and writes nothing. The model treats it like an absent key and returns an update that appends the whole desired layout.
- `MergePage`: the source mutates the appended widget objects in place. The model builds new values. Those objects are not used again, so the result is the same.
- Console messages, `sys.exit` codes and the top-level exception handler (373-378).
- The merge normalises every existing widget, filling defaults and dropping unset widget ids and unknown keys. It also rebinds every widget whose name maps to a known key, duplicates included. So a widget already on the page is written back in normalised form; it is not passed through unchanged.
