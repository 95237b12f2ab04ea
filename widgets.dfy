/**
 * Dashboard widgets as the monitoring server's dashboard API exchanges them,
 * and the repair of a widget's item binding (its first `itemid.0` field).
 */
module Widgets {
  import opened Wrappers
  import opened Text

  /** A JSON scalar carried by a widget field. */
  datatype Value = Int(i: int) | Str(s: string)

  /**
   * One entry of a widget's `fields` list: normally an object with a field
   * type code, a field name and a value; any other JSON value is kept as is.
   */
  datatype Field = Field(ftype: int, name: string, value: Value) | NonObject(raw: Value)

  /**
   * A widget record. Every key a widget read back from the server may lack is
   * an Option; widgets this tool builds set all of them except `widgetid`.
   */
  datatype Widget = Widget(
    wtype: Option<string>,
    name: Option<string>,
    x: Option<int>,
    y: Option<int>,
    width: Option<int>,
    height: Option<int>,
    viewMode: Option<int>,
    widgetid: Option<string>,
    fields: Option<seq<Field>>)

  /** The field name that holds the item a widget displays. */
  const ItemRefName: string := "itemid.0"

  /** Field type code of an item reference. */
  const ItemRefType: int := 4

  /** The field that binds a widget to item `id`: type 4, `itemid.0`, the id in decimal. */
  function ItemRef(id: int): (f: Field)
    ensures IsItemRef(f) && f.ftype == ItemRefType && f.value.Str?
    ensures ParseDecimal(f.value.s) == Some(id)
  {
    DecimalRoundTrip(id);
    Field(ItemRefType, ItemRefName, Str(DecimalString(id)))
  }

  /** Whether an entry is an object whose name is `itemid.0`. */
  predicate IsItemRef(f: Field) {
    f.Field? && f.name == ItemRefName
  }

  /**
   * The field list with its first `itemid.0` entry replaced by the binding to
   * item `id`; a list without such an entry is returned unchanged.
   */
  function Rebind(fields: seq<Field>, id: int): (r: seq<Field>)
    ensures |r| == |fields|
    ensures forall j :: 0 <= j < |fields| ==>
              r[j] == fields[j] || (IsItemRef(fields[j]) && r[j] == ItemRef(id))
  {
    if fields == [] then []
    else if IsItemRef(fields[0]) then [ItemRef(id)] + fields[1..]
    else
      var rest := Rebind(fields[1..], id);
      assert forall j :: 1 <= j < |fields| ==> fields[j] == fields[1..][j - 1];
      [fields[0]] + rest
  }

  /** Rebinding to the same item a second time changes nothing. */
  lemma {:induction false} RebindIdempotent(fields: seq<Field>, id: int)
    ensures Rebind(Rebind(fields, id), id) == Rebind(fields, id)
  {
    if fields != [] && !IsItemRef(fields[0]) {
      RebindIdempotent(fields[1..], id);
    }
  }

  /** A list whose first `itemid.0` entry already binds item `id` is left as it is. */
  lemma {:induction false} RebindKeepsCurrentBinding(fields: seq<Field>, id: int, i: nat)
    requires i < |fields| && fields[i] == ItemRef(id)
    requires forall k :: 0 <= k < i ==> !IsItemRef(fields[k])
    ensures Rebind(fields, id) == fields
  {
    if i > 0 {
      RebindKeepsCurrentBinding(fields[1..], id, i - 1);
    }
  }

  /** `Rebind` at the index of the first `itemid.0` entry, and when there is none. */
  lemma {:induction false} RebindAt(fields: seq<Field>, id: int, i: nat)
    requires i <= |fields|
    requires forall k :: 0 <= k < i ==> !IsItemRef(fields[k])
    ensures i < |fields| && IsItemRef(fields[i]) ==> Rebind(fields, id) == fields[i := ItemRef(id)]
    ensures i == |fields| ==> Rebind(fields, id) == fields
  {
    if i > 0 {
      RebindAt(fields[1..], id, i - 1);
      assert fields == [fields[0]] + fields[1..];
    }
  }

  /** Whether `p` is the index of the first `itemid.0` entry of the list. */
  predicate FirstItemRef(fields: seq<Field>, p: nat) {
    p < |fields| && IsItemRef(fields[p]) && forall k :: 0 <= k < p ==> !IsItemRef(fields[k])
  }

  /**
   * What `Rebind` does, stated without its recursion: the first `itemid.0`
   * entry is replaced by the binding and every other entry stays in place;
   * a list without such an entry is unchanged.
   */
  lemma RebindReplacesFirstItemRef(fields: seq<Field>, id: int)
    ensures forall p: nat :: FirstItemRef(fields, p) ==> Rebind(fields, id) == fields[p := ItemRef(id)]
    ensures (forall k :: 0 <= k < |fields| ==> !IsItemRef(fields[k])) ==> Rebind(fields, id) == fields
  {
    forall p: nat | FirstItemRef(fields, p) ensures Rebind(fields, id) == fields[p := ItemRef(id)] {
      RebindAt(fields, id, p);
    }
    if forall k :: 0 <= k < |fields| ==> !IsItemRef(fields[k]) {
      RebindAt(fields, id, |fields|);
    }
  }

  /**
   * The repair loop over a copy of a widget's field list: the first entry that
   * is an object named `itemid.0` is overwritten in place and the scan stops.
   */
  method RebindItemField(fields: seq<Field>, id: int) returns (r: seq<Field>)
    ensures r == Rebind(fields, id)
  {
    var a := new Field[|fields|](k requires 0 <= k < |fields| => fields[k]);
    var i := 0;
    while i < a.Length
      invariant 0 <= i <= a.Length
      invariant a[..] == fields
      invariant forall k :: 0 <= k < i ==> !IsItemRef(fields[k])
    {
      if IsItemRef(a[i]) {
        a[i] := ItemRef(id);
        RebindAt(fields, id, i);
        return a[..];
      }
      i := i + 1;
    }
    RebindAt(fields, id, i);
    r := a[..];
  }
}
