/**
 * The schema-driven meta reader `get_field`: it rebuilds a nested record (plain
 * values, repeater rows, flexible-content rows) from the flat meta store of one
 * post, following a field schema in the shape of an ACF field-group export.
 *
 * The PHP injects the key prefix of a nested level by writing
 * `meta_key_prefix` into a copy of the sub-schema; here the prefix is a
 * parameter, and the top level reads with the empty prefix.
 */
module FieldReader {
  import opened MetaStore

  datatype Option<T> = None | Some(value: T)

  /** A schema entry: a plain field, a repeater (`sub_fields`) or flexible content (`layouts`). */
  datatype Field =
    | Plain(name: string)
    | Repeater(name: string, subFields: seq<Field>)
    | Flexible(name: string, layouts: seq<Layout>)

  /** One flexible-content layout; a layout without `sub_fields` has the empty sequence. */
  datatype Layout = Layout(name: string, subFields: seq<Field>)

  /** A value in the rebuilt record: a meta value as read, or the rows of a repeater or flexible field. */
  datatype Value = Meta(m: MetaValue) | Rows(rows: seq<map<string, Value>>)

  /** A PHP associative array keyed by field name. */
  type Record = map<string, Value>

  /** The key under which a flexible-content row records its layout tag. */
  const LayoutTag: string := "acf_fc_layout"

  /** `empty( $field['name'] )`: PHP treats both "" and "0" as empty. */
  predicate Unnamed(name: string) {
    name == "" || name == "0"
  }

  /** The prefix of row `i` of the field stored at `key`: `$meta_key . "_{$i}_"`. */
  function RowPrefix(key: string, i: nat): (p: string)
    ensures key <= p
  {
    key + "_" + NatToString(i) + "_"
  }

  // ---------------------------------------------------------------------------
  // Schema size, the termination measure of the reader.

  function Size(f: Field): (n: nat)
    ensures n >= 1
  {
    match f
    case Plain(_) => 1
    case Repeater(_, subs) => 1 + ListSize(subs)
    case Flexible(_, layouts) => 1 + LayoutsSize(layouts)
  }

  function ListSize(fs: seq<Field>): nat {
    if fs == [] then 0 else ListSize(fs[..|fs| - 1]) + Size(fs[|fs| - 1])
  }

  function LayoutsSize(ls: seq<Layout>): nat {
    if ls == [] then 0 else LayoutsSize(ls[..|ls| - 1]) + 1 + ListSize(ls[|ls| - 1].subFields)
  }

  lemma {:induction false} LayoutSizeBound(ls: seq<Layout>, j: nat)
    requires j < |ls|
    ensures ListSize(ls[j].subFields) < LayoutsSize(ls)
    decreases |ls|
  {
    if j < |ls| - 1 {
      LayoutSizeBound(ls[..|ls| - 1], j);
    }
  }

  // ---------------------------------------------------------------------------
  // The reader.

  /**
   * The layout a tag selects: `$layout_types[ $layout_type['name'] ] = $layout_type`
   * keeps the LAST layout of each name, so the search runs from the end.
   */
  function LayoutIndex(layouts: seq<Layout>, tag: string): (r: Option<nat>)
    ensures r.Some? ==> r.value < |layouts| && layouts[r.value].name == tag
    ensures r.Some? ==> forall j :: r.value < j < |layouts| ==> layouts[j].name != tag
    ensures r.None? ==> forall j :: 0 <= j < |layouts| ==> layouts[j].name != tag
    decreases |layouts|
  {
    if layouts == [] then None
    else if layouts[|layouts| - 1].name == tag then Some(|layouts| - 1)
    else LayoutIndex(layouts[..|layouts| - 1], tag)
  }

  /** The names a schema level can contribute to its record. */
  function Names(config: seq<Field>): set<string> {
    set i | 0 <= i < |config| && !Unnamed(config[i].name) :: config[i].name
  }

  /**
   * `get_field( $post_id, $config )` with every entry of `config` carrying
   * `meta_key_prefix` = `prefix`. The entries are processed in order; each
   * named entry either sets its name in the record or leaves the record alone.
   */
  function GetField(store: Store, config: seq<Field>, prefix: string): (r: Record)
    ensures r.Keys <= Names(config)
    decreases ListSize(config), 1
  {
    if config == [] then map[]
    else
      var earlier := GetField(store, config[..|config| - 1], prefix);
      var f := config[|config| - 1];
      assert forall i :: 0 <= i < |config| - 1 ==> config[..|config| - 1][i] == config[i];
      if Unnamed(f.name) then earlier else Include(earlier, f.name, Entry(store, f, prefix))
  }

  /** The record after one named entry: its contribution, if any, is stored under its name. */
  function Include(results: Record, name: string, entry: Option<Value>): Record {
    match entry
    case None => results
    case Some(v) => results[name := v]
  }

  /** What one named schema entry contributes, or None when PHP `continue`s past it. */
  function Entry(store: Store, f: Field, prefix: string): Option<Value>
    decreases Size(f), 0
  {
    var key := prefix + f.name;
    var v := Lookup(store, key);
    match f
    case Plain(_) => Some(Meta(v))
    case Repeater(_, subs) =>
      var n := RowCount(v);
      if Empty(v) || subs == [] || n == 0 then None
      else Some(Rows(seq(n, i requires 0 <= i < n => GetField(store, subs, RowPrefix(key, i)))))
    case Flexible(_, layouts) =>
      if Empty(v) then None
      else
        match v
        case Text(_) => None   // `foreach` over a string runs no iteration
        case List(tags) =>
          var rows := LayoutRows(store, layouts, tags, key, 0);
          if rows == [] then None else Some(Rows(rows))
  }

  /** A tag selects a layout that has sub-fields (otherwise `empty( $new_config )` skips it). */
  predicate Usable(layouts: seq<Layout>, tag: string) {
    var j := LayoutIndex(layouts, tag);
    j.Some? && layouts[j.value].subFields != []
  }

  /** The rows of a flexible field for the tags from index `k` on; row k reads under `RowPrefix(key, k)`. */
  function LayoutRows(store: Store, layouts: seq<Layout>, tags: seq<string>, key: string, k: nat): seq<Record>
    requires k <= |tags|
    decreases LayoutsSize(layouts), |tags| - k + 1
  {
    if k == |tags| then []
    else
      var rest := LayoutRows(store, layouts, tags, key, k + 1);
      if !Usable(layouts, tags[k]) then rest
      else [RowAt(store, layouts, tags, key, k)] + rest
  }

  /** The row of tag `k`, read under `RowPrefix(key, k)`. */
  function RowAt(store: Store, layouts: seq<Layout>, tags: seq<string>, key: string, k: nat): Record
    requires k < |tags| && Usable(layouts, tags[k])
    decreases LayoutsSize(layouts), 1
  {
    TaggedRow(store, layouts, tags[k], RowPrefix(key, k))
  }

  /** The row of one usable tag: its layout's sub-fields read under `rowPrefix`, tagged with the layout. */
  function TaggedRow(store: Store, layouts: seq<Layout>, tag: string, rowPrefix: string): Record
    requires Usable(layouts, tag)
    decreases LayoutsSize(layouts), 0
  {
    var j := LayoutIndex(layouts, tag).value;
    LayoutSizeBound(layouts, j);
    LayoutRow(tag, GetField(store, layouts[j].subFields, rowPrefix))
  }

  /** `array_merge( [ 'acf_fc_layout' => $tag ], $fields )`: a field of that name would win. */
  function LayoutRow(tag: string, fields: Record): (r: Record)
    ensures r.Keys == fields.Keys + {LayoutTag}
    ensures LayoutTag !in fields ==> r[LayoutTag] == Meta(Text(tag))
    ensures forall name :: name in fields ==> r[name] == fields[name]
  {
    map[LayoutTag := Meta(Text(tag))] + fields
  }

  // ---------------------------------------------------------------------------
  // The schema `get_config` returns.

  function Config(): seq<Field> {
    [Repeater("slides", [Plain("title"), Plain("image"), Plain("content")])]
  }
}
