/**
 * What `get_field` promises about the record it rebuilds: which names appear,
 * under which keys each value is read, how many rows a repeater or a flexible
 * field yields and in which order, and that nothing outside the prefix is read.
 */
module FieldReaderLemmas {
  import opened MetaStore
  import opened FieldReader

  /** No other entry of the schema level shares the name of entry `i`. */
  predicate NameUnique(config: seq<Field>, i: nat)
    requires i < |config|
  {
    forall j :: 0 <= j < |config| && j != i ==> config[j].name != config[i].name
  }

  lemma {:induction false} PrefixKeepsEntries(config: seq<Field>, i: nat, name: string)
    requires i == |config| - 1
    requires forall j :: 0 <= j < i ==> config[j].name != name
    ensures name !in Names(config[..i])
  {
    var init := config[..i];
    forall j | 0 <= j < |init|
      ensures init[j].name != name
    {
      assert init[j] == config[j];
    }
  }

  /**
   * A named entry whose name is unique at its level is in the record exactly
   * when it contributes something, and then with that contribution.
   */
  lemma {:induction false} FieldAt(store: Store, config: seq<Field>, prefix: string, i: nat)
    requires i < |config| && !Unnamed(config[i].name) && NameUnique(config, i)
    ensures config[i].name in GetField(store, config, prefix) <==> Entry(store, config[i], prefix).Some?
    ensures Entry(store, config[i], prefix).Some? ==>
              GetField(store, config, prefix)[config[i].name] == Entry(store, config[i], prefix).value
    decreases |config|
  {
    var n := |config|;
    var init := config[..n - 1];
    var last := config[n - 1];
    var name := config[i].name;
    var earlier := GetField(store, init, prefix);
    var e := Entry(store, last, prefix);
    assert GetField(store, config, prefix) == if Unnamed(last.name) then earlier else Include(earlier, last.name, e);
    if i == n - 1 {
      PrefixKeepsEntries(config, i, name);
      IncludeNew(earlier, name, e);
    } else {
      UniqueInPrefix(config, i);
      FieldAt(store, init, prefix, i);
      if !Unnamed(last.name) {
        IncludeOther(earlier, name, last.name, e);
      }
    }
  }

  /** Including an entry under a fresh name stores it there exactly when it is present. */
  lemma IncludeNew(earlier: Record, name: string, e: Option<Value>)
    requires name !in earlier
    ensures name in Include(earlier, name, e) <==> e.Some?
    ensures e.Some? ==> Include(earlier, name, e)[name] == e.value
  {
  }

  /** Including an entry under another name leaves `name` alone. */
  lemma IncludeOther(earlier: Record, name: string, other: string, e: Option<Value>)
    requires name != other
    ensures name in Include(earlier, other, e) <==> name in earlier
    ensures name in earlier ==> Include(earlier, other, e)[name] == earlier[name]
  {
  }

  lemma UniqueInPrefix(config: seq<Field>, i: nat)
    requires i < |config| - 1 && NameUnique(config, i)
    ensures var init := config[..|config| - 1]; init[i] == config[i] && NameUnique(init, i)
  {
    var init := config[..|config| - 1];
    forall j | 0 <= j < |init| && j != i
      ensures init[j].name != init[i].name
    {
      assert init[j] == config[j];
    }
  }

  /** A plain field is always present, holding the value stored at prefix + name ("" when absent). */
  lemma {:induction false} PlainFieldRead(store: Store, config: seq<Field>, prefix: string, i: nat)
    requires i < |config| && config[i].Plain? && !Unnamed(config[i].name) && NameUnique(config, i)
    ensures var r := GetField(store, config, prefix);
            config[i].name in r && r[config[i].name] == Meta(Lookup(store, prefix + config[i].name))
  {
    FieldAt(store, config, prefix, i);
  }

  /**
   * A repeater is present exactly when its stored count is non-empty and
   * positive and it has sub-fields; then it holds that many rows, row j read
   * from the sub-fields under `<key>_<j>_`.
   */
  lemma {:induction false} RepeaterFieldRead(store: Store, config: seq<Field>, prefix: string, i: nat)
    requires i < |config| && config[i].Repeater? && !Unnamed(config[i].name) && NameUnique(config, i)
    ensures var f := config[i];
            var key := prefix + f.name;
            var v := Lookup(store, key);
            var r := GetField(store, config, prefix);
            && (f.name in r <==> !Empty(v) && f.subFields != [] && RowCount(v) > 0)
            && (f.name in r ==>
                  && r[f.name].Rows?
                  && |r[f.name].rows| == RowCount(v)
                  && forall j :: 0 <= j < RowCount(v) ==>
                       r[f.name].rows[j] == GetField(store, f.subFields, RowPrefix(key, j)))
  {
    FieldAt(store, config, prefix, i);
  }

  /**
   * A flexible field is present exactly when it stores a non-empty list of
   * tags of which at least one selects a usable layout; then it holds the
   * layout rows of those tags.
   */
  lemma {:induction false} FlexibleFieldRead(store: Store, config: seq<Field>, prefix: string, i: nat)
    requires i < |config| && config[i].Flexible? && !Unnamed(config[i].name) && NameUnique(config, i)
    ensures var f := config[i];
            var key := prefix + f.name;
            var v := Lookup(store, key);
            var r := GetField(store, config, prefix);
            && (f.name in r <==> v.List? && LayoutRows(store, f.layouts, v.items, key, 0) != [])
            && (f.name in r ==> r[f.name] == Rows(LayoutRows(store, f.layouts, v.items, key, 0)))
  {
    FieldAt(store, config, prefix, i);
    var v := Lookup(store, prefix + config[i].name);
    if v == List([]) {
      assert LayoutRows(store, config[i].layouts, [], prefix + config[i].name, 0) == [];
    }
  }

  /** The layout rows never outnumber the tags. */
  lemma {:induction false} LayoutRowsBound(store: Store, layouts: seq<Layout>, tags: seq<string>, key: string, k: nat)
    requires k <= |tags|
    ensures |LayoutRows(store, layouts, tags, key, k)| <= |tags| - k
    decreases |tags| - k
  {
    if k < |tags| {
      LayoutRowsBound(store, layouts, tags, key, k + 1);
    }
  }

  /** Tags that select no usable layout are all skipped. */
  lemma {:induction false} LayoutRowsNoneUsable(store: Store, layouts: seq<Layout>, tags: seq<string>, key: string, k: nat)
    requires k <= |tags|
    requires forall j :: k <= j < |tags| ==> !Usable(layouts, tags[j])
    ensures LayoutRows(store, layouts, tags, key, k) == []
    decreases |tags| - k
  {
    if k < |tags| {
      LayoutRowsNoneUsable(store, layouts, tags, key, k + 1);
    }
  }

  /**
   * When every tag selects a usable layout there is one row per tag, in tag
   * order: row j is the tag's layout read under `<key>_<j>_`, tagged with
   * `acf_fc_layout`.
   */
  lemma LayoutRowsAllUsable(store: Store, layouts: seq<Layout>, tags: seq<string>, key: string, k: nat)
    requires k <= |tags|
    requires forall j :: k <= j < |tags| ==> Usable(layouts, tags[j])
    ensures var rows := LayoutRows(store, layouts, tags, key, k);
            && |rows| == |tags| - k
            && forall j :: 0 <= j < |rows| ==> rows[j] == RowAt(store, layouts, tags, key, k + j)
  {
    var rows := LayoutRows(store, layouts, tags, key, k);
    LayoutRowsUsableOnly(store, layouts, tags, key, k);
    assert UsableRows(store, layouts, tags, key, k);
    UsableFromAll(layouts, tags, k, |tags|);
    forall j | 0 <= j < |rows|
      ensures rows[j] == RowAt(store, layouts, tags, key, k + j)
    {
      AllUsableRow(store, layouts, tags, key, k, j);
    }
  }

  lemma AllUsableRow(store: Store, layouts: seq<Layout>, tags: seq<string>, key: string, k: nat, j: nat)
    requires k + j < |tags|
    requires forall i :: k <= i < |tags| ==> Usable(layouts, tags[i])
    requires UsableRows(store, layouts, tags, key, k)
    ensures j < |LayoutRows(store, layouts, tags, key, k)|
    ensures LayoutRows(store, layouts, tags, key, k)[j] == RowAt(store, layouts, tags, key, k + j)
  {
    UsableFromAll(layouts, tags, k, k + j);
    assert Usable(layouts, tags[k + j]);
  }

  /** When every tag from k on is usable, the usable positions in [k, j) are all j - k of them. */
  lemma {:induction false} UsableFromAll(layouts: seq<Layout>, tags: seq<string>, k: nat, j: nat)
    requires k <= j <= |tags|
    requires forall i :: k <= i < |tags| ==> Usable(layouts, tags[i])
    ensures |UsableFrom(layouts, tags, k, j)| == j - k
    decreases j - k
  {
    if k < j {
      UsableFromAll(layouts, tags, k + 1, j);
      UsableFromSplit(layouts, tags, k, j);
    } else {
      assert UsableFrom(layouts, tags, k, k) == {};
    }
  }

  /** A usable tag puts its row in front of the rows of the later tags. */
  lemma LayoutRowsCons(store: Store, layouts: seq<Layout>, tags: seq<string>, key: string, k: nat)
    requires k < |tags| && Usable(layouts, tags[k])
    ensures LayoutRows(store, layouts, tags, key, k)
         == [RowAt(store, layouts, tags, key, k)] + LayoutRows(store, layouts, tags, key, k + 1)
  {
  }

  /** A tag that selects no usable layout contributes no row. */
  lemma LayoutRowsSkip(store: Store, layouts: seq<Layout>, tags: seq<string>, key: string, k: nat)
    requires k < |tags| && !Usable(layouts, tags[k])
    ensures LayoutRows(store, layouts, tags, key, k) == LayoutRows(store, layouts, tags, key, k + 1)
  {
  }

  /** The positions in [k, j) whose tags select a usable layout. */
  ghost function UsableFrom(layouts: seq<Layout>, tags: seq<string>, k: nat, j: nat): set<nat>
    requires j <= |tags|
  {
    set i: nat | k <= i < j && Usable(layouts, tags[i])
  }

  /** Counting the usable positions from k: position k itself, then those from k + 1. */
  lemma UsableFromSplit(layouts: seq<Layout>, tags: seq<string>, k: nat, j: nat)
    requires k < j <= |tags|
    ensures Usable(layouts, tags[k]) ==> |UsableFrom(layouts, tags, k, j)| == 1 + |UsableFrom(layouts, tags, k + 1, j)|
    ensures !Usable(layouts, tags[k]) ==> UsableFrom(layouts, tags, k, j) == UsableFrom(layouts, tags, k + 1, j)
  {
    if Usable(layouts, tags[k]) {
      assert UsableFrom(layouts, tags, k, j) == {k} + UsableFrom(layouts, tags, k + 1, j);
    }
  }

  /**
   * The rows of a flexible field from tag k on hold one row per tag that
   * selects a usable layout, in tag order; the row of usable tag j comes
   * after as many rows as there are usable tags in [k, j).
   */
  ghost predicate UsableRows(store: Store, layouts: seq<Layout>, tags: seq<string>, key: string, k: nat)
    requires k <= |tags|
  {
    var rows := LayoutRows(store, layouts, tags, key, k);
    && |rows| == |UsableFrom(layouts, tags, k, |tags|)|
    && forall j :: k <= j < |tags| && Usable(layouts, tags[j]) ==>
         |UsableFrom(layouts, tags, k, j)| < |rows|
         && rows[|UsableFrom(layouts, tags, k, j)|] == RowAt(store, layouts, tags, key, j)
  }

  /**
   * The rows of a flexible field for any mix of tags: one row per tag that
   * selects a usable layout, in tag order. The row of usable tag j is read
   * under `<key>_<j>_`, the tag's own position, so a skipped tag leaves its
   * index unused in the meta keys.
   */
  lemma {:induction false} LayoutRowsUsableOnly(store: Store, layouts: seq<Layout>, tags: seq<string>, key: string, k: nat)
    requires k <= |tags|
    ensures var rows := LayoutRows(store, layouts, tags, key, k);
            && |rows| == |UsableFrom(layouts, tags, k, |tags|)|
            && forall j :: k <= j < |tags| && Usable(layouts, tags[j]) ==>
                 |UsableFrom(layouts, tags, k, j)| < |rows|
                 && rows[|UsableFrom(layouts, tags, k, j)|] == RowAt(store, layouts, tags, key, j)
    decreases |tags| - k
  {
    if k == |tags| {
      assert UsableFrom(layouts, tags, k, k) == {};
    } else {
      LayoutRowsUsableOnly(store, layouts, tags, key, k + 1);
      assert UsableRows(store, layouts, tags, key, k + 1);
      if Usable(layouts, tags[k]) {
        UsableRowsPrepend(store, layouts, tags, key, k);
      } else {
        UsableRowsSkip(store, layouts, tags, key, k);
      }
      assert UsableRows(store, layouts, tags, key, k);
    }
  }

  lemma UsableRowsPrepend(store: Store, layouts: seq<Layout>, tags: seq<string>, key: string, k: nat)
    requires k < |tags| && Usable(layouts, tags[k]) && UsableRows(store, layouts, tags, key, k + 1)
    ensures UsableRows(store, layouts, tags, key, k)
  {
    var rows := LayoutRows(store, layouts, tags, key, k);
    var rest := LayoutRows(store, layouts, tags, key, k + 1);
    LayoutRowsCons(store, layouts, tags, key, k);
    UsableFromSplit(layouts, tags, k, |tags|);
    assert UsableFrom(layouts, tags, k, k) == {};
    forall j | k < j < |tags| && Usable(layouts, tags[j])
      ensures |UsableFrom(layouts, tags, k, j)| < |rows|
      ensures rows[|UsableFrom(layouts, tags, k, j)|] == RowAt(store, layouts, tags, key, j)
    {
      UsableRowPrepended(store, layouts, tags, key, k, j);
    }
  }

  /** The row of a later usable tag moves one place back when tag k's row is put in front. */
  lemma UsableRowPrepended(store: Store, layouts: seq<Layout>, tags: seq<string>, key: string, k: nat, j: nat)
    requires k < j < |tags| && Usable(layouts, tags[k]) && Usable(layouts, tags[j])
    requires var rest := LayoutRows(store, layouts, tags, key, k + 1);
             var m := |UsableFrom(layouts, tags, k + 1, j)|;
             m < |rest| && rest[m] == RowAt(store, layouts, tags, key, j)
    ensures var rows := LayoutRows(store, layouts, tags, key, k);
            var n := |UsableFrom(layouts, tags, k, j)|;
            n < |rows| && rows[n] == RowAt(store, layouts, tags, key, j)
  {
    LayoutRowsCons(store, layouts, tags, key, k);
    UsableFromSplit(layouts, tags, k, j);
  }

  lemma UsableRowsSkip(store: Store, layouts: seq<Layout>, tags: seq<string>, key: string, k: nat)
    requires k < |tags| && !Usable(layouts, tags[k]) && UsableRows(store, layouts, tags, key, k + 1)
    ensures UsableRows(store, layouts, tags, key, k)
  {
    LayoutRowsSkip(store, layouts, tags, key, k);
    UsableFromSplit(layouts, tags, k, |tags|);
    forall j | k < j < |tags| && Usable(layouts, tags[j])
      ensures UsableFrom(layouts, tags, k, j) == UsableFrom(layouts, tags, k + 1, j)
    {
      UsableFromSplit(layouts, tags, k, j);
    }
  }

  /** Every flexible-content row records a layout tag. */
  lemma {:induction false} LayoutRowsTagged(store: Store, layouts: seq<Layout>, tags: seq<string>, key: string, k: nat)
    requires k <= |tags|
    ensures forall row :: row in LayoutRows(store, layouts, tags, key, k) ==> LayoutTag in row
    decreases |tags| - k
  {
    if k < |tags| {
      LayoutRowsTagged(store, layouts, tags, key, k + 1);
      if Usable(layouts, tags[k]) {
        LayoutRowsCons(store, layouts, tags, key, k);
        assert RowAt(store, layouts, tags, key, k) == TaggedRow(store, layouts, tags[k], RowPrefix(key, k));
      }
    }
  }

  /** Of two layouts sharing a name, a tag of that name selects the later one or one after it, never the earlier. */
  lemma LaterLayoutWins(layouts: seq<Layout>, i: nat, j: nat)
    requires i < j < |layouts| && layouts[i].name == layouts[j].name
    ensures var r := LayoutIndex(layouts, layouts[i].name);
            r.Some? && j <= r.value
  {
    var r := LayoutIndex(layouts, layouts[i].name);
    assert layouts[j].name == layouts[i].name;
  }

  // ---------------------------------------------------------------------------
  // A post with no meta at all.

  function PlainNames(config: seq<Field>): set<string> {
    set i | 0 <= i < |config| && config[i].Plain? && !Unnamed(config[i].name) :: config[i].name
  }

  /**
   * Reading a post with no meta yields exactly the named plain fields, each
   * holding "": repeaters and flexible fields read "" and are left out.
   */
  lemma {:induction false} EmptyStoreRead(config: seq<Field>, prefix: string)
    ensures var r := GetField(map[], config, prefix);
            && r.Keys == PlainNames(config)
            && forall name :: name in r ==> r[name] == Meta(Text(""))
    decreases |config|
  {
    if config != [] {
      var n := |config|;
      var init := config[..n - 1];
      EmptyStoreRead(init, prefix);
      assert forall j :: 0 <= j < n - 1 ==> init[j] == config[j];
      var f := config[n - 1];
      if f.Plain? && !Unnamed(f.name) {
        assert PlainNames(config) == PlainNames(init) + {f.name};
      } else {
        assert PlainNames(config) == PlainNames(init);
      }
    }
  }

  // ---------------------------------------------------------------------------
  // The reader only looks at keys that start with its prefix.

  /** The two stores hand out the same value for every key starting with `prefix`. */
  ghost predicate AgreeUnder(s1: Store, s2: Store, prefix: string) {
    forall key :: prefix <= key ==> Lookup(s1, key) == Lookup(s2, key)
  }

  lemma AgreeNarrows(s1: Store, s2: Store, p: string, q: string)
    requires AgreeUnder(s1, s2, p) && p <= q
    ensures AgreeUnder(s1, s2, q)
  {
    forall key | q <= key
      ensures Lookup(s1, key) == Lookup(s2, key)
    {
      assert key[..|p|] == q[..|p|];
    }
  }

  /** Stores that agree under the prefix yield the same record. */
  lemma {:induction false} GetFieldFrame(s1: Store, s2: Store, config: seq<Field>, prefix: string)
    requires AgreeUnder(s1, s2, prefix)
    ensures GetField(s1, config, prefix) == GetField(s2, config, prefix)
    decreases ListSize(config), 1
  {
    if config != [] {
      GetFieldFrame(s1, s2, config[..|config| - 1], prefix);
      EntryFrame(s1, s2, config[|config| - 1], prefix);
    }
  }

  lemma {:induction false} EntryFrame(s1: Store, s2: Store, f: Field, prefix: string)
    requires AgreeUnder(s1, s2, prefix)
    ensures Entry(s1, f, prefix) == Entry(s2, f, prefix)
    decreases Size(f), 0
  {
    var key := prefix + f.name;
    assert prefix <= key;
    AgreeNarrows(s1, s2, prefix, key);
    assert Lookup(s1, key) == Lookup(s2, key);
    match f
    case Plain(_) =>
    case Repeater(_, subs) =>
      var v := Lookup(s1, key);
      var n := RowCount(v);
      if !(Empty(v) || subs == [] || n == 0) {
        var rows1 := seq(n, i requires 0 <= i < n => GetField(s1, subs, RowPrefix(key, i)));
        var rows2 := seq(n, i requires 0 <= i < n => GetField(s2, subs, RowPrefix(key, i)));
        forall i | 0 <= i < n
          ensures rows1[i] == rows2[i]
        {
          AgreeNarrows(s1, s2, key, RowPrefix(key, i));
          GetFieldFrame(s1, s2, subs, RowPrefix(key, i));
        }
        assert rows1 == rows2;
      }
    case Flexible(_, layouts) =>
      var v := Lookup(s1, key);
      if v.List? {
        LayoutRowsFrame(s1, s2, layouts, v.items, key, 0);
      }
  }

  lemma {:induction false} LayoutRowsFrame(s1: Store, s2: Store, layouts: seq<Layout>, tags: seq<string>, key: string, k: nat)
    requires k <= |tags|
    requires AgreeUnder(s1, s2, key)
    ensures LayoutRows(s1, layouts, tags, key, k) == LayoutRows(s2, layouts, tags, key, k)
    decreases LayoutsSize(layouts), |tags| - k
  {
    if k < |tags| {
      LayoutRowsFrame(s1, s2, layouts, tags, key, k + 1);
      if Usable(layouts, tags[k]) {
        var j := LayoutIndex(layouts, tags[k]).value;
        LayoutSizeBound(layouts, j);
        AgreeNarrows(s1, s2, key, RowPrefix(key, k));
        GetFieldFrame(s1, s2, layouts[j].subFields, RowPrefix(key, k));
        assert TaggedRow(s1, layouts, tags[k], RowPrefix(key, k)) == TaggedRow(s2, layouts, tags[k], RowPrefix(key, k));
      }
    }
  }

  /**
   * No row prefix of a field extends the prefix of another of its rows, so
   * with `GetFieldFrame` the rows of a repeater or flexible field read
   * disjoint sets of meta keys.
   */
  lemma RowPrefixesDisjoint(key: string, i: nat, j: nat)
    requires i != j
    ensures !(RowPrefix(key, i) <= RowPrefix(key, j))
  {
    var a := NatToString(i);
    var b := NatToString(j);
    var p := RowPrefix(key, i);
    var q := RowPrefix(key, j);
    var n := |key| + 1;
    assert p == (key + "_") + (a + "_");
    assert q == (key + "_") + (b + "_");
    if |a| < |b| {
      assert p[n + |a|] == '_' && q[n + |a|] == b[|a|] && IsDigit(b[|a|]);
    }
    if p <= q {
      assert |a| <= |b|;
      if |a| == |b| {
        forall k | 0 <= k < |a|
          ensures a[k] == b[k]
        {
          assert p[n + k] == a[k] && q[n + k] == b[k];
        }
        assert a == b;
        NatToStringInjective(i, j);
      }
    }
  }

  // ---------------------------------------------------------------------------
  // The slideshow schema of `get_config`.

  /** Slide i as the reader rebuilds it: title, image and content read under `slides_<i>_`. */
  function SlideRecord(store: Store, i: nat): Record {
    var p := RowPrefix("slides", i);
    map["title" := Meta(Lookup(store, p + "title")),
        "image" := Meta(Lookup(store, p + "image")),
        "content" := Meta(Lookup(store, p + "content"))]
  }

  lemma SlideFieldsRead(store: Store, p: string)
    ensures GetField(store, [Plain("title"), Plain("image"), Plain("content")], p)
         == map["title" := Meta(Lookup(store, p + "title")),
                "image" := Meta(Lookup(store, p + "image")),
                "content" := Meta(Lookup(store, p + "content"))]
  {
    var subs := [Plain("title"), Plain("image"), Plain("content")];
    var t := Meta(Lookup(store, p + "title"));
    var im := Meta(Lookup(store, p + "image"));
    var c := Meta(Lookup(store, p + "content"));
    assert subs[..1][..0] == [];
    assert GetField(store, subs[..1], p) == map["title" := t];
    assert subs[..2][..1] == subs[..1];
    assert GetField(store, subs[..2], p) == map["title" := t, "image" := im];
    assert subs[..3] == subs;
  }

  /** How many slides the stored count announces: none when it is empty. */
  function SlideCount(store: Store): nat {
    var v := Lookup(store, "slides");
    if Empty(v) then 0 else RowCount(v)
  }

  /** The slides the schema reads, one record per announced slide. */
  function SlideRows(store: Store): seq<Record> {
    seq(SlideCount(store), i requires 0 <= i < SlideCount(store) => SlideRecord(store, i))
  }

  /**
   * Reading the slideshow schema: nothing when the stored slide count is empty
   * or zero, otherwise exactly `slides` with one record per counted slide.
   */
  lemma ReadSlides(store: Store)
    ensures var r := GetField(store, Config(), "");
            && (SlideRows(store) == [] ==> r == map[])
            && (SlideRows(store) != [] ==> r == map["slides" := Rows(SlideRows(store))])
  {
    var v := Lookup(store, "slides");
    var n := RowCount(v);
    var subs := [Plain("title"), Plain("image"), Plain("content")];
    assert Config()[..0] == [];
    assert "" + "slides" == "slides";
    if !Empty(v) && n > 0 {
      var rows := seq(n, i requires 0 <= i < n => GetField(store, subs, RowPrefix("slides", i)));
      forall i | 0 <= i < n
        ensures rows[i] == SlideRecord(store, i)
      {
        SlideFieldsRead(store, RowPrefix("slides", i));
      }
      assert rows == SlideRows(store);
    }
  }

  /** The first slide's title lives at `slides_0_title`. */
  lemma FirstSlideTitleKey(store: Store)
    ensures SlideRecord(store, 0)["title"] == Meta(Lookup(store, "slides_0_title"))
  {
    assert RowPrefix("slides", 0) + "title" == "slides_0_title";
  }
}
