/**
  The preferences dialog's configuration round trip. Each notebook page is a
  grid of labelled widgets; here a page is its title and the current value
  of each of its fields, keyed by config key. Widget value types are kept
  abstract as `V`.
*/
module Preferences {
  import opened Wrappers

  datatype Page<V> = Page(title: string, values: map<string, V>)

  datatype ConfigError = NoValuesProvided

  /**
    A grid's `set_values`: every field of the page that the mapping names
    takes the mapping's value; the page's other fields keep theirs, and the
    mapping's other keys are not the page's business.
  */
  function SetValues<V>(p: Page<V>, values: map<string, V>): Page<V>
  {
    p.(values := map k | k in p.values :: if k in values then values[k] else p.values[k])
  }

  /** Every page after `set_values` with the same mapping. */
  function SetAll<V>(ps: seq<Page<V>>, values: map<string, V>): (r: seq<Page<V>>)
    ensures |r| == |ps|
    ensures forall i :: 0 <= i < |ps| ==> r[i] == SetValues(ps[i], values)
  {
    if ps == [] then [] else SetAll(ps[..|ps| - 1], values) + [SetValues(ps[|ps| - 1], values)]
  }

  /**
    The pages' values folded into one mapping, page by page, so that a key
    on several pages takes its value from the last of them.
  */
  function Merged<V>(ps: seq<Page<V>>): map<string, V>
  {
    if ps == [] then map[] else Merged(ps[..|ps| - 1]) + ps[|ps| - 1].values
  }

  /** No config key is on two pages. */
  predicate PairwiseDisjoint<V>(ps: seq<Page<V>>)
  {
    forall i, j, k :: 0 <= i < j < |ps| && k in ps[i].values ==> k !in ps[j].values
  }

  // The dialog's layout: three pages and their config keys, in display order.

  const TrackingKeys: seq<string> := ["day_start", "fact_min_delta"]
  const StorageKeys: seq<string> := ["store", "db_engine", "db_path", "tmpfile_path"]
  const MiscellaneousKeys: seq<string> :=
    ["autocomplete_activities_range", "autocomplete_split_activity"]

  /** A page whose fields are `keys`, each showing its widget's value. */
  function LayoutPage<V>(title: string, keys: seq<string>, widgetValue: string -> V): (p: Page<V>)
    ensures p.title == title
    ensures forall k :: k in p.values <==> k in keys
  {
    Page(title, map k | k in keys :: widgetValue(k))
  }

  function Layout<V>(widgetValue: string -> V): (ps: seq<Page<V>>)
    ensures |ps| == 3
    ensures ps[0].title == "Tracking" && ps[1].title == "Storage" && ps[2].title == "Miscellaneous"
  {
    [ LayoutPage("Tracking", TrackingKeys, widgetValue),
      LayoutPage("Storage", StorageKeys, widgetValue),
      LayoutPage("Miscellaneous", MiscellaneousKeys, widgetValue) ]
  }

  class PreferencesDialog<V> {
    var pages: seq<Page<V>>

    /** Builds the layout, then applies `initial` only when it is a non-empty mapping. */
    constructor(initial: Option<map<string, V>>, widgetValue: string -> V)
      ensures initial.Some? && initial.value != map[] ==> pages == SetAll(Layout(widgetValue), initial.value)
      ensures initial.None? || initial.value == map[] ==> pages == Layout(widgetValue)
    {
      pages := Layout(widgetValue);
      new;
      if initial.Some? && initial.value != map[] {
        var r := SetConfig(initial.value);
        assert r == Pass;
      }
    }

    /** `get_config`: every page's values, later pages overwriting earlier ones. */
    method GetConfig() returns (result: map<string, V>)
      ensures result == Merged(pages)
    {
      result := map[];
      var i := 0;
      while i < |pages|
        invariant 0 <= i <= |pages|
        invariant result == Merged(pages[..i])
      {
        var values := pages[i].values;
        var before := result;
        var todo := values.Keys;
        while todo != {}
          invariant todo <= values.Keys
          invariant forall k :: k in result <==> k in before || k in values.Keys - todo
          invariant forall k :: k in result ==>
            result[k] == if k in values.Keys - todo then values[k] else before[k]
          decreases todo
        {
          var k :| k in todo;
          result := result[k := values[k]];
          todo := todo - {k};
        }
        assert result == before + values;
        assert pages[..i + 1][..i] == pages[..i];
        i := i + 1;
      }
      assert pages[..i] == pages;
    }

    /** `_set_config`: refuses an empty mapping, else hands it whole to every page. */
    method SetConfig(values: map<string, V>) returns (r: Outcome<ConfigError>)
      modifies this
      ensures values == map[] ==> r == Fail(NoValuesProvided) && pages == old(pages)
      ensures values != map[] ==> r == Pass && pages == SetAll(old(pages), values)
    {
      if values == map[] {
        return Fail(NoValuesProvided);
      }
      var i := 0;
      while i < |pages|
        invariant 0 <= i <= |pages| == |old(pages)|
        invariant forall j :: 0 <= j < i ==> pages[j] == SetValues(old(pages)[j], values)
        invariant forall j :: i <= j < |pages| ==> pages[j] == old(pages)[j]
      {
        pages := pages[i := SetValues(pages[i], values)];
        i := i + 1;
      }
      return Pass;
    }
  }

  /** A key's merged value is the one on the last page that has it. */
  lemma {:induction false} MergedLastWins<V>(ps: seq<Page<V>>, i: nat, k: string)
    requires i < |ps| && k in ps[i].values
    requires forall j :: i < j < |ps| ==> k !in ps[j].values
    ensures k in Merged(ps) && Merged(ps)[k] == ps[i].values[k]
  {
    var init := ps[..|ps| - 1];
    if i < |ps| - 1 {
      assert init[i] == ps[i];
      assert forall j :: i < j < |init| ==> init[j] == ps[j];
      MergedLastWins(init, i, k);
    }
  }

  /** A key is merged exactly when some page has it. */
  lemma {:induction false} MergedKeys<V>(ps: seq<Page<V>>, k: string)
    ensures k in Merged(ps) <==> exists i :: 0 <= i < |ps| && k in ps[i].values
  {
    if ps != [] {
      var init := ps[..|ps| - 1];
      MergedKeys(init, k);
      if k in Merged(init) {
        var i :| 0 <= i < |init| && k in init[i].values;
        assert ps[i] == init[i];
      }
      if exists i :: 0 <= i < |ps| && k in ps[i].values {
        var i :| 0 <= i < |ps| && k in ps[i].values;
        if i < |init| {
          assert init[i] == ps[i];
        }
      }
    }
  }

  /** Pages that all show nothing merge to nothing. */
  lemma {:induction false} MergedOfEmptyPages<V>(ps: seq<Page<V>>)
    requires forall i :: 0 <= i < |ps| ==> ps[i].values == map[]
    ensures Merged(ps) == map[]
  {
    if ps != [] {
      MergedOfEmptyPages(ps[..|ps| - 1]);
    }
  }

  /** With no key on two pages, merging drops no page's value. */
  lemma MergedKeepsEveryPage<V>(ps: seq<Page<V>>, i: nat, k: string)
    requires PairwiseDisjoint(ps) && i < |ps| && k in ps[i].values
    ensures k in Merged(ps) && Merged(ps)[k] == ps[i].values[k]
  {
    MergedLastWins(ps, i, k);
  }

  const ConfigKeys: set<string> := TrackingKeySet + StorageKeySet + MiscellaneousKeySet

  /** Three pages whose key sets do not meet have no key in common. */
  lemma ThreePagesDisjoint<V>(ps: seq<Page<V>>)
    requires |ps| == 3
    requires ps[0].values.Keys !! ps[1].values.Keys
    requires ps[0].values.Keys !! ps[2].values.Keys
    requires ps[1].values.Keys !! ps[2].values.Keys
    ensures PairwiseDisjoint(ps)
  {
  }

  const TrackingKeySet: set<string> := {"day_start", "fact_min_delta"}
  const StorageKeySet: set<string> := {"store", "db_engine", "db_path", "tmpfile_path"}
  const MiscellaneousKeySet: set<string> :=
    {"autocomplete_activities_range", "autocomplete_split_activity"}

  lemma LayoutKeys<V>(widgetValue: string -> V)
    ensures Layout(widgetValue)[0].values.Keys == TrackingKeySet
    ensures Layout(widgetValue)[1].values.Keys == StorageKeySet
    ensures Layout(widgetValue)[2].values.Keys == MiscellaneousKeySet
  {
  }

  /** The three pages show the eight config keys between them, no key on two pages. */
  lemma LayoutDisjoint<V>(widgetValue: string -> V)
    ensures PairwiseDisjoint(Layout(widgetValue))
    ensures Merged(Layout(widgetValue)).Keys == ConfigKeys
  {
    var ps := Layout(widgetValue);
    LayoutKeys(widgetValue);
    assert TrackingKeySet !! StorageKeySet;
    assert TrackingKeySet !! MiscellaneousKeySet;
    assert StorageKeySet !! MiscellaneousKeySet;
    ThreePagesDisjoint(ps);
    assert ps[..2][..1] == ps[..1];
    assert ps[..1][..0] == [];
    assert Merged(ps[..1]) == ps[0].values;
    assert Merged(ps[..2]) == ps[0].values + ps[1].values;
    assert Merged(ps) == Merged(ps[..2]) + ps[2].values;
  }

  /**
    Reading the configuration after setting it: every shown key the mapping
    names now has the mapping's value, every other shown key is unchanged,
    and no key appears or disappears.
  */
  lemma {:induction false} SetThenGet<V>(ps: seq<Page<V>>, values: map<string, V>)
    ensures Merged(SetAll(ps, values)).Keys == Merged(ps).Keys
    ensures forall k :: k in Merged(ps) ==>
      Merged(SetAll(ps, values))[k] == if k in values then values[k] else Merged(ps)[k]
  {
    if ps != [] {
      var init := ps[..|ps| - 1];
      var last := ps[|ps| - 1];
      var q := SetAll(ps, values);
      SetThenGet(init, values);
      assert q[..|q| - 1] == SetAll(init, values);
      assert Merged(q) == Merged(SetAll(init, values)) + SetValues(last, values).values;
      assert Merged(ps) == Merged(init) + last.values;
      forall k | k in Merged(ps)
        ensures Merged(q)[k] == if k in values then values[k] else Merged(ps)[k]
      {
        if k in last.values {
          assert Merged(q)[k] == SetValues(last, values).values[k];
        } else {
          assert Merged(q)[k] == Merged(SetAll(init, values))[k];
        }
      }
    }
  }
}
