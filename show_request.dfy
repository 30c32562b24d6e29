/** The comparison logic of the promote-request review page: the tag colour
    of a model stage, the metric and parameter tables that put a champion
    version beside its challenger, and the rows those tables preselect. */
module ShowRequest {
  import opened Wrappers
  import opened Sequences
  import opened StringOrder

  // ---------------------------------------------------------------------
  // Stage tag colour
  // ---------------------------------------------------------------------

  /** ASCII lower-casing of one character. */
  function LowerChar(c: char): char
  {
    if 'A' <= c <= 'Z' then (c as int + 32) as char else c
  }

  /** `s.toLowerCase()`, restricted to ASCII letters: the same word in the
      same length, with no upper-case letter left. */
  function ToLowerCase(s: string): (r: string)
    ensures SameIgnoringCase(s, r)
    ensures forall i :: 0 <= i < |r| ==> !('A' <= r[i] <= 'Z')
    ensures forall i :: 0 <= i < |s| && !('A' <= s[i] <= 'Z') ==> r[i] == s[i]
  {
    seq(|s|, i requires 0 <= i < |s| => LowerChar(s[i]))
  }

  /** `a` and `b` spell the same word in any mixture of cases. */
  predicate SameIgnoringCase(a: string, b: string)
  {
    |a| == |b| && forall i :: 0 <= i < |a| ==> LowerChar(a[i]) == LowerChar(b[i])
  }

  /** The colour of the tag that shows a version's stage. */
  function GetColor(stage: Option<string>): (color: string)
    ensures color == "success" || color == "warning" || color == "default"
  {
    // an undefined stage and the empty string are both falsy
    if stage.Some? && stage.value != "" then
      var lower := ToLowerCase(stage.value);
      if lower == "production" then "success"
      else if lower == "staging" then "warning"
      else "default"
    else
      "default"
  }

  /** Lower-casing `s` gives the lower-case word `t` exactly when `s` is `t`
      written in any casing. */
  lemma ToLowerCaseMatches(s: string, t: string)
    requires forall i :: 0 <= i < |t| ==> LowerChar(t[i]) == t[i]
    ensures ToLowerCase(s) == t <==> SameIgnoringCase(s, t)
  {
    if SameIgnoringCase(s, t) {
      assert forall i :: 0 <= i < |s| ==> ToLowerCase(s)[i] == t[i];
    }
  }

  lemma GetColorCases(stage: Option<string>)
    ensures GetColor(stage) == "success" <==> stage.Some? && SameIgnoringCase(stage.value, "production")
    ensures GetColor(stage) == "warning" <==> stage.Some? && SameIgnoringCase(stage.value, "staging")
    ensures GetColor(stage) == "default" <==>
              !(stage.Some? && (SameIgnoringCase(stage.value, "production") || SameIgnoringCase(stage.value, "staging")))
  {
    if stage.Some? {
      ToLowerCaseMatches(stage.value, "production");
      ToLowerCaseMatches(stage.value, "staging");
    }
  }

  // ---------------------------------------------------------------------
  // Champion/challenger maps and table rows
  // ---------------------------------------------------------------------

  /** A `Record<string, T>` as the page receives it: a key is present in the
      object even when its value is `null` or `undefined` (`None`). */
  type Record<T> = map<string, Option<T>>

  /** The value stored under `key`, or `None` when the key is missing or its
      value is `null` or `undefined` (both fail the non-null test). */
  function Lookup<T>(m: Record<T>, key: string): (v: Option<T>)
    ensures v.Some? <==> key in m && m[key].Some?
    ensures v.Some? ==> m[key] == v
  {
    if key in m then m[key] else None
  }

  /** An absent map is read as the empty one. */
  function OrEmpty<T>(m: Option<Record<T>>): (r: Record<T>)
    ensures m.Some? ==> r == m.value
    ensures m.None? ==> r.Keys == {}
  {
    if m.Some? then m.value else map[]
  }

  /** The JavaScript number operations the metric table relies on, which
      this model does not interpret: `x.toFixed(4)` and `x - y`. */
  datatype NumberFormat<!N> = NumberFormat(toFixed4: N -> string, minus: (N, N) -> N)

  /** One row of the metrics table. */
  datatype MetricDiff = MetricDiff(name: string, champion: Option<string>, challenger: Option<string>, change: Option<string>)

  /** One row of the parameters table. */
  datatype ParameterDiff = ParameterDiff(name: string, champion: Option<string>, challenger: Option<string>)

  // The two blocks marked "TODO: Remove" in the source substitute these
  // literals; they are part of the behaviour modelled here.
  const OverriddenChampionMetric := "0.5005"
  const ChampionMetricReplacement := "0.6005"
  const ChangeReplacement := "0.1000"
  const OverriddenParameter := "fit_intercept"
  const ParameterReplacement := "False"

  /** The sorted, duplicate-free union of both maps' keys. The keys are taken
      from the union one at a time and inserted at their place. */
  method SortedKeys(championKeys: set<string>, challengerKeys: set<string>) returns (keys: seq<string>)
    ensures keys == SortedSeq(championKeys + challengerKeys)
  {
    var pending := championKeys + challengerKeys;
    keys := [];
    while pending != {}
      invariant pending <= championKeys + challengerKeys
      invariant StrictlySorted(keys)
      invariant forall x :: x in keys <==> x in championKeys + challengerKeys && x !in pending
      decreases |pending|
    {
      var key :| key in pending;
      keys := Insert(keys, key);
      pending := pending - {key};
    }
    SortedUnique(keys, SortedSeq(championKeys + challengerKeys));
  }

  // ---------------------------------------------------------------------
  // Metrics table
  // ---------------------------------------------------------------------

  /** The metric row for `key`, as the loop body of `diffMetrics` builds it:
      each cell is shown when its value is non-null, a change needs both
      values, and a champion formatting as `0.5005` is replaced. */
  function MetricRow<N>(key: string, champion: Record<N>, challenger: Record<N>, num: NumberFormat<N>): (r: MetricDiff)
    ensures r.name == key
    ensures r.champion.Some? <==> Lookup(champion, key).Some?
    ensures r.challenger.Some? <==> Lookup(challenger, key).Some?
    ensures r.challenger.Some? ==> r.challenger.value == num.toFixed4(Lookup(challenger, key).value)
    ensures var c := Lookup(champion, key);
            c.Some? && num.toFixed4(c.value) != OverriddenChampionMetric ==> r.champion == Some(num.toFixed4(c.value))
    ensures var c := Lookup(champion, key);
            c.Some? && num.toFixed4(c.value) == OverriddenChampionMetric ==>
              r.champion == Some(ChampionMetricReplacement) && r.change == Some(ChangeReplacement)
    ensures r.champion != Some(OverriddenChampionMetric)
    ensures r.change.Some? ==> r.champion.Some?
    ensures var c, l := Lookup(champion, key), Lookup(challenger, key);
            r.change.Some? <==> (c.Some? && num.toFixed4(c.value) == OverriddenChampionMetric) || (c.Some? && l.Some?)
    ensures var c, l := Lookup(champion, key), Lookup(challenger, key);
            c.Some? && l.Some? && num.toFixed4(c.value) != OverriddenChampionMetric ==>
              r.change == Some(num.toFixed4(num.minus(c.value, l.value)))
  {
    var c := Lookup(champion, key);
    var l := Lookup(challenger, key);
    var formatted := if c.Some? then Some(num.toFixed4(c.value)) else None;
    var overridden := formatted == Some(OverriddenChampionMetric);
    MetricDiff(
      name := key,
      champion := if overridden then Some(ChampionMetricReplacement) else formatted,
      challenger := if l.Some? then Some(num.toFixed4(l.value)) else None,
      change :=
        if overridden then Some(ChangeReplacement)
        else if c.Some? && l.Some? then Some(num.toFixed4(num.minus(c.value, l.value)))
        else None)
  }

  /** The rows `diffMetrics` pushes, one per key, for the keys in order. */
  function MetricRows<N>(keys: seq<string>, champion: Record<N>, challenger: Record<N>, num: NumberFormat<N>): (rows: seq<MetricDiff>)
    ensures |rows| == |keys|
  {
    if keys == [] then []
    else MetricRows(keys[..|keys| - 1], champion, challenger, num) + [MetricRow(keys[|keys| - 1], champion, challenger, num)]
  }

  /** Row `i` is the row of the `i`-th key. */
  lemma {:induction false} MetricRowsAt<N>(keys: seq<string>, champion: Record<N>, challenger: Record<N>, num: NumberFormat<N>, i: int)
    requires 0 <= i < |keys|
    ensures MetricRows(keys, champion, challenger, num)[i] == MetricRow(keys[i], champion, challenger, num)
  {
    if i < |keys| - 1 {
      MetricRowsAt(keys[..|keys| - 1], champion, challenger, num, i);
    }
  }

  /** What `diffMetrics` returns for two present maps: one row per key of
      either map, in ascending key order. */
  ghost function MetricTable<N>(champion: Record<N>, challenger: Record<N>, num: NumberFormat<N>): (t: seq<MetricDiff>)
    ensures |t| == |champion.Keys + challenger.Keys|
    ensures champion.Keys + challenger.Keys == {} ==> t == []
  {
    MetricRows(SortedSeq(champion.Keys + challenger.Keys), champion, challenger, num)
  }

  function MetricName(d: MetricDiff): string { d.name }

  /** The row's two cells differ; a row with both cells empty never does. */
  predicate MetricDiffers(d: MetricDiff)
    ensures MetricDiffers(d) ==> d.champion.Some? || d.challenger.Some?
    ensures d.champion.Some? != d.challenger.Some? ==> MetricDiffers(d)
  {
    d.challenger != d.champion
  }

  /** `diffMetrics(challenger, champion)`. */
  method DiffMetrics<N>(challenger: Option<Record<N>>, champion: Option<Record<N>>, num: NumberFormat<N>)
    returns (result: seq<MetricDiff>)
    ensures result == MetricTable(OrEmpty(champion), OrEmpty(challenger), num)
    ensures champion.None? && challenger.None? ==> result == []
  {
    var championMap: Record<N> := map[];
    if champion.Some? {
      championMap := champion.value;
    }
    var challengerMap: Record<N> := map[];
    if challenger.Some? {
      challengerMap := challenger.value;
    }
    var keys := SortedKeys(championMap.Keys, challengerMap.Keys);
    result := PushMetricRows(keys, championMap, challengerMap, num);
  }

  /** The loop of `diffMetrics` over the sorted keys: one row pushed per key. */
  method PushMetricRows<N>(keys: seq<string>, champion: Record<N>, challenger: Record<N>, num: NumberFormat<N>)
    returns (result: seq<MetricDiff>)
    ensures result == MetricRows(keys, champion, challenger, num)
  {
    result := [];
    for i := 0 to |keys|
      invariant result == MetricRows(keys[..i], champion, challenger, num)
    {
      var key := keys[i];
      ghost var row := MetricRow(key, champion, challenger, num);
      var championEntry := Lookup(champion, key);
      var challengerEntry := Lookup(challenger, key);

      var change: Option<string> := None;
      if championEntry.Some? && challengerEntry.Some? {
        change := Some(num.toFixed4(num.minus(championEntry.value, challengerEntry.value)));
      }

      var championValue: Option<string> := None;
      if championEntry.Some? {
        championValue := Some(num.toFixed4(championEntry.value));
        if championValue == Some(OverriddenChampionMetric) {
          championValue := Some(ChampionMetricReplacement);
          change := Some(ChangeReplacement);
        }
      }
      assert championValue == row.champion;
      assert change == row.change;

      var challengerValue: Option<string> := None;
      if challengerEntry.Some? {
        challengerValue := Some(num.toFixed4(challengerEntry.value));
      }
      assert challengerValue == row.challenger;
      assert MetricDiff(key, championValue, challengerValue, change) == row;

      assert keys[..i + 1][..i] == keys[..i];
      result := result + [MetricDiff(key, championValue, challengerValue, change)];
    }
    assert keys[..|keys|] == keys;
  }

  /** The names of the metric rows whose two cells differ, in row order. */
  function MetricRowSelection(rows: seq<MetricDiff>): (names: seq<string>)
    ensures IsSubsequence(names, MapSeq(rows, MetricName))
    ensures forall k :: k in names <==> exists i :: 0 <= i < |rows| && rows[i].name == k && MetricDiffers(rows[i])
  {
    var kept := Filter(rows, MetricDiffers);
    FilterIsSubsequence(rows, MetricDiffers);
    MapPreservesSubsequence(kept, rows, MetricName);
    var names := MapSeq(kept, MetricName);
    assert forall k :: k in names <==> exists d :: d in kept && d.name == k;
    names
  }

  /** The metric table has one row per key of either map, in strictly
      ascending order, so no key appears twice. */
  lemma MetricTableKeys<N>(champion: Record<N>, challenger: Record<N>, num: NumberFormat<N>)
    ensures |MetricTable(champion, challenger, num)| == |champion.Keys + challenger.Keys|
    ensures StrictlySorted(MapSeq(MetricTable(champion, challenger, num), MetricName))
    ensures forall k :: k in MapSeq(MetricTable(champion, challenger, num), MetricName) <==> k in champion || k in challenger
  {
    var keys := SortedSeq(champion.Keys + challenger.Keys);
    var t := MetricTable(champion, challenger, num);
    forall i | 0 <= i < |keys| ensures MapSeq(t, MetricName)[i] == keys[i] {
      MetricRowsAt(keys, champion, challenger, num, i);
    }
    assert MapSeq(t, MetricName) == keys;
  }

  /** Every key of either map names exactly one row of the metric table. */
  lemma MetricRowOf<N>(champion: Record<N>, challenger: Record<N>, num: NumberFormat<N>, key: string) returns (i: nat)
    requires key in champion || key in challenger
    ensures i < |MetricTable(champion, challenger, num)|
    ensures MetricTable(champion, challenger, num)[i].name == key
    ensures forall j :: 0 <= j < |MetricTable(champion, challenger, num)| && MetricTable(champion, challenger, num)[j].name == key ==> j == i
  {
    var keys := SortedSeq(champion.Keys + challenger.Keys);
    var t := MetricTable(champion, challenger, num);
    i :| 0 <= i < |keys| && keys[i] == key;
    MetricRowsAt(keys, champion, challenger, num, i);
    forall j | 0 <= j < |t| && t[j].name == key ensures j == i {
      MetricRowsAt(keys, champion, challenger, num, j);
      StrictlySortedDistinct(keys, i, j);
    }
  }

  /** The challenger cell is present exactly when the challenger map holds a
      non-null value for the row's key, and is that value formatted; the
      champion cell is present exactly when the champion map holds one, and
      is that value formatted unless the formatted text is "0.5005", which
      shows as "0.6005". */
  lemma MetricCells<N>(champion: Record<N>, challenger: Record<N>, num: NumberFormat<N>, i: int)
    requires 0 <= i < |MetricTable(champion, challenger, num)|
    ensures var r := MetricTable(champion, challenger, num)[i];
            var l := Lookup(challenger, r.name);
            && (r.challenger.Some? <==> l.Some?)
            && (l.Some? ==> r.challenger == Some(num.toFixed4(l.value)))
    ensures var r := MetricTable(champion, challenger, num)[i];
            var c := Lookup(champion, r.name);
            && (r.champion.Some? <==> c.Some?)
            && (c.Some? && num.toFixed4(c.value) != OverriddenChampionMetric ==> r.champion == Some(num.toFixed4(c.value)))
            && (c.Some? && num.toFixed4(c.value) == OverriddenChampionMetric ==> r.champion == Some(ChampionMetricReplacement))
  {
    MetricRowsAt(SortedSeq(champion.Keys + challenger.Keys), champion, challenger, num, i);
  }

  /** The change cell is the formatted difference champion minus challenger
      when both values are non-null and absent when either is null, except
      that a champion formatted as "0.5005" forces it to "0.1000" whether or
      not the challenger has a value. */
  lemma MetricChange<N>(champion: Record<N>, challenger: Record<N>, num: NumberFormat<N>, i: int)
    requires 0 <= i < |MetricTable(champion, challenger, num)|
    ensures var r := MetricTable(champion, challenger, num)[i];
            var c := Lookup(champion, r.name);
            var l := Lookup(challenger, r.name);
            if c.Some? && num.toFixed4(c.value) == OverriddenChampionMetric then
              r.change == Some(ChangeReplacement)
            else
              && (r.change.Some? <==> c.Some? && l.Some?)
              && (c.Some? && l.Some? ==> r.change == Some(num.toFixed4(num.minus(c.value, l.value))))
  {
    MetricRowsAt(SortedSeq(champion.Keys + challenger.Keys), champion, challenger, num, i);
  }

  /** A key is preselected exactly when it is a key of either map and the
      two rendered cells of its row differ. */
  lemma MetricSelected<N>(champion: Record<N>, challenger: Record<N>, num: NumberFormat<N>, key: string)
    ensures key in MetricRowSelection(MetricTable(champion, challenger, num)) <==>
              (key in champion || key in challenger) && MetricDiffers(MetricRow(key, champion, challenger, num))
  {
    var keys := SortedSeq(champion.Keys + challenger.Keys);
    var t := MetricTable(champion, challenger, num);
    if key in MetricRowSelection(t) {
      var i :| 0 <= i < |t| && t[i].name == key && MetricDiffers(t[i]);
      MetricRowsAt(keys, champion, challenger, num, i);
      assert keys[i] in keys;
    }
    if (key in champion || key in challenger) && MetricDiffers(MetricRow(key, champion, challenger, num)) {
      var i := MetricRowOf(champion, challenger, num, key);
      MetricRowsAt(keys, champion, challenger, num, i);
    }
  }

  /** The preselected rows are named in table order, hence ascending. */
  lemma MetricSelectionOrdered<N>(champion: Record<N>, challenger: Record<N>, num: NumberFormat<N>)
    ensures IsSubsequence(MetricRowSelection(MetricTable(champion, challenger, num)), MapSeq(MetricTable(champion, challenger, num), MetricName))
    ensures StrictlySorted(MetricRowSelection(MetricTable(champion, challenger, num)))
  {
    var t := MetricTable(champion, challenger, num);
    MetricTableKeys(champion, challenger, num);
    SubsequenceOfSorted(MetricRowSelection(t), MapSeq(t, MetricName));
  }

  /** A key whose value is null in both maps is never preselected: two absent
      cells compare equal. */
  lemma MetricAbsentNotSelected<N>(champion: Record<N>, challenger: Record<N>, num: NumberFormat<N>, key: string)
    requires Lookup(champion, key).None? && Lookup(challenger, key).None?
    ensures key !in MetricRowSelection(MetricTable(champion, challenger, num))
  {
    MetricSelected(champion, challenger, num, key);
  }

  // ---------------------------------------------------------------------
  // Parameters table
  // ---------------------------------------------------------------------

  /** The parameter row for `key`, as the loop body of `diffParams` builds
      it; `toText` is JavaScript's `value + ''`. */
  function ParamRow<V>(key: string, champion: Record<V>, challenger: Record<V>, toText: V -> string): (r: ParameterDiff)
    ensures r.name == key
    ensures r.champion.Some? <==> Lookup(champion, key).Some?
    ensures r.challenger.Some? <==> Lookup(challenger, key).Some?
    ensures r.challenger.Some? ==> r.challenger.value == toText(Lookup(challenger, key).value)
    ensures r.champion.Some? && key != OverriddenParameter ==> r.champion.value == toText(Lookup(champion, key).value)
    ensures r.champion.Some? && key == OverriddenParameter ==> r.champion.value == ParameterReplacement
  {
    var c := Lookup(champion, key);
    var l := Lookup(challenger, key);
    ParameterDiff(
      name := key,
      champion :=
        if c.None? then None
        else if key == OverriddenParameter then Some(ParameterReplacement)
        else Some(toText(c.value)),
      challenger := if l.Some? then Some(toText(l.value)) else None)
  }

  /** The rows `diffParams` pushes, one per key, for the keys in order. */
  function ParamRows<V>(keys: seq<string>, champion: Record<V>, challenger: Record<V>, toText: V -> string): (rows: seq<ParameterDiff>)
    ensures |rows| == |keys|
  {
    if keys == [] then []
    else ParamRows(keys[..|keys| - 1], champion, challenger, toText) + [ParamRow(keys[|keys| - 1], champion, challenger, toText)]
  }

  /** Row `i` is the row of the `i`-th key. */
  lemma {:induction false} ParamRowsAt<V>(keys: seq<string>, champion: Record<V>, challenger: Record<V>, toText: V -> string, i: int)
    requires 0 <= i < |keys|
    ensures ParamRows(keys, champion, challenger, toText)[i] == ParamRow(keys[i], champion, challenger, toText)
  {
    if i < |keys| - 1 {
      ParamRowsAt(keys[..|keys| - 1], champion, challenger, toText, i);
    }
  }

  /** What `diffParams` returns for two present maps. */
  ghost function ParamTable<V>(champion: Record<V>, challenger: Record<V>, toText: V -> string): (t: seq<ParameterDiff>)
    ensures |t| == |champion.Keys + challenger.Keys|
    ensures champion.Keys + challenger.Keys == {} ==> t == []
  {
    ParamRows(SortedSeq(champion.Keys + challenger.Keys), champion, challenger, toText)
  }

  function ParamName(d: ParameterDiff): string { d.name }

  /** The row's two cells differ; a row with both cells empty never does. */
  predicate ParamDiffers(d: ParameterDiff)
    ensures ParamDiffers(d) ==> d.champion.Some? || d.challenger.Some?
    ensures d.champion.Some? != d.challenger.Some? ==> ParamDiffers(d)
  {
    d.challenger != d.champion
  }

  /** `diffParams(challenger, champion)`. */
  method DiffParams<V>(challenger: Option<Record<V>>, champion: Option<Record<V>>, toText: V -> string)
    returns (result: seq<ParameterDiff>)
    ensures result == ParamTable(OrEmpty(champion), OrEmpty(challenger), toText)
    ensures champion.None? && challenger.None? ==> result == []
  {
    var championMap: Record<V> := map[];
    if champion.Some? {
      championMap := champion.value;
    }
    var challengerMap: Record<V> := map[];
    if challenger.Some? {
      challengerMap := challenger.value;
    }
    var keys := SortedKeys(championMap.Keys, challengerMap.Keys);
    result := PushParamRows(keys, championMap, challengerMap, toText);
  }

  /** The loop of `diffParams` over the sorted keys: one row pushed per key. */
  method PushParamRows<V>(keys: seq<string>, champion: Record<V>, challenger: Record<V>, toText: V -> string)
    returns (result: seq<ParameterDiff>)
    ensures result == ParamRows(keys, champion, challenger, toText)
  {
    result := [];
    for i := 0 to |keys|
      invariant result == ParamRows(keys[..i], champion, challenger, toText)
    {
      var key := keys[i];
      ghost var row := ParamRow(key, champion, challenger, toText);
      var championEntry := Lookup(champion, key);
      var challengerEntry := Lookup(challenger, key);

      var championValue: Option<string> := None;
      if championEntry.Some? {
        championValue := Some(toText(championEntry.value));
        if key == OverriddenParameter {
          championValue := Some(ParameterReplacement);
        }
      }
      assert championValue == row.champion;

      var challengerValue: Option<string> := None;
      if challengerEntry.Some? {
        challengerValue := Some(toText(challengerEntry.value));
      }
      assert challengerValue == row.challenger;
      assert ParameterDiff(key, championValue, challengerValue) == row;

      assert keys[..i + 1][..i] == keys[..i];
      result := result + [ParameterDiff(key, championValue, challengerValue)];
    }
    assert keys[..|keys|] == keys;
  }

  /** The names of the parameter rows whose two cells differ, in row order. */
  function ParamRowSelection(rows: seq<ParameterDiff>): (names: seq<string>)
    ensures IsSubsequence(names, MapSeq(rows, ParamName))
    ensures forall k :: k in names <==> exists i :: 0 <= i < |rows| && rows[i].name == k && ParamDiffers(rows[i])
  {
    var kept := Filter(rows, ParamDiffers);
    FilterIsSubsequence(rows, ParamDiffers);
    MapPreservesSubsequence(kept, rows, ParamName);
    var names := MapSeq(kept, ParamName);
    assert forall k :: k in names <==> exists d :: d in kept && d.name == k;
    names
  }

  /** The parameter table has one row per key of either map, in strictly
      ascending order. */
  lemma ParamTableKeys<V>(champion: Record<V>, challenger: Record<V>, toText: V -> string)
    ensures |ParamTable(champion, challenger, toText)| == |champion.Keys + challenger.Keys|
    ensures StrictlySorted(MapSeq(ParamTable(champion, challenger, toText), ParamName))
    ensures forall k :: k in MapSeq(ParamTable(champion, challenger, toText), ParamName) <==> k in champion || k in challenger
  {
    var keys := SortedSeq(champion.Keys + challenger.Keys);
    var t := ParamTable(champion, challenger, toText);
    forall i | 0 <= i < |keys| ensures MapSeq(t, ParamName)[i] == keys[i] {
      ParamRowsAt(keys, champion, challenger, toText, i);
    }
    assert MapSeq(t, ParamName) == keys;
  }

  /** Every key of either map names exactly one row of the parameter table. */
  lemma ParamRowOf<V>(champion: Record<V>, challenger: Record<V>, toText: V -> string, key: string) returns (i: nat)
    requires key in champion || key in challenger
    ensures i < |ParamTable(champion, challenger, toText)|
    ensures ParamTable(champion, challenger, toText)[i].name == key
    ensures forall j :: 0 <= j < |ParamTable(champion, challenger, toText)| && ParamTable(champion, challenger, toText)[j].name == key ==> j == i
  {
    var keys := SortedSeq(champion.Keys + challenger.Keys);
    var t := ParamTable(champion, challenger, toText);
    i :| 0 <= i < |keys| && keys[i] == key;
    ParamRowsAt(keys, champion, challenger, toText, i);
    forall j | 0 <= j < |t| && t[j].name == key ensures j == i {
      ParamRowsAt(keys, champion, challenger, toText, j);
      StrictlySortedDistinct(keys, i, j);
    }
  }

  /** Each cell is present exactly when its map holds a non-null value for
      the row's key, and is that value as text; the one exception is the
      champion cell of "fit_intercept", which reads "False" whatever the
      value. */
  lemma ParamCells<V>(champion: Record<V>, challenger: Record<V>, toText: V -> string, i: int)
    requires 0 <= i < |ParamTable(champion, challenger, toText)|
    ensures var r := ParamTable(champion, challenger, toText)[i];
            var l := Lookup(challenger, r.name);
            && (r.challenger.Some? <==> l.Some?)
            && (l.Some? ==> r.challenger == Some(toText(l.value)))
    ensures var r := ParamTable(champion, challenger, toText)[i];
            var c := Lookup(champion, r.name);
            && (r.champion.Some? <==> c.Some?)
            && (c.Some? && r.name != OverriddenParameter ==> r.champion == Some(toText(c.value)))
            && (c.Some? && r.name == OverriddenParameter ==> r.champion == Some(ParameterReplacement))
  {
    ParamRowsAt(SortedSeq(champion.Keys + challenger.Keys), champion, challenger, toText, i);
  }

  /** A key is preselected exactly when it is a key of either map and the
      two rendered cells of its row differ. */
  lemma ParamSelected<V>(champion: Record<V>, challenger: Record<V>, toText: V -> string, key: string)
    ensures key in ParamRowSelection(ParamTable(champion, challenger, toText)) <==>
              (key in champion || key in challenger) && ParamDiffers(ParamRow(key, champion, challenger, toText))
  {
    var keys := SortedSeq(champion.Keys + challenger.Keys);
    var t := ParamTable(champion, challenger, toText);
    if key in ParamRowSelection(t) {
      var i :| 0 <= i < |t| && t[i].name == key && ParamDiffers(t[i]);
      ParamRowsAt(keys, champion, challenger, toText, i);
      assert keys[i] in keys;
    }
    if (key in champion || key in challenger) && ParamDiffers(ParamRow(key, champion, challenger, toText)) {
      var i := ParamRowOf(champion, challenger, toText, key);
      ParamRowsAt(keys, champion, challenger, toText, i);
    }
  }

  /** The preselected rows are named in table order, hence ascending. */
  lemma ParamSelectionOrdered<V>(champion: Record<V>, challenger: Record<V>, toText: V -> string)
    ensures IsSubsequence(ParamRowSelection(ParamTable(champion, challenger, toText)), MapSeq(ParamTable(champion, challenger, toText), ParamName))
    ensures StrictlySorted(ParamRowSelection(ParamTable(champion, challenger, toText)))
  {
    var t := ParamTable(champion, challenger, toText);
    ParamTableKeys(champion, challenger, toText);
    SubsequenceOfSorted(ParamRowSelection(t), MapSeq(t, ParamName));
  }

  /** A key whose value is null in both maps is never preselected. */
  lemma ParamAbsentNotSelected<V>(champion: Record<V>, challenger: Record<V>, toText: V -> string, key: string)
    requires Lookup(champion, key).None? && Lookup(challenger, key).None?
    ensures key !in ParamRowSelection(ParamTable(champion, challenger, toText))
  {
    ParamSelected(champion, challenger, toText, key);
  }
}
