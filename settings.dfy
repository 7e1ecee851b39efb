/**
 * The settings sanitiser registered for the plugin's option (`admin.php`):
 * it turns the posted settings form into the structure the endpoint reads,
 * namely the `tokens` table (token to service ids) and the `secrets` table
 * (service id to signing secrets).
 */
module Settings {
  import opened Wrappers
  import opened Strings
  import opened Assoc

  /** The stored option. Only these four keys can appear in it. */
  datatype Options = Options(
    visible: Option<bool>,
    helpWord: Option<string>,
    tokens: Option<Assoc<string, seq<string>>>,
    secrets: Option<Assoc<string, seq<string>>>)

  const NoOptions := Options(None, None, None, None)

  /** A posted form field: a plain value, or the parallel columns of a table of rows. */
  datatype FormValue = Scalar(text: string) | Rows(values: seq<string>, serviceIds: seq<string>)

  /** Which table a set of rows fills: tokens are keyed by token, secrets by service id. */
  datatype Table = Tokens | Secrets

  /** The sanitiser reads `help_word` as a string and the two tables as rows. */
  predicate WellShaped(inputs: seq<(string, FormValue)>) {
    forall i :: 0 <= i < |inputs| ==>
      (inputs[i].0 == "help_word" ==> inputs[i].1.Scalar?)
      && (inputs[i].0 in {"tokens", "secrets"} ==> inputs[i].1.Rows?)
  }

  /** `(bool) $val`: a non-empty array is true. */
  predicate Truthy(v: FormValue) {
    match v
    case Scalar(t) => !IsEmptyString(t)
    case Rows(_, _) => true
  }

  /** `preg_replace('#[\s/]+#', '', $id)`. */
  function CleanServiceId(id: string): string {
    RemoveAll(id, RegexSpace + {'/'})
  }

  /** `$val['service_ids'][$i]`, a missing cell reading as the empty string. */
  function ServiceIdAt(serviceIds: seq<string>, i: nat): string {
    if i < |serviceIds| then serviceIds[i] else ""
  }

  /** The cleaned row `i`: trimmed value and stripped service id. */
  function CleanRow(values: seq<string>, serviceIds: seq<string>, i: nat): (string, string)
    requires i < |values|
  {
    (TrimDefault(values[i]), CleanServiceId(ServiceIdAt(serviceIds, i)))
  }

  /** The first `n` rows cleaned, in row order. */
  function CleanRows(values: seq<string>, serviceIds: seq<string>, n: nat): (rows: seq<(string, string)>)
    requires n <= |values|
    ensures |rows| == n
  {
    if n == 0 then [] else CleanRows(values, serviceIds, n - 1) + [CleanRow(values, serviceIds, n - 1)]
  }

  /** A row is stored unless both its value and its service id are empty. */
  predicate Kept(row: (string, string)) {
    row.0 + row.1 != ""
  }

  /** The key and the list item a kept row contributes to its table. */
  function Entry(table: Table, row: (string, string)): (string, string) {
    if table == Tokens then row else (row.1, row.0)
  }

  /** The key and item of each kept row, in row order. */
  function KeptEntries(table: Table, rows: seq<(string, string)>): seq<(string, string)> {
    if rows == [] then []
    else
      var row := rows[|rows| - 1];
      KeptEntries(table, rows[..|rows| - 1]) + if Kept(row) then [Entry(table, row)] else []
  }

  /** One more row adds its entry if it is kept. */
  lemma KeptEntriesSnoc(table: Table, rows: seq<(string, string)>, row: (string, string))
    ensures KeptEntries(table, rows + [row])
            == KeptEntries(table, rows) + if Kept(row) then [Entry(table, row)] else []
  {
    assert (rows + [row])[..|rows|] == rows;
  }

  /** `$options[$option][$key][] = $item` for each entry in turn; the table exists once an entry is stored. */
  function AddEntries(acc: Option<Assoc<string, seq<string>>>, es: seq<(string, string)>): Option<Assoc<string, seq<string>>> {
    if es == [] then acc
    else
      var e := es[|es| - 1];
      Some(AppendAt(AddEntries(acc, es[..|es| - 1]).GetOr([]), e.0, e.1))
  }

  /** Storing one more entry appends it under its key. */
  lemma AddEntriesSnoc(acc: Option<Assoc<string, seq<string>>>, es: seq<(string, string)>, e: (string, string))
    ensures AddEntries(acc, es + [e]) == Some(AppendAt(AddEntries(acc, es).GetOr([]), e.0, e.1))
  {
    assert (es + [e])[..|es|] == es;
  }

  /** All rows, then `array_map('array_unique', ...)` if the table exists. */
  function ProcessRows(acc: Option<Assoc<string, seq<string>>>, values: seq<string>, serviceIds: seq<string>,
                       table: Table): Option<Assoc<string, seq<string>>>
  {
    match AddEntries(acc, KeptEntries(table, CleanRows(values, serviceIds, |values|)))
    case None => None
    case Some(m) => Some(DedupValues(m))
  }

  /** One iteration of the outer `foreach ($inputs as $option => $val)`. */
  function Step(o: Options, name: string, v: FormValue): Options
    requires name == "help_word" ==> v.Scalar?
    requires name in {"tokens", "secrets"} ==> v.Rows?
  {
    if name == "visible" then o.(visible := Some(Truthy(v)))
    else if name == "help_word" then
      var t := TrimDefault(v.text);
      if t != "" then o.(helpWord := Some(t)) else o
    else if name == "tokens" then o.(tokens := ProcessRows(o.tokens, v.values, v.serviceIds, Tokens))
    else if name == "secrets" then o.(secrets := ProcessRows(o.secrets, v.values, v.serviceIds, Secrets))
    else o
  }

  /** The options the callback returns for `inputs`, field by field in posted order. */
  function Sanitize(inputs: seq<(string, FormValue)>): Options
    requires WellShaped(inputs)
  {
    if inputs == [] then NoOptions
    else
      var init := inputs[..|inputs| - 1];
      assert forall i :: 0 <= i < |init| ==> init[i] == inputs[i];
      var (name, v) := inputs[|inputs| - 1];
      Step(Sanitize(init), name, v)
  }

  /** The row loop of one table: `$options[$option][$key][] = $item` for each kept row. */
  method CollectRows(acc: Option<Assoc<string, seq<string>>>, values: seq<string>, serviceIds: seq<string>,
                     table: Table) returns (r: Option<Assoc<string, seq<string>>>)
    ensures r == ProcessRows(acc, values, serviceIds, table)
  {
    r := acc;
    var i := 0;
    while i < |values|
      invariant 0 <= i <= |values|
      invariant r == AddEntries(acc, KeptEntries(table, CleanRows(values, serviceIds, i)))
    {
      ghost var es := KeptEntries(table, CleanRows(values, serviceIds, i));
      var row := CleanRow(values, serviceIds, i);
      assert CleanRows(values, serviceIds, i + 1) == CleanRows(values, serviceIds, i) + [row];
      KeptEntriesSnoc(table, CleanRows(values, serviceIds, i), row);
      if row.0 + row.1 != "" {
        var e := if table == Tokens then row else (row.1, row.0);
        assert KeptEntries(table, CleanRows(values, serviceIds, i + 1)) == es + [e];
        AddEntriesSnoc(acc, es, e);
        r := Some(AppendAt(r.GetOr([]), e.0, e.1));
        assert r == AddEntries(acc, KeptEntries(table, CleanRows(values, serviceIds, i + 1)));
      } else {
        assert KeptEntries(table, CleanRows(values, serviceIds, i + 1)) == es;
      }
      i := i + 1;
    }
    if r.Some? {
      r := Some(DedupValues(r.value));
    }
  }

  /** The `sanitize_callback` closure. */
  method SanitizeOptions(inputs: seq<(string, FormValue)>) returns (o: Options)
    requires WellShaped(inputs)
    ensures o == Sanitize(inputs)
  {
    o := NoOptions;
    var i := 0;
    while i < |inputs|
      invariant 0 <= i <= |inputs|
      invariant WellShaped(inputs[..i])
      invariant o == Sanitize(inputs[..i])
    {
      assert inputs[..i + 1][..i] == inputs[..i];
      var (option, val) := inputs[i];
      if option == "visible" {
        o := o.(visible := Some(Truthy(val)));
      } else if option == "help_word" {
        var t := TrimDefault(val.text);
        if t != "" {
          o := o.(helpWord := Some(t));
        }
      } else if option == "tokens" {
        var t := CollectRows(o.tokens, val.values, val.serviceIds, Tokens);
        o := o.(tokens := t);
      } else if option == "secrets" {
        var s := CollectRows(o.secrets, val.values, val.serviceIds, Secrets);
        o := o.(secrets := s);
      }
      i := i + 1;
    }
    assert inputs[..|inputs|] == inputs;
  }

  // ---------------------------------------------------------------- lemmas

  /** A field with any other name is dropped, wherever it was posted. */
  lemma {:induction false} SanitizeIgnoresOtherFields(a: seq<(string, FormValue)>, name: string, v: FormValue,
                                                      b: seq<(string, FormValue)>)
    requires WellShaped(a + b)
    requires name !in {"visible", "help_word", "tokens", "secrets"}
    ensures WellShaped(a + [(name, v)] + b)
    ensures Sanitize(a + [(name, v)] + b) == Sanitize(a + b)
    decreases |b|
  {
    var all := a + [(name, v)] + b;
    assert WellShaped(all) by {
      forall i | 0 <= i < |all|
        ensures (all[i].0 == "help_word" ==> all[i].1.Scalar?)
        ensures (all[i].0 in {"tokens", "secrets"} ==> all[i].1.Rows?)
      {
        if i < |a| {
          assert all[i] == (a + b)[i];
        } else if i > |a| {
          assert all[i] == (a + b)[i - 1];
        }
      }
    }
    if b == [] {
      assert a + b == a;
      assert all[..|all| - 1] == a;
    } else {
      var b' := b[..|b| - 1];
      var x := b[|b| - 1];
      assert all[..|all| - 1] == a + [(name, v)] + b' && all[|all| - 1] == x;
      assert (a + b)[..|a + b| - 1] == a + b' && (a + b)[|a + b| - 1] == x;
      SanitizeLast(a + b);
      SanitizeIgnoresOtherFields(a, name, v, b');
      SanitizeLast(all);
    }
  }

  predicate UniqueNames(inputs: seq<(string, FormValue)>) {
    forall i, j :: 0 <= i < j < |inputs| ==> inputs[i].0 != inputs[j].0
  }

  /** `visible` is stored as the truthiness of the posted value, and only if posted. */
  lemma {:induction false} SanitizeVisible(inputs: seq<(string, FormValue)>)
    requires WellShaped(inputs) && UniqueNames(inputs)
    ensures Sanitize(inputs).visible.Some?
            <==> exists i :: 0 <= i < |inputs| && inputs[i].0 == "visible"
    ensures forall i :: 0 <= i < |inputs| && inputs[i].0 == "visible" ==>
              Sanitize(inputs).visible == Some(Truthy(inputs[i].1))
  {
    if inputs != [] {
      var init := inputs[..|inputs| - 1];
      assert forall i :: 0 <= i < |init| ==> init[i] == inputs[i];
      SanitizeVisible(init);
    }
  }

  /** `help_word` is stored trimmed, and only when something is left after trimming. */
  lemma {:induction false} SanitizeHelpWord(inputs: seq<(string, FormValue)>)
    requires WellShaped(inputs) && UniqueNames(inputs)
    ensures forall i :: 0 <= i < |inputs| && inputs[i].0 == "help_word" ==>
              Sanitize(inputs).helpWord
              == if TrimDefault(inputs[i].1.text) != "" then Some(TrimDefault(inputs[i].1.text)) else None
  {
    if inputs != [] {
      var init := inputs[..|inputs| - 1];
      var (name, v) := inputs[|inputs| - 1];
      SanitizeLast(inputs);
      StepHelpWord(Sanitize(init), name, v);
      if name == "help_word" {
        assert forall i :: 0 <= i < |init| ==> init[i].0 != "help_word";
        SanitizeWithoutHelpWord(init);
      } else {
        assert UniqueNames(init);
        SanitizeHelpWord(init);
        forall i | 0 <= i < |inputs| && inputs[i].0 == "help_word"
          ensures Sanitize(inputs).helpWord
                  == if TrimDefault(inputs[i].1.text) != "" then Some(TrimDefault(inputs[i].1.text)) else None
        {
          assert i < |init| && init[i] == inputs[i];
        }
      }
    }
  }

  /** The fold's last step: the options of all fields but the last, updated by the last. */
  lemma SanitizeLast(inputs: seq<(string, FormValue)>)
    requires WellShaped(inputs) && inputs != []
    ensures WellShaped(inputs[..|inputs| - 1])
    ensures forall i :: 0 <= i < |inputs| - 1 ==> inputs[..|inputs| - 1][i] == inputs[i]
    ensures Sanitize(inputs)
            == Step(Sanitize(inputs[..|inputs| - 1]), inputs[|inputs| - 1].0, inputs[|inputs| - 1].1)
  {
  }

  /** Without a `help_word` field no help word is stored. */
  lemma {:induction false} SanitizeWithoutHelpWord(inputs: seq<(string, FormValue)>)
    requires WellShaped(inputs)
    requires forall i :: 0 <= i < |inputs| ==> inputs[i].0 != "help_word"
    ensures Sanitize(inputs).helpWord == None
  {
    if inputs != [] {
      var init := inputs[..|inputs| - 1];
      assert forall i :: 0 <= i < |init| ==> init[i] == inputs[i];
      SanitizeWithoutHelpWord(init);
      var (name, v) := inputs[|inputs| - 1];
      StepHelpWord(Sanitize(init), name, v);
    }
  }

  /** What one field does to the stored help word. */
  lemma StepHelpWord(o: Options, name: string, v: FormValue)
    requires name == "help_word" ==> v.Scalar?
    requires name in {"tokens", "secrets"} ==> v.Rows?
    ensures Step(o, name, v).helpWord
            == if name == "help_word" && TrimDefault(v.text) != "" then Some(TrimDefault(v.text)) else o.helpWord
  {
  }

  /** The name of the form field that fills a table. */
  function FieldName(table: Table): string {
    if table == Tokens then "tokens" else "secrets"
  }

  /** The table stored in the options. */
  function Stored(o: Options, table: Table): Option<Assoc<string, seq<string>>> {
    if table == Tokens then o.tokens else o.secrets
  }

  /** What one field does to a stored table. */
  lemma StepTable(o: Options, name: string, v: FormValue, table: Table)
    requires name == "help_word" ==> v.Scalar?
    requires name in {"tokens", "secrets"} ==> v.Rows?
    ensures Stored(Step(o, name, v), table)
            == if name == FieldName(table) then ProcessRows(Stored(o, table), v.values, v.serviceIds, table)
               else Stored(o, table)
  {
  }

  /** Without the table's field the table is not stored. */
  lemma {:induction false} SanitizeWithoutTable(inputs: seq<(string, FormValue)>, table: Table)
    requires WellShaped(inputs)
    requires forall i :: 0 <= i < |inputs| ==> inputs[i].0 != FieldName(table)
    ensures Stored(Sanitize(inputs), table) == None
  {
    if inputs != [] {
      var init := inputs[..|inputs| - 1];
      SanitizeLast(inputs);
      SanitizeWithoutTable(init, table);
      StepTable(Sanitize(init), inputs[|inputs| - 1].0, inputs[|inputs| - 1].1, table);
    }
  }

  /**
   * A posted table is stored as its own rows processed from scratch: the
   * `tokens` field gives the token table, the `secrets` field the secret table.
   */
  lemma {:induction false} SanitizeTable(inputs: seq<(string, FormValue)>, table: Table)
    requires WellShaped(inputs) && UniqueNames(inputs)
    ensures forall i :: 0 <= i < |inputs| && inputs[i].0 == FieldName(table) ==>
              Stored(Sanitize(inputs), table) == ProcessRows(None, inputs[i].1.values, inputs[i].1.serviceIds, table)
  {
    if inputs != [] {
      var init := inputs[..|inputs| - 1];
      var (name, v) := inputs[|inputs| - 1];
      SanitizeLast(inputs);
      StepTable(Sanitize(init), name, v, table);
      if name == FieldName(table) {
        assert forall i :: 0 <= i < |init| ==> init[i].0 != FieldName(table);
        SanitizeWithoutTable(init, table);
        forall i | 0 <= i < |inputs| && inputs[i].0 == FieldName(table)
          ensures Stored(Sanitize(inputs), table)
                  == ProcessRows(None, inputs[i].1.values, inputs[i].1.serviceIds, table)
        {
          assert i == |inputs| - 1;
        }
      } else {
        assert UniqueNames(init);
        SanitizeTable(init, table);
        forall i | 0 <= i < |inputs| && inputs[i].0 == FieldName(table)
          ensures Stored(Sanitize(inputs), table)
                  == ProcessRows(None, inputs[i].1.values, inputs[i].1.serviceIds, table)
        {
          assert i < |init| && init[i] == inputs[i];
        }
      }
    }
  }

  /** The items of the entries whose key is `key`, in order. */
  function ItemsUnder(es: seq<(string, string)>, key: string): seq<string> {
    if es == [] then []
    else
      ItemsUnder(es[..|es| - 1], key) + if es[|es| - 1].0 == key then [es[|es| - 1].1] else []
  }

  /**
   * Each entry's item is appended under its key, in order: the list under
   * `key` is what was there before followed by that key's items.
   */
  lemma {:induction false} AddEntriesGroups(acc: Option<Assoc<string, seq<string>>>, es: seq<(string, string)>, key: string)
    ensures var r := AddEntries(acc, es).GetOr([]);
      && (HasKey(r, key) <==> HasKey(acc.GetOr([]), key) || ItemsUnder(es, key) != [])
      && Get(r, key).GetOr([]) == Get(acc.GetOr([]), key).GetOr([]) + ItemsUnder(es, key)
  {
    if es != [] {
      var init := es[..|es| - 1];
      var e := es[|es| - 1];
      AddEntriesGroups(acc, init, key);
      AppendAtGet(AddEntries(acc, init).GetOr([]), e.0, e.1, key);
    }
  }

  lemma {:induction false} DedupValuesGet(m: Assoc<string, seq<string>>, k: string)
    ensures HasKey(DedupValues(m), k) <==> HasKey(m, k)
    ensures HasKey(m, k) ==> Get(DedupValues(m), k) == Some(Dedup(Get(m, k).value))
  {
    if m != [] {
      HasKeyTail(m, k);
      HasKeyTail(DedupValues(m), k);
      assert DedupValues(m)[1..] == DedupValues(m[1..]);
      DedupValuesGet(m[1..], k);
    }
  }

  /**
   * After one table's rows: the list under each key is the duplicate-free
   * form of the previous list followed by that key's rows in order.
   */
  lemma ProcessRowsGroups(acc: Option<Assoc<string, seq<string>>>, values: seq<string>,
                          serviceIds: seq<string>, table: Table, key: string)
    ensures var r := ProcessRows(acc, values, serviceIds, table).GetOr([]);
      var g := ItemsUnder(KeptEntries(table, CleanRows(values, serviceIds, |values|)), key);
      && (HasKey(r, key) <==> HasKey(acc.GetOr([]), key) || g != [])
      && (HasKey(r, key) ==> Get(r, key) == Some(Dedup(Get(acc.GetOr([]), key).GetOr([]) + g)))
  {
    var es := KeptEntries(table, CleanRows(values, serviceIds, |values|));
    AddEntriesGroups(acc, es, key);
    var a := AddEntries(acc, es);
    if a.Some? {
      DedupValuesGet(a.value, key);
    }
  }

  predicate Trimmed(s: string) {
    s != [] ==> s[0] !in TrimChars && s[|s| - 1] !in TrimChars
  }

  predicate CleanId(s: string) {
    NoneIn(s, RegexSpace + {'/'})
  }

  predicate KeyOk(table: Table, k: string) {
    if table == Tokens then Trimmed(k) else CleanId(k)
  }

  predicate ItemOk(table: Table, x: string) {
    if table == Tokens then CleanId(x) else Trimmed(x)
  }

  /** Unique keys, and every key and item cleaned as its table requires. */
  ghost predicate CleanTable(m: Assoc<string, seq<string>>, table: Table) {
    && UniqueKeys(m)
    && forall k :: HasKey(m, k) ==>
         KeyOk(table, k) && forall j :: 0 <= j < |Get(m, k).value| ==> ItemOk(table, Get(m, k).value[j])
  }

  /** A clean table whose lists are also free of duplicates. */
  ghost predicate DedupedTable(m: Assoc<string, seq<string>>, table: Table) {
    CleanTable(m, table) && forall k :: HasKey(m, k) ==> NoDuplicates(Get(m, k).value)
  }

  lemma AppendAtClean(m: Assoc<string, seq<string>>, table: Table, k: string, x: string)
    requires CleanTable(m, table) && KeyOk(table, k) && ItemOk(table, x)
    ensures CleanTable(AppendAt(m, k, x), table)
  {
    var r := AppendAt(m, k, x);
    AppendAtUnique(m, k, x);
    forall k' | HasKey(r, k')
      ensures KeyOk(table, k') && forall j :: 0 <= j < |Get(r, k').value| ==> ItemOk(table, Get(r, k').value[j])
    {
      AppendAtGet(m, k, x, k');
    }
  }

  lemma {:induction false} AddEntriesClean(acc: Option<Assoc<string, seq<string>>>, es: seq<(string, string)>, table: Table)
    requires acc.Some? ==> CleanTable(acc.value, table)
    requires forall i :: 0 <= i < |es| ==> KeyOk(table, es[i].0) && ItemOk(table, es[i].1)
    ensures var r := AddEntries(acc, es); r.Some? ==> CleanTable(r.value, table)
  {
    if es != [] {
      var init := es[..|es| - 1];
      assert forall i :: 0 <= i < |init| ==> init[i] == es[i];
      AddEntriesClean(acc, init, table);
      assert CleanTable([], table);
      AppendAtClean(AddEntries(acc, init).GetOr([]), table, es[|es| - 1].0, es[|es| - 1].1);
    }
  }

  /** A cleaned row has a trimmed value and a stripped service id. */
  lemma {:induction false} CleanRowsClean(values: seq<string>, serviceIds: seq<string>, n: nat)
    requires n <= |values|
    ensures forall i :: 0 <= i < n ==>
      Trimmed(CleanRows(values, serviceIds, n)[i].0) && CleanId(CleanRows(values, serviceIds, n)[i].1)
  {
    if n > 0 {
      CleanRowsClean(values, serviceIds, n - 1);
    }
  }

  lemma {:induction false} KeptEntriesClean(table: Table, rows: seq<(string, string)>)
    requires forall i :: 0 <= i < |rows| ==> Trimmed(rows[i].0) && CleanId(rows[i].1)
    ensures forall i :: 0 <= i < |KeptEntries(table, rows)| ==>
      KeyOk(table, KeptEntries(table, rows)[i].0) && ItemOk(table, KeptEntries(table, rows)[i].1)
  {
    if rows != [] {
      var init := rows[..|rows| - 1];
      assert forall i :: 0 <= i < |init| ==> init[i] == rows[i];
      KeptEntriesClean(table, init);
    }
  }

  lemma {:induction false} DedupValuesUnique(m: Assoc<string, seq<string>>)
    requires UniqueKeys(m)
    ensures UniqueKeys(DedupValues(m))
  {
  }

  lemma DedupValuesClean(m: Assoc<string, seq<string>>, table: Table)
    requires CleanTable(m, table)
    ensures DedupedTable(DedupValues(m), table)
  {
    var r := DedupValues(m);
    DedupValuesUnique(m);
    forall k | HasKey(r, k)
      ensures KeyOk(table, k) && NoDuplicates(Get(r, k).value)
      ensures forall j :: 0 <= j < |Get(r, k).value| ==> ItemOk(table, Get(r, k).value[j])
    {
      DedupValuesGet(m, k);
      var l := Get(m, k).value;
      forall j | 0 <= j < |Get(r, k).value| ensures ItemOk(table, Get(r, k).value[j]) {
        var x := Get(r, k).value[j];
        assert x in l;
      }
    }
  }

  /**
   * Whatever was posted, every stored token and secret is trimmed, every
   * stored service id has no white space or `/`, no table holds a key twice
   * and no list holds an item twice.
   */
  lemma {:induction false} SanitizeCleansTables(inputs: seq<(string, FormValue)>)
    requires WellShaped(inputs)
    ensures var o := Sanitize(inputs);
      && (o.tokens.Some? ==> DedupedTable(o.tokens.value, Tokens))
      && (o.secrets.Some? ==> DedupedTable(o.secrets.value, Secrets))
  {
    if inputs != [] {
      var init := inputs[..|inputs| - 1];
      assert forall i :: 0 <= i < |init| ==> init[i] == inputs[i];
      SanitizeCleansTables(init);
      var o := Sanitize(init);
      var (name, v) := inputs[|inputs| - 1];
      if name == "tokens" {
        ProcessRowsClean(o.tokens, v.values, v.serviceIds, Tokens);
      } else if name == "secrets" {
        ProcessRowsClean(o.secrets, v.values, v.serviceIds, Secrets);
      }
    }
  }

  lemma ProcessRowsClean(acc: Option<Assoc<string, seq<string>>>, values: seq<string>,
                         serviceIds: seq<string>, table: Table)
    requires acc.Some? ==> CleanTable(acc.value, table)
    ensures var r := ProcessRows(acc, values, serviceIds, table); r.Some? ==> DedupedTable(r.value, table)
  {
    var es := KeptEntries(table, CleanRows(values, serviceIds, |values|));
    CleanRowsClean(values, serviceIds, |values|);
    KeptEntriesClean(table, CleanRows(values, serviceIds, |values|));
    AddEntriesClean(acc, es, table);
    var a := AddEntries(acc, es);
    if a.Some? {
      DedupValuesClean(a.value, table);
    }
  }
}
