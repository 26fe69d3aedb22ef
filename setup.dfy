/**
  The configurator (`webappmenu-setup.py`): loading and repairing the
  settings document, the "unsaved changes" flag and the Reload/Apply
  buttons that follow it, the profile-table edit rules, and the projection
  of the dialog's state that Apply writes back.
 */
module Setup {
  import opened Settings
  import opened Text

  /** The type names `type(v).__name__` can yield for a value built by
      `json.loads`: `'int'`, `'float'`, `'bool'`, `'str'`, `'list'`,
      `'dict'` and `'NoneType'`. */
  datatype TypeName = IntName | FloatName | BoolName | StrName | ListName | DictName | NoneTypeName

  /** `type(v).__name__` (Python 3, where every string is a `str`). */
  function PyTypeName(v: Json): TypeName {
    match v
    case JInt(_) => IntName
    case JFloat(_) => FloatName
    case JBool(_) => BoolName
    case JStr(_) => StrName
    case JList(_) => ListName
    case JObj(_) => DictName
    case JNull => NoneTypeName
  }

  /** `DEFAULT_OPTIONS`. */
  function DefaultOptions(): map<string, Json> {
    map[IconSize := JInt(16),
        ShowIcons := JBool(true),
        UseDefaultProfile := JBool(true),
        SplitProfileView := JBool(true),
        HideEntriesNotInXdgDir := JBool(true),
        Profiles := JList([])]
  }

  /** The keys the loader checks, in the order it checks them. */
  const CheckedKeys: seq<string> :=
    [UseDefaultProfile, SplitProfileView, ShowIcons, HideEntriesNotInXdgDir, IconSize, Profiles]

  /** The type name each checked key is compared against. */
  function ExpectedType(key: string): TypeName {
    if key == IconSize then IntName else if key == Profiles then ListName else BoolName
  }

  /** `DEFAULT_OPTIONS[key]` for a checked key: every flag defaults to true. */
  function DefaultValue(key: string): Json {
    if key == IconSize then JInt(16) else if key == Profiles then JList([]) else JBool(true)
  }

  /** The defaults table holds every checked key, with its expected type. */
  lemma DefaultsWellTyped(k: string)
    requires k in CheckedKeys
    ensures k in DefaultOptions() && DefaultOptions()[k] == DefaultValue(k)
    ensures PyTypeName(DefaultValue(k)) == ExpectedType(k)
  {
  }

  /** The condition under which `check_and_set` overwrites `key`: the key is
      absent, or its value has another type name. */
  predicate NeedsRepair(node: map<string, Json>, key: string, typeName: TypeName) {
    !(key in node && PyTypeName(node[key]) == typeName)
  }

  /** The effect of `check_and_set(node, key, ExpectedType(key), DEFAULT_OPTIONS[key])`
      on the dictionary. */
  function Fix(node: map<string, Json>, key: string): map<string, Json>
  {
    if NeedsRepair(node, key, ExpectedType(key)) then node[key := DefaultValue(key)] else node
  }

  /** The dictionary after `check_and_set` has run on each of `keys` in turn. */
  function RepairFrom(node: map<string, Json>, keys: seq<string>): map<string, Json>
    decreases keys
  {
    if keys == [] then node
    else RepairFrom(Fix(node, keys[0]), keys[1..])
  }

  /** The keys for which `check_and_set` reported a repair, in the order of
      `keys`. */
  function RepairedKeysFrom(node: map<string, Json>, keys: seq<string>): seq<string>
    decreases keys
  {
    if keys == [] then []
    else (if NeedsRepair(node, keys[0], ExpectedType(keys[0])) then [keys[0]] else [])
         + RepairedKeysFrom(Fix(node, keys[0]), keys[1..])
  }

  /** After the checks every checked key has its expected type, keeping its
      value when it already had that type and taking the default otherwise. */
  lemma {:induction false} RepairFromSpec(node: map<string, Json>, keys: seq<string>)
    ensures var r := RepairFrom(node, keys);
      && (forall k :: k in keys ==> k in r && PyTypeName(r[k]) == ExpectedType(k))
      && (forall k :: k in keys ==>
            r[k] == if NeedsRepair(node, k, ExpectedType(k)) then DefaultValue(k) else node[k])
    decreases keys
  {
    if keys != [] {
      assert forall k :: k in keys[1..] ==> k in keys;
      RepairFromSpec(Fix(node, keys[0]), keys[1..]);
      RepairKeepsOthers(Fix(node, keys[0]), keys[1..]);
    }
  }

  /** The checks touch no key outside `keys`. */
  lemma {:induction false} RepairKeepsOthers(node: map<string, Json>, keys: seq<string>)
    ensures var r := RepairFrom(node, keys);
      forall k :: k !in keys ==> (k in r <==> k in node) && (k in node ==> r[k] == node[k])
    decreases keys
  {
    if keys != [] {
      assert forall k :: k in keys[1..] ==> k in keys;
      RepairKeepsOthers(Fix(node, keys[0]), keys[1..]);
    }
  }

  /** A key is reported exactly when it is one of `keys` and was absent or
      mistyped in the original dictionary. */
  lemma {:induction false} RepairedKeysSpec(node: map<string, Json>, keys: seq<string>)
    ensures forall k :: k in RepairedKeysFrom(node, keys) <==> k in keys && NeedsRepair(node, k, ExpectedType(k))
    decreases keys
  {
    if keys != [] {
      assert forall k :: k in keys[1..] ==> k in keys;
      RepairedKeysSpec(Fix(node, keys[0]), keys[1..]);
    }
  }

  /** Reference definition: the keys of `keys` that are absent or mistyped in
      `node`, in order. */
  function MissingOrMistyped(node: map<string, Json>, keys: seq<string>): seq<string> {
    if keys == [] then []
    else (if NeedsRepair(node, keys[0], ExpectedType(keys[0])) then [keys[0]] else [])
         + MissingOrMistyped(node, keys[1..])
  }

  predicate Distinct(keys: seq<string>) {
    forall a, b :: 0 <= a < b < |keys| ==> keys[a] != keys[b]
  }

  /** For distinct keys the reported list is the plain filter of the keys by
      "absent or mistyped in the original": the report comes out in the fixed
      order in which the keys are checked. */
  lemma {:induction false} RepairedKeysInCheckOrder(node: map<string, Json>, keys: seq<string>)
    requires Distinct(keys)
    ensures RepairedKeysFrom(node, keys) == MissingOrMistyped(node, keys)
    decreases keys
  {
    if keys != [] {
      var k0 := keys[0];
      var rest := keys[1..];
      assert Distinct(rest) by {
        forall a, b | 0 <= a < b < |rest| ensures rest[a] != rest[b] {
          assert rest[a] == keys[a + 1] && rest[b] == keys[b + 1];
        }
      }
      assert k0 !in rest by {
        forall b | 0 <= b < |rest| ensures rest[b] != k0 {
          assert rest[b] == keys[b + 1];
        }
      }
      FixKeepsOthers(node, k0, rest);
      RepairedKeysInCheckOrder(Fix(node, k0), rest);
    }
  }

  /** Repairing one key does not change whether another key needs repair. */
  lemma {:induction false} FixKeepsOthers(node: map<string, Json>, k0: string, keys: seq<string>)
    requires k0 !in keys
    ensures MissingOrMistyped(Fix(node, k0), keys) == MissingOrMistyped(node, keys)
  {
    if keys != [] {
      FixKeepsOthers(node, k0, keys[1..]);
    }
  }

  /** When no key needs repair, the key checks change nothing and report
      nothing. */
  lemma {:induction false} RepairNothing(node: map<string, Json>, keys: seq<string>)
    requires forall k :: k in keys ==> !NeedsRepair(node, k, ExpectedType(k))
    ensures RepairFrom(node, keys) == node
    ensures RepairedKeysFrom(node, keys) == []
    decreases keys
  {
    if keys != [] {
      assert keys[0] in keys;
      assert Fix(node, keys[0]) == node;
      assert forall k :: k in keys[1..] ==> k in keys;
      RepairNothing(node, keys[1..]);
    }
  }

  /** The dictionary the loader starts from: the parsed object, or
      `DEFAULT_OPTIONS` when reading failed. */
  function BaseOptions(outcome: ReadOutcome): map<string, Json>
    requires outcome.Parsed? ==> outcome.value.JObj?
  {
    if outcome.Parsed? then outcome.value.fields else DefaultOptions()
  }

  /** What the loader can process without raising: the root is an object, and
      when `profiles` is a list, every entry of it is an object. */
  predicate Loadable(outcome: ReadOutcome) {
    outcome.Parsed? ==>
      && outcome.value.JObj?
      && var f := outcome.value.fields;
         Profiles in f && f[Profiles].JList? ==>
           forall k :: 0 <= k < |f[Profiles].items| ==> f[Profiles].items[k].JObj?
  }

  /** The result of the six key checks of the loader. */
  function RepairedBase(outcome: ReadOutcome): (r: map<string, Json>)
    requires Loadable(outcome)
    ensures Profiles in r && r[Profiles].JList?
    ensures forall k :: 0 <= k < |r[Profiles].items| ==> r[Profiles].items[k].JObj?
  {
    assert Profiles in CheckedKeys;
    RepairFromSpec(BaseOptions(outcome), CheckedKeys);
    RepairFrom(BaseOptions(outcome), CheckedKeys)
  }

  /** The options after loading: the repaired dictionary with its invalid
      profile entries removed. */
  function LoadedOptions(outcome: ReadOutcome): map<string, Json>
    requires Loadable(outcome)
  {
    var r := RepairedBase(outcome);
    r[Profiles := JList(KeepValid(r[Profiles].items))]
  }

  /** What the loader reports: a read error, the repaired keys, and the
      1-based positions of the dropped profile entries. */
  datatype LoadReport = LoadReport(readError: bool, repairedKeys: seq<string>, badProfiles: seq<nat>)

  function LoadReportOf(outcome: ReadOutcome): LoadReport
    requires Loadable(outcome)
  {
    LoadReport(!outcome.Parsed?,
               RepairedKeysFrom(BaseOptions(outcome), CheckedKeys),
               DroppedPositions(RepairedBase(outcome)[Profiles].items))
  }

  /** The four flags are booleans, the icon size an integer, and the
      profiles a list of valid entries. */
  predicate WellTyped(opts: map<string, Json>) {
    && UseDefaultProfile in opts && opts[UseDefaultProfile].JBool?
    && SplitProfileView in opts && opts[SplitProfileView].JBool?
    && ShowIcons in opts && opts[ShowIcons].JBool?
    && HideEntriesNotInXdgDir in opts && opts[HideEntriesNotInXdgDir].JBool?
    && IconSize in opts && opts[IconSize].JInt?
    && Profiles in opts && opts[Profiles].JList? && AllValid(opts[Profiles].items)
  }

  /** `WellTyped` is: no checked key needs repair, and every profile entry is
      valid. */
  lemma WellTypedByKey(opts: map<string, Json>)
    ensures WellTyped(opts) <==>
      && (forall k :: k in CheckedKeys ==> !NeedsRepair(opts, k, ExpectedType(k)))
      && Profiles in opts && opts[Profiles].JList? && AllValid(opts[Profiles].items)
  {
    if forall k :: k in CheckedKeys ==> !NeedsRepair(opts, k, ExpectedType(k)) {
      assert UseDefaultProfile in CheckedKeys && SplitProfileView in CheckedKeys;
      assert ShowIcons in CheckedKeys && HideEntriesNotInXdgDir in CheckedKeys;
      assert IconSize in CheckedKeys && Profiles in CheckedKeys;
    }
  }

  /** After loading, the options are fully typed. */
  lemma LoadedOptionsWellTyped(outcome: ReadOutcome)
    requires Loadable(outcome)
    ensures WellTyped(LoadedOptions(outcome))
  {
    assert Profiles in CheckedKeys;
    RepairFromSpec(BaseOptions(outcome), CheckedKeys);
    WellTypedByKey(LoadedOptions(outcome));
  }

  /** After loading, a key that had its expected type keeps its value and any
      other takes its default; the profiles are exactly the valid entries of
      the original list (none when it was not a list); no other key changes. */
  lemma LoadedOptionsSpec(outcome: ReadOutcome)
    requires Loadable(outcome)
    ensures forall k :: k in CheckedKeys ==> k in LoadedOptions(outcome)
    ensures forall k :: k in CheckedKeys && k != Profiles ==>
      LoadedOptions(outcome)[k] ==
        if NeedsRepair(BaseOptions(outcome), k, ExpectedType(k)) then DefaultOptions()[k]
        else BaseOptions(outcome)[k]
    ensures LoadedOptions(outcome)[Profiles] ==
      if NeedsRepair(BaseOptions(outcome), Profiles, ListName) then JList([])
      else JList(KeepValid(BaseOptions(outcome)[Profiles].items))
    ensures forall k :: k !in CheckedKeys ==>
      (k in LoadedOptions(outcome) <==> k in BaseOptions(outcome))
      && (k in BaseOptions(outcome) ==> LoadedOptions(outcome)[k] == BaseOptions(outcome)[k])
  {
    assert Profiles in CheckedKeys;
    RepairFromSpec(BaseOptions(outcome), CheckedKeys);
    RepairKeepsOthers(BaseOptions(outcome), CheckedKeys);
    forall k | k in CheckedKeys ensures DefaultOptions()[k] == DefaultValue(k) {
      DefaultsWellTyped(k);
    }
  }

  /** The report names exactly the absent or mistyped keys, in the order
      use-default-profile, split-profile-view, show-icons,
      hide-entries-not-in-xdg-dir, icon-size, profiles; it names exactly the
      positions of the dropped entries, one per entry removed. */
  lemma LoadReportSpec(outcome: ReadOutcome)
    requires Loadable(outcome)
    ensures LoadReportOf(outcome).repairedKeys == MissingOrMistyped(BaseOptions(outcome), CheckedKeys)
    ensures var ps := RepairedBase(outcome)[Profiles].items;
      && (forall n :: n in LoadReportOf(outcome).badProfiles <==> 1 <= n <= |ps| && !ValidProfile(ps[n - 1]))
      && |LoadReportOf(outcome).badProfiles| == |ps| - |LoadedOptions(outcome)[Profiles].items|
  {
    assert Distinct(CheckedKeys);
    RepairedKeysInCheckOrder(BaseOptions(outcome), CheckedKeys);
    var ps := RepairedBase(outcome)[Profiles].items;
    forall n ensures n in LoadReportOf(outcome).badProfiles <==> 1 <= n <= |ps| && !ValidProfile(ps[n - 1]) {
      DroppedPositionsExact(ps, n);
    }
  }

  /** A missing, unreadable or badly formatted file yields `DEFAULT_OPTIONS`
      and no key or profile diagnostics. */
  lemma ReadErrorGivesDefaults(outcome: ReadOutcome)
    requires !outcome.Parsed?
    ensures Loadable(outcome)
    ensures LoadedOptions(outcome) == DefaultOptions()
    ensures LoadReportOf(outcome) == LoadReport(true, [], [])
  {
    var d := DefaultOptions();
    forall k | k in CheckedKeys ensures !NeedsRepair(d, k, ExpectedType(k)) {
      DefaultsWellTyped(k);
    }
    RepairNothing(d, CheckedKeys);
    assert RepairedBase(outcome) == d;
    assert KeepValid([]) == [] && DroppedPositions([]) == [];
    assert d[Profiles := JList([])] == d;
  }

  /** A well-typed document loads unchanged and without diagnostics. */
  lemma WellTypedLoadsUnchanged(fields: map<string, Json>)
    requires WellTyped(fields)
    ensures Loadable(Parsed(JObj(fields)))
    ensures LoadedOptions(Parsed(JObj(fields))) == fields
    ensures LoadReportOf(Parsed(JObj(fields))) == LoadReport(false, [], [])
  {
    var o := Parsed(JObj(fields));
    WellTypedByKey(fields);
    RepairNothing(fields, CheckedKeys);
    assert RepairedBase(o) == fields;
    var ps := fields[Profiles].items;
    KeepValidOfValid(ps);
    assert fields[Profiles := JList(ps)] == fields;
  }

  /** Loading what a load produced changes nothing. */
  lemma LoadIsIdempotent(outcome: ReadOutcome)
    requires Loadable(outcome)
    ensures Loadable(Parsed(JObj(LoadedOptions(outcome))))
    ensures LoadedOptions(Parsed(JObj(LoadedOptions(outcome)))) == LoadedOptions(outcome)
  {
    LoadedOptionsWellTyped(outcome);
    WellTypedLoadsUnchanged(LoadedOptions(outcome));
  }

  /** One row of the profile table: the name and directory columns. */
  datatype Row = Row(name: string, directory: string)

  datatype Column = NameColumn | DirColumn

  function Cell(row: Row, col: Column): string {
    match col
    case NameColumn => row.name
    case DirColumn => row.directory
  }

  function WithCell(row: Row, col: Column, text: string): Row {
    match col
    case NameColumn => row.(name := text)
    case DirColumn => row.(directory := text)
  }

  /** The table rows shown for a list of valid profile entries. */
  function ProfileRows(ps: seq<Json>): (rows: seq<Row>)
    requires AllValid(ps)
    ensures |rows| == |ps|
    ensures forall k :: 0 <= k < |rows| ==>
              rows[k] == Row(ps[k].fields[ProfileName].s, ps[k].fields[ProfileDirectory].s)
  {
    if ps == [] then []
    else ProfileRows(ps[..|ps| - 1])
         + [Row(ps[|ps| - 1].fields[ProfileName].s, ps[|ps| - 1].fields[ProfileDirectory].s)]
  }

  function RowToJson(row: Row): Json {
    JObj(map[ProfileName := JStr(row.name), ProfileDirectory := JStr(row.directory)])
  }

  /** The `profiles` list Apply writes: one object per table row, in order. */
  function RowsToJson(rows: seq<Row>): (ps: seq<Json>)
    ensures |ps| == |rows|
    ensures AllValid(ps)
  {
    if rows == [] then [] else RowsToJson(rows[..|rows| - 1]) + [RowToJson(rows[|rows| - 1])]
  }

  /** Writing the table and reading it back gives the same rows. */
  lemma {:induction false} RowsRoundTrip(rows: seq<Row>)
    ensures ProfileRows(RowsToJson(rows)) == rows
  {
    if rows != [] {
      var init := rows[..|rows| - 1];
      RowsRoundTrip(init);
      var ps := RowsToJson(rows);
      assert ps[..|ps| - 1] == RowsToJson(init);
      assert rows == init + [rows[|rows| - 1]];
    }
  }

  /** The dictionary Apply builds from the widgets and the table. */
  function ProjectOptions(useDefaultProfile: bool, splitProfileView: bool, showIcons: bool,
                          hideNonXdg: bool, iconSize: int, rows: seq<Row>): map<string, Json>
  {
    map[UseDefaultProfile := JBool(useDefaultProfile),
        SplitProfileView := JBool(splitProfileView),
        ShowIcons := JBool(showIcons),
        HideEntriesNotInXdgDir := JBool(hideNonXdg),
        IconSize := JInt(iconSize),
        Profiles := JList(RowsToJson(rows))]
  }

  /** What Apply writes loads back unchanged, without diagnostics, and shows
      the same table rows. */
  lemma ApplyThenLoadRoundTrip(useDefaultProfile: bool, splitProfileView: bool, showIcons: bool,
                               hideNonXdg: bool, iconSize: int, rows: seq<Row>)
    ensures var opts := ProjectOptions(useDefaultProfile, splitProfileView, showIcons, hideNonXdg, iconSize, rows);
      && Loadable(Parsed(JObj(opts)))
      && LoadedOptions(Parsed(JObj(opts))) == opts
      && LoadReportOf(Parsed(JObj(opts))) == LoadReport(false, [], [])
      && ProfileRows(LoadedOptions(Parsed(JObj(opts)))[Profiles].items) == rows
  {
    var opts := ProjectOptions(useDefaultProfile, splitProfileView, showIcons, hideNonXdg, iconSize, rows);
    assert WellTyped(opts);
    WellTypedLoadsUnchanged(opts);
    RowsRoundTrip(rows);
  }

  /** The edit rule of the table: the stripped text is stored when it is not
      empty and differs from the stripped old value of an existing row. */
  predicate EditAccepted(store: seq<Row>, row: int, newText: string, col: Column) {
    && 0 <= row < |store|
    && Strip(newText) != ""
    && Strip(Cell(store[row], col)) != Strip(newText)
  }

  function EditedStore(store: seq<Row>, row: int, newText: string, col: Column): (r: seq<Row>)
    ensures |r| == |store|
  {
    if EditAccepted(store, row, newText, col) then store[row := WithCell(store[row], col, Strip(newText))]
    else store
  }

  /** An accepted edit changes exactly one cell, to a non-empty text without
      surrounding white space; any other edit changes nothing. */
  lemma EditChangesOneCell(store: seq<Row>, row: int, newText: string, col: Column)
    ensures var r := EditedStore(store, row, newText, col);
      if EditAccepted(store, row, newText, col) then
        && Cell(r[row], col) == Strip(newText) != ""
        && Strip(Cell(r[row], col)) == Cell(r[row], col)
        && (forall c :: c != col ==> Cell(r[row], c) == Cell(store[row], c))
        && (forall k :: 0 <= k < |store| && k != row ==> r[k] == store[k])
      else r == store
  {
    if EditAccepted(store, row, newText, col) {
      StripIdempotent(newText);
    }
  }

  /** Repeating an edit is refused: the stored value already equals the new
      stripped text. */
  lemma RepeatedEditIsRefused(store: seq<Row>, row: int, newText: string, col: Column)
    ensures !EditAccepted(EditedStore(store, row, newText, col), row, newText, col)
    ensures EditedStore(EditedStore(store, row, newText, col), row, newText, col)
            == EditedStore(store, row, newText, col)
  {
    if EditAccepted(store, row, newText, col) {
      StripIdempotent(newText);
    }
  }

  /** The OK button of the new-profile dialog is sensitive exactly when both
      entries are non-empty after stripping. */
  predicate OkEnabled(nameText: string, dirText: string) {
    Strip(nameText) != "" && Strip(dirText) != ""
  }

  /** What `Gtk.Dialog.run()` returned: the accepting button (OK in the
      new-profile dialog and the folder chooser, YES in the delete dialog),
      the Cancel button, or the window was closed (DELETE_EVENT, also sent
      for Escape). */
  datatype Response = OkResponse | CancelResponse | DeleteEventResponse

  /** The new-profile dialog as written: any response but Cancel appends. */
  function NewProfileRowsAsWritten(store: seq<Row>, response: Response,
                                   nameText: string, dirText: string): (r: seq<Row>)
    ensures |r| == |store| + (if response == CancelResponse then 0 else 1)
    ensures r[..|store|] == store
    ensures response != CancelResponse ==> r[|store|] == Row(Strip(nameText), Strip(dirText))
  {
    if response == CancelResponse then store
    else store + [Row(Strip(nameText), Strip(dirText))]
  }

  /** Closing the dialog with both entries empty appends an empty profile,
      although OK was never enabled. */
  lemma ClosingNewProfileDialogAppendsEmptyRow()
    ensures !OkEnabled("", "")
    ensures NewProfileRowsAsWritten([], DeleteEventResponse, "", "") == [Row("", "")]
  {
    assert Strip("") == "";
  }

  /** The new-profile dialog as intended: only OK (which can be pressed only
      while it is enabled) appends, and the appended row holds the stripped,
      non-empty entries. */
  function NewProfileRows(store: seq<Row>, response: Response,
                          nameText: string, dirText: string): seq<Row>
    requires response == OkResponse ==> OkEnabled(nameText, dirText)
  {
    if response == OkResponse then store + [Row(Strip(nameText), Strip(dirText))] else store
  }

  /** Only OK changes the table; it appends one row, whose name and
      directory are non-empty and already stripped. */
  lemma NewProfileRowsSpec(store: seq<Row>, response: Response, nameText: string, dirText: string)
    requires response == OkResponse ==> OkEnabled(nameText, dirText)
    ensures var r := NewProfileRows(store, response, nameText, dirText);
      && (r == store <==> response != OkResponse)
      && (response == OkResponse ==>
            && |r| == |store| + 1 && r[..|store|] == store
            && r[|store|].name != "" && Strip(r[|store|].name) == r[|store|].name
            && r[|store|].directory != "" && Strip(r[|store|].directory) == r[|store|].directory)
  {
    if response == OkResponse {
      StripIdempotent(nameText);
      StripIdempotent(dirText);
      var r := NewProfileRows(store, response, nameText, dirText);
      assert r[..|store|] == store;
      assert |r| != |store|;
    }
  }

  /** The table after the delete dialog of `__on_delete_cb`: with a row
      selected, any response but Cancel removes that row; without a
      selection no dialog opens. */
  function DeletedStore(store: seq<Row>, selected: Option<nat>, response: Response): seq<Row>
    requires selected.Some? ==> selected.value < |store|
  {
    if selected.None? || response == CancelResponse then store
    else store[..selected.value] + store[selected.value + 1..]
  }

  /** Deleting removes exactly the selected row and keeps the others in
      order; otherwise the table is unchanged. */
  lemma DeleteRemovesSelected(store: seq<Row>, selected: Option<nat>, response: Response)
    requires selected.Some? ==> selected.value < |store|
    ensures var r := DeletedStore(store, selected, response);
      && (r == store <==> (selected.None? || response == CancelResponse))
      && (selected.Some? && response != CancelResponse ==>
            |r| == |store| - 1
            && (forall k :: 0 <= k < selected.value ==> r[k] == store[k])
            && (forall k :: selected.value <= k < |r| ==> r[k] == store[k + 1])
            && multiset(r) + multiset{store[selected.value]} == multiset(store))
  {
    if selected.Some? && response != CancelResponse {
      var i := selected.value;
      assert store == store[..i] + [store[i]] + store[i + 1..];
    }
  }

  /** The table after the folder chooser of `__on_browse_cb`: with a row
      selected, only OK writes the chosen path, as given, into that row's
      directory cell. */
  function BrowsedStore(store: seq<Row>, selected: Option<nat>, response: Response, path: string): seq<Row>
    requires selected.Some? ==> selected.value < |store|
  {
    if selected.Some? && response == OkResponse then
      store[selected.value := WithCell(store[selected.value], DirColumn, path)]
    else store
  }

  /** Browsing keeps the rows and every name. With a row selected and OK,
      the selected directory becomes the path, unstripped, and every other
      row is kept; otherwise nothing changes. */
  lemma BrowseSetsOneDirectory(store: seq<Row>, selected: Option<nat>, response: Response, path: string)
    requires selected.Some? ==> selected.value < |store|
    ensures var r := BrowsedStore(store, selected, response, path);
      && |r| == |store|
      && (forall k :: 0 <= k < |r| ==> r[k].name == store[k].name)
      && (selected.Some? && response == OkResponse ==>
            r[selected.value].directory == path
            && forall k :: 0 <= k < |r| && k != selected.value ==> r[k] == store[k])
      && (selected.None? || response != OkResponse ==> r == store)
  {
  }

  /** The state of the settings directory when Apply runs. */
  datatype BaseDir = BaseIsDirectory | BaseIsNotDirectory | BaseMissing(created: bool)

  datatype ApplyResult = NotADirectory | CannotCreateDirectory | WriteFailed | Written(document: Json)

  /** The configurator's window state that the modelled callbacks touch. */
  class Configurator {
    var options: map<string, Json>
    var configChanged: bool
    var reloadSensitive: bool
    var applySensitive: bool
    var profileStore: seq<Row>
    // The option widgets.
    var useDefaultProfile: bool
    var manageDefaultSensitive: bool  // the "Manage" button of the default profile
    var splitProfileView: bool
    var showIcons: bool
    var hideNonXdg: bool
    var iconSize: int

    /** Reload and Apply are sensitive exactly when there are unsaved changes. */
    ghost predicate Valid()
      reads this
    {
      reloadSensitive == configChanged && applySensitive == configChanged
    }

    /** The freshly built window: switches off, the spin button at its lower
        bound, an empty table, both buttons insensitive. */
    constructor ()
      ensures Valid() && !configChanged
      ensures options == map[] && profileStore == []
    {
      options := map[];
      configChanged := false;
      reloadSensitive := false;
      applySensitive := false;
      profileStore := [];
      useDefaultProfile, splitProfileView, showIcons, hideNonXdg := false, false, false, false;
      manageDefaultSensitive := false;
      iconSize := 4;
    }

    /** `__set_changed`. */
    method SetChanged(val: bool)
      modifies this`configChanged, this`reloadSensitive, this`applySensitive
      ensures Valid() && configChanged == val
    {
      configChanged := val;
      reloadSensitive := val;
      applySensitive := val;
    }

    /** `check_and_set`: overwrites an absent or mistyped key and marks the
        configuration changed. */
    method CheckAndSet(node: map<string, Json>, key: string, typeName: TypeName, value: Json)
      returns (node': map<string, Json>, ret: bool)
      modifies this`configChanged, this`reloadSensitive, this`applySensitive
      requires Valid()
      ensures Valid()
      ensures ret == NeedsRepair(node, key, typeName)
      ensures node' == if ret then node[key := value] else node
      ensures configChanged == (old(configChanged) || ret)
    {
      ret := false;
      node' := node;
      if key !in node || PyTypeName(node[key]) != typeName {
        node' := node[key := value];
        SetChanged(true);
        ret := true;
      }
    }

    /** The `i`-th key check of lines 760-779: the key is checked against
        its expected type with its default as replacement, and reported when
        it was repaired; this advances the options and the report by one step
        of `RepairFrom` and `RepairedKeysFrom`. */
    method CheckKey(i: nat, keys: seq<string>, ghost n0: map<string, Json>, ghost c0: bool)
      returns (keys': seq<string>)
      requires i < |CheckedKeys| && KeyProgress(n0, c0, keys, i)
      modifies this`options, this`configChanged, this`reloadSensitive, this`applySensitive
      ensures options == Fix(old(options), CheckedKeys[i])
      ensures KeyProgress(n0, c0, keys', i + 1)
    {
      var key := CheckedKeys[i];
      DefaultsWellTyped(key);
      CheckAdvance(n0, options, keys, i);
      var repaired;
      options, repaired := CheckAndSet(options, key, ExpectedType(key), DefaultOptions()[key]);
      keys' := keys;
      if repaired {
        keys' := keys + [key];
      }
    }

    /** After the first `i` key checks on `n0`, with the flag at `c0` before
        them, reported `keys`: the rest of the checks complete `RepairFrom`
        and `RepairedKeysFrom`, and the flag is raised when a key was
        repaired. */
    ghost predicate KeyProgress(n0: map<string, Json>, c0: bool, keys: seq<string>, i: nat)
      requires i <= |CheckedKeys|
      reads this
    {
      && Valid()
      && RepairProgress(n0, options, keys, i)
      && configChanged == (c0 || keys != [])
    }

    /** The six key checks of lines 760-779: the options become `RepairFrom`
        of their old value, the returned keys are the repaired ones, and the
        flag is raised when any key was repaired. */
    method CheckKeys() returns (keys: seq<string>)
      requires Valid()
      modifies this`options, this`configChanged, this`reloadSensitive, this`applySensitive
      ensures Valid()
      ensures options == RepairFrom(old(options), CheckedKeys)
      ensures keys == RepairedKeysFrom(old(options), CheckedKeys)
      ensures configChanged == (old(configChanged) || keys != [])
    {
      ghost var n0, c0 := options, configChanged;
      assert CheckedKeys[0..] == CheckedKeys;
      keys := CheckKeyPair(0, [], n0, c0);
      keys := CheckKeyPair(2, keys, n0, c0);
      keys := CheckKeyPair(4, keys, n0, c0);
      assert CheckedKeys[6..] == [];
    }

    /** The key checks `i` and `i + 1`, one after the other (grouped in
        pairs only to keep each proof small). */
    method CheckKeyPair(i: nat, keys: seq<string>, ghost n0: map<string, Json>, ghost c0: bool)
      returns (keys': seq<string>)
      requires i + 1 < |CheckedKeys| && KeyProgress(n0, c0, keys, i)
      modifies this`options, this`configChanged, this`reloadSensitive, this`applySensitive
      ensures options == Fix(Fix(old(options), CheckedKeys[i]), CheckedKeys[i + 1])
      ensures KeyProgress(n0, c0, keys', i + 2)
    {
      keys' := CheckKey(i, keys, n0, c0);
      keys' := CheckKey(i + 1, keys', n0, c0);
    }

    /** The condition of line 793: `check_and_set` on `name`, and only when
        that passed, on `directory`; true exactly when the entry is invalid. */
    method CheckProfile(entry: map<string, Json>) returns (isBad: bool)
      requires Valid()
      modifies this`configChanged, this`reloadSensitive, this`applySensitive
      ensures Valid()
      ensures isBad == !ValidProfile(JObj(entry))
      ensures configChanged == (old(configChanged) || isBad)
    {
      var fixed;
      fixed, isBad := CheckAndSet(entry, ProfileName, StrName, JStr(""));
      if !isBad {
        fixed, isBad := CheckAndSet(fixed, ProfileDirectory, StrName, JStr(""));
      }
    }

    /** How far the loop of lines 787-800 has got: `j` entries of
        `original` examined, `ps` the list with the invalid ones among them
        deleted, `i` the position of the next entry in `ps`, and `bad` the
        positions of the deleted ones. */
    ghost predicate DropProgress(original: seq<Json>, ps: seq<Json>, i: nat, j: nat, bad: seq<nat>, changed0: bool)
      reads this
    {
      && j <= |original|
      && i == |KeepValid(original[..j])|
      && ps == KeepValid(original[..j]) + original[j..]
      && bad == DroppedPositions(original[..j])
      && configChanged == (changed0 || bad != [])
    }

    /** One iteration of the loop of lines 787-800: the entry at `i` is
        checked; an invalid one is deleted and its original position `j + 1`
        reported, a valid one is stepped over. */
    method ExamineEntry(ps: seq<Json>, i: nat, j: nat, bad: seq<nat>,
                        ghost original: seq<Json>, ghost changed0: bool)
      returns (ps': seq<Json>, i': nat, bad': seq<nat>)
      requires Valid() && j < |original|
      requires forall k :: 0 <= k < |original| ==> original[k].JObj?
      requires DropProgress(original, ps, i, j, bad, changed0)
      modifies this`configChanged, this`reloadSensitive, this`applySensitive
      ensures Valid() && DropProgress(original, ps', i', j + 1, bad', changed0)
    {
      DropStep(original, j);
      var isBad := CheckProfile(ps[i].fields);
      if isBad {
        ps', i', bad' := ps[..i] + ps[i + 1..], i, bad + [j + 1];
      } else {
        ps', i', bad' := ps, i + 1, bad;
      }
    }

    /** The `while` loop of lines 787-800: every profile entry whose `name`
        or `directory` is not a string is deleted from the list (the list the
        options hold, which nothing else reads meanwhile; `ps` stands for it);
        the returned numbers are the 1-based original positions of the
        deleted entries. */
    method DropBadProfiles() returns (bad: seq<nat>)
      requires Valid()
      requires Profiles in options && options[Profiles].JList?
      requires forall k :: 0 <= k < |options[Profiles].items| ==> options[Profiles].items[k].JObj?
      modifies this`options, this`configChanged, this`reloadSensitive, this`applySensitive
      ensures Valid()
      ensures options == old(options)[Profiles := JList(KeepValid(old(options)[Profiles].items))]
      ensures bad == DroppedPositions(old(options)[Profiles].items)
      ensures configChanged == (old(configChanged) || bad != [])
    {
      ghost var original := options[Profiles].items;
      ghost var changed0 := configChanged;
      var ps := options[Profiles].items;
      var i: nat, j: nat := 0, 0;
      bad := [];
      assert original[..0] == [] && original[0..] == original;
      while i < |ps|
        invariant Valid() && DropProgress(original, ps, i, j, bad, changed0)
        invariant options == old(options)
        decreases |original| - j
      {
        ps, i, bad := ExamineEntry(ps, i, j, bad, original, changed0);
        j := j + 1;
      }
      assert j == |original| && original[j..] == [] && original[..j] == original;
      assert ps == KeepValid(original);
      options := options[Profiles := JList(ps)];
    }

    /** Lines 809-821: the options are shown in the widgets and each profile
        is appended to the table. */
    method ShowOptions()
      requires WellTyped(options)
      modifies this`profileStore, this`useDefaultProfile, this`manageDefaultSensitive,
               this`splitProfileView, this`showIcons, this`hideNonXdg, this`iconSize
      ensures profileStore == old(profileStore) + ProfileRows(options[Profiles].items)
      ensures && useDefaultProfile == options[UseDefaultProfile].b
              && manageDefaultSensitive == options[UseDefaultProfile].b
              && splitProfileView == options[SplitProfileView].b
              && showIcons == options[ShowIcons].b
              && hideNonXdg == options[HideEntriesNotInXdgDir].b
              && iconSize == options[IconSize].i
    {
      var profiles := options[Profiles].items;
      var k := 0;
      while k < |profiles|
        invariant 0 <= k <= |profiles|
        invariant profileStore == old(profileStore) + ProfileRows(profiles[..k])
        modifies this`profileStore
      {
        assert profiles[..k + 1][..k] == profiles[..k];
        profileStore := profileStore + [Row(profiles[k].fields[ProfileName].s,
                                            profiles[k].fields[ProfileDirectory].s)];
        k := k + 1;
      }
      assert profiles[..k] == profiles;
      iconSize := options[IconSize].i;
      useDefaultProfile := options[UseDefaultProfile].b;
      manageDefaultSensitive := options[UseDefaultProfile].b;
      splitProfileView := options[SplitProfileView].b;
      showIcons := options[ShowIcons].b;
      hideNonXdg := options[HideEntriesNotInXdgDir].b;
    }

    /** Lines 733-806 of `__load_config_from_file`: the flag is cleared,
        raised again on a read error (the options then being
        `DEFAULT_OPTIONS`), by a repaired key or by a dropped profile. */
    method ReadAndRepair(outcome: ReadOutcome) returns (report: LoadReport)
      requires Valid() && Loadable(outcome)
      modifies this`options, this`configChanged, this`reloadSensitive, this`applySensitive
      ensures Valid()
      ensures options == LoadedOptions(outcome)
      ensures report == LoadReportOf(outcome)
      ensures configChanged == (report.readError || report.repairedKeys != [] || report.badProfiles != [])
    {
      options := map[];
      SetChanged(false);
      var readError := !outcome.Parsed?;
      if outcome.Parsed? {
        options := outcome.value.fields;
      } else {
        SetChanged(true);
        options := DefaultOptions();
      }
      var keys := CheckKeys();
      assert options == RepairedBase(outcome);
      var bad := DropBadProfiles();
      report := LoadReport(readError, keys, bad);
    }

    /** `__load_config_from_file`, given what reading the file produced: the
        options are loaded and repaired, then shown in the widgets and the
        table. */
    method LoadConfigFromFile(outcome: ReadOutcome) returns (report: LoadReport)
      requires Valid() && Loadable(outcome)
      modifies this`options, this`configChanged, this`reloadSensitive, this`applySensitive,
               this`profileStore, this`useDefaultProfile, this`manageDefaultSensitive,
               this`splitProfileView, this`showIcons, this`hideNonXdg, this`iconSize
      ensures Valid()
      ensures options == LoadedOptions(outcome)
      ensures report == LoadReportOf(outcome)
      ensures configChanged == (report.readError || report.repairedKeys != [] || report.badProfiles != [])
      ensures WellTyped(options)
      ensures profileStore == old(profileStore) + ProfileRows(options[Profiles].items)
      ensures && useDefaultProfile == options[UseDefaultProfile].b
              && manageDefaultSensitive == options[UseDefaultProfile].b
              && splitProfileView == options[SplitProfileView].b
              && showIcons == options[ShowIcons].b
              && hideNonXdg == options[HideEntriesNotInXdgDir].b
              && iconSize == options[IconSize].i
    {
      LoadedOptionsWellTyped(outcome);
      report := ReadAndRepair(outcome);
      ShowOptions();
    }

    /** `__reload_cb` once the user confirmed: the table is emptied, the
        flag cleared, and the file loaded again. */
    method Reload(outcome: ReadOutcome) returns (report: LoadReport)
      requires Valid() && Loadable(outcome)
      modifies this`options, this`configChanged, this`reloadSensitive, this`applySensitive,
               this`profileStore, this`useDefaultProfile, this`manageDefaultSensitive,
               this`splitProfileView, this`showIcons, this`hideNonXdg, this`iconSize
      ensures Valid()
      ensures options == LoadedOptions(outcome) && report == LoadReportOf(outcome)
      ensures configChanged == (report.readError || report.repairedKeys != [] || report.badProfiles != [])
      ensures WellTyped(options)
      ensures profileStore == ProfileRows(options[Profiles].items)
      ensures && useDefaultProfile == options[UseDefaultProfile].b
              && manageDefaultSensitive == options[UseDefaultProfile].b
              && splitProfileView == options[SplitProfileView].b
              && showIcons == options[ShowIcons].b
              && hideNonXdg == options[HideEntriesNotInXdgDir].b
              && iconSize == options[IconSize].i
    {
      profileStore := [];
      SetChanged(false);
      report := LoadConfigFromFile(outcome);
    }

    /** `__on_edit_done_cb` for the cell of `col` in row `row`. */
    method EditDone(row: int, newText: string, col: Column)
      requires Valid()
      modifies this`profileStore, this`configChanged, this`reloadSensitive, this`applySensitive
      ensures Valid()
      ensures profileStore == EditedStore(old(profileStore), row, newText, col)
      ensures configChanged == (old(configChanged) || EditAccepted(old(profileStore), row, newText, col))
    {
      if 0 <= row < |profileStore| {
        var stripped := Strip(newText);
        var val := Cell(profileStore[row], col);
        if stripped != "" && Strip(val) != stripped {
          SetChanged(true);
          profileStore := profileStore[row := WithCell(profileStore[row], col, stripped)];
        }
      }
    }

    /** `__on_delete_cb`: with a row selected, any response but Cancel
        raises the flag and removes the row. */
    method DeleteProfile(selected: Option<nat>, response: Response)
      requires Valid()
      requires selected.Some? ==> selected.value < |profileStore|
      modifies this`profileStore, this`configChanged, this`reloadSensitive, this`applySensitive
      ensures Valid()
      ensures profileStore == DeletedStore(old(profileStore), selected, response)
      ensures configChanged == (old(configChanged) || (selected.Some? && response != CancelResponse))
    {
      if selected.Some? && response != CancelResponse {
        SetChanged(true);
        profileStore := profileStore[..selected.value] + profileStore[selected.value + 1..];
      }
    }

    /** `__on_browse_cb`: on OK the flag is raised and the chosen path is
        written into the selected row's directory cell. */
    method Browse(selected: Option<nat>, response: Response, path: string)
      requires Valid()
      requires selected.Some? ==> selected.value < |profileStore|
      modifies this`profileStore, this`configChanged, this`reloadSensitive, this`applySensitive
      ensures Valid()
      ensures profileStore == BrowsedStore(old(profileStore), selected, response, path)
      ensures configChanged == (old(configChanged) || (selected.Some? && response == OkResponse))
    {
      if selected.Some? && response == OkResponse {
        SetChanged(true);
        var k := selected.value;
        profileStore := profileStore[k := WithCell(profileStore[k], DirColumn, path)];
      }
    }

    /** `__on_default_profile_toggle_cb`, run when the user flips the
        default-profile switch: the flag is raised and the Manage button
        follows the switch. */
    method ToggleDefaultProfile(active: bool)
      requires Valid()
      modifies this`useDefaultProfile, this`manageDefaultSensitive,
               this`configChanged, this`reloadSensitive, this`applySensitive
      ensures Valid() && configChanged
      ensures useDefaultProfile == active && manageDefaultSensitive == active
    {
      useDefaultProfile := active;
      SetChanged(true);
      manageDefaultSensitive := useDefaultProfile;
    }

    /** The `notify::active` handler of the split-view switch. */
    method ToggleSplitView(active: bool)
      requires Valid()
      modifies this`splitProfileView, this`configChanged, this`reloadSensitive, this`applySensitive
      ensures Valid() && configChanged && splitProfileView == active
    {
      splitProfileView := active;
      SetChanged(true);
    }

    /** The `notify::active` handler of the show-icons switch. */
    method ToggleShowIcons(active: bool)
      requires Valid()
      modifies this`showIcons, this`configChanged, this`reloadSensitive, this`applySensitive
      ensures Valid() && configChanged && showIcons == active
    {
      showIcons := active;
      SetChanged(true);
    }

    /** The `notify::active` handler of the hide-entries-not-in-XDG switch. */
    method ToggleHideNonXdg(active: bool)
      requires Valid()
      modifies this`hideNonXdg, this`configChanged, this`reloadSensitive, this`applySensitive
      ensures Valid() && configChanged && hideNonXdg == active
    {
      hideNonXdg := active;
      SetChanged(true);
    }

    /** The `value-changed` handler of the icon-size spin button. */
    method ChangeIconSize(size: int)
      requires Valid()
      modifies this`iconSize, this`configChanged, this`reloadSensitive, this`applySensitive
      ensures Valid() && configChanged && iconSize == size
    {
      iconSize := size;
      SetChanged(true);
    }

    /** The end of `__on_new_cb` as written: any response but Cancel raises
        the flag and appends the stripped entries. */
    method NewProfileAsWritten(response: Response, nameText: string, dirText: string)
      requires Valid()
      modifies this`profileStore, this`configChanged, this`reloadSensitive, this`applySensitive
      ensures Valid()
      ensures profileStore == NewProfileRowsAsWritten(old(profileStore), response, nameText, dirText)
      ensures configChanged == (old(configChanged) || response != CancelResponse)
    {
      if response != CancelResponse {
        SetChanged(true);
        profileStore := profileStore + [Row(Strip(nameText), Strip(dirText))];
      }
    }

    /** The end of `__on_new_cb`, as intended: on OK the flag is set and one
        row with the stripped entries is appended. */
    method ConfirmNewProfile(response: Response, nameText: string, dirText: string)
      requires Valid()
      requires response == OkResponse ==> OkEnabled(nameText, dirText)
      modifies this`profileStore, this`configChanged, this`reloadSensitive, this`applySensitive
      ensures Valid()
      ensures profileStore == NewProfileRows(old(profileStore), response, nameText, dirText)
      ensures configChanged == (old(configChanged) || response == OkResponse)
    {
      if response == OkResponse {
        SetChanged(true);
        profileStore := profileStore + [Row(Strip(nameText), Strip(dirText))];
      }
    }

    /** `profile_store.foreach(collect_profiles)` (lines 362-373): one
        object with the name and the directory of each row, in table order. */
    method CollectProfiles() returns (profiles: seq<Json>)
      ensures profiles == RowsToJson(profileStore)
    {
      profiles := [];
      var k := 0;
      while k < |profileStore|
        invariant 0 <= k <= |profileStore|
        invariant profiles == RowsToJson(profileStore[..k])
      {
        assert profileStore[..k + 1][..k] == profileStore[..k];
        profiles := profiles + [RowToJson(profileStore[k])];
        k := k + 1;
      }
      assert profileStore[..k] == profileStore;
    }

    /** Lines 353-373: the options are rebuilt from the widgets and the
        table, dropping anything else the file held. */
    method CollectOptions()
      modifies this`options
      ensures options == ProjectOptions(useDefaultProfile, splitProfileView, showIcons, hideNonXdg,
                                        iconSize, profileStore)
    {
      options := map[];
      options := options[UseDefaultProfile := JBool(useDefaultProfile)];
      options := options[SplitProfileView := JBool(splitProfileView)];
      options := options[ShowIcons := JBool(showIcons)];
      options := options[HideEntriesNotInXdgDir := JBool(hideNonXdg)];
      options := options[IconSize := JInt(iconSize)];
      var profiles := CollectProfiles();
      options := options[Profiles := JList(profiles)];
    }

    /** `__apply_cb`: checks the settings directory, rebuilds the options
        from the widgets and the table, writes them, and clears the flag
        only when the write succeeded. */
    method Apply(base: BaseDir, writeOk: bool) returns (result: ApplyResult)
      requires Valid()
      modifies this`options, this`configChanged, this`reloadSensitive, this`applySensitive
      ensures Valid()
      ensures base == BaseIsNotDirectory ==>
        result == NotADirectory && options == old(options) && configChanged == old(configChanged)
      ensures base == BaseMissing(false) ==>
        result == CannotCreateDirectory && options == old(options) && configChanged == old(configChanged)
      ensures (base == BaseIsDirectory || base == BaseMissing(true)) ==>
        && options == ProjectOptions(useDefaultProfile, splitProfileView, showIcons, hideNonXdg,
                                     iconSize, profileStore)
        && result == (if writeOk then Written(JObj(options)) else WriteFailed)
        && configChanged == (if writeOk then false else old(configChanged))
    {
      if base.BaseIsNotDirectory? {
        return NotADirectory;
      } else if base.BaseMissing? && !base.created {
        return CannotCreateDirectory;
      }
      CollectOptions();
      if !writeOk {
        return WriteFailed;
      }
      SetChanged(false);
      result := Written(JObj(options));
    }
  }

  /** One step of `RepairFrom` and `RepairedKeysFrom`. */
  lemma RepairStep(node: map<string, Json>, keys: seq<string>)
    requires keys != []
    ensures RepairFrom(node, keys) == RepairFrom(Fix(node, keys[0]), keys[1..])
    ensures RepairedKeysFrom(node, keys) ==
      (if NeedsRepair(node, keys[0], ExpectedType(keys[0])) then [keys[0]] else [])
      + RepairedKeysFrom(Fix(node, keys[0]), keys[1..])
  {
  }

  /** After the first `i` checks on `n0` have produced `n` and reported
      `keys`, the rest of the checks complete `RepairFrom` and
      `RepairedKeysFrom`. */
  ghost predicate RepairProgress(n0: map<string, Json>, n: map<string, Json>, keys: seq<string>, i: nat)
    requires i <= |CheckedKeys|
  {
    && RepairFrom(n0, CheckedKeys) == RepairFrom(n, CheckedKeys[i..])
    && RepairedKeysFrom(n0, CheckedKeys) == keys + RepairedKeysFrom(n, CheckedKeys[i..])
  }

  /** One more check keeps the progress relation. */
  lemma CheckAdvance(n0: map<string, Json>, n: map<string, Json>, keys: seq<string>, i: nat)
    requires i < |CheckedKeys| && RepairProgress(n0, n, keys, i)
    ensures var k := CheckedKeys[i];
      RepairProgress(n0, Fix(n, k), keys + (if NeedsRepair(n, k, ExpectedType(k)) then [k] else []), i + 1)
  {
    var ks := CheckedKeys[i..];
    var k := CheckedKeys[i];
    var x := if NeedsRepair(n, k, ExpectedType(k)) then [k] else [];
    RepairStep(n, ks);
    assert ks[0] == k && ks[1..] == CheckedKeys[i + 1..];
    assert keys + (x + RepairedKeysFrom(Fix(n, k), ks[1..])) == (keys + x) + RepairedKeysFrom(Fix(n, k), ks[1..]);
  }
}
