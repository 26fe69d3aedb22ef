/**
  The Shell extension (`extension.js`): the settings loader
  `_setup_values`, the ordered insertion `ab_insert` of the menus,
  `compare_versions`, and the name of the desktop file looked up in a web
  application's directory.
 */
module Extension {
  import opened Settings
  import opened Text
  import Setup

  // ---------------------------------------------------------------------
  // Settings: `_setup_values`

  /** What `v.constructor` names for a non-null JSON value; integers and
      fractions are both `Number`. */
  datatype Constructor = BooleanCtor | NumberCtor | StringCtor | ArrayCtor | ObjectCtor

  function ConstructorOf(v: Json): Constructor
    requires !v.JNull?
  {
    match v
    case JInt(_) => NumberCtor
    case JFloat(_) => NumberCtor
    case JBool(_) => BooleanCtor
    case JStr(_) => StringCtor
    case JList(_) => ArrayCtor
    case JObj(_) => ObjectCtor
  }

  /** `v[key]` on a non-null value: the member of an object, and `undefined`
      (`None`) for a missing member or a value that is not an object. */
  function Get(v: Json, key: string): Option<Json>
    requires !v.JNull?
  {
    if v.JObj? && key in v.fields then Some(v.fields[key]) else None
  }

  /** The negation of `x == undefined || x.constructor != c`: `==` also
      holds for `null`, which has no constructor. */
  predicate HasConstructor(x: Option<Json>, c: Constructor) {
    x.Some? && !x.value.JNull? && ConstructorOf(x.value) == c
  }

  // The `DEFAULT_*` constants.
  const DefaultIconSize := 16
  const DefaultShowIcons := true
  const DefaultUseDefaultProfile := true
  const DefaultSplitProfileView := true
  const DefaultHideEntriesNotInXdgDir := true

  /** `splice(i, FIELD_SIZE)` removes one entry. */
  const FieldSize := 1

  /** The constructor each checked key must have. */
  function ExpectedConstructor(key: string): Constructor {
    if key == IconSize then NumberCtor else if key == Profiles then ArrayCtor else BooleanCtor
  }

  /** The default the fix-up stores for each checked key. */
  function JsDefault(key: string): Json {
    if key == IconSize then JInt(DefaultIconSize)
    else if key == Profiles then JList([])
    else if key == UseDefaultProfile then JBool(DefaultUseDefaultProfile)
    else if key == SplitProfileView then JBool(DefaultSplitProfileView)
    else if key == ShowIcons then JBool(DefaultShowIcons)
    else JBool(DefaultHideEntriesNotInXdgDir)
  }

  /** The extension's defaults are the configurator's `DEFAULT_OPTIONS`. */
  lemma DefaultsAgree(key: string)
    requires key in Setup.CheckedKeys
    ensures JsDefault(key) == Setup.DefaultOptions()[key] == Setup.DefaultValue(key)
  {
    Setup.DefaultsWellTyped(key);
  }

  /** The object used when nothing could be read, or the file held `null`;
      it has no `hide-entries-not-in-xdg-dir`. */
  function FallbackOptions(): map<string, Json> {
    map[UseDefaultProfile := JBool(DefaultUseDefaultProfile),
        SplitProfileView := JBool(DefaultSplitProfileView),
        ShowIcons := JBool(DefaultShowIcons),
        IconSize := JInt(DefaultIconSize),
        Profiles := JList([])]
  }

  /** The condition of each `if` of lines 373-403: the value is missing, `null`
      or of another constructor. */
  predicate JsNeedsRepair(node: map<string, Json>, key: string) {
    key !in node || node[key].JNull? || ConstructorOf(node[key]) != ExpectedConstructor(key)
  }

  function JsFix(node: map<string, Json>, key: string): map<string, Json> {
    if JsNeedsRepair(node, key) then node[key := JsDefault(key)] else node
  }

  /** The options after the fix-ups for `keys`, in order. */
  function JsRepairFrom(node: map<string, Json>, keys: seq<string>): map<string, Json>
    decreases keys
  {
    if keys == [] then node else JsRepairFrom(JsFix(node, keys[0]), keys[1..])
  }

  /** After the fix-ups every key of `keys` keeps its value when it had
      its expected constructor and takes its default otherwise. */
  lemma {:induction false} JsRepairFromSpec(node: map<string, Json>, keys: seq<string>)
    ensures var r := JsRepairFrom(node, keys);
      forall k :: k in keys ==> k in r && r[k] == if JsNeedsRepair(node, k) then JsDefault(k) else node[k]
    decreases keys
  {
    if keys != [] {
      assert forall k :: k in keys[1..] ==> k in keys;
      JsRepairFromSpec(JsFix(node, keys[0]), keys[1..]);
      JsRepairKeepsOthers(JsFix(node, keys[0]), keys[1..]);
    }
  }

  /** Every default has the constructor its key expects. */
  lemma DefaultHasExpectedConstructor(key: string)
    ensures !JsDefault(key).JNull? && ConstructorOf(JsDefault(key)) == ExpectedConstructor(key)
  {
  }

  /** After the fix-ups no key of `keys` needs one any more. */
  lemma JsRepairTyped(node: map<string, Json>, keys: seq<string>)
    ensures forall k :: k in keys ==> !JsNeedsRepair(JsRepairFrom(node, keys), k)
  {
    JsRepairFromSpec(node, keys);
    forall k | k in keys ensures !JsNeedsRepair(JsRepairFrom(node, keys), k) {
      DefaultHasExpectedConstructor(k);
    }
  }

  /** The fix-ups touch no key outside `keys`. */
  lemma {:induction false} JsRepairKeepsOthers(node: map<string, Json>, keys: seq<string>)
    ensures var r := JsRepairFrom(node, keys);
      forall k :: k !in keys ==> (k in r <==> k in node) && (k in node ==> r[k] == node[k])
    decreases keys
  {
    if keys != [] {
      assert forall k :: k in keys[1..] ==> k in keys;
      JsRepairKeepsOthers(JsFix(node, keys[0]), keys[1..]);
    }
  }

  /** What `_setup_values` can process without throwing: the parsed root is
      an object, an array or `null` (the `== undefined` test lets `null`
      through to the fallback; on a primitive root reading
      `profiles.length` throws), and a `profiles` list holds no `null` entry
      (reading `name` of `null` throws; any other non-object entry just has
      no `name`). */
  predicate JsLoadable(outcome: ReadOutcome) {
    outcome.Parsed? ==>
      && (outcome.value.JObj? || outcome.value.JList? || outcome.value.JNull?)
      && (outcome.value.JObj? ==>
            var f := outcome.value.fields;
            Profiles in f && f[Profiles].JList? ==>
              forall k :: 0 <= k < |f[Profiles].items| ==> !f[Profiles].items[k].JNull?)
  }

  /** The named properties of `this.options` before the fix-ups: those of
      the parsed object, none for a parsed array (its elements sit at index
      properties, which no check reads), and the fallback object otherwise. */
  function JsBase(outcome: ReadOutcome): map<string, Json> {
    if outcome.Parsed? && outcome.value.JObj? then outcome.value.fields
    else if outcome.Parsed? && outcome.value.JList? then map[]
    else FallbackOptions()
  }

  function JsRepairedBase(outcome: ReadOutcome): (r: map<string, Json>)
    requires JsLoadable(outcome)
    ensures Profiles in r && r[Profiles].JList?
    ensures forall k :: 0 <= k < |r[Profiles].items| ==> !r[Profiles].items[k].JNull?
  {
    assert Profiles in Setup.CheckedKeys;
    JsRepairFromSpec(JsBase(outcome), Setup.CheckedKeys);
    JsRepairFrom(JsBase(outcome), Setup.CheckedKeys)
  }

  /** `this.options` after `_setup_values`. */
  function JsSetupOptions(outcome: ReadOutcome): map<string, Json>
    requires JsLoadable(outcome)
  {
    var r := JsRepairedBase(outcome);
    r[Profiles := JList(KeepValid(r[Profiles].items))]
  }

  /** The four flags are booleans, the icon size a number, the profiles a
      list of valid entries. */
  predicate JsWellTyped(opts: map<string, Json>) {
    && UseDefaultProfile in opts && opts[UseDefaultProfile].JBool?
    && SplitProfileView in opts && opts[SplitProfileView].JBool?
    && ShowIcons in opts && opts[ShowIcons].JBool?
    && HideEntriesNotInXdgDir in opts && opts[HideEntriesNotInXdgDir].JBool?
    && IconSize in opts && (opts[IconSize].JInt? || opts[IconSize].JFloat?)
    && Profiles in opts && opts[Profiles].JList? && AllValid(opts[Profiles].items)
  }

  /** `JsWellTyped` is: no checked key needs a fix-up, and every profile
      entry is valid. */
  lemma JsWellTypedByKey(opts: map<string, Json>)
    ensures JsWellTyped(opts) <==>
      && (forall k :: k in Setup.CheckedKeys ==> !JsNeedsRepair(opts, k))
      && Profiles in opts && opts[Profiles].JList? && AllValid(opts[Profiles].items)
  {
    if forall k :: k in Setup.CheckedKeys ==> !JsNeedsRepair(opts, k) {
      assert UseDefaultProfile in Setup.CheckedKeys && SplitProfileView in Setup.CheckedKeys;
      assert ShowIcons in Setup.CheckedKeys && HideEntriesNotInXdgDir in Setup.CheckedKeys;
      assert IconSize in Setup.CheckedKeys && Profiles in Setup.CheckedKeys;
    }
  }

  /** After `_setup_values` the four flags are booleans, the icon size a
      number and the profiles a list of valid entries. */
  lemma JsSetupWellTyped(outcome: ReadOutcome)
    requires JsLoadable(outcome)
    ensures JsWellTyped(JsSetupOptions(outcome))
  {
    assert Profiles in Setup.CheckedKeys;
    JsRepairTyped(JsBase(outcome), Setup.CheckedKeys);
    JsWellTypedByKey(JsSetupOptions(outcome));
  }

  /** A checked key that had its expected constructor keeps its value, any
      other takes its default; the profiles are exactly the valid entries of
      the list read, in order. */
  lemma JsSetupValues(outcome: ReadOutcome)
    requires JsLoadable(outcome)
    ensures forall k :: k in Setup.CheckedKeys ==> k in JsSetupOptions(outcome)
    ensures forall k :: k in Setup.CheckedKeys && k != Profiles ==>
      JsSetupOptions(outcome)[k] == if JsNeedsRepair(JsBase(outcome), k) then JsDefault(k) else JsBase(outcome)[k]
    ensures JsSetupOptions(outcome)[Profiles] ==
      if JsNeedsRepair(JsBase(outcome), Profiles) then JList([])
      else JList(KeepValid(JsBase(outcome)[Profiles].items))
    ensures forall k :: k !in Setup.CheckedKeys ==>
      (k in JsSetupOptions(outcome) <==> k in JsBase(outcome))
      && (k in JsBase(outcome) ==> JsSetupOptions(outcome)[k] == JsBase(outcome)[k])
  {
    JsRepairFromSpec(JsBase(outcome), Setup.CheckedKeys);
    JsRepairKeepsOthers(JsBase(outcome), Setup.CheckedKeys);
    assert Profiles in Setup.CheckedKeys;
    assert KeepValid([]) == [];
  }

  /** Fix-ups find nothing to do on keys that already have their expected
      constructors. */
  lemma {:induction false} JsRepairNothing(node: map<string, Json>, keys: seq<string>)
    requires forall k :: k in keys ==> !JsNeedsRepair(node, k)
    ensures JsRepairFrom(node, keys) == node
    decreases keys
  {
    if keys != [] {
      assert keys[0] in keys;
      assert forall k :: k in keys[1..] ==> k in keys;
      JsRepairNothing(node, keys[1..]);
    }
  }

  /** Fix-ups for `a + b` are those for `a` followed by those for `b`. */
  lemma {:induction false} JsRepairConcat(node: map<string, Json>, a: seq<string>, b: seq<string>)
    ensures JsRepairFrom(node, a + b) == JsRepairFrom(JsRepairFrom(node, a), b)
    decreases a
  {
    if a == [] {
      assert a + b == b;
    } else {
      assert (a + b)[1..] == a[1..] + b;
      JsRepairConcat(JsFix(node, a[0]), a[1..], b);
    }
  }

  /** Of the checked keys, the fallback object lacks exactly
      `hide-entries-not-in-xdg-dir`; the fix-ups add it with its default. */
  lemma FallbackRepaired()
    ensures JsRepairFrom(FallbackOptions(), Setup.CheckedKeys) ==
      FallbackOptions()[HideEntriesNotInXdgDir := JBool(DefaultHideEntriesNotInXdgDir)]
  {
    var f := FallbackOptions();
    var ck := Setup.CheckedKeys;
    var f' := f[HideEntriesNotInXdgDir := JBool(DefaultHideEntriesNotInXdgDir)];
    assert ck == ck[..3] + [ck[3]] + ck[4..];
    JsRepairConcat(f, ck[..3] + [ck[3]], ck[4..]);
    JsRepairConcat(f, ck[..3], [ck[3]]);
    assert ck[..3] == [UseDefaultProfile, SplitProfileView, ShowIcons];
    assert !JsNeedsRepair(f, UseDefaultProfile) && !JsNeedsRepair(f, SplitProfileView) && !JsNeedsRepair(f, ShowIcons);
    JsRepairNothing(f, ck[..3]);
    assert JsRepairFrom(f, [ck[3]]) == f';
    assert ck[4..] == [IconSize, Profiles];
    assert !JsNeedsRepair(f', IconSize) && !JsNeedsRepair(f', Profiles);
    JsRepairNothing(f', ck[4..]);
  }

  /** A missing, unreadable or unparsable file, or one holding `null`, gives
      the configurator's `DEFAULT_OPTIONS`: the fix-up supplies the
      `hide-entries-not-in-xdg-dir` the fallback object lacks. */
  lemma JsReadErrorGivesDefaults(outcome: ReadOutcome)
    requires !outcome.Parsed? || outcome.value.JNull?
    ensures JsLoadable(outcome)
    ensures JsSetupOptions(outcome) == Setup.DefaultOptions()
  {
    FallbackRepaired();
    var f' := FallbackOptions()[HideEntriesNotInXdgDir := JBool(DefaultHideEntriesNotInXdgDir)];
    assert JsRepairedBase(outcome) == f';
    assert KeepValid([]) == [];
    assert f'[Profiles := JList([])] == f';
  }

  /** A parsed array as root passes the `== undefined` test; each fix-up
      then finds its key missing and stores its default as a property, and
      the profile loop has nothing to examine: the options are the
      configurator's `DEFAULT_OPTIONS`. */
  lemma JsArrayRootGivesDefaults(items: seq<Json>)
    ensures JsLoadable(Parsed(JList(items)))
    ensures JsSetupOptions(Parsed(JList(items))) == Setup.DefaultOptions()
  {
    var o := Parsed(JList(items));
    var ck := Setup.CheckedKeys;
    assert JsBase(o) == map[];
    JsRepairFromSpec(map[], ck);
    JsRepairKeepsOthers(map[], ck);
    var r := JsRepairedBase(o);
    forall k | k in ck ensures r[k] == Setup.DefaultOptions()[k] {
      DefaultsAgree(k);
    }
    assert r.Keys == Setup.DefaultOptions().Keys;
    assert r == Setup.DefaultOptions();
    assert KeepValid([]) == [];
    assert r[Profiles := JList([])] == r;
  }

  /** The four flags and the profiles pass the same checks in both
      components; the icon size does too, except that the extension also
      accepts a number written as a float. */
  lemma NeedsRepairAgrees(node: map<string, Json>, key: string)
    requires key in Setup.CheckedKeys
    requires key == IconSize && key in node ==> !node[key].JFloat?
    ensures JsNeedsRepair(node, key) == Setup.NeedsRepair(node, key, Setup.ExpectedType(key))
  {
  }

  /** With no icon size written as a float, both components repair alike. */
  lemma {:induction false} RepairAgrees(node: map<string, Json>, keys: seq<string>)
    requires forall k :: k in keys ==> k in Setup.CheckedKeys
    requires IconSize in node ==> !node[IconSize].JFloat?
    ensures JsRepairFrom(node, keys) == Setup.RepairFrom(node, keys)
    decreases keys
  {
    if keys != [] {
      var k0 := keys[0];
      NeedsRepairAgrees(node, k0);
      DefaultsAgree(k0);
      assert JsFix(node, k0) == Setup.Fix(node, k0);
      assert forall k :: k in keys[1..] ==> k in keys;
      RepairAgrees(JsFix(node, k0), keys[1..]);
    }
  }

  /** Where the configurator can load a parsed document and its icon size is
      not written as a float, the extension reads the same options from the
      same parsed value. */
  lemma LoadersAgree(outcome: ReadOutcome)
    requires Setup.Loadable(outcome)
    requires outcome.Parsed? && IconSize in outcome.value.fields ==> !outcome.value.fields[IconSize].JFloat?
    ensures JsLoadable(outcome)
    ensures JsSetupOptions(outcome) == Setup.LoadedOptions(outcome)
  {
    if outcome.Parsed? {
      RepairAgrees(outcome.value.fields, Setup.CheckedKeys);
    } else {
      JsReadErrorGivesDefaults(outcome);
      Setup.ReadErrorGivesDefaults(outcome);
    }
  }

  /** An icon size written as a float (with a `.` or an exponent, such as
      `32.0`) is where the components part: Python's `json.loads` makes it a
      `float`, so the configurator resets it to 16, while for the extension it
      is a `Number` and is kept. */
  lemma FloatIconSizeKeptOnlyByExtension()
    ensures var o := Parsed(JObj(map[IconSize := JFloat(32.0)]));
      && Setup.Loadable(o) && JsLoadable(o)
      && IconSize in Setup.LoadedOptions(o) && IconSize in JsSetupOptions(o)
      && Setup.LoadedOptions(o)[IconSize] == JInt(16)
      && JsSetupOptions(o)[IconSize] == JFloat(32.0)
  {
    var o := Parsed(JObj(map[IconSize := JFloat(32.0)]));
    Setup.LoadedOptionsSpec(o);
    JsSetupValues(o);
    Setup.DefaultsWellTyped(IconSize);
  }

  /** The condition of line 407: the entry lacks a string `name` or a
      string `directory`; on a non-null entry it is exactly "not valid". */
  predicate EntryRejected(e: Json)
    requires !e.JNull?
  {
    || !HasConstructor(Get(e, ProfileName), StringCtor)
    || !HasConstructor(Get(e, ProfileDirectory), StringCtor)
  }

  lemma EntryRejectedIsInvalid(e: Json)
    requires !e.JNull?
    ensures EntryRejected(e) <==> !ValidProfile(e)
  {
  }

  /** The part of the extension object that `_setup_values` fills. */
  class WebApps {
    var options: map<string, Json>

    constructor ()
      ensures options == map[]
    {
      options := map[];
    }

    /** `_setup_values`, given what reading the file produced. */
    method SetupValues(outcome: ReadOutcome)
      requires JsLoadable(outcome)
      modifies this`options
      ensures options == JsSetupOptions(outcome)
    {
      var parsed: Option<Json> := None;
      if outcome.Parsed? {
        parsed := Some(outcome.value);
      }
      if parsed.None? || parsed.value.JNull? {
        options := FallbackOptions();
      } else if parsed.value.JList? {
        options := map[];
      } else {
        options := parsed.value.fields;
      }
      FixTypes();
      ghost var r := JsRepairedBase(outcome);
      DropInvalidProfiles();
    }

    /** The `i`-th fix-up of lines 373-403: a value that is missing, `null`
        or of another constructor is replaced by the default. */
    method FixKey(i: nat, ghost n0: map<string, Json>)
      requires i < |Setup.CheckedKeys| && JsProgress(n0, options, i)
      modifies this`options
      ensures options == JsFix(old(options), Setup.CheckedKeys[i])
      ensures JsProgress(n0, options, i + 1)
    {
      var key := Setup.CheckedKeys[i];
      JsAdvance(n0, options, i);
      if !HasConstructor(Get(JObj(options), key), ExpectedConstructor(key)) {
        options := options[key := JsDefault(key)];
      }
    }

    /** The six fix-ups of lines 373-403, in order. */
    method FixTypes()
      modifies this`options
      ensures options == JsRepairFrom(old(options), Setup.CheckedKeys)
    {
      ghost var n0 := options;
      assert Setup.CheckedKeys[0..] == Setup.CheckedKeys;
      FixKey(0, n0);
      FixKey(1, n0);
      FixKey(2, n0);
      FixKey(3, n0);
      FixKey(4, n0);
      FixKey(5, n0);
      assert Setup.CheckedKeys[6..] == [];
    }

    /** The loop of lines 405-417: an entry without a string `name` and a
        string `directory` is spliced out of the list and the next one takes
        its index; otherwise the index moves on. The survivors are
        `KeepValid` of the list, and nothing else changes. */
    method DropInvalidProfiles()
      requires Profiles in options && options[Profiles].JList?
      requires forall k :: 0 <= k < |options[Profiles].items| ==> !options[Profiles].items[k].JNull?
      modifies this`options
      ensures options == old(options)[Profiles := JList(KeepValid(old(options)[Profiles].items))]
    {
      ghost var original := options[Profiles].items;
      var ps := options[Profiles].items;
      var i: nat := 0;
      ghost var j: nat := 0;
      assert original[..0] == [] && original[0..] == original;
      while i < |ps|
        invariant SpliceProgress(original, ps, i, j)
        invariant options == old(options)
        decreases |original| - j
      {
        ps, i := ExamineProfile(ps, i, original, j);
        j := j + 1;
      }
      assert j == |original| && original[j..] == [] && original[..j] == original;
      assert ps == KeepValid(original);
      options := options[Profiles := JList(ps)];
    }
  }

  /** How far the loop of lines 405-417 has got: `j` entries of `original`
      examined, `ps` the list with the invalid ones among them spliced out,
      and `i` the index of the next entry in `ps`. */
  ghost predicate SpliceProgress(original: seq<Json>, ps: seq<Json>, i: nat, j: nat) {
    && j <= |original|
    && i == |KeepValid(original[..j])|
    && ps == KeepValid(original[..j]) + original[j..]
  }

  /** One iteration of the loop of lines 405-417. */
  method ExamineProfile(ps: seq<Json>, i: nat, ghost original: seq<Json>, ghost j: nat)
    returns (ps': seq<Json>, i': nat)
    requires j < |original| && SpliceProgress(original, ps, i, j)
    requires forall k :: 0 <= k < |original| ==> !original[k].JNull?
    ensures SpliceProgress(original, ps', i', j + 1)
  {
    DropStep(original, j);
    assert ps[i] == original[j];
    EntryRejectedIsInvalid(ps[i]);
    if EntryRejected(ps[i]) {
      ps', i' := ps[..i] + ps[i + FieldSize..], i;
    } else {
      ps', i' := ps, i + 1;
    }
  }

  /** After the first `i` fix-ups turned `n0` into `n`, the remaining ones
      complete `JsRepairFrom`. */
  ghost predicate JsProgress(n0: map<string, Json>, n: map<string, Json>, i: nat)
    requires i <= |Setup.CheckedKeys|
  {
    JsRepairFrom(n0, Setup.CheckedKeys) == JsRepairFrom(n, Setup.CheckedKeys[i..])
  }

  /** One more fix-up keeps the progress relation. */
  lemma JsAdvance(n0: map<string, Json>, n: map<string, Json>, i: nat)
    requires i < |Setup.CheckedKeys| && JsProgress(n0, n, i)
    ensures JsProgress(n0, JsFix(n, Setup.CheckedKeys[i]), i + 1)
  {
    var ks := Setup.CheckedKeys[i..];
    assert ks[1..] == Setup.CheckedKeys[i + 1..];
  }

  // ---------------------------------------------------------------------
  // Menus: `ab_insert`

  /** A menu item as `ab_insert` sees it: whether it is a submenu (a
      profile) or an entry (a web application), and its label. */
  datatype MenuItem = MenuItem(isSubmenu: bool, text: string)

  /** The sort key: the lower-cased label. */
  function Key(m: MenuItem): string {
    Lower(m.text)
  }

  /** The keys of `s[lo..hi]` are in non-decreasing order. */
  predicate SortedRange(s: seq<MenuItem>, lo: int, hi: int)
    requires 0 <= lo <= hi <= |s|
  {
    forall a, b :: lo <= a < b < hi ==> LexLe(Key(s[a]), Key(s[b]))
  }

  /** `pos` is a place for key `x` in `s[lo..hi]`: no key before it is after
      `x` and no key from it on is before `x`. */
  predicate SlotFits(s: seq<MenuItem>, lo: int, hi: int, pos: int, x: string)
    requires 0 <= lo <= hi <= |s|
  {
    && lo <= pos <= hi
    && (forall a :: lo <= a < pos ==> LexLe(Key(s[a]), x))
    && (forall a :: pos <= a < hi ==> LexLe(x, Key(s[a])))
  }

  /** `addMenuItem(entry, pos)`: `e` lands at `pos`, the items before stay,
      the items from `pos` on move up by one. */
  function Insert(s: seq<MenuItem>, pos: int, e: MenuItem): (r: seq<MenuItem>)
    requires 0 <= pos <= |s|
    ensures |r| == |s| + 1 && r[pos] == e
    ensures forall k :: 0 <= k < pos ==> r[k] == s[k]
    ensures forall k :: pos < k < |r| ==> r[k] == s[k - 1]
  {
    s[..pos] + [e] + s[pos..]
  }

  /** Submenus first: the first `n` items are exactly the submenus. */
  predicate SplitShape(s: seq<MenuItem>, n: int) {
    0 <= n <= |s| && forall k :: 0 <= k < |s| ==> (s[k].isSubmenu <==> k < n)
  }

  /** How a menu filled by `ab_insert` is arranged: split, submenus first
      and each group sorted; otherwise sorted as a whole. */
  predicate ArrangedItems(s: seq<MenuItem>, n: int, split: bool) {
    if split then SplitShape(s, n) && SortedRange(s, 0, n) && SortedRange(s, n, |s|)
    else SortedRange(s, 0, |s|)
  }

  /** The part of a non-empty menu that `ab_insert` searches, for the kind of
      the new item, given the two counters (lines 89-109). */
  function RegionLo(split: bool, isSubmenu: bool, submenus: int): int {
    if split && !isSubmenu then submenus else 0
  }

  function RegionHi(split: bool, isSubmenu: bool, submenus: int, entries: int): int {
    if split && isSubmenu then submenus else submenus + entries
  }

  /** In a sorted range, a position is a place for `x` as soon as its two
      neighbours are. */
  lemma SlotFromNeighbours(s: seq<MenuItem>, lo: int, hi: int, pos: int, x: string)
    requires 0 <= lo <= pos <= hi <= |s| && SortedRange(s, lo, hi)
    requires pos > lo ==> LexLe(Key(s[pos - 1]), x)
    requires pos < hi ==> LexLe(x, Key(s[pos]))
    ensures SlotFits(s, lo, hi, pos, x)
  {
    forall a | lo <= a < pos - 1 ensures LexLe(Key(s[a]), x) {
      LexLeTransitive(Key(s[a]), Key(s[pos - 1]), x);
    }
    forall a | pos < a < hi ensures LexLe(x, Key(s[a])) {
      LexLeTransitive(x, Key(s[pos]), Key(s[a]));
    }
  }

  /** Inserting at a fitting place keeps a range sorted; a sorted range
      entirely after the insertion point moves up by one, one entirely before
      it stays. */
  lemma InsertKeepsSorted(s: seq<MenuItem>, lo: int, hi: int, pos: int, e: MenuItem)
    requires 0 <= lo <= hi <= |s| && SortedRange(s, lo, hi)
    ensures SlotFits(s, lo, hi, pos, Key(e)) ==> SortedRange(Insert(s, pos, e), lo, hi + 1)
    ensures 0 <= pos <= lo ==> SortedRange(Insert(s, pos, e), lo + 1, hi + 1)
    ensures hi <= pos <= |s| ==> SortedRange(Insert(s, pos, e), lo, hi)
  {
    if 0 <= pos <= |s| {
      var r := Insert(s, pos, e);
      if SlotFits(s, lo, hi, pos, Key(e)) {
        forall a, b | lo <= a < b < hi + 1 ensures LexLe(Key(r[a]), Key(r[b])) {
          if b < pos {
          } else if b == pos {
          } else if a < pos {
            assert r[a] == s[a] && r[b] == s[b - 1];
          } else if a == pos {
            assert r[b] == s[b - 1];
          } else {
            assert r[a] == s[a - 1] && r[b] == s[b - 1];
          }
        }
      }
      if pos <= lo {
        forall a, b | lo + 1 <= a < b < hi + 1 ensures LexLe(Key(r[a]), Key(r[b])) {
          assert r[a] == s[a - 1] && r[b] == s[b - 1];
        }
      }
    }
  }

  /** An insertion at a fitting place of its group keeps the menu arranged. */
  lemma ArrangedAfterInsert(s: seq<MenuItem>, n: int, split: bool, pos: int, e: MenuItem)
    requires s != [] && 0 <= n <= |s| && ArrangedItems(s, n, split)
    requires var lo, hi := RegionLo(split, e.isSubmenu, n), RegionHi(split, e.isSubmenu, n, |s| - n);
      SlotFits(s, lo, hi, pos, Key(e))
    ensures ArrangedItems(Insert(s, pos, e), n + (if e.isSubmenu then 1 else 0), split)
  {
    var r := Insert(s, pos, e);
    if !split {
      InsertKeepsSorted(s, 0, |s|, pos, e);
    } else if e.isSubmenu {
      InsertKeepsSorted(s, 0, n, pos, e);
      InsertKeepsSorted(s, n, |s|, pos, e);
    } else {
      InsertKeepsSorted(s, 0, n, pos, e);
      InsertKeepsSorted(s, n, |s|, pos, e);
    }
  }

  /** A popup menu with the two counters `ab_insert` keeps in it. */
  class PopupMenu {
    var items: seq<MenuItem>
    var submenus: int
    var entries: int

    /** A non-empty menu holds as many items as the two counters add up to;
        the counters of an empty menu are not read. */
    ghost predicate Valid()
      reads this
    {
      items != [] ==> 0 <= submenus && 0 <= entries && submenus + entries == |items|
    }

    ghost predicate Arranged(split: bool)
      reads this
    {
      ArrangedItems(items, if items == [] then 0 else submenus, split)
    }

    constructor ()
      ensures items == [] && Valid()
    {
      items := [];
      submenus := 0;
      entries := 0;
    }

    /** `removeAll()`: the items go, the counters stay as they were. */
    method RemoveAll()
      modifies this`items
      ensures items == [] && Valid()
    {
      items := [];
    }

    /** The counter update and `addMenuItem(entry, pos)` that end every path
        of `ab_insert`. */
    method AddCounted(e: MenuItem, pos: nat)
      requires pos <= |items|
      modifies this
      ensures items == Insert(old(items), pos, e)
      ensures submenus == old(submenus) + (if e.isSubmenu then 1 else 0)
      ensures entries == old(entries) + (if e.isSubmenu then 0 else 1)
    {
      if e.isSubmenu {
        submenus := submenus + 1;
      } else {
        entries := entries + 1;
      }
      items := Insert(items, pos, e);
    }

    /** The search of lines 131-146 over `items[start0..end0]`, whose first
        key is not after `cmp` and whose last key is not before it. When that
        range is sorted the slot returned fits `cmp`. */
    method Locate(cmp: string, start0: nat, end0: nat) returns (slot: nat)
      requires start0 <= end0 < |items|
      requires LexLe(Key(items[start0]), cmp) && LexLe(cmp, Key(items[end0]))
      ensures start0 <= slot <= end0
      ensures SortedRange(items, start0, end0 + 1) ==> SlotFits(items, start0, end0 + 1, slot, cmp)
    {
      var start, end := start0, end0;
      while start < end && end - start > 1
        invariant start0 <= start <= end <= end0
        invariant LexLe(Key(items[start]), cmp) && LexLe(cmp, Key(items[end]))
        decreases end - start
      {
        var mid := (start + end) / 2;
        if LexLess(cmp, Key(items[mid])) {
          LexLessAsymmetric(cmp, Key(items[mid]));
          end := mid;
        } else {
          start := mid;
        }
      }
      slot := start;
      if LexLess(Key(items[slot]), cmp) {
        slot := slot + 1;
      }
      if SortedRange(items, start0, end0 + 1) {
        if slot == start && start > start0 {
          LexLeTransitive(Key(items[start - 1]), Key(items[start]), cmp);
        }
        if slot == start + 1 {
          LexLessAsymmetric(Key(items[start]), cmp);
        }
        SlotFromNeighbours(items, start0, end0 + 1, slot, cmp);
      }
    }

    /** Lines 114-147 on the group `items[start..end]`: before its first
        item when the new key is smaller, after its last when it is larger,
        and otherwise where the search puts it. The place is within the group
        or just after it, and it fits the key when the group is sorted. */
    method Place(e: MenuItem, start: nat, end: nat) returns (slot: nat)
      requires start <= end < |items|
      ensures start <= slot <= end + 1
      ensures SortedRange(items, start, end + 1) ==> SlotFits(items, start, end + 1, slot, Key(e))
    {
      var cmp := Lower(e.text);
      if LexLess(cmp, Key(items[start])) {
        if SortedRange(items, start, end + 1) {
          LexLessAsymmetric(cmp, Key(items[start]));
          SlotFromNeighbours(items, start, end + 1, start, cmp);
        }
        return start;
      }
      if LexLess(Key(items[end]), cmp) {
        if SortedRange(items, start, end + 1) {
          LexLessAsymmetric(Key(items[end]), cmp);
          SlotFromNeighbours(items, start, end + 1, end + 1, cmp);
        }
        return end + 1;
      }
      slot := Locate(cmp, start, end);
    }

    /** `ab_insert(entry, split)` (lines 80-148): the item is inserted once,
        at a position within the group of its kind (the whole menu when not
        splitting), the counter of its kind goes up (after a reset when the
        menu was empty), and a sorted group stays sorted: in a sorted group
        the position is one where the lower-cased label fits. */
    method AbInsert(e: MenuItem, split: bool) returns (ghost pos: nat)
      requires Valid()
      modifies this
      ensures Valid()
      ensures pos <= |old(items)| && items == Insert(old(items), pos, e)
      ensures submenus == (if old(items) == [] then 0 else old(submenus)) + (if e.isSubmenu then 1 else 0)
      ensures entries == (if old(items) == [] then 0 else old(entries)) + (if e.isSubmenu then 0 else 1)
      ensures old(items) != [] ==>
        var lo, hi := RegionLo(split, e.isSubmenu, old(submenus)), RegionHi(split, e.isSubmenu, old(submenus), old(entries));
        && lo <= pos <= hi
        && (SortedRange(old(items), lo, hi) ==> SlotFits(old(items), lo, hi, pos, Key(e)))
      ensures old(Arranged(split)) ==> Arranged(split)
    {
      if items == [] {
        submenus, entries := 0, 0;
        AddCounted(e, |items|);
        pos := 0;
        return;
      }
      ghost var s, n := items, submenus;
      ghost var lo, hi := RegionLo(split, e.isSubmenu, submenus), RegionHi(split, e.isSubmenu, submenus, entries);
      var start, end := 0, submenus + entries - 1;
      if split {
        if e.isSubmenu {
          if submenus == 0 {
            AddCounted(e, 0);
            pos := 0;
            Settle(s, n, split, pos, e);
            return;
          }
          start, end := 0, submenus - 1;
        } else {
          if entries == 0 {
            AddCounted(e, submenus);
            pos := submenus;
            Settle(s, n, split, pos, e);
            return;
          }
          start, end := submenus, submenus + entries - 1;
        }
      }
      var slot := Place(e, start, end);
      AddCounted(e, slot);
      pos := slot;
      Settle(s, n, split, pos, e);
    }
  }

  /** The arrangement after an insertion that fits its group, or whatever
      the group held when it did not. */
  lemma Settle(s: seq<MenuItem>, n: int, split: bool, pos: int, e: MenuItem)
    requires s != [] && 0 <= n <= |s|
    requires var lo, hi := RegionLo(split, e.isSubmenu, n), RegionHi(split, e.isSubmenu, n, |s| - n);
      lo <= pos <= hi && (SortedRange(s, lo, hi) ==> SlotFits(s, lo, hi, pos, Key(e)))
    ensures ArrangedItems(s, n, split) ==> ArrangedItems(Insert(s, pos, e), n + (if e.isSubmenu then 1 else 0), split)
  {
    if ArrangedItems(s, n, split) {
      ArrangedAfterInsert(s, n, split, pos, e);
    }
  }

  // ---------------------------------------------------------------------
  // Versions: `compare_versions`

  /** `compare_versions(a, b)` on numeric components: the difference of the
      first pair of components that differ within the shorter length, and
      otherwise the difference of the lengths. */
  function VersionDiff(a: seq<int>, b: seq<int>): int
    decreases |a|
  {
    if a == [] || b == [] then |a| - |b|
    else if a[0] == b[0] then VersionDiff(a[1..], b[1..])
    else a[0] - b[0]
  }

  /** Lines 569-579: the loop runs over the indices of the shorter version
      and returns at the first difference. */
  method CompareVersions(a: seq<int>, b: seq<int>) returns (r: int)
    ensures r == VersionDiff(a, b)
  {
    var c := if |a| < |b| then a else b;
    var i := 0;
    while i < |c|
      invariant 0 <= i <= |c| && |c| == (if |a| < |b| then |a| else |b|)
      invariant VersionDiff(a, b) == VersionDiff(a[i..], b[i..])
    {
      if a[i] != b[i] {
        return a[i] - b[i];
      }
      assert a[i..][1..] == a[i + 1..] && b[i..][1..] == b[i + 1..];
      i := i + 1;
    }
    return |a| - |b|;
  }

  /** Versions compare equal exactly when they are the same. */
  lemma {:induction false} VersionDiffZeroIffEqual(a: seq<int>, b: seq<int>)
    ensures VersionDiff(a, b) == 0 <==> a == b
    decreases |a|
  {
    if a != [] && b != [] && a[0] == b[0] {
      VersionDiffZeroIffEqual(a[1..], b[1..]);
      assert a == [a[0]] + a[1..] && b == [b[0]] + b[1..];
    }
  }

  /** Swapping the arguments negates the result. */
  lemma {:induction false} VersionDiffAntisymmetric(a: seq<int>, b: seq<int>)
    ensures VersionDiff(a, b) == -VersionDiff(b, a)
    decreases |a|
  {
    if a != [] && b != [] && a[0] == b[0] {
      VersionDiffAntisymmetric(a[1..], b[1..]);
    }
  }

  /** The first differing component decides. */
  lemma {:induction false} FirstDifferenceDecides(a: seq<int>, b: seq<int>, k: nat)
    requires k < |a| && k < |b| && a[..k] == b[..k] && a[k] != b[k]
    ensures VersionDiff(a, b) == a[k] - b[k]
    decreases k
  {
    if k > 0 {
      assert a[0] == a[..k][0] == b[..k][0] == b[0];
      assert a[1..][..k - 1] == a[..k][1..] && b[1..][..k - 1] == b[..k][1..];
      FirstDifferenceDecides(a[1..], b[1..], k - 1);
    }
  }

  /** A version that is a prefix of the other compares by length: a proper
      prefix comes first. */
  lemma {:induction false} PrefixComparesByLength(a: seq<int>, b: seq<int>)
    requires |a| <= |b| && a == b[..|a|]
    ensures VersionDiff(a, b) == |a| - |b|
    decreases |a|
  {
    if a != [] {
      assert a[0] == b[0];
      assert a[1..] == b[1..][..|a| - 1];
      PrefixComparesByLength(a[1..], b[1..]);
    }
  }

  const NewApiVersion: seq<int> := [3, 3, 0]

  /** `init_localizations` takes the older metadata layout when the shell
      version compares below 3.3.0. */
  predicate UsesOldLayout(version: seq<int>) {
    VersionDiff(version, NewApiVersion) < 0
  }

  /** For a three-part version the older layout is taken exactly for the
      releases before 3.3. */
  lemma OldLayoutBefore33(v: seq<int>)
    requires |v| == 3 && v[2] >= 0
    ensures UsesOldLayout(v) <==> v[0] < 3 || (v[0] == 3 && v[1] < 3)
  {
    var w := NewApiVersion;
    if v[0] != w[0] {
      FirstDifferenceDecides(v, w, 0);
    } else if v[1] != w[1] {
      assert v[..1] == w[..1];
      FirstDifferenceDecides(v, w, 1);
    } else if v[2] != w[2] {
      assert v[..2] == w[..2];
      FirstDifferenceDecides(v, w, 2);
    } else {
      assert v == w;
      VersionDiffZeroIffEqual(v, w);
    }
  }

  // ---------------------------------------------------------------------
  // Desktop entries in a profile directory

  const AppPrefix := "app-"
  const AppName := "epiphany"
  const DirPrefix := AppPrefix + AppName + "-"
  const EntryExt := ".desktop"

  /** Lines 479-499: a member `element` of a profile directory is looked at
      only when its name starts with `app-epiphany-` and it is a directory;
      then the desktop file searched in it is its name without `app-`,
      followed by `.desktop`. */
  function EntryFileName(element: string, isDirectory: bool): (r: Option<string>)
    ensures r.Some? <==> HasPrefix(element, DirPrefix) && isDirectory
    ensures r.Some? ==> HasPrefix(r.value, AppName + "-") && HasSuffix(r.value, EntryExt)
    ensures r.Some? ==> |r.value| == |element| - |AppPrefix| + |EntryExt|
  {
    if !HasPrefix(element, DirPrefix) then None
    else if !isDirectory then None
    else
      var name := element[|AppPrefix|..] + EntryExt;
      assert DirPrefix[|AppPrefix|..] == AppName + "-";
      assert name[..|AppName + "-"|] == element[..|DirPrefix|][|AppPrefix|..];
      assert name[|name| - |EntryExt|..] == EntryExt;
      Some(name)
  }

  /** Putting `app-` back and dropping `.desktop` recovers the directory. */
  lemma EntryFileNameInverse(element: string)
    requires HasPrefix(element, DirPrefix)
    ensures var n := EntryFileName(element, true).value;
      AppPrefix + n[..|n| - |EntryExt|] == element
  {
    var n := EntryFileName(element, true).value;
    assert n[..|n| - |EntryExt|] == element[|AppPrefix|..];
    assert element[..|AppPrefix|] == AppPrefix by {
      assert element[..|DirPrefix|][..|AppPrefix|] == DirPrefix[..|AppPrefix|];
    }
    assert element == element[..|AppPrefix|] + element[|AppPrefix|..];
  }

  /** Different directories look for different desktop files. */
  lemma EntryFileNameInjective(e1: string, e2: string)
    requires EntryFileName(e1, true).Some? && EntryFileName(e2, true) == EntryFileName(e1, true)
    ensures e1 == e2
  {
    EntryFileNameInverse(e1);
    EntryFileNameInverse(e2);
  }
}
