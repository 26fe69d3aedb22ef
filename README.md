# Web Application Menu: settings repair, menu ordering and helpers

This project models the logic of the GNOME Shell "Web Application Menu"
extension in Dafny and proves properties of it. The extension has two parts:

- `webappmenu-setup.py` is the GTK configurator. It reads a JSON settings
  file. It repairs the file's six keys and drops invalid profile entries. It
  shows the result in its widgets and a profile table. It tracks an "unsaved
  changes" flag that drives the Reload and Apply buttons. Edits, new and
  deleted profiles, browsing for a directory and every switch or spin
  change raise that flag. It writes the widgets' state back on Apply.
- `extension.js` is the Shell extension. It reads the same settings file
  with its own loader, `_setup_values`. It keeps its menus sorted with the
  binary-search insertion `ab_insert`. It picks the metadata layout by
  comparing shell versions with `compare_versions`. It derives the name of
  each web application's desktop file from the name of its directory.

The files are:

- `settings.dfy` (module `Settings`): the parsed JSON value, the read
  outcome, the settings keys and the profile filter both loaders share.
- `text.dfy` (module `Text`): Python's `str.strip()`, ASCII lower-casing and
  JavaScript's string order.
- `setup.dfy` (module `Setup`): the configurator. It holds the repair
  specification functions and the class `Configurator`, whose methods
  update the window state.
- `extension.dfy` (module `Extension`): the extension. It holds the loader
  as class `WebApps`, the menu as class `PopupMenu` with its two counters,
  `compare_versions` and the desktop-file name. It also proves that both
  loaders agree.

Each loader is specified by functions on values: `Setup.LoadedOptions` and
`Setup.LoadReportOf`, and `Extension.JsSetupOptions`. Loops that update
state are methods proved against those functions. The lemmas state the
properties the functions have.

## Model

| member | source | states |
|---|---|---|
| Settings.ReadSettingsFile | src/webappmenu-setup.py:823-843 | The outcome is not-found exactly when the file is missing. It is unreadable exactly when the file exists but cannot be loaded. It is bad-format exactly when loading worked but decoding or parsing failed. Otherwise it carries the parsed value. |
| Settings.ValidProfile | src/webappmenu-setup.py:793-795 | A profile entry passes both `check_and_set` calls exactly when it is an object whose `name` and `directory` are strings. The extension's test at `extension.js` lines 407-412 rejects exactly the same entries (`Extension.EntryRejectedIsInvalid`). |
| Settings.KeepValid | src/webappmenu-setup.py:787-800 | The surviving profile entries are no more than the input, and each has a string `name` and a string `directory`. |
| Settings.DroppedPositions | src/webappmenu-setup.py:787-800 | Exactly one position is reported per dropped entry: the report's length plus the survivor count is the input length. |
| Settings.DroppedPositionsIncreasing | src/webappmenu-setup.py:787-800 | Reported positions lie in `1..n` and are strictly increasing. |
| Settings.DroppedPositionsExact | src/webappmenu-setup.py:787-800 | A position is reported if and only if the entry at that 1-based position is invalid. |
| Settings.KeepValidKeepsOrder | src/webappmenu-setup.py:787-800 | Every valid entry survives. Its new index is the number of valid entries before it, so survivors keep their relative order. |
| Settings.KeepValidIsSubMultiset | src/webappmenu-setup.py:787-800 | The survivors are a sub-multiset of the input: no entry is invented or duplicated. |
| Settings.KeepValidOfValid | src/webappmenu-setup.py:787-800 | A list of valid entries passes unchanged and nothing is reported. |
| Settings.KeepValidSnoc | src/webappmenu-setup.py:787-800 | Adding one entry at the end adds it to the survivors when it is valid, and adds its position to the report otherwise. |
| Settings.DropStep | src/webappmenu-setup.py:792-799 | One loop step examines the entry at the current index, which is the next original entry. Deleting it when invalid, or stepping over it when valid, gives the list for one more examined entry. |
| Text.Strip | src/webappmenu-setup.py:265 | `str.strip()` returns the slice of the input between its leading and trailing white space. The result neither starts nor ends with white space. It is empty exactly when the input is all white space. Everything cut off is white space. |
| Text.IsSpace | src/webappmenu-setup.py:265 | The characters `str.strip()` removes: the ASCII white space and separators, and the Unicode space characters Python counts as white space. |
| Text.StripIdempotent | src/webappmenu-setup.py:271 | Stripping twice is stripping once. This is why a stored cell compares equal to its stripped value. |
| Text.StrippedIsFixpoint | src/webappmenu-setup.py:271 | A string without white space at either end is its own strip. |
| Text.LowerChar | src/extension.js:115 | `toLowerCase` on one character: no upper-case ASCII letter remains, and characters other than `A`-`Z` are kept. |
| Text.Lower | src/extension.js:115 | Lower-casing keeps the length and maps each character by `LowerChar`. |
| Text.LexLess | src/extension.js:117-143 | JavaScript's `<` on strings: the first differing character decides, and a proper prefix is smaller. `>` is the same relation with the arguments swapped. |
| Text.LexLe | src/extension.js:134-138 | "Not after": `b < a` does not hold. The `else` branch of the binary search takes this case. |
| Text.LexLessIrreflexive | src/extension.js:117 | No label is `<` itself. |
| Text.LexLessTransitive | src/extension.js:117 | JavaScript's `<` on strings is transitive. |
| Text.LexLessTotal | src/extension.js:117-127 | Any two labels are equal or ordered one way or the other. |
| Text.LexLessAsymmetric | src/extension.js:123 | `a < b` excludes `b < a`, so `>` is the converse of `<`. |
| Text.LexLeTransitive | src/extension.js:134 | "Not after" is transitive. The binary search depends on this. |
| Setup.DefaultOptions | src/webappmenu-setup.py:79-86 | `DEFAULT_OPTIONS`: icon size 16, all four flags true, and no profiles. |
| Setup.ExpectedType | src/webappmenu-setup.py:760-779 | The type name each checked key must have: `int` for the icon size, `list` for the profiles, and `bool` for the four flags. |
| Setup.DefaultValue | src/webappmenu-setup.py:760-779 | The value each check writes back: `DEFAULT_OPTIONS[key]`, which for every checked key has that key's expected type (`Setup.DefaultsWellTyped`). |
| Setup.BaseOptions | src/webappmenu-setup.py:739-743 | The dictionary the checks start from: the parsed object, or `DEFAULT_OPTIONS` after any read error. |
| Setup.PyTypeName | src/webappmenu-setup.py:750 | `type(v).__name__` for each kind of parsed value. Booleans are `bool`, not `int`, and every number with a `.` or an exponent is a `float`. |
| Setup.RepairFrom | src/webappmenu-setup.py:760-779 | The dictionary after `check_and_set` has run on each key in turn, with the key's expected type name and its default. |
| Setup.NeedsRepair | src/webappmenu-setup.py:747-758 | `check_and_set` overwrites a key exactly when it is missing (the `KeyError` branch) or when the type name of its value differs from the expected one. |
| Setup.Fix | src/webappmenu-setup.py:747-758 | The dictionary after one `check_and_set`: the key is set to its default exactly when it needs repair. Otherwise the dictionary is unchanged. |
| Setup.RepairedKeysFrom | src/webappmenu-setup.py:760-779 | The keys for which `check_and_set` returned true, in checking order. |
| Setup.DefaultsWellTyped | src/webappmenu-setup.py:79-86 | `DEFAULT_OPTIONS` holds every checked key. Each default has the type name its key is checked against. |
| Setup.RepairFromSpec | src/webappmenu-setup.py:747-779 | After the checks each checked key has its expected type name. A key that was present with that type keeps its value. Any other key takes its default, so for example `True` as `icon-size` is replaced. |
| Setup.RepairKeepsOthers | src/webappmenu-setup.py:747-779 | The key checks neither add, remove nor change any key outside the checked ones. |
| Setup.RepairedKeysSpec | src/webappmenu-setup.py:760-779 | A key is reported exactly when it is checked and was absent or mistyped. |
| Setup.RepairedKeysInCheckOrder | src/webappmenu-setup.py:760-779 | For distinct keys the report is the filter of the keys that were absent or mistyped in the original, in checking order. Repairing one key never changes whether a later key needs repair. |
| Setup.FixKeepsOthers | src/webappmenu-setup.py:747-758 | Repairing one key does not change whether any other key needs repair. |
| Setup.RepairNothing | src/webappmenu-setup.py:747-779 | When no key needs repair, the checks change nothing and report nothing. |
| Setup.RepairedBase | src/webappmenu-setup.py:760-779 | After the key checks `profiles` is a list, and its entries are still objects. |
| Setup.WellTypedByKey | src/webappmenu-setup.py:760-800 | Being fully typed means exactly this: no checked key needs repair, and every profile entry is valid. |
| Setup.LoadedOptions | src/webappmenu-setup.py:733-806 | The options after loading: the read dictionary, or `DEFAULT_OPTIONS` after a read error, has its six keys repaired and its invalid profile entries removed. |
| Setup.Loadable | src/webappmenu-setup.py:760-800 | The inputs the loader handles without raising: a parsed root that is a dictionary, and profile entries that are dictionaries when `profiles` is a list. |
| Setup.WellTyped | src/webappmenu-setup.py:808-821 | The shape the UI setup reads after a load: four booleans, an integer icon size, and a list of valid profile entries. |
| Setup.LoadReportOf | src/webappmenu-setup.py:733-806 | The loader's diagnostics: whether there was a read error, the repaired keys, and the 1-based positions of the dropped profiles. |
| Setup.LoadedOptionsWellTyped | src/webappmenu-setup.py:733-806 | After loading, the four flags are booleans, the icon size is an integer, and every profile has a string name and directory. |
| Setup.LoadedOptionsSpec | src/webappmenu-setup.py:733-806 | After loading, a checked key that had its expected type keeps its value and any other holds its `DEFAULT_OPTIONS` value. The profiles are exactly the valid entries of the original list, or none when it was not a list. Keys outside the checked ones are kept as read. |
| Setup.LoadReportSpec | src/webappmenu-setup.py:760-806 | The repaired-key report is exactly the absent or mistyped keys, in the order use-default-profile, split-profile-view, show-icons, hide-entries-not-in-xdg-dir, icon-size, profiles. A position is reported if and only if the entry there was invalid. The number of positions equals the list's length minus the survivors' count. |
| Setup.ReadErrorGivesDefaults | src/webappmenu-setup.py:739-743 | A missing, unreadable or badly formatted file loads as `DEFAULT_OPTIONS`. It reports the read error and no key or profile diagnostics. |
| Setup.WellTypedLoadsUnchanged | src/webappmenu-setup.py:733-806 | A fully typed document loads unchanged and without diagnostics. |
| Setup.LoadIsIdempotent | src/webappmenu-setup.py:733-806 | Loading the result of a load changes nothing. |
| Setup.ProfileRows | src/webappmenu-setup.py:815-821 | The table holds one row per loaded profile, in order. Row `k` holds the `name` and the `directory` of entry `k`. |
| Setup.RowsToJson | src/webappmenu-setup.py:361-373 | Apply writes one entry for each table row, and every entry is a valid profile. |
| Setup.RowsRoundTrip | src/webappmenu-setup.py:361-373 | Writing the table and showing it again gives the same rows in the same order. |
| Setup.ProjectOptions | src/webappmenu-setup.py:353-373 | The dictionary Apply builds holds exactly the four switches, the icon size and one profile per table row. |
| Setup.ApplyThenLoadRoundTrip | src/webappmenu-setup.py:353-383 | What Apply writes loads back unchanged and without diagnostics, and it shows the same table rows. |
| Setup.EditedStore | src/webappmenu-setup.py:261-273 | An edit never changes the number of rows. |
| Setup.EditAccepted | src/webappmenu-setup.py:264-271 | An edit is taken exactly when the row exists, the stripped new text is non-empty, and it differs from the stripped current cell. |
| Setup.EditChangesOneCell | src/webappmenu-setup.py:261-273 | An edit is accepted when the row exists, the stripped text is non-empty, and it differs from the stripped old value. An accepted edit sets exactly that cell to the stripped text, which is non-empty and already stripped; the row's other cell and all other rows are unchanged. Any other edit leaves the table as it was. |
| Setup.RepeatedEditIsRefused | src/webappmenu-setup.py:271 | Repeating an edit is refused, and applying an edit twice is the same as once. |
| Setup.NewProfileRowsAsWritten | src/webappmenu-setup.py:244-251 | As written, every response but Cancel appends a row with the stripped entries, and Cancel changes nothing. |
| Setup.Configurator.NewProfileAsWritten | src/webappmenu-setup.py:244-251 | As written, every response but Cancel raises the flag and appends the stripped entries. Cancel changes nothing. |
| Setup.ClosingNewProfileDialogAppendsEmptyRow | src/webappmenu-setup.py:212-251 | Closing the dialog with both entries empty appends the row `("", "")`, although OK was never enabled. |
| Setup.NewProfileRowsSpec | src/webappmenu-setup.py:212-251 | Intended rule: OK is enabled exactly when both stripped entries are non-empty, and only OK changes the table. It appends exactly one row at the end. The row's name and directory are non-empty and already stripped. |
| Setup.OkEnabled | src/webappmenu-setup.py:216-218 | The OK button is sensitive exactly when both entries are non-empty after stripping. |
| Setup.DeletedStore | src/webappmenu-setup.py:292-313 | The delete dialog opens only with a row selected. Any response but Cancel, closing the window included, removes that row. |
| Setup.DeleteRemovesSelected | src/webappmenu-setup.py:308-312 | The table is unchanged exactly when nothing is selected or the answer is Cancel. Otherwise it loses one row: the selected one. The rows before it keep their positions, the rows after it move up by one, and no row is invented or duplicated. |
| Setup.BrowsedStore | src/webappmenu-setup.py:276-289 | The folder chooser opens only with a row selected. Only OK writes the chosen path, as given, into that row's directory cell. |
| Setup.BrowseSetsOneDirectory | src/webappmenu-setup.py:285-288 | Browsing keeps the number of rows and every name. After OK the selected directory is the path and every other row is kept. Otherwise the table is unchanged. |
| Setup.NewProfileRows | src/webappmenu-setup.py:244-251 | Corrected rule: only OK appends the stripped entries, and any other response leaves the table as it was. |
| Setup.Configurator.constructor | src/webappmenu-setup.py:616-646 | A new window has no unsaved changes, and Reload and Apply are insensitive. |
| Setup.Configurator.SetChanged | src/webappmenu-setup.py:488-491 | `__set_changed` sets the flag, and Reload and Apply are sensitive exactly when it is set. |
| Setup.Configurator.CheckAndSet | src/webappmenu-setup.py:747-758 | `check_and_set` returns true exactly when the key is absent or its type name differs. Only then does it store the value and raise the flag. |
| Setup.Configurator.CheckKey | src/webappmenu-setup.py:760-779 | One key check moves the options one repair step on, and adds the key to the report when it was repaired. |
| Setup.Configurator.CheckKeyPair | src/webappmenu-setup.py:760-779 | Two consecutive key checks, composed. |
| Setup.Configurator.CheckKeys | src/webappmenu-setup.py:760-779 | The six checks turn the options into their repaired form and report exactly the repaired keys. The flag is raised when any key was repaired. |
| Setup.Configurator.CheckProfile | src/webappmenu-setup.py:793-795 | The short-circuit `or` of the two checks is true exactly when the entry lacks a string `name` or a string `directory`. It raises the flag then. |
| Setup.Configurator.ExamineEntry | src/webappmenu-setup.py:792-799 | One iteration deletes an invalid entry and reports its original position `j + 1`, or steps over a valid one. It keeps the loop's progress relation. |
| Setup.Configurator.DropBadProfiles | src/webappmenu-setup.py:787-800 | The loop leaves exactly the valid entries, in order, and reports the 1-based original positions of the deleted ones. The flag is raised when any entry was deleted. |
| Setup.Configurator.ShowOptions | src/webappmenu-setup.py:808-821 | The widgets show the loaded values, and the Manage button of the default profile follows its switch. One table row is appended per profile. |
| Setup.Configurator.ReadAndRepair | src/webappmenu-setup.py:733-806 | The options become the loaded options and the report the loader's diagnostics. The flag is true exactly when there was a read error, a repaired key or a dropped profile, and the buttons follow it. |
| Setup.Configurator.LoadConfigFromFile | src/webappmenu-setup.py:733-821 | Loading has the effects of reading and repairing, then those of showing the options, and leaves the options fully typed. |
| Setup.Configurator.Reload | src/webappmenu-setup.py:399-406 | `__reload_cb` on any response but Cancel, closing the dialog included: it clears the flag, empties the table and loads the file again, so unsaved edits are dropped. The options are the loaded, fully typed options. The table shows exactly the loaded profiles, and the four switches, the Manage button and the spin button show the loaded values. |
| Setup.Configurator.EditDone | src/webappmenu-setup.py:261-273 | The table becomes the edited table. The flag is raised exactly when the edit was accepted. |
| Setup.Configurator.Browse | src/webappmenu-setup.py:276-289 | `__on_browse_cb`: with a row selected and OK, the flag is raised and the chosen path, unstripped, becomes that row's directory. Any other answer changes nothing. |
| Setup.Configurator.ToggleDefaultProfile | src/webappmenu-setup.py:447-455 | Flipping the default-profile switch raises the flag. The Manage button becomes sensitive exactly when the switch is on. |
| Setup.Configurator.ToggleSplitView | src/webappmenu-setup.py:456-457 | Flipping the split-view switch raises the flag and records the new state. |
| Setup.Configurator.ToggleShowIcons | src/webappmenu-setup.py:458-459 | Flipping the show-icons switch raises the flag and records the new state. |
| Setup.Configurator.ToggleHideNonXdg | src/webappmenu-setup.py:470-471 | Flipping the hide-entries switch raises the flag and records the new state. |
| Setup.Configurator.ChangeIconSize | src/webappmenu-setup.py:460-461 | A new spin value raises the flag and becomes the icon size. |
| Setup.Configurator.DeleteProfile | src/webappmenu-setup.py:292-313 | `__on_delete_cb`: the table becomes the one after the delete dialog. The flag is raised exactly when a row was removed, and Reload and Apply follow it. |
| Setup.Configurator.ConfirmNewProfile | src/webappmenu-setup.py:244-251 | Corrected behaviour: only OK, which can be pressed only while it is enabled, raises the flag and appends the stripped entries. |
| Setup.Configurator.CollectProfiles | src/webappmenu-setup.py:361-373 | `collect_profiles` produces one `{name, directory}` object per table row, in table order. |
| Setup.Configurator.CollectOptions | src/webappmenu-setup.py:353-373 | The options are rebuilt from the widgets and the table only, so anything else the file held is dropped. |
| Setup.Configurator.Apply | src/webappmenu-setup.py:335-383 | If the base is not a directory, or it cannot be created, Apply fails with the options and the flag unchanged. Otherwise the options become the projection of the widgets and the table. That document is written and the flag cleared only when the write succeeds; a failed write keeps the flag. |
| Setup.RepairStep | src/webappmenu-setup.py:760-779 | One key check is one step of the repair and of the report. |
| Setup.CheckAdvance | src/webappmenu-setup.py:760-779 | After one more check, the remaining checks still complete the repair and the report. |
| Extension.DefaultsAgree | src/extension.js:54-58 | The extension's `DEFAULT_*` constants are the configurator's `DEFAULT_OPTIONS`. |
| Extension.FallbackOptions | src/extension.js:362-368 | The object used when nothing was parsed: four defaults and an empty profile list, without `hide-entries-not-in-xdg-dir`. |
| Extension.ConstructorOf | src/extension.js:373-403 | The `.constructor` of a non-null value: Number for any number, Boolean, String, Array, or Object. |
| Extension.ExpectedConstructor | src/extension.js:373-403 | The constructor each check expects: Number for the icon size, Array for the profiles, and Boolean for the four flags. |
| Extension.JsDefault | src/extension.js:373-403 | The value each fix-up stores: the `DEFAULT_*` constant of its key, and an empty array for the profiles. They equal the configurator's defaults (`Extension.DefaultsAgree`). |
| Extension.JsRepairFrom | src/extension.js:373-403 | The options after the fix-ups for each key in turn. A value that is missing, `null` or of another constructor is replaced by the default. |
| Extension.JsNeedsRepair | src/extension.js:373-403 | Each `if` replaces a value exactly when it is missing, `null` (both are `== undefined`), or built by another constructor. |
| Extension.JsFix | src/extension.js:373-403 | The options after one `if`: the key is set to its default exactly when it needs repair. Otherwise they are unchanged. |
| Extension.JsRepairFromSpec | src/extension.js:373-403 | After the fix-ups a key with its expected constructor keeps its value, and one that is missing, `null` or of another constructor takes its default. |
| Extension.DefaultHasExpectedConstructor | src/extension.js:54-58 | Every default has the constructor its key requires. |
| Extension.JsRepairTyped | src/extension.js:373-403 | After the fix-ups no checked key needs one any more. |
| Extension.JsRepairKeepsOthers | src/extension.js:373-403 | The fix-ups touch no key outside the checked ones. |
| Extension.JsRepairedBase | src/extension.js:400-403 | After the fix-ups `profiles` is an Array that still holds no `null`. |
| Extension.JsSetupOptions | src/extension.js:336-418 | `this.options` after `_setup_values`: the base object, with its fix-ups applied and its invalid profile entries spliced out. |
| Extension.JsWellTyped | src/extension.js:373-418 | The shape `_setup_values` leaves: four booleans, a Number icon size (integer or not), and an array of valid profile entries. |
| Extension.JsLoadable | src/extension.js:345-418 | The inputs `_setup_values` handles without throwing: a parsed root that is an object, an array or `null`, and no `null` entry in a `profiles` list. |
| Extension.JsBase | src/extension.js:341-369 | `this.options` before the fix-ups: the parsed object, no named properties for an array, and the fallback object when nothing was parsed or the result was `null`. |
| Extension.JsWellTypedByKey | src/extension.js:373-417 | Being fully typed means exactly this: no checked key needs a fix-up, and every entry is valid. |
| Extension.JsSetupWellTyped | src/extension.js:336-418 | After `_setup_values` the four flags are Booleans, the icon size is a Number, and every profile has a String name and directory. |
| Extension.JsSetupValues | src/extension.js:336-418 | After `_setup_values` a correctly typed value is kept and any other becomes its default. The profiles are exactly the valid entries of the Array read, in order. Other keys are kept. |
| Extension.JsRepairNothing | src/extension.js:373-403 | Keys that already have their constructors are left as they are. |
| Extension.JsRepairConcat | src/extension.js:373-403 | The fix-ups for two runs of keys are the fix-ups for the first run followed by those for the second. |
| Extension.FallbackRepaired | src/extension.js:361-393 | The fallback object lacks only `hide-entries-not-in-xdg-dir`, and the fix-ups add it with its default. |
| Extension.JsReadErrorGivesDefaults | src/extension.js:345-393 | A missing, unreadable or unparsable file, or one holding `null`, gives exactly the configurator's `DEFAULT_OPTIONS`. |
| Extension.NeedsRepairAgrees | src/extension.js:373-403 | Except for an icon size written as a float (with a `.` or an exponent, which Python parses as `float`), a key needs a fix-up in the extension exactly when it needs repair in the configurator. |
| Extension.RepairAgrees | src/extension.js:373-403 | Without an icon size written as a float, both components repair a document alike. |
| Extension.LoadersAgree | src/extension.js:336-418 | When the configurator can load a parsed document and its icon size is not written as a float, the extension loads the same options from the same parsed value. |
| Extension.FloatIconSizeKeptOnlyByExtension | src/extension.js:395-398 | An icon size written as `32.0` is kept by the extension, where it is a `Number`, but reset to 16 by the configurator, where it is a `float`. |
| Extension.JsArrayRootGivesDefaults | src/extension.js:361-417 | A parsed array as root passes the `== undefined` test. Every fix-up then stores its default and the profile loop examines nothing, so the options are exactly `DEFAULT_OPTIONS`. |
| Extension.EntryRejected | src/extension.js:407-412 | The drop condition: the entry has no String `name` or no String `directory`, where `== undefined` also catches `null`. |
| Extension.EntryRejectedIsInvalid | src/extension.js:407-412 | On a non-null entry the drop condition holds exactly when the entry is not a valid profile. |
| Extension.WebApps.constructor | src/extension.js:341 | Before `_setup_values` runs, the options hold no properties. |
| Extension.WebApps.SetupValues | src/extension.js:336-418 | `_setup_values` leaves the options equal to the loader's specification for the outcome read. |
| Extension.WebApps.FixKey | src/extension.js:373-403 | One fix-up replaces a missing, `null` or mistyped value by its default, and keeps the progress relation. |
| Extension.WebApps.FixTypes | src/extension.js:373-403 | The six fix-ups, in order, give the repaired options. |
| Extension.WebApps.DropInvalidProfiles | src/extension.js:405-417 | The `splice` loop leaves exactly the valid entries, in order, and changes nothing else. |
| Extension.ExamineProfile | src/extension.js:406-416 | One iteration splices out an invalid entry and keeps the index, or moves past a valid one. It keeps the loop's progress relation. |
| Extension.JsAdvance | src/extension.js:373-403 | After one more fix-up, the remaining fix-ups still complete the repair. |
| Extension.Insert | src/extension.js:147 | `addMenuItem(entry, pos)` puts the item at `pos`. The items before it stay, and those after it move up by one. |
| Extension.Key | src/extension.js:115 | The sort key of a menu item: its label, lower-cased. |
| Extension.RegionLo | src/extension.js:92-111 | The start of the region to arrange. Without split it is 0. With split it is 0 for a submenu and `_submenus` for an entry. |
| Extension.RegionHi | src/extension.js:92-111 | One past the end of the region to arrange. It is `_submenus` for a submenu when split, and otherwise `_submenus + _entries`: the code's inclusive `end` plus one. |
| Extension.SlotFromNeighbours | src/extension.js:142-147 | In a sorted group, a position whose two neighbours fit the key fits it. |
| Extension.InsertKeepsSorted | src/extension.js:80-148 | Inserting at a fitting place keeps a group sorted. A sorted group after the insertion point moves up by one, and one before it stays. |
| Extension.ArrangedAfterInsert | src/extension.js:92-147 | An insertion at a fitting place of its group keeps the menu arranged: submenus first with each group sorted in split mode, or sorted as a whole otherwise. |
| Extension.Settle | src/extension.js:92-147 | An arranged menu stays arranged after an insertion that fits its group. |
| Extension.PopupMenu.constructor | src/extension.js:84-88 | A new menu is empty and its counters agree with it. |
| Extension.PopupMenu.RemoveAll | src/extension.js:549 | `removeAll` empties the menu and leaves the counters as they were. |
| Extension.PopupMenu.AddCounted | src/extension.js:117-147 | Each insertion path raises the counter of the item's kind by one and inserts the item once. |
| Extension.PopupMenu.Locate | src/extension.js:129-147 | The binary search ends inside its range. When the range is sorted, the place returned fits the lower-cased label. |
| Extension.PopupMenu.Place | src/extension.js:115-147 | The item goes before the group when its key is smaller than the first, after the group when larger than the last, and otherwise where the search puts it. In a sorted group that place fits the key. |
| Extension.PopupMenu.AbInsert | src/extension.js:80-148 | `ab_insert` inserts the item exactly once without reordering the others. It raises only the counter of its kind, after resetting both on an empty menu, so their sum stays the item count. The item lands in the region of its kind: the whole menu, or the submenus or the entries in split mode. In a sorted region it lands at a place that fits its key, and an arranged menu stays arranged. |
| Extension.VersionDiff | src/extension.js:569-579 | The reference value of `compare_versions`: the difference of the first differing components within the shorter length, and otherwise the difference of the lengths. |
| Extension.CompareVersions | src/extension.js:569-579 | The loop returns the difference of the first differing components within the shorter length, and otherwise the difference of the lengths. |
| Extension.VersionDiffZeroIffEqual | src/extension.js:569-579 | Versions compare as 0 exactly when they are equal. |
| Extension.VersionDiffAntisymmetric | src/extension.js:569-579 | Swapping the arguments negates the result. |
| Extension.FirstDifferenceDecides | src/extension.js:572-576 | After a common prefix, the first differing component decides the result. |
| Extension.PrefixComparesByLength | src/extension.js:578 | A version that is a prefix of the other compares by length, so a proper prefix compares less. |
| Extension.OldLayoutBefore33 | src/extension.js:589-591 | For a three-part version, the older metadata layout is taken exactly for releases before 3.3. |
| Extension.UsesOldLayout | src/extension.js:589-591 | The older metadata layout is taken exactly when the running version compares below `NEW_API_VERSION`. |
| Extension.EntryFileName | src/extension.js:479-499 | An element is considered exactly when its name starts with `app-epiphany-` and it is a directory. The desktop file name then starts with `epiphany-`, ends with `.desktop`, and has the expected length. |
| Extension.EntryFileNameInverse | src/extension.js:499 | Restoring `app-` and dropping `.desktop` recovers the directory name. |
| Extension.EntryFileNameInjective | src/extension.js:499 | Different directories look for different desktop files. |

## Left out

- I/O is replaced by its outcome. File existence, reads, JSON decoding, directory creation and the write are parameters: `ReadOutcome`, `FileProbe`, `BaseDir` and `writeOk`. `BaseDir` stands for the configurator's `query_exists` and `query_file_type` checks in `Apply`. The extension's `GLib.file_test` directory test becomes the `isDirectory` parameter of `Extension.EntryFileName`. The `DesktopAppInfo` lookup of the extension is not modelled. The table selection, the dialogs' responses and the folder chooser's path are parameters of the callbacks.
- The JSON text parser is not modelled; the loaders take the parsed value. Objects are maps, so duplicate keys and key order are not represented.
- GTK and Shell wiring is not modelled: widget construction, dialogs, signal handler ids, popups, tooltips, the file monitor, and icon drawing.
- Diagnostic texts and gettext are not modelled; each report is kept as data. The message strings `error1_text` and `error2_text` and the `__show_error` dialogs are not modelled.
- Setup.Loadable: a JSON root that is not an object, or a profile entry that is not an object, raises a `TypeError` in the configurator. These inputs are a precondition, not modelled behaviour.
- Extension.JsLoadable: a primitive root (number, string or boolean) makes reading `profiles.length` throw, and so does a `null` profile entry. These are excluded by precondition. An array root is handled as the code does, and so is a non-null, non-object entry, which is dropped.
- Extension.JsBase: for an array root only the named properties are modelled. The array's elements stay at its index properties, which nothing reads.
- Extension.JsReadErrorGivesDefaults: follows the `if (!ret)` branch at line 349 as written. If the GJS binding of `load_contents` reports failure by throwing, that branch is dead and an unreadable file makes `_setup_values` throw instead.
- Extension.LoadersAgree: both loaders are given the same parsed value. The parsers themselves differ: Python's `json.loads` accepts `NaN` and `Infinity`, which `JSON.parse` rejects, so a file holding them loads in the configurator but falls back to the defaults in the extension. `JSON.parse` also rounds integers beyond 2^53 to the nearest double, while `json.loads` keeps them exact, so an icon size such as 9007199254740993 loads as different numbers.
- Column sorting is not modelled. Both columns are sortable (`set_sort_column_id` at lines 664 and 675). Once the user clicks a column header, the list store keeps its rows sorted, and it keeps that sort across `clear()` (lines 403-406). Then a loaded or appended row lands at its sorted place, an edited row may move, and Apply writes the sorted order. The table is modelled in insertion order, which is the order only while no sort is active. Each member below states that unsorted case.
- Setup.Configurator.EditDone: the edited row keeps its position only while no sort is active.
- Setup.EditChangesOneCell: "every other row is unchanged" holds position by position only while no sort is active.
- Setup.Configurator.ConfirmNewProfile: the new row is appended at the end only while no sort is active.
- Setup.NewProfileRowsSpec: "one row at the end" holds only while no sort is active.
- Setup.NewProfileRows: the row is appended at the end only while no sort is active.
- Setup.Configurator.NewProfileAsWritten: the row is appended at the end only while no sort is active.
- Setup.NewProfileRowsAsWritten: the row is appended at the end, after the kept prefix, only while no sort is active.
- Setup.ClosingNewProfileDialogAppendsEmptyRow: it shows the empty row appended to an empty table, where the sort cannot move it. For a non-empty sorted table the empty row goes to its sorted place.
- Setup.Configurator.DeleteProfile: the selected position is a position in insertion order, which the view shows only while no sort is active.
- Setup.DeleteRemovesSelected: the positions of the remaining rows are those of insertion order, which the view shows only while no sort is active.
- Setup.Configurator.Browse: the browsed row keeps its position only while no sort is active.
- Setup.BrowseSetsOneDirectory: "every other row is kept" holds position by position only while no sort is active.
- Setup.Configurator.CollectProfiles: the profiles are written in insertion order. With a sort active they are written in sorted order.
- Setup.Configurator.ShowOptions: the table holds the profiles in file order only while no sort is active.
- Setup.Configurator.LoadConfigFromFile: the table holds the profiles in file order only while no sort is active.
- Setup.Configurator.Reload: the reloaded table holds the profiles in file order only while no sort is active. The sort survives `clear()`.
- Setup.Configurator.ShowOptions: the spin button's clamping of the icon size to 4..1024 is not modelled; the widget takes the stored integer.
- Setup.ProjectOptions: the icon size is taken as an integer. The float-based spin value and `int(round(...))` are not modelled.
- The Python 2 `unicode` type name at line 791 is not modelled; only Python 3's `str` is.
- Text.LowerChar, Text.Lower: only ASCII letters are lower-cased. Unicode case mapping of `toLowerCase` is not modelled.
- Text.LexLess: characters are compared as code points. JavaScript compares UTF-16 code units, which differ only outside the Basic Multilingual Plane.
- Extension.CompareVersions: components are integers. The split version string and the coercion of its parts are not modelled. A two-part version such as `3.3` compares below `3.3.0`, as the code computes.
- Setup.ReadAndRepair: aliasing is not modelled. After a read error, the configurator's options are the `DEFAULT_OPTIONS` object itself. The checks find nothing to change in it, so values model it exactly.
- Extension.PopupMenu.AbInsert: the counters are correct only for menus filled by `ab_insert`. The separator and the configurator item are added with plain `addMenuItem`, which the counters do not see. `removeAll` leaves stale counters, which the empty-menu reset at line 85 absorbs.
- The loading of applications in `_build_entries_for_profile_dir` is not modelled: hidden entries, `show_in`, and the XDG symlink checks at lines 501-538 are I/O.
- The quit confirmation dialog is not modelled; it touches none of the modelled state. The delete and reload dialogs are modelled after they return, as `Setup.Configurator.DeleteProfile` and `Setup.Configurator.Reload`. Both act on every response but Cancel, the window's close button and Escape included, as the code is written.
- The selection handler `__on_select_cb` and the Manage callbacks are not modelled. They set the sensitivity of the toolbar and menu items and open other windows, none of which is modelled state. The switch and spin handlers are modelled as the value the user sets (`Setup.Configurator.ToggleSplitView` and its siblings). The programmatic updates during a load run while those handlers are not connected (lines 156-158 and 403-407).

## Findings

| source | as written | input that shows it | evidently intended | confidence | as-written member | corrected member |
|---|---|---|---|---|---|---|
| src/webappmenu-setup.py:244-251 | Every response other than Cancel appends a row, including DELETE_EVENT from closing the window or pressing Escape. This bypasses the rule at lines 212-218 that OK is enabled only when both stripped entries are non-empty. | Open the new-profile dialog, type nothing, and close the window: the row `("", "")` is appended and the flag is raised. | Only OK appends. | not executed | Setup.NewProfileRowsAsWritten, Setup.Configurator.NewProfileAsWritten, Setup.ClosingNewProfileDialogAppendsEmptyRow | Setup.NewProfileRows, Setup.NewProfileRowsSpec, Setup.Configurator.ConfirmNewProfile |
