/**
  The settings document as both components see it once the JSON text has
  been parsed: a JSON value, the outcome of reading the settings file, the
  key names of the document and the profile filter that both loaders apply.
 */
module Settings {

  datatype Option<T> = None | Some(value: T)

  /** A parsed JSON value. A number written with a fraction or an exponent
      is a `JFloat`, any other a `JInt`. Objects are maps: both `json.loads`
      and `JSON.parse` keep the last of duplicate keys, and key order is not
      part of the format. */
  datatype Json =
    | JInt(i: int)
    | JFloat(f: real)
    | JBool(b: bool)
    | JStr(s: string)
    | JList(items: seq<Json>)
    | JObj(fields: map<string, Json>)
    | JNull

  /** What reading the settings file produced. */
  datatype ReadOutcome = NotFound | Unreadable | BadFormat | Parsed(value: Json)

  /** The file as the loader probes it: whether it exists, whether its
      contents could be loaded, and the parsed value when decoding and parsing
      succeeded. */
  datatype FileProbe = FileProbe(present: bool, readable: bool, parsed: Option<Json>)

  /** The existence check comes first, then the read, then parsing. */
  function ReadSettingsFile(f: FileProbe): (r: ReadOutcome)
    ensures r == NotFound <==> !f.present
    ensures r == Unreadable <==> f.present && !f.readable
    ensures r == BadFormat <==> f.present && f.readable && f.parsed.None?
    ensures r.Parsed? <==> f.present && f.readable && f.parsed.Some?
    ensures r.Parsed? ==> r.value == f.parsed.value
  {
    if !f.present then NotFound
    else if !f.readable then Unreadable
    else if f.parsed.None? then BadFormat
    else Parsed(f.parsed.value)
  }

  // The keys of the settings document.
  const UseDefaultProfile := "use-default-profile"
  const SplitProfileView := "split-profile-view"
  const ShowIcons := "show-icons"
  const HideEntriesNotInXdgDir := "hide-entries-not-in-xdg-dir"
  const IconSize := "icon-size"
  const Profiles := "profiles"
  const ProfileName := "name"
  const ProfileDirectory := "directory"

  predicate IsStrField(fields: map<string, Json>, key: string) {
    key in fields && fields[key].JStr?
  }

  /** A profile entry both loaders keep: an object whose `name` and
      `directory` are strings. */
  predicate ValidProfile(e: Json) {
    e.JObj? && IsStrField(e.fields, ProfileName) && IsStrField(e.fields, ProfileDirectory)
  }

  predicate AllValid(ps: seq<Json>) {
    forall k :: 0 <= k < |ps| ==> ValidProfile(ps[k])
  }

  /** The valid entries of `ps`, in their original order. */
  function KeepValid(ps: seq<Json>): (r: seq<Json>)
    ensures |r| <= |ps|
    ensures AllValid(r)
  {
    if ps == [] then []
    else KeepValid(ps[..|ps| - 1]) + (if ValidProfile(ps[|ps| - 1]) then [ps[|ps| - 1]] else [])
  }

  /** The 1-based positions of the invalid entries of `ps`, one for each entry
      `KeepValid` drops. */
  function DroppedPositions(ps: seq<Json>): (r: seq<nat>)
    ensures |r| + |KeepValid(ps)| == |ps|
  {
    if ps == [] then []
    else DroppedPositions(ps[..|ps| - 1]) + (if ValidProfile(ps[|ps| - 1]) then [] else [|ps|])
  }

  /** The reported positions are increasing and within `1..|ps|`. */
  lemma {:induction false} DroppedPositionsIncreasing(ps: seq<Json>)
    ensures forall k :: 0 <= k < |DroppedPositions(ps)| ==> 1 <= DroppedPositions(ps)[k] <= |ps|
    ensures forall a, b :: 0 <= a < b < |DroppedPositions(ps)| ==> DroppedPositions(ps)[a] < DroppedPositions(ps)[b]
  {
    if ps != [] {
      var init := ps[..|ps| - 1];
      DroppedPositionsIncreasing(init);
      var r0 := DroppedPositions(init);
      var r := DroppedPositions(ps);
      assert r == r0 + (if ValidProfile(ps[|ps| - 1]) then [] else [|ps|]);
      assert forall k :: 0 <= k < |r0| ==> r[k] == r0[k] && r0[k] <= |init|;
    }
  }

  /** A position is reported exactly when the entry there is invalid. */
  lemma {:induction false} DroppedPositionsExact(ps: seq<Json>, n: int)
    ensures n in DroppedPositions(ps) <==> 1 <= n <= |ps| && !ValidProfile(ps[n - 1])
  {
    if ps != [] {
      var init := ps[..|ps| - 1];
      DroppedPositionsExact(init, n);
      if n < |ps| && 1 <= n { assert init[n - 1] == ps[n - 1]; }
    }
  }

  /** Every valid entry survives, at the position given by the number of valid
      entries before it: survivors keep their relative order. */
  lemma {:induction false} KeepValidKeepsOrder(ps: seq<Json>, k: int)
    requires 0 <= k < |ps| && ValidProfile(ps[k])
    ensures |KeepValid(ps[..k])| < |KeepValid(ps)|
    ensures KeepValid(ps)[|KeepValid(ps[..k])|] == ps[k]
  {
    var init := ps[..|ps| - 1];
    if k == |ps| - 1 {
      assert ps[..k] == init;
    } else {
      assert init[..k] == ps[..k];
      KeepValidKeepsOrder(init, k);
    }
  }

  /** Survivors are taken from the input: no entry is invented or duplicated. */
  lemma {:induction false} KeepValidIsSubMultiset(ps: seq<Json>)
    ensures multiset(KeepValid(ps)) <= multiset(ps)
  {
    if ps != [] {
      var init := ps[..|ps| - 1];
      KeepValidIsSubMultiset(init);
      assert ps == init + [ps[|ps| - 1]];
    }
  }

  /** A list of valid entries passes unchanged. */
  lemma {:induction false} KeepValidOfValid(ps: seq<Json>)
    requires AllValid(ps)
    ensures KeepValid(ps) == ps
    ensures DroppedPositions(ps) == []
  {
    if ps != [] {
      var init := ps[..|ps| - 1];
      KeepValidOfValid(init);
      assert ps == init + [ps[|ps| - 1]];
    }
  }

  /** Extending the input by one entry extends the survivors and the reported
      positions accordingly. */
  lemma {:induction false} KeepValidSnoc(ps: seq<Json>, e: Json)
    ensures KeepValid(ps + [e]) == KeepValid(ps) + (if ValidProfile(e) then [e] else [])
    ensures DroppedPositions(ps + [e]) == DroppedPositions(ps) + (if ValidProfile(e) then [] else [|ps| + 1])
  {
    var s := ps + [e];
    assert s[..|s| - 1] == ps;
    assert s[|s| - 1] == e;
  }

  /** One step of deleting invalid entries in place, where `cur` is the list
      after the first `j` entries were examined: the entry now at `|K|` is
      `ps[j]`; keeping it or cutting it out gives the list after `j + 1`. */
  lemma DropStep(ps: seq<Json>, j: nat)
    requires j < |ps|
    ensures var k := KeepValid(ps[..j]);
      var cur := k + ps[j..];
      && |k| < |cur| && cur[|k|] == ps[j]
      && KeepValid(ps[..j + 1]) + ps[j + 1..] ==
         (if ValidProfile(ps[j]) then cur else cur[..|k|] + cur[|k| + 1..])
      && |KeepValid(ps[..j + 1])| == |k| + (if ValidProfile(ps[j]) then 1 else 0)
      && DroppedPositions(ps[..j + 1]) == DroppedPositions(ps[..j]) + (if ValidProfile(ps[j]) then [] else [j + 1])
  {
    var k := KeepValid(ps[..j]);
    var rest := ps[j..];
    var cur := k + rest;
    KeepValidSnoc(ps[..j], ps[j]);
    assert ps[..j + 1] == ps[..j] + [ps[j]];
    assert rest[0] == ps[j] && rest[1..] == ps[j + 1..];
    assert rest == [rest[0]] + rest[1..];
    assert cur[..|k|] == k && cur[|k| + 1..] == rest[1..];
  }
}
