/**
 Vulnerability tests: their tags and references, and their place in the knowledge base.
 */
module Nvti {
  import opened Text
  import opened Refs
  import opened Prefs
  import opened KbLists

  // ------------------------------------------------------------------------- Tags

  datatype Tag = Tag(name: string, value: string)

  function TagText(t: Tag): string {
    t.name + "=" + t.value
  }

  function TagTexts(tags: seq<Tag>): (r: seq<string>)
    ensures |r| == |tags|
  {
    seq(|tags|, i requires 0 <= i < |tags| => TagText(tags[i]))
  }

  /** The tag field that holds the given tags. */
  function TagField(tags: seq<Tag>): Option<string> {
    if tags == [] then None else Some(Join(TagTexts(tags), "|"))
  }

  function WithTag(field: Option<string>, t: Tag): Option<string> {
    if field.Some? then Some(field.value + "|" + TagText(t)) else Some(TagText(t))
  }

  /** What the field looks like: "name=value|name=value". */
  lemma {:induction false} TagFieldAppend(tags: seq<Tag>, t: Tag)
    ensures TagField([]) == None && TagField(tags + [t]) == WithTag(TagField(tags), t)
    ensures TagField(tags + [t]) ==
            Some(if tags == [] then t.name + "=" + t.value
                 else TagField(tags).value + "|" + (t.name + "=" + t.value))
  {
    assert TagTexts(tags + [t]) == TagTexts(tags) + [TagText(t)];
    if tags == [] {
      assert TagTexts(tags) + [TagText(t)] == [TagText(t)];
    } else {
      JoinAppend(TagTexts(tags), TagText(t), "|");
    }
  }

  /** The entry is that of the name. */
  predicate IsTagOf(entry: string, name: string) {
    |entry| > |name| && entry[..|name|] == name && entry[|name|] == '='
  }

  /** What the first entry of that name holds. */
  function Lookup(entries: seq<string>, name: string): Option<string> {
    if entries == [] then None
    else if IsTagOf(entries[0], name) then Some(entries[0][|name| + 1..])
    else Lookup(entries[1..], name)
  }

  /** The value of the first tag with that name. */
  function FirstValue(tags: seq<Tag>, name: string): Option<string> {
    if tags == [] then None
    else if tags[0].name == name then Some(tags[0].value)
    else FirstValue(tags[1..], name)
  }

  predicate PlainTag(t: Tag) {
    '=' !in t.name && '|' !in t.name && '|' !in t.value
  }

  lemma {:induction false} TagNames(t: Tag, name: string)
    requires '=' !in t.name && '=' !in name
    ensures IsTagOf(TagText(t), name) <==> t.name == name
    ensures TagText(t)[|t.name| + 1..] == t.value
  {
    var e := TagText(t);
    FindUnique(e, '=', |t.name|);
    assert e[..|t.name|] == t.name;
    if IsTagOf(e, name) {
      assert forall k :: 0 <= k < |name| ==> e[..|name|][k] == name[k];
      FindUnique(e, '=', |name|);
    }
  }

  lemma {:induction false} LookupOfTexts(tags: seq<Tag>, name: string)
    requires (forall i :: 0 <= i < |tags| ==> PlainTag(tags[i])) && '=' !in name
    ensures Lookup(TagTexts(tags), name) == FirstValue(tags, name)
  {
    hide IsTagOf, TagText;
    if tags != [] {
      TagNames(tags[0], name);
      LookupOfTexts(tags[1..], name);
      assert TagTexts(tags)[1..] == TagTexts(tags[1..]);
    }
  }

  lemma {:induction false} PlainTagText(t: Tag)
    requires PlainTag(t)
    ensures '|' !in TagText(t) && TagText(t) != ""
  {
  }

  /** Looking up a name in the field gives the value that was added first under it. */
  lemma {:induction false} TagRoundTrip(tags: seq<Tag>, name: string)
    requires (forall i :: 0 <= i < |tags| ==> PlainTag(tags[i])) && '=' !in name
    ensures Lookup(Split(OrEmpty(TagField(tags)), '|'), name) == FirstValue(tags, name)
  {
    hide Pieces, PlainTag, TagText;
    if tags != [] {
      var texts := TagTexts(tags);
      forall i | 0 <= i < |texts|
        ensures '|' !in texts[i] && texts[i] != ""
      {
        PlainTagText(tags[i]);
      }
      PiecesOfJoin(texts, '|');
      LookupOfTexts(tags, name);
    }
  }

  // -------------------------------------------------------------------- The record

  /** The fields of a test that the store keeps. */
  datatype Info = Info(
    oid: string, name: string, family: string, category: int32,
    requiredKeys: Option<string>, mandatoryKeys: Option<string>, excludedKeys: Option<string>,
    requiredUdpPorts: Option<string>, requiredPorts: Option<string>, dependencies: Option<string>,
    tag: Option<string>, refs: seq<Ref>)

  /** What the setters keep of an optional field: the empty string is no string. */
  function Present(s: string): Option<string> {
    if s == "" then None else Some(s)
  }

  class Nvt {
    var info: Info
    var prefs: seq<Pref>
    var modificationTime: int
    var creationTime: int

    constructor (i: Info, p: seq<Pref>)
      ensures info == i && prefs == p
    {
      info := i;
      prefs := p;
      modificationTime, creationTime := 0, 0;
    }

    /** Adds what one item of a list contributes. */
    method AddItem(item: string, kind: Option<string>, text: string)
      modifies this`info
      ensures info == old(info).(refs := old(info).refs + ReadItem(item, kind, text))
    {
      hide Strip;
      var id := Strip(item);
      if id != "" {
        if kind.Some? {
          info := info.(refs := info.refs + [Ref(kind.value, id, text)]);
        } else {
          var colon := Find(id, ':');
          if colon < |id| {
            info := info.(refs := info.refs + [Ref(id[..colon], id[colon + 1..], "")]);
          }
        }
      }
    }

    /** Adds the references of a comma-separated list. */
    method AddRefs(kind: Option<string>, ids: Option<string>, text: string) returns (rc: int)
      modifies this`info
      ensures rc == if ids.None? then 2 else 0
      ensures info == old(info).(refs := old(info).refs +
                                 if ids.None? then [] else ReadRefs(ids.value, kind, text))
    {
      hide ReadItem, Split;
      if ids.None? {
        return 2;
      }
      var items := Split(ids.value, ',');
      for i := 0 to |items|
        invariant info == old(info).(refs := old(info).refs + ReadItems(items[..i], kind, text))
      {
        assert items[..i + 1][..i] == items[..i];
        AddItem(items[i], kind, text);
      }
      assert items[..|items|] == items;
      return 0;
    }

    /** Adds a tag; the values of some names are read as time stamps, which the record
        keeps whole and the tag as an int. */
    method AddTag(name: string, value: string, parse: string -> int) returns (rc: int)
      modifies this`info, this`modificationTime, this`creationTime
      ensures rc == if name == "" then -2 else if value == "" then -3 else 0
      ensures rc != 0 || name == "cvss_base" ==> info == old(info)
      ensures rc == 0 && name != "cvss_base" ==>
                var isTime := name == "last_modification" || name == "creation_date" || name == "severity_date";
                var added := name + "=" + if isTime then Printed(ToInt(parse(value))) else value;
                info == old(info).(tag := Some(
                  if old(info.tag).Some? then old(info.tag).value + "|" + added else added))
      ensures modificationTime == if rc == 0 && name == "last_modification" then parse(value) else old(modificationTime)
      ensures creationTime == if rc == 0 && name == "creation_date" then parse(value) else old(creationTime)
    {
      if name == "" {
        return -2;
      }
      if value == "" {
        return -3;
      }
      var newValue := value;
      if name == "last_modification" {
        modificationTime := parse(value);
        newValue := Printed(ToInt(modificationTime));
      } else if name == "creation_date" {
        creationTime := parse(value);
        newValue := Printed(ToInt(creationTime));
      } else if name == "severity_date" {
        newValue := Printed(ToInt(parse(value)));
      } else if name == "cvss_base" {
        return 0;
      }
      if info.tag.Some? {
        info := info.(tag := Some(info.tag.value + "|" + TagText(Tag(name, newValue))));
      } else {
        info := info.(tag := Some(TagText(Tag(name, newValue))));
      }
      return 0;
    }

    /** The value of a tag. */
    method GetTag(name: string) returns (value: Option<string>)
      ensures value == Lookup(Split(OrEmpty(info.tag), '|'), name)
    {
      if info.tag.None? {
        return None;
      }
      var entries := Split(info.tag.value, '|');
      var k := 0;
      while k < |entries|
        invariant 0 <= k <= |entries|
        invariant Lookup(entries, name) == Lookup(entries[k..], name)
      {
        if |entries[k]| > |name| && entries[k][..|name|] == name && entries[k][|name|] == '=' {
          return Some(entries[k][|name| + 1..]);
        }
        assert entries[k..][1..] == entries[k + 1..];
        k := k + 1;
      }
      return None;
    }
  }

  // --------------------------------------------------------------------- The store

  /** The positions in the list of a test. */
  const REQUIRED_KEYS := 1
  const MANDATORY_KEYS := 2
  const EXCLUDED_KEYS := 3
  const REQUIRED_UDP_PORTS := 4
  const REQUIRED_PORTS := 5
  const DEPENDENCIES := 6
  const TAGS := 7
  const CVES := 8
  const BIDS := 9
  const XREFS := 10
  const CATEGORY := 11
  const FAMILY := 12
  const NAME := 13

  function Key(oid: string): string {
    "nvt:" + oid
  }

  function PrefsKey(oid: string): string {
    "oid:" + oid + ":prefs"
  }

  function FileKey(filename: string): string {
    "filename:" + filename
  }

  lemma {:induction false} KeysDiffer(oid: string, filename: string)
    ensures Key(oid) != PrefsKey(oid) && Key(oid) != FileKey(filename) && PrefsKey(oid) != FileKey(filename)
  {
    assert Key(oid)[0] == 'n' && PrefsKey(oid)[0] == 'o' && FileKey(filename)[0] == 'f';
  }

  /** What is pushed for a test. */
  function Fields(i: Info, filename: string): (r: seq<string>)
    ensures |r| == NAME + 1
  {
    [filename, OrEmpty(i.requiredKeys), OrEmpty(i.mandatoryKeys), OrEmpty(i.excludedKeys),
     OrEmpty(i.requiredUdpPorts), OrEmpty(i.requiredPorts), OrEmpty(i.dependencies), OrEmpty(i.tag),
     OrEmpty(Listed(Cves(i.refs), false)), OrEmpty(Listed(Bids(i.refs), false)),
     OrEmpty(Listed(Xrefs(i.refs), true)), Printed(i.category), i.family, i.name]
  }

  /** The test that the fields of a list give. */
  function Loaded(oid: string, f: seq<string>): Info
    requires |f| == NAME + 1
  {
    Info(oid, f[NAME], f[FAMILY], Atoi(f[CATEGORY]),
         Present(f[REQUIRED_KEYS]), Present(f[MANDATORY_KEYS]), Present(f[EXCLUDED_KEYS]),
         Present(f[REQUIRED_UDP_PORTS]), Present(f[REQUIRED_PORTS]), Present(f[DEPENDENCIES]),
         Present(f[TAGS]),
         ReadRefs(f[CVES], Some("cve"), "") + ReadRefs(f[BIDS], Some("bid"), "") + ReadRefs(f[XREFS], None, ""))
  }

  /** Stores the preferences of a test. They replace those stored before, unless there
      are none. */
  method AddPrefs(store: Store, nvt: Nvt)
    modifies store
    ensures store.Get(PrefsKey(nvt.info.oid)) ==
            if nvt.prefs == [] then old(store.Get(PrefsKey(nvt.info.oid))) else PrintedPrefs(nvt.prefs)
    ensures store.OthersKept(PrefsKey(nvt.info.oid))
  {
    hide PrefsKey, PrintedPref;
    var key, prefs := PrefsKey(nvt.info.oid), nvt.prefs;
    if prefs != [] {
      store.Delete(key);
    }
    for i := 0 to |prefs|
      invariant store.Get(key) == if prefs == [] then old(store.Get(key)) else PrintedPrefs(prefs)[..i]
      invariant store.OthersKept(key)
    {
      store.PushRight(key, [PrintedPref(prefs[i])]);
    }
  }

  /** Stores a test. */
  method AddNvt(store: Store, nvt: Nvt, filename: Option<string>, now: string) returns (rc: int)
    modifies store
    ensures rc == if filename.None? then -1 else 0
    ensures filename.None? ==> store.lists == old(store.lists)
    ensures filename.Some? ==>
              var oid := nvt.info.oid;
              && store.Get(Key(oid)) == old(store.Get(Key(oid))) + Fields(nvt.info, filename.value)
              && store.Get(PrefsKey(oid)) ==
                 (if nvt.prefs == [] then old(store.Get(PrefsKey(oid))) else PrintedPrefs(nvt.prefs))
              && store.Get(FileKey(filename.value)) == old(store.Get(FileKey(filename.value))) + [now, oid]
              && forall n :: n != Key(oid) && n != PrefsKey(oid) && n != FileKey(filename.value) ==>
                   store.Get(n) == old(store.Get(n))
  {
    hide Key, PrefsKey, FileKey, PrintedPrefs, Fields;
    if filename.None? {
      return -1;
    }
    var oid := nvt.info.oid;
    KeysDiffer(oid, filename.value);
    var fields := FieldsOf(nvt.info, filename.value);
    store.PushRight(Key(oid), fields);
    AddPrefs(store, nvt);
    store.PushRight(FileKey(filename.value), [now, oid]);
    return 0;
  }

  /** The fields of a test, with the three lists of references. */
  method FieldsOf(i: Info, filename: string) returns (fields: seq<string>)
    ensures fields == Fields(i, filename)
  {
    hide Cves, Bids, Xrefs, Listed, OrEmpty, Printed;
    ListsOfClasses(i.refs);
    var cves := RefsString(i.refs, Some("cve"), "", false);
    var bids := RefsString(i.refs, Some("bid"), "", false);
    var xrefs := RefsString(i.refs, None, "cve,bid", true);
    fields := [filename, OrEmpty(i.requiredKeys), OrEmpty(i.mandatoryKeys), OrEmpty(i.excludedKeys),
               OrEmpty(i.requiredUdpPorts), OrEmpty(i.requiredPorts), OrEmpty(i.dependencies), OrEmpty(i.tag),
               OrEmpty(cves), OrEmpty(bids), OrEmpty(xrefs), Printed(i.category), i.family, i.name];
  }

  lemma {:induction false} ListsOfClasses(refs: seq<Ref>)
    ensures Chosen(refs, Some("cve"), ExcludedKinds("")) == Cves(refs)
    ensures Chosen(refs, Some("bid"), ExcludedKinds("")) == Bids(refs)
    ensures Chosen(refs, None, ExcludedKinds("cve,bid")) == Xrefs(refs)
  {
    hide Chosen;
    ExcludedKindsOf();
  }

  /** Loads a test; nothing if the key holds fewer fields. */
  method GetNvtAll(store: Store, oid: string) returns (nvt: Nvt?)
    ensures nvt == null <==> |store.Get(Key(oid))| < NAME + 1
    ensures nvt != null ==> fresh(nvt) && nvt.prefs == [] && nvt.info == Loaded(oid, store.Get(Key(oid))[..NAME + 1])
  {
    hide ReadRefs, Atoi, Present, Key;
    var list := store.Get(Key(oid));
    if |list| < NAME + 1 {
      return null;
    }
    var f := list[..NAME + 1];
    nvt := new Nvt(Info(oid, f[NAME], f[FAMILY], Atoi(f[CATEGORY]),
                        Present(f[REQUIRED_KEYS]), Present(f[MANDATORY_KEYS]), Present(f[EXCLUDED_KEYS]),
                        Present(f[REQUIRED_UDP_PORTS]), Present(f[REQUIRED_PORTS]), Present(f[DEPENDENCIES]),
                        Present(f[TAGS]), []), []);
    var _ := nvt.AddRefs(Some("cve"), Some(f[CVES]), "");
    var _ := nvt.AddRefs(Some("bid"), Some(f[BIDS]), "");
    var _ := nvt.AddRefs(None, Some(f[XREFS]), "");
  }

  /** Absent and empty are the same. */
  function Normal(s: Option<string>): Option<string> {
    Present(OrEmpty(s))
  }

  /** The test as it comes back. */
  function RestoredInfo(i: Info): Info {
    Info(i.oid, i.name, i.family, i.category,
         Normal(i.requiredKeys), Normal(i.mandatoryKeys), Normal(i.excludedKeys),
         Normal(i.requiredUdpPorts), Normal(i.requiredPorts), Normal(i.dependencies),
         Normal(i.tag), Restored(i.refs))
  }

  /** The fields of a test give it back, with the stable partition of its references,
      exactly if its references are plain. */
  lemma {:induction false} FieldsRoundTrip(i: Info, filename: string)
    ensures Loaded(i.oid, Fields(i, filename)) == RestoredInfo(i) <==> Plain(i.refs)
  {
    hide Listed, ReadRefs, Restored, Atoi, Printed, Cves, Bids, Xrefs, Plain;
    RefsRoundTrip(i.refs);
    AtoiOfPrinted(i.category);
  }

  /** Reads the preferences of a test; no result where an assertion of the source fails. */
  method GetPrefs(store: Store, oid: string) returns (prefs: Option<seq<Pref>>)
    ensures prefs == ReadPrefs(store.Get(PrefsKey(oid)))
  {
    hide ReadPref, PrefsKey;
    var entries := store.Get(PrefsKey(oid));
    var list: seq<Pref> := [];
    var k := |entries|;
    assert entries[..k] == entries;
    while k > 0
      invariant 0 <= k <= |entries|
      invariant ReadPrefs(entries).Some? == ReadPrefs(entries[..k]).Some?
      invariant ReadPrefs(entries).Some? ==> ReadPrefs(entries).value == list + ReadPrefs(entries[..k]).value
    {
      assert entries[..k][..k - 1] == entries[..k - 1];
      var pref := ReadPref(entries[k - 1]);
      if pref.None? {
        return None;
      }
      list := list + [pref.value];
      k := k - 1;
    }
    assert list + [] == list;
    return Some(list);
  }

  /** An optional field comes back: a text as it was, and nothing for nothing or for the
      empty text. */
  predicate CameBack(before: Option<string>, after: Option<string>) {
    && (before.Some? && before.value != "" ==> after == before)
    && (before.None? || before.value == "" ==> after.None?)
  }

  lemma {:induction false} NormalComesBack(s: Option<string>)
    ensures CameBack(s, Normal(s))
  {
  }

  /** The scalar fields come back in any case. */
  lemma {:induction false} ScalarsRoundTrip(i: Info, filename: string)
    ensures var b := Loaded(i.oid, Fields(i, filename));
            && b.oid == i.oid && b.name == i.name && b.family == i.family && b.category == i.category
            && CameBack(i.requiredKeys, b.requiredKeys) && CameBack(i.mandatoryKeys, b.mandatoryKeys)
            && CameBack(i.excludedKeys, b.excludedKeys) && CameBack(i.requiredUdpPorts, b.requiredUdpPorts)
            && CameBack(i.requiredPorts, b.requiredPorts) && CameBack(i.dependencies, b.dependencies)
            && CameBack(i.tag, b.tag)
  {
    hide Listed, ReadRefs, Atoi, Printed, Cves, Bids, Xrefs, CameBack, Present;
    AtoiOfPrinted(i.category);
    NormalComesBack(i.requiredKeys);
    NormalComesBack(i.mandatoryKeys);
    NormalComesBack(i.excludedKeys);
    NormalComesBack(i.requiredUdpPorts);
    NormalComesBack(i.requiredPorts);
    NormalComesBack(i.dependencies);
    NormalComesBack(i.tag);
  }

  lemma {:induction false} RefsCameBack(i: Info, filename: string)
    ensures Loaded(i.oid, Fields(i, filename)).refs == Restored(i.refs) <==> Plain(i.refs)
  {
    hide Listed, ReadRefs, Restored, Atoi, Printed, Cves, Bids, Xrefs, Plain, Present;
    RefsRoundTrip(i.refs);
  }

  /** What remains of a reference. */
  function Remains(ref: Ref): Ref {
    Ref(if SameKind(ref.kind, "cve") then "cve" else if SameKind(ref.kind, "bid") then "bid" else ref.kind, ref.id, "")
  }

  /** The references are in the places of the stable partition. */
  predicate InPlace(refs: seq<Ref>, back: seq<Ref>) {
    && |back| == |refs|
    && forall k :: 0 <= k < |refs| ==> Place(refs, k) < |back| && back[Place(refs, k)] == Remains(refs[k])
  }

  lemma {:induction false} RestoredInPlace(refs: seq<Ref>)
    ensures InPlace(refs, Restored(refs))
  {
    hide Place, Restored, SameKind;
    forall k | 0 <= k < |refs|
      ensures |Restored(refs)| == |refs| && Place(refs, k) < |refs|
      ensures Restored(refs)[Place(refs, k)] == Remains(refs[k])
    {
      RestoredAt(refs, k);
    }
    RestoredSize(refs);
  }

  lemma {:induction false} RestoredSize(refs: seq<Ref>)
    ensures |Restored(refs)| == |refs|
  {
    hide Chosen;
    if refs == [] {
      NothingRestored();
    } else {
      hide Restored;
      RestoredAt(refs, 0);
    }
  }

  lemma {:induction false} NothingRestored()
    ensures Restored([]) == []
  {
  }

  /** A test that is stored under a fresh key comes back: the scalar fields in any case; the
      references, in their classes and without texts, exactly if they are plain; and its
      preferences, in the opposite order, exactly if their fields are clean. */
  method StoreThenLoad(store: Store, nvt: Nvt, filename: string, now: string)
    returns (back: Nvt?, prefs: Option<seq<Pref>>)
    requires store.Get(Key(nvt.info.oid)) == []
    modifies store
    ensures back != null
    ensures var i, b := nvt.info, back.info;
            && b.oid == i.oid && b.name == i.name && b.family == i.family && b.category == i.category
            && CameBack(i.requiredKeys, b.requiredKeys) && CameBack(i.mandatoryKeys, b.mandatoryKeys)
            && CameBack(i.excludedKeys, b.excludedKeys) && CameBack(i.requiredUdpPorts, b.requiredUdpPorts)
            && CameBack(i.requiredPorts, b.requiredPorts) && CameBack(i.dependencies, b.dependencies)
            && CameBack(i.tag, b.tag)
    ensures back.info.refs == Restored(nvt.info.refs) <==> Plain(nvt.info.refs)
    ensures Plain(nvt.info.refs) ==> InPlace(nvt.info.refs, back.info.refs)
    ensures nvt.prefs != [] ==> (prefs == Some(Reversed(nvt.prefs)) <==> AllClean(nvt.prefs))
  {
    hide Key, PrefsKey, Fields, PrintedPrefs, ReadPrefs, Loaded, Plain, AllClean, Reversed, CameBack, Restored, InPlace;
    var _ := AddNvt(store, nvt, Some(filename), now);
    back := GetNvtAll(store, nvt.info.oid);
    prefs := GetPrefs(store, nvt.info.oid);
    ghost var fields := Fields(nvt.info, filename);
    assert ([] + fields)[..NAME + 1] == fields;
    ScalarsRoundTrip(nvt.info, filename);
    RefsCameBack(nvt.info, filename);
    RestoredInPlace(nvt.info.refs);
    PrefsRoundTrip(nvt.prefs);
  }

  // ------------------------------------------------------------- Fields by position

  /** LINDEX with a position that is not negative. */
  function At(list: seq<string>, k: nat): Option<string> {
    if k < |list| then Some(list[k]) else None
  }

  /** One field of a test by its position; the time and the OID are those of a file. */
  method GetNvt(store: Store, oid: string, position: nat) returns (value: Option<string>)
    ensures value == if position >= 14 then At(store.Get(FileKey(oid)), position - 14)
                     else At(store.Get(Key(oid)), position)
  {
    var list := store.Get(if position >= 14 then FileKey(oid) else Key(oid));
    var k := if position >= 14 then position - 14 else position;
    value := if k < |list| then Some(list[k]) else None;
  }

  function TextOrEmpty(s: Option<string>): string {
    if s.None? then "" else s.value
  }

  /** Every field of a test that is stored under fresh keys is found at its position. */
  method StoreThenGet(store: Store, nvt: Nvt, filename: string, now: string, position: nat)
    returns (value: Option<string>, ofFile: Option<string>)
    requires store.Get(Key(nvt.info.oid)) == [] && store.Get(FileKey(filename)) == [] && position < 16
    modifies store
    ensures var i := nvt.info;
            position < 14 ==> value == Some(
              if position == 0 then filename
              else if position == 1 then TextOrEmpty(i.requiredKeys)
              else if position == 2 then TextOrEmpty(i.mandatoryKeys)
              else if position == 3 then TextOrEmpty(i.excludedKeys)
              else if position == 4 then TextOrEmpty(i.requiredUdpPorts)
              else if position == 5 then TextOrEmpty(i.requiredPorts)
              else if position == 6 then TextOrEmpty(i.dependencies)
              else if position == 7 then TextOrEmpty(i.tag)
              else if position == 8 then TextOrEmpty(Listed(Cves(i.refs), false))
              else if position == 9 then TextOrEmpty(Listed(Bids(i.refs), false))
              else if position == 10 then TextOrEmpty(Listed(Xrefs(i.refs), true))
              else if position == 11 then Printed(i.category)
              else if position == 12 then i.family
              else i.name)
    ensures position == 14 ==> ofFile == Some(now)
    ensures position == 15 ==> ofFile == Some(nvt.info.oid)
  {
    hide Key, PrefsKey, FileKey, PrintedPrefs, Listed, Cves, Bids, Xrefs, Printed;
    var _ := AddNvt(store, nvt, Some(filename), now);
    assert [] + Fields(nvt.info, filename) == Fields(nvt.info, filename);
    assert [] + [now, nvt.info.oid] == [now, nvt.info.oid];
    value := GetNvt(store, nvt.info.oid, position);
    ofFile := GetNvt(store, filename, position);
  }

  /** The fields that are read when a test is stored behind a list: those of the list
      first, so that the fields of the test are shifted, or not read at all. */
  function Shifted(list: seq<string>, fields: seq<string>): (r: seq<string>)
    requires |fields| == NAME + 1
    ensures |r| == NAME + 1
  {
    if |list| > NAME then list[..NAME + 1] else list + fields[..NAME + 1 - |list|]
  }

  /** Storing appends. Whatever the key held before, what is loaded are its old fields and
      then the first fields of the new test: the old test if there were fourteen, and
      otherwise a test whose name is another field. */
  method StoreOverOld(store: Store, nvt: Nvt, filename: string, now: string) returns (before: Nvt?, after: Nvt?)
    modifies store
    ensures var list := old(store.Get(Key(nvt.info.oid)));
            var fields := Fields(nvt.info, filename);
            && (before != null <==> |list| > NAME)
            && after != null && after.info == Loaded(nvt.info.oid, Shifted(list, fields))
            && (before != null ==> after.info == before.info)
            && (before == null ==> after.info.name == fields[NAME - |list|])
  {
    hide Key, PrefsKey, Fields, PrintedPrefs, ReadRefs, Atoi, Present;
    ghost var list := store.Get(Key(nvt.info.oid));
    ghost var fields := Fields(nvt.info, filename);
    before := GetNvtAll(store, nvt.info.oid);
    var _ := AddNvt(store, nvt, Some(filename), now);
    after := GetNvtAll(store, nvt.info.oid);
    assert (list + fields)[..NAME + 1] == Shifted(list, fields);
  }

  /** Loading normalises: a test that came back is stored and comes back unchanged. */
  lemma {:induction false} RestoredInfoTwice(i: Info)
    ensures RestoredInfo(RestoredInfo(i)) == RestoredInfo(i)
  {
    hide Restored;
    RestoredTwice(i.refs);
  }
}
