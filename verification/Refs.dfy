/**
 The references of a vulnerability test, printed as comma-separated lists and read back.
 */
module Refs {
  import opened Text

  datatype Ref = Ref(kind: string, id: string, text: string)

  /** strcasecmp finds no difference. */
  predicate SameKind(a: string, b: string) {
    Lower(a) == Lower(b)
  }

  // --------------------------------------------------------------------- Printing

  predicate Excluded(kinds: seq<string>, kind: string) {
    exists i :: 0 <= i < |kinds| && SameKind(Strip(kinds[i]), kind)
  }

  predicate Picked(ref: Ref, kind: Option<string>, excluded: seq<string>) {
    (kind.None? || SameKind(ref.kind, kind.value)) && !Excluded(excluded, ref.kind)
  }

  /** The references of a kind, or of no excluded kind, in their order. */
  function Chosen(refs: seq<Ref>, kind: Option<string>, excluded: seq<string>): (r: seq<Ref>)
    ensures forall i :: 0 <= i < |r| ==> Picked(r[i], kind, excluded) && r[i] in refs
  {
    if refs == [] then []
    else
      var front, last := Chosen(refs[..|refs| - 1], kind, excluded), refs[|refs| - 1];
      if Picked(last, kind, excluded) then front + [last] else front
  }

  function PrintedRef(ref: Ref, useTypes: bool): string {
    if useTypes then ref.kind + ":" + ref.id else ref.id
  }

  function PrintedRefs(refs: seq<Ref>, useTypes: bool): (r: seq<string>)
    ensures |r| == |refs|
  {
    seq(|refs|, i requires 0 <= i < |refs| => PrintedRef(refs[i], useTypes))
  }

  /** The list as a string; no string for no references. */
  function Listed(refs: seq<Ref>, useTypes: bool): Option<string> {
    if refs == [] then None else Some(Join(PrintedRefs(refs, useTypes), ", "))
  }

  lemma {:induction false} JoinAppend(pieces: seq<string>, last: string, sep: string)
    requires pieces != []
    ensures Join(pieces + [last], sep) == Join(pieces, sep) + sep + last
  {
    if |pieces| == 1 {
      assert (pieces + [last])[1..] == [last];
    } else {
      JoinAppend(pieces[1..], last, sep);
      assert (pieces + [last])[1..] == pieces[1..] + [last];
    }
  }

  lemma {:induction false} ListedAppend(refs: seq<Ref>, ref: Ref, useTypes: bool)
    ensures Listed(refs + [ref], useTypes) ==
            Some(if refs == [] then PrintedRef(ref, useTypes)
                 else Listed(refs, useTypes).value + ", " + PrintedRef(ref, useTypes))
  {
    var texts := PrintedRefs(refs, useTypes);
    assert PrintedRefs(refs + [ref], useTypes) == texts + [PrintedRef(ref, useTypes)];
    if refs == [] {
      assert texts + [PrintedRef(ref, useTypes)] == [PrintedRef(ref, useTypes)];
    } else {
      JoinAppend(texts, PrintedRef(ref, useTypes), ", ");
    }
  }

  /** What the printed list looks like: "id, id" or "type:id, type:id". */
  lemma {:induction false} ListedText(refs: seq<Ref>, ref: Ref)
    ensures Listed([], true) == Listed([], false) == None
    ensures Listed(refs + [ref], true) ==
            Some((if refs == [] then "" else Listed(refs, true).value + ", ") + ref.kind + ":" + ref.id)
    ensures Listed(refs + [ref], false) ==
            Some((if refs == [] then "" else Listed(refs, false).value + ", ") + ref.id)
  {
    ListedAppend(refs, ref, true);
    ListedAppend(refs, ref, false);
    if refs == [] {
      assert "" + ref.kind + ":" + ref.id == ref.kind + ":" + ref.id && "" + ref.id == ref.id;
    } else {
      var front := Listed(refs, true).value + ", ";
      assert front + ref.kind + ":" + ref.id == front + (ref.kind + ":" + ref.id);
    }
  }

  /** The kinds in a list of excluded kinds. */
  function ExcludedKinds(excludeTypes: string): seq<string> {
    Split(excludeTypes, ',')
  }

  method IsExcluded(kinds: seq<string>, kind: string) returns (excluded: bool)
    ensures excluded == Excluded(kinds, kind)
  {
    for i := 0 to |kinds|
      invariant forall j :: 0 <= j < i ==> !SameKind(Strip(kinds[j]), kind)
    {
      if Lower(Strip(kinds[i])) == Lower(kind) {
        return true;
      }
    }
    return false;
  }

  /** The references as a string. */
  method RefsString(refs: seq<Ref>, kind: Option<string>, excludeTypes: string, useTypes: bool)
    returns (text: Option<string>)
    ensures text == Listed(Chosen(refs, kind, ExcludedKinds(excludeTypes)), useTypes)
  {
    var kinds := Split(excludeTypes, ',');
    text := None;
    for i := 0 to |refs|
      invariant text == Listed(Chosen(refs[..i], kind, kinds), useTypes)
    {
      assert refs[..i + 1][..i] == refs[..i];
      if kind.Some? && Lower(refs[i].kind) != Lower(kind.value) {
        continue;
      }
      var excluded := IsExcluded(kinds, refs[i].kind);
      if !excluded {
        ListedAppend(Chosen(refs[..i], kind, kinds), refs[i], useTypes);
        var printed := if useTypes then refs[i].kind + ":" + refs[i].id else refs[i].id;
        text := Some(if text.Some? then text.value + ", " + printed else printed);
      }
    }
    assert refs[..|refs|] == refs;
  }

  // ---------------------------------------------------------------------- Reading

  /** What one item of a list contributes. */
  function ReadItem(item: string, kind: Option<string>, text: string): seq<Ref> {
    var id := Strip(item);
    if id == "" then []
    else if kind.Some? then [Ref(kind.value, id, text)]
    else
      var i := Find(id, ':');
      if i < |id| then [Ref(id[..i], id[i + 1..], "")] else []
  }

  function ReadItems(items: seq<string>, kind: Option<string>, text: string): seq<Ref> {
    if items == [] then []
    else ReadItems(items[..|items| - 1], kind, text) + ReadItem(items[|items| - 1], kind, text)
  }

  /** The references in a comma-separated list. */
  function ReadRefs(ids: string, kind: Option<string>, text: string): seq<Ref> {
    ReadItems(Split(ids, ','), kind, text)
  }

  // ------------------------------------------------------------------- Round trip

  /** The texts with the space that is printed behind the comma. */
  function Spaced(texts: seq<string>): (r: seq<string>)
    ensures |r| == |texts|
  {
    seq(|texts|, i requires 0 <= i < |texts| => if i == 0 then texts[0] else " " + texts[i])
  }

  lemma {:induction false} JoinWithSpace(texts: seq<string>)
    requires texts != []
    ensures Join(texts, ", ") == Join(Spaced(texts), ",")
  {
    var n := |texts| - 1;
    if n > 0 {
      var front := texts[..n];
      JoinWithSpace(front);
      assert texts == front + [texts[n]];
      assert Spaced(texts) == Spaced(front) + [" " + texts[n]];
      JoinAppend(front, texts[n], ", ");
      JoinAppend(Spaced(front), " " + texts[n], ",");
    }
  }

  /** A text that survives the list: not empty, without comma and outer white space. */
  predicate PlainText(s: string) {
    s != "" && ',' !in s && Stripped(s)
  }

  lemma {:induction false} SplitOfListed(texts: seq<string>)
    requires texts != [] && forall i :: 0 <= i < |texts| ==> PlainText(texts[i])
    ensures Split(Join(texts, ", "), ',') == Spaced(texts)
  {
    hide Pieces;
    JoinWithSpace(texts);
    PiecesOfJoin(Spaced(texts), ',');
    JoinStart(Spaced(texts));
  }

  lemma {:induction false} JoinStart(pieces: seq<string>)
    requires pieces != [] && pieces[0] != ""
    ensures Join(pieces, ",") != ""
  {
  }

  lemma {:induction false} StripSpaced(texts: seq<string>, i: nat)
    requires i < |texts| && PlainText(texts[i])
    ensures Strip(Spaced(texts)[i]) == texts[i]
  {
    if i == 0 {
      StripStripped(texts[0]);
    } else {
      StripAfterSpace(texts[i]);
    }
  }

  lemma {:induction false} ReadItemsAre(items: seq<string>, kind: Option<string>, text: string, refs: seq<Ref>)
    requires |items| == |refs| && forall i :: 0 <= i < |items| ==> ReadItem(items[i], kind, text) == [refs[i]]
    ensures ReadItems(items, kind, text) == refs
  {
    hide ReadItem;
    if items != [] {
      ReadItemsAre(items[..|items| - 1], kind, text, refs[..|refs| - 1]);
      assert refs == refs[..|refs| - 1] + [refs[|refs| - 1]];
    }
  }

  /** What one written item means: with a kind given, a reference of that kind with the text;
      otherwise what stands before and behind its first colon. Blank items mean nothing, and
      without a kind neither do items without a colon. */
  lemma {:induction false} WrittenItem(pre: string, item: string, post: string, kind: Option<string>, text: string)
    requires White(pre) && White(post) && Stripped(item)
    ensures item == "" ==> ReadItem(pre + item + post, kind, text) == []
    ensures item != "" && kind.Some? ==> ReadItem(pre + item + post, kind, text) == [Ref(kind.value, item, text)]
    ensures ':' !in item && kind.None? ==> ReadItem(pre + item + post, kind, text) == []
    ensures forall k, id :: kind.None? && ':' !in k && item == k + ":" + id ==>
              ReadItem(pre + item + post, kind, text) == [Ref(k, id, "")]
  {
    hide Strip, White, Stripped;
    StripAround(pre, item, post);
    FindFirst(item, ':');
    forall k, id | kind.None? && ':' !in k && item == k + ":" + id
      ensures ReadItem(pre + item + post, kind, text) == [Ref(k, id, "")]
    {
      FindUnique(item, ':', |k|);
      assert item[..|k|] == k && item[|k| + 1..] == id;
    }
  }

  /** A written list of ids of one kind means a reference for each of them, in order. */
  lemma {:induction false} WrittenIds(ids: seq<string>, pre: seq<string>, post: seq<string>, kind: string, text: string)
    requires Listable(ids, pre, post)
    ensures ReadRefs(Join(Padded(ids, pre, post), ","), Some(kind), text) ==
            seq(|ids|, i requires 0 <= i < |ids| => Ref(kind, ids[i], text))
  {
    hide Join, Split, Strip, ReadItem;
    PaddedPieces(ids, pre, post);
    forall i | 0 <= i < |ids|
      ensures ReadItem(Padded(ids, pre, post)[i], Some(kind), text) == [Ref(kind, ids[i], text)]
    {
      WrittenItem(pre[i], ids[i], post[i], Some(kind), text);
    }
    ReadItemsAre(Padded(ids, pre, post), Some(kind), text,
                 seq(|ids|, i requires 0 <= i < |ids| => Ref(kind, ids[i], text)));
  }

  /** What is stored for a list. */
  function OrEmpty(s: Option<string>): string {
    if s.Some? then s.value else ""
  }

  /** The references with another kind, and without their texts. */
  function Renamed(refs: seq<Ref>, kind: string): (r: seq<Ref>)
    ensures |r| == |refs|
  {
    seq(|refs|, i requires 0 <= i < |refs| => Ref(kind, refs[i].id, ""))
  }

  function Textless(refs: seq<Ref>): (r: seq<Ref>)
    ensures |r| == |refs|
  {
    seq(|refs|, i requires 0 <= i < |refs| => Ref(refs[i].kind, refs[i].id, ""))
  }

  /** Plain ids are read back as references of the given kind. */
  lemma {:induction false} PlainIdsRoundTrip(refs: seq<Ref>, kind: string)
    requires forall i :: 0 <= i < |refs| ==> PlainText(refs[i].id)
    ensures ReadRefs(OrEmpty(Listed(refs, false)), Some(kind), "") == Renamed(refs, kind)
  {
    hide Join, Split, Strip, PlainText;
    if refs == [] {
      NoItems(Some(kind), "");
    } else {
      var texts := PrintedRefs(refs, false);
      SplitOfListed(texts);
      forall i | 0 <= i < |texts|
        ensures ReadItem(Spaced(texts)[i], Some(kind), "") == [Renamed(refs, kind)[i]]
      {
        StripSpaced(texts, i);
        NotEmpty(texts[i]);
      }
      ReadItemsAre(Spaced(texts), Some(kind), "", Renamed(refs, kind));
    }
  }

  // What is read is plain, whatever the list: so only plain references come back.

  lemma {:induction false} PiecesWithoutSeparator(s: string, sep: char, i: nat)
    requires i < |Pieces(s, sep)|
    ensures sep !in Pieces(s, sep)[i]
    decreases |s|
  {
    var k := Find(s, sep);
    FindFirst(s, sep);
    if k < |s| && i > 0 {
      PiecesWithoutSeparator(s[k + 1..], sep, i - 1);
    }
  }

  lemma {:induction false} StripKeepsOut(s: string, c: char)
    requires c !in s
    ensures c !in Strip(s) && Stripped(Strip(s))
  {
  }

  /** What a read reference looks like. */
  predicate ReadAs(ref: Ref, kind: Option<string>) {
    if kind.Some? then ref.kind == kind.value && PlainText(ref.id) else PlainRef(ref)
  }

  lemma {:induction false} ReadItemIsPlain(item: string, kind: Option<string>, text: string)
    requires ',' !in item
    ensures |ReadItem(item, kind, text)| <= 1
    ensures ReadItem(item, kind, text) != [] ==> ReadAs(ReadItem(item, kind, text)[0], kind)
  {
    hide Strip;
    var id := Strip(item);
    StripKeepsOut(item, ',');
    if id != "" && kind.None? {
      var i := Find(id, ':');
      FindFirst(id, ':');
      if i < |id| {
        assert id == id[..i] + ":" + id[i + 1..];
      }
    }
  }

  lemma {:induction false} ReadItemsArePlain(items: seq<string>, kind: Option<string>, text: string, k: nat)
    requires forall i :: 0 <= i < |items| ==> ',' !in items[i]
    requires k < |ReadItems(items, kind, text)|
    ensures ReadAs(ReadItems(items, kind, text)[k], kind)
  {
    hide ReadItem, ReadAs;
    var n := |items| - 1;
    var front := ReadItems(items[..n], kind, text);
    if k < |front| {
      ReadItemsArePlain(items[..n], kind, text, k);
    } else {
      ReadItemIsPlain(items[n], kind, text);
    }
  }

  lemma {:induction false} ReadRefsArePlain(ids: string, kind: Option<string>, text: string, k: nat)
    requires k < |ReadRefs(ids, kind, text)|
    ensures ReadAs(ReadRefs(ids, kind, text)[k], kind)
  {
    hide ReadItems, Pieces, ReadAs;
    forall i | 0 <= i < |Split(ids, ',')|
      ensures ',' !in Split(ids, ',')[i]
    {
      PiecesWithoutSeparator(ids, ',', i);
    }
    ReadItemsArePlain(Split(ids, ','), kind, text, k);
  }

  predicate PlainIds(refs: seq<Ref>) {
    forall i :: 0 <= i < |refs| ==> PlainText(refs[i].id)
  }

  predicate PlainRefs(refs: seq<Ref>) {
    forall i :: 0 <= i < |refs| ==> PlainRef(refs[i])
  }

  /** A list of ids is read back as references of the given kind exactly if the ids are
      plain. */
  lemma {:induction false} IdsRoundTrip(refs: seq<Ref>, kind: string)
    ensures ReadRefs(OrEmpty(Listed(refs, false)), Some(kind), "") == Renamed(refs, kind) <==> PlainIds(refs)
  {
    hide ReadRefs, Listed, PlainText;
    var back := ReadRefs(OrEmpty(Listed(refs, false)), Some(kind), "");
    if PlainIds(refs) {
      PlainIdsRoundTrip(refs, kind);
    } else if back == Renamed(refs, kind) {
      forall i | 0 <= i < |refs|
        ensures PlainText(refs[i].id)
      {
        ReadRefsArePlain(OrEmpty(Listed(refs, false)), Some(kind), "", i);
        assert back[i].id == refs[i].id;
      }
      assert false;
    }
  }

  lemma {:induction false} NoItems(kind: Option<string>, text: string)
    ensures ReadRefs("", kind, text) == []
  {
  }

  lemma {:induction false} NotEmpty(s: string)
    requires PlainText(s)
    ensures s != ""
  {
  }

  /** A reference that survives a list with kinds. */
  predicate PlainRef(ref: Ref) {
    ':' !in ref.kind && PlainText(PrintedRef(ref, true))
  }

  lemma {:induction false} PlainPrinted(ref: Ref)
    requires PlainRef(ref)
    ensures var s := PrintedRef(ref, true);
            && PlainText(s) && Find(s, ':') == |ref.kind| < |s|
            && s[..|ref.kind|] == ref.kind && s[|ref.kind| + 1..] == ref.id
  {
    FindUnique(PrintedRef(ref, true), ':', |ref.kind|);
  }

  /** Plain references are read back without the texts. */
  lemma {:induction false} PlainKindsRoundTrip(refs: seq<Ref>)
    requires forall i :: 0 <= i < |refs| ==> PlainRef(refs[i])
    ensures ReadRefs(OrEmpty(Listed(refs, true)), None, "") == Textless(refs)
  {
    hide Join, Split, Strip, PlainText, PlainRef, PrintedRef;
    if refs == [] {
      NoItems(None, "");
    } else {
      var texts := PrintedRefs(refs, true);
      forall i | 0 <= i < |texts|
        ensures PlainText(texts[i])
      {
        PlainPrinted(refs[i]);
      }
      SplitOfListed(texts);
      forall i | 0 <= i < |texts|
        ensures ReadItem(Spaced(texts)[i], None, "") == [Textless(refs)[i]]
      {
        PlainPrinted(refs[i]);
        StripSpaced(texts, i);
        NotEmpty(texts[i]);
      }
      ReadItemsAre(Spaced(texts), None, "", Textless(refs));
    }
  }

  /** A list with kinds is read back without the texts exactly if the references are plain. */
  lemma {:induction false} KindsRoundTrip(refs: seq<Ref>)
    ensures ReadRefs(OrEmpty(Listed(refs, true)), None, "") == Textless(refs) <==> PlainRefs(refs)
  {
    hide ReadRefs, Listed, PlainRef;
    var back := ReadRefs(OrEmpty(Listed(refs, true)), None, "");
    if PlainRefs(refs) {
      PlainKindsRoundTrip(refs);
    } else if back == Textless(refs) {
      forall i | 0 <= i < |refs|
        ensures PlainRef(refs[i])
      {
        ReadRefsArePlain(OrEmpty(Listed(refs, true)), None, "", i);
        TextDoesNotMatter(back[i], refs[i]);
      }
      assert false;
    }
  }

  lemma {:induction false} TextDoesNotMatter(a: Ref, b: Ref)
    requires PlainRef(a) && a.kind == b.kind && a.id == b.id
    ensures PlainRef(b)
  {
  }

  /** An id with a comma is read as two ids. */
  lemma {:induction false} CommaLost()
    ensures var refs := [Ref("cve", "a,b", "")];
            ReadRefs(OrEmpty(Listed(refs, false)), Some("cve"), "") != Renamed(refs, "cve")
  {
    var refs := [Ref("cve", "a,b", "")];
    assert "a,b"[1] == ',' && refs[0].id == "a,b";
    hide ReadRefs, Listed, Renamed;
    IdsRoundTrip(refs, "cve");
  }

  // -------------------------------------------------------------------- Partition

  function Cves(refs: seq<Ref>): seq<Ref> {
    Chosen(refs, Some("cve"), [])
  }

  function Bids(refs: seq<Ref>): seq<Ref> {
    Chosen(refs, Some("bid"), [])
  }

  function Xrefs(refs: seq<Ref>): seq<Ref> {
    Chosen(refs, None, ["cve", "bid"])
  }

  lemma {:induction false} ExcludedKindsOf()
    ensures ExcludedKinds("cve,bid") == ["cve", "bid"] && ExcludedKinds("") == []
  {
    assert Join(["cve", "bid"], ",") == "cve" + "," + Join(["bid"], ",") == "cve,bid";
    PiecesOfJoin(["cve", "bid"], ',');
  }

  /** Every reference is of exactly one of the three classes. */
  lemma {:induction false} OneClass(ref: Ref)
    ensures Picked(ref, None, ["cve", "bid"]) <==> !Picked(ref, Some("cve"), []) && !Picked(ref, Some("bid"), [])
    ensures !(Picked(ref, Some("cve"), []) && Picked(ref, Some("bid"), []))
  {
    var kinds := ["cve", "bid"];
    StripStripped("cve");
    StripStripped("bid");
    assert kinds[0] == "cve" && kinds[1] == "bid";
    assert Lower("cve")[0] == 'c' && Lower("bid")[0] == 'b';
    if SameKind(ref.kind, "cve") {
      assert SameKind(Strip(kinds[0]), ref.kind);
    }
    if SameKind(ref.kind, "bid") {
      assert SameKind(Strip(kinds[1]), ref.kind);
    }
  }

  /** The three lists hold every reference exactly once. */
  lemma {:induction false} Partition(refs: seq<Ref>)
    ensures multiset(Cves(refs)) + multiset(Bids(refs)) + multiset(Xrefs(refs)) == multiset(refs)
  {
    hide Picked;
    if refs != [] {
      var front, last := refs[..|refs| - 1], refs[|refs| - 1];
      Partition(front);
      OneClass(last);
      assert refs == front + [last];
    }
  }

  /** The references as they come back: the stable partition into CVE, BID and others,
      with lower-case kinds for the first two, and without texts. */
  function Restored(refs: seq<Ref>): seq<Ref> {
    Renamed(Cves(refs), "cve") + Renamed(Bids(refs), "bid") + Textless(Xrefs(refs))
  }

  /** The class of a reference: CVE, BID, in any case, or another one. */
  function ClassOf(ref: Ref): nat {
    if SameKind(ref.kind, "cve") then 0 else if SameKind(ref.kind, "bid") then 1 else 2
  }

  /** How many references are of a class. */
  function Among(refs: seq<Ref>, class_: nat): nat {
    if refs == [] then 0
    else Among(refs[..|refs| - 1], class_) + if ClassOf(refs[|refs| - 1]) == class_ then 1 else 0
  }

  /** Where the i-th reference goes: behind those of lower classes, and behind those of its
      own class that were before it. */
  function Place(refs: seq<Ref>, i: nat): nat
    requires i < |refs|
  {
    var k := ClassOf(refs[i]);
    (if k > 0 then Among(refs, 0) else 0) + (if k > 1 then Among(refs, 1) else 0) + Among(refs[..i], k)
  }

  function OfClass(refs: seq<Ref>, class_: nat): seq<Ref>
    requires class_ < 3
  {
    if class_ == 0 then Cves(refs) else if class_ == 1 then Bids(refs) else Xrefs(refs)
  }

  lemma {:induction false} OfClassSnoc(refs: seq<Ref>, class_: nat)
    requires refs != [] && class_ < 3
    ensures OfClass(refs, class_) == OfClass(refs[..|refs| - 1], class_) +
            if ClassOf(refs[|refs| - 1]) == class_ then [refs[|refs| - 1]] else []
  {
    var last := refs[|refs| - 1];
    OneClass(last);
    NothingExcluded(last.kind);
    hide Lower, Excluded;
  }

  /** The i-th reference in the list of its class. */
  lemma {:induction false} OfClassAt(refs: seq<Ref>, class_: nat, i: nat)
    requires class_ < 3
    ensures |OfClass(refs, class_)| == Among(refs, class_)
    ensures i < |refs| && ClassOf(refs[i]) == class_ ==>
              && Among(refs[..i], class_) < Among(refs, class_)
              && OfClass(refs, class_)[Among(refs[..i], class_)] == refs[i]
  {
    hide ClassOf, OfClass;
    if refs == [] {
      NoneOfClass(class_);
    } else {
      var n := |refs| - 1;
      OfClassAt(refs[..n], class_, i);
      OfClassSnoc(refs, class_);
      if i < n {
        assert refs[..n][..i] == refs[..i];
      }
    }
  }

  lemma {:induction false} NoneOfClass(class_: nat)
    requires class_ < 3
    ensures OfClass([], class_) == []
  {
  }

  lemma {:induction false} AllClasses(refs: seq<Ref>)
    ensures Among(refs, 0) + Among(refs, 1) + Among(refs, 2) == |refs|
  {
    if refs != [] {
      AllClasses(refs[..|refs| - 1]);
    }
  }

  /** Reference by reference: where it goes, and what remains of it. */
  lemma {:induction false} RestoredAt(refs: seq<Ref>, i: nat)
    requires i < |refs|
    ensures |Restored(refs)| == |refs| && Place(refs, i) < |refs|
    ensures Restored(refs)[Place(refs, i)] ==
            Ref(if SameKind(refs[i].kind, "cve") then "cve" else if SameKind(refs[i].kind, "bid") then "bid"
                else refs[i].kind, refs[i].id, "")
  {
    hide Cves, Bids, Xrefs, SameKind, Among;
    AllClasses(refs);
    OfClassAt(refs, 0, i);
    OfClassAt(refs, 1, i);
    OfClassAt(refs, 2, i);
  }

  /** References that survive the store. */
  predicate Plain(refs: seq<Ref>) {
    forall i :: 0 <= i < |refs| ==>
      if SameKind(refs[i].kind, "cve") || SameKind(refs[i].kind, "bid") then PlainText(refs[i].id)
      else PlainRef(refs[i])
  }

  lemma {:induction false} ChosenMembers(refs: seq<Ref>, kind: Option<string>, excluded: seq<string>, r: Ref)
    ensures r in Chosen(refs, kind, excluded) <==> r in refs && Picked(r, kind, excluded)
  {
    hide Picked;
    if refs != [] {
      var front, last := refs[..|refs| - 1], refs[|refs| - 1];
      ChosenMembers(front, kind, excluded, r);
      assert refs == front + [last];
    }
  }

  /** Which references are listed: those of the kind, up to the case of letters, and of no
      kind in the written list of excluded ones. */
  lemma {:induction false} WrittenExclusions(refs: seq<Ref>, kind: Option<string>, kinds: seq<string>,
                                             pre: seq<string>, post: seq<string>, r: Ref)
    requires Listable(kinds, pre, post)
    ensures r in Chosen(refs, kind, ExcludedKinds(Join(Padded(kinds, pre, post), ","))) <==>
            && r in refs && (kind.Some? ==> SameLetters(r.kind, kind.value))
            && forall i :: 0 <= i < |kinds| ==> !SameLetters(kinds[i], r.kind)
  {
    hide Join, Split, Strip, Lower, SameLetters;
    var pieces := Padded(kinds, pre, post);
    PaddedPieces(kinds, pre, post);
    forall i | 0 <= i < |kinds|
      ensures SameKind(Strip(pieces[i]), r.kind) <==> SameLetters(kinds[i], r.kind)
    {
      SameLower(kinds[i], r.kind);
    }
    if kind.Some? {
      SameLower(r.kind, kind.value);
    }
    ChosenMembers(refs, kind, pieces, r);
  }

  /** References are plain exactly if those of each class are. */
  lemma {:induction false} PlainClasses(refs: seq<Ref>)
    ensures Plain(refs) <==> PlainIds(Cves(refs)) && PlainIds(Bids(refs)) && PlainRefs(Xrefs(refs))
  {
    hide PlainText, PlainRef, Lower, Excluded;
    forall r: Ref
      ensures r in Cves(refs) <==> r in refs && SameKind(r.kind, "cve")
      ensures r in Bids(refs) <==> r in refs && SameKind(r.kind, "bid")
      ensures r in Xrefs(refs) <==> r in refs && !SameKind(r.kind, "cve") && !SameKind(r.kind, "bid")
    {
      ChosenMembers(refs, Some("cve"), [], r);
      ChosenMembers(refs, Some("bid"), [], r);
      ChosenMembers(refs, None, ["cve", "bid"], r);
      OneClass(r);
      NothingExcluded(r.kind);
    }
    PlainByMember(refs);
    IdsByMember(Cves(refs));
    IdsByMember(Bids(refs));
    RefsByMember(Xrefs(refs));
  }

  lemma {:induction false} NothingExcluded(kind: string)
    ensures !Excluded([], kind)
  {
  }

  lemma {:induction false} PlainByMember(refs: seq<Ref>)
    ensures Plain(refs) <==> forall r :: r in refs ==>
              if SameKind(r.kind, "cve") || SameKind(r.kind, "bid") then PlainText(r.id) else PlainRef(r)
  {
    hide PlainText, PlainRef, SameKind;
  }

  lemma {:induction false} IdsByMember(refs: seq<Ref>)
    ensures PlainIds(refs) <==> forall r :: r in refs ==> PlainText(r.id)
  {
    hide PlainText;
  }

  lemma {:induction false} RefsByMember(refs: seq<Ref>)
    ensures PlainRefs(refs) <==> forall r :: r in refs ==> PlainRef(r)
  {
    hide PlainRef;
  }

  predicate AllOfKind(refs: seq<Ref>, kind: string) {
    forall i :: 0 <= i < |refs| ==> refs[i].kind == kind
  }

  /** Two lists of different kinds, one behind the other, have one boundary. */
  lemma {:induction false} OneBoundary(a: seq<Ref>, b: seq<Ref>, x: seq<Ref>, y: seq<Ref>, k: string, m: string)
    requires k != m && AllOfKind(a, k) && AllOfKind(x, k) && AllOfKind(b, m) && AllOfKind(y, m)
    requires a + b == x + y
    ensures a == x && b == y
  {
    assert forall i :: 0 <= i < |a + b| ==> ((a + b)[i].kind == k <==> i < |a|);
    assert forall i :: 0 <= i < |x + y| ==> ((x + y)[i].kind == k <==> i < |x|);
    assert |a| < |a + b| ==> ((x + y)[|a|].kind == k <==> |a| < |x|);
    assert |x| < |a + b| ==> ((a + b)[|x|].kind == k <==> |x| < |a|);
    assert (a + b)[..|a|] == a && (x + y)[..|a|] == x;
    assert (a + b)[|a|..] == b && (x + y)[|a|..] == y;
  }

  lemma {:induction false} ReadKind(ids: string, kind: string)
    ensures AllOfKind(ReadRefs(ids, Some(kind), ""), kind)
  {
    hide ReadRefs, PlainText;
    forall k | 0 <= k < |ReadRefs(ids, Some(kind), "")|
      ensures ReadRefs(ids, Some(kind), "")[k].kind == kind
    {
      ReadRefsArePlain(ids, Some(kind), "", k);
    }
  }

  /** If the other references are at the end of what is read, they are plain. */
  lemma {:induction false} OthersArePlain(x: seq<Ref>, y: seq<Ref>, ids: string, front: seq<Ref>, xrefs: seq<Ref>)
    requires AllOfKind(x, "cve") && AllOfKind(y, "bid")
    requires forall i :: 0 <= i < |xrefs| ==> xrefs[i].kind != "cve" && xrefs[i].kind != "bid"
    requires x + y + ReadRefs(ids, None, "") == front + Textless(xrefs)
    ensures PlainRefs(xrefs)
  {
    hide ReadRefs, PlainRef;
    var z := ReadRefs(ids, None, "");
    forall i | 0 <= i < |xrefs|
      ensures PlainRef(xrefs[i])
    {
      var k := |front| + i;
      var r := (x + y + z)[k];
      assert r == (front + Textless(xrefs))[k] == Ref(xrefs[i].kind, xrefs[i].id, "");
      assert forall j :: 0 <= j < |x + y| ==> (x + y)[j].kind == "cve" || (x + y)[j].kind == "bid";
      assert k >= |x + y|;
      assert r == z[k - |x + y|];
      ReadRefsArePlain(ids, None, "", k - |x + y|);
      TextDoesNotMatter(r, xrefs[i]);
    }
  }

  lemma {:induction false} XrefKinds(refs: seq<Ref>)
    ensures forall i :: 0 <= i < |Xrefs(refs)| ==> Xrefs(refs)[i].kind != "cve" && Xrefs(refs)[i].kind != "bid"
  {
    hide Chosen, Lower, Excluded;
    forall i | 0 <= i < |Xrefs(refs)|
      ensures Xrefs(refs)[i].kind != "cve" && Xrefs(refs)[i].kind != "bid"
    {
      OneClass(Xrefs(refs)[i]);
      NothingExcluded(Xrefs(refs)[i].kind);
    }
  }

  /** What is read from the three lists of a list of references. */
  function ReadBack(refs: seq<Ref>): seq<Ref> {
    ReadRefs(OrEmpty(Listed(Cves(refs), false)), Some("cve"), "")
    + ReadRefs(OrEmpty(Listed(Bids(refs), false)), Some("bid"), "")
    + ReadRefs(OrEmpty(Listed(Xrefs(refs), true)), None, "")
  }

  lemma {:induction false} ReadBackIsPlain(refs: seq<Ref>)
    requires ReadBack(refs) == Restored(refs)
    ensures Plain(refs)
  {
    hide ReadRefs, Listed, Cves, Bids, Xrefs, PlainIds, PlainRefs, Plain, Renamed, Textless, AllOfKind;
    var cves, bids := OrEmpty(Listed(Cves(refs), false)), OrEmpty(Listed(Bids(refs), false));
    var xrefs := OrEmpty(Listed(Xrefs(refs), true));
    var x, y, z := ReadRefs(cves, Some("cve"), ""), ReadRefs(bids, Some("bid"), ""), ReadRefs(xrefs, None, "");
    var a, b, c := Renamed(Cves(refs), "cve"), Renamed(Bids(refs), "bid"), Textless(Xrefs(refs));
    ReadKind(cves, "cve");
    ReadKind(bids, "bid");
    XrefKinds(refs);
    OthersArePlain(x, y, xrefs, a + b, Xrefs(refs));
    KindsRoundTrip(Xrefs(refs));
    assert (x + y + z)[..|x + y|] == x + y && (a + b + c)[..|a + b|] == a + b;
    RenamedKind(Cves(refs), "cve");
    RenamedKind(Bids(refs), "bid");
    OneBoundary(x, y, a, b, "cve", "bid");
    IdsRoundTrip(Cves(refs), "cve");
    IdsRoundTrip(Bids(refs), "bid");
    PlainClasses(refs);
  }

  lemma {:induction false} RenamedKind(refs: seq<Ref>, kind: string)
    ensures AllOfKind(Renamed(refs, kind), kind)
  {
  }

  /** Printing the three lists and reading them back restores the references exactly if
      they are plain: what is lost in one list does not come back through another. */
  lemma {:induction false} RefsRoundTrip(refs: seq<Ref>)
    ensures ReadBack(refs) == Restored(refs) <==> Plain(refs)
  {
    hide ReadRefs, Listed, Cves, Bids, Xrefs, PlainIds, PlainRefs, Plain, Renamed, Textless;
    if Plain(refs) {
      PlainClasses(refs);
      IdsRoundTrip(Cves(refs), "cve");
      IdsRoundTrip(Bids(refs), "bid");
      KindsRoundTrip(Xrefs(refs));
    } else if ReadBack(refs) == Restored(refs) {
      ReadBackIsPlain(refs);
    }
  }

  // ------------------------------------------------------------------ Normal form

  lemma {:induction false} ChosenConcat(a: seq<Ref>, b: seq<Ref>, kind: Option<string>, excluded: seq<string>)
    ensures Chosen(a + b, kind, excluded) == Chosen(a, kind, excluded) + Chosen(b, kind, excluded)
  {
    hide Picked;
    if b == [] {
      assert a + b == a;
    } else {
      ChosenConcat(a, b[..|b| - 1], kind, excluded);
      assert (a + b)[..|a + b| - 1] == a + b[..|b| - 1];
    }
  }

  lemma {:induction false} ChosenAll(refs: seq<Ref>, kind: Option<string>, excluded: seq<string>, all: bool)
    requires forall i :: 0 <= i < |refs| ==> Picked(refs[i], kind, excluded) == all
    ensures Chosen(refs, kind, excluded) == if all then refs else []
  {
    hide Picked;
    if refs != [] {
      ChosenAll(refs[..|refs| - 1], kind, excluded, all);
      assert refs == refs[..|refs| - 1] + [refs[|refs| - 1]];
    }
  }

  /** References of one class: the other two lists are empty. */
  lemma {:induction false} ChosenOfClass(refs: seq<Ref>)
    ensures (forall i :: 0 <= i < |refs| ==> Picked(refs[i], Some("cve"), [])) ==>
              Cves(refs) == refs && Bids(refs) == [] && Xrefs(refs) == []
    ensures (forall i :: 0 <= i < |refs| ==> Picked(refs[i], Some("bid"), [])) ==>
              Cves(refs) == [] && Bids(refs) == refs && Xrefs(refs) == []
    ensures (forall i :: 0 <= i < |refs| ==> Picked(refs[i], None, ["cve", "bid"])) ==>
              Cves(refs) == [] && Bids(refs) == [] && Xrefs(refs) == refs
  {
    hide Picked, Chosen;
    forall i | 0 <= i < |refs|
      ensures Picked(refs[i], None, ["cve", "bid"]) <==>
              !Picked(refs[i], Some("cve"), []) && !Picked(refs[i], Some("bid"), [])
      ensures !(Picked(refs[i], Some("cve"), []) && Picked(refs[i], Some("bid"), []))
    {
      OneClass(refs[i]);
    }
    if forall i :: 0 <= i < |refs| ==> Picked(refs[i], Some("cve"), []) {
      ChosenAll(refs, Some("cve"), [], true);
      ChosenAll(refs, Some("bid"), [], false);
      ChosenAll(refs, None, ["cve", "bid"], false);
    }
    if forall i :: 0 <= i < |refs| ==> Picked(refs[i], Some("bid"), []) {
      ChosenAll(refs, Some("cve"), [], false);
      ChosenAll(refs, Some("bid"), [], true);
      ChosenAll(refs, None, ["cve", "bid"], false);
    }
    if forall i :: 0 <= i < |refs| ==> Picked(refs[i], None, ["cve", "bid"]) {
      ChosenAll(refs, Some("cve"), [], false);
      ChosenAll(refs, Some("bid"), [], false);
      ChosenAll(refs, None, ["cve", "bid"], true);
    }
  }

  lemma {:induction false} RestoredClasses(refs: seq<Ref>)
    ensures forall i :: 0 <= i < |Cves(refs)| ==> Picked(Renamed(Cves(refs), "cve")[i], Some("cve"), [])
    ensures forall i :: 0 <= i < |Bids(refs)| ==> Picked(Renamed(Bids(refs), "bid")[i], Some("bid"), [])
    ensures forall i :: 0 <= i < |Xrefs(refs)| ==> Picked(Textless(Xrefs(refs))[i], None, ["cve", "bid"])
  {
    hide Chosen;
  }

  lemma {:induction false} ChosenOfThree(a: seq<Ref>, b: seq<Ref>, c: seq<Ref>)
    ensures Cves(a + b + c) == Cves(a) + Cves(b) + Cves(c)
    ensures Bids(a + b + c) == Bids(a) + Bids(b) + Bids(c)
    ensures Xrefs(a + b + c) == Xrefs(a) + Xrefs(b) + Xrefs(c)
  {
    hide Chosen;
    ChosenConcat(a + b, c, Some("cve"), []);
    ChosenConcat(a, b, Some("cve"), []);
    ChosenConcat(a + b, c, Some("bid"), []);
    ChosenConcat(a, b, Some("bid"), []);
    ChosenConcat(a + b, c, None, ["cve", "bid"]);
    ChosenConcat(a, b, None, ["cve", "bid"]);
  }

  lemma {:induction false} ClassesOfRestored(refs: seq<Ref>)
    ensures Cves(Restored(refs)) == Renamed(Cves(refs), "cve")
    ensures Bids(Restored(refs)) == Renamed(Bids(refs), "bid")
    ensures Xrefs(Restored(refs)) == Textless(Xrefs(refs))
  {
    hide Picked, Cves, Bids, Xrefs, Renamed, Textless;
    var a, b, c := Renamed(Cves(refs), "cve"), Renamed(Bids(refs), "bid"), Textless(Xrefs(refs));
    RestoredClasses(refs);
    ChosenOfClass(a);
    ChosenOfClass(b);
    ChosenOfClass(c);
    ChosenOfThree(a, b, c);
  }

  /** What was restored is a normal form: storing it again changes nothing. */
  lemma {:induction false} RestoredTwice(refs: seq<Ref>)
    ensures Restored(Restored(refs)) == Restored(refs)
  {
    hide Cves, Bids, Xrefs;
    ClassesOfRestored(refs);
    var a, b, c := Renamed(Cves(refs), "cve"), Renamed(Bids(refs), "bid"), Textless(Xrefs(refs));
    assert Renamed(a, "cve") == a && Renamed(b, "bid") == b && Textless(c) == c;
  }
}
