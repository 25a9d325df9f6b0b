/**
 The preferences of a vulnerability test in the knowledge base: four fields with three
 bars between them.
 */
module Prefs {
  import opened Text

  type int32 = i: int | -0x8000_0000 <= i < 0x8000_0000

  /** The cast to int: the low 32 bits. */
  function ToInt(i: int): (r: int32)
    ensures (r - i) % 0x1_0000_0000 == 0
    ensures -0x8000_0000 <= i < 0x8000_0000 ==> r == i
  {
    (i + 0x8000_0000) % 0x1_0000_0000 - 0x8000_0000
  }

  /** atoi: the long that strtol reads, cut to an int. */
  function Atoi(s: string): int32 {
    ToInt(Strtol(s).value)
  }

  datatype Pref = Pref(id: int32, name: string, kind: string, dflt: string)

  const BARS := "|||"

  // -------------------------------------------------------------------- Splitting

  /** strstr: where three bars occur first, or the length of s. */
  function FindBars(s: string): (i: nat)
    ensures i == |s| || (i + 3 <= |s| && s[i..i + 3] == BARS)
  {
    if |s| < 3 then |s|
    else if s[..3] == BARS then 0
    else
      var i := FindBars(s[1..]);
      assert i + 4 <= |s| ==> s[1..][i..i + 3] == s[i + 1..i + 4];
      1 + i
  }

  /** g_strsplit at three bars. */
  function BarPieces(s: string): (r: seq<string>)
    ensures r != []
    decreases |s|
  {
    var i := FindBars(s);
    if i == |s| then [s] else [s[..i]] + BarPieces(s[i + 3..])
  }

  /** Three bars that are found stay the first ones when text is appended. */
  lemma {:induction false} FindBarsPrefix(s: string, rest: string)
    requires FindBars(s) < |s|
    ensures FindBars(s + rest) == FindBars(s)
  {
    assert (s + rest)[..3] == s[..3];
    if s[..3] != BARS {
      FindBarsPrefix(s[1..], rest);
      assert (s + rest)[1..] == s[1..] + rest;
    }
  }

  /** A field that is cut off at its end: it has no three bars in it and does not end
      with a bar. */
  predicate Clean(field: string) {
    FindBars(field) == |field| && (field == "" || field[|field| - 1] != '|')
  }

  lemma {:induction false} FindBarsNext(s: string)
    requires |s| >= 3
    ensures FindBars(s) == if s[0] == '|' && s[1] == '|' && s[2] == '|' then 0 else 1 + FindBars(s[1..])
  {
    assert s[..3] == [s[0], s[1], s[2]];
  }

  lemma {:induction false} CleanNext(field: string)
    requires field != ""
    ensures Clean(field) <==>
            && Clean(field[1..]) && field != "|"
            && !(|field| >= 3 && field[0] == '|' && field[1] == '|' && field[2] == '|')
  {
    if |field| >= 3 {
      FindBarsNext(field);
    }
  }

  predicate BarsAt(s: string, i: nat) {
    i + 3 <= |s| && s[i] == '|' && s[i + 1] == '|' && s[i + 2] == '|'
  }

  /** Nothing is found exactly if there are no three bars. */
  lemma {:induction false} FindBarsMeaning(s: string)
    ensures FindBars(s) == |s| <==> forall i :: 0 <= i < |s| ==> !BarsAt(s, i)
  {
    if |s| >= 3 {
      FindBarsNext(s);
      FindBarsMeaning(s[1..]);
      if BarsAt(s, 0) {
      } else {
        assert forall i :: 0 <= i < |s| - 1 ==> (BarsAt(s[1..], i) <==> BarsAt(s, i + 1));
        if forall i :: 0 <= i < |s| - 1 ==> !BarsAt(s[1..], i) {
          forall i | 0 <= i < |s|
            ensures !BarsAt(s, i)
          {
            assert i > 0 ==> (BarsAt(s[1..], i - 1) <==> BarsAt(s, i));
          }
        }
      }
    }
  }

  /** The first bars behind a field are those that follow it exactly if it is clean. */
  lemma {:induction false} CleanMeaning(field: string)
    ensures FindBars(field + BARS) <= |field|
    ensures FindBars(field + BARS) == |field| <==> Clean(field)
  {
    if field == "" {
      assert field + BARS == BARS;
    } else {
      hide FindBars, Clean;
      var s := field + BARS;
      CleanMeaning(field[1..]);
      CleanNext(field);
      FindBarsNext(s);
      assert s[1..] == field[1..] + BARS;
      if |field| == 2 && field[1] == '|' {
        TailOfBars(field);
      }
    }
  }

  /** A field that begins with bars and ends before the third one is not clean. */
  lemma {:induction false} TailOfBars(field: string)
    requires |field| == 2 && field[1] == '|'
    ensures !Clean(field[1..])
  {
  }

  /** The first piece behind which bars stand. */
  lemma {:induction false} FirstPiece(field: string, rest: string)
    ensures var pieces := BarPieces(field + BARS + rest);
            if Clean(field) then pieces == [field] + BarPieces(rest) else pieces[0] != field
  {
    hide Clean, FindBars;
    var s := field + BARS + rest;
    CleanMeaning(field);
    FindBarsPrefix(field + BARS, rest);
    var i := FindBars(s);
    assert s[..i] == field[..i];
    if i == |field| {
      assert field[..i] == field && s[i + 3..] == rest;
    }
  }

  lemma {:induction false} LastPiece(field: string)
    ensures |BarPieces(field)| == 1 <==> FindBars(field) == |field|
    ensures FindBars(field) == |field| ==> BarPieces(field) == [field]
  {
  }

  // ------------------------------------------------------------- One preference

  function PrintedPref(p: Pref): string {
    Printed(p.id) + BARS + (p.name + BARS + (p.kind + BARS + p.dflt))
  }

  /** The preference in an entry; none where the assertions of the source fail. */
  function ReadPref(entry: string): Option<Pref> {
    var a := BarPieces(entry);
    if |a| == 4 then Some(Pref(Atoi(a[0]), a[1], a[2], a[3])) else None
  }

  predicate CleanPref(p: Pref) {
    Clean(p.name) && Clean(p.kind) && FindBars(p.dflt) == |p.dflt|
  }

  lemma {:induction false} NoBars(s: string)
    requires '|' !in s
    ensures Clean(s)
  {
    if |s| >= 3 {
      assert s[..3][0] == s[0];
      NoBars(s[1..]);
    }
  }

  lemma {:induction false} PrintedIsClean(i: int)
    ensures Clean(Printed(i))
  {
    DigitsAreDigits(if i < 0 then -i else i);
    NoBars(Printed(i));
  }

  /** The pieces of three fields, when the first of them is clean. */
  lemma {:induction false} ThreePieces(name: string, kind: string, dflt: string)
    ensures var pieces := BarPieces(name + BARS + (kind + BARS + dflt));
            pieces == [name, kind, dflt] <==> Clean(name) && Clean(kind) && FindBars(dflt) == |dflt|
  {
    hide Clean, FindBars, BarPieces;
    var pieces := BarPieces(name + BARS + (kind + BARS + dflt));
    var tail, last := BarPieces(kind + BARS + dflt), BarPieces(dflt);
    FirstPiece(name, kind + BARS + dflt);
    FirstPiece(kind, dflt);
    LastPiece(dflt);
    if Clean(name) {
      assert pieces[1..] == tail && [name, kind, dflt][1..] == [kind, dflt];
      if Clean(kind) {
        assert tail[1..] == last && [kind, dflt][1..] == [dflt];
      }
    }
  }

  lemma {:induction false} AtoiOfPrinted(i: int32)
    ensures Atoi(Printed(i)) == i
  {
    StrtolOfPrinted(i);
  }

  /** A preference comes back exactly if its fields are clean. */
  lemma {:induction false} PrefRoundTrip(p: Pref)
    ensures ReadPref(PrintedPref(p)) == Some(p) <==> CleanPref(p)
  {
    hide Clean, FindBars, BarPieces, Atoi, Printed;
    var rest := p.name + BARS + (p.kind + BARS + p.dflt);
    PrintedIsClean(p.id);
    FirstPiece(Printed(p.id), rest);
    ThreePieces(p.name, p.kind, p.dflt);
    AtoiOfPrinted(p.id);
    var pieces := BarPieces(rest);
    assert ReadPref(PrintedPref(p)) == Some(p) <==> pieces == [p.name, p.kind, p.dflt];
  }

  /** What an entry looks like: four texts without bars, with three bars between them, are
      the number, the name, the type and the default. */
  lemma {:induction false} EntryText(id: string, name: string, kind: string, dflt: string)
    requires '|' !in id && '|' !in name && '|' !in kind && '|' !in dflt
    ensures ReadPref(id + "|||" + (name + "|||" + (kind + "|||" + dflt))) == Some(Pref(Atoi(id), name, kind, dflt))
  {
    hide Atoi, BarPieces, FindBars;
    NoBars(id);
    NoBars(name);
    NoBars(kind);
    NoBars(dflt);
    FirstPiece(id, name + BARS + (kind + BARS + dflt));
    ThreePieces(name, kind, dflt);
  }

  /** A name that ends with a bar does not come back. */
  lemma {:induction false} BarLost(id: int32, kind: string, dflt: string)
    ensures var p := Pref(id, "a|", kind, dflt); ReadPref(PrintedPref(p)) != Some(p)
  {
    hide ReadPref, PrintedPref;
    PrefRoundTrip(Pref(id, "a|", kind, dflt));
    assert "a|"[1] == '|';
  }

  // ------------------------------------------------------------ All preferences

  function PrintedPrefs(prefs: seq<Pref>): (r: seq<string>)
    ensures |r| == |prefs|
  {
    seq(|prefs|, i requires 0 <= i < |prefs| => PrintedPref(prefs[i]))
  }

  /** What the entries of a key give; the items of a key are read from the last one on. */
  function ReadPrefs(entries: seq<string>): Option<seq<Pref>> {
    if entries == [] then Some([])
    else
      var n := |entries| - 1;
      var p, rest := ReadPref(entries[n]), ReadPrefs(entries[..n]);
      if p.Some? && rest.Some? then Some([p.value] + rest.value) else None
  }

  function Reversed(prefs: seq<Pref>): (r: seq<Pref>)
    ensures |r| == |prefs|
  {
    seq(|prefs|, i requires 0 <= i < |prefs| => prefs[|prefs| - 1 - i])
  }

  predicate AllClean(prefs: seq<Pref>) {
    forall i :: 0 <= i < |prefs| ==> CleanPref(prefs[i])
  }

  /** Preferences come back in the opposite order exactly if all their fields are clean. */
  lemma {:induction false} PrefsRoundTrip(prefs: seq<Pref>)
    ensures ReadPrefs(PrintedPrefs(prefs)) == Some(Reversed(prefs)) <==> AllClean(prefs)
  {
    hide CleanPref, ReadPref, PrintedPref;
    if prefs != [] {
      var n := |prefs| - 1;
      var front, last := prefs[..n], prefs[n];
      PrefsRoundTrip(front);
      PrefRoundTrip(last);
      assert PrintedPrefs(prefs)[..n] == PrintedPrefs(front) && PrintedPrefs(prefs)[n] == PrintedPref(last);
      assert Reversed(prefs) == [last] + Reversed(front);
      var p, rest := ReadPref(PrintedPref(last)), ReadPrefs(PrintedPrefs(front));
      if p.Some? && rest.Some? {
        assert ([p.value] + rest.value)[0] == p.value && ([p.value] + rest.value)[1..] == rest.value;
        assert Reversed(prefs)[0] == last && Reversed(prefs)[1..] == Reversed(front);
      }
      assert prefs == front + [last];
    }
  }
}
