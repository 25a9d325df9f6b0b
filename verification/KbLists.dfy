/**
 Lists in the knowledge base: unique adds, the single-item read, and the re-placing of
 the finish signal on the queue of alive hosts.
 */
module KbLists {
  import opened Lists
  import opened Text
  import B = Boreas

  // ------------------------------------------------------------------ Unique adds

  /** LREM with count 1: without the leftmost occurrence. */
  function Lrem(list: seq<string>, value: string): seq<string> {
    if list == [] then []
    else if list[0] == value then list[1..]
    else [list[0]] + Lrem(list[1..], value)
  }

  /** The leftmost occurrence is removed, and nothing if there is none. */
  lemma {:induction false} LremLeftmost(a: seq<string>, value: string, b: seq<string>)
    requires value !in a
    ensures Lrem(a + [value] + b, value) == a + b && Lrem(a, value) == a
  {
    var list := a + [value] + b;
    if a == [] {
      assert list[1..] == b;
    } else {
      LremLeftmost(a[1..], value, b);
      assert list[1..] == a[1..] + [value] + b && a + b == [a[0]] + (a[1..] + b);
    }
  }

  /** LPUSH or RPUSH. */
  function Push(list: seq<string>, value: string, left: bool): seq<string> {
    if left then [value] + list else list + [value]
  }

  function AddUnique(list: seq<string>, value: string, left: bool): seq<string> {
    Push(Lrem(list, value), value, left)
  }

  /** LINDEX -1. */
  function Single(list: seq<string>): Option<string> {
    if list == [] then None else Some(list[|list| - 1])
  }

  /** Everything but the occurrences of a value. */
  function Others(list: seq<string>, value: string): (r: seq<string>)
    ensures value !in r
  {
    if list == [] then []
    else (if list[0] == value then [] else [list[0]]) + Others(list[1..], value)
  }

  function Count(list: seq<string>, value: string): nat {
    if list == [] then 0 else (if list[0] == value then 1 else 0) + Count(list[1..], value)
  }

  lemma {:induction false} CountAbsent(list: seq<string>, value: string)
    ensures Count(list, value) == 0 <==> value !in list
    ensures value !in list ==> Others(list, value) == list
  {
    if list != [] {
      CountAbsent(list[1..], value);
    }
  }

  lemma {:induction false} CountConcat(a: seq<string>, b: seq<string>, value: string)
    ensures Count(a + b, value) == Count(a, value) + Count(b, value)
  {
    if a == [] {
      assert a + b == b;
    } else {
      CountConcat(a[1..], b, value);
      assert (a + b)[1..] == a[1..] + b;
    }
  }

  /** Removing takes one occurrence of the value and nothing else. */
  lemma {:induction false} LremCount(list: seq<string>, value: string, other: string)
    ensures Count(Lrem(list, value), other) ==
            Count(list, other) - (if other == value && value in list then 1 else 0)
    ensures Others(Lrem(list, value), value) == Others(list, value)
  {
    CountAbsent(list, value);
    if list != [] {
      if list[0] != value {
        LremCount(list[1..], value, other);
        assert Lrem(list, value)[1..] == Lrem(list[1..], value);
      }
    }
  }

  predicate AtMostOnce(list: seq<string>, value: string) {
    Count(list, value) <= 1
  }

  lemma {:induction false} DistinctCount(list: seq<string>, value: string)
    requires Distinct(list)
    ensures AtMostOnce(list, value)
  {
    if list != [] {
      assert list[0] !in list[1..];
      CountAbsent(list[1..], list[0]);
      DistinctCount(list[1..], value);
    }
  }

  lemma {:induction false} CountDistinct(list: seq<string>)
    requires forall v :: AtMostOnce(list, v)
    ensures Distinct(list)
  {
    if list != [] {
      forall v
        ensures AtMostOnce(list[1..], v)
      {
        assert AtMostOnce(list, v);
      }
      CountDistinct(list[1..]);
      assert AtMostOnce(list, list[0]);
      CountAbsent(list[1..], list[0]);
      forall i, j | 0 <= i < j < |list|
        ensures list[i] != list[j]
      {
        assert list[j] == list[1..][j - 1];
        assert i > 0 ==> list[i] == list[1..][i - 1];
      }
    }
  }

  /** After a unique add the value occurs as often as before, but at least once, and
      every other value as often as before. */
  lemma {:induction false} AddUniqueCount(list: seq<string>, value: string, left: bool, v: string)
    ensures var before, after := Count(list, v), Count(AddUnique(list, value, left), v);
            after == if v == value && before == 0 then 1 else before
  {
    var rest := Lrem(list, value);
    LremCount(list, value, v);
    CountAbsent(list, value);
    CountConcat(rest, [value], v);
    CountConcat([value], rest, v);
  }

  // ------------------------------------------------------------------------- Runs

  datatype Add = Add(value: string, left: bool)

  /** The list after a run of unique adds. */
  function Run(list: seq<string>, adds: seq<Add>): seq<string> {
    if adds == [] then list
    else AddUnique(Run(list, adds[..|adds| - 1]), adds[|adds| - 1].value, adds[|adds| - 1].left)
  }

  function Values(adds: seq<Add>): (r: seq<string>)
    ensures |r| == |adds|
  {
    seq(|adds|, i requires 0 <= i < |adds| => adds[i].value)
  }

  /** What any run of unique adds does to a value: its count stays, except that an added
      value occurs at least once. */
  lemma {:induction false} RunCount(list: seq<string>, adds: seq<Add>, v: string)
    ensures Count(Run(list, adds), v) ==
            if v in Values(adds) && Count(list, v) == 0 then 1 else Count(list, v)
  {
    if adds != [] {
      var front, last := adds[..|adds| - 1], adds[|adds| - 1];
      RunCount(list, front, v);
      AddUniqueCount(Run(list, front), last.value, last.left, v);
      assert Values(adds) == Values(front) + [last.value];
    }
  }

  /** A run of unique adds leaves a list duplicate-free if and only if it was before. */
  lemma {:induction false} RunKeepsDistinct(list: seq<string>, adds: seq<Add>)
    ensures Distinct(Run(list, adds)) <==> Distinct(list)
  {
    hide Run, Distinct, Count;
    var after := Run(list, adds);
    if Distinct(list) {
      forall v
        ensures AtMostOnce(after, v)
      {
        DistinctCount(list, v);
        RunCount(list, adds, v);
      }
      CountDistinct(after);
    }
    if Distinct(after) {
      forall v
        ensures AtMostOnce(list, v)
      {
        DistinctCount(after, v);
        RunCount(list, adds, v);
      }
      CountDistinct(list);
    }
  }

  /** Each value once, at the place of its last occurrence. */
  function LastOccurrences(values: seq<string>): seq<string> {
    if values == [] then []
    else if values[0] in values[1..] then LastOccurrences(values[1..])
    else [values[0]] + LastOccurrences(values[1..])
  }

  /** Where a value occurs last, or -1. */
  function LastIndex(values: seq<string>, v: string): (k: int)
    ensures -1 <= k < |values|
    ensures k >= 0 ==> values[k] == v
    ensures forall i :: k < i < |values| ==> values[i] != v
  {
    if values == [] then -1
    else if values[|values| - 1] == v then |values| - 1
    else LastIndex(values[..|values| - 1], v)
  }

  lemma {:induction false} LastIndexOfRest(values: seq<string>, v: string)
    requires values != [] && v in values[1..]
    ensures LastIndex(values, v) == 1 + LastIndex(values[1..], v)
  {
    var k := LastIndex(values[1..], v);
    assert k >= 0 && values[k + 1] == v;
    assert forall i :: k + 1 < i < |values| ==> values[i] == values[1..][i - 1];
  }

  /** The values are in the order of their last occurrences. */
  lemma {:induction false} LastOccurrencesOrder(values: seq<string>, i: nat, j: nat)
    requires i < j < |LastOccurrences(values)|
    ensures LastIndex(values, LastOccurrences(values)[i]) < LastIndex(values, LastOccurrences(values)[j])
  {
    hide LastIndex;
    var rest := values[1..];
    if values[0] in rest {
      LastOccurrencesOrder(rest, i, j);
      LaterIndex(values, i);
      LaterIndex(values, j);
    } else {
      LaterIndex(values, j - 1);
      if i > 0 {
        LaterIndex(values, i - 1);
        LastOccurrencesOrder(rest, i - 1, j - 1);
      }
    }
  }

  lemma {:induction false} LaterIndex(values: seq<string>, i: nat)
    requires values != [] && i < |LastOccurrences(values[1..])|
    ensures var v := LastOccurrences(values[1..])[i];
            LastIndex(values, v) == 1 + LastIndex(values[1..], v) && LastIndex(values[1..], v) >= 0
    ensures values[0] !in values[1..] ==> LastIndex(values, values[0]) == 0
  {
    hide LastIndex, LastOccurrences;
    var v := LastOccurrences(values[1..])[i];
    LastOccurrencesMembers(values[1..], v);
    LastIndexOfRest(values, v);
    var k := LastIndex(values, values[0]);
    assert k > 0 ==> values[k] == values[1..][k - 1];
  }

  lemma {:induction false} LastOccurrencesMembers(values: seq<string>, v: string)
    ensures v in LastOccurrences(values) <==> v in values
  {
    if values != [] {
      LastOccurrencesMembers(values[1..], v);
    }
  }

  /** One more value moves to the end of the reference order. */
  lemma {:induction false} LastOccurrencesStep(values: seq<string>, v: string)
    ensures LastOccurrences(values + [v]) == Lrem(LastOccurrences(values), v) + [v]
  {
    if values == [] {
      assert values + [v] == [v] && [v][1..] == [];
    } else {
      var first, rest := values[0], values[1..];
      var tail := LastOccurrences(rest);
      LastOccurrencesStep(rest, v);
      assert (values + [v])[1..] == rest + [v];
      if first !in rest {
        assert LastOccurrences(values) == [first] + tail && ([first] + tail)[1..] == tail;
        if first == v {
          LastOccurrencesMembers(rest, v);
          LremAbsent(tail, v);
        }
      }
    }
  }

  lemma {:induction false} LremAbsent(list: seq<string>, value: string)
    requires value !in list
    ensures Lrem(list, value) == list
  {
    if list != [] {
      LremAbsent(list[1..], value);
    }
  }

  /** Adds at the right end order the values by their last insertion, and the single-item
      read returns the newest. */
  lemma {:induction false} RightAddsKeepLastInsertion(adds: seq<Add>)
    requires forall i :: 0 <= i < |adds| ==> !adds[i].left
    ensures Run([], adds) == LastOccurrences(Values(adds))
    ensures Single(Run([], adds)) == if adds == [] then None else Some(adds[|adds| - 1].value)
  {
    if adds != [] {
      var front, last := adds[..|adds| - 1], adds[|adds| - 1];
      RightAddsKeepLastInsertion(front);
      assert Values(adds) == Values(front) + [last.value];
      LastOccurrencesStep(Values(front), last.value);
    }
  }

  /** The i-th add is at the right end, and the later ones are of other values at the left
      end. */
  predicate NewestAtRight(adds: seq<Add>, i: nat) {
    && i < |adds| && !adds[i].left
    && forall j :: i < j < |adds| ==> adds[j].left && adds[j].value != adds[i].value
  }

  lemma {:induction false} NothingIsRead(list: seq<string>, adds: seq<Add>)
    ensures Single(Run(list, adds)).None? <==> list == [] && adds == []
  {
  }

  /** The single-item read returns the newest value at the right end, whatever was added
      at the left end since; it returns nothing only while nothing was ever there. */
  lemma {:induction false} NewestIsRead(list: seq<string>, adds: seq<Add>, i: nat)
    ensures Single(Run(list, adds)).None? <==> list == [] && adds == []
    ensures NewestAtRight(adds, i) ==> Single(Run(list, adds)) == Some(adds[i].value)
  {
    NothingIsRead(list, adds);
    if NewestAtRight(adds, i) && i < |adds| - 1 {
      var front, last := adds[..|adds| - 1], adds[|adds| - 1];
      assert NewestAtRight(front, i) && last.left && last.value != adds[i].value;
      hide NewestAtRight, Lrem;
      NewestIsRead(list, front, i);
      LremKeepsLast(Run(list, front), last.value);
    }
  }

  lemma {:induction false} LremKeepsLast(list: seq<string>, value: string)
    ensures list != [] && list[|list| - 1] != value ==>
              var r := Lrem(list, value); r != [] && r[|r| - 1] == list[|list| - 1]
  {
    if |list| > 1 {
      LremKeepsLast(list[1..], value);
    }
  }

  // ------------------------------------------------------------- Overlapping adds

  /** The two commands of a unique add. Adds of several clients may overlap. */
  datatype Command = Remove(add: Add) | Put(add: Add)

  /** The list, and the adds between their two commands. */
  datatype Shared = Shared(list: seq<string>, pending: multiset<Add>)

  predicate CanDo(s: Shared, command: Command) {
    command.Put? ==> command.add in s.pending
  }

  function Do(s: Shared, command: Command): Shared {
    var a := command.add;
    if command.Remove? then Shared(Lrem(s.list, a.value), s.pending + multiset{a})
    else Shared(Push(s.list, a.value, a.left), s.pending - multiset{a})
  }

  predicate ValidCommands(s: Shared, commands: seq<Command>)
    decreases |commands|
  {
    commands == [] || (CanDo(s, commands[0]) && ValidCommands(Do(s, commands[0]), commands[1..]))
  }

  function DoAll(s: Shared, commands: seq<Command>): Shared
    decreases |commands|
  {
    if commands == [] then s else DoAll(Do(s, commands[0]), commands[1..])
  }

  /** How many adds of a value are pending, at either end. */
  function PendingOf(pending: multiset<Add>, value: string): nat {
    pending[Add(value, true)] + pending[Add(value, false)]
  }

  /** At some moment two adds of the value are pending. */
  predicate Overlap(s: Shared, commands: seq<Command>, value: string)
    decreases |commands|
  {
    PendingOf(s.pending, value) >= 2 ||
    (commands != [] && Overlap(Do(s, commands[0]), commands[1..], value))
  }

  /** Occurrences in the list and still to come. */
  function Total(s: Shared, value: string): nat {
    Count(s.list, value) + PendingOf(s.pending, value)
  }

  /** The total only grows when a removal of the value finds nothing. */
  lemma {:induction false} TotalStep(s: Shared, command: Command, value: string)
    requires CanDo(s, command)
    ensures Total(Do(s, command), value) == Total(s, value) +
            if command.Remove? && command.add.value == value && Count(s.list, value) == 0 then 1 else 0
    ensures PendingOf(Do(s, command).pending, value) == PendingOf(s.pending, value) +
            if command.add.value != value then 0 else if command.Remove? then 1 else -1
  {
    hide Count, Lrem, Push;
    var a := command.add;
    PendingStep(s.pending, command, value);
    if command.Remove? {
      LremCount(s.list, a.value, value);
      CountAbsent(s.list, value);
    } else {
      PushCount(s.list, a.value, a.left, value);
    }
  }

  lemma {:induction false} PendingStep(pending: multiset<Add>, command: Command, value: string)
    requires command.Put? ==> command.add in pending
    ensures var after := if command.Remove? then pending + multiset{command.add} else pending - multiset{command.add};
            PendingOf(after, value) == PendingOf(pending, value) +
            if command.add.value != value then 0 else if command.Remove? then 1 else -1
  {
    assert command.add == Add(command.add.value, command.add.left);
  }

  lemma {:induction false} TotalGrows(s: Shared, commands: seq<Command>, value: string)
    requires ValidCommands(s, commands)
    ensures Total(DoAll(s, commands), value) >= Total(s, value)
    decreases |commands|
  {
    hide Total, Do, CanDo;
    if commands != [] {
      TotalStep(s, commands[0], value);
      TotalGrows(Do(s, commands[0]), commands[1..], value);
    }
  }

  /** A value that occurs at most once, in the list or pending, does so in the end exactly
      if no two adds of it overlapped. */
  lemma {:induction false} OverlapTotal(s: Shared, commands: seq<Command>, value: string)
    requires ValidCommands(s, commands) && Total(s, value) <= 1
    ensures Total(DoAll(s, commands), value) <= 1 <==> !Overlap(s, commands, value)
    decreases |commands|
  {
    hide Count, Do, CanDo, PendingOf;
    if commands != [] {
      var t := Do(s, commands[0]);
      TotalStep(s, commands[0], value);
      if Total(t, value) <= 1 {
        OverlapTotal(t, commands[1..], value);
      } else {
        TotalGrows(t, commands[1..], value);
        assert PendingOf(t.pending, value) >= 2;
      }
    }
  }

  /** No two adds of one value overlap. */
  ghost predicate NoOverlap(s: Shared, commands: seq<Command>) {
    forall v :: !Overlap(s, commands, v)
  }

  lemma {:induction false} OverlapOfValue(list: seq<string>, commands: seq<Command>, v: string)
    requires Distinct(list) && ValidCommands(Shared(list, multiset{}), commands)
    requires DoAll(Shared(list, multiset{}), commands).pending == multiset{}
    ensures AtMostOnce(DoAll(Shared(list, multiset{}), commands).list, v) <==>
            !Overlap(Shared(list, multiset{}), commands, v)
  {
    hide Distinct, Count;
    DistinctCount(list, v);
    OverlapTotal(Shared(list, multiset{}), commands, v);
  }

  /** The two commands of a unique add are not one transaction. Whatever clients do, at
      both ends, a duplicate-free list is duplicate-free when no add is pending any more
      exactly if no two adds of one value overlapped. */
  lemma {:induction false} OverlappingAdds(list: seq<string>, commands: seq<Command>)
    requires Distinct(list) && ValidCommands(Shared(list, multiset{}), commands)
    requires DoAll(Shared(list, multiset{}), commands).pending == multiset{}
    ensures Distinct(DoAll(Shared(list, multiset{}), commands).list) <==>
            NoOverlap(Shared(list, multiset{}), commands)
  {
    hide Distinct, AtMostOnce;
    var s := Shared(list, multiset{});
    var after := DoAll(s, commands).list;
    if NoOverlap(s, commands) {
      forall v
        ensures AtMostOnce(after, v)
      {
        OverlapOfValue(list, commands, v);
      }
      CountDistinct(after);
    }
    if Distinct(after) {
      forall v
        ensures !Overlap(s, commands, v)
      {
        DistinctCount(after, v);
        OverlapOfValue(list, commands, v);
      }
    }
  }

  lemma {:induction false} DoOneMore(s: Shared, command: Command, rest: seq<Command>, v: string)
    requires CanDo(s, command) && ValidCommands(Do(s, command), rest)
    ensures ValidCommands(s, [command] + rest)
    ensures DoAll(s, [command] + rest) == DoAll(Do(s, command), rest)
    ensures Overlap(Do(s, command), rest, v) ==> Overlap(s, [command] + rest, v)
  {
    hide Do, CanDo;
    assert ([command] + rest)[1..] == rest;
  }

  /** Two clients that add the same value at the same time, at different ends. */
  lemma {:induction false} AddsCanOverlap(v: string)
    ensures var a, b := Add(v, true), Add(v, false);
            var commands := [Remove(a)] + ([Remove(b)] + ([Put(a)] + ([Put(b)] + [])));
            var s := Shared([], multiset{});
            && ValidCommands(s, commands) && Overlap(s, commands, v)
            && DoAll(s, commands) == Shared([v, v], multiset{})
  {
    var a, b := Add(v, true), Add(v, false);
    var s := Shared([], multiset{});
    var s1, s2 := Shared([], multiset{a}), Shared([], multiset{a, b});
    var s3, s4 := Shared([v], multiset{b}), Shared([v, v], multiset{});
    assert Do(s, Remove(a)) == s1 && Do(s1, Remove(b)) == s2 && Do(s2, Put(a)) == s3 && Do(s3, Put(b)) == s4;
    hide Do, Lrem, Push;
    DoOneMore(s3, Put(b), [], v);
    DoOneMore(s2, Put(a), [Put(b)] + [], v);
    DoOneMore(s1, Remove(b), [Put(a)] + ([Put(b)] + []), v);
    DoOneMore(s, Remove(a), [Remove(b)] + ([Put(a)] + ([Put(b)] + [])), v);
  }

  lemma {:induction false} PushCount(list: seq<string>, value: string, left: bool, x: string)
    ensures Count(Push(list, value, left), x) == Count(list, x) + if x == value then 1 else 0
  {
    CountConcat(list, [value], x);
    CountConcat([value], list, x);
  }

  // ------------------------------------------------------------- The finish signal

  /** The signal is delivered once, behind every host, in the order of the hosts. */
  predicate FinishIsLast(queue: seq<string>) {
    var d := B.Delivery(queue);
    d != [] && d[|d| - 1] == B.FINISHED && B.FINISHED !in d[..|d| - 1]
  }

  lemma {:induction false} DeliveryReverses(list: seq<string>, x: string)
    ensures B.Delivery([x] + list) == B.Delivery(list) + [x]
    ensures forall v :: v in B.Delivery(list) <==> v in list
  {
    if list == [] {
      assert [x] + list == [x] && B.Rpop([x]) == [] && B.Delivery([x]) == [x];
    } else {
      var n := |list| - 1;
      DeliveryReverses(list[..n], x);
      assert B.Rpop([x] + list) == [x] + list[..n] && B.Rpop(list) == list[..n];
      assert list == list[..n] + [list[n]];
    }
  }

  /** Re-placing the finish signal keeps the hosts and their order. The queue then holds
      exactly one signal, delivered last, if and only if at most one was present. */
  lemma {:induction false} ReallocFinishSignal(queue: seq<string>)
    ensures var after := AddUnique(queue, B.FINISHED, true);
            && Others(after, B.FINISHED) == Others(queue, B.FINISHED)
            && (FinishIsLast(after) <==> Count(queue, B.FINISHED) <= 1)
            && (Count(after, B.FINISHED) == 1 <==> Count(queue, B.FINISHED) <= 1)
            && (Count(queue, B.FINISHED) <= 1 ==> after == [B.FINISHED] + Others(queue, B.FINISHED))
  {
    var f := B.FINISHED;
    var rest := Lrem(queue, f);
    LremCount(queue, f, f);
    CountAbsent(queue, f);
    CountAbsent(rest, f);
    CountConcat([f], rest, f);
    DeliveryReverses(rest, f);
    assert B.Delivery([f] + rest)[..|B.Delivery(rest)|] == B.Delivery(rest);
  }

  // --------------------------------------------------------------------- The store

  function Stored(lists: map<string, seq<string>>, name: string): seq<string> {
    if name in lists then lists[name] else []
  }

  lemma {:induction false} LremSkip(list: seq<string>, value: string, i: nat)
    requires i < |list| && value !in list[..i]
    ensures Lrem(list, value) == list[..i] + Lrem(list[i..], value)
  {
    if i == 0 {
      assert list[0..] == list;
    } else {
      assert list[0] == list[..i][0] && list[1..][..i - 1] == list[..i][1..] && list[1..][i - 1..] == list[i..];
      LremSkip(list[1..], value, i - 1);
      assert list[..i] == [list[0]] + list[1..][..i - 1];
    }
  }

  /** LREM on a list. */
  method RemoveFirst(list: seq<string>, value: string) returns (r: seq<string>)
    ensures r == Lrem(list, value)
  {
    var i := 0;
    while i < |list| && list[i] != value
      invariant 0 <= i <= |list| && value !in list[..i]
    {
      assert list[..i + 1] == list[..i] + [list[i]];
      i := i + 1;
    }
    if i < |list| {
      LremSkip(list, value, i);
      assert list[i..][1..] == list[i + 1..];
      r := list[..i] + list[i + 1..];
    } else {
      assert list[..i] == list;
      LremAbsent(list, value);
      r := list;
    }
  }

  /** The lists of one database. */
  class Store {
    var lists: map<string, seq<string>>

    constructor ()
      ensures lists == map[]
    {
      lists := map[];
    }

    function Get(name: string): seq<string>
      reads this
    {
      Stored(lists, name)
    }

    /** Other keys keep their lists. */
    twostate predicate OthersKept(name: string)
      reads this
    {
      forall n :: n != name ==> Get(n) == old(Get(n))
    }

    /** DEL. */
    method Delete(name: string)
      modifies this
      ensures Get(name) == [] && OthersKept(name)
    {
      lists := lists - {name};
    }

    /** RPUSH. */
    method PushRight(name: string, values: seq<string>)
      modifies this
      ensures Get(name) == old(Get(name)) + values && OthersKept(name)
    {
      lists := lists[name := Get(name) + values];
    }

    method LremOne(name: string, value: string)
      modifies this
      ensures Get(name) == Lrem(old(Get(name)), value) && OthersKept(name)
    {
      hide Lrem;
      var list := RemoveFirst(Get(name), value);
      lists := lists[name := list];
    }

    method AddStrUnique(name: string, value: string, left: bool)
      modifies this
      ensures Get(name) == AddUnique(old(Get(name)), value, left) && OthersKept(name)
    {
      LremOne(name, value);
      lists := lists[name := Push(Get(name), value, left)];
    }
  }
}
