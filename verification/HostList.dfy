/**
 The hosts collection of base/hosts.c: a growable array of slots with counters,
 changed in place.
 */
module HostList {
  import opened Dedup

  /** The hosts of a list in slots, followed by empty slots. */
  function Packed(hosts: seq<Host>, size: nat): (s: seq<Slot>)
    requires |hosts| <= size
    ensures |s| == size
  {
    seq(size, i requires 0 <= i < size => if i < |hosts| then Full(hosts[i]) else Empty)
  }

  /** Moving a host forward over empty slots keeps the list of hosts. */
  lemma {:induction false} LiveMove(s: seq<Slot>, i: nat, j: nat)
    requires i < j < |s| && s[j].Full?
    requires forall k :: i <= k < j ==> s[k].Empty?
    ensures Live(s[i := s[j]][j := Empty]) == Live(s)
  {
    var t := s[i := s[j]][j := Empty];
    var a, b := s[..i], s[j + 1..];
    assert s == a + s[i..j] + [s[j]] + b;
    assert t == a + [s[j]] + t[i + 1..j + 1] + b;
    LiveEmpty(s[i..j]);
    LiveEmpty(t[i + 1..j + 1]);
    LiveOfFour(a, s[i..j], [s[j]], b);
    LiveOfFour(a, [s[j]], t[i + 1..j + 1], b);
  }

  lemma {:induction false} LiveOfFour(a: seq<Slot>, b: seq<Slot>, c: seq<Slot>, d: seq<Slot>)
    ensures Live(a + b + c + d) == Live(a) + Live(b) + Live(c) + Live(d)
  {
    LiveConcat(a + b + c, d);
    LiveConcat(a + b, c);
    LiveConcat(a, b);
  }

  /** Full slots up to k and empty ones from k on. */
  lemma {:induction false} LiveIsPacked(s: seq<Slot>, k: nat)
    requires k <= |s|
    requires forall i :: 0 <= i < k ==> s[i].Full?
    requires forall i :: k <= i < |s| ==> s[i].Empty?
    ensures |Live(s)| == k && s == Packed(Live(s), |s|)
  {
    assert s == s[..k] + s[k..];
    LiveConcat(s[..k], s[k..]);
    LiveFull(s[..k]);
    LiveEmpty(s[k..]);
  }

  lemma {:induction false} LiveAdded(s: seq<Slot>, t: seq<Slot>, k: nat, host: Host)
    requires k <= |s| && k < |t| && t[..k] == s[..k] && t[k] == Full(host)
    requires forall i :: k <= i < |s| ==> s[i].Empty?
    requires forall i :: k < i < |t| ==> t[i].Empty?
    ensures Live(t) == Live(s) + [host]
  {
    assert s == s[..k] + s[k..];
    LiveConcat(s[..k], s[k..]);
    LiveEmpty(s[k..]);
    assert t == s[..k] + [t[k]] + t[k + 1..];
    LiveConcat(s[..k] + [t[k]], t[k + 1..]);
    LiveConcat(s[..k], [t[k]]);
    LiveEmpty(t[k + 1..]);
  }

  class Hosts {
    var slots: array<Slot>
    var count: nat
    var current: nat
    var removed: nat
    var duplicated: nat

    /** The first `count` slots hold hosts and the others are empty. */
    ghost predicate Valid()
      reads this, slots
    {
      && 0 < slots.Length && count <= slots.Length
      && (forall i :: 0 <= i < count ==> slots[i].Full?)
      && (forall i :: count <= i < slots.Length ==> slots[i].Empty?)
    }

    /** The hosts of the collection, in order. */
    ghost function Contents(): seq<Host>
      reads this, slots
    {
      Live(slots[..])
    }

    lemma ContentsAt()
      requires Valid()
      ensures |Contents()| == count
      ensures slots[..] == Packed(Contents(), slots.Length)
    {
      LiveIsPacked(slots[..], count);
    }

    constructor ()
      ensures Valid() && Contents() == [] && fresh(slots)
      ensures count == current == removed == duplicated == 0
    {
      slots := new Slot[1024](_ => Empty);
      count, current, removed, duplicated := 0, 0, 0, 0;
      new;
      LiveEmpty(slots[..]);
    }

    /** The slots from `count` on are empty; there may be gaps before. */
    ghost predicate Sound()
      reads this, slots
    {
      && 0 < slots.Length && count <= slots.Length
      && (forall i :: count <= i < slots.Length ==> slots[i].Empty?)
    }

    /** Appends a host; a full array grows to four times its size. */
    method Add(host: Host)
      requires Sound()
      modifies this`slots, this`count, slots
      ensures Sound() && (old(Valid()) ==> Valid())
      ensures count == old(count) + 1 && slots[..count] == old(slots[..count]) + [Full(host)]
      ensures Contents() == old(Contents()) + [host]
      ensures slots == old(slots) || fresh(slots)
      ensures slots.Length == if old(count) == old(slots.Length) then 4 * old(slots.Length) else old(slots.Length)
    {
      ghost var before := slots[..];
      if count == slots.Length {
        var bigger := new Slot[4 * slots.Length](_ => Empty);
        forall i | 0 <= i < count {
          bigger[i] := slots[i];
        }
        slots := bigger;
      }
      slots[count] := Full(host);
      count := count + 1;
      LiveAdded(before, slots[..], count - 1, host);
    }

    /** Closes the gaps between the hosts; their order stays. */
    method FillGaps()
      modifies slots
      ensures slots[..] == Packed(Live(old(slots[..])), slots.Length)
    {
      var i := 0;
      while i < slots.Length
        invariant 0 <= i <= slots.Length
        invariant Live(slots[..]) == Live(old(slots[..]))
        invariant forall k :: 0 <= k < i ==> slots[k].Full?
      {
        if slots[i].Empty? {
          var j := i + 1;
          while j < slots.Length && slots[j].Empty?
            invariant i < j <= slots.Length
            invariant forall k :: i <= k < j ==> slots[k].Empty?
          {
            j := j + 1;
          }
          if j == slots.Length {
            LiveIsPacked(slots[..], i);
            return;
          }
          ghost var before := slots[..];
          LiveMove(before, i, j);
          slots[i] := slots[j];
          slots[j] := Empty;
          assert slots[..] == before[i := before[j]][j := Empty];
        }
        i := i + 1;
      }
      LiveIsPacked(slots[..], slots.Length);
    }

    /** Ends a removal of k hosts that left their slots empty: the gaps are closed and
        the hosts are not counted any more. */
    method CloseGaps(k: nat)
      requires Sound() && |Contents()| + k == count
      modifies this`count, slots
      ensures Valid() && Contents() == old(Contents()) && count == old(count) - k == |Contents()|
    {
      ghost var live := Contents();
      if k > 0 {
        FillGaps();
      } else {
        NoGaps(slots[..], count);
      }
      count := count - k;
      LiveIsPacked(slots[..], count);
      PackedInjective(live, slots[..]);
    }

    /** One step of the pass of gvm_hosts_deduplicate: a host whose value was seen
        before gives its virtual hosts to the first host with that value and leaves
        an empty slot. The table maps values to the slot of their first host. */
    method MergeSlot(c: Codec, i: nat, table: map<string, nat>, duplicates: nat, ghost hosts: seq<Host>)
      returns (table': map<string, nat>, duplicates': nat)
      requires i < |hosts| <= slots.Length && slots[i] == Full(hosts[i])
      requires Merged(c, hosts[..i], slots[..i], table, duplicates)
      modifies slots
      ensures Merged(c, hosts[..i + 1], slots[..i + 1], table', duplicates')
      ensures forall k :: i < k < slots.Length ==> slots[k] == old(slots[k])
    {
      ghost var s := slots[..i];
      var host := slots[i].host;
      var name := Key(c, host);
      assert hosts[..i + 1] == hosts[..i] + [host];
      if name in table {
        var f := table[name];
        DuplicateStep(c, hosts[..i], s, table, duplicates, host);
        slots[f] := Full(slots[f].host.(vhosts := slots[f].host.vhosts + host.vhosts));
        slots[i] := Empty;
        assert slots[..i + 1] == s[f := slots[f]] + [Empty];
        return table, duplicates + 1;
      }
      NewStep(c, hosts[..i], s, table, duplicates, host);
      assert slots[..i + 1] == s + [Full(host)];
      return table[name := i], duplicates;
    }

    /** The pass over all slots. */
    method MergeDuplicates(c: Codec) returns (duplicates: nat)
      requires Valid()
      modifies slots
      ensures Live(slots[..]) == Deduplicated(c, old(Contents()))
      ensures |Live(slots[..])| + duplicates == count
      ensures Sound()
    {
      hide Live, Deduplicated, Merged;
      ghost var hosts := Contents();
      ContentsAt();
      assert forall k :: 0 <= k < count ==> slots[k] == Full(hosts[k]);
      var table: map<string, nat> := map[];
      duplicates := 0;
      NothingMerged(c, hosts[..0], slots[..0]);
      var i := 0;
      while i < count
        invariant 0 <= i <= count
        invariant forall k :: i <= k < slots.Length ==> slots[k] == old(slots[k])
        invariant Merged(c, hosts[..i], slots[..i], table, duplicates)
      {
        table, duplicates := MergeSlot(c, i, table, duplicates, hosts);
        i := i + 1;
      }
      AllMerged(c, hosts, slots[..], table, duplicates);
    }

    /** Removes hosts whose value occurs earlier in the collection. */
    method Deduplicate(c: Codec)
      requires Valid()
      modifies this`count, this`duplicated, this`current, slots
      ensures Valid() && Contents() == Deduplicated(c, old(Contents()))
      ensures count == |Contents()| && current == 0
      ensures count + duplicated == old(count + duplicated)
    {
      ContentsAt();
      var duplicates := MergeDuplicates(c);
      CloseGaps(duplicates);
      duplicated := duplicated + duplicates;
      current := 0;
    }
  }

  /** The table of values seen has the slot of every host in the slots. */
  ghost predicate TableInv(c: Codec, s: seq<Slot>, table: map<string, nat>) {
    && (forall k :: 0 <= k < |s| && s[k].Full? ==>
          Key(c, s[k].host) in table && table[Key(c, s[k].host)] == k)
    && (forall key :: key in table ==>
          table[key] < |s| && s[table[key]].Full? && Key(c, s[table[key]].host) == key)
  }

  /** The slots s are what the pass has made of the hosts it has visited. */
  ghost predicate Merged(c: Codec, visited: seq<Host>, s: seq<Slot>, table: map<string, nat>, duplicates: nat) {
    && TableInv(c, s, table)
    && Live(s) == Deduplicated(c, visited)
    && |Live(s)| + duplicates == |s| == |visited|
  }

  lemma {:induction false} NothingMerged(c: Codec, visited: seq<Host>, s: seq<Slot>)
    requires visited == [] && s == []
    ensures Merged(c, visited, s, map[], 0)
  {
  }

  lemma {:induction false} AllMerged(c: Codec, hosts: seq<Host>, s: seq<Slot>, table: map<string, nat>, duplicates: nat)
    requires |hosts| <= |s| && Merged(c, hosts[..|hosts|], s[..|hosts|], table, duplicates)
    requires forall k :: |hosts| <= k < |s| ==> s[k].Empty?
    ensures Live(s) == Deduplicated(c, hosts) && |Live(s)| + duplicates == |hosts|
  {
    assert hosts[..|hosts|] == hosts;
    LiveOfFront(s, |hosts|);
  }

  lemma {:induction false} DeduplicatedSnoc(c: Codec, hosts: seq<Host>, h: Host)
    ensures Deduplicated(c, hosts + [h]) == Merge(c, Deduplicated(c, hosts), h)
  {
    assert (hosts + [h])[..|hosts|] == hosts;
  }

  lemma {:induction false} DuplicateStep(c: Codec, visited: seq<Host>, s: seq<Slot>, table: map<string, nat>,
                                         duplicates: nat, host: Host)
    requires Merged(c, visited, s, table, duplicates) && Key(c, host) in table
    ensures var f := table[Key(c, host)];
            var t := s[f := Full(s[f].host.(vhosts := s[f].host.vhosts + host.vhosts))] + [Empty];
            Merged(c, visited + [host], t, table, duplicates + 1)
  {
    var f := table[Key(c, host)];
    var u := s[f := Full(s[f].host.(vhosts := s[f].host.vhosts + host.vhosts))];
    LiveMerge(c, s, f, host);
    LiveConcat(u, [Empty]);
    KnownKey(c, s, f);
    MergeKeys(c, Live(s), host);
    DeduplicatedSnoc(c, visited, host);
  }

  lemma {:induction false} NewStep(c: Codec, visited: seq<Host>, s: seq<Slot>, table: map<string, nat>,
                                   duplicates: nat, host: Host)
    requires Merged(c, visited, s, table, duplicates) && Key(c, host) !in table
    ensures Merged(c, visited + [host], s + [Full(host)], table[Key(c, host) := |s|], duplicates)
  {
    LiveConcat(s, [Full(host)]);
    LiveKeys(c, s, Key(c, host));
    MergeNew(c, Live(s), host);
    DeduplicatedSnoc(c, visited, host);
  }

  lemma {:induction false} KnownKey(c: Codec, s: seq<Slot>, f: nat)
    requires f < |s| && s[f].Full?
    ensures Key(c, s[f].host) in Keys(c, Live(s))
  {
    if f == 0 {
      assert Keys(c, Live(s))[0] == Key(c, s[f].host);
    } else {
      KnownKey(c, s[1..], f - 1);
      var rest := Live(s[1..]);
      var k :| 0 <= k < |rest| && Keys(c, rest)[k] == Key(c, s[f].host);
      assert Keys(c, Live(s))[if s[0].Full? then k + 1 else k] == Key(c, s[f].host);
    }
  }

  lemma {:induction false} LiveOfFront(s: seq<Slot>, k: nat)
    requires k <= |s| && forall i :: k <= i < |s| ==> s[i].Empty?
    ensures Live(s) == Live(s[..k])
  {
    assert s == s[..k] + s[k..];
    LiveConcat(s[..k], s[k..]);
    LiveEmpty(s[k..]);
  }

  lemma {:induction false} AllFull(s: seq<Slot>)
    requires |Live(s)| == |s|
    ensures forall i :: 0 <= i < |s| ==> s[i].Full?
  {
    if s != [] {
      AllFull(s[1..]);
    }
  }

  /** Slots that hold as many hosts as there are slots have no gap. */
  lemma {:induction false} NoGaps(s: seq<Slot>, k: nat)
    requires k <= |s| && |Live(s)| == k
    requires forall i :: k <= i < |s| ==> s[i].Empty?
    ensures s == Packed(Live(s), |s|)
  {
    LiveOfFront(s, k);
    AllFull(s[..k]);
    LiveIsPacked(s, k);
  }

  lemma {:induction false} PackedInjective(hosts: seq<Host>, s: seq<Slot>)
    requires |hosts| <= |s| && s == Packed(hosts, |s|)
    ensures Live(s) == hosts
  {
    LiveIsPacked(s, |hosts|);
    assert forall i :: 0 <= i < |hosts| ==> s[i] == Full(hosts[i]) && s[i] == Full(Live(s)[i]);
  }
}
