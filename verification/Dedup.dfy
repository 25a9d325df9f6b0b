/**
 Hosts, slots of a hosts collection, and the specification of removing duplicates
 from a list of hosts.
 */
module Dedup {
  import opened Lists
  import opened Address
  import opened Text

  /** gvm_host_t: an address or a name, and the virtual host names attached to it. */
  datatype HostId = Name(name: string) | V4(addr4: addr4) | V6(addr6: addr6)
  datatype Vhost = Vhost(value: string, source: string)
  datatype Host = Host(id: HostId, vhosts: seq<Vhost>)

  /** An entry of the array of a hosts collection: NULL or a host. */
  datatype Slot = Empty | Full(host: Host)

  /** Reading and printing of addresses, and the hostname test, which are libc and
      regular expression calls. */
  datatype Codec = Codec(
    pton4: string -> Option<addr4>, pton6: string -> Option<addr6>,
    ntop4: addr4 -> string, ntop6: addr6 -> string,
    isHostname: string -> bool)

  /** Printed addresses are different for different addresses, of both families, and
      no lower-case host name is a printed address. */
  ghost predicate Injective(c: Codec) {
    && (forall a, b :: c.ntop4(a) == c.ntop4(b) ==> a == b)
    && (forall a, b :: c.ntop6(a) == c.ntop6(b) ==> a == b)
    && (forall a, b :: c.ntop4(a) != c.ntop6(b))
    && (forall s, a :: c.isHostname(s) ==> Lower(s) != c.ntop4(a))
    && (forall s, a :: c.isHostname(s) ==> Lower(s) != c.ntop6(a))
  }

  /** gvm_host_value_str. */
  function ValueStr(c: Codec, id: HostId): string {
    match id
    case Name(n) => n
    case V4(a) => c.ntop4(a)
    case V6(a) => c.ntop6(a)
  }

  /** A name as it is stored in a collection: a host name in lower case. */
  ghost predicate WellNamed(c: Codec, id: HostId) {
    id.Name? ==> exists s :: c.isHostname(s) && id.name == Lower(s)
  }

  /** Equal printed values mean equal hosts. */
  lemma ValueStrInjective(c: Codec, a: HostId, b: HostId)
    requires Injective(c) && WellNamed(c, a) && WellNamed(c, b)
    ensures ValueStr(c, a) == ValueStr(c, b) <==> a == b
  {
  }

  // --------------------------------------------------------------------- Slots

  /** The hosts in the slots, in order. */
  function Live(s: seq<Slot>): (r: seq<Host>)
    ensures |r| <= |s|
  {
    if s == [] then []
    else if s[0].Full? then [s[0].host] + Live(s[1..])
    else Live(s[1..])
  }

  lemma {:induction false} LiveCons(x: Slot, s: seq<Slot>)
    ensures Live([x] + s) == (if x.Full? then [x.host] else []) + Live(s)
  {
    assert ([x] + s)[1..] == s;
  }

  lemma {:induction false} NoneLive()
    ensures Live([]) == []
  {
  }

  lemma {:induction false} LiveConcat(a: seq<Slot>, b: seq<Slot>)
    ensures Live(a + b) == Live(a) + Live(b)
  {
    hide Live;
    NoneLive();
    if a == [] {
      assert a + b == b;
    } else {
      LiveConcat(a[1..], b);
      LiveCons(a[0], a[1..]);
      LiveCons(a[0], a[1..] + b);
      assert a == [a[0]] + a[1..] && a + b == [a[0]] + (a[1..] + b);
    }
  }

  lemma {:induction false} LiveEmpty(s: seq<Slot>)
    requires forall i :: 0 <= i < |s| ==> s[i].Empty?
    ensures Live(s) == []
  {
    if s != [] {
      LiveEmpty(s[1..]);
    }
  }

  lemma {:induction false} LiveFull(s: seq<Slot>)
    requires forall i :: 0 <= i < |s| ==> s[i].Full?
    ensures |Live(s)| == |s|
    ensures forall i :: 0 <= i < |s| ==> Live(s)[i] == s[i].host
  {
    if s != [] {
      LiveFull(s[1..]);
    }
  }

  // ------------------------------------------------------------- Deduplication

  function Key(c: Codec, h: Host): string {
    ValueStr(c, h.id)
  }

  /** Adds a host to a list, or its virtual hosts to the host with its value. */
  function Merge(c: Codec, acc: seq<Host>, h: Host): seq<Host> {
    if acc == [] then [h]
    else if Key(c, acc[0]) == Key(c, h) then [acc[0].(vhosts := acc[0].vhosts + h.vhosts)] + acc[1..]
    else [acc[0]] + Merge(c, acc[1..], h)
  }

  function Deduplicated(c: Codec, hosts: seq<Host>): seq<Host> {
    if hosts == [] then []
    else Merge(c, Deduplicated(c, hosts[..|hosts| - 1]), hosts[|hosts| - 1])
  }

  function Keys(c: Codec, hosts: seq<Host>): (r: seq<string>)
    ensures |r| == |hosts|
    ensures forall i :: 0 <= i < |r| ==> r[i] == Key(c, hosts[i])
  {
    seq(|hosts|, i requires 0 <= i < |hosts| => Key(c, hosts[i]))
  }

  /** Each value once, where it occurs first. */
  function FirstOccurrences(s: seq<string>): seq<string> {
    if s == [] then []
    else
      var front := FirstOccurrences(s[..|s| - 1]);
      if s[|s| - 1] in s[..|s| - 1] then front else front + [s[|s| - 1]]
  }

  /** All virtual hosts of the hosts with one value, in order. */
  function VhostsOf(c: Codec, hosts: seq<Host>, key: string): seq<Vhost> {
    if hosts == [] then []
    else
      VhostsOf(c, hosts[..|hosts| - 1], key)
      + if Key(c, hosts[|hosts| - 1]) == key then hosts[|hosts| - 1].vhosts else []
  }

  lemma {:induction false} MergeNew(c: Codec, acc: seq<Host>, h: Host)
    requires Key(c, h) !in Keys(c, acc)
    ensures Merge(c, acc, h) == acc + [h]
  {
    if acc != [] {
      assert Keys(c, acc)[0] == Key(c, acc[0]);
      MergeNew(c, acc[1..], h);
    }
  }

  lemma {:induction false} KeysCons(c: Codec, h: Host, hosts: seq<Host>)
    ensures Keys(c, [h] + hosts) == [Key(c, h)] + Keys(c, hosts)
  {
  }

  /** What merging one host does to the keys. */
  lemma {:induction false} MergeKeys(c: Codec, acc: seq<Host>, h: Host)
    ensures Keys(c, Merge(c, acc, h)) == Keys(c, acc) + (if Key(c, h) in Keys(c, acc) then [] else [Key(c, h)])
  {
    if acc != [] {
      var first, rest := acc[0], acc[1..];
      assert acc == [first] + rest;
      KeysCons(c, first, rest);
      if Key(c, first) == Key(c, h) {
        KeysCons(c, Merge(c, acc, h)[0], rest);
      } else {
        MergeKeys(c, rest, h);
        KeysCons(c, first, Merge(c, rest, h));
      }
    }
  }

  /** What merging one host does to the virtual hosts. */
  lemma {:induction false} MergeVhostsAt(c: Codec, acc: seq<Host>, h: Host, i: nat)
    requires Distinct(Keys(c, acc)) && i < |Merge(c, acc, h)|
    ensures var r := Merge(c, acc, h)[i];
            r.vhosts == (if i < |acc| then acc[i].vhosts else []) + (if Key(c, r) == Key(c, h) then h.vhosts else [])
    ensures i < |acc| ==> Key(c, Merge(c, acc, h)[i]) == Key(c, acc[i])
    ensures i >= |acc| ==> Merge(c, acc, h)[i] == h && Key(c, h) !in Keys(c, acc)
  {
    if acc != [] {
      assert Keys(c, acc)[1..] == Keys(c, acc[1..]);
      assert forall k :: 0 <= k < |acc| ==> Keys(c, acc)[k] == Key(c, acc[k]);
      if Key(c, acc[0]) != Key(c, h) && i > 0 {
        MergeVhostsAt(c, acc[1..], h, i - 1);
      }
    }
  }

  lemma {:induction false} FirstOccurrencesMembers(s: seq<string>, x: string)
    ensures x in FirstOccurrences(s) <==> x in s
  {
    if s != [] {
      var front := s[..|s| - 1];
      assert s == front + [s[|front|]];
      FirstOccurrencesMembers(front, x);
    }
  }

  lemma {:induction false} FirstOccurrencesDistinct(s: seq<string>)
    ensures Distinct(FirstOccurrences(s))
  {
    if s != [] {
      FirstOccurrencesDistinct(s[..|s| - 1]);
      FirstOccurrencesMembers(s[..|s| - 1], s[|s| - 1]);
    }
  }

  lemma {:induction false} DeduplicatedOrder(c: Codec, hosts: seq<Host>)
    ensures Keys(c, Deduplicated(c, hosts)) == FirstOccurrences(Keys(c, hosts))
  {
    if hosts != [] {
      var front, h := hosts[..|hosts| - 1], hosts[|hosts| - 1];
      DeduplicatedOrder(c, front);
      assert Keys(c, hosts)[..|hosts| - 1] == Keys(c, front);
      FirstOccurrencesMembers(Keys(c, front), Key(c, h));
      MergeKeys(c, Deduplicated(c, front), h);
    }
  }

  /** The keys of the result are the keys of the input, each once, in the order of
      first occurrence. */
  lemma {:induction false} DeduplicatedKeys(c: Codec, hosts: seq<Host>)
    ensures Keys(c, Deduplicated(c, hosts)) == FirstOccurrences(Keys(c, hosts))
    ensures Distinct(Keys(c, Deduplicated(c, hosts)))
    ensures forall k :: k in Keys(c, Deduplicated(c, hosts)) <==> k in Keys(c, hosts)
  {
    DeduplicatedOrder(c, hosts);
    FirstOccurrencesDistinct(Keys(c, hosts));
    forall k
      ensures k in FirstOccurrences(Keys(c, hosts)) <==> k in Keys(c, hosts)
    {
      FirstOccurrencesMembers(Keys(c, hosts), k);
    }
  }

  /** A host in the result has the virtual hosts of all input hosts with its key. */
  lemma {:induction false} DeduplicatedVhostsAt(c: Codec, hosts: seq<Host>, i: nat)
    requires i < |Deduplicated(c, hosts)|
    ensures var r := Deduplicated(c, hosts)[i]; r.vhosts == VhostsOf(c, hosts, Key(c, r))
  {
    var front, h := hosts[..|hosts| - 1], hosts[|hosts| - 1];
    var acc := Deduplicated(c, front);
    DeduplicatedKeys(c, front);
    MergeVhostsAt(c, acc, h, i);
    if i < |acc| {
      DeduplicatedVhostsAt(c, front, i);
    } else {
      NoVhosts(c, front, Key(c, h));
    }
  }

  lemma {:induction false} NoVhosts(c: Codec, hosts: seq<Host>, key: string)
    requires key !in Keys(c, hosts)
    ensures VhostsOf(c, hosts, key) == []
  {
    if hosts != [] {
      var front := hosts[..|hosts| - 1];
      assert forall i :: 0 <= i < |front| ==> Keys(c, front)[i] == Keys(c, hosts)[i];
      assert Keys(c, hosts)[|front|] == Key(c, hosts[|front|]);
      NoVhosts(c, front, key);
    }
  }

  /** A list without duplicates stays as it is. */
  lemma {:induction false} DeduplicatedDistinct(c: Codec, hosts: seq<Host>)
    requires Distinct(Keys(c, hosts))
    ensures Deduplicated(c, hosts) == hosts
  {
    if hosts != [] {
      var front := hosts[..|hosts| - 1];
      assert Keys(c, front) == Keys(c, hosts)[..|front|];
      assert Keys(c, hosts)[|front|] == Key(c, hosts[|front|]);
      DeduplicatedDistinct(c, front);
      MergeNew(c, front, hosts[|front|]);
    }
  }

  function AllVhosts(hosts: seq<Host>): multiset<Vhost> {
    if hosts == [] then multiset{} else multiset(hosts[0].vhosts) + AllVhosts(hosts[1..])
  }

  lemma {:induction false} MergeVhosts(c: Codec, acc: seq<Host>, h: Host)
    ensures AllVhosts(Merge(c, acc, h)) == AllVhosts(acc) + multiset(h.vhosts)
  {
    if acc != [] {
      if Key(c, acc[0]) != Key(c, h) {
        MergeVhosts(c, acc[1..], h);
      }
    }
  }

  lemma {:induction false} AllVhostsSnoc(hosts: seq<Host>)
    requires hosts != []
    ensures AllVhosts(hosts) == AllVhosts(hosts[..|hosts| - 1]) + multiset(hosts[|hosts| - 1].vhosts)
  {
    var front, rest := hosts[..|hosts| - 1], hosts[1..];
    if rest == [] {
      assert front == [];
    } else {
      AllVhostsSnoc(rest);
      var middle := rest[..|rest| - 1];
      assert front[1..] == middle && front[0] == hosts[0];
      assert AllVhosts(front) == multiset(hosts[0].vhosts) + AllVhosts(middle);
    }
  }

  /** No virtual host is lost or invented. */
  lemma {:induction false} DeduplicatedVhosts(c: Codec, hosts: seq<Host>)
    ensures AllVhosts(Deduplicated(c, hosts)) == AllVhosts(hosts)
  {
    if hosts != [] {
      DeduplicatedVhosts(c, hosts[..|hosts| - 1]);
      MergeVhosts(c, Deduplicated(c, hosts[..|hosts| - 1]), hosts[|hosts| - 1]);
      AllVhostsSnoc(hosts);
    }
  }

  // -------------------------------------------- What the in-place pass does

  /** Merging a host into the slot that holds its value. */
  lemma {:induction false} LiveMerge(c: Codec, s: seq<Slot>, f: nat, h: Host)
    requires f < |s| && s[f].Full? && Key(c, s[f].host) == Key(c, h)
    requires forall k :: 0 <= k < f && s[k].Full? ==> Key(c, s[k].host) != Key(c, h)
    ensures Live(s[f := Full(s[f].host.(vhosts := s[f].host.vhosts + h.vhosts))]) == Merge(c, Live(s), h)
  {
    var t := s[f := Full(s[f].host.(vhosts := s[f].host.vhosts + h.vhosts))];
    if f == 0 {
      assert t[1..] == s[1..];
    } else {
      LiveMerge(c, s[1..], f - 1, h);
      assert t[1..] == s[1..][f - 1 := t[f]];
    }
  }

  lemma {:induction false} LiveKeys(c: Codec, s: seq<Slot>, key: string)
    requires forall k :: 0 <= k < |s| && s[k].Full? ==> Key(c, s[k].host) != key
    ensures key !in Keys(c, Live(s))
  {
    if s != [] {
      LiveKeys(c, s[1..], key);
    }
  }
}
