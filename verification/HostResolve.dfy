/**
 gvm_hosts_resolve: names are replaced by the hosts they resolve to.
 */
module HostResolve {
  import opened Lists
  import opened Address
  import opened Text
  import opened Dedup
  import opened HostList

  /** The answers of the name service: the addresses for the name asked for when slot
      number i is visited, IPv4 addresses in mapped form. */
  type Dns = (nat, string) -> seq<addr6>

  // -------------------------------------------------------------- Specification

  /** The host for an address: an IPv4 host for a mapped address. */
  function FromAddress(a: addr6): HostId {
    if IsMapped(a) then V4(Unmapped(a)) else V6(a)
  }

  /** gvm_host_get_addr6, with the answers of the name service for names. */
  function GetAddr6(id: HostId, resolve4: string -> Option<addr4>, resolve6: string -> Option<addr6>): Option<addr6> {
    match id
    case V6(a) => Some(a)
    case V4(a) => Some(Mapped(a))
    case Name(n) => if resolve4(n).Some? then Some(Mapped(resolve4(n).value)) else resolve6(n)
  }

  /** The host made for an address has that address, mapped or not. */
  lemma {:induction false} FromAddressRoundTrip(a: addr6, resolve4: string -> Option<addr4>,
                                                resolve6: string -> Option<addr6>)
    ensures GetAddr6(FromAddress(a), resolve4, resolve6) == Some(a)
    ensures !FromAddress(a).Name?
  {
    MappedRoundTrip(0, a);
  }

  /** The hosts for the addresses of a name. */
  function Found(addrs: seq<addr6>, name: string): (r: seq<Host>)
    ensures |r| == |addrs|
  {
    seq(|addrs|, i requires 0 <= i < |addrs| => Host(FromAddress(addrs[i]), [Vhost(name, "Forward-DNS")]))
  }

  /** The i-th host of a name has the i-th address, as IPv4 if that is a mapped one, and the
      name as its one virtual host. */
  lemma {:induction false} FoundAt(addrs: seq<addr6>, name: string, i: nat, resolve4: string -> Option<addr4>,
                                   resolve6: string -> Option<addr6>)
    requires i < |addrs|
    ensures var h := Found(addrs, name)[i];
            && GetAddr6(h.id, resolve4, resolve6) == Some(addrs[i]) && (h.id.V4? <==> IsMapped(addrs[i]))
            && h.vhosts == [Vhost(name, "Forward-DNS")]
  {
    hide GetAddr6;
    FromAddressRoundTrip(addrs[i], resolve4, resolve6);
  }

  /** The hosts that all names of a list resolve to, in order. */
  function Resolved(dns: Dns, hosts: seq<Host>): seq<Host> {
    if hosts == [] then []
    else
      var n, h := |hosts| - 1, hosts[|hosts| - 1];
      Resolved(dns, hosts[..n]) + if h.id.Name? then Found(dns(n, h.id.name), h.id.name) else []
  }

  /** The hosts that are no names, in order. */
  function Unnamed(hosts: seq<Host>): seq<Host> {
    if hosts == [] then []
    else
      var n, h := |hosts| - 1, hosts[|hosts| - 1];
      Unnamed(hosts[..n]) + if h.id.Name? then [] else [h]
  }

  /** The names without an address, the last one first. */
  function Unresolved(dns: Dns, hosts: seq<Host>): seq<string> {
    if hosts == [] then []
    else
      var n, h := |hosts| - 1, hosts[|hosts| - 1];
      (if h.id.Name? && dns(n, h.id.name) == [] then [h.id.name] else []) + Unresolved(dns, hosts[..n])
  }

  /** Slot i holds a name, and one of its addresses gives the host. */
  predicate FoundFrom(dns: Dns, hosts: seq<Host>, i: nat, h: Host) {
    i < |hosts| && hosts[i].id.Name? && h in Found(dns(i, hosts[i].id.name), hosts[i].id.name)
  }

  /** Slot i holds the name, and it has no address. */
  predicate WithoutAddress(dns: Dns, hosts: seq<Host>, i: nat, name: string) {
    i < |hosts| && hosts[i].id == Name(name) && dns(i, name) == []
  }

  lemma {:induction false} FoundFromFront(dns: Dns, hosts: seq<Host>, h: Host)
    requires hosts != []
    ensures var n := |hosts| - 1;
            (exists i: nat :: FoundFrom(dns, hosts, i, h)) <==>
            (exists i: nat :: FoundFrom(dns, hosts[..n], i, h)) || FoundFrom(dns, hosts, n, h)
  {
    hide Found;
    var n := |hosts| - 1;
    if i: nat :| FoundFrom(dns, hosts[..n], i, h) {
      assert FoundFrom(dns, hosts, i, h);
    }
    if i: nat :| FoundFrom(dns, hosts, i, h) {
      assert i < n ==> FoundFrom(dns, hosts[..n], i, h);
    }
  }

  /** What is found are the hosts of all addresses of all names. */
  lemma {:induction false} ResolvedMembers(dns: Dns, hosts: seq<Host>, h: Host)
    ensures h in Resolved(dns, hosts) <==> exists i: nat :: FoundFrom(dns, hosts, i, h)
  {
    hide Found;
    if hosts != [] {
      ResolvedMembers(dns, hosts[..|hosts| - 1], h);
      FoundFromFront(dns, hosts, h);
    }
  }

  lemma {:induction false} WithoutAddressFront(dns: Dns, hosts: seq<Host>, name: string)
    requires hosts != []
    ensures var n := |hosts| - 1;
            (exists i: nat :: WithoutAddress(dns, hosts, i, name)) <==>
            (exists i: nat :: WithoutAddress(dns, hosts[..n], i, name)) || WithoutAddress(dns, hosts, n, name)
  {
    var n := |hosts| - 1;
    if i: nat :| WithoutAddress(dns, hosts[..n], i, name) {
      assert WithoutAddress(dns, hosts, i, name);
    }
    if i: nat :| WithoutAddress(dns, hosts, i, name) {
      assert i < n ==> WithoutAddress(dns, hosts[..n], i, name);
    }
  }

  /** What is not resolved are the names without an address. */
  lemma {:induction false} UnresolvedMembers(dns: Dns, hosts: seq<Host>, name: string)
    ensures name in Unresolved(dns, hosts) <==> exists i: nat :: WithoutAddress(dns, hosts, i, name)
  {
    if hosts != [] {
      UnresolvedMembers(dns, hosts[..|hosts| - 1], name);
      WithoutAddressFront(dns, hosts, name);
    }
  }

  /** What stays are the hosts that are no names; and the hosts of the first slots come
      first, both of those that stay and of those that are found. */
  lemma {:induction false} UnnamedMembers(dns: Dns, hosts: seq<Host>, h: Host, k: nat)
    ensures h in Unnamed(hosts) <==> h in hosts && !h.id.Name?
    ensures k <= |hosts| ==> Unnamed(hosts[..k]) <= Unnamed(hosts) && Resolved(dns, hosts[..k]) <= Resolved(dns, hosts)
  {
    hide Found;
    if hosts != [] {
      var n := |hosts| - 1;
      UnnamedMembers(dns, hosts[..n], h, k);
      assert hosts == hosts[..n] + [hosts[n]];
      if k <= n {
        assert hosts[..n][..k] == hosts[..k];
      } else {
        assert k == |hosts| ==> hosts[..k] == hosts;
      }
    }
  }

  /** The answers of the name service to the questions from the n-th on. */
  function Later(dns: Dns, n: nat): Dns {
    (i: nat, name: string) => dns(n + i, name)
  }

  // The order of what the passes give: hosts found and hosts that are no names stand in the
  // order of the list, the names without an address in the opposite order.

  lemma {:induction false} ResolvedConcat(dns: Dns, a: seq<Host>, b: seq<Host>)
    ensures Resolved(dns, a + b) == Resolved(dns, a) + Resolved(Later(dns, |a|), b)
  {
    hide Found;
    if b == [] {
      assert a + b == a;
    } else {
      var front, h, n := b[..|b| - 1], b[|b| - 1], |b| - 1;
      ResolvedConcat(dns, a, front);
      assert (a + b)[..|a + b| - 1] == a + front && (a + b)[|a| + n] == h;
      assert h.id.Name? ==> Later(dns, |a|)(n, h.id.name) == dns(|a| + n, h.id.name);
    }
  }

  lemma {:induction false} UnnamedConcat(a: seq<Host>, b: seq<Host>)
    ensures Unnamed(a + b) == Unnamed(a) + Unnamed(b)
  {
    hide Found;
    if b == [] {
      assert a + b == a;
    } else {
      var front, h, n := b[..|b| - 1], b[|b| - 1], |b| - 1;
      UnnamedConcat(a, front);
      assert (a + b)[..|a + b| - 1] == a + front && (a + b)[|a| + n] == h;
    }
  }

  lemma {:induction false} UnresolvedConcat(dns: Dns, a: seq<Host>, b: seq<Host>)
    ensures Unresolved(dns, a + b) == Unresolved(Later(dns, |a|), b) + Unresolved(dns, a)
  {
    hide Found;
    if b == [] {
      assert a + b == a;
    } else {
      var front, h, n := b[..|b| - 1], b[|b| - 1], |b| - 1;
      UnresolvedConcat(dns, a, front);
      assert (a + b)[..|a + b| - 1] == a + front && (a + b)[|a| + n] == h;
      assert h.id.Name? ==> Later(dns, |a|)(n, h.id.name) == dns(|a| + n, h.id.name);
    }
  }

  predicate NoNames(hosts: seq<Host>) {
    forall i :: 0 <= i < |hosts| ==> !hosts[i].id.Name?
  }

  lemma {:induction false} ResultHasNoNames(dns: Dns, hosts: seq<Host>)
    ensures NoNames(Unnamed(hosts)) && NoNames(Resolved(dns, hosts))
  {
    if hosts != [] {
      ResultHasNoNames(dns, hosts[..|hosts| - 1]);
    }
  }

  lemma {:induction false} MergeKeepsNoNames(c: Codec, acc: seq<Host>, h: Host)
    requires NoNames(acc) && !h.id.Name?
    ensures NoNames(Merge(c, acc, h))
  {
    if acc != [] {
      MergeKeepsNoNames(c, acc[1..], h);
    }
  }

  lemma {:induction false} DeduplicatedNoNames(c: Codec, hosts: seq<Host>)
    requires NoNames(hosts)
    ensures NoNames(Deduplicated(c, hosts))
  {
    if hosts != [] {
      DeduplicatedNoNames(c, hosts[..|hosts| - 1]);
      MergeKeepsNoNames(c, Deduplicated(c, hosts[..|hosts| - 1]), hosts[|hosts| - 1]);
    }
  }

  // -------------------------------------------------------------------- The pass

  /** Appends a host for every address of a name. */
  method AddFound(hosts: Hosts, addrs: seq<addr6>, name: string)
    requires hosts.Sound()
    modifies hosts`slots, hosts`count, hosts.slots
    ensures hosts.Sound() && (hosts.slots == old(hosts.slots) || fresh(hosts.slots))
    ensures hosts.count == old(hosts.count) + |addrs|
    ensures hosts.slots[..hosts.count] == old(hosts.slots[..hosts.count]) + AsSlots(Found(addrs, name))
  {
    ghost var found := Found(addrs, name);
    var k := 0;
    while k < |addrs|
      invariant 0 <= k <= |addrs|
      invariant hosts.Sound() && (hosts.slots == old(hosts.slots) || fresh(hosts.slots))
      invariant hosts.count == old(hosts.count) + k
      invariant hosts.slots[..hosts.count] == old(hosts.slots[..hosts.count]) + AsSlots(found[..k])
    {
      hosts.Add(Host(FromAddress(addrs[k]), [Vhost(name, "Forward-DNS")]));
      assert AsSlots(found[..k + 1]) == AsSlots(found[..k]) + [Full(found[k])];
      k := k + 1;
    }
    assert found[..k] == found;
  }

  function AsSlots(hosts: seq<Host>): (r: seq<Slot>)
    ensures |r| == |hosts|
  {
    seq(|hosts|, i requires 0 <= i < |hosts| => Full(hosts[i]))
  }

  /** The first n slots are what the pass has made of the first i hosts: hosts that are
      no names stay, the slots of names are empty; the hosts found follow after the
      original ones. */
  ghost predicate Visited(dns: Dns, hosts: seq<Host>, i: nat, s: seq<Slot>, resolved: nat, unresolved: seq<string>)
    requires i <= |hosts|
  {
    var n := |hosts|;
    && n <= |s| && s[i..n] == AsSlots(hosts[i..]) && s[n..] == AsSlots(Resolved(dns, hosts[..i]))
    && Live(s[..i]) == Unnamed(hosts[..i]) && |Live(s[..i])| + resolved == i
    && unresolved == Unresolved(dns, hosts[..i])
  }

  lemma {:induction false} SpecSnoc(dns: Dns, hosts: seq<Host>, i: nat)
    requires i < |hosts|
    ensures var h := hosts[i];
            && Resolved(dns, hosts[..i + 1]) ==
               Resolved(dns, hosts[..i]) + (if h.id.Name? then Found(dns(i, h.id.name), h.id.name) else [])
            && Unnamed(hosts[..i + 1]) == Unnamed(hosts[..i]) + (if h.id.Name? then [] else [h])
            && Unresolved(dns, hosts[..i + 1]) ==
               (if h.id.Name? && dns(i, h.id.name) == [] then [h.id.name] else []) + Unresolved(dns, hosts[..i])
  {
    assert hosts[..i + 1][..i] == hosts[..i];
  }

  /** A host that is no name stays where it is. */
  lemma {:induction false} OtherStep(dns: Dns, hosts: seq<Host>, i: nat, s: seq<Slot>, resolved: nat,
                                     unresolved: seq<string>)
    requires i < |hosts| && Visited(dns, hosts, i, s, resolved, unresolved) && !hosts[i].id.Name?
    ensures Visited(dns, hosts, i + 1, s, resolved, unresolved)
  {
    SpecSnoc(dns, hosts, i);
    assert s[i] == s[i..|hosts|][0] == Full(hosts[i]);
    assert s[..i + 1] == s[..i] + [Full(hosts[i])];
    LiveConcat(s[..i], [Full(hosts[i])]);
    assert s[i + 1..|hosts|] == s[i..|hosts|][1..] == AsSlots(hosts[i + 1..]);
    assert Resolved(dns, hosts[..i + 1]) == Resolved(dns, hosts[..i]);
  }

  /** A name leaves an empty slot; the hosts it resolves to are appended. */
  lemma {:induction false} NameStep(dns: Dns, hosts: seq<Host>, i: nat, s: seq<Slot>, resolved: nat,
                                    unresolved: seq<string>)
    requires i < |hosts| && Visited(dns, hosts, i, s, resolved, unresolved) && hosts[i].id.Name?
    ensures var name := hosts[i].id.name;
            var t := (s + AsSlots(Found(dns(i, name), name)))[i := Empty];
            Visited(dns, hosts, i + 1, t, resolved + 1,
                    (if dns(i, name) == [] then [name] else []) + unresolved)
  {
    hide Found, FromAddress, Resolved, Unnamed, Unresolved;
    var n, name := |hosts|, hosts[i].id.name;
    var found := Found(dns(i, name), name);
    var t := (s + AsSlots(found))[i := Empty];
    SpecSnoc(dns, hosts, i);
    assert t[..i + 1] == s[..i] + [Empty];
    LiveConcat(s[..i], [Empty]);
    assert t[i + 1..n] == s[i..n][1..] == AsSlots(hosts[i + 1..]);
    assert t[n..] == s[n..] + AsSlots(found);
    assert AsSlots(Resolved(dns, hosts[..i]) + found) == AsSlots(Resolved(dns, hosts[..i])) + AsSlots(found);
  }

  lemma {:induction false} LiveOfAsSlots(hosts: seq<Host>)
    ensures Live(AsSlots(hosts)) == hosts
  {
    LiveFull(AsSlots(hosts));
  }

  lemma {:induction false} AllVisited(dns: Dns, hosts: seq<Host>, s: seq<Slot>, resolved: nat, unresolved: seq<string>)
    requires Visited(dns, hosts, |hosts|, s, resolved, unresolved)
    ensures Live(s) == Unnamed(hosts) + Resolved(dns, hosts)
    ensures |Live(s)| + resolved == |s| == |hosts| + |Resolved(dns, hosts)|
    ensures unresolved == Unresolved(dns, hosts)
  {
    var n := |hosts|;
    assert hosts[..n] == hosts && s == s[..n] + s[n..];
    LiveConcat(s[..n], s[n..]);
    LiveOfAsSlots(Resolved(dns, hosts));
  }

  /** What slot i holds when the pass comes to it. */
  lemma {:induction false} SlotToVisit(dns: Dns, hosts: seq<Host>, s: seq<Slot>, resolved: nat,
                                       unresolved: seq<string>, i: nat)
    requires i < |s| && Visited(dns, hosts, Min(i, |hosts|), s, resolved, unresolved)
    ensures s[i].Full? && (i < |hosts| ==> s[i] == Full(hosts[i]))
    ensures s[i].host.id.Name? ==> i < |hosts|
    ensures !s[i].host.id.Name? ==> Visited(dns, hosts, Min(i + 1, |hosts|), s, resolved, unresolved)
  {
    var n := |hosts|;
    if i < n {
      assert s[i] == s[i..n][0] == Full(hosts[i]);
      if !hosts[i].id.Name? {
        OtherStep(dns, hosts, i, s, resolved, unresolved);
      }
    } else {
      ResultHasNoNames(dns, hosts[..n]);
      assert s[i] == s[n..][i - n];
    }
  }

  lemma {:induction false} NothingVisited(dns: Dns, hosts: seq<Host>, s: seq<Slot>)
    requires s == AsSlots(hosts)
    ensures Visited(dns, hosts, 0, s, 0, [])
  {
    assert hosts[0..] == hosts && s[0..|hosts|] == s;
  }

  /** Replaces the name in slot i. */
  method ResolveSlot(hosts: Hosts, i: nat, dns: Dns, ghost list: seq<Host>, ghost resolved: nat,
                     unresolved: seq<string>)
    returns (unresolved': seq<string>, found: bool)
    requires hosts.Sound() && i < |list| <= hosts.count
    requires Visited(dns, list, i, hosts.slots[..hosts.count], resolved, unresolved)
    requires hosts.slots[i] == Full(list[i]) && list[i].id.Name?
    modifies hosts`slots, hosts`count, hosts.slots
    ensures hosts.Sound() && (hosts.slots == old(hosts.slots) || fresh(hosts.slots))
    ensures hosts.count == old(hosts.count) + |dns(i, list[i].id.name)|
    ensures Visited(dns, list, i + 1, hosts.slots[..hosts.count], resolved + 1, unresolved')
    ensures found == (dns(i, list[i].id.name) != [])
  {
    ghost var s := hosts.slots[..hosts.count];
    var name := hosts.slots[i].host.id.name;
    var addrs := dns(i, name);
    NameStep(dns, list, i, s, resolved, unresolved);
    AddFound(hosts, addrs, name);
    ghost var added := hosts.slots[..hosts.count];
    hosts.slots[i] := Empty;
    assert hosts.slots[..hosts.count] == added[i := Empty];
    found := addrs != [];
    unresolved' := if found then unresolved else [name] + unresolved;
  }

  /** The pass over the slots. It also goes over the slots that it appends. */
  method ResolveSlots(hosts: Hosts, dns: Dns) returns (resolved: nat, newEntries: bool, unresolved: seq<string>)
    requires hosts.Valid()
    modifies hosts`slots, hosts`count, hosts.slots
    ensures hosts.Sound() && (hosts.slots == old(hosts.slots) || fresh(hosts.slots))
    ensures hosts.Contents() == Unnamed(old(hosts.Contents())) + Resolved(dns, old(hosts.Contents()))
    ensures |hosts.Contents()| + resolved == hosts.count == old(hosts.count) + |Resolved(dns, old(hosts.Contents()))|
    ensures newEntries == (Resolved(dns, old(hosts.Contents())) != [])
    ensures unresolved == Unresolved(dns, old(hosts.Contents()))
  {
    hide Visited, Resolved, Unnamed, Unresolved, Live;
    ghost var list := hosts.Contents();
    ghost var n := hosts.count;
    hosts.ContentsAt();
    resolved, newEntries, unresolved := 0, false, [];
    NothingVisited(dns, list, hosts.slots[..n]);
    var i := 0;
    while i < hosts.count
      invariant 0 <= i <= hosts.count && n <= hosts.count
      invariant hosts.Sound() && (hosts.slots == old(hosts.slots) || fresh(hosts.slots))
      invariant Visited(dns, list, Min(i, n), hosts.slots[..hosts.count], resolved, unresolved)
      invariant newEntries == (hosts.count > n)
      decreases n - Min(i, n), hosts.count - i
    {
      SlotToVisit(dns, list, hosts.slots[..hosts.count], resolved, unresolved, i);
      if hosts.slots[i].host.id.Name? {
        var found;
        unresolved, found := ResolveSlot(hosts, i, dns, list, resolved, unresolved);
        resolved := resolved + 1;
        newEntries := newEntries || found;
      }
      i := i + 1;
    }
    AllVisited(dns, list, hosts.slots[..hosts.count], resolved, unresolved);
    LiveOfFront(hosts.slots[..], hosts.count);
  }

  /** Replaces every name by the hosts it resolves to: afterwards there is no name, the
      result lists the names without an address, and the counters account for every
      address found. */
  method Resolve(hosts: Hosts, c: Codec, dns: Dns) returns (unresolved: seq<string>)
    requires hosts.Valid()
    modifies hosts, hosts.slots
    ensures hosts.Valid() && NoNames(hosts.Contents())
    ensures var list := old(hosts.Contents());
            var result := Unnamed(list) + Resolved(dns, list);
            && hosts.Contents() == (if Resolved(dns, list) != [] then Deduplicated(c, result) else result)
            && unresolved == Unresolved(dns, list)
            && hosts.count + hosts.removed + hosts.duplicated ==
               old(hosts.count + hosts.removed + hosts.duplicated) + |Resolved(dns, list)|
    ensures hosts.current == 0
  {
    hide Resolved, Unnamed, Unresolved, Deduplicated;
    ghost var list := hosts.Contents();
    var resolved, newEntries;
    resolved, newEntries, unresolved := ResolveSlots(hosts, dns);
    hosts.CloseGaps(resolved);
    hosts.removed := hosts.removed + resolved;
    ResultHasNoNames(dns, list);
    DeduplicatedNoNames(c, hosts.Contents());
    if newEntries {
      hosts.Deduplicate(c);
    }
    hosts.current := 0;
  }
}
