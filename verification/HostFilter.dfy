/**
 Excluding hosts, the allow and deny lists, and excluding virtual hosts.
 */
module HostFilter {
  import opened Text
  import opened Dedup
  import opened HostList
  import opened HostBuild

  // -------------------------------------------------------------- Specification

  /** The rule of a pair of tables: a host passes when it is not denied and, if there
      is an allow table, allowed. */
  datatype Rule = Rule(deny: Option<set<string>>, allow: Option<set<string>>)

  predicate Permitted(rule: Rule, key: string) {
    && (rule.deny.Some? ==> key !in rule.deny.value)
    && (rule.allow.Some? ==> key in rule.allow.value)
  }

  /** The hosts that pass, in order. */
  function Kept(c: Codec, rule: Rule, hosts: seq<Host>): seq<Host> {
    if hosts == [] then []
    else
      var front, h := hosts[..|hosts| - 1], hosts[|hosts| - 1];
      Kept(c, rule, front) + if Permitted(rule, Key(c, h)) then [h] else []
  }

  /** The values of the hosts that do not pass, the last one first. */
  function Rejected(c: Codec, rule: Rule, hosts: seq<Host>): seq<string> {
    if hosts == [] then []
    else
      var front, h := hosts[..|hosts| - 1], hosts[|hosts| - 1];
      (if Permitted(rule, Key(c, h)) then [] else [Key(c, h)]) + Rejected(c, rule, front)
  }

  /** The values of a list of hosts. */
  ghost function Values(c: Codec, ids: seq<HostId>): set<string> {
    set id | id in ids :: ValueStr(c, id)
  }

  lemma {:induction false} KeptSnoc(c: Codec, rule: Rule, hosts: seq<Host>, h: Host)
    ensures Kept(c, rule, hosts + [h]) == Kept(c, rule, hosts) + if Permitted(rule, Key(c, h)) then [h] else []
    ensures Rejected(c, rule, hosts + [h]) ==
            (if Permitted(rule, Key(c, h)) then [] else [Key(c, h)]) + Rejected(c, rule, hosts)
  {
    assert (hosts + [h])[..|hosts|] == hosts;
  }

  lemma {:induction false} KeptMembers(c: Codec, rule: Rule, hosts: seq<Host>, h: Host)
    ensures h in Kept(c, rule, hosts) <==> h in hosts && Permitted(rule, Key(c, h))
  {
    hide Permitted, Key;
    if hosts != [] {
      var front, last := hosts[..|hosts| - 1], hosts[|hosts| - 1];
      KeptMembers(c, rule, front, h);
      assert hosts == front + [last];
    }
  }

  lemma {:induction false} RejectedMembers(c: Codec, rule: Rule, hosts: seq<Host>, k: string)
    ensures k in Rejected(c, rule, hosts) <==> k in Keys(c, hosts) && !Permitted(rule, k)
    ensures |Kept(c, rule, hosts)| + |Rejected(c, rule, hosts)| == |hosts|
  {
    hide Permitted, Key;
    if hosts != [] {
      var front, last := hosts[..|hosts| - 1], hosts[|hosts| - 1];
      RejectedMembers(c, rule, front, k);
      assert Keys(c, hosts) == Keys(c, front) + [Key(c, last)];
    }
  }

  /** Every host is kept or rejected; what is kept is what passes, and the values of the
      others are rejected. */
  lemma {:induction false} KeptMeaning(c: Codec, rule: Rule, hosts: seq<Host>)
    ensures |Kept(c, rule, hosts)| + |Rejected(c, rule, hosts)| == |hosts|
    ensures forall h :: h in Kept(c, rule, hosts) <==> h in hosts && Permitted(rule, Key(c, h))
    ensures forall k :: k in Rejected(c, rule, hosts) <==> k in Keys(c, hosts) && !Permitted(rule, k)
  {
    hide Kept, Rejected, Keys, Permitted, Key;
    RejectedMembers(c, rule, hosts, "");
    forall h: Host
      ensures h in Kept(c, rule, hosts) <==> h in hosts && Permitted(rule, Key(c, h))
    {
      KeptMembers(c, rule, hosts, h);
    }
    forall k: string
      ensures k in Rejected(c, rule, hosts) <==> k in Keys(c, hosts) && !Permitted(rule, k)
    {
      RejectedMembers(c, rule, hosts, k);
    }
  }

  /** Filtering two lists one after the other. */
  lemma {:induction false} KeptConcat(c: Codec, rule: Rule, a: seq<Host>, b: seq<Host>)
    ensures Kept(c, rule, a + b) == Kept(c, rule, a) + Kept(c, rule, b)
  {
    hide Permitted, Key;
    if b == [] {
      assert a + b == a;
    } else {
      var front, h := b[..|b| - 1], b[|b| - 1];
      KeptConcat(c, rule, a, front);
      assert (a + b)[..|a + b| - 1] == a + front;
    }
  }

  /** The rejected values of a longer list stand before those of its front: they are listed
      in the opposite order. */
  lemma {:induction false} RejectedConcat(c: Codec, rule: Rule, a: seq<Host>, b: seq<Host>)
    ensures Rejected(c, rule, a + b) == Rejected(c, rule, b) + Rejected(c, rule, a)
  {
    hide Permitted, Key;
    if b == [] {
      assert a + b == a;
    } else {
      var front, h := b[..|b| - 1], b[|b| - 1];
      RejectedConcat(c, rule, a, front);
      assert (a + b)[..|a + b| - 1] == a + front;
    }
  }

  // ------------------------------------------------------------- The filter pass

  /** The hash table of the values of a collection. */
  method ValueTable(list: Hosts, c: Codec) returns (table: set<string>)
    requires list.Valid()
    ensures forall k :: k in table <==> k in Keys(c, list.Contents())
  {
    list.ContentsAt();
    ghost var keys := Keys(c, list.Contents());
    table := {};
    var i := 0;
    while i < list.count
      invariant 0 <= i <= list.count
      invariant forall k :: k in table <==> k in keys[..i]
    {
      assert list.slots[i].host == list.Contents()[i];
      assert keys[..i + 1] == keys[..i] + [keys[i]];
      table := table + {Key(c, list.slots[i].host)};
      i := i + 1;
    }
    assert keys[..i] == keys;
  }

  /** The slots s are what the pass has made of the hosts it has visited. */
  ghost predicate Filtered(c: Codec, rule: Rule, visited: seq<Host>, s: seq<Slot>,
                           excluded: nat, names: seq<string>)
  {
    && Live(s) == Kept(c, rule, visited) && names == Rejected(c, rule, visited)
    && |Live(s)| + excluded == |s| == |visited|
  }

  lemma {:induction false} FilterStep(c: Codec, rule: Rule, visited: seq<Host>, s: seq<Slot>,
                                      excluded: nat, names: seq<string>, h: Host)
    requires Filtered(c, rule, visited, s, excluded, names)
    ensures Permitted(rule, Key(c, h)) ==>
              Filtered(c, rule, visited + [h], s + [Full(h)], excluded, names)
    ensures !Permitted(rule, Key(c, h)) ==>
              Filtered(c, rule, visited + [h], s + [Empty], excluded + 1, [Key(c, h)] + names)
  {
    KeptSnoc(c, rule, visited, h);
    LiveConcat(s, [Full(h)]);
    LiveConcat(s, [Empty]);
  }

  lemma {:induction false} NothingFiltered(c: Codec, rule: Rule)
    ensures Filtered(c, rule, [], [], 0, [])
  {
  }

  /** Empties the slots of the hosts that do not pass. */
  method RejectSlots(hosts: Hosts, c: Codec, rule: Rule) returns (excluded: nat, names: seq<string>)
    requires hosts.Valid()
    modifies hosts.slots
    ensures Live(hosts.slots[..]) == Kept(c, rule, old(hosts.Contents()))
    ensures names == Rejected(c, rule, old(hosts.Contents()))
    ensures |Live(hosts.slots[..])| + excluded == hosts.count
    ensures hosts.Sound()
  {
    hide Key, Kept, Rejected, Live;
    var slots := hosts.slots;
    ghost var list := hosts.Contents();
    hosts.ContentsAt();
    excluded, names := 0, [];
    NothingFiltered(c, rule);
    assert list[..0] == [] && slots[..0] == [];
    var i := 0;
    while i < hosts.count
      invariant 0 <= i <= hosts.count
      invariant forall k :: i <= k < slots.Length ==> slots[k] == old(slots[k])
      invariant Filtered(c, rule, list[..i], slots[..i], excluded, names)
    {
      ghost var s := slots[..i];
      var h := slots[i].host;
      assert list[..i + 1] == list[..i] + [h];
      FilterStep(c, rule, list[..i], s, excluded, names, h);
      var name := Key(c, h);
      if rule.deny.Some? && name in rule.deny.value {
        slots[i] := Empty;
        excluded := excluded + 1;
        names := [name] + names;
      } else if rule.allow.Some? && name !in rule.allow.value {
        slots[i] := Empty;
        excluded := excluded + 1;
        names := [name] + names;
      }
      assert slots[..i + 1] == s + [slots[i]];
      i := i + 1;
    }
    assert list[..i] == list;
    LiveOfFront(slots[..], i);
  }

  /** Removes the hosts that do not pass and closes the gaps. */
  method Filter(hosts: Hosts, c: Codec, rule: Rule) returns (excluded: nat, names: seq<string>)
    requires hosts.Valid()
    modifies hosts`count, hosts`removed, hosts`current, hosts.slots
    ensures hosts.Valid() && hosts.Contents() == Kept(c, rule, old(hosts.Contents()))
    ensures names == Rejected(c, rule, old(hosts.Contents()))
    ensures hosts.count == old(hosts.count) - excluded == |hosts.Contents()|
    ensures hosts.removed == old(hosts.removed) + excluded && hosts.current == 0
  {
    excluded, names := RejectSlots(hosts, c, rule);
    hosts.CloseGaps(excluded);
    hosts.removed := hosts.removed + excluded;
    hosts.current := 0;
  }

  // --------------------------------------------- Exclusion and authorization

  /** The values in a collection made from a string are those of its hosts. */
  lemma {:induction false} TableIsValues(c: Codec, ids: seq<HostId>, table: set<string>)
    requires forall k :: k in table <==> k in Keys(c, Deduplicated(c, Plain(ids)))
    ensures table == Values(c, ids)
  {
    var keys := Keys(c, Plain(ids));
    DeduplicatedKeys(c, Plain(ids));
    forall k
      ensures k in keys <==> k in Values(c, ids)
    {
      assert forall i :: 0 <= i < |ids| ==> keys[i] == ValueStr(c, ids[i]) && ids[i] in ids;
    }
  }

  /** A given list of hosts as a table, or none when it is no hosts string. */
  method TableOf(c: Codec, str: string, max: nat) returns (table: Option<set<string>>)
    requires Injective(c) && Processable(ElementsOf(c, str), max)
    ensures table.Some? <==> Acceptable(ElementsOf(c, str), max)
    ensures table.Some? ==> table.value == Values(c, Total(ElementsOf(c, str)))
  {
    var list := NewWithMax(c, str, max);
    if list == null {
      return None;
    }
    var t := ValueTable(list, c);
    TableIsValues(c, Total(ElementsOf(c, str)), t);
    return Some(t);
  }

  /** Removes the hosts that a string lists; -1 when it is no hosts string. */
  method ExcludeWithMax(hosts: Hosts, c: Codec, str: string, max: nat) returns (r: int)
    requires hosts.Valid() && Injective(c) && Processable(ElementsOf(c, str), max)
    modifies hosts`count, hosts`removed, hosts`current, hosts.slots
    ensures hosts.Valid()
    ensures r == -1 <==> !Acceptable(ElementsOf(c, str), max)
    ensures r == -1 ==> hosts.Contents() == old(hosts.Contents()) && hosts.count == old(hosts.count)
    ensures r != -1 ==>
              && hosts.Contents() ==
                 Kept(c, Rule(Some(Values(c, Total(ElementsOf(c, str)))), None), old(hosts.Contents()))
              && hosts.count == old(hosts.count) - r
    ensures hosts.count + hosts.removed == old(hosts.count + hosts.removed)
  {
    var table := TableOf(c, str, max);
    if table.None? {
      return -1;
    }
    if table.value == {} {
      KeptUnchanged(c, Rule(table, None), hosts.Contents());
      return 0;
    }
    var excluded, names := Filter(hosts, c, Rule(table, None));
    return excluded;
  }

  /** A list that was given and is a hosts string. */
  ghost predicate InForce(c: Codec, str: Option<string>) {
    str.Some? && Acceptable(ElementsOf(c, str.value), 0)
  }

  /** The table of a list in force. */
  ghost function Authorized(c: Codec, str: Option<string>): Option<set<string>> {
    if InForce(c, str) then Some(Values(c, Total(ElementsOf(c, str.value)))) else None
  }

  /** Keeps the hosts that are not denied and, if there is an allow list, allowed. A
      list that is not given or is no hosts string does not count; the others list at
      least one host. */
  method AllowedOnly(hosts: Hosts, c: Codec, deny: Option<string>, allow: Option<string>)
    returns (names: seq<string>)
    requires hosts.Valid() && Injective(c)
    requires deny.Some? ==> Processable(ElementsOf(c, deny.value), 0)
    requires allow.Some? ==> Processable(ElementsOf(c, allow.value), 0)
    requires InForce(c, deny) ==> Total(ElementsOf(c, deny.value)) != []
    requires InForce(c, allow) ==> Total(ElementsOf(c, allow.value)) != []
    modifies hosts`count, hosts`removed, hosts`current, hosts.slots
    ensures hosts.Valid()
    ensures var rule := Rule(Authorized(c, deny), Authorized(c, allow));
            && hosts.Contents() == Kept(c, rule, old(hosts.Contents()))
            && names == Rejected(c, rule, old(hosts.Contents()))
    ensures hosts.count == old(hosts.count) - |names|
    ensures hosts.count + hosts.removed == old(hosts.count + hosts.removed)
  {
    ghost var before := hosts.Contents();
    hosts.ContentsAt();
    var denied, allowed: Option<set<string>> := None, None;
    if deny.Some? {
      denied := TableOf(c, deny.value, 0);
    }
    if allow.Some? {
      allowed := TableOf(c, allow.value, 0);
    }
    KeptMeaning(c, Rule(denied, allowed), before);
    if denied.None? && allowed.None? {
      KeptUnchanged(c, Rule(None, None), before);
      return [];
    }
    var excluded;
    excluded, names := Filter(hosts, c, Rule(denied, allowed));
  }

  lemma {:induction false} NothingKept(c: Codec, rule: Rule)
    ensures Kept(c, rule, []) == [] && Rejected(c, rule, []) == []
  {
  }

  /** A rule that permits every key changes nothing. */
  lemma {:induction false} KeptUnchanged(c: Codec, rule: Rule, hosts: seq<Host>)
    requires forall k :: Permitted(rule, k)
    ensures Kept(c, rule, hosts) == hosts && Rejected(c, rule, hosts) == []
  {
    hide Kept, Rejected, Permitted, Key;
    NothingKept(c, rule);
    if hosts != [] {
      var front, h := hosts[..|hosts| - 1], hosts[|hosts| - 1];
      KeptUnchanged(c, rule, front);
      KeptSnoc(c, rule, front, h);
      assert hosts == front + [h];
      assert Permitted(rule, Key(c, h));
      assert [] + Rejected(c, rule, front) == [];
    }
  }

  /** For hosts with proper names, having the value of a listed host is being one. */
  lemma {:induction false} ExcludedByIdentity(c: Codec, ids: seq<HostId>, h: Host)
    requires Injective(c) && WellNamed(c, h.id)
    requires forall i :: 0 <= i < |ids| ==> WellNamed(c, ids[i])
    ensures Permitted(Rule(Some(Values(c, ids)), None), Key(c, h)) <==> h.id !in ids
  {
    forall i | 0 <= i < |ids|
      ensures ValueStr(c, ids[i]) == Key(c, h) <==> ids[i] == h.id
    {
      ValueStrInjective(c, ids[i], h.id);
    }
  }

  /** The rule of two lists of hosts. */
  ghost function RuleOf(c: Codec, deny: Option<seq<HostId>>, allow: Option<seq<HostId>>): Rule {
    Rule(if deny.Some? then Some(Values(c, deny.value)) else None,
         if allow.Some? then Some(Values(c, allow.value)) else None)
  }

  ghost predicate ProperNames(c: Codec, ids: seq<HostId>) {
    forall i :: 0 <= i < |ids| ==> WellNamed(c, ids[i])
  }

  lemma {:induction false} ValueOfListed(c: Codec, ids: seq<HostId>, h: Host)
    requires Injective(c) && WellNamed(c, h.id) && ProperNames(c, ids)
    ensures Key(c, h) in Values(c, ids) <==> h.id in ids
  {
    forall i | 0 <= i < |ids|
      ensures ValueStr(c, ids[i]) == Key(c, h) <==> ids[i] == h.id
    {
      ValueStrInjective(c, ids[i], h.id);
    }
  }

  lemma {:induction false} PermittedByIdentity(c: Codec, deny: Option<seq<HostId>>, allow: Option<seq<HostId>>, h: Host)
    requires Injective(c) && WellNamed(c, h.id)
    requires (deny.Some? ==> ProperNames(c, deny.value)) && (allow.Some? ==> ProperNames(c, allow.value))
    ensures Permitted(RuleOf(c, deny, allow), Key(c, h)) <==>
            (deny.Some? ==> h.id !in deny.value) && (allow.Some? ==> h.id in allow.value)
  {
    hide Values, Key, Injective, WellNamed, ProperNames;
    if deny.Some? {
      ValueOfListed(c, deny.value, h);
    }
    if allow.Some? {
      ValueOfListed(c, allow.value, h);
    }
  }

  /** With a list of denied and a list of allowed hosts, each given or not, a host is kept
      exactly if it is not among the denied ones and is among the allowed ones. */
  lemma {:induction false} KeptByIdentity(c: Codec, deny: Option<seq<HostId>>, allow: Option<seq<HostId>>,
                                          hosts: seq<Host>, h: Host)
    requires Injective(c) && WellNamed(c, h.id)
    requires (deny.Some? ==> ProperNames(c, deny.value)) && (allow.Some? ==> ProperNames(c, allow.value))
    ensures var passes := (deny.Some? ==> h.id !in deny.value) && (allow.Some? ==> h.id in allow.value);
            && (h in Kept(c, RuleOf(c, deny, allow), hosts) <==> h in hosts && passes)
            && Kept(c, RuleOf(c, deny, allow), [h]) == if passes then [h] else []
  {
    hide Kept, Permitted, RuleOf, Key, Injective, WellNamed, ProperNames;
    var rule := RuleOf(c, deny, allow);
    PermittedByIdentity(c, deny, allow, h);
    KeptMembers(c, rule, hosts, h);
    NothingKept(c, rule);
    KeptSnoc(c, rule, [], h);
    assert [] + [h] == [h];
  }

  // --------------------------------------------------------------- Virtual hosts

  /** One of the pieces, without outer white space, is the name, in any case. */
  predicate Named(pieces: seq<string>, name: string) {
    exists i :: 0 <= i < |pieces| && Lower(Strip(pieces[i])) == Lower(name)
  }

  function VhostsKept(pieces: seq<string>, vhosts: seq<Vhost>): (r: seq<Vhost>)
    ensures |r| <= |vhosts|
  {
    if vhosts == [] then []
    else if Named(pieces, vhosts[0].value) then VhostsKept(pieces, vhosts[1..])
    else [vhosts[0]] + VhostsKept(pieces, vhosts[1..])
  }

  lemma {:induction false} NoVhostsKept(pieces: seq<string>)
    ensures VhostsKept(pieces, []) == []
  {
  }

  lemma {:induction false} VhostsKeptCons(pieces: seq<string>, v: Vhost, rest: seq<Vhost>)
    ensures VhostsKept(pieces, [v] + rest) ==
            (if Named(pieces, v.value) then [] else [v]) + VhostsKept(pieces, rest)
  {
    assert ([v] + rest)[1..] == rest;
  }

  lemma {:induction false} VhostsKeptConcat(pieces: seq<string>, a: seq<Vhost>, b: seq<Vhost>)
    ensures VhostsKept(pieces, a + b) == VhostsKept(pieces, a) + VhostsKept(pieces, b)
  {
    hide Named, VhostsKept;
    if a == [] {
      NoVhostsKept(pieces);
      assert a + b == b;
    } else {
      var first, rest := a[0], a[1..];
      VhostsKeptConcat(pieces, rest, b);
      VhostsKeptCons(pieces, first, rest);
      VhostsKeptCons(pieces, first, rest + b);
      assert a == [first] + rest && a + b == [first] + (rest + b);
    }
  }

  lemma {:induction false} VhostsKeptAll(pieces: seq<string>, a: seq<Vhost>)
    requires forall i :: 0 <= i < |a| ==> !Named(pieces, a[i].value)
    ensures VhostsKept(pieces, a) == a
  {
    if a != [] {
      VhostsKeptAll(pieces, a[1..]);
    }
  }

  /** Looks a name up in the list of excluded names. */
  method FindName(pieces: seq<string>, name: string) returns (found: bool)
    ensures found == Named(pieces, name)
  {
    var i := 0;
    while i < |pieces|
      invariant 0 <= i <= |pieces|
      invariant forall k :: 0 <= k < i ==> Lower(Strip(pieces[k])) != Lower(name)
    {
      if Lower(Strip(pieces[i])) == Lower(name) {
        return true;
      }
      i := i + 1;
    }
    return false;
  }

  /** Removes the virtual hosts that are named in a comma-separated list. After a
      removal the walk starts again at the head of the list. */
  method VhostsExclude(host: Host, str: string) returns (result: Host, removed: nat)
    ensures result == host.(vhosts := VhostsKept(Split(str, ','), host.vhosts))
    ensures |result.vhosts| + removed == |host.vhosts|
  {
    var pieces := Split(str, ',');
    var vhosts := host.vhosts;
    removed := 0;
    var i := 0;
    while i < |vhosts|
      invariant 0 <= i <= |vhosts|
      invariant forall k :: 0 <= k < i ==> !Named(pieces, vhosts[k].value)
      invariant VhostsKept(pieces, vhosts) == VhostsKept(pieces, host.vhosts)
      invariant |vhosts| + removed == |host.vhosts|
      decreases |vhosts|, |vhosts| - i
    {
      var found := FindName(pieces, vhosts[i].value);
      if found {
        DropVhost(pieces, vhosts, i);
        vhosts := vhosts[..i] + vhosts[i + 1..];
        removed := removed + 1;
        i := 0;
      } else {
        i := i + 1;
      }
    }
    VhostsKeptAll(pieces, vhosts);
    result := host.(vhosts := vhosts);
  }

  lemma {:induction false} DropVhost(pieces: seq<string>, vhosts: seq<Vhost>, i: nat)
    requires i < |vhosts| && Named(pieces, vhosts[i].value)
    ensures VhostsKept(pieces, vhosts[..i] + vhosts[i + 1..]) == VhostsKept(pieces, vhosts)
  {
    assert vhosts == vhosts[..i] + vhosts[i..];
    assert vhosts[i..][1..] == vhosts[i + 1..];
    VhostsKeptConcat(pieces, vhosts[..i], vhosts[i..]);
    VhostsKeptConcat(pieces, vhosts[..i], vhosts[i + 1..]);
  }

  /** A virtual host stays exactly if it is none of the names of the list. */
  lemma {:induction false} VhostsKeptMembers(pieces: seq<string>, vhosts: seq<Vhost>, v: Vhost)
    ensures v in VhostsKept(pieces, vhosts) <==> v in vhosts && !Named(pieces, v.value)
  {
    hide Named;
    if vhosts != [] {
      VhostsKeptMembers(pieces, vhosts[1..], v);
      assert vhosts == [vhosts[0]] + vhosts[1..];
    }
  }

  /** A written list of names, with white space around them, removes the virtual hosts whose
      name is one of them up to the case of letters, and no other ones. */
  lemma {:induction false} ExcludedNames(names: seq<string>, pre: seq<string>, post: seq<string>,
                                         vhosts: seq<Vhost>, v: Vhost)
    requires Listable(names, pre, post)
    ensures v in VhostsKept(Split(Join(Padded(names, pre, post), ","), ','), vhosts) <==>
            v in vhosts && forall i :: 0 <= i < |names| ==> !SameLetters(names[i], v.value)
  {
    hide Join, Split, Strip, Lower, VhostsKept, SameLetters;
    var pieces := Padded(names, pre, post);
    PaddedPieces(names, pre, post);
    forall i | 0 <= i < |names|
      ensures Lower(Strip(pieces[i])) == Lower(v.value) <==> SameLetters(names[i], v.value)
    {
      SameLower(names[i], v.value);
    }
    VhostsKeptMembers(pieces, vhosts, v);
  }
}
