/**
 gvm_hosts_new_with_max: from a hosts string to a hosts collection.
 */
module HostBuild {
  import opened Lists
  import opened Bits
  import opened Bytes
  import opened Address
  import opened Text
  import opened Dedup
  import opened HostList
  import opened HostText

  // -------------------------------------------------------------- Specification

  /** The hosts an element stands for, in ascending order. */
  function Expand(e: Element): seq<HostId> {
    match e
    case Single(id) => [id]
    case Range4(first, last) =>
      if first > last then []
      else seq(last - first + 1, i requires 0 <= i <= last - first => V4(first + i))
    case Range6(first, last) =>
      var a, b := Value(first), Value(last);
      if a > b then []
      else seq(b - a + 1, i requires 0 <= i <= b - a => V6(Encode(a + i, 16)))
    case _ => []
  }

  /** A range that ends with the last address: the successor of its last address is
      the first one again, so the loop over it has no end of its own. */
  predicate Endless(e: Element) {
    || (e.Range4? && e.first4 <= e.last4 == V4_SIZE - 1)
    || (e.Range6? && Value(e.first6) <= Value(e.last6) && AllOnes(e.last6))
  }

  /** The next address; behind the last one of the family comes zero. */
  function Next4(a: addr4): addr4 {
    (a + 1) % V4_SIZE
  }

  function Next6(a: addr6): (b: addr6)
    ensures Value(b) == if AllOnes(a) then 0 else Value(a) + 1
  {
    OnesIsLast(a);
    var v := if AllOnes(a) then 0 else Value(a) + 1;
    ValueOfEncode(v, 16);
    Encode(v, 16)
  }

  /** The address after k turns of the loop over a range. */
  function Turns4(a: addr4, k: nat): addr4 {
    if k == 0 then a else Next4(Turns4(a, k - 1))
  }

  function Turns6(a: addr6, k: nat): addr6 {
    if k == 0 then a else Next6(Turns6(a, k - 1))
  }

  /** Counting up modulo the size of the address space. */
  lemma {:induction false} WrapOne(x: nat, size: nat)
    requires size > 0
    ensures (x + 1) % size == if x % size == size - 1 then 0 else x % size + 1
  {
    var q, r := x / size, x % size;
    Euclid(x, size);
    if r == size - 1 {
      DivModUnique(x + 1, size, q + 1, 0);
    } else {
      DivModUnique(x + 1, size, q, r + 1);
    }
  }

  lemma {:induction false} SmallRemainder(x: nat, size: nat)
    requires x < size
    ensures x % size == x
  {
    DivModUnique(x, size, 0, x);
  }

  lemma {:induction false} Turns4Value(a: addr4, k: nat)
    ensures Turns4(a, k) == (a + k) % V4_SIZE
  {
    if k > 0 {
      Turns4Value(a, k - 1);
    }
  }

  lemma {:induction false} Turns6Value(a: addr6, k: nat)
    ensures Shift(1, 16) > 0 && Value(Turns6(a, k)) == (Value(a) + k) % Shift(1, 16)
  {
    hide Value, Shift, AllOnes, Next6;
    ValueBound(a);
    if k == 0 {
      SmallRemainder(Value(a), Shift(1, 16));
    } else {
      Turns6Value(a, k - 1);
      OnesIsLast(Turns6(a, k - 1));
      WrapOne(Value(a) + k - 1, Shift(1, 16));
    }
  }

  /** Without a limit on the hosts, the guard of the loop over a range fails after some
      turns exactly when the range does not end with the last address of its family. */
  lemma {:induction false} RangeLoopEnds(e: Element)
    requires (e.Range4? && e.first4 <= e.last4) || (e.Range6? && Value(e.first6) <= Value(e.last6))
    ensures e.Range4? ==> ((exists k: nat :: Turns4(e.first4, k) > e.last4) <==> !Endless(e))
    ensures e.Range6? ==> ((exists k: nat :: Value(Turns6(e.first6, k)) > Value(e.last6)) <==> !Endless(e))
  {
    if e.Range4? {
      Loop4Ends(e.first4, e.last4);
    } else {
      Loop6Ends(e.first6, e.last6);
    }
  }

  lemma {:induction false} Loop4Ends(first: addr4, last: addr4)
    requires first <= last
    ensures (exists k: nat :: Turns4(first, k) > last) <==> last != V4_SIZE - 1
  {
    hide Turns4;
    if last != V4_SIZE - 1 {
      var k := last + 1 - first;
      Turns4Value(first, k);
      assert Turns4(first, k) > last;
    }
  }

  lemma {:induction false} Loop6Ends(first: addr6, last: addr6)
    requires Value(first) <= Value(last)
    ensures (exists k: nat :: Value(Turns6(first, k)) > Value(last)) <==> !AllOnes(last)
  {
    hide Turns6, Value, Shift, AllOnes;
    OnesIsLast(last);
    if AllOnes(last) {
      forall k: nat
        ensures Value(Turns6(first, k)) <= Value(last)
      {
        ValueBound(Turns6(first, k));
      }
    } else {
      var k := Value(last) + 1 - Value(first);
      Turns6Value(first, k);
      SmallRemainder(Value(last) + 1, Shift(1, 16));
      assert Value(Turns6(first, k)) > Value(last);
    }
  }

  /** The range of the last IPv4 address alone stands for one host, and has no end. */
  lemma {:induction false} LastAddressAlone()
    ensures var e := Range4(V4_SIZE - 1, V4_SIZE - 1); |Expand(e)| == 1 && Endless(e)
  {
  }

  predicate Usable(e: Element) {
    !e.Invalid? && !e.Undefined? && !Endless(e)
  }

  /** The elements of the pieces of a hosts string; blank pieces have none. */
  ghost function Elements(parse: string -> Element, pieces: seq<string>): seq<Element> {
    if pieces == [] then []
    else
      var front, last := Elements(parse, pieces[..|pieces| - 1]), Strip(pieces[|pieces| - 1]);
      if last == "" then front else front + [parse(last)]
  }

  /** The reader of elements. The proofs about lists of elements are about any reader;
      this one is gvm_get_host_type with the functions that extract addresses. */
  function Parser(c: Codec): string -> Element {
    s => ParseElement(c, s)
  }

  ghost predicate Parses(c: Codec, parse: string -> Element) {
    forall s {:trigger ParseElement(c, s)} :: parse(s) == ParseElement(c, s)
  }

  function HostPieces(str: string): seq<string> {
    Split(NewlinesToCommas(str), ',')
  }

  /** The hosts of all elements, in order. */
  function Total(es: seq<Element>): seq<HostId> {
    if es == [] then [] else Total(es[..|es| - 1]) + Expand(es[|es| - 1])
  }

  /** Hosts without virtual hosts. */
  function Plain(ids: seq<HostId>): (r: seq<Host>)
    ensures |r| == |ids|
  {
    seq(|ids|, i requires 0 <= i < |ids| => Host(ids[i], []))
  }

  /** Every element is a host definition with an end, and the hosts are not too many. */
  ghost predicate Acceptable(es: seq<Element>, max: nat) {
    && (forall i :: 0 <= i < |es| ==> Usable(es[i]))
    && (max == 0 || |Total(es)| <= max)
  }

  /** An element with an undefined block or, without a limit, no end only comes behind
      elements that are not acceptable already. */
  ghost predicate Processable(es: seq<Element>, max: nat) {
    forall i :: 0 <= i < |es| && (es[i].Undefined? || (max == 0 && Endless(es[i]))) ==>
      !Acceptable(es[..i], max)
  }

  lemma {:induction false} PlainConcat(a: seq<HostId>, b: seq<HostId>)
    ensures Plain(a + b) == Plain(a) + Plain(b)
  {
  }

  lemma {:induction false} TotalSnoc(es: seq<Element>, e: Element)
    ensures Total(es + [e]) == Total(es) + Expand(e)
  {
    assert (es + [e])[..|es|] == es;
  }

  // ------------------------------------------------------------ The range loops

  /** Adds the addresses of an IPv4 range, until there are more than max hosts. */
  method AddRange4(hosts: Hosts, first: addr4, last: addr4, max: nat) returns (ok: bool)
    requires hosts.Valid() && first <= last
    requires max == 0 ==> !Endless(Range4(first, last))
    requires max > 0 ==> hosts.count <= max
    modifies hosts`slots, hosts`count, hosts.slots
    ensures hosts.Valid() && (hosts.slots == old(hosts.slots) || fresh(hosts.slots))
    ensures ok <==> !Endless(Range4(first, last))
                    && (max == 0 || old(hosts.count) + |Expand(Range4(first, last))| <= max + 1)
    ensures ok ==> hosts.Contents() == old(hosts.Contents()) + Plain(Expand(Range4(first, last)))
    ensures max > 0 ==> hosts.count <= max + 1
    ensures ok ==> hosts.count == old(hosts.count) + |Expand(Range4(first, last))|
  {
    ghost var e := Range4(first, last);
    ghost var ids := Expand(e);
    ghost var added := 0;
    var current: addr4 := first;
    while current <= last
      invariant hosts.Valid() && (hosts.slots == old(hosts.slots) || fresh(hosts.slots))
      invariant hosts.count == old(hosts.count) + added
      invariant max > 0 ==> hosts.count <= max + 1
      invariant !Endless(e) ==> added <= |ids| && current == first + added
      invariant !Endless(e) ==> hosts.Contents() == old(hosts.Contents()) + Plain(ids[..added])
      decreases if max > 0 then max + 1 - hosts.count else last as int + 1 - current
    {
      if max > 0 && hosts.count > max {
        return false;
      }
      hosts.Add(Host(V4(current), []));
      if !Endless(e) {
        PlainNext(ids, added);
      }
      added := added + 1;
      current := Next4(current);
    }
    assert ids[..|ids|] == ids;
    ok := true;
  }

  lemma {:induction false} PlainNext(ids: seq<HostId>, k: nat)
    requires k < |ids|
    ensures Plain(ids[..k + 1]) == Plain(ids[..k]) + [Host(ids[k], [])]
  {
  }

  /** The address after a given one, computed in a copy of its bytes. */
  method Successor(a: addr6) returns (b: addr6)
    ensures b == Next6(a)
  {
    var bytes := new byte[16](i requires 0 <= i < 16 => a[i]);
    assert bytes[..] == a;
    OnesIsLast(a);
    Increment(bytes);
    b := bytes[..];
    ValueInjective(b, Next6(a));
  }

  /** Adds the addresses of an IPv6 range, until there are more than max hosts. */
  method AddRange6(hosts: Hosts, first: addr6, last: addr6, max: nat) returns (ok: bool)
    requires hosts.Valid() && Value(first) <= Value(last)
    requires max == 0 ==> !Endless(Range6(first, last))
    requires max > 0 ==> hosts.count <= max
    modifies hosts`slots, hosts`count, hosts.slots
    ensures hosts.Valid() && (hosts.slots == old(hosts.slots) || fresh(hosts.slots))
    ensures ok <==> !Endless(Range6(first, last))
                    && (max == 0 || old(hosts.count) + |Expand(Range6(first, last))| <= max + 1)
    ensures ok ==> hosts.Contents() == old(hosts.Contents()) + Plain(Expand(Range6(first, last)))
    ensures max > 0 ==> hosts.count <= max + 1
    ensures ok ==> hosts.count == old(hosts.count) + |Expand(Range6(first, last))|
  {
    hide Value, Expand, Plain, AllOnes, Next6;
    ghost var ids := Expand(Range6(first, last));
    RangeLength6(first, last);
    ghost var added := 0;
    var current := first;
    assert ids[..0] == [];
    var order := Memcmp(current, last);
    while order <= 0
      invariant hosts.Valid() && (hosts.slots == old(hosts.slots) || fresh(hosts.slots))
      invariant hosts.count == old(hosts.count) + added
      invariant max > 0 ==> hosts.count <= max + 1
      invariant order <= 0 <==> Value(current) <= Value(last)
      invariant !AllOnes(last) ==> Value(current) == Value(first) + added && added <= |ids|
      invariant !AllOnes(last) ==> hosts.Contents() == old(hosts.Contents()) + Plain(ids[..added])
      decreases if max > 0 then max + 1 - hosts.count else Value(last) + 1 - Value(current)
    {
      if max > 0 && hosts.count > max {
        return false;
      }
      hosts.Add(Host(V6(current), []));
      if !AllOnes(last) {
        RangeStep6(first, last, current, added);
      }
      added := added + 1;
      current := Successor(current);
      order := Memcmp(current, last);
    }
    BelowLast(current, last);
    assert ids[..|ids|] == ids;
    ok := true;
  }

  lemma {:induction false} RangeLength6(first: addr6, last: addr6)
    requires Value(first) <= Value(last)
    ensures |Expand(Range6(first, last))| == Value(last) - Value(first) + 1 && Plain([]) == []
  {
  }

  lemma {:induction false} RangeStep6(first: addr6, last: addr6, current: addr6, added: nat)
    requires !AllOnes(last) && Value(first) + added == Value(current) <= Value(last)
    ensures var ids := Expand(Range6(first, last));
            && added < |ids| && !AllOnes(current)
            && Plain(ids[..added + 1]) == Plain(ids[..added]) + [Host(V6(current), [])]
  {
    BelowLast(current, last);
    EncodeOfValue(current);
    PlainNext(Expand(Range6(first, last)), added);
  }

  /** Nothing is above all ones, and what is not above another address is not all
      ones either. */
  lemma {:induction false} BelowLast(a: addr6, last: addr6)
    ensures AllOnes(last) ==> Value(a) <= Value(last)
    ensures !AllOnes(last) && Value(a) <= Value(last) ==> !AllOnes(a)
  {
    OnesIsLast(a);
    OnesIsLast(last);
  }

  // --------------------------------------------------------- The whole function

  /** The first and last usable address of an IPv6 block, computed in place. */
  method BlockBounds6(a: addr6, digits: string) returns (first: addr6, last: addr6)
    requires IsNumberUpTo(digits, 128) && !Block6(a, digits).Undefined?
    ensures Range6(first, last) == Block6(a, digits)
  {
    NumberIsDecimal(digits, 128);
    DecimalFront(digits, if 3 < |digits| then 3 else |digits|);
    var block := ScanNumber(digits, 3);
    hide Cidr6First, Cidr6Last;
    var f, l := Cidr6BlockIps(a, block);
    first, last := f[..], l[..];
    Cidr6Functions(a, block);
    ValueInjective(first, Cidr6First(a, block));
    ValueInjective(last, Cidr6Last(a, block));
  }

  lemma {:induction false} BlockElement(c: Codec, s: string)
    requires ParseElement(c, s).Range6? && IsCidr6(c, s)
    ensures var i := Find(s, '/'); ParseElement(c, s) == Block6(c.pton6(s[..i]).value, s[i + 1..])
  {
    hide Block6, Short6, Strtol, Find, ScanNumber, ShortRange4Last, Lower;
  }

  /** The first and last address of an IPv6 range or block. */
  method Bounds6(c: Codec, s: string) returns (first: addr6, last: addr6)
    requires ParseElement(c, s).Range6?
    ensures Range6(first, last) == ParseElement(c, s)
  {
    if IsCidr6(c, s) {
      BlockElement(c, s);
      var slash := Find(s, '/');
      first, last := BlockBounds6(c.pton6(s[..slash]).value, s[slash + 1..]);
    } else {
      first, last := ParseElement(c, s).first6, ParseElement(c, s).last6;
    }
  }

  /** Adds the hosts of one element; fails when the element is no host definition or
      the collection has more than max hosts. */
  method AddElement(hosts: Hosts, c: Codec, s: string, max: nat, ghost parse: string -> Element) returns (ok: bool)
    requires hosts.Valid() && Parses(c, parse)
    requires !parse(s).Undefined? && (max == 0 ==> !Endless(parse(s)))
    requires max > 0 ==> hosts.count <= max
    modifies hosts`slots, hosts`count, hosts.slots
    ensures hosts.Valid() && (hosts.slots == old(hosts.slots) || fresh(hosts.slots))
    ensures var e := parse(s);
            && (ok <==> Usable(e) && (max == 0 || old(hosts.count) + |Expand(e)| <= max))
            && (ok ==> hosts.Contents() == old(hosts.Contents()) + Plain(Expand(e))
                       && hosts.count == old(hosts.count) + |Expand(e)|)
    ensures max > 0 ==> hosts.count <= max + 1
  {
    hide ParseElement;
    ok := true;
    match ParseElement(c, s) {
      case Invalid => return false;
      case Single(id) => hosts.Add(Host(id, []));
      case Range4(first, last) =>
        if first <= last {
          ok := AddRange4(hosts, first, last, max);
        }
      case Range6(_, _) =>
        var first, last := Bounds6(c, s);
        var order := Memcmp(first, last);
        if order <= 0 {
          ok := AddRange6(hosts, first, last, max);
        }
    }
    ok := ok && (max == 0 || hosts.count <= max);
  }

  lemma {:induction false} ElementsSnoc(parse: string -> Element, pieces: seq<string>, k: nat)
    requires k < |pieces|
    ensures Elements(parse, pieces[..k + 1]) ==
            Elements(parse, pieces[..k])
            + (if Strip(pieces[k]) == "" then [] else [parse(Strip(pieces[k]))])
  {
    assert pieces[..k + 1][..k] == pieces[..k];
  }

  /** The elements of the first pieces are the first elements. */
  lemma {:induction false} ElementsPrefix(parse: string -> Element, pieces: seq<string>, k: nat)
    requires k <= |pieces|
    ensures Elements(parse, pieces[..k]) <= Elements(parse, pieces)
    decreases |pieces| - k
  {
    if k < |pieces| {
      ElementsSnoc(parse, pieces, k);
      ElementsPrefix(parse, pieces, k + 1);
    } else {
      assert pieces[..k] == pieces;
    }
  }

  lemma {:induction false} TotalMonotone(es: seq<Element>, k: nat)
    requires k <= |es|
    ensures |Total(es[..k])| <= |Total(es)|
    decreases |es|
  {
    if k < |es| {
      TotalMonotone(es[..|es| - 1], k);
      assert es[..|es| - 1][..k] == es[..k];
    } else {
      assert es[..k] == es;
    }
  }

  /** Where a prefix of the elements already fails, all of them do. */
  lemma {:induction false} FailsEarly(es: seq<Element>, max: nat, k: nat)
    requires k <= |es| && !Acceptable(es[..k], max)
    ensures !Acceptable(es, max)
  {
    TotalMonotone(es, k);
    assert forall i :: 0 <= i < k ==> es[..k][i] == es[i];
  }

  lemma {:induction false} EncodeDistinct(first: addr6, last: addr6, i: nat, j: nat)
    requires i < j && Value(first) + j <= Value(last)
    ensures Value(first) + j < Shift(1, 16)
    ensures Encode(Value(first) + i, 16) != Encode(Value(first) + j, 16)
  {
    hide Encode, Value, Shift;
    ValueBound(last);
    ValueOfEncode(Value(first) + i, 16);
    ValueOfEncode(Value(first) + j, 16);
  }

  lemma {:induction false} DistinctIds(e: Element, i: nat, j: nat)
    requires i < j < |Expand(e)|
    ensures Expand(e)[i] != Expand(e)[j] && !Expand(e)[i].Name? && !Expand(e)[j].Name?
  {
    hide Encode, Value;
    if e.Range6? {
      EncodeDistinct(e.first6, e.last6, i, j);
    }
  }

  /** The hosts of one element are different hosts. */
  lemma {:induction false} ExpandDistinct(c: Codec, e: Element)
    requires Injective(c)
    ensures Distinct(Keys(c, Plain(Expand(e))))
  {
    hide Expand, ValueStr, Injective;
    var ids := Expand(e);
    var keys := Keys(c, Plain(ids));
    forall i, j | 0 <= i < j < |keys|
      ensures keys[i] != keys[j]
    {
      DistinctIds(e, i, j);
      assert keys[i] == ValueStr(c, ids[i]) && keys[j] == ValueStr(c, ids[j]);
      if keys[i] == keys[j] {
        ValueStrInjective(c, ids[i], ids[j]);
      }
    }
  }

  /** What the element in piece k adds to the hosts of the pieces before it. */
  lemma {:induction false} PieceStep(parse: string -> Element, pieces: seq<string>, max: nat, k: nat, ids: seq<HostId>)
    requires k < |pieces| && Strip(pieces[k]) != "" && ids == Total(Elements(parse, pieces[..k]))
    requires Processable(Elements(parse, pieces), max) && Acceptable(Elements(parse, pieces[..k]), max)
    ensures var e := parse(Strip(pieces[k]));
            && !e.Undefined? && (max == 0 ==> !Endless(e))
            && Total(Elements(parse, pieces[..k + 1])) == ids + Expand(e)
            && Plain(ids + Expand(e)) == Plain(ids) + Plain(Expand(e))
            && (Acceptable(Elements(parse, pieces[..k + 1]), max) <==>
                Usable(e) && (max == 0 || |ids| + |Expand(e)| <= max))
    ensures !Acceptable(Elements(parse, pieces[..k + 1]), max) ==> !Acceptable(Elements(parse, pieces), max)
  {
    hide Expand, Endless, Total, Elements, Strip, Processable, Plain;
    var es, before, e := Elements(parse, pieces), Elements(parse, pieces[..k]), parse(Strip(pieces[k]));
    ElementsSnoc(parse, pieces, k);
    ElementsPrefix(parse, pieces, k + 1);
    assert es[..|before| + 1] == before + [e];
    TotalSnoc(before, e);
    PlainConcat(ids, Expand(e));
    NotYetFailed(es, max, before, e);
    assert (before + [e])[|before|] == e;
    if !Acceptable(before + [e], max) {
      FailsEarly(es, max, |before| + 1);
    }
  }

  /** The collection holds the hosts of the elements es, which are acceptable. */
  ghost predicate Holds(list: Hosts, es: seq<Element>, max: nat)
    reads list, list.slots
  {
    && list.Valid() && Acceptable(es, max)
    && list.Contents() == Plain(Total(es)) && list.count == |Total(es)|
  }

  /** Adds the hosts of piece k, unless it is blank. */
  method AddPiece(list: Hosts, c: Codec, pieces: seq<string>, k: nat, max: nat, ghost parse: string -> Element)
    returns (ok: bool)
    requires k < |pieces| && Parses(c, parse) && Processable(Elements(parse, pieces), max)
    requires Holds(list, Elements(parse, pieces[..k]), max)
    modifies list`slots, list`count, list.slots
    ensures list.Valid() && (list.slots == old(list.slots) || fresh(list.slots))
    ensures ok ==> Holds(list, Elements(parse, pieces[..k + 1]), max)
    ensures !ok ==> !Acceptable(Elements(parse, pieces), max)
    ensures max > 0 ==> list.count <= max + 1
  {
    var stripped := Strip(pieces[k]);
    if stripped == "" {
      ElementsSnoc(parse, pieces, k);
      assert Elements(parse, pieces[..k + 1]) == Elements(parse, pieces[..k]);
      ok := true;
    } else {
      PieceStep(parse, pieces, max, k, Total(Elements(parse, pieces[..k])));
      ok := AddElement(list, c, stripped, max, parse);
    }
  }

  /** Adds the hosts of all pieces of a string to a collection. */
  method AddPieces(list: Hosts, c: Codec, pieces: seq<string>, max: nat, ghost parse: string -> Element)
    returns (ok: bool)
    requires Parses(c, parse) && list.Valid() && list.Contents() == [] && list.count == 0
    requires Processable(Elements(parse, pieces), max)
    modifies list`slots, list`count, list.slots
    ensures list.Valid() && (list.slots == old(list.slots) || fresh(list.slots))
    ensures ok <==> Acceptable(Elements(parse, pieces), max)
    ensures ok ==> list.Contents() == Plain(Total(Elements(parse, pieces)))
    ensures max > 0 ==> list.count <= max + 1
  {
    ok := true;
    var k := 0;
    while k < |pieces|
      invariant 0 <= k <= |pieces|
      invariant list.slots == old(list.slots) || fresh(list.slots)
      invariant Holds(list, Elements(parse, pieces[..k]), max)
    {
      ok := AddPiece(list, c, pieces, k, max, parse);
      if !ok {
        return;
      }
      k := k + 1;
    }
    assert pieces[..k] == pieces;
    ok := true;
  }

  /** The collection of the hosts of all pieces, or null. */
  method NewFromPieces(c: Codec, pieces: seq<string>, max: nat, ghost parse: string -> Element)
    returns (hosts: Hosts?)
    requires Injective(c) && Parses(c, parse) && Processable(Elements(parse, pieces), max)
    ensures hosts != null <==> Acceptable(Elements(parse, pieces), max)
    ensures hosts != null ==>
              && fresh(hosts) && fresh(hosts.slots) && hosts.Valid()
              && hosts.Contents() == Deduplicated(c, Plain(Total(Elements(parse, pieces))))
              && hosts.count == |hosts.Contents()|
              && hosts.count + hosts.duplicated == |Total(Elements(parse, pieces))|
              && hosts.removed == hosts.current == 0
  {
    hide Elements, Total, Deduplicated, Processable, Acceptable, Injective, Parses, Plain;
    var list := new Hosts();
    var ok := AddPieces(list, c, pieces, max, parse);
    if !ok {
      return null;
    }
    list.ContentsAt();
    if |pieces| > 1 {
      list.Deduplicate(c);
    } else {
      OnePiece(c, parse, pieces);
    }
    hosts := list;
  }

  /** The elements of a hosts string. */
  ghost function ElementsOf(c: Codec, str: string): seq<Element> {
    Elements(Parser(c), HostPieces(str))
  }

  /** Creates the collection of the hosts that a string denotes: it is returned exactly
      when every element is a host definition with an end and the hosts are not more
      than max, and it holds the hosts of all elements without duplicates. */
  method NewWithMax(c: Codec, str: string, max: nat) returns (hosts: Hosts?)
    requires Injective(c) && Processable(ElementsOf(c, str), max)
    ensures hosts != null <==> Acceptable(ElementsOf(c, str), max)
    ensures hosts != null ==>
              && fresh(hosts) && fresh(hosts.slots) && hosts.Valid()
              && hosts.Contents() == Deduplicated(c, Plain(Total(ElementsOf(c, str))))
              && hosts.count == |hosts.Contents()|
              && hosts.count + hosts.duplicated == |Total(ElementsOf(c, str))|
              && hosts.removed == hosts.current == 0
  {
    hosts := NewFromPieces(c, HostPieces(str), max, Parser(c));
  }

  /** The element after usable ones can be processed. */
  lemma {:induction false} NotYetFailed(es: seq<Element>, max: nat, before: seq<Element>, e: Element)
    requires Processable(es, max) && Acceptable(before, max)
    requires |before| < |es| && es[..|before| + 1] == before + [e]
    ensures !e.Undefined? && (max == 0 ==> !Endless(e))
  {
    var n := |before|;
    assert es[n] == es[..n + 1][n] == e;
    assert es[..n] == es[..n + 1][..n] == before;
  }

  /** At most one element: nothing to remove. */
  lemma {:induction false} OnePiece(c: Codec, parse: string -> Element, pieces: seq<string>)
    requires Injective(c) && |pieces| <= 1
    ensures var hosts := Plain(Total(Elements(parse, pieces))); Deduplicated(c, hosts) == hosts
  {
    var es := Elements(parse, pieces);
    if |pieces| == 1 {
      assert pieces[..0] == [];
      if es != [] {
        assert Elements(parse, pieces[..0]) == [] && es == [] + [es[0]];
        TotalSnoc([], es[0]);
        assert Total(es) == Expand(es[0]);
        ExpandDistinct(c, es[0]);
        DeduplicatedDistinct(c, Plain(Total(es)));
      }
    }
  }
}
