/**
 The Internet checksum, sections 1 and 2 of RFC 1071: the loop with a 32-bit
 accumulator against sixteen-bit one's complement addition.
 */
module Checksum {
  import opened Bytes

  datatype Endian = Little | Big

  const WORD_MAX: int := 65535

  type word = i: int | 0 <= i <= 65535

  // ------------------------------------------------------------ Words of a buffer

  /** The word that two bytes in memory hold. */
  function WordOf(first: byte, second: byte, e: Endian): word {
    if e == Little then first + 256 * second else 256 * first + second
  }

  /** The words of a buffer; behind an odd byte stands a zero byte. */
  function Words(b: seq<byte>, e: Endian): (ws: seq<word>)
    ensures |ws| == (|b| + 1) / 2
  {
    if |b| == 0 then [] else if |b| == 1 then [WordOf(b[0], 0, e)]
    else [WordOf(b[0], b[1], e)] + Words(b[2..], e)
  }

  lemma {:induction false} WordsAt(b: seq<byte>, e: Endian, k: nat)
    requires k < |Words(b, e)|
    ensures Words(b, e)[k] == WordOf(b[2 * k], if 2 * k + 1 < |b| then b[2 * k + 1] else 0, e)
  {
    if k > 0 {
      WordsAt(b[2..], e, k - 1);
    }
  }

  /** On a big-endian machine a word is the number that its two bytes denote; on a
      little-endian one the number that they denote in the opposite order. */
  lemma {:induction false} WordValue(first: byte, second: byte)
    ensures WordOf(first, second, Big) == Value([first, second])
    ensures WordOf(first, second, Little) == Value([second, first])
  {
    TwoBytes(first, second);
    TwoBytes(second, first);
  }

  lemma {:induction false} TwoBytes(a: byte, b: byte)
    ensures Value([a, b]) == 256 * a + b
  {
    assert [a, b][..1] == [a] && [a][..0] == [];
    assert Value([]) == 0 && Value([a]) == a;
  }

  /** An odd byte counts like the same byte with a zero byte behind it. */
  lemma {:induction false} OddByte(b: seq<byte>, e: Endian)
    requires |b| % 2 == 1
    ensures Words(b + [0], e) == Words(b, e)
  {
    if |b| == 1 {
      assert (b + [0])[0] == b[0] && (b + [0])[1] == 0 && (b + [0])[2..] == [];
    } else {
      OddByte(b[2..], e);
      assert (b + [0])[2..] == b[2..] + [0] && (b + [0])[0] == b[0] && (b + [0])[1] == b[1];
    }
  }

  // ------------------------------------------------------ One's complement addition

  /** Addition with end-around carry. */
  function AddOnes(a: word, b: word): word {
    if a + b > WORD_MAX then a + b - WORD_MAX else a + b
  }

  /** The one's complement sum of the words. */
  function OnesSum(ws: seq<word>): word {
    if ws == [] then 0 else AddOnes(OnesSum(ws[..|ws| - 1]), ws[|ws| - 1])
  }

  /** The integer sum of the words. */
  function Sum(ws: seq<word>): nat {
    if ws == [] then 0 else Sum(ws[..|ws| - 1]) + ws[|ws| - 1]
  }

  /** The number from 1 to 65535 that differs from s by a multiple of 65535, or 0. */
  function Residue(s: nat): word {
    if s == 0 then 0 else (s - 1) % WORD_MAX + 1
  }

  lemma {:induction false} ResidueUnique(s: nat, r: word, k: int)
    requires s == r + WORD_MAX * k && (s == 0 <==> r == 0)
    ensures Residue(s) == r
  {
    if s > 0 {
      assert s - 1 == WORD_MAX * k + (r - 1);
    }
  }

  lemma {:induction false} ResidueQuotient(s: nat) returns (k: nat)
    ensures s == Residue(s) + WORD_MAX * k
  {
    k := if s == 0 then 0 else (s - 1) / WORD_MAX;
  }

  /** Carries may be added back at the end, in any order. */
  lemma {:induction false} OnesSumIsResidue(ws: seq<word>)
    ensures OnesSum(ws) == Residue(Sum(ws))
  {
    if ws != [] {
      var front, last := ws[..|ws| - 1], ws[|ws| - 1];
      OnesSumIsResidue(front);
      var k := ResidueQuotient(Sum(front));
      var r := AddOnes(OnesSum(front), last);
      ResidueUnique(Sum(ws), r, if OnesSum(front) + last > WORD_MAX then k + 1 else k);
    }
  }

  // --------------------------------------------------------------- The accumulator

  const TWO_32: int := 0x1_0000_0000

  /** Up to 65537 words the sum stays below 2^32. */
  lemma {:induction false} SumBound(ws: seq<word>)
    ensures Sum(ws) <= WORD_MAX * |ws|
    ensures |ws| <= 65537 ==> Sum(ws) < TWO_32
  {
    if ws != [] {
      SumBound(ws[..|ws| - 1]);
    }
  }

  /** One more word is too many. */
  lemma {:induction false} SumBoundIsTight(n: nat)
    ensures var ws: seq<word> := seq(n, _ => WORD_MAX); Sum(ws) == WORD_MAX * n && (n == 65538 ==> Sum(ws) >= TWO_32)
  {
    if n > 0 {
      SumBoundIsTight(n - 1);
      var ws: seq<word> := seq(n, _ => WORD_MAX);
      var front: seq<word> := seq(n - 1, _ => WORD_MAX);
      assert ws[..n - 1] == front;
    }
  }

  /** Adds the high sixteen bits to the low ones, then the carry, and truncates. */
  function Folded(sum: nat): word {
    var once := sum / 65536 + sum % 65536;
    (once + once / 65536) % 65536
  }

  /** Two folds suffice. */
  lemma {:induction false} TwoFoldsSuffice(sum: nat)
    requires sum < TWO_32
    ensures Folded(sum) == Residue(sum)
  {
    var once := sum / 65536 + sum % 65536;
    assert once <= 2 * WORD_MAX;
    var carry := once / 65536;
    assert 0 <= carry <= 1;
    assert once + carry - 65536 * carry == Folded(sum);
    ResidueUnique(sum, Folded(sum), sum / 65536 + carry);
  }

  /** The checksum of a list of words: the complement of the one's complement sum. */
  function Checksum(ws: seq<word>): word {
    WORD_MAX - OnesSum(ws)
  }

  lemma {:induction false} WrapStep(total: nat, sum: nat, w: word)
    requires sum == total % TWO_32
    ensures (sum + w) % TWO_32 == (total + w) % TWO_32
  {
  }

  lemma {:induction false} SumStep(ws: seq<word>, k: nat, sum: nat)
    requires k < |ws| && sum == Sum(ws[..k]) % TWO_32
    ensures (sum + ws[k]) % TWO_32 == Sum(ws[..k + 1]) % TWO_32
  {
    assert ws[..k + 1][..k] == ws[..k];
    WrapStep(Sum(ws[..k]), sum, ws[k]);
  }

  /** Adds up the words of a buffer in a 32-bit accumulator. */
  method AddWords(addr: array<byte>, e: Endian) returns (sum: nat)
    ensures sum == Sum(Words(addr[..], e)) % TWO_32
  {
    hide Sum, WordOf;
    ghost var ws := Words(addr[..], e);
    var nleft := addr.Length;
    sum := 0;
    var w := 0;
    assert ws[..0] == [] && Sum([]) == 0 by {
      SumBound([]);
    }
    while nleft > 1
      invariant nleft == addr.Length - 2 * w && nleft >= 0
      invariant sum == Sum(ws[..w]) % TWO_32
    {
      WordsAt(addr[..], e, w);
      SumStep(ws, w, sum);
      sum := (sum + WordOf(addr[2 * w], addr[2 * w + 1], e)) % TWO_32;
      w, nleft := w + 1, nleft - 2;
    }
    if nleft == 1 {
      WordsAt(addr[..], e, w);
      SumStep(ws, w, sum);
      sum := (sum + WordOf(addr[2 * w], 0, e)) % TWO_32;
      w := w + 1;
    }
    assert ws[..w] == ws;
  }

  /** The checksum of a buffer. */
  method InCksum(addr: array<byte>, e: Endian) returns (answer: word)
    ensures answer == WORD_MAX - Folded(Sum(Words(addr[..], e)) % TWO_32)
    ensures addr.Length <= 2 * 65537 ==> answer == Checksum(Words(addr[..], e))
  {
    hide Sum, Words, OnesSum, Residue;
    var sum := AddWords(addr, e);
    ghost var ws := Words(addr[..], e);
    if addr.Length <= 2 * 65537 {
      SumBound(ws);
      TwoFoldsSuffice(sum);
      OnesSumIsResidue(ws);
    }
    sum := sum / 65536 + sum % 65536;
    sum := sum + sum / 65536;
    answer := WORD_MAX - sum % 65536;
  }

  // ------------------------------------------------------------- Laws of checksums

  function Without(ws: seq<word>, i: nat): seq<word>
    requires i < |ws|
  {
    ws[..i] + ws[i + 1..]
  }

  lemma {:induction false} MultisetWithout(ws: seq<word>, i: nat)
    requires i < |ws|
    ensures multiset(Without(ws, i)) == multiset(ws) - multiset{ws[i]}
  {
    assert ws == ws[..i] + [ws[i]] + ws[i + 1..];
  }

  /** The sum does not depend on the order of the words. */
  lemma {:induction false} SumOfPermutation(ws: seq<word>, us: seq<word>)
    requires multiset(ws) == multiset(us)
    ensures Sum(ws) == Sum(us)
    decreases |ws|
  {
    hide Sum, Without;
    if ws == [] {
      assert |us| == |multiset(us)|;
    } else {
      assert ws[0] in multiset(us);
      var i :| 0 <= i < |us| && us[i] == ws[0];
      MultisetWithout(ws, 0);
      MultisetWithout(us, i);
      SumWithout(ws, 0);
      SumWithout(us, i);
      SumOfPermutation(Without(ws, 0), Without(us, i));
    }
  }

  lemma {:induction false} SumWithout(ws: seq<word>, i: nat)
    requires i < |ws|
    ensures |Without(ws, i)| == |ws| - 1 && Sum(ws) == Sum(Without(ws, i)) + ws[i]
  {
    var rest, last := Without(ws, i), |ws| - 1;
    if i == last {
      assert rest == ws[..last];
    } else {
      SumWithout(ws[..last], i);
      assert rest[..|rest| - 1] == Without(ws[..last], i);
    }
  }

  /** The checksum does not depend on the order of the words. */
  lemma {:induction false} ChecksumOfPermutation(ws: seq<word>, us: seq<word>)
    requires multiset(ws) == multiset(us)
    ensures Checksum(ws) == Checksum(us)
  {
    SumOfPermutation(ws, us);
    OnesSumIsResidue(ws);
    OnesSumIsResidue(us);
  }

  lemma {:induction false} SumUpdate(ws: seq<word>, k: nat, w: word)
    requires k < |ws|
    ensures Sum(ws[k := w]) == Sum(ws) - ws[k] + w
  {
    SumWithout(ws, k);
    SumWithout(ws[k := w], k);
    assert Without(ws[k := w], k) == Without(ws, k);
  }

  /** With its checksum in a field that was zero, a packet has the checksum zero. */
  lemma {:induction false} ChecksumVerifies(ws: seq<word>, k: nat)
    requires k < |ws| && ws[k] == 0
    ensures Checksum(ws[k := Checksum(ws)]) == 0
  {
    var sum := Sum(ws);
    SumUpdate(ws, k, Checksum(ws));
    OnesSumIsResidue(ws);
    OnesSumIsResidue(ws[k := Checksum(ws)]);
    var q := ResidueQuotient(sum);
    ResidueUnique(sum + Checksum(ws), WORD_MAX, q);
  }

  /** The word with its two bytes exchanged. */
  function Swapped(w: word): word {
    256 * (w % 256) + w / 256
  }

  function SwappedAll(ws: seq<word>): (r: seq<word>)
    ensures |r| == |ws|
  {
    seq(|ws|, i requires 0 <= i < |ws| => Swapped(ws[i]))
  }

  /** Swapping is multiplication with 256, up to multiples of 65535. */
  lemma {:induction false} SwappedSum(ws: seq<word>) returns (high: nat)
    ensures 256 * Sum(ws) == Sum(SwappedAll(ws)) + WORD_MAX * high
    ensures Sum(SwappedAll(ws)) == 0 <==> Sum(ws) == 0
  {
    high := 0;
    if ws != [] {
      var front, last := ws[..|ws| - 1], ws[|ws| - 1];
      var rest := SwappedSum(front);
      assert SwappedAll(ws)[..|ws| - 1] == SwappedAll(front);
      SwappedWord(last);
      high := rest + last / 256;
    }
  }

  lemma {:induction false} SwappedWord(w: word)
    ensures 256 * w == Swapped(w) + WORD_MAX * (w / 256)
    ensures Swapped(w) == 0 <==> w == 0
    ensures Swapped(WORD_MAX - w) == WORD_MAX - Swapped(w)
  {
    assert w == 256 * (w / 256) + w % 256;
    assert WORD_MAX - w == 256 * (255 - w / 256) + (255 - w % 256);
  }

  /** Swapping the bytes of every word swaps the bytes of the checksum. */
  lemma {:induction false} ChecksumOfSwapped(ws: seq<word>)
    ensures Checksum(SwappedAll(ws)) == Swapped(Checksum(ws))
  {
    var s, t := Sum(ws), Sum(SwappedAll(ws));
    var r := Residue(s);
    var high := SwappedSum(ws);
    var q := ResidueQuotient(s);
    SwappedWord(r);
    ResidueUnique(t, Swapped(r), r / 256 + 256 * q - high);
    OnesSumIsResidue(ws);
    OnesSumIsResidue(SwappedAll(ws));
  }

  // ------------------------------------------------------------- The field in memory

  /** The bytes of a word in memory. */
  function BytesOf(w: word, e: Endian): (b: seq<byte>)
    ensures |b| == 2 && WordOf(b[0], b[1], e) == w
  {
    if e == Little then [w % 256, w / 256] else [w / 256, w % 256]
  }

  lemma {:induction false} WordOfEndian(first: byte, second: byte)
    ensures WordOf(first, second, Big) == Swapped(WordOf(first, second, Little))
  {
  }

  lemma {:induction false} WordsOfEndian(b: seq<byte>)
    ensures Words(b, Big) == SwappedAll(Words(b, Little))
  {
    hide Words, WordOf, Swapped;
    var big, little := Words(b, Big), Words(b, Little);
    forall k | 0 <= k < |big|
      ensures big[k] == Swapped(little[k])
    {
      WordsAt(b, Big, k);
      WordsAt(b, Little, k);
      WordOfEndian(b[2 * k], if 2 * k + 1 < |b| then b[2 * k + 1] else 0);
    }
  }

  /** The checksum that is stored does not depend on the byte order of the machine. */
  lemma {:induction false} SameBytesOnEveryMachine(b: seq<byte>)
    ensures BytesOf(Checksum(Words(b, Big)), Big) == BytesOf(Checksum(Words(b, Little)), Little)
  {
    hide Words, Checksum;
    WordsOfEndian(b);
    ChecksumOfSwapped(Words(b, Little));
  }

  /** Storing a word at an even offset changes that word only. */
  lemma {:induction false} WordsWithField(b: seq<byte>, k: nat, w: word, e: Endian)
    requires 2 * k + 1 < |b|
    ensures var f := BytesOf(w, e); Words(b[2 * k := f[0]][2 * k + 1 := f[1]], e) == Words(b, e)[k := w]
  {
    var f := BytesOf(w, e);
    var c := b[2 * k := f[0]][2 * k + 1 := f[1]];
    forall i | 0 <= i < |Words(c, e)|
      ensures Words(c, e)[i] == Words(b, e)[k := w][i]
    {
      WordsAt(b, e, i);
      WordsAt(c, e, i);
    }
  }

  /** Fills in the checksum of a packet whose checksum field is the k-th word. */
  method PutChecksum(packet: array<byte>, k: nat, e: Endian)
    requires 2 * k + 1 < packet.Length <= 2 * 65537
    modifies packet
    ensures forall i :: 0 <= i < packet.Length && i / 2 != k ==> packet[i] == old(packet[i])
    ensures Checksum(Words(packet[..], e)) == 0
  {
    packet[2 * k], packet[2 * k + 1] := 0, 0;
    ghost var zeroed := packet[..];
    WordsAt(zeroed, e, k);
    var answer := InCksum(packet, e);
    var field := BytesOf(answer, e);
    packet[2 * k], packet[2 * k + 1] := field[0], field[1];
    WordsWithField(zeroed, k, answer, e);
    assert packet[..] == zeroed[2 * k := field[0]][2 * k + 1 := field[1]];
    ChecksumVerifies(Words(zeroed, e), k);
  }

  /** The example in section 3 of RFC 1071: the sum is ddf2. */
  lemma {:induction false} ExampleOfRfc1071()
    ensures OnesSum([0x0001, 0xf203, 0xf4f5, 0xf6f7]) == 0xddf2
    ensures Words([0x00, 0x01, 0xf2, 0x03, 0xf4, 0xf5, 0xf6, 0xf7], Big) == [0x0001, 0xf203, 0xf4f5, 0xf6f7]
  {
    var ws: seq<word> := [0x0001, 0xf203, 0xf4f5, 0xf6f7];
    assert ws[..3][..2] == ws[..2] && ws[..2][..1] == ws[..1] && ws[..1][..0] == [];
    assert Sum([]) == 0 && Sum(ws[..1]) == 0x0001 && Sum(ws[..2]) == 0xf204 && Sum(ws[..3]) == 0x1e6f9;
    assert Sum(ws) == 0x2ddf0;
    OnesSumIsResidue(ws);
    var b: seq<byte> := [0x00, 0x01, 0xf2, 0x03, 0xf4, 0xf5, 0xf6, 0xf7];
    forall k | 0 <= k < 4
      ensures Words(b, Big)[k] == ws[k]
    {
      WordsAt(b, Big, k);
    }
  }
}
