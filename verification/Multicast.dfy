/**
  The multicast address of a topic (src/handlers/common/sbfCommonHandler.c) and the string hash below it
  (src/common/syshash.h). Addresses are in host byte order.
 */
module Multicast {
  import opened Powers
  import opened Wrappers

  const WORD := 0x1_0000_0000

  type uint32 = x: int | 0 <= x < WORD
  type byte = x: int | 0 <= x < 256

  /** hash32_str from HASHINIT: each step is hash * 33 + c in 32 bits. */
  function HashOf(s: seq<byte>): uint32 {
    if s == [] then 5381 else (HashOf(s[..|s| - 1]) * 32 + HashOf(s[..|s| - 1]) + s[|s| - 1]) % WORD
  }

  method Hash(s: seq<byte>) returns (hash: uint32)
    ensures hash == HashOf(s)
  {
    hash := 5381;
    for i := 0 to |s|
      invariant hash == HashOf(s[..i])
    {
      assert s[..i + 1][..i] == s[..i];
      hash := (hash as int * 32 + hash + s[i]) % WORD;
    }
    assert s[..|s|] == s;
  }

  function Pow33(n: nat): nat {
    if n == 0 then 1 else 33 * Pow33(n - 1)
  }

  /** The sum of s[i] * 33^(n - 1 - i) over the n characters */
  function Weighted(s: seq<byte>): nat {
    if s == [] then 0 else s[0] * Pow33(|s| - 1) + Weighted(s[1..])
  }

  lemma {:induction false} WeightedSnoc(s: seq<byte>, c: byte)
    ensures Weighted(s + [c]) == 33 * Weighted(s) + c
  {
    if s == [] {
      assert Weighted([c]) == c * Pow33(0) + Weighted([c][1..]);
    } else {
      assert (s + [c])[1..] == s[1..] + [c];
      WeightedSnoc(s[1..], c);
      assert s[0] * (33 * Pow33(|s| - 1)) == 33 * (s[0] * Pow33(|s| - 1));
    }
  }

  lemma Times33(h: nat, w: nat, c: nat)
    requires h == w % WORD
    ensures (33 * h + c) % WORD == (33 * w + c) % WORD
  {
    assert w == WORD * (w / WORD) + h;
    Whole(33 * (w / WORD), 33 * h + c);
  }

  lemma {:induction false} Whole(k: nat, r: nat)
    ensures (WORD * k + r) % WORD == r % WORD
  {
    if k > 0 {
      Whole(k - 1, r);
      assert WORD * k + r == WORD * (k - 1) + r + WORD;
    }
  }

  /** The hash is 5381 and the characters, weighted by powers of 33, in 32 bits. */
  lemma {:induction false} HashExactly(s: seq<byte>)
    ensures HashOf(s) == (5381 * Pow33(|s|) + Weighted(s)) % WORD
  {
    if s != [] {
      var init, c := s[..|s| - 1], s[|s| - 1];
      HashExactly(init);
      assert init + [c] == s;
      WeightedSnoc(init, c);
      Times33(HashOf(init), 5381 * Pow33(|init|) + Weighted(init), c);
    }
  }

  // ---------------------------------------------------------------------------------------------
  // Bits
  // ---------------------------------------------------------------------------------------------

  /** n << k */
  function Shl(n: nat, k: nat): nat {
    if k == 0 then n else 2 * Shl(n, k - 1)
  }

  /** n >> k */
  function Shr(n: nat, k: nat): nat
    decreases k
  {
    if k == 0 then n else Shr(n / 2, k - 1)
  }

  /** The binary | of two numbers, bit by bit. */
  function Or(a: nat, b: nat): nat {
    if a == 0 && b == 0 then 0
    else 2 * Or(a / 2, b / 2) + if a % 2 == 1 || b % 2 == 1 then 1 else 0
  }

  lemma OrHalves(a: nat, b: nat)
    ensures Or(a, b) / 2 == Or(a / 2, b / 2) && (Or(a, b) % 2 == 1 <==> a % 2 == 1 || b % 2 == 1)
  {
  }

  /** A bit is set in the | exactly if it is set in one of the numbers. */
  lemma {:induction false} OrExactly(a: nat, b: nat, i: nat)
    ensures Shr(Or(a, b), i) % 2 == 1 <==> Shr(a, i) % 2 == 1 || Shr(b, i) % 2 == 1
    decreases i
  {
    OrHalves(a, b);
    if i > 0 {
      OrExactly(a / 2, b / 2, i - 1);
    }
  }

  lemma {:induction false} OrNothing(a: nat)
    ensures Or(a, 0) == a
  {
    if a != 0 {
      OrNothing(a / 2);
    }
  }

  /** Numbers that have no bit in common are added. */
  lemma {:induction false} OrBelow(n: nat, r: nat, k: nat)
    requires r < Pow2(k)
    ensures Or(Shl(n, k), r) == Shl(n, k) + r
  {
    if k == 0 {
      OrNothing(n);
    } else {
      OrBelow(n, r / 2, k - 1);
    }
  }

  /** A field of s bits at bit k, below what is there. */
  lemma {:induction false} OrField(q: nat, f: nat, s: nat, k: nat)
    requires f < Pow2(s)
    ensures Or(Shl(q, s + k), Shl(f, k)) == Shl(Shl(q, s) + f, k)
  {
    if k == 0 {
      OrBelow(q, f, s);
    } else {
      OrField(q, f, s, k - 1);
      assert Shl(q, s + k) == 2 * Shl(q, s + (k - 1));
    }
  }

  /** Shifting right takes off what was put below. */
  lemma {:induction false} ShrShl(n: nat, r: nat, k: nat)
    requires r < Pow2(k)
    ensures Shr(Shl(n, k) + r, k) == n
  {
    if k > 0 {
      ShrShl(n, r / 2, k - 1);
      assert (Shl(n, k) + r) / 2 == Shl(n, k - 1) + r / 2;
    }
  }

  /** A number below 2^(p+k) stays so when anything is put into its low bits. */
  lemma {:induction false} ShlBound(q: nat, r: nat, k: nat, p: nat)
    requires r < Pow2(k) && Shl(q, k) < Pow2(p + k)
    ensures Shl(q, k) + r < Pow2(p + k)
  {
    if k > 0 {
      assert Pow2(p + k) == 2 * Pow2(p + (k - 1));
      ShlBound(q, r / 2, k - 1, p);
    }
  }

  // ---------------------------------------------------------------------------------------------
  // The resolver
  // ---------------------------------------------------------------------------------------------

  datatype Resolver = Resolver(base: uint32, firstSize: nat, secondSize: nat, thirdSize: nat, firstShift: nat,
          secondShift: nat)

  /** The bits of each of the two upper fields below a prefix. */
  function Upper(prefix: nat): nat
    requires prefix <= 24
  {
    (32 - prefix) / 6
  }

  /** The bits of the lowest field. */
  function Lower(prefix: nat): nat
    requires prefix <= 24
  {
    32 - prefix - 2 * Upper(prefix)
  }

  /** sbfMcastTopicResolver_create, for an address range that has been read: NULL for 0 and for too few bits. */
  function Create(base: uint32, prefix: nat): Option<Resolver> {
    if base == 0 || prefix > 24 then None
    else
      var s, t := Upper(prefix), Lower(prefix);
      Some(Resolver(base, Pow2(s), Pow2(s), Pow2(t) - 2, s + t, t))
  }

  /**
    The ranges by number: the two upper fields have 2 to 32 values, the third all that is left of the bits less
    two.
   */
  lemma CreateByNumber(base: uint32, prefix: nat)
    ensures Create(base, prefix).None? <==> base == 0 || prefix > 24
    ensures base != 0 && prefix <= 24 ==>
      var r := Create(base, prefix).value;
      && r.firstSize == r.secondSize
      && r.firstSize == (if prefix > 20 then 2 else if prefix > 14 then 4 else if prefix > 8 then 8
                         else if prefix > 2 then 16 else 32)
      && Pow2(32 - prefix) == r.firstSize * r.secondSize * (r.thirdSize + 2)
      && Pow2(r.secondShift) == r.thirdSize + 2 && Pow2(r.firstShift) == r.secondSize * (r.thirdSize + 2)
  {
    if base != 0 && prefix <= 24 {
      UpperByNumber(prefix);
      Sizes(prefix);
      FieldSizes(Upper(prefix), Lower(prefix));
    }
  }

  lemma UpperByNumber(prefix: nat)
    requires prefix <= 24
    ensures Pow2(Upper(prefix))
         == if prefix > 20 then 2 else if prefix > 14 then 4 else if prefix > 8 then 8 else if prefix > 2 then 16 else 32
  {
    assert Pow2(1) == 2 && Pow2(2) == 4 && Pow2(3) == 8;
    assert Pow2(4) == 2 * Pow2(3) && Pow2(5) == 2 * Pow2(4);
  }

  lemma FieldSizes(u: nat, l: nat)
    ensures Pow2(u + l) == Pow2(u) * Pow2(l) && Pow2(l + 2 * u) == Pow2(u) * Pow2(u) * Pow2(l)
  {
    Pow2Sum(u, l);
    Pow2Sum(u, u + l);
    assert u + (u + l) == l + 2 * u;
    Times3(Pow2(u), Pow2(l));
  }

  /** The default range, 239.100/16 */
  lemma CreateDefault(base: uint32)
    requires base != 0
    ensures Create(base, 16) == Some(Resolver(base, 4, 4, 4094, 14, 12))
  {
    Pow2Sum(4, 4);
    Pow2Sum(8, 4);
    assert Pow2(4) == 16;
  }

  lemma Times3(a: nat, b: nat)
    ensures a * a * b == a * (a * b)
  {
  }

  datatype Topic = Topic(first: seq<byte>, second: seq<byte>, third: seq<byte>)

  predicate Usable(r: Resolver) {
    r.firstSize > 0 && r.secondSize > 0 && r.thirdSize > 0
  }

  /** sbfMcastTopicResolver_makeAddress */
  method MakeAddress(r: Resolver, topic: Topic) returns (address: nat)
    requires Usable(r)
    ensures address == AddressOf(r, topic)
  {
    address := r.base;
    var h := Hash(topic.first);
    address := Or(address, Shl(h % r.firstSize, r.firstShift));
    h := Hash(topic.second);
    address := Or(address, Shl(h % r.secondSize, r.secondShift));
    h := Hash(topic.third);
    address := Or(address, 1 + h % r.thirdSize);
  }

  function AddressOf(r: Resolver, topic: Topic): nat
    requires Usable(r)
  {
    Ored(r.base, r.firstShift, r.secondShift, HashOf(topic.first) % r.firstSize, HashOf(topic.second) % r.secondSize,
         1 + HashOf(topic.third) % r.thirdSize)
  }

  /** The base with three fields or-ed into it, of which two are shifted. */
  function Ored(base: nat, firstShift: nat, secondShift: nat, f: nat, g: nat, x: nat): nat {
    Or(Or(Or(base, Shl(f, firstShift)), Shl(g, secondShift)), x)
  }

  /** The bits of the base below the prefix are 0. */
  predicate Aligned(base: uint32, prefix: nat)
    requires prefix <= 24
  {
    base != 0 && base == Shl(Shr(base, 32 - prefix), 32 - prefix)
  }

  lemma Sizes(prefix: nat)
    requires prefix <= 24
    ensures Upper(prefix) >= 1 && Lower(prefix) >= 2
    ensures Pow2(Upper(prefix)) >= 2 && Pow2(Lower(prefix)) >= 4
  {
    Pow2Monotone(1, Upper(prefix));
    Pow2Monotone(2, Lower(prefix));
  }

  /** The address of a topic in the range of the base and the prefix. */
  function Address(base: uint32, prefix: nat, topic: Topic): nat
    requires prefix <= 24 && Aligned(base, prefix)
  {
    Sizes(prefix);
    AddressOf(Create(base, prefix).value, topic)
  }

  /** The residues that a topic is hashed to. */
  datatype Residues = Residues(first: nat, second: nat, third: nat)

  function ResiduesOf(prefix: nat, topic: Topic): (r: Residues)
    requires prefix <= 24
    ensures r.first < Pow2(Upper(prefix)) && r.second < Pow2(Upper(prefix)) && r.third + 2 < Pow2(Lower(prefix))
  {
    Sizes(prefix);
    Residues(HashOf(topic.first) % Pow2(Upper(prefix)), HashOf(topic.second) % Pow2(Upper(prefix)),
             HashOf(topic.third) % (Pow2(Lower(prefix)) - 2))
  }

  /** A prefix followed by two fields of u bits and one of l bits. */
  function Number(q: nat, u: nat, l: nat, f: nat, g: nat, x: nat): nat {
    Shl(Shl(Shl(q, u) + f, u) + g, l) + x
  }

  lemma OredIsNumber(q: nat, u: nat, l: nat, f: nat, g: nat, x: nat)
    requires f < Pow2(u) && g < Pow2(u) && x < Pow2(l)
    ensures Ored(Shl(q, u + (u + l)), u + l, l, f, g, x) == Number(q, u, l, f, g, x)
  {
    OrField(q, f, u, u + l);
    OrField(Shl(q, u) + f, g, u, l);
    OrBelow(Shl(Shl(q, u) + f, u) + g, x, l);
  }

  lemma AddressIsOred(base: uint32, prefix: nat, topic: Topic)
    requires prefix <= 24 && Aligned(base, prefix)
    ensures var u, l, r := Upper(prefix), Lower(prefix), ResiduesOf(prefix, topic);
            Address(base, prefix, topic) == Ored(base, u + l, l, r.first, r.second, 1 + r.third)
  {
    Sizes(prefix);
  }

  /**
    For every prefix of up to 24 bits and every base aligned to it: the address is the prefix of the base
    followed by the three fields, each in bits of its own. The lowest is never all zeros or all ones.
   */
  lemma AddressFields(base: uint32, prefix: nat, topic: Topic)
    requires prefix <= 24 && Aligned(base, prefix)
    ensures var u, l, r := Upper(prefix), Lower(prefix), ResiduesOf(prefix, topic);
            && Address(base, prefix, topic) == Number(Shr(base, 32 - prefix), u, l, r.first, r.second, 1 + r.third)
            && 0 < 1 + r.third < Pow2(l) - 1
  {
    AddressIsOred(base, prefix, topic);
    AlignedNumber(base, prefix, ResiduesOf(prefix, topic));
  }

  lemma AlignedNumber(base: uint32, prefix: nat, r: Residues)
    requires prefix <= 24 && Aligned(base, prefix)
    requires r.first < Pow2(Upper(prefix)) && r.second < Pow2(Upper(prefix)) && 1 + r.third < Pow2(Lower(prefix))
    ensures var u, l := Upper(prefix), Lower(prefix);
            Ored(base, u + l, l, r.first, r.second, 1 + r.third)
              == Number(Shr(base, 32 - prefix), u, l, r.first, r.second, 1 + r.third)
  {
    var u, l := Upper(prefix), Lower(prefix);
    assert u + (u + l) == 32 - prefix;
    OredIsNumber(Shr(base, 32 - prefix), u, l, r.first, r.second, 1 + r.third);
  }

  /** Each field, and the prefix, can be read from the number by shifting. */
  lemma ReadNumber(q: nat, u: nat, l: nat, f: nat, g: nat, x: nat)
    requires f < Pow2(u) && g < Pow2(u) && x < Pow2(l)
    ensures var a := Number(q, u, l, f, g, x);
            var b := Shr(a, l);
            var c := Shr(b, u);
            a == Shl(b, l) + x && b == Shl(c, u) + g && c == Shl(q, u) + f && Shr(c, u) == q
  {
    ShrShl(Shl(Shl(q, u) + f, u) + g, x, l);
    ShrShl(Shl(q, u) + f, g, u);
    ShrShl(q, f, u);
  }

  /** Two topics share an address if and only if their three residues agree. */
  lemma SharedAddress(base: uint32, prefix: nat, a: Topic, b: Topic)
    requires prefix <= 24 && Aligned(base, prefix)
    ensures Address(base, prefix, a) == Address(base, prefix, b) <==> ResiduesOf(prefix, a) == ResiduesOf(prefix, b)
  {
    var q, u, l := Shr(base, 32 - prefix), Upper(prefix), Lower(prefix);
    var r, r' := ResiduesOf(prefix, a), ResiduesOf(prefix, b);
    AddressNumber(base, prefix, a, q, u, l, r);
    AddressNumber(base, prefix, b, q, u, l, r');
    SameNumber(q, u, l, r, r');
  }

  lemma AddressNumber(base: uint32, prefix: nat, topic: Topic, q: nat, u: nat, l: nat, r: Residues)
    requires prefix <= 24 && Aligned(base, prefix)
    requires q == Shr(base, 32 - prefix) && u == Upper(prefix) && l == Lower(prefix) && r == ResiduesOf(prefix, topic)
    ensures Address(base, prefix, topic) == Number(q, u, l, r.first, r.second, 1 + r.third)
    ensures r.first < Pow2(u) && r.second < Pow2(u) && 1 + r.third < Pow2(l)
  {
    AddressFields(base, prefix, topic);
  }

  lemma SameNumber(q: nat, u: nat, l: nat, r: Residues, r': Residues)
    requires r.first < Pow2(u) && r.second < Pow2(u) && 1 + r.third < Pow2(l)
    requires r'.first < Pow2(u) && r'.second < Pow2(u) && 1 + r'.third < Pow2(l)
    ensures Number(q, u, l, r.first, r.second, 1 + r.third) == Number(q, u, l, r'.first, r'.second, 1 + r'.third)
       <==> r == r'
  {
    ReadNumber(q, u, l, r.first, r.second, 1 + r.third);
    ReadNumber(q, u, l, r'.first, r'.second, 1 + r'.third);
  }

  lemma {:induction false} ShlSum(n: nat, j: nat, k: nat)
    ensures Shl(Shl(n, j), k) == Shl(n, j + k)
  {
    if k > 0 {
      ShlSum(n, j, k - 1);
      assert Shl(n, j + k) == 2 * Shl(n, j + (k - 1));
    }
  }

  /** The address fits 32 bits. */
  lemma AddressFits(base: uint32, prefix: nat, topic: Topic)
    requires prefix <= 24 && Aligned(base, prefix)
    ensures Address(base, prefix, topic) < WORD
  {
    var u, l, r := Upper(prefix), Lower(prefix), ResiduesOf(prefix, topic);
    AddressFields(base, prefix, topic);
    AlignedBound(base, prefix, u, l, r);
  }

  lemma AlignedBound(base: uint32, prefix: nat, u: nat, l: nat, r: Residues)
    requires prefix <= 24 && Aligned(base, prefix) && u + (u + l) == 32 - prefix
    requires r.first < Pow2(u) && r.second < Pow2(u) && 1 + r.third < Pow2(l)
    ensures Number(Shr(base, 32 - prefix), u, l, r.first, r.second, 1 + r.third) < WORD
  {
    PowWord();
    NumberBound(Shr(base, 32 - prefix), u, l, r.first, r.second, 1 + r.third, prefix);
  }

  lemma NumberBound(q: nat, u: nat, l: nat, f: nat, g: nat, x: nat, p: nat)
    requires f < Pow2(u) && g < Pow2(u) && x < Pow2(l) && Shl(q, u + (u + l)) < Pow2(p + (u + (u + l)))
    ensures Number(q, u, l, f, g, x) < Pow2(p + (u + (u + l)))
  {
    var b := Shl(q, u) + f;
    var c := Shl(b, u) + g;
    ShlSum(q, u, u + l);
    ShlSum(b, u, l);
    Narrow(Shl(q, u), u + l, p + u);
    ShlBound(q, f, u, p);
    Widen(b, u, p + u);
    ShlBound(b, g, u, p + u);
    Widen(c, l, p + u + u);
    ShlBound(c, x, l, p + u + u);
    assert p + u + u + l == p + (u + (u + l));
  }

  /** What is below 2^(p+k) after a shift by k was below 2^p. */
  lemma {:induction false} Narrow(n: nat, k: nat, p: nat)
    requires Shl(n, k) < Pow2(p + k)
    ensures n < Pow2(p)
  {
    if k > 0 {
      assert Pow2(p + k) == 2 * Pow2(p + (k - 1));
      Narrow(n, k - 1, p);
    }
  }

  /** And back. */
  lemma {:induction false} Widen(n: nat, k: nat, p: nat)
    requires n < Pow2(p)
    ensures Shl(n, k) < Pow2(p + k)
  {
    if k > 0 {
      assert Pow2(p + k) == 2 * Pow2(p + (k - 1));
      Widen(n, k - 1, p);
    }
  }

  lemma PowWord()
    ensures Pow2(32) == WORD
  {
    assert Pow2(8) == 256;
    Pow2Sum(8, 8);
    Pow2Sum(16, 16);
  }
}
