/**
 The Internet checksum as the source computes it, and as RFC 1071 defines it.

 The source adds host-order (little-endian) loads of network-order bytes into a
 64-bit accumulator, folds the deferred carries at the end and complements.
 RFC 1071 adds big-endian words with an end-around carry after every addition.
 */
module Checksum {
  import opened Bytes

  /** The words the source loads; a last odd byte is padded with a zero byte. */
  function LeWords(b: seq<Byte>): seq<Word16> {
    if |b| == 0 then []
    else if |b| == 1 then [LoadLe(b[0], 0)]
    else [LoadLe(b[0], b[1])] + LeWords(b[2..])
  }

  /** The words of the same bytes in network order, with the same padding. */
  function BeWords(b: seq<Byte>): seq<Word16> {
    if |b| == 0 then []
    else if |b| == 1 then [LoadBe(b[0], 0)]
    else [LoadBe(b[0], b[1])] + BeWords(b[2..])
  }

  function Sum(ws: seq<Word16>): nat {
    if ws == [] then 0 else ws[0] + Sum(ws[1..])
  }

  /** The result of folding the carries of `s` until 16 bits are left. */
  function Fold(s: nat): Word16 {
    if s < 0x1_0000 then s else Fold(s % 0x1_0000 + s / 0x1_0000)
  }

  /** One's complement addition of section 1 of RFC 1071. */
  function EndAroundAdd(x: Word16, y: Word16): Word16 {
    if x + y < 0x1_0000 then x + y else x + y - 0xFFFF
  }

  function EndAroundSum(acc: Word16, ws: seq<Word16>): Word16
    decreases ws
  {
    if ws == [] then acc else EndAroundSum(EndAroundAdd(acc, ws[0]), ws[1..])
  }

  /** The checksum RFC 1071 prescribes for a byte string, as a number. */
  function RfcChecksum(b: seq<Byte>): Word16 {
    0xFFFF - EndAroundSum(0, BeWords(b))
  }

  /** A byte string verifies when its one's complement sum is all ones. */
  predicate Verifies(b: seq<Byte>) {
    EndAroundSum(0, BeWords(b)) == 0xFFFF
  }

  // ----- The accumulate-then-fold loops -----

  /** Arithmetic on `unsigned long` is modulo 2^64. */
  function Wrap(x: nat): Word64 {
    x % TWO_TO_64
  }

  /**
   `computeChecksum`: `size` bytes of `mem` added to `prevSum`, folded and
   complemented. All arithmetic is modulo 2^64. For an odd size the source loads
   one byte past the end and masks it away.
   */
  method ComputeChecksum(mem: seq<Byte>, size: Word32, prevSum: Word64) returns (r: Word64)
    requires size <= |mem|
    requires size % 2 == 1 ==> size < |mem|
    ensures r == TWO_TO_64 - 1 - Fold(Wrap(prevSum + Sum(LeWords(mem[..size]))))
  {
    hide LeWords, Sum, Fold, Wrap, LoadLe;
    var sum: Word64, addr: nat, left: nat := prevSum, 0, size;
    ghost var total := Wrap(prevSum + Sum(LeWords(mem[..size])));
    assert mem[0..size] == mem[..size];
    while left > 1
      invariant addr + left == size && left % 2 == size % 2
      invariant Wrap(sum + Sum(LeWords(mem[addr..size]))) == total
    {
      FirstWord(mem, addr, size);
      WrappedStep(sum, LoadLe(mem[addr], mem[addr + 1]), Sum(LeWords(mem[addr + 2..size])));
      sum := Wrap(sum + LoadLe(mem[addr], mem[addr + 1]));
      addr, left := addr + 2, left - 2;
    }
    LastByte(mem, addr, size);
    if left > 0 {
      // masking with htons(0xFF00) keeps the byte that comes first in memory
      LowByte(mem[addr], mem[addr + 1]);
      sum := Wrap(sum + LoadLe(mem[addr], mem[addr + 1]) % 0x100);
    }
    NoWrap(sum);
    sum := FoldCarries(sum);
    r := TWO_TO_64 - 1 - sum;
  }

  /** The fold loop at the end of `computeChecksum`. */
  method FoldCarries(total: Word64) returns (sum: Word64)
    ensures sum == Fold(total)
  {
    sum := total;
    while sum / 0x1_0000 != 0
      invariant Fold(sum) == Fold(total)
      decreases sum
    {
      sum := sum % 0x1_0000 + sum / 0x1_0000;
    }
  }

  lemma FirstWord(mem: seq<Byte>, addr: nat, size: nat)
    requires addr + 2 <= size <= |mem|
    ensures Sum(LeWords(mem[addr..size])) == LoadLe(mem[addr], mem[addr + 1]) + Sum(LeWords(mem[addr + 2..size]))
  {
    assert mem[addr..size][2..] == mem[addr + 2..size];
  }

  lemma LastByte(mem: seq<Byte>, addr: nat, size: nat)
    requires addr <= size <= addr + 1 && size <= |mem|
    ensures Sum(LeWords(mem[addr..size])) == if addr < size then mem[addr] else 0
  {
  }

  lemma LowByte(lo: Byte, hi: Byte)
    ensures LoadLe(lo, hi) % 0x100 == lo
  {
  }

  lemma WrappedStep(sum: nat, word: nat, rest: nat)
    ensures Wrap(Wrap(sum + word) + rest) == Wrap(sum + (word + rest))
  {
  }

  lemma NoWrap(sum: Word64)
    ensures Wrap(sum) == sum
  {
  }

  // ----- What folding means -----

  /** Folding keeps the residue modulo 65535, and reaches zero only from zero. */
  lemma {:induction false} FoldMeaning(s: nat)
    ensures Fold(s) % 0xFFFF == s % 0xFFFF
    ensures Fold(s) == 0 <==> s == 0
  {
    if s >= 0x1_0000 {
      FoldMeaning(s % 0x1_0000 + s / 0x1_0000);
      assert s == s % 0x1_0000 + s / 0x1_0000 + 0xFFFF * (s / 0x1_0000);
      AddMultiple(s % 0x1_0000 + s / 0x1_0000, s / 0x1_0000);
    }
  }

  lemma AddMultiple(a: int, k: int)
    ensures (a + 0xFFFF * k) % 0xFFFF == a % 0xFFFF
  {
  }

  /** Those two facts determine the folded value. */
  lemma FoldUnique(s: nat, w: Word16)
    requires w % 0xFFFF == s % 0xFFFF
    requires w == 0 <==> s == 0
    ensures Fold(s) == w
  {
    FoldMeaning(s);
  }

  /** Folding a partial sum early changes nothing. */
  lemma FoldEarly(s: nat, t: nat)
    ensures Fold(Fold(s) + t) == Fold(s + t)
  {
    hide Fold;
    FoldMeaning(s);
    FoldMeaning(Fold(s) + t);
    AddCongruent(Fold(s), s, t);
    FoldUnique(s + t, Fold(Fold(s) + t));
  }

  lemma AddCongruent(a: nat, b: nat, t: nat)
    requires a % 0xFFFF == b % 0xFFFF
    ensures (a + t) % 0xFFFF == (b + t) % 0xFFFF
  {
    var q := a / 0xFFFF - b / 0xFFFF;
    assert a + t == b + t + 0xFFFF * q;
  }

  /**
   Deferring every carry to the end gives the same 16 bits as the end-around
   carry after each addition.
   */
  lemma {:induction false} DeferredCarriesRefineEndAround(acc: nat, ws: seq<Word16>)
    ensures Fold(acc + Sum(ws)) == EndAroundSum(Fold(acc), ws)
    decreases ws
  {
    hide Fold;
    if ws != [] {
      OneAddition(acc, ws[0]);
      DeferredCarriesRefineEndAround(acc + ws[0], ws[1..]);
    }
  }

  lemma OneAddition(acc: nat, w: Word16)
    ensures Fold(acc + w) == EndAroundAdd(Fold(acc), w)
  {
    hide Fold;
    FoldMeaning(acc);
    AddCongruent(Fold(acc), acc, w);
    EndAroundMeaning(Fold(acc), w);
    FoldUnique(acc + w, EndAroundAdd(Fold(acc), w));
  }

  lemma EndAroundMeaning(x: Word16, y: Word16)
    ensures EndAroundAdd(x, y) % 0xFFFF == (x + y) % 0xFFFF
    ensures EndAroundAdd(x, y) == 0 <==> x + y == 0
  {
  }

  // ----- Concatenation, padding and byte order -----

  lemma {:induction false} SumOfAppended(us: seq<Word16>, vs: seq<Word16>)
    ensures Sum(us + vs) == Sum(us) + Sum(vs)
  {
    if us == [] {
      assert us + vs == vs;
    } else {
      SumOfAppended(us[1..], vs);
      assert (us + vs)[1..] == us[1..] + vs;
    }
  }

  /** The words of an even-length prefix come before those of the rest. */
  lemma {:induction false} WordsOfConcatenation(p: seq<Byte>, b: seq<Byte>)
    requires |p| % 2 == 0
    ensures LeWords(p + b) == LeWords(p) + LeWords(b)
    ensures BeWords(p + b) == BeWords(p) + BeWords(b)
  {
    if p == [] {
      assert p + b == b;
    } else {
      var q := p[2..];
      WordsOfConcatenation(q, b);
      assert (p + b)[2..] == q + b;
      var le, be := LoadLe(p[0], p[1]), LoadBe(p[0], p[1]);
      assert LeWords(p) == [le] + LeWords(q) && BeWords(p) == [be] + BeWords(q);
      assert LeWords(p + b) == [le] + LeWords(q + b) && BeWords(p + b) == [be] + BeWords(q + b);
      Reassociate(le, LeWords(q), LeWords(b));
      Reassociate(be, BeWords(q), BeWords(b));
    }
  }

  lemma Reassociate(w: Word16, us: seq<Word16>, vs: seq<Word16>)
    ensures [w] + (us + vs) == ([w] + us) + vs
  {
  }

  /** A prior sum over an even number of bytes is a checksum of the concatenation. */
  lemma SumOfConcatenation(p: seq<Byte>, b: seq<Byte>)
    requires |p| % 2 == 0
    ensures Sum(LeWords(p + b)) == Sum(LeWords(p)) + Sum(LeWords(b))
  {
    WordsOfConcatenation(p, b);
    SumOfAppended(LeWords(p), LeWords(b));
  }

  /** An odd tail counts as if one zero byte followed it. */
  lemma OddTailIsZeroPadding(p: seq<Byte>, last: Byte)
    requires |p| % 2 == 0
    ensures LeWords(p + [last]) == LeWords(p + [last, 0])
    ensures BeWords(p + [last]) == BeWords(p + [last, 0])
  {
    WordsOfConcatenation(p, [last]);
    WordsOfConcatenation(p, [last, 0]);
    assert LeWords([last]) == LeWords([last, 0]) && BeWords([last]) == BeWords([last, 0]);
  }

  /** Swapping bytes multiplies by 256 modulo 65535, word by word and in sum. */
  lemma {:induction false} SwappedSum(b: seq<Byte>)
    ensures exists k: int :: Sum(LeWords(b)) == 0x100 * Sum(BeWords(b)) - 0xFFFF * k
    ensures Sum(LeWords(b)) == 0 <==> Sum(BeWords(b)) == 0
  {
    if |b| == 0 {
      assert Sum(LeWords(b)) == 0x100 * Sum(BeWords(b)) - 0xFFFF * 0;
    } else if |b| == 1 {
      assert Sum(LeWords(b)) == 0x100 * Sum(BeWords(b)) - 0xFFFF * (b[0] as int);
    } else {
      SwappedSum(b[2..]);
      var k: int :| Sum(LeWords(b[2..])) == 0x100 * Sum(BeWords(b[2..])) - 0xFFFF * k;
      assert Sum(LeWords(b)) == 0x100 * Sum(BeWords(b)) - 0xFFFF * (k + b[0] as int);
    }
  }

  lemma SwapIsTimes256(w: Word16)
    ensures Swap16(w) == 0x100 * w - 0xFFFF * (w / 0x100)
    ensures Swap16(w) == 0 <==> w == 0
  {
  }

  lemma CongruentProducts(x: nat, y: nat, a: nat, i: int, k: int)
    requires a % 0xFFFF == y % 0xFFFF
    requires x == 0x100 * y - 0xFFFF * k
    ensures (0x100 * a - 0xFFFF * i) % 0xFFFF == x % 0xFFFF
  {
    var q := a / 0xFFFF - y / 0xFFFF;
    assert a == y + 0xFFFF * q by { SameRemainder(a, y); }
    var m := 0x100 * q + k - i;
    assert 0x100 * a - 0xFFFF * i == x + 0xFFFF * m;
    AddMultiple(x, m);
  }

  lemma SameRemainder(a: nat, y: nat)
    requires a % 0xFFFF == y % 0xFFFF
    ensures a == y + 0xFFFF * (a / 0xFFFF - y / 0xFFFF)
  {
    assert a == 0xFFFF * (a / 0xFFFF) + a % 0xFFFF;
    assert y == 0xFFFF * (y / 0xFFFF) + y % 0xFFFF;
  }

  /** The folded little-endian sum is the byte swap of the folded big-endian sum. */
  lemma FoldedSumsAreSwapped(b: seq<Byte>)
    ensures Fold(Sum(LeWords(b))) == Swap16(Fold(Sum(BeWords(b))))
  {
    hide Fold, Sum, LeWords, BeWords, Swap16;
    var le, be := Sum(LeWords(b)), Sum(BeWords(b));
    SwappedSum(b);
    var k: int :| le == 0x100 * be - 0xFFFF * k;
    FoldMeaning(be);
    var f := Fold(be);
    SwapIsTimes256(f);
    CongruentProducts(le, be, f, f / 0x100, k);
    FoldUnique(le, Swap16(f));
  }

  /** The 16 bits the source computes from a prior sum and some bytes. */
  function CodeChecksum(prior: nat, b: seq<Byte>): Word16 {
    0xFFFF - Fold(prior + Sum(LeWords(b)))
  }

  /**
   Byte-order independence, section 2(B) of RFC 1071: storing the little-endian
   result in host order puts the same two bytes on the wire as the big-endian
   definition, for every length and every even-length prefix summed beforehand.
   */
  lemma ByteOrderIndependence(p: seq<Byte>, b: seq<Byte>)
    requires |p| % 2 == 0
    ensures Le16(CodeChecksum(Sum(LeWords(p)), b)) == Be16(RfcChecksum(p + b))
  {
    var le, be := Fold(Sum(LeWords(p)) + Sum(LeWords(b))), Fold(Sum(BeWords(p + b)));
    assert le == Swap16(be) by {
      SumOfConcatenation(p, b);
      FoldedSumsAreSwapped(p + b);
    }
    assert EndAroundSum(0, BeWords(p + b)) == be by { NetworkSum(p + b); }
    ComplementOfSwap(be, CodeChecksum(Sum(LeWords(p)), b), RfcChecksum(p + b));
  }

  lemma NetworkSum(b: seq<Byte>)
    ensures EndAroundSum(0, BeWords(b)) == Fold(Sum(BeWords(b)))
  {
    DeferredCarriesRefineEndAround(0, BeWords(b));
  }

  lemma AllOnesSwapped(w: Word16)
    ensures Swap16(w) == 0xFFFF <==> w == 0xFFFF
  {
  }

  lemma ComplementOfSwap(w: Word16, code: Word16, rfc: Word16)
    requires code == 0xFFFF - Swap16(w) && rfc == 0xFFFF - w
    ensures Le16(code) == Be16(rfc)
  {
    var hi: int, lo: int := w / 0x100, w % 0x100;
    Quotient(0xFF - hi, 0xFF - lo, rfc);
    Quotient(0xFF - lo, 0xFF - hi, code);
  }

  lemma Quotient(hi: Byte, lo: Byte, w: Word16)
    requires w == 0x100 * (hi as int) + lo
    ensures w / 0x100 == hi && w % 0x100 == lo
  {
  }

  /** Verifying in network order is the same as the folded host sum being all ones. */
  lemma VerifiesInHostOrder(b: seq<Byte>)
    ensures Verifies(b) <==> Fold(Sum(LeWords(b))) == 0xFFFF
  {
    var le, be := Fold(Sum(LeWords(b))), Fold(Sum(BeWords(b)));
    assert le == Swap16(be) by { FoldedSumsAreSwapped(b); }
    assert EndAroundSum(0, BeWords(b)) == be by { NetworkSum(b); }
    assert le == 0xFFFF <==> be == 0xFFFF by { AllOnesSwapped(be); }
  }

  /** Writing the complement of a sum into that sum makes it verify. */
  lemma ComplementCompletes(s: nat)
    ensures Fold(s + (0xFFFF - Fold(s))) == 0xFFFF
  {
    hide Fold;
    FoldMeaning(s);
    var f := Fold(s);
    var q := s / 0xFFFF - f / 0xFFFF;
    assert s == f + 0xFFFF * q;
    assert s + (0xFFFF - f) == 0xFFFF * (q + 1);
    FoldUnique(s + (0xFFFF - f), 0xFFFF);
  }

  // ----- Sensitivity -----

  lemma {:induction false} SumSplit(ws: seq<Word16>, k: nat)
    requires k < |ws|
    ensures Sum(ws) == Sum(ws[..k]) + ws[k] + Sum(ws[k + 1..])
  {
    if k > 0 {
      SumSplit(ws[1..], k - 1);
      assert ws[1..][..k - 1] == ws[..k][1..];
      assert ws[1..][k..] == ws[k + 1..];
    }
  }

  /**
   Changing exactly one 16-bit word changes the checksum, except when the word
   goes between 0x0000 and 0xFFFF while something else in the sum is nonzero.
   */
  lemma SingleWordSensitivity(prior: nat, us: seq<Word16>, vs: seq<Word16>, k: nat)
    requires |us| == |vs| && k < |us| && us[k] != vs[k]
    requires us[..k] == vs[..k] && us[k + 1..] == vs[k + 1..]
    ensures Fold(prior + Sum(us)) == Fold(prior + Sum(vs)) <==>
            {us[k], vs[k]} == {0, 0xFFFF} && prior + Sum(us[..k]) + Sum(us[k + 1..]) > 0
  {
    SumSplit(us, k);
    SumSplit(vs, k);
    var rest := prior + Sum(us[..k]) + Sum(us[k + 1..]);
    FoldMeaning(rest + us[k]);
    FoldMeaning(rest + vs[k]);
    ResiduesOfTwoWords(rest, us[k], vs[k]);
    if Fold(rest + us[k]) == Fold(rest + vs[k]) {
      assert {us[k], vs[k]} == {0, 0xFFFF};
    }
    if {us[k], vs[k]} == {0, 0xFFFF} && rest > 0 {
      assert us[k] in {0, 0xFFFF} && vs[k] in {0, 0xFFFF};
      FoldUnique(rest + us[k], Fold(rest + vs[k]));
    }
  }

  lemma ResiduesOfTwoWords(rest: nat, u: Word16, v: Word16)
    requires u != v
    ensures (rest + u) % 0xFFFF == (rest + v) % 0xFFFF <==> (u == 0 && v == 0xFFFF) || (u == 0xFFFF && v == 0)
  {
  }
}
