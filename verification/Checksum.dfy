/** The Internet checksum of net/ipv4.c (sections 1 and 2 of RFC 1071, section 3.1 of RFC 791). */
module Checksum {
  import opened Machine

  const WORD := 0x1_0000
  const ONES := 0xFFFF
  /** The range of the signed 32-bit accumulator of one algorithm; the other's is unsigned. */
  const I32 := 0x8000_0000
  /** The longest buffers whose sums always fit. */
  const MAX_LENGTH := 0x1_0001
  const MAX_UNSIGNED := 0x2_0002

  // ---------------------------------------------------------------- sums

  /** Two bytes of memory as a little-endian host reads them. */
  function Word(lo: nat, hi: nat): nat {
    lo + 256 * hi
  }

  /** The sum of the 16-bit words as the little-endian host reads them; an odd last byte is
      the low byte of a word. */
  function WordSum(b: seq<Byte>): nat {
    if b == [] then 0 else if |b| == 1 then b[0] else b[0] + 256 * b[1] + WordSum(b[2..])
  }

  /** The same in network byte order; an odd last byte is padded behind. */
  function NetworkSum(b: seq<Byte>): nat {
    if b == [] then 0 else if |b| == 1 then 256 * b[0] else 256 * b[0] + b[1] + NetworkSum(b[2..])
  }

  /** Carries added back until none is left: the loop of compute_checksum. */
  function Fold(s: nat): nat {
    if s < WORD then s else Fold(s % WORD + s / WORD)
  }

  /** The two additions at the end of ipv4_checksum. */
  function FoldTwice(s: nat): nat {
    var t := s / WORD + s % WORD;
    (t + t / WORD) % WORD
  }

  function Checksum(b: seq<Byte>): nat {
    ONES - Fold(WordSum(b)) % WORD
  }

  lemma {:induction false} FoldFacts(s: nat)
    ensures Fold(s) <= ONES && Fold(s) % ONES == s % ONES
    ensures Fold(s) == 0 <==> s == 0
  {
    if s >= WORD {
      var t := s % WORD + s / WORD;
      assert s == t + ONES * (s / WORD);
      SameResidue(t, s / WORD);
      FoldFacts(t);
    }
  }

  lemma SameResidue(t: nat, k: nat)
    ensures (t + ONES * k) % ONES == t % ONES
  {
    if k > 0 {
      SameResidue(t, k - 1);
      assert t + ONES * k == (t + ONES * (k - 1)) + ONES;
    }
  }

  /** Fold is decided by the residue, except that only zero folds to zero. */
  lemma FoldByResidue(s: nat, t: nat)
    requires s % ONES == t % ONES && (s == 0 <==> t == 0)
    ensures Fold(s) == Fold(t)
  {
    FoldFacts(s);
    FoldFacts(t);
  }

  lemma FoldStep(s: nat)
    ensures Fold(s) == if s < WORD then s else Fold(s % WORD + s / WORD)
  {
  }

  /** The two halves of a 32-bit number, and their sum. */
  lemma Halves(s: nat)
    requires s < U32
    ensures s / WORD <= ONES && s % WORD <= ONES && (s < WORD ==> s / WORD == 0 && s % WORD == s)
  {
  }

  lemma SmallHalves(t: nat)
    requires t < 2 * WORD
    ensures t / WORD == if t < WORD then 0 else 1
    ensures t % WORD == if t < WORD then t else t - WORD
  {
  }

  /** Two additions are enough for every sum below 2^32. */
  lemma FoldsAgree(s: nat)
    requires s < U32
    ensures Fold(s) == FoldTwice(s)
  {
    hide Fold;
    var hi, lo := s / WORD, s % WORD;
    Halves(s);
    FoldStep(s);
    SmallHalves(lo + hi);
    FoldStep(lo + hi);
    if lo + hi >= WORD {
      FoldStep(lo + hi - WORD + 1);
    }
    SmallHalves(lo + hi + (lo + hi) / WORD);
  }

  lemma {:induction false} SumBound(b: seq<Byte>)
    ensures WordSum(b) <= |b| / 2 * ONES + if |b| % 2 == 1 then 255 else 0
    ensures |b| <= MAX_LENGTH ==> WordSum(b) < I32
    ensures |b| <= MAX_UNSIGNED ==> WordSum(b) < U32
  {
    if |b| >= 2 {
      SumBound(b[2..]);
    }
  }

  function AllOnes(n: nat): seq<Byte> {
    seq(n, _ => 255)
  }

  lemma {:induction false} AllOnesSum(k: nat)
    ensures WordSum(AllOnes(2 * k)) == k * ONES
  {
    if k > 0 {
      assert AllOnes(2 * k)[2..] == AllOnes(2 * (k - 1));
      AllOnesSum(k - 1);
    }
  }

  /** The largest sum of a length is that of all ones. */
  lemma LargestSum(n: nat)
    ensures exists b: seq<Byte> :: |b| == n && WordSum(b) == n / 2 * ONES + if n % 2 == 1 then 255 else 0
  {
    var k := n / 2;
    AllOnesSum(k);
    SumSplit(AllOnes(2 * k), AllOnes(n % 2));
    assert |AllOnes(2 * k) + AllOnes(n % 2)| == n;
  }

  /** Every buffer of a length fits the signed accumulator exactly up to 65537 bytes, and the
      unsigned one exactly up to 131074. */
  lemma LengthLimit(n: nat)
    ensures (forall b: seq<Byte> :: |b| == n ==> WordSum(b) < I32) <==> n <= MAX_LENGTH
    ensures (forall b: seq<Byte> :: |b| == n ==> WordSum(b) < U32) <==> n <= MAX_UNSIGNED
  {
    hide WordSum;
    forall b: seq<Byte> | |b| == n
      ensures (n <= MAX_LENGTH ==> WordSum(b) < I32) && (n <= MAX_UNSIGNED ==> WordSum(b) < U32)
    {
      SumBound(b);
    }
    LargestSum(n);
    var b: seq<Byte> :| |b| == n && WordSum(b) == n / 2 * ONES + if n % 2 == 1 then 255 else 0;
    assert n > MAX_LENGTH ==> WordSum(b) >= I32;
    assert n > MAX_UNSIGNED ==> WordSum(b) >= U32;
  }

  lemma {:induction false} SumSplit(a: seq<Byte>, b: seq<Byte>)
    requires |a| % 2 == 0
    ensures WordSum(a + b) == WordSum(a) + WordSum(b)
    decreases |a|
  {
    if a == [] {
      assert a + b == b;
    } else {
      assert (a + b)[2..] == a[2..] + b;
      SumSplit(a[2..], b);
    }
  }

  // ---------------------------------------------------------------- byte order

  /** switch_endian16. */
  function SwitchEndian16(x: nat): nat
    requires x < WORD
  {
    x / 256 + x % 256 * 256
  }

  lemma SwitchResidue(x: nat)
    requires x < WORD
    ensures SwitchEndian16(x) < WORD && SwitchEndian16(x) % ONES == 256 * x % ONES
    ensures SwitchEndian16(x) == 0 <==> x == 0
  {
    var hi, lo := x / 256, x % 256;
    assert 256 * x == (hi + lo * 256) + ONES * hi;
    SameResidue(hi + lo * 256, hi);
  }

  /** Swapping the bytes of every word multiplies the sum by 256, up to multiples of 65535. */
  lemma {:induction false} SumsRelated(b: seq<Byte>)
    ensures exists k: nat :: 256 * WordSum(b) == NetworkSum(b) + ONES * k
    ensures NetworkSum(b) == 0 <==> WordSum(b) == 0
  {
    if |b| < 2 {
      assert 256 * WordSum(b) == NetworkSum(b) + ONES * 0;
    } else {
      SumsRelated(b[2..]);
      var k: nat :| 256 * WordSum(b[2..]) == NetworkSum(b[2..]) + ONES * k;
      assert 256 * WordSum(b) == NetworkSum(b) + ONES * (k + b[1]);
    }
  }

  lemma TimesResidue(s: nat, t: nat)
    requires s % ONES == t % ONES
    ensures 256 * s % ONES == 256 * t % ONES
  {
    var r := s % ONES;
    SameResidue(256 * r, 256 * (s / ONES));
    SameResidue(256 * r, 256 * (t / ONES));
    assert 256 * s == 256 * r + ONES * (256 * (s / ONES));
    assert 256 * t == 256 * r + ONES * (256 * (t / ONES));
  }

  lemma FoldSmall(x: nat)
    requires x < WORD
    ensures Fold(x) == x
  {
  }

  lemma SwitchedFold(b: seq<Byte>)
    ensures Fold(WordSum(b)) < WORD && SwitchEndian16(Fold(WordSum(b))) == Fold(NetworkSum(b))
  {
    hide Fold, SwitchEndian16, WordSum, NetworkSum;
    var w, n := WordSum(b), NetworkSum(b);
    var f := Fold(w);
    FoldFacts(w);
    SwitchResidue(f);
    TimesResidue(f, w);
    SumsRelated(b);
    var k: nat :| 256 * w == n + ONES * k;
    SameResidue(n, k);
    FoldSmall(SwitchEndian16(f));
    FoldByResidue(SwitchEndian16(f), n);
  }

  /** Summing little-endian words and storing the result in little-endian order leaves the same
      bytes in memory as the checksum of RFC 791, which works in network order throughout. */
  lemma ByteOrderIndependent(b: seq<Byte>)
    ensures Checksum(b) < WORD && SwitchEndian16(Checksum(b)) == ONES - Fold(NetworkSum(b))
  {
    hide SwitchEndian16, Fold;
    SwitchedFold(b);
    SwitchComplement(Fold(WordSum(b)));
    assert Checksum(b) == ONES - Fold(WordSum(b));
  }

  lemma SwitchComplement(x: nat)
    requires x < WORD
    ensures SwitchEndian16(ONES - x) == ONES - SwitchEndian16(x)
  {
    var hi, lo := x / 256, x % 256;
    assert ONES - x == (255 - hi) * 256 + (255 - lo);
  }

  // ---------------------------------------------------------------- storing and checking

  /** A buffer with the 16-bit word `x` stored at position `k`. */
  function Stored(b: seq<Byte>, k: nat, x: nat): (r: seq<Byte>)
    requires k + 1 < |b| && x < WORD
    ensures |r| == |b|
  {
    b[k := x % 256][k + 1 := x / 256]
  }

  function WordAt(b: seq<Byte>, k: nat): nat
    requires k + 1 < |b|
  {
    Word(b[k], b[k + 1])
  }

  lemma {:induction false} StoredSum(b: seq<Byte>, k: nat, x: nat)
    requires k + 1 < |b| && k % 2 == 0 && x < WORD
    ensures WordSum(Stored(b, k, x)) + WordAt(b, k) == WordSum(b) + x
  {
    var r := Stored(b, k, x);
    if k == 0 {
      assert r[2..] == b[2..];
    } else {
      assert r[2..] == Stored(b[2..], k - 2, x);
      StoredSum(b[2..], k - 2, x);
    }
  }

  lemma ChecksumZero(b: seq<Byte>)
    ensures Checksum(b) == 0 <==> WordSum(b) > 0 && WordSum(b) % ONES == 0
  {
    hide Fold, WordSum;
    FoldFacts(WordSum(b));
  }

  /** A sum and the complement of its folded value make a nonzero multiple of 65535. */
  lemma ComplementSum(s: nat, f: nat)
    requires f <= ONES && f % ONES == s % ONES && (f == 0 <==> s == 0)
    ensures s + (ONES - f) > 0 && (s + (ONES - f)) % ONES == 0
  {
    var q := s / ONES;
    if f < ONES {
      assert s + (ONES - f) == ONES * (q + 1);
      MultipleResidue(s + (ONES - f), q + 1);
    } else {
      assert s + (ONES - f) == ONES * q;
    }
  }

  /** With the checksum stored in a word that was zero, recomputation gives zero. */
  lemma StoredChecksumVerifies(b: seq<Byte>, k: nat)
    requires k % 2 == 0
    requires k + 1 < |b| && WordAt(b, k) == 0
    ensures Checksum(b) < WORD && Checksum(Stored(b, k, Checksum(b))) == 0
  {
    ChecksumIs(b);
    hide Checksum, WordSum, Fold, Stored, WordAt;
    var s := WordSum(b);
    FoldFacts(s);
    var c := Checksum(b);
    StoredSum(b, k, c);
    ChecksumZero(Stored(b, k, c));
    ComplementSum(s, Fold(s));
  }

  lemma ChecksumIs(b: seq<Byte>)
    ensures Fold(WordSum(b)) <= ONES && Checksum(b) == ONES - Fold(WordSum(b))
  {
    hide Fold;
    FoldFacts(WordSum(b));
  }

  /** A buffer that verifies still does after one of its words was replaced exactly when the two
      words are equal or are the two representations of zero, 0 and 0xFFFF. */
  lemma OneWordErrors(b: seq<Byte>, k: nat, x: nat)
    requires Checksum(b) == 0 && k % 2 == 0 && k + 1 < |b| && x < WORD
    ensures Checksum(Stored(b, k, x)) == 0 <==>
            x % ONES == WordAt(b, k) % ONES && WordSum(Stored(b, k, x)) > 0
  {
    var t := Stored(b, k, x);
    StoredSum(b, k, x);
    ChecksumZero(b);
    ChecksumZero(t);
    var w := WordAt(b, k);
    assert WordSum(t) == WordSum(b) + x - w;
    var q := WordSum(b) / ONES;
    assert WordSum(b) == ONES * q;
    if WordSum(t) % ONES == 0 {
      var p := WordSum(t) / ONES;
      assert x - w == ONES * (p - q);
      ResidueDifference(x, w, p - q);
    }
    if x % ONES == w % ONES {
      assert x - w == ONES * (x / ONES - w / ONES);
      MultipleResidue(WordSum(t), q + x / ONES - w / ONES);
    }
  }

  lemma ResidueDifference(x: nat, w: nat, d: int)
    requires x < WORD && w < WORD && x - w == ONES * d
    ensures x % ONES == w % ONES
  {
  }

  lemma MultipleResidue(s: nat, p: int)
    requires s == ONES * p
    ensures s % ONES == 0
  {
    SameResidue(0, p);
  }

  // ---------------------------------------------------------------- the two algorithms

  /** Adding in 32 bits. */
  lemma WrapAdd(sum: nat, w: nat, rest: nat)
    ensures ((sum + w) % U32 + rest) % U32 == (sum + (w + rest)) % U32
  {
  }

  /** The sum of what is left, one word further. */
  lemma NextWord(b: seq<Byte>, i: nat)
    requires i + 1 < |b|
    ensures WordSum(b[i..]) == Word(b[i], b[i + 1]) + WordSum(b[i + 2..])
  {
    assert b[i..][0] == b[i] && b[i..][1] == b[i + 1] && b[i..][2..] == b[i + 2..];
  }

  lemma LastByte(b: seq<Byte>, i: nat)
    requires i <= |b| <= i + 1
    ensures WordSum(b[i..]) == if i < |b| then b[i] else 0
  {
    assert b[i..] == if i < |b| then [b[i]] else [];
  }

  lemma MaskedWord(lo: Byte, hi: Byte)
    ensures Word(lo, hi) % 256 == lo
  {
  }

  lemma Wrapped(s: nat)
    ensures s % U32 < U32 && (s < U32 ==> s % U32 == s)
  {
  }

  /** A buffer whose sum is 2^32: all ones, a one, and zeros. */
  function WrapsToZero(n: nat): seq<Byte>
    requires n > MAX_UNSIGNED
  {
    AllOnes(MAX_UNSIGNED) + [1] + seq(n - MAX_UNSIGNED - 1, _ => 0)
  }

  lemma {:induction false} ZerosSum(n: nat)
    ensures WordSum(seq(n, _ => 0 as Byte)) == 0
    decreases n
  {
    if n >= 2 {
      ZerosSum(n - 2);
      assert seq(n, _ => 0 as Byte)[2..] == seq(n - 2, _ => 0 as Byte);
    }
  }

  lemma WrapsToZeroSum(n: nat)
    requires n > MAX_UNSIGNED
    ensures |WrapsToZero(n)| == n && WordSum(WrapsToZero(n)) == U32
  {
    var ones, zeros: seq<Byte> := AllOnes(MAX_UNSIGNED), seq(n - MAX_UNSIGNED - 1, _ => 0);
    AllOnesSum(MAX_UNSIGNED / 2);
    SumSplit(ones, [1] + zeros);
    assert ones + ([1] + zeros) == WrapsToZero(n);
    hide AllOnes;
    if zeros == [] {
      assert [1] + zeros == [1];
    } else {
      ZerosSum(|zeros| - 1);
      assert zeros[0] == 0 && ([1] + zeros)[2..] == seq(|zeros| - 1, _ => 0 as Byte);
    }
  }

  /** compute_checksum, whose additions wrap around in 32 bits, returns the checksum of every buffer
      of a length exactly up to 131074 bytes. */
  lemma RightExactly(n: nat)
    ensures (forall b: seq<Byte> :: |b| == n ==> ONES - Fold(WordSum(b) % U32) == Checksum(b)) <==> n <= MAX_UNSIGNED
  {
    hide Fold, WordSum, Checksum, WrapsToZero;
    if n <= MAX_UNSIGNED {
      forall b: seq<Byte> | |b| == n ensures ONES - Fold(WordSum(b) % U32) == Checksum(b) {
        ChecksumOf(b);
      }
    } else {
      var b := WrapsToZero(n);
      WrapsToZeroSum(n);
      FoldFacts(0);
      FoldFacts(U32);
      ChecksumIs(b);
      assert WordSum(b) % U32 == 0;
      assert ONES - Fold(WordSum(b) % U32) != Checksum(b);
    }
  }

  /** What compute_checksum makes of a sum in 32 bits. */
  lemma ChecksumOf(b: seq<Byte>)
    ensures Fold(WordSum(b) % U32) <= ONES
    ensures |b| <= MAX_UNSIGNED ==> ONES - Fold(WordSum(b) % U32) == Checksum(b)
  {
    hide Fold, WordSum;
    FoldFacts(WordSum(b) % U32);
    Wrapped(WordSum(b));
    SumBound(b);
    FoldFacts(WordSum(b));
  }

  /** compute_checksum. For an odd count it reads a whole word at the last byte and masks it;
      `behind` is the byte in memory behind the buffer, which has no influence. The additions
      are those of 32 bits, which no buffer of up to 131074 bytes notices. */
  method ComputeChecksum(addr: array<Byte>, behind: Byte) returns (r: nat)
    ensures Fold(WordSum(addr[..]) % U32) <= ONES && r == ONES - Fold(WordSum(addr[..]) % U32)
    ensures addr.Length <= MAX_UNSIGNED ==> r == Checksum(addr[..])
  {
    hide Fold, WordSum, Word, Checksum;
    ghost var b := addr[..];
    var i: nat, count: int, sum: nat := 0, addr.Length, 0;
    assert b[i..] == b;
    while count > 1
      invariant count >= 0 && i + count == |b|
      invariant (sum + WordSum(b[i..])) % U32 == WordSum(b) % U32
    {
      NextWord(b, i);
      WrapAdd(sum, Word(b[i], b[i + 1]), WordSum(b[i + 2..]));
      sum := (sum + Word(addr[i], addr[i + 1])) % U32;
      i, count := i + 2, count - 2;
    }
    LastByte(b, i);
    if count > 0 {
      MaskedWord(addr[i], behind);
      sum := sum + Word(addr[i], behind) % 256;
    }
    sum := sum % U32;
    ChecksumOf(b);
    while sum >= WORD
      invariant Fold(sum) == Fold(WordSum(b) % U32)
    {
      FoldStep(sum);
      sum := sum % WORD + sum / WORD;
    }
    FoldStep(sum);
    r := ONES - sum;
  }

  /** The end of ipv4_checksum yields the same as folding to the end. */
  lemma TwoAdditions(b: seq<Byte>)
    requires |b| <= MAX_LENGTH
    ensures Checksum(b) == ONES - FoldTwice(WordSum(b))
  {
    hide Fold, FoldTwice, WordSum;
    SumBound(b);
    FoldsAgree(WordSum(b));
    FoldFacts(WordSum(b));
  }

  /** ipv4_checksum. */
  method Ipv4Checksum(addr: array<Byte>) returns (answer: nat)
    requires addr.Length <= MAX_LENGTH
    ensures answer == Checksum(addr[..])
  {
    hide Fold, Checksum, WordSum, Word;
    ghost var b := addr[..];
    var w: nat, nleft: int, sum: nat := 0, addr.Length, 0;
    assert b[w..] == b;
    while nleft > 1
      invariant nleft >= 0 && w + nleft == |b|
      invariant sum + WordSum(b[w..]) == WordSum(b)
    {
      NextWord(b, w);
      sum := sum + Word(addr[w], addr[w + 1]);
      w, nleft := w + 2, nleft - 2;
    }
    LastByte(b, w);
    if nleft == 1 {
      sum := sum + addr[w];
    }
    TwoAdditions(b);
    answer := FoldedTwice(sum);
  }

  /** Its last steps. */
  method FoldedTwice(total: nat) returns (answer: nat)
    ensures answer == ONES - FoldTwice(total)
  {
    var sum := total / WORD + total % WORD;
    sum := sum + sum / WORD;
    answer := ONES - sum % WORD;
  }

  /** The last step of create_ipv4_header, there with field 10 of 20 bytes: the checksum of a
      header whose checksum field is zero goes into the field, after which the header verifies. */
  method StoreChecksum(ip: array<Byte>, field: nat)
    requires ip.Length <= MAX_UNSIGNED && field % 2 == 0 && field + 1 < ip.Length && WordAt(ip[..], field) == 0
    modifies ip
    ensures ip[..] == Stored(old(ip[..]), field, Checksum(old(ip[..]))) && Checksum(ip[..]) == 0
  {
    hide Checksum, WordAt, Fold, WordSum;
    ghost var before := ip[..];
    StoredChecksumVerifies(before, field);
    var c := ComputeChecksum(ip, 0);
    ip[field] := c % 256;
    ip[field + 1] := c / 256;
    assert ip[..] == Stored(before, field, c);
  }
}
