/** The IP header checksum of sys/kernel/drivers/rtl8139.c, against section 1 of RFC 1071. */
module InternetChecksum {
  import opened Prelude

  // ----- One's-complement arithmetic on 16-bit words

  function Word(hi: byte, lo: byte): (w: nat)
    ensures w < TWO_16
  {
    256 * (hi as int) + lo
  }

  /** The value of a byte string as the sum of its big-endian 16-bit words, an odd last byte being
    * the high half of a word. */
  function WordSum(s: seq<byte>): nat {
    if |s| == 0 then 0
    else if |s| == 1 then Word(s[0], 0)
    else Word(s[0], s[1]) + WordSum(s[2..])
  }

  /** Addition with end-around carry. */
  function OnesAdd(a: nat, b: nat): (c: nat)
    requires a < TWO_16 && b < TWO_16
    ensures c < TWO_16
  {
    if a + b < TWO_16 then a + b else a + b - 0xFFFF
  }

  /** The one's-complement sum of the words, added one after the other. */
  function OnesSum(s: seq<byte>, acc: nat): (c: nat)
    requires acc < TWO_16
    ensures c < TWO_16
    decreases |s|
  {
    if |s| == 0 then acc
    else if |s| == 1 then OnesAdd(acc, Word(s[0], 0))
    else OnesSum(s[2..], OnesAdd(acc, Word(s[0], s[1])))
  }

  /** What the folding loop leaves of a sum. */
  function Fold(n: nat): (r: nat)
    ensures r < TWO_16
    ensures r == 0 <==> n == 0
    decreases n
  {
    if n < TWO_16 then n else Fold(n % TWO_16 + n / TWO_16)
  }

  /** Folding once at the end gives what adding with end-around carry gives all along. */
  lemma {:induction false} FoldIsOnesSum(s: seq<byte>, acc: nat)
    requires acc < TWO_16
    ensures Fold(acc + WordSum(s)) == OnesSum(s, acc)
    decreases |s|
  {
    if |s| == 1 {
      FoldAdd(acc, Word(s[0], 0), 0);
    } else if |s| > 1 {
      FoldAdd(acc, Word(s[0], s[1]), WordSum(s[2..]));
      FoldIsOnesSum(s[2..], OnesAdd(acc, Word(s[0], s[1])));
    }
  }

  lemma FoldAdd(a: nat, b: nat, c: nat)
    requires a < TWO_16 && b < TWO_16
    ensures Fold(a + b + c) == Fold(OnesAdd(a, b) + c)
  {
    var m, n := a + b + c, OnesAdd(a, b) + c;
    var i := FoldWitness(m);
    var j := FoldWitness(n);
    OnesUnique(n, Fold(m), if n == m then i else i - 1, Fold(n), j);
  }

  /** The one's-complement sum is the ordinary sum less a multiple of 65535, and zero only for zero. */
  lemma OnesWitness(s: seq<byte>) returns (k: nat)
    ensures WordSum(s) == OnesSum(s, 0) + 0xFFFF * k
    ensures OnesSum(s, 0) == 0 <==> WordSum(s) == 0
  {
    FoldIsOnesSum(s, 0);
    k := FoldWitness(WordSum(s));
  }

  lemma {:induction false} FoldWitness(n: nat) returns (k: nat)
    ensures n == Fold(n) + 0xFFFF * k
    decreases n
  {
    if n < TWO_16 {
      k := 0;
    } else {
      k := FoldWitness(n % TWO_16 + n / TWO_16);
      k := k + n / TWO_16;
    }
  }

  /** At most one 16-bit number can be the one's-complement value of `n`. */
  lemma OnesUnique(n: nat, a: nat, i: nat, b: nat, j: nat)
    requires n == a + 0xFFFF * i && a < TWO_16 && (a == 0 <==> n == 0)
    requires n == b + 0xFFFF * j && b < TWO_16 && (b == 0 <==> n == 0)
    ensures a == b
  {
  }

  /** The complement of the one's-complement sum. */
  function Checksum(s: seq<byte>): (c: nat)
    ensures c < TWO_16
  {
    0xFFFF - OnesSum(s, 0)
  }

  lemma {:induction false} WordSumBound(s: seq<byte>)
    ensures WordSum(s) <= 0xFFFF * ((|s| + 1) / 2)
    decreases |s|
  {
    if |s| > 1 {
      WordSumBound(s[2..]);
    }
  }

  /** The 32-bit computation gives the one's-complement checksum exactly when the sum of the words
    * does not overflow: for data a 32-bit length can describe, no number of wraps cancels out. */
  lemma ExactUnlessOverflow(s: seq<byte>)
    requires |s| < TWO_32
    ensures 0xFFFF - Fold(WordSum(s) % TWO_32) == Checksum(s) <==> WordSum(s) < TWO_32
  {
    FoldIsOnesSum(s, 0);
    WordSumBound(s);
    Small(WordSum(s), (|s| + 1) / 2);
    WrapsChangeFold(WordSum(s));
  }

  lemma WrapsChangeFold(n: nat)
    requires n < 0xFFFF * TWO_32
    ensures Fold(n % TWO_32) == Fold(n) <==> n < TWO_32
  {
    if n >= TWO_32 {
      var m := n % TWO_32;
      var i := FoldWitness(n);
      var j := FoldWitness(m);
      WrapsShow(n, n / TWO_32, m, Fold(n), i, Fold(m), j);
    }
  }

  lemma Small(n: nat, words: nat)
    requires n <= 0xFFFF * words && words <= TWO_31
    ensures n < 0xFFFF * TWO_32
  {
  }

  /** 2^32 is 1 modulo 65535, so up to 65534 wraps leave their mark. */
  lemma WrapsShow(n: nat, wraps: nat, m: nat, a: nat, i: nat, b: nat, j: nat)
    requires n == TWO_32 * wraps + m && 0 < wraps && n < 0xFFFF * TWO_32
    requires n == a + 0xFFFF * i && m == b + 0xFFFF * j
    ensures a != b
  {
  }

  /** Up to 131074 bytes the sum cannot overflow. */
  lemma ShortSumFits(s: seq<byte>)
    requires |s| <= 131074
    ensures WordSum(s) < TWO_32
  {
    WordSumBound(s);
    NoWrap(WordSum(s), (|s| + 1) / 2);
  }

  lemma {:induction false} AllOnes(words: nat)
    ensures WordSum(seq(2 * words, _ => 255)) == 0xFFFF * words
  {
    if words > 0 {
      AllOnes(words - 1);
      assert seq(2 * words, _ => 255)[2..] == seq(2 * (words - 1), _ => 255);
    }
  }

  /** One word more of ones, and it overflows: the computation then goes wrong. */
  lemma LongSumWrong()
    ensures var s := seq(131076, _ => 255); WordSum(s) >= TWO_32 && 0xFFFF - Fold(WordSum(s) % TWO_32) != Checksum(s)
  {
    AllOnes(65538);
    ExactUnlessOverflow(seq(131076, _ => 255));
  }

  lemma NoWrap(n: nat, words: nat)
    requires n <= 0xFFFF * words && words <= 65537
    ensures n < TWO_32
  {
  }

  lemma NextWord(s: seq<byte>, i: nat, sum: nat)
    requires i + 1 < |s|
    ensures ((sum + Word(s[i], s[i + 1])) % TWO_32 + WordSum(s[i + 2..])) % TWO_32 == (sum + WordSum(s[i..])) % TWO_32
  {
    assert s[i..][2..] == s[i + 2..];
    WrapOnce(sum + Word(s[i], s[i + 1]), WordSum(s[i + 2..]));
  }

  lemma LastWord(s: seq<byte>, i: nat, half: nat, sum: nat)
    requires i <= |s| <= i + 1 && i == 2 * half && sum < TWO_32
    ensures if |s| % 2 == 1 then (sum + WordSum(s[i..])) % TWO_32 == (sum + Word(s[|s| - 1], 0)) % TWO_32
            else (sum + WordSum(s[i..])) % TWO_32 == sum
  {
    assert |s| == i || s[i..] == [s[i]];
  }

  /** The adding loop of checksum, in 32 bits. */
  method AddWords(data: array<byte>, from: nat, length: nat) returns (sum: nat)
    requires from + length <= data.Length
    ensures sum == WordSum(data[from..from + length]) % TWO_32
  {
    ghost var s := data[from..from + length];
    sum := 0;
    var i := 0;
    ghost var half := 0;
    while i + 1 < length
      invariant 0 <= i <= length && i == 2 * half
      invariant (sum + WordSum(s[i..])) % TWO_32 == WordSum(s) % TWO_32 && sum < TWO_32
      decreases length - i
    {
      var w := Word(data[from + i], data[from + i + 1]);
      NextWord(s, i, sum);
      sum := (sum + w) % TWO_32;
      i, half := i + 2, half + 1;
    }
    LastWord(s, i, half, sum);
    if length % 2 == 1 {
      sum := (sum + Word(data[from + length - 1], 0)) % TWO_32;
    }
  }

  lemma FoldStep(n: nat)
    requires n / TWO_16 != 0 && n < TWO_32
    ensures (n % TWO_16 + n / TWO_16) % TWO_32 == n % TWO_16 + n / TWO_16 < n
    ensures Fold(n % TWO_16 + n / TWO_16) == Fold(n)
  {
  }

  /** The folding loop of checksum. */
  method FoldWords(sum0: nat) returns (sum: nat)
    requires sum0 < TWO_32
    ensures sum == Fold(sum0)
  {
    sum := sum0;
    while sum / TWO_16 != 0
      invariant sum < TWO_32 && Fold(sum) == Fold(sum0)
      decreases sum
    {
      FoldStep(sum);
      sum := (sum % TWO_16 + sum / TWO_16) % TWO_32;
    }
  }

  method ComputeChecksum(data: array<byte>, from: nat, length: nat) returns (c: nat)
    requires from + length <= data.Length
    ensures c == 0xFFFF - Fold(WordSum(data[from..from + length]) % TWO_32)
    ensures length < TWO_32 ==> (c == Checksum(data[from..from + length]) <==> WordSum(data[from..from + length]) < TWO_32)
  {
    var sum := AddWords(data, from, length);
    sum := FoldWords(sum);
    if length < TWO_32 {
      ExactUnlessOverflow(data[from..from + length]);
    }
    c := 0xFFFF - sum;
  }

  lemma WrapOnce(a: nat, b: nat)
    ensures (a % TWO_32 + b) % TWO_32 == (a + b) % TWO_32
  {
    var k := a / TWO_32;
    assert a + b == (a % TWO_32 + b) + TWO_32 * k;
    ModShift(a % TWO_32 + b, k);
  }

  lemma {:induction false} ModShift(a: nat, k: nat)
    ensures (a + TWO_32 * k) % TWO_32 == a % TWO_32
  {
    if k > 0 {
      ModShift(a, k - 1);
      assert a + TWO_32 * k == (a + TWO_32 * (k - 1)) + TWO_32;
    }
  }
}
