/** The Internet checksum of an IPv4 header (pkg/checktun/check_tun.go; section 3.1 of RFC 791 and
    sections 1 and 2 of RFC 1071). */
module Checksum {
  import opened Common

  function Word(s: seq<byte>, i: nat): (w: nat)
    requires i + 1 < |s|
    ensures w <= 0xffff
  {
    s[i] as int * 256 + s[i + 1] as int
  }

  /** Most significant byte first, both ways. */
  lemma NetworkByteOrder(s: seq<byte>, at: nat, value: nat)
    requires at + 1 < |s| && value <= 0xffff
    ensures Word(s, at) / 256 == s[at] as int && Word(s, at) % 256 == s[at + 1] as int
    ensures Put(s, at, value)[at] as int == value / 256 && Put(s, at, value)[at + 1] as int == value % 256
    ensures forall k :: 0 <= k < |s| && k != at && k != at + 1 ==> Put(s, at, value)[k] == s[k]
  {
  }

  /** The sum of the 16-bit words from index `i` on; an odd last byte is not counted. */
  function WordSum(s: seq<byte>, i: nat): nat
    decreases |s| - i
  {
    if i + 1 < |s| then Word(s, i) + WordSum(s, i + 2) else 0
  }

  /** End-around carry until the sum fits sixteen bits. */
  function Fold(sum: nat): (r: nat)
    ensures r <= 0xffff && r % 0xffff == sum % 0xffff && (r == 0 <==> sum == 0)
  {
    if sum > 0xffff then
      FoldStep(sum);
      Fold(sum / 0x10000 + sum % 0x10000)
    else sum
  }

  lemma FoldStep(sum: nat)
    requires sum > 0xffff
    ensures var next := sum / 0x10000 + sum % 0x10000;
            0 < next < sum && next % 0xffff == sum % 0xffff
  {
    var high, low := sum / 0x10000, sum % 0x10000;
    assert sum == (high + low) + 0xffff * high;
    Periodic(high + low, high);
  }

  lemma Periodic(a: nat, k: nat)
    ensures (a + 0xffff * k) % 0xffff == a % 0xffff
  {
    if k > 0 {
      Periodic(a, k - 1);
      assert a + 0xffff * k == (a + 0xffff * (k - 1)) + 0xffff;
    }
  }

  function InternetChecksum(s: seq<byte>): (c: nat)
    ensures c <= 0xffff
  {
    0xffff - Fold(WordSum(s, 0))
  }

  /** A header verifies when the folded sum of all its words, checksum included, has all bits set. */
  predicate Verifies(s: seq<byte>) {
    Fold(WordSum(s, 0)) == 0xffff
  }

  /** The bytes with a 16-bit value stored at `at`, most significant byte first. */
  function Put(s: seq<byte>, at: nat, value: nat): (r: seq<byte>)
    requires at + 1 < |s| && value <= 0xffff
    ensures |r| == |s|
  {
    s[at := value / 256][at + 1 := value % 256]
  }

  /** Storing a value over a zero field adds it to the word sum. */
  lemma {:induction false} PutAdds(s: seq<byte>, at: nat, value: nat, i: nat)
    requires at + 1 < |s| && value <= 0xffff && s[at] == 0 == s[at + 1]
    requires i % 2 == 0 && at % 2 == 0
    ensures WordSum(Put(s, at, value), i) == WordSum(s, i) + if i <= at then value else 0
    decreases |s| - i
  {
    if i + 1 < |s| {
      PutAdds(s, at, value, i + 2);
      if i == at {
        assert Word(Put(s, at, value), i) == value;
      } else {
        assert Word(Put(s, at, value), i) == Word(s, i);
      }
    }
  }

  lemma FoldsToAllOnes(sum: nat)
    ensures Fold(sum) == 0xffff <==> sum > 0 && sum % 0xffff == 0
  {
  }

  /** With a zero checksum field, exactly the values congruent to the computed checksum make the
      header verify (except that a header of zeros with a zero field does not); in particular the
      computed checksum does. */
  lemma ChecksumVerifies(s: seq<byte>, at: nat, value: nat)
    requires at + 1 < |s| && at % 2 == 0 && s[at] == 0 == s[at + 1] && value <= 0xffff
    ensures Verifies(Put(s, at, value)) <==> WordSum(s, 0) + value > 0 && value % 0xffff == InternetChecksum(s) % 0xffff
    ensures Verifies(Put(s, at, InternetChecksum(s)))
  {
    hide *;
    VerifiesWhen(s, at, value);
    VerifiesWhen(s, at, InternetChecksum(s));
    ComputedIsNotMissing(s);
  }

  lemma ComputedIsNotMissing(s: seq<byte>)
    ensures WordSum(s, 0) + InternetChecksum(s) > 0
  {
    hide WordSum;
  }

  lemma VerifiesWhen(s: seq<byte>, at: nat, value: nat)
    requires at + 1 < |s| && at % 2 == 0 && s[at] == 0 == s[at + 1] && value <= 0xffff
    ensures Verifies(Put(s, at, value)) <==> WordSum(s, 0) + value > 0 && value % 0xffff == InternetChecksum(s) % 0xffff
  {
    hide Put, WordSum, Fold;
    var sum := WordSum(s, 0);
    PutAdds(s, at, value, 0);
    FoldsToAllOnes(sum + value);
    Complement(sum, Fold(sum), value);
  }

  lemma Complement(sum: nat, folded: nat, value: nat)
    requires folded <= 0xffff && folded % 0xffff == sum % 0xffff && value <= 0xffff
    ensures (sum + value) % 0xffff == 0 <==> value % 0xffff == (0xffff - folded) % 0xffff
  {
    var q := sum / 0xffff;
    assert sum == sum % 0xffff + 0xffff * q;
    Periodic(sum % 0xffff + value, q);
    assert sum + value == (sum % 0xffff + value) + 0xffff * q;
  }

  /** The computed checksum is the least value that makes the words add up to a multiple of 65535, and all bits
      set when there is nothing to add up. */
  lemma ChecksumIsLeast(s: seq<byte>)
    ensures (WordSum(s, 0) + InternetChecksum(s)) % 0xffff == 0
    ensures InternetChecksum(s) == 0xffff <==> WordSum(s, 0) == 0
  {
    hide WordSum;
    Complement(WordSum(s, 0), Fold(WordSum(s, 0)), InternetChecksum(s));
  }

  /** An odd last byte does not count. */
  lemma {:induction false} OddByteIsIgnored(s: seq<byte>, b: byte, i: nat)
    requires |s| % 2 == 0 == i % 2
    ensures WordSum(s + [b], i) == WordSum(s, i)
    ensures i == 0 ==> InternetChecksum(s + [b]) == InternetChecksum(s)
    decreases |s| - i
  {
    if i + 1 < |s| {
      OddByteIsIgnored(s, b, i + 2);
      assert Word(s + [b], i) == Word(s, i);
    }
  }

  method CalculateIpv4Checksum(payload: seq<byte>) returns (checksum: nat)
    ensures checksum == InternetChecksum(payload)
  {
    var sum: nat := 0;
    var i := 0;
    while i < |payload| - 1
      invariant i <= |payload| + 1
      invariant sum + WordSum(payload, i) == WordSum(payload, 0)
    {
      var word: nat := payload[i] as int * 256 + payload[i + 1] as int;
      sum := sum + word;
      i := i + 2;
    }
    while sum > 0xffff
      invariant Fold(sum) == Fold(WordSum(payload, 0))
    {
      FoldStep(sum);
      sum := sum / 0x10000 + sum % 0x10000;
    }
    // The complement of a sixteen-bit value, cut to sixteen bits.
    checksum := 0xffff - sum;
  }
}
