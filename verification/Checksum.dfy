/** The Internet checksum of ICMPv6 messages (section 1 of RFC 1071, section 8.1 of RFC 8200,
    section 2.3 of RFC 4443), computed on words in the byte order of the host. */
module Checksum {
  import opened Words

  datatype ByteOrder = Big | Little

  /** Two bytes read as one word. */
  function Word(order: ByteOrder, b0: byte, b1: byte): word {
    if order.Big? then 256 * b0 + b1 else b0 + 256 * b1
  }

  /** A word stored as two bytes. */
  function Store(order: ByteOrder, w: word): (bytes: seq<byte>)
    ensures |bytes| == 2 && Word(order, bytes[0], bytes[1]) == w
  {
    if order.Big? then [w / 256, w % 256] else [w % 256, w / 256]
  }

  /** Sum of the 16-bit words; an odd last byte is padded with zero. */
  function WordSum(order: ByteOrder, bytes: seq<byte>): nat {
    if bytes == [] then 0
    else if |bytes| == 1 then Word(order, bytes[0], 0)
    else Word(order, bytes[0], bytes[1]) + WordSum(order, bytes[2..])
  }

  /** One's-complement reduction: carries are added back until the sum fits a word. */
  function Fold(n: nat): word {
    if n < 0x1_0000 then n else Fold(n / 0x1_0000 + n % 0x1_0000)
  }

  /** The value stored in the checksum field: the complement of the sum, with zero sent as 0xFFFF. */
  function Complement(sum: nat): word {
    var c := 0xFFFF - Fold(sum);
    if c == 0 then 0xFFFF else c
  }

  lemma {:induction false} FoldCongruent(n: nat)
    ensures Fold(n) % 0xFFFF == n % 0xFFFF
    ensures Fold(n) == 0 <==> n == 0
  {
    if n >= 0x1_0000 {
      var q, r := n / 0x1_0000, n % 0x1_0000;
      FoldCongruent(q + r);
      var d, e := (q + r) / 0xFFFF, (q + r) % 0xFFFF;
      assert n == 0xFFFF * (q + d) + e;
      ModUnique(n, 0xFFFF, q + d, e);
    }
  }

  /** A sum verifies exactly when it is a positive multiple of 65535. */
  lemma VerifiesIff(n: nat)
    ensures Fold(n) == 0xFFFF <==> n > 0 && n % 0xFFFF == 0
  {
    FoldCongruent(n);
  }

  lemma ComplementCompletes(sum: nat)
    ensures (sum + Complement(sum)) % 0xFFFF == 0 && Complement(sum) > 0
  {
    FoldCongruent(sum);
    var f := Fold(sum);
    var q, e := sum / 0xFFFF, sum % 0xFFFF;
    assert sum == 0xFFFF * q + e;
    assert e == f || (f == 0xFFFF && e == 0);
    assert sum + Complement(sum) == 0xFFFF * (q + 1);
    ModUnique(sum + Complement(sum), 0xFFFF, q + 1, 0);
  }

  /** Sum of the second bytes of all words. */
  function SecondBytes(bytes: seq<byte>): nat {
    if |bytes| < 2 then 0 else bytes[1] + SecondBytes(bytes[2..])
  }

  /** The sum does not depend on the byte order of the host, up to a rotation of its bytes. */
  lemma {:induction false} OrderIndependent(bytes: seq<byte>)
    ensures WordSum(Big, bytes) == 256 * WordSum(Little, bytes) - 0xFFFF * SecondBytes(bytes)
  {
    if |bytes| >= 2 {
      OrderIndependent(bytes[2..]);
    }
  }

  lemma {:induction false} WordSumConcat(order: ByteOrder, a: seq<byte>, b: seq<byte>)
    requires |a| % 2 == 0
    ensures WordSum(order, a + b) == WordSum(order, a) + WordSum(order, b)
    decreases a
  {
    if a == [] {
      assert a + b == b;
    } else {
      assert (a + b)[2..] == a[2..] + b;
      WordSumConcat(order, a[2..], b);
    }
  }

  lemma {:induction false} WordSumPositive(order: ByteOrder, bytes: seq<byte>, i: nat)
    requires i < |bytes| && bytes[i] > 0
    ensures WordSum(order, bytes) > 0
    decreases i
  {
    if i >= 2 {
      WordSumPositive(order, bytes[2..], i - 2);
    }
  }

  /** Storing the complement of a message's sum in a word of it that was zero makes the message verify
      at any receiver, whatever the byte order of the host that computed it. */
  lemma StoredChecksumVerifies(order: ByteOrder, before: seq<byte>, after: seq<byte>)
    requires |before| % 2 == 0
    ensures var field := Store(order, Complement(WordSum(order, before + [0, 0] + after)));
            Fold(WordSum(Big, before + field + after)) == 0xFFFF
  {
    var zeros: seq<byte> := [0, 0];
    var sum := WordSum(order, before + zeros + after);
    var field := Store(order, Complement(sum));
    var whole := before + field + after;
    WordSumConcat(order, before + zeros, after);
    WordSumConcat(order, before, zeros);
    WordSumConcat(order, before + field, after);
    WordSumConcat(order, before, field);
    assert field[2..] == [] && zeros[2..] == [];
    assert WordSum(order, whole) == sum + Complement(sum);
    ComplementCompletes(sum);
    var q := (sum + Complement(sum)) / 0xFFFF;
    if order.Little? {
      OrderIndependent(whole);
      ModUnique(WordSum(Big, whole), 0xFFFF, 256 * q - SecondBytes(whole), 0);
    }
    assert WordSum(Big, whole) % 0xFFFF == 0;
    var i := if field[0] > 0 then |before| else |before| + 1;
    assert whole[i] > 0;
    WordSumPositive(Big, whole, i);
    VerifiesIff(WordSum(Big, whole));
  }
}
