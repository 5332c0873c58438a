/** The Internet checksum of RFC 1071: the code's folding loops, the closed form, and its algebra. */
module Checksum {
  import opened NetTypes

  const MODULUS := 0xffff

  /** The sum of the big-endian words from offset `i`; an odd last byte is padded with a low zero byte. */
  function SumFrom(s: seq<Byte>, i: nat): nat
    decreases |s| - i
  {
    if i >= |s| then 0
    else if i + 1 == |s| then Word(s[i], 0)
    else Word(s[i], s[i + 1]) + SumFrom(s, i + 2)
  }

  function WordSum(s: seq<Byte>): nat {
    SumFrom(s, 0)
  }

  /** The value a checksum field comes back with: of the two zeros of ones' complement only 0x0000 is computed. */
  function Canonical(w: U16): U16 {
    if w == 0xffff then 0 else w
  }

  /** Repeated end-around carry: every 0xffff beyond 16 bits is dropped. */
  function OnesFold(n: nat): U16 {
    if n <= 0xffff then n else OnesFold(n - MODULUS)
  }

  function InternetChecksum(s: seq<Byte>): U16 {
    0xffff - OnesFold(WordSum(s))
  }

  /** The closed form: 0 only for 0, otherwise the representative modulo 0xffff in 1..0xffff. */
  lemma {:induction false} FoldClosedForm(n: nat)
    ensures OnesFold(n) == if n == 0 then 0 else (n - 1) % MODULUS + 1
  {
    if n <= 0xffff {
    } else {
      FoldClosedForm(n - MODULUS);
    }
  }

  lemma {:induction false} FoldOfFold(x: nat, y: nat)
    ensures OnesFold(OnesFold(x) + y) == OnesFold(x + y)
  {
    if x <= 0xffff {
    } else {
      FoldOfFold(x - MODULUS, y);
    }
  }

  /** One end-around carry keeps the ones' complement value and leaves at most 16 bits. */
  lemma EndAroundCarry(n: nat)
    requires n <= 2 * 0xffff
    ensures n % 0x1_0000 + n / 0x1_0000 <= 0xffff
    ensures n % 0x1_0000 + n / 0x1_0000 == OnesFold(n)
  {
    if n == 2 * 0xffff {
      assert OnesFold(n) == OnesFold(0xffff);
    }
  }

  /**
   The code's loops. The accumulator is a `U32`, so its arithmetic is shown never to overflow;
   `folds` counts the iterations of the final loop.
   */
  method ComputeChecksum(data: seq<Byte>) returns (c: U16, ghost folds: nat)
    ensures c == InternetChecksum(data)
    ensures folds <= 1 && (folds == 1 ==> |data| % 2 == 1)
  {
    var sum: U32 := 0;
    var i := 0;
    while i + 2 <= |data|
      invariant 0 <= i <= |data| && i % 2 == 0
      invariant sum <= 0xffff
      invariant OnesFold(sum + SumFrom(data, i)) == OnesFold(WordSum(data))
    {
      sum := sum + Word(data[i], data[i + 1]);
      EndAroundCarry(sum);
      FoldOfFold(sum, SumFrom(data, i + 2));
      sum := sum % 0x1_0000 + sum / 0x1_0000;
      i := i + 2;
    }
    if i < |data| {
      sum := sum + Word(data[i], 0);
    }
    assert OnesFold(sum) == OnesFold(WordSum(data));
    folds := 0;
    while sum / 0x1_0000 != 0
      invariant OnesFold(sum) == OnesFold(WordSum(data))
      invariant if folds == 0 then sum <= 0xffff + 0xff00 else sum <= 0xffff
      invariant sum > 0xffff ==> |data| % 2 == 1
      invariant folds <= 1 && (folds == 1 ==> |data| % 2 == 1)
      decreases sum
    {
      EndAroundCarry(sum);
      FoldOfFold(sum, 0);
      sum := sum % 0x1_0000 + sum / 0x1_0000;
      folds := folds + 1;
    }
    c := 0xffff - sum % 0x1_0000;
  }

  lemma WordZero(hi: Byte, lo: Byte)
    ensures Word(hi, lo) == 0 <==> hi == 0 && lo == 0
  {
  }

  lemma {:induction false} SumFromZero(s: seq<Byte>, i: nat)
    requires i <= |s|
    ensures SumFrom(s, i) == 0 <==> forall j | i <= j < |s| :: s[j] == 0
    decreases |s| - i
  {
    if i == |s| {
    } else if i + 1 == |s| {
      WordZero(s[i], 0);
    } else {
      SumFromZero(s, i + 2);
      WordZero(s[i], s[i + 1]);
      assert SumFrom(s, i) == 0 <==> s[i] == 0 && s[i + 1] == 0 && SumFrom(s, i + 2) == 0;
    }
  }

  /** Moving the words does not change their sum. */
  lemma {:induction false} SumFromShift(s: seq<Byte>, i: nat, t: seq<Byte>, j: nat)
    requires i <= |s| && j <= |t| && s[i..] == t[j..]
    ensures SumFrom(s, i) == SumFrom(t, j)
    decreases |s| - i
  {
    assert |s| - i == |t| - j;
    assert forall k | i <= k < |s| :: s[k] == s[i..][k - i];
    assert forall k | j <= k < |t| :: t[k] == t[j..][k - j];
    if i + 1 >= |s| {
    } else {
      assert s[i + 2..] == t[j + 2..];
      SumFromShift(s, i + 2, t, j + 2);
    }
  }

  lemma {:induction false} SumFromAppend(s: seq<Byte>, t: seq<Byte>, i: nat)
    requires |s| % 2 == 0 && i % 2 == 0 && i <= |s|
    ensures SumFrom(s + t, i) == SumFrom(s, i) + WordSum(t)
    decreases |s| - i
  {
    if i == |s| {
      assert (s + t)[i..] == t[0..];
      SumFromShift(s + t, i, t, 0);
    } else {
      SumFromAppend(s, t, i + 2);
    }
  }

  /** The weight of a byte: the high byte of its word at even offsets, the low one at odd. */
  function Weight(i: nat): nat {
    if i % 2 == 0 then 0x100 else 1
  }

  lemma {:induction false} SumFromUpdate(s: seq<Byte>, k: nat, v: Byte, i: nat)
    requires k < |s| && i % 2 == 0 && i <= |s|
    ensures SumFrom(s[k := v], i) == SumFrom(s, i) + if i <= k then (v - s[k]) * Weight(k) else 0
    decreases |s| - i
  {
    if i + 1 >= |s| {
    } else {
      SumFromUpdate(s, k, v, i + 2);
    }
  }

  /** What a receiver's test for zero means. */
  lemma ChecksumZero(s: seq<Byte>)
    ensures InternetChecksum(s) == 0 <==> WordSum(s) > 0 && WordSum(s) % MODULUS == 0
  {
    FoldClosedForm(WordSum(s));
  }

  /** The checksum is all ones exactly for all-zero input. */
  lemma ChecksumAllOnes(s: seq<Byte>)
    ensures InternetChecksum(s) == 0xffff <==> forall i | 0 <= i < |s| :: s[i] == 0
  {
    SumFromZero(s, 0);
    FoldClosedForm(WordSum(s));
  }

  /** Every change of a single byte makes a valid checksum invalid. */
  lemma SingleByteChangeDetected(s: seq<Byte>, i: nat, v: Byte)
    requires i < |s| && v != s[i]
    requires InternetChecksum(s) == 0
    ensures InternetChecksum(s[i := v]) != 0
  {
    SumFromUpdate(s, i, v, 0);
    ChecksumZero(s);
    ChecksumZero(s[i := v]);
    NoMultipleNearby(WordSum(s), WordSum(s[i := v]));
  }

  /** The next multiple of 0xffff is too far away for a single byte. */
  lemma NoMultipleNearby(n: nat, m: nat)
    requires n % MODULUS == 0 && -0xffff < m - n < 0xffff && m != n
    ensures m % MODULUS != 0
  {
    var q := n / MODULUS;
    assert q * MODULUS - MODULUS < m < q * MODULUS + MODULUS;
    assert m == m / MODULUS * MODULUS + m % MODULUS;
  }

  /** A checksum field that the serialisers have filled with zeros. */
  const UNSET: seq<Byte> := [0, 0]

  /** `s` with the two bytes at offset `k` replaced. */
  function WithField(s: seq<Byte>, k: nat, field: seq<Byte>): (t: seq<Byte>)
    requires k + 2 <= |s| && |field| == 2
    ensures |t| == |s|
  {
    s[..k] + field + s[k + 2..]
  }

  /** What the serialisers do: zero the field, then store the checksum of the whole there. */
  function Filled(s: seq<Byte>, k: nat): (t: seq<Byte>)
    requires k + 2 <= |s|
    ensures |t| == |s|
  {
    WithField(s, k, Be16(InternetChecksum(WithField(s, k, UNSET))))
  }

  lemma WordSumSplit(front: seq<Byte>, w: U16, back: seq<Byte>)
    requires |front| % 2 == 0
    ensures WordSum(front + Be16(w) + back) == WordSum(front) + w + WordSum(back)
  {
    SumFromAppend(front + Be16(w), back, 0);
    SumFromAppend(front, Be16(w), 0);
    assert SumFrom(Be16(w), 2) == 0;
  }

  lemma {:induction false} ComplementCompletes(n: nat)
    ensures OnesFold(n + 0xffff - OnesFold(n)) == 0xffff
  {
    if n <= 0xffff {
    } else {
      ComplementCompletes(n - MODULUS);
    }
  }

  /** Two buffers whose sums differ by the checksum of the first: the second checks. */
  lemma AddingChecksum(zeroed: seq<Byte>, filled: seq<Byte>)
    requires WordSum(filled) == WordSum(zeroed) + InternetChecksum(zeroed)
    ensures InternetChecksum(filled) == 0
  {
    var n := WordSum(zeroed);
    ComplementCompletes(n);
    assert WordSum(filled) == n + 0xffff - OnesFold(n);
  }

  /** Two buffers whose sums differ by `w`, the second of which checks. */
  lemma RemovingChecksum(zeroed: seq<Byte>, filled: seq<Byte>, w: U16)
    requires WordSum(filled) == WordSum(zeroed) + w
    requires InternetChecksum(filled) == 0
    ensures InternetChecksum(zeroed) == if WordSum(zeroed) == 0 then 0xffff else Canonical(w)
    ensures WordSum(zeroed) == 0 ==> w == 0xffff
  {
    var n := WordSum(zeroed);
    ChecksumZero(filled);
    FoldClosedForm(n);
  }

  lemma WordSumUnset(front: seq<Byte>, back: seq<Byte>)
    requires |front| % 2 == 0
    ensures WordSum(front + UNSET + back) == WordSum(front) + WordSum(back)
  {
    SumFromAppend(front + UNSET, back, 0);
    SumFromAppend(front, UNSET, 0);
    assert SumFrom(UNSET, 2) == 0;
  }

  /** A field at an even offset contributes its value to the sum. */
  lemma FieldAdds(front: seq<Byte>, w: U16, back: seq<Byte>)
    requires |front| % 2 == 0
    ensures WordSum(front + Be16(w) + back) == WordSum(front + UNSET + back) + w
  {
    WordSumUnset(front, back);
    WordSumSplit(front, w, back);
  }

  /** `FillThenVerify` for a field between its two neighbours. */
  lemma FillBetween(front: seq<Byte>, back: seq<Byte>)
    requires |front| % 2 == 0
    ensures InternetChecksum(front + Be16(InternetChecksum(front + UNSET + back)) + back) == 0
  {
    var zeroed := front + UNSET + back;
    FieldAdds(front, InternetChecksum(zeroed), back);
    AddingChecksum(zeroed, front + Be16(InternetChecksum(zeroed)) + back);
  }

  /** `VerifyThenRefill` for a field between its two neighbours. */
  lemma RefillBetween(front: seq<Byte>, w: U16, back: seq<Byte>)
    requires |front| % 2 == 0
    requires InternetChecksum(front + Be16(w) + back) == 0
    ensures var n := WordSum(front + UNSET + back);
            && InternetChecksum(front + UNSET + back) == (if n == 0 then 0xffff else Canonical(w))
            && (n == 0 ==> w == 0xffff)
  {
    FieldAdds(front, w, back);
    RemovingChecksum(front + UNSET + back, front + Be16(w) + back, w);
  }

  /**
   Fill, then verify: storing the checksum of the buffer with a zeroed field into that field
   makes the whole buffer check. No buffer is excepted, not even all zeros or odd lengths.
   */
  lemma FillThenVerify(s: seq<Byte>, k: nat)
    requires k % 2 == 0 && k + 2 <= |s|
    ensures InternetChecksum(Filled(s, k)) == 0
  {
    FillBetween(s[..k], s[k + 2..]);
  }

  /**
   Verify, then refill: the field of a buffer that checks is recomputed exactly, except that
   0xffff comes back as 0x0000 unless everything else is zero.
   */
  lemma VerifyThenRefill(s: seq<Byte>, k: nat, w: U16)
    requires k % 2 == 0 && k + 2 <= |s|
    requires InternetChecksum(WithField(s, k, Be16(w))) == 0
    ensures InternetChecksum(WithField(s, k, UNSET)) ==
            if WordSum(WithField(s, k, UNSET)) == 0 then 0xffff else Canonical(w)
    ensures WordSum(WithField(s, k, UNSET)) == 0 ==> w == 0xffff
  {
    RefillBetween(s[..k], w, s[k + 2..]);
  }

  /** The 12 bytes that TCP and UDP put before their own bytes when they compute a checksum. */
  function PseudoHeader(source: Ipv4Addr, destination: Ipv4Addr, protocol: Byte, length: U16): (s: seq<Byte>)
    ensures |s| == 12 && s[9] == protocol
  {
    source.Octets() + destination.Octets() + [0, protocol] + Be16(length)
  }

  function TransportChecksum(source: Ipv4Addr, destination: Ipv4Addr, protocol: Byte, length: U16,
      bytes: seq<Byte>): U16 {
    InternetChecksum(PseudoHeader(source, destination, protocol, length) + bytes)
  }

  method ComputeTransportChecksum(source: Ipv4Addr, destination: Ipv4Addr, protocol: Byte, length: U16,
      bytes: seq<Byte>)
    returns (c: U16)
    ensures c == TransportChecksum(source, destination, protocol, length, bytes)
  {
    var checksumBytes: seq<Byte> := [];
    checksumBytes := checksumBytes + source.Octets();
    checksumBytes := checksumBytes + destination.Octets();
    checksumBytes := checksumBytes + [0];
    checksumBytes := checksumBytes + [protocol];
    checksumBytes := checksumBytes + Be16(length);
    assert checksumBytes == PseudoHeader(source, destination, protocol, length);
    checksumBytes := checksumBytes + bytes;
    var checksum, _ := ComputeChecksum(checksumBytes);
    c := checksum;
  }

  /** The protocol byte keeps the pseudo-header from being all zero, so 0xffff is never computed. */
  lemma TransportChecksumNotAllOnes(source: Ipv4Addr, destination: Ipv4Addr, protocol: Byte, length: U16,
      bytes: seq<Byte>)
    requires protocol != 0
    ensures TransportChecksum(source, destination, protocol, length, bytes) != 0xffff
  {
    var s := PseudoHeader(source, destination, protocol, length) + bytes;
    ChecksumAllOnes(s);
    assert s[9] == protocol;
  }

  lemma TransportFill(source: Ipv4Addr, destination: Ipv4Addr, protocol: Byte, length: U16, front: seq<Byte>,
      back: seq<Byte>)
    requires |front| % 2 == 0
    ensures var c := TransportChecksum(source, destination, protocol, length, front + UNSET + back);
            TransportChecksum(source, destination, protocol, length, front + Be16(c) + back) == 0
  {
    var pseudo := PseudoHeader(source, destination, protocol, length);
    var c := TransportChecksum(source, destination, protocol, length, front + UNSET + back);
    FillBetween(pseudo + front, back);
    assert pseudo + (front + UNSET + back) == pseudo + front + UNSET + back;
    assert pseudo + (front + Be16(c) + back) == pseudo + front + Be16(c) + back;
  }

  /** If the computed checksum is zero, then a field of all ones checks as well. */
  lemma TransportOtherZero(source: Ipv4Addr, destination: Ipv4Addr, protocol: Byte, length: U16, front: seq<Byte>,
      back: seq<Byte>)
    requires |front| % 2 == 0
    requires TransportChecksum(source, destination, protocol, length, front + UNSET + back) == 0
    ensures TransportChecksum(source, destination, protocol, length, front + Be16(0xffff) + back) == 0
  {
    var pseudo := PseudoHeader(source, destination, protocol, length);
    assert pseudo + (front + UNSET + back) == pseudo + front + UNSET + back;
    assert pseudo + (front + Be16(0xffff) + back) == pseudo + front + Be16(0xffff) + back;
    FieldAdds(pseudo + front, 0xffff, back);
    ChecksumZero(pseudo + front + UNSET + back);
    ChecksumZero(pseudo + front + Be16(0xffff) + back);
  }

  lemma TransportRefill(source: Ipv4Addr, destination: Ipv4Addr, protocol: Byte, length: U16,
                        front: seq<Byte>, w: U16, back: seq<Byte>)
    requires |front| % 2 == 0 && protocol != 0
    requires TransportChecksum(source, destination, protocol, length, front + Be16(w) + back) == 0
    ensures TransportChecksum(source, destination, protocol, length, front + UNSET + back) == Canonical(w)
  {
    var pseudo := PseudoHeader(source, destination, protocol, length);
    assert pseudo + (front + UNSET + back) == pseudo + front + UNSET + back;
    assert pseudo + (front + Be16(w) + back) == pseudo + front + Be16(w) + back;
    RefillBetween(pseudo + front, w, back);
    TransportChecksumNotAllOnes(source, destination, protocol, length, front + UNSET + back);
    ChecksumAllOnes(pseudo + front + UNSET + back);
    SumFromZero(pseudo + front + UNSET + back, 0);
  }

  /** A changed byte of the transport bytes spoils a checksum that held. */
  lemma TransportByteChange(source: Ipv4Addr, destination: Ipv4Addr, protocol: Byte, length: U16, bytes: seq<Byte>,
      i: nat, v: Byte)
    requires TransportChecksum(source, destination, protocol, length, bytes) == 0
    requires i < |bytes| && v != bytes[i]
    ensures TransportChecksum(source, destination, protocol, length, bytes[i := v]) != 0
  {
    var pseudo := PseudoHeader(source, destination, protocol, length);
    SingleByteChangeDetected(pseudo + bytes, 12 + i, v);
    assert (pseudo + bytes)[12 + i := v] == pseudo + bytes[i := v];
  }

  /** So does a changed byte of one of the two addresses. */
  lemma TransportAddressChange(source: Ipv4Addr, destination: Ipv4Addr, protocol: Byte, length: U16, bytes: seq<Byte>,
                               source': Ipv4Addr, destination': Ipv4Addr, i: nat, v: Byte)
    requires TransportChecksum(source, destination, protocol, length, bytes) == 0
    requires i < 8 && v != (source.Octets() + destination.Octets())[i]
    requires source'.Octets() + destination'.Octets() == (source.Octets() + destination.Octets())[i := v]
    ensures TransportChecksum(source', destination', protocol, length, bytes) != 0
  {
    var addresses: seq<Byte> := source.Octets() + destination.Octets();
    var rest: seq<Byte> := [0, protocol] + Be16(length) + bytes;
    RejoinAddresses(source, destination, protocol, length, bytes);
    RejoinAddresses(source', destination', protocol, length, bytes);
    SingleByteChangeDetected(addresses + rest, i, v);
    assert (addresses + rest)[i := v] == addresses[i := v] + rest;
  }

  lemma RejoinAddresses(source: Ipv4Addr, destination: Ipv4Addr, protocol: Byte, length: U16, bytes: seq<Byte>)
    ensures PseudoHeader(source, destination, protocol, length) + bytes
         == (source.Octets() + destination.Octets()) + ([0, protocol] + Be16(length) + bytes)
  {
    Regroup(source.Octets() + destination.Octets(), [0, protocol], Be16(length), bytes);
  }

  lemma TransportSum(source: Ipv4Addr, destination: Ipv4Addr, protocol: Byte, length: U16, bytes: seq<Byte>)
    ensures WordSum(PseudoHeader(source, destination, protocol, length) + bytes)
            == WordSum(source.Octets() + destination.Octets() + [0, protocol]) + length + WordSum(bytes)
  {
    WordSumSplit(source.Octets() + destination.Octets() + [0, protocol], length, bytes);
  }

  lemma MultipleAfterChange(n: nat, n': nat)
    requires n % MODULUS == 0
    ensures n' % MODULUS == 0 <==> (n' - n) % MODULUS == 0
  {
    var q := n / MODULUS;
    assert n == q * MODULUS;
    if n' % MODULUS == 0 {
      assert n' - n == (n' / MODULUS - q) * MODULUS;
    }
    if (n' - n) % MODULUS == 0 {
      assert n' == ((n' - n) / MODULUS + q) * MODULUS;
    }
  }

  /** Other transport bytes of another length check exactly if the sums agree modulo 0xffff. */
  lemma TransportResized(source: Ipv4Addr, destination: Ipv4Addr, protocol: Byte, length: U16, bytes: seq<Byte>,
                         length': U16, bytes': seq<Byte>)
    requires protocol != 0 && TransportChecksum(source, destination, protocol, length, bytes) == 0
    ensures TransportChecksum(source, destination, protocol, length', bytes') == 0
            <==> (length' + WordSum(bytes') - (length + WordSum(bytes))) % MODULUS == 0
  {
    var before := PseudoHeader(source, destination, protocol, length) + bytes;
    var after := PseudoHeader(source, destination, protocol, length') + bytes';
    TransportSum(source, destination, protocol, length, bytes);
    TransportSum(source, destination, protocol, length', bytes');
    ChecksumZero(before);
    ChecksumZero(after);
    SumFromZero(after, 0);
    assert after[9] == protocol;
    MultipleAfterChange(WordSum(before), WordSum(after));
  }

  /** What it means for transport bytes to check, as a sum. */
  lemma TransportChecks(source: Ipv4Addr, destination: Ipv4Addr, protocol: Byte, length: U16, bytes: seq<Byte>)
    requires protocol != 0
    ensures TransportChecksum(source, destination, protocol, length, bytes) == 0
            <==> (WordSum(source.Octets() + destination.Octets()) + protocol + length + WordSum(bytes)) % MODULUS == 0
  {
    var addresses: seq<Byte> := source.Octets() + destination.Octets();
    TransportSum(source, destination, protocol, length, bytes);
    SumFromAppend(addresses, [0, protocol], 0);
    assert SumFrom([0, protocol], 2) == 0;
    ChecksumZero(PseudoHeader(source, destination, protocol, length) + bytes);
  }
}
