/** Machine words, addresses and the copy primitive shared by every layer of the stack. */
module NetTypes {

  // Machine words are bounded integers; a value leaving its range is a verification error,
  // so wrap-around has to be written out wherever the stack relies on it.
  type Byte = b: int | 0 <= b < 0x100
  type U16 = w: int | 0 <= w < 0x1_0000
  type U32 = w: int | 0 <= w < 0x1_0000_0000

  datatype Option<+T> = None | Some(value: T)

  datatype Result<+T, +E> = Ok(value: T) | Err(error: E)

  /** The error of the serialisers whose only requirement is room. */
  datatype SerialiseError = BufferTooSmall(actual: nat, required: nat)

  datatype Ipv4Addr = Ipv4Addr(a: Byte, b: Byte, c: Byte, d: Byte) {
    function Octets(): seq<Byte> {
      [a, b, c, d]
    }

    /** The order of addresses: octet by octet, the first difference decides. */
    predicate Less(other: Ipv4Addr) {
      a < other.a || (a == other.a && (b < other.b || (b == other.b && (c < other.c || (c == other.c && d < other.d)))))
    }
  }

  datatype MacAddress = MacAddress(a: Byte, b: Byte, c: Byte, d: Byte, e: Byte, f: Byte) {
    function Octets(): seq<Byte> {
      [a, b, c, d, e, f]
    }
  }

  const BROADCAST := MacAddress(0xff, 0xff, 0xff, 0xff, 0xff, 0xff)

  function WrappingAdd16(x: U16, n: nat): U16 {
    (x + n) % 0x1_0000
  }

  function WrappingAdd32(x: U32, n: nat): U32 {
    (x + n) % 0x1_0000_0000
  }

  /** Bitwise "and" of two non-negative numbers. */
  function BitAnd(x: nat, y: nat): nat
    decreases x
  {
    if x == 0 || y == 0 then 0
    else (if x % 2 == 1 && y % 2 == 1 then 1 else 0) + 2 * BitAnd(x / 2, y / 2)
  }

  /** Bitwise "or" of two non-negative numbers. */
  function BitOr(x: nat, y: nat): nat
    decreases x + y
  {
    if x == 0 && y == 0 then 0
    else (if x % 2 == 1 || y % 2 == 1 then 1 else 0) + 2 * BitOr(x / 2, y / 2)
  }

  /** The number that two bytes denote in network byte order. */
  function Word(hi: Byte, lo: Byte): U16 {
    hi * 0x100 + lo
  }

  /** The two bytes of a number in network byte order: the only two that denote it. */
  function Be16(w: U16): (s: seq<Byte>)
    ensures |s| == 2 && Word(s[0], s[1]) == w
  {
    assert Word(w / 0x100, w % 0x100) == w;
    var hi: Byte, lo: Byte :| Word(hi, lo) == w;
    [hi, lo]
  }

  function DoubleWord(b0: Byte, b1: Byte, b2: Byte, b3: Byte): U32 {
    Word(b0, b1) * 0x1_0000 + Word(b2, b3)
  }

  function Be32(w: U32): (s: seq<Byte>)
    ensures |s| == 4 && DoubleWord(s[0], s[1], s[2], s[3]) == w
  {
    Be16(w / 0x1_0000) + Be16(w % 0x1_0000)
  }

  lemma Be16Unique(hi: Byte, lo: Byte)
    ensures Be16(Word(hi, lo)) == [hi, lo]
  {
  }

  lemma Be32Unique(b0: Byte, b1: Byte, b2: Byte, b3: Byte)
    ensures Be32(DoubleWord(b0, b1, b2, b3)) == [b0, b1, b2, b3]
  {
    var w, hi, lo := DoubleWord(b0, b1, b2, b3), Word(b0, b1), Word(b2, b3);
    assert w / 0x1_0000 == hi && w % 0x1_0000 == lo;
    Be16Unique(b0, b1);
    Be16Unique(b2, b3);
  }

  /** Appending fields one at a time is appending their concatenation. */
  lemma Regroup(s: seq<Byte>, a: seq<Byte>, b: seq<Byte>, c: seq<Byte>)
    ensures s + a + b + c == s + (a + b + c)
  {
  }

  /** Copies a field behind the first `at` bytes of the buffer; what lies behind the field stays as it was. */
  method CopyFromSlice(output: array<Byte>, at: nat, field: seq<Byte>)
    requires at + |field| <= output.Length
    modifies output
    ensures output[..at + |field|] == old(output[..at]) + field
    ensures at == 0 ==> output[..|field|] == field
    ensures forall k | at + |field| <= k < output.Length :: output[k] == old(output[k])
  {
    forall i | 0 <= i < |field| {
      output[at + i] := field[i];
    }
  }

  /** Overwrites a field between two others; `length` bytes of the buffer are in use. */
  method PatchField(output: array<Byte>, length: nat, at: nat, field: seq<Byte>,
                    ghost front: seq<Byte>, ghost stale: seq<Byte>, ghost back: seq<Byte>)
    requires length <= output.Length && |front| == at && |stale| == |field|
    requires output[..length] == front + stale + back
    modifies output
    ensures output[..length] == front + field + back
    ensures forall k | length <= k < output.Length :: output[k] == old(output[k])
  {
    ghost var before := output[..length];
    assert length == |front| + |stale| + |back|;
    forall i | 0 <= i < |field| {
      output[at + i] := field[i];
    }
    assert forall k | 0 <= k < at || at + |field| <= k < length :: output[k] == before[k];
  }
}
