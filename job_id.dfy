/**
 * Job identifiers (generateID in main.go): draw (len-1)/2+1 random
 * bytes, hex-encode them and keep the first `len` characters.
 */
module JobId {
  import opened Hex

  /** The length recognize asks for. */
  const JobIdLength: nat := 8

  /** Go's integer division, which truncates toward zero (Dafny's `/` is Euclidean). */
  function GoDiv(a: int, d: int): int
    requires d > 0
  {
    if a >= 0 then a / d else -((-a) / d)
  }

  /**
   * The buffer size (len-1)/2+1 with Go's division: at least one byte, and
   * enough bytes that their encoding covers `len` characters with at most
   * one character to spare once len >= 1.
   */
  function BufferSize(len: nat): (size: nat)
    ensures size >= 1
    ensures len <= 2 * size <= len + 2
    ensures len >= 1 ==> 2 * size <= len + 1
  {
    GoDiv(len - 1, 2) + 1
  }

  /** The first `count` bytes of the random source. */
  function Drawn(entropy: nat -> byte, count: nat): (b: seq<byte>)
    ensures |b| == count
    ensures forall k :: 0 <= k < count ==> b[k] == entropy(k)
  {
    seq(count, k requires 0 <= k < count => entropy(k))
  }

  /**
   * The identifier generateID(len) returns when the random source yields
   * `entropy`: the `[:len]` slice is in bounds, and the result is exactly
   * `len` lowercase hex characters.
   */
  function IdFrom(len: nat, entropy: nat -> byte): (id: string)
    ensures |id| == len
    ensures forall k :: 0 <= k < |id| ==> IsLowerHexDigit(id[k])
  {
    Encode(Drawn(entropy, BufferSize(len)))[..len]
  }

  /** generateID: fill a fresh buffer from the random source, encode, slice. */
  method GenerateId(len: nat, entropy: nat -> byte) returns (id: string)
    ensures |id| == len
    ensures forall k :: 0 <= k < |id| ==> IsLowerHexDigit(id[k])
    ensures id == IdFrom(len, entropy)
  {
    var size := BufferSize(len);
    var buf := new byte[size];
    for k := 0 to size
      invariant forall j :: 0 <= j < k ==> buf[j] == entropy(j)
    {
      buf[k] := entropy(k);
    }
    assert buf[..] == Drawn(entropy, size);
    var hex := Encode(buf[..]);
    id := hex[..len];
  }

  /**
   * For an even length nothing is sliced off, so two identifiers are equal
   * exactly when the drawn bytes are: a collision of IDs is a collision of
   * random bytes.
   */
  lemma EvenIdDeterminedByBytes(len: nat, e1: nat -> byte, e2: nat -> byte)
    requires len % 2 == 0 && len >= 2
    ensures IdFrom(len, e1) == IdFrom(len, e2) <==> Drawn(e1, BufferSize(len)) == Drawn(e2, BufferSize(len))
  {
    var size := BufferSize(len);
    var s1, s2 := Encode(Drawn(e1, size)), Encode(Drawn(e2, size));
    assert s1[..len] == s1 && s2[..len] == s2;
    EncodeInjective(Drawn(e1, size), Drawn(e2, size));
  }

  /** Character i of an identifier is nibble i of the drawn bytes, high nibble first. */
  lemma IdCharacter(len: nat, entropy: nat -> byte, i: nat)
    requires i < len
    ensures IdFrom(len, entropy)[i] == HexDigit(if i % 2 == 0 then High(entropy(i / 2)) else Low(entropy(i / 2)))
  {
    var b := Drawn(entropy, BufferSize(len));
    var s := Encode(b);
    assert i / 2 < |b|;
    if i % 2 == 0 {
      assert s[2 * (i / 2)] == HexDigit(High(b[i / 2]));
    } else {
      assert s[2 * (i / 2) + 1] == HexDigit(Low(b[i / 2]));
    }
  }
}
