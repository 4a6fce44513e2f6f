/** The Internet checksum (section 1 of RFC 1071) and the TCP checksum over the IPv4
    pseudo-header (section 3.1 of RFC 9293), wherever the 32-bit sum does not overflow. */
module InetChecksum {
  import opened Common
  import Bits

  type u16 = x: int | 0 <= x < 0x1_0000
  type u32 = x: int | 0 <= x < 0x1_0000_0000

  /** The sum of the big-endian 16-bit words, an odd last byte being a high byte. */
  function WordSum(d: Bytes): nat {
    if d == [] then 0
    else WordSum(d[..|d| - 1]) + Contribution(|d| - 1, d[|d| - 1])
  }

  /** What the byte at position `i` adds to the sum. */
  function Contribution(i: nat, b: byte): nat {
    if i % 2 == 0 then Word(b, 0) else b
  }

  function Word(high: int, low: int): int {
    high * 256 + low
  }

  /** End-around carry, repeated until 16 bits remain. */
  function Fold(sum: nat): nat {
    if sum > 0xFFFF then Fold(sum % 0x1_0000 + sum / 0x1_0000) else sum
  }

  function Checksum(d: Bytes): int {
    0xFFFF - Fold(WordSum(d))
  }

  const U32_RANGE: nat := 0x1_0000_0000

  /** Sums only grow, so a total that fits 32 bits never overflows on the way. */
  lemma {:induction false} WordSumGrows(d: Bytes, i: nat)
    requires i <= |d|
    ensures WordSum(d[..i]) <= WordSum(d)
    decreases |d|
  {
    if i == |d| {
      assert d[..i] == d;
    } else {
      WordSumGrows(d[..|d| - 1], i);
      assert d[..|d| - 1][..i] == d[..i];
    }
  }

  // ---- methods --------------------------------------------------------------

  method FoldCarries(start: u32) returns (sum: u32)
    ensures sum == Fold(start) <= 0xFFFF
  {
    sum := start;
    while sum > 0xFFFF
      invariant Fold(sum) == Fold(start)
      decreases sum
    {
      sum := sum % 0x1_0000 + sum / 0x1_0000;
    }
  }

  /** Adds the words of `d` to `start`, two bytes at a time. */
  method AddWords(start: u32, d: Bytes) returns (sum: u32)
    requires start + WordSum(d) < U32_RANGE
    ensures sum == start + WordSum(d)
  {
    sum := start;
    var i := 0;
    while i + 1 < |d|
      invariant 0 <= i <= |d| && i % 2 == 0
      invariant sum == start + WordSum(d[..i])
      decreases |d| - i
    {
      NextWord(d, i);
      WordSumGrows(d, i + 2);
      sum := sum + Word(d[i], d[i + 1]);
      i := i + 2;
    }
    if i < |d| {
      assert d[..i + 1][..i] == d[..i] && d[..i + 1] == d;
      sum := sum + Word(d[i], 0);
    } else {
      assert d[..i] == d;
    }
  }

  lemma {:induction false} NextWord(d: Bytes, i: nat)
    requires i + 1 < |d| && i % 2 == 0
    ensures WordSum(d[..i + 2]) == WordSum(d[..i]) + Word(d[i], d[i + 1])
  {
    var a, b := d[..i + 1], d[..i + 2];
    assert b[..|b| - 1] == a && a[..|a| - 1] == d[..i];
    assert |b| % 2 == 0 && |a| % 2 == 1;
  }

  method ComputeInetChecksum(data: Bytes) returns (c: u16)
    requires WordSum(data) < U32_RANGE
    ensures c == Checksum(data)
  {
    var sum := AddWords(0, data);
    sum := FoldCarries(sum);
    c := 0xFFFF - sum;
  }

  method TcpChecksum(src: u32, dst: u32, payload: Bytes) returns (c: u16)
    requires HeaderSum(src, dst) + Len32(payload) + WordSum(payload) < U32_RANGE
    ensures c == TcpSpec(src, dst, payload)
  {
    var sum: u32 := 0;
    sum := sum + src / 0x1_0000;
    sum := sum + src % 0x1_0000;
    sum := sum + dst / 0x1_0000;
    sum := sum + dst % 0x1_0000;
    sum := sum + 6;
    sum := sum + Len32(payload);
    sum := AddWords(sum, payload);
    sum := FoldCarries(sum);
    c := 0xFFFF - sum;
  }

  function HeaderSum(src: u32, dst: u32): nat {
    src / 0x1_0000 + src % 0x1_0000 + dst / 0x1_0000 + dst % 0x1_0000 + 6
  }

  /** `payload.len() as u32`. */
  function Len32(payload: Bytes): u32 {
    |payload| % 0x1_0000_0000
  }

  /** `payload.len() as u16`, the length field of the pseudo-header. */
  function Len16(payload: Bytes): u16 {
    |payload| % 0x1_0000
  }

  /** The upper half of the 32-bit length. */
  function LenUpper(payload: Bytes): nat {
    Len32(payload) / 0x1_0000
  }

  function TcpSpec(src: u32, dst: u32, payload: Bytes): int {
    0xFFFF - Fold(HeaderSum(src, dst) + Len32(payload) + WordSum(payload))
  }

  /** `x as u8` after a shift. */
  function Low(x: nat): byte {
    x % 256
  }

  /** The four bytes of an address, most significant first. */
  function AddressBytes(x: u32): (r: Bytes)
    ensures |r| == 4
  {
    [Low(x / 0x100_0000), Low(x / 0x1_0000), Low(x / 0x100), Low(x)]
  }

  function PseudoHeader(src: u32, dst: u32, proto: byte, length: u16): (h: Bytes)
    ensures |h| == 12
  {
    AddressBytes(src) + AddressBytes(dst) + [0, proto] + WordBytes(length)
  }

  /** The header read back by position: source, destination, a zero byte, the protocol and the
      length, each most significant byte first. */
  lemma {:induction false} HeaderReadsBack(src: u32, dst: u32, proto: byte, length: u16)
    ensures var h := PseudoHeader(src, dst, proto, length);
            && ReadWord(h, 0) * 0x1_0000 + ReadWord(h, 2) == src
            && ReadWord(h, 4) * 0x1_0000 + ReadWord(h, 6) == dst
            && h[8] == 0 && h[9] == proto && ReadWord(h, 10) == length
  {
    SplitWords(src);
    SplitWords(dst);
  }

  /** Two bytes, most significant first. */
  function ReadWord(d: Bytes, i: nat): int
    requires i + 1 < |d|
  {
    var high: int, low: int := d[i], d[i + 1];
    high * 256 + low
  }

  method BuildPseudoHeader(src: u32, dst: u32, proto: byte, length: u16) returns (h: Bytes)
    ensures h == PseudoHeader(src, dst, proto, length)
  {
    h := [];
    h := h + [Low(src / 0x100_0000)];
    h := h + [Low(src / 0x1_0000)];
    h := h + [Low(src / 0x100)];
    h := h + [Low(src)];
    assert h == AddressBytes(src);
    h := h + [Low(dst / 0x100_0000)];
    h := h + [Low(dst / 0x1_0000)];
    h := h + [Low(dst / 0x100)];
    h := h + [Low(dst)];
    assert h == AddressBytes(src) + AddressBytes(dst);
    h := h + [0];
    h := h + [proto];
    h := h + [Low(length / 0x100)];
    h := h + [Low(length)];
  }

  // ---- the fold is the residue ----------------------------------------------

  /** Folding keeps the residue modulo 65535, represented as 1..65535 for a non-zero sum. */
  lemma {:induction false} FoldIs(sum: nat, q: int, f: int)
    requires sum > 0 && sum == 0xFFFF * q + f && 1 <= f <= 0xFFFF
    ensures Fold(sum) == f
  {
    if sum <= 0xFFFF {
      assert q == 0;
    } else {
      FoldIs(sum % 0x1_0000 + sum / 0x1_0000, q - sum / 0x1_0000, f);
    }
  }

  lemma {:induction false} FoldForm(sum: nat) returns (q: int)
    requires sum > 0
    ensures sum == 0xFFFF * q + Fold(sum) && 1 <= Fold(sum) <= 0xFFFF
  {
    q := (sum - 1) / 0xFFFF;
    FoldIs(sum, q, sum - 0xFFFF * q);
  }

  // ---- words ----------------------------------------------------------------

  lemma {:induction false} WordSumSnoc(d: Bytes, b: byte)
    ensures WordSum(d + [b]) == WordSum(d) + Contribution(|d|, b)
  {
    assert (d + [b])[..|d|] == d;
  }

  lemma {:induction false} EvenShift(x: nat, y: nat, b: byte)
    requires x % 2 == 0
    ensures Contribution(x + y, b) == Contribution(y, b)
  {
  }

  lemma {:induction false} WordSumConcat(a: Bytes, b: Bytes)
    requires |a| % 2 == 0
    ensures WordSum(a + b) == WordSum(a) + WordSum(b)
    decreases |b|
  {
    if b == [] {
      assert a + b == a;
    } else {
      var init, last := b[..|b| - 1], b[|b| - 1];
      WordSumConcat(a, init);
      WordSumSnoc(a + init, last);
      WordSumSnoc(init, last);
      assert b == init + [last] && a + b == (a + init) + [last];
      EvenShift(|a|, |init|, last);
      assert |a + init| == |a| + |init|;
    }
  }

  lemma {:induction false} WordSumPair(x: byte, y: byte)
    ensures WordSum([x, y]) == Word(x, y)
  {
    NextWord([x, y], 0);
    assert [x, y][..2] == [x, y] && [x, y][..0] == [];
  }

  lemma {:induction false} WordSumAddress(x: u32)
    ensures WordSum(AddressBytes(x)) == x / 0x1_0000 + x % 0x1_0000
  {
    var b := AddressBytes(x);
    WordSumPair(b[0], b[1]);
    WordSumPair(b[2], b[3]);
    WordSumConcat([b[0], b[1]], [b[2], b[3]]);
    assert b == [b[0], b[1]] + [b[2], b[3]];
    SplitWords(x);
  }

  lemma {:induction false} WordSumHeader(src: u32, dst: u32, proto: byte, length: u16)
    ensures WordSum(PseudoHeader(src, dst, proto, length))
         == src / 0x1_0000 + src % 0x1_0000 + dst / 0x1_0000 + dst % 0x1_0000 + proto + length
  {
    var s, d := AddressBytes(src), AddressBytes(dst);
    WordSumAddress(src);
    WordSumAddress(dst);
    WordSumPair(0, proto);
    WordSumConcat(s, d);
    WordSumConcat(s + d, [0, proto]);
    WordSumAppended(s + d + [0, proto], length);
  }

  lemma {:induction false} SplitWords(x: u32)
    ensures Word(Low(x / 0x100_0000), Low(x / 0x1_0000)) == x / 0x1_0000
    ensures Word(Low(x / 0x100), Low(x)) == x % 0x1_0000
  {
    var high, low := x / 0x1_0000, x % 0x1_0000;
    assert x / 0x100_0000 == high / 0x100;
    assert x / 0x100 == high * 0x100 + low / 0x100;
    SplitWord(high);
    SplitWord(low);
  }

  lemma {:induction false} SplitWord(y: u16)
    ensures Word(Low(y / 0x100), Low(y)) == y
  {
  }

  function WordBytes(c: u16): Bytes {
    [c / 256, c % 256]
  }

  lemma {:induction false} WordSumAppended(data: Bytes, c: u16)
    requires |data| % 2 == 0
    ensures WordSum(data + WordBytes(c)) == WordSum(data) + c
  {
    WordSumConcat(data, WordBytes(c));
    WordSumPair(c / 256, c % 256);
  }

  // ---- main results ---------------------------------------------------------

  /** `tcp_checksum` is the Internet checksum of the pseudo-header, built with the 16-bit
      length, followed by the payload, exactly when the upper half of the 32-bit length is
      zero or all ones: a carry of 65535 out of the length field folds to nothing. */
  lemma {:induction false} TcpIsInetChecksum(src: u32, dst: u32, payload: Bytes)
    ensures TcpSpec(src, dst, payload) == Checksum(PseudoHeader(src, dst, 6, Len16(payload)) + payload)
            <==> LenUpper(payload) == 0 || LenUpper(payload) == 0xFFFF
    ensures |payload| <= 0xFFFF ==> LenUpper(payload) == 0
  {
    SplitLength(payload);
    TcpAgreesIff(src, dst, payload, LenUpper(payload), Len16(payload));
  }

  lemma {:induction false} TcpAgreesIff(src: u32, dst: u32, payload: Bytes, upper: nat, short: u16)
    requires Len32(payload) == short + 0x1_0000 * upper && upper < 0x1_0000
    ensures TcpSpec(src, dst, payload) == Checksum(PseudoHeader(src, dst, 6, short) + payload)
            <==> upper == 0 || upper == 0xFFFF
  {
    FramedSum(src, dst, payload, short);
    var framed := HeaderSum(src, dst) + short + WordSum(payload);
    assert HeaderSum(src, dst) + Len32(payload) + WordSum(payload) == framed + 0x1_0000 * upper;
    FoldsAgreeIff(framed, upper);
  }

  /** The 32-bit length in two halves, the lower one the 16-bit length. */
  lemma {:induction false} SplitLength(payload: Bytes)
    ensures LenUpper(payload) < 0x1_0000 && Len32(payload) == Len16(payload) + 0x1_0000 * LenUpper(payload)
    ensures |payload| <= 0xFFFF ==> LenUpper(payload) == 0
  {
    SplitNumber(|payload|);
  }

  lemma {:induction false} SplitNumber(n: nat)
    ensures var len := n % 0x1_0000_0000; len == n % 0x1_0000 + 0x1_0000 * (len / 0x1_0000) && len / 0x1_0000 < 0x1_0000
  {
    var high, len := n / 0x1_0000_0000, n % 0x1_0000_0000;
    Regroup(n, high, len, len / 0x1_0000, len % 0x1_0000);
  }

  lemma {:induction false} Regroup(n: nat, high: nat, len: nat, upper: nat, short: u16)
    requires n == 0x1_0000_0000 * high + len && len == 0x1_0000 * upper + short
    ensures n % 0x1_0000 == short
  {
    Bits.DivModUnique(n, 0x1_0000, 0x1_0000 * high + upper, short);
  }

  lemma {:induction false} FramedSum(src: u32, dst: u32, payload: Bytes, length: u16)
    ensures WordSum(PseudoHeader(src, dst, 6, length) + payload) == HeaderSum(src, dst) + length + WordSum(payload)
  {
    WordSumHeader(src, dst, 6, length);
    WordSumConcat(PseudoHeader(src, dst, 6, length), payload);
  }

  lemma {:induction false} FoldsAgreeIff(a: nat, k: nat)
    requires a > 0 && k < 0x1_0000
    ensures Fold(a) == Fold(a + 0x1_0000 * k) <==> k == 0 || k == 0xFFFF
  {
    var q := FoldForm(a);
    var f := Fold(a) + k;
    if f <= 0xFFFF {
      FoldIs(a + 0x1_0000 * k, q + k, f);
    } else {
      FoldIs(a + 0x1_0000 * k, q + k + 1, f - 0xFFFF);
    }
  }

  /** Which 16-bit words, appended to even-length data, verify to zero: the checksum, and
      all ones where the checksum is zero. */
  lemma {:induction false} AppendedWordVerifiesIff(data: Bytes, c: u16)
    requires |data| % 2 == 0
    ensures Checksum(data + WordBytes(c)) == 0 <==> c == Checksum(data) || (Checksum(data) == 0 && c == 0xFFFF)
  {
    WordSumAppended(data, c);
    var s := WordSum(data);
    if s > 0 {
      var q := FoldForm(s);
      var f := Fold(s) + c;
      if f <= 0xFFFF {
        FoldIs(s + c, q, f);
      } else {
        FoldIs(s + c, q + 1, f - 0xFFFF);
      }
    } else if c > 0 {
      FoldIs(c, 0, c);
    }
  }
}
