/**
 Bytes and little-endian integers.
 */
module Bytes {
  import opened Wrappers

  type byte = n: nat | n < 256

  /** The number of values of a `width`-byte integer. */
  function Range(width: nat): (n: nat)
    ensures n > 0
  {
    if width == 0 then 1 else 256 * Range(width - 1)
  }

  /** The low `width` bytes of `n`, least significant first. */
  function LittleEndian(n: nat, width: nat): (s: seq<byte>)
    ensures |s| == width
  {
    if width == 0 then [] else [n % 256] + LittleEndian(n / 256, width - 1)
  }

  function FromLittleEndian(s: seq<byte>): nat {
    if s == [] then 0 else s[0] + 256 * FromLittleEndian(s[1..])
  }

  lemma {:induction false} ReadsBack(n: nat, width: nat)
    requires n < Range(width)
    ensures FromLittleEndian(LittleEndian(n, width)) == n
  {
    if width > 0 { ReadsBack(n / 256, width - 1); }
  }

  /** Every byte string of a given width is the encoding of exactly one in-range integer. */
  lemma {:induction false} WritesBack(s: seq<byte>)
    ensures FromLittleEndian(s) < Range(|s|)
    ensures LittleEndian(FromLittleEndian(s), |s|) == s
  {
    if s != [] {
      WritesBack(s[1..]);
      assert (s[0] + 256 * FromLittleEndian(s[1..])) / 256 == FromLittleEndian(s[1..]);
    }
  }

  // ----- what the bytes mean -----

  /** Byte `i` of an encoding is the digit of weight 256^i: the least significant byte comes first. */
  lemma {:induction false} ByteAt(n: nat, width: nat, i: nat)
    requires i < width
    ensures LittleEndian(n, width)[i] == n / Range(i) % 256
  {
    if i > 0 {
      ByteAt(n / 256, width - 1, i - 1);
      NestedQuotient(n, Range(i - 1));
    }
  }

  lemma NestedQuotient(n: nat, b: nat)
    requires b > 0
    ensures n / 256 / b == n / (256 * b)
  {
    var m := n / 256;
    var q, r := m / b, m % b;
    assert m == b * q + r && n == 256 * m + n % 256;
    QuotientIs(n, 256 * b, q, 256 * r + n % 256);
  }

  lemma QuotientIs(n: nat, d: nat, q: nat, r: nat)
    requires n == d * q + r && r < d
    ensures n / d == q
  {
    assert d * (n / d) + n % d == d * q + r;
    assert d * (q - n / d) == n % d - r;
    MultipleGrows(d, q - n / d);
  }

  lemma MultipleGrows(d: nat, k: int)
    ensures k >= 1 ==> d * k >= d
    ensures k <= -1 ==> d * k + d <= 0
  {
    if k >= 1 {
      assert d * (k - 1) >= 0;
    } else if k <= -1 {
      assert d * (k + 1) <= 0;
    }
  }

  /** The first `k` bytes of `s`, byte `i` weighted by 256^i. */
  function Weighted(s: seq<byte>, k: nat): nat
    requires k <= |s|
  {
    if k == 0 then 0 else Weighted(s, k - 1) + s[k - 1] * Range(k - 1)
  }

  lemma {:induction false} WeightedShift(s: seq<byte>, k: nat)
    requires 0 < k <= |s|
    ensures Weighted(s, k) == s[0] + 256 * Weighted(s[1..], k - 1)
  {
    if k > 1 {
      WeightedShift(s, k - 1);
      var w := Range(k - 2);
      assert s[1..][k - 2] == s[k - 1] && Range(k - 1) == 256 * w;
      assert s[k - 1] * (256 * w) == 256 * (s[k - 1] * w);
    } else {
      assert Range(0) == 1;
    }
  }

  /** Reading is the sum of the bytes, each with the weight of its place. */
  lemma {:induction false} ReadingIsWeighted(s: seq<byte>)
    ensures FromLittleEndian(s) == Weighted(s, |s|)
  {
    if s != [] {
      ReadingIsWeighted(s[1..]);
      WeightedShift(s, |s|);
    }
  }

  /** The `width` bytes of `s` from offset `at` hold `n`, least significant byte first. */
  predicate Holds(s: seq<byte>, at: nat, width: nat, n: nat) {
    at + width <= |s| && forall i: nat :: i < width ==> s[at + i] == n / Range(i) % 256
  }

  lemma FieldHolds(s: seq<byte>, at: nat, width: nat, n: nat)
    requires at + width <= |s| && s[at..at + width] == LittleEndian(n, width)
    ensures Holds(s, at, width, n)
  {
    forall i: nat | i < width ensures s[at + i] == n / Range(i) % 256 {
      ByteAt(n, width, i);
      assert s[at + i] == s[at..at + width][i];
    }
  }

  /** The bytes of `s` from offset `at` are the characters of `text`. */
  predicate Spells(s: seq<byte>, at: nat, text: string) {
    at + |text| <= |s| && forall i: nat :: i < |text| ==> s[at + i] as int == text[i] as int
  }

  /** `t` stands in `s` at offset `at`. */
  predicate Within(s: seq<byte>, at: nat, t: seq<byte>) { at + |t| <= |s| && s[at..at + |t|] == t }

  lemma WholeWithin(s: seq<byte>)
    ensures Within(s, 0, s)
  {}

  lemma PieceWithin(s: seq<byte>, at: nat, a: seq<byte>, b: seq<byte>)
    requires Within(s, at, a + b)
    ensures Within(s, at, a) && Within(s, at + |a|, b)
  {
    assert s[at..at + |a|] == (a + b)[..|a|] && s[at + |a|..at + |a| + |b|] == (a + b)[|a|..];
  }

  /** A field and what follows it. */
  lemma FieldWithin(s: seq<byte>, at: nat, width: nat, n: nat, rest: seq<byte>)
    requires Within(s, at, LittleEndian(n, width) + rest)
    ensures Holds(s, at, width, n) && Within(s, at + width, rest)
  {
    hide LittleEndian;
    PieceWithin(s, at, LittleEndian(n, width), rest);
    FieldHolds(s, at, width, n);
  }

  lemma Ranges()
    ensures Range(1) == 0x100 && Range(2) == 0x1_0000 && Range(4) == 0x1_0000_0000
    ensures Range(8) == 0x1_0000_0000_0000_0000
  {
    assert Range(2) == 256 * Range(1);
    assert Range(4) == 256 * Range(3) && Range(3) == 256 * Range(2);
    assert Range(8) == 256 * Range(7) && Range(7) == 256 * Range(6) && Range(6) == 256 * Range(5);
    assert Range(5) == 256 * Range(4);
  }

  // ----- reading from the front -----

  /** The first `n` bytes and what follows them, or `short` if there are fewer. */
  function Split<E>(s: seq<byte>, n: nat, short: E): Result<(seq<byte>, seq<byte>), E> {
    if n <= |s| then Ok((s[..n], s[n..])) else Err(short)
  }

  /** A `width`-byte little-endian integer and what follows it. */
  function Number<E>(s: seq<byte>, width: nat, short: E): Result<(nat, seq<byte>), E> {
    var (value, rest) :- Split(s, width, short);
    Ok((FromLittleEndian(value), rest))
  }

  lemma SplitAppended<E>(a: seq<byte>, b: seq<byte>, short: E)
    ensures Split(a + b, |a|, short) == Ok((a, b))
  {}

  lemma NumberAppended<E>(n: nat, width: nat, b: seq<byte>, short: E)
    requires n < Range(width)
    ensures Number(LittleEndian(n, width) + b, width, short) == Ok((n, b))
  {
    SplitAppended(LittleEndian(n, width), b, short);
    ReadsBack(n, width);
  }

  lemma NumberParsed<E>(s: seq<byte>, width: nat, short: E)
    requires Number(s, width, short).Ok?
    ensures Number(s, width, short).value.0 < Range(width)
    ensures s == LittleEndian(Number(s, width, short).value.0, width) + Number(s, width, short).value.1
  {
    WritesBack(s[..width]);
  }

  lemma Rejoined(s: seq<byte>, n: nat)
    requires n <= |s|
    ensures s == s[..n] + s[n..]
  {}
}
