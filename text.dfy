/**
 * The small Option wrapper the model uses for "nothing was produced".
 */
module Wrappers {
  datatype Option<+T> = None | Some(value: T)
}

/**
 * Text renderings the decoder relies on, as JavaScript and Node produce
 * them: `Number.prototype.toString(16)` and `toString()`, the
 * `('0' + s).substr(-2)` padding idiom, `Buffer.toString('hex')`, and the
 * `match(/.{1,2}/g).reverse().join('')` chain. Each rendering is paired
 * with the parser or the equivalent definition that gives it its meaning.
 */
module Text {
  import opened Wrappers

  /** One octet of a Node `Buffer`. */
  type byte = x: int | 0 <= x < 256

  /** The lower-case hex digit for a value below 16. */
  function HexDigit(d: nat): char
    requires d < 16
  {
    if d < 10 then ('0' as int + d) as char else ('a' as int + d - 10) as char
  }

  /** The decimal digit for a value below 10. */
  function DecimalDigit(d: nat): char
    requires d < 10
  {
    ('0' as int + d) as char
  }

  predicate IsHexDigit(c: char) {
    '0' <= c <= '9' || 'a' <= c <= 'f'
  }

  function HexValue(c: char): nat
    requires IsHexDigit(c)
  {
    if c <= '9' then c as int - '0' as int else c as int - 'a' as int + 10
  }

  /** Every digit the renderer writes is lower-case hex and reads back as itself. */
  lemma HexDigitRoundTrip(d: nat)
    requires d < 16
    ensures IsHexDigit(HexDigit(d)) && HexValue(HexDigit(d)) == d
  {
  }

  /** `n.toString(16)` for a non-negative integer: lower case, no leading zeros. */
  function ToHex(n: nat): (hex: string)
    decreases n
  {
    if n < 16 then [HexDigit(n)] else ToHex(n / 16) + [HexDigit(n % 16)]
  }

  /** `n.toString()` for a non-negative integer. */
  function ToDecimal(n: nat): (decimal: string)
    decreases n
  {
    if n < 10 then [DecimalDigit(n)] else ToDecimal(n / 10) + [DecimalDigit(n % 10)]
  }

  predicate IsDecimalDigit(c: char) {
    '0' <= c <= '9'
  }

  function DecimalValue(c: char): nat
    requires IsDecimalDigit(c)
  {
    c as int - '0' as int
  }

  /** Reads a string of decimal digits, most significant first. */
  function ParseDecimal(s: string): (n: nat)
    requires forall i :: 0 <= i < |s| ==> IsDecimalDigit(s[i])
  {
    if s == [] then 0 else 10 * ParseDecimal(s[..|s| - 1]) + DecimalValue(s[|s| - 1])
  }

  /**
   * The decimal rendering is made of digits, has no leading zero, and reads
   * back as the number it renders.
   */
  lemma {:induction false} ToDecimalRoundTrip(n: nat)
    ensures var s := ToDecimal(n);
      && |s| >= 1
      && (forall i :: 0 <= i < |s| ==> IsDecimalDigit(s[i]))
      && (s[0] == '0' ==> n == 0)
      && ParseDecimal(s) == n
  {
    var s := ToDecimal(n);
    if n >= 10 {
      ToDecimalRoundTrip(n / 10);
      var t := ToDecimal(n / 10);
      assert s == t + [DecimalDigit(n % 10)];
      assert s[..|s| - 1] == t;
      assert s[0] == t[0];
    }
  }

  /** The last character of `n.toString(16)` is the digit of `n % 16`. */
  lemma ToHexLast(n: nat)
    ensures |ToHex(n)| >= 1 && ToHex(n)[|ToHex(n)| - 1] == HexDigit(n % 16)
  {
  }

  /** `('0' + n.toString(16)).substr(-2)`: the last two characters. */
  function PadHex2(n: nat): (padded: string) {
    var t := "0" + ToHex(n);
    t[|t| - 2..]
  }

  /** One octet as `Buffer.toString('hex')` renders it: two lower-case digits. */
  function ByteHex(b: byte): (pair: string) {
    [HexDigit(b / 16), HexDigit(b % 16)]
  }

  /**
   * The padding idiom keeps the two low hex digits of any non-negative
   * number: the number modulo 256 as two digits, leading zero included.
   */
  lemma PadHex2IsLowByte(n: nat)
    ensures PadHex2(n) == ByteHex(n % 256)
  {
    if n >= 16 {
      var m := n / 16;
      ToHexLast(m);
      var q, r := n / 256, n % 256;
      assert n == 256 * q + r;
      assert m == 16 * q + r / 16;
      assert m % 16 == r / 16;
      assert n % 16 == r % 16;
      var t := "0" + ToHex(n);
      assert ToHex(n) == ToHex(m) + [HexDigit(n % 16)];
      assert t[|t| - 1] == HexDigit(r % 16);
      assert t[|t| - 2] == ToHex(m)[|ToHex(m)| - 1];
    }
  }

  /** On an octet the padding idiom and the buffer rendering agree. */
  lemma PadHex2OfByte(b: byte)
    ensures PadHex2(b) == ByteHex(b)
  {
    PadHex2IsLowByte(b);
    assert b % 256 == b;
  }

  /** `Buffer.toString('hex')`. */
  function HexString(bs: seq<byte>): (hex: string) {
    if bs == [] then "" else ByteHex(bs[0]) + HexString(bs[1..])
  }

  /** Reads an even-length lower-case hex string back into octets. */
  function ParseHex(s: string): (bs: Option<seq<byte>>)
    decreases |s|
  {
    if s == "" then Some([])
    else if |s| < 2 || !IsHexDigit(s[0]) || !IsHexDigit(s[1]) then None
    else match ParseHex(s[2..])
      case None => None
      case Some(rest) => Some([16 * HexValue(s[0]) + HexValue(s[1])] + rest)
  }

  /** Hex rendering and parsing are inverse: no octet is lost or reordered. */
  lemma {:induction false} HexStringRoundTrip(bs: seq<byte>)
    ensures |HexString(bs)| == 2 * |bs|
    ensures ParseHex(HexString(bs)) == Some(bs)
  {
    if bs != [] {
      HexStringRoundTrip(bs[1..]);
      var b := bs[0];
      HexDigitRoundTrip(b / 16);
      HexDigitRoundTrip(b % 16);
      var s := HexString(bs);
      assert s[2..] == HexString(bs[1..]);
      assert s[0] == HexDigit(b / 16) && s[1] == HexDigit(b % 16);
      assert [b] + bs[1..] == bs;
    }
  }

  function Reverse<T>(xs: seq<T>): (reversed: seq<T>) {
    if xs == [] then [] else Reverse(xs[1..]) + [xs[0]]
  }

  lemma {:induction false} ReverseAt<T>(xs: seq<T>, k: nat)
    requires k < |xs|
    ensures |Reverse(xs)| == |xs| && Reverse(xs)[k] == xs[|xs| - 1 - k]
  {
    if k < |xs| - 1 {
      ReverseAt(xs[1..], k);
    } else {
      ReverseLength(xs[1..]);
    }
  }

  lemma {:induction false} ReverseLength<T>(xs: seq<T>)
    ensures |Reverse(xs)| == |xs|
  {
    if xs != [] {
      ReverseLength(xs[1..]);
    }
  }

  /**
   * `String.prototype.match(/.{1,2}/g)` on a non-empty string: consecutive
   * two-character chunks, the last one shorter if the length is odd. On the
   * empty string `match` gives `null`, on which the caller's `reverse()`
   * throws, so the empty string is excluded.
   */
  function MatchPairs(s: string): (pairs: seq<string>)
    requires s != ""
    decreases |s|
  {
    if |s| <= 2 then [s] else [s[..2]] + MatchPairs(s[2..])
  }

  /** `Array.prototype.join('')`. */
  function Join(parts: seq<string>): (joined: string) {
    if parts == [] then "" else parts[0] + Join(parts[1..])
  }

  /** The octets rendered one by one, in order. */
  function ByteHexes(bs: seq<byte>): (pairs: seq<string>) {
    seq(|bs|, i requires 0 <= i < |bs| => ByteHex(bs[i]))
  }

  lemma {:induction false} MatchPairsOfHex(bs: seq<byte>)
    requires bs != []
    ensures HexString(bs) != "" && MatchPairs(HexString(bs)) == ByteHexes(bs)
  {
    var s := HexString(bs);
    assert s == ByteHex(bs[0]) + HexString(bs[1..]);
    if |bs| == 1 {
      assert HexString(bs[1..]) == "";
      assert s == ByteHex(bs[0]);
      assert MatchPairs(s) == [s];
      assert ByteHexes(bs) == [ByteHex(bs[0])];
    } else {
      MatchPairsOfHex(bs[1..]);
      assert s[..2] == ByteHex(bs[0]);
      assert s[2..] == HexString(bs[1..]);
      assert ByteHexes(bs) == [ByteHex(bs[0])] + ByteHexes(bs[1..]);
    }
  }

  lemma {:induction false} JoinByteHexes(bs: seq<byte>)
    ensures Join(ByteHexes(bs)) == HexString(bs)
  {
    if bs != [] {
      JoinByteHexes(bs[1..]);
      assert ByteHexes(bs)[1..] == ByteHexes(bs[1..]);
    }
  }

  /**
   * Splitting a hex rendering into octet pairs, reversing the pairs and
   * joining them again renders the octets in reverse order.
   */
  lemma ReversedPairsAreReversedHex(bs: seq<byte>)
    requires bs != []
    ensures HexString(bs) != ""
    ensures Join(Reverse(MatchPairs(HexString(bs)))) == HexString(Reverse(bs))
  {
    MatchPairsOfHex(bs);
    var pairs := ByteHexes(bs);
    ReverseLength(pairs);
    ReverseLength(bs);
    forall k | 0 <= k < |bs|
      ensures Reverse(pairs)[k] == ByteHexes(Reverse(bs))[k]
    {
      ReverseAt(pairs, k);
      ReverseAt(bs, k);
    }
    assert Reverse(pairs) == ByteHexes(Reverse(bs));
    JoinByteHexes(Reverse(bs));
  }
}
