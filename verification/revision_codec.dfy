/**
 The revision codec: an `int64` revision is written as a big-endian base-64
 number over the alphabet of `RevisionTables`, shortest form, with zero (and
 every negative value) written as the empty string. Decoding is a permissive
 fold that skips every quote byte and reads any other unknown byte as digit
 0; it never fails, and on long inputs it wraps like Go's `int64`.
 */
module RevisionCodec {
  import opened GoTypes
  import opened RevisionTables

  /** 64^k. */
  function Pow64(k: nat): (p: int)
    ensures p >= 1
  {
    if k == 0 then 1 else 64 * Pow64(k - 1)
  }

  // ---------------------------------------------------------------- decoding

  /** The decoder's fold over unbounded integers: a quote byte leaves the
      accumulator alone, any other byte `b` turns `t` into `t * 64 + digit(b)`.
      A string of `k` bytes never reaches 64^k. */
  function DecodeValue(s: seq<byte>): (v: int)
    ensures 0 <= v < Pow64(|s|)
    decreases |s|
  {
    if s == [] then 0
    else
      var t := DecodeValue(s[..|s| - 1]);
      if s[|s| - 1] == Quote then t else t * 64 + DigitOf(s[|s| - 1])
  }

  /** What the source's decoder returns: the fold carried out in `int64`. */
  function Decode(s: seq<byte>): (r: int64)
    ensures (r as int - DecodeValue(s)) % TwoTo64 == 0
    ensures DecodeValue(s) <= Int64Max ==> r as int == DecodeValue(s)
  {
    Wrap64(DecodeValue(s))
  }

  /** The source's decoding loop, with Go's wrap-around after the
      multiplication and again after the addition. Wrapping at every step
      gives the same result as wrapping the exact value once. */
  method DecodeRevision(revision: seq<byte>) returns (t: int64)
    ensures t == Decode(revision)
    ensures |revision| <= 10 ==> t as int == DecodeValue(revision)
  {
    t := 0;
    for i := 0 to |revision|
      invariant t == Wrap64(DecodeValue(revision[..i]))
    {
      assert revision[..i + 1][..i] == revision[..i];
      var s := revision[i];
      if s != Quote {
        WrapMulAdd(t, DecodeValue(revision[..i]), DigitOf(s));
        t := Wrap64(Wrap64(t as int * 64) as int + DigitOf(s));
      }
    }
    assert revision[..|revision|] == revision;
    if |revision| <= 10 {
      ShortInputsDoNotWrap(revision);
    }
  }

  /** Ten symbols stay below 2^60, so decoding them never wraps. */
  lemma ShortInputsDoNotWrap(s: seq<byte>)
    requires |s| <= 10
    ensures Decode(s) as int == DecodeValue(s)
  {
    PowMonotone(|s|, 10);
    assert Pow64(10) == 0x1000_0000_0000_0000;
  }

  lemma {:induction false} PowMonotone(i: nat, j: nat)
    requires i <= j
    ensures Pow64(i) <= Pow64(j)
    decreases j
  {
    if i < j {
      PowMonotone(i, j - 1);
    }
  }

  /** One decoding step commutes with the wrap-around. */
  lemma WrapMulAdd(t: int64, v: int, d: int)
    requires t == Wrap64(v)
    ensures Wrap64(Wrap64(t as int * 64) as int + d) == Wrap64(v * 64 + d)
  {
    var k := (t as int - v) / TwoTo64;
    assert t as int - v == TwoTo64 * k;
    var w := Wrap64(t as int * 64) as int;
    var j := (w - t as int * 64) / TwoTo64;
    assert w - t as int * 64 == TwoTo64 * j;
    assert (w + d) - (v * 64 + d) == TwoTo64 * (j + 64 * k);
    WrapCongruent(w + d, v * 64 + d);
  }

  // -------------------------------------- reference reading of the decoder

  /** The digit values the decoder reads from `s`, in order: quotes dropped,
      every other byte looked up in the decoding table. */
  function Digits(s: seq<byte>): (ds: seq<int>)
    ensures |ds| <= |s|
    ensures forall i :: 0 <= i < |ds| ==> 0 <= ds[i] < 64
  {
    if s == [] then []
    else (if s[0] == Quote then [] else [DigitOf(s[0])]) + Digits(s[1..])
  }

  /** Positional value of a big-endian base-64 digit string. */
  function Positional(ds: seq<int>): int {
    if ds == [] then 0 else ds[0] * Pow64(|ds| - 1) + Positional(ds[1..])
  }

  lemma {:induction false} DigitsAppend(a: seq<byte>, b: seq<byte>)
    ensures Digits(a + b) == Digits(a) + Digits(b)
    decreases |a|
  {
    if a == [] {
      assert a + b == b;
    } else {
      assert (a + b)[1..] == a[1..] + b;
      DigitsAppend(a[1..], b);
    }
  }

  lemma {:induction false} PositionalSnoc(ds: seq<int>, d: int)
    ensures Positional(ds + [d]) == Positional(ds) * 64 + d
    decreases |ds|
  {
    if ds == [] {
      assert ds + [d] == [d];
    } else {
      assert (ds + [d])[1..] == ds[1..] + [d];
      PositionalSnoc(ds[1..], d);
      var k := |ds| - 1;
      assert ds[0] * Pow64(k + 1) == ds[0] * Pow64(k) * 64;
    }
  }

  /** The decoder computes the positional value of the digits it reads:
      the input is a big-endian base-64 numeral. */
  lemma {:induction false} DecodeIsPositional(s: seq<byte>)
    ensures DecodeValue(s) == Positional(Digits(s))
    decreases |s|
  {
    if s != [] {
      var p, c := s[..|s| - 1], s[|s| - 1];
      assert s == p + [c];
      DecodeIsPositional(p);
      DigitsAppend(p, [c]);
      assert [c][1..] == [];
      if c != Quote {
        assert Digits([c]) == [DigitOf(c)];
        PositionalSnoc(Digits(p), DigitOf(c));
      } else {
        assert Digits(p) + [] == Digits(p);
      }
    }
  }

  /** A quote byte inserted anywhere changes nothing: the decoder skips
      every quote, wherever it stands. */
  lemma QuoteSkippedAnywhere(a: seq<byte>, b: seq<byte>)
    ensures DecodeValue(a + [Quote] + b) == DecodeValue(a + b)
    ensures Decode(a + [Quote] + b) == Decode(a + b)
  {
    DigitsAppend(a + [Quote], b);
    DigitsAppend(a, [Quote]);
    DigitsAppend(a, b);
    assert [Quote][1..] == [];
    assert Digits([Quote]) == [];
    assert Digits(a) + [] == Digits(a);
    DecodeIsPositional(a + [Quote] + b);
    DecodeIsPositional(a + b);
  }

  /** A numeral in quotes decodes as the bare numeral. */
  lemma QuotedDecodesAsBare(e: seq<byte>)
    ensures Decode([Quote] + e + [Quote]) == Decode(e)
  {
    QuoteSkippedAnywhere([], e + [Quote]);
    assert [] + [Quote] + (e + [Quote]) == [Quote] + e + [Quote];
    assert [] + (e + [Quote]) == e + [Quote] + [];
    QuoteSkippedAnywhere(e, []);
    assert e + [] == e;
  }

  /** A byte outside the alphabet (other than the quote) is read as the
      zero digit: decoding cannot fail, it just reads a `-`. */
  lemma ForeignByteReadsAsZero(a: seq<byte>, x: byte, b: seq<byte>)
    requires !IsSymbol(x) && x != Quote
    ensures DecodeValue(a + [x] + b) == DecodeValue(a + [SymbolOf(0)] + b)
  {
    var z := SymbolOf(0);
    assert [x][1..] == [] && [z][1..] == [];
    assert Digits([x]) == [0] == Digits([z]);
    DigitsAppend(a + [x], b);
    DigitsAppend(a, [x]);
    DigitsAppend(a + [z], b);
    DigitsAppend(a, [z]);
    DecodeIsPositional(a + [x] + b);
    DecodeIsPositional(a + [z] + b);
  }

  /** `s` with every quote byte removed. */
  function Unquoted(s: seq<byte>): (u: seq<byte>)
    ensures |u| <= |s|
    ensures forall i :: 0 <= i < |u| ==> u[i] != Quote
  {
    if s == [] then []
    else (if s[0] == Quote then [] else [s[0]]) + Unquoted(s[1..])
  }

  /** Removing every quote byte changes nothing the decoder reads. */
  lemma {:induction false} UnquotedDecodesAlike(s: seq<byte>)
    ensures Digits(Unquoted(s)) == Digits(s)
    ensures DecodeValue(Unquoted(s)) == DecodeValue(s)
    ensures Decode(Unquoted(s)) == Decode(s)
    decreases |s|
  {
    if s != [] {
      var head := if s[0] == Quote then [] else [s[0]];
      UnquotedDecodesAlike(s[1..]);
      DigitsAppend(head, Unquoted(s[1..]));
      if s[0] != Quote {
        assert head[1..] == [];
      }
      DecodeIsPositional(s);
      DecodeIsPositional(Unquoted(s));
    }
  }

  /** The accumulator only grows: no prefix of the input decodes to more
      than the whole input. */
  lemma {:induction false} PrefixValueBounded(s: seq<byte>, i: nat)
    requires i <= |s|
    ensures DecodeValue(s[..i]) <= DecodeValue(s)
    decreases |s| - i
  {
    if i < |s| {
      var p := s[..|s| - 1];
      assert p[..i] == s[..i];
      PrefixValueBounded(p, i);
    } else {
      assert s[..i] == s;
    }
  }

  // ---------------------------------------------------------------- encoding

  /** The digits of `n` in big-endian base 64, shortest form: the source's
      loop emits `n & 0x3f` and shifts right by 6 while `n > 0`, which for
      positive `n` are `n % 64` and `n / 64`. */
  function EncodeDigits(n: int): (r: seq<byte>)
    ensures forall i :: 0 <= i < |r| ==> IsSymbol(r[i]) && r[i] != Quote
    decreases n
  {
    if n <= 0 then [] else EncodeDigits(n / 64) + [SymbolOf(n % 64)]
  }

  /** What the source's encoder returns for `revision`. */
  function Encode(revision: int64): (r: seq<byte>)
    ensures revision <= 0 ==> r == []
    ensures revision > 0 ==> 1 <= |r| <= 11 && r[0] != SymbolOf(0)
    ensures forall i :: 0 <= i < |r| ==> IsSymbol(r[i])
  {
    if revision == 0 then []
    else if revision > 0 then
      Int64FitsElevenDigits(revision);
      LeadingDigitNonZero(revision as int);
      EncodeDigits(revision as int)
    else
      EncodeDigits(revision as int)
  }

  /** The source's encoder, filling a 12-byte buffer from the right. The
      buffer never overflows because a positive `int64` has at most 11
      base-64 digits. */
  method EncodeRevision(revision: int64) returns (r: seq<byte>)
    ensures r == Encode(revision)
    ensures |r| < 12
  {
    if revision == 0 {
      return [];
    }
    var buffer: seq<byte> := [0, 0, 0, 0, 0, 0, 0, 0, 0, 0, 0, 0];
    var index := |buffer|;
    var rest := revision;
    if rest > 0 {
      Int64FitsElevenDigits(rest);
    }
    while rest > 0
      invariant 0 <= index <= |buffer| == 12
      invariant rest <= revision
      invariant |EncodeDigits(rest as int)| <= index
      invariant EncodeDigits(rest as int) + buffer[index..] == EncodeDigits(revision as int)
    {
      var digit := SymbolOf(rest as int % 64);
      assert EncodeDigits(rest as int) == EncodeDigits(rest as int / 64) + [digit];
      index := index - 1;
      var before := buffer;
      buffer := buffer[index := digit];
      assert buffer[index..] == [digit] + before[index + 1..];
      rest := rest / 64;
    }
    r := buffer[index..];
    assert EncodeDigits(rest as int) == [];
  }

  // ------------------------------------------------------- encoding lemmas

  /** The encoding of `n` fits in `k` symbols exactly when `n < 64^k`: the
      encoding is the shortest numeral for `n`. */
  lemma {:induction false} EncodeLength(n: int, k: nat)
    requires n >= 0
    ensures n < Pow64(k) <==> |EncodeDigits(n)| <= k
    decreases n
  {
    if n > 0 {
      if k == 0 {
        assert |EncodeDigits(n)| == |EncodeDigits(n / 64)| + 1;
      } else {
        EncodeLength(n / 64, k - 1);
        assert n < Pow64(k) <==> n / 64 < Pow64(k - 1);
      }
    }
  }

  /** Every positive `int64` takes between 1 and 11 symbols, and the largest
      takes all 11. */
  lemma Int64FitsElevenDigits(n: int64)
    requires n > 0
    ensures 1 <= |EncodeDigits(n as int)| <= 11
  {
    assert Pow64(11) == 0x4_0000_0000_0000_0000;
    EncodeLength(n as int, 11);
    EncodeLength(n as int, 0);
  }

  lemma Int64MaxTakesElevenDigits()
    ensures |Encode(Int64Max as int64)| == 11
  {
    assert Pow64(10) == 0x1000_0000_0000_0000;
    EncodeLength(Int64Max, 10);
  }

  /** The encoding of a positive number never starts with the zero symbol. */
  lemma {:induction false} LeadingDigitNonZero(n: int)
    requires n > 0
    ensures |EncodeDigits(n)| >= 1 && EncodeDigits(n)[0] != SymbolOf(0)
    decreases n
  {
    if n / 64 > 0 {
      LeadingDigitNonZero(n / 64);
    } else {
      assert EncodeDigits(n) == [SymbolOf(n)];
    }
  }

  /** Decoding undoes encoding, over unbounded integers. */
  lemma {:induction false} DecodeEncodeValue(n: int)
    requires n >= 0
    ensures DecodeValue(EncodeDigits(n)) == n
    decreases n
  {
    if n > 0 {
      var s := EncodeDigits(n);
      assert s[..|s| - 1] == EncodeDigits(n / 64);
      DecodeEncodeValue(n / 64);
    }
  }

  /** Round trip: every non-negative `int64` survives encoding then decoding,
      and no step of the decoder wraps on the way. */
  lemma RoundTrip(n: int64)
    requires n >= 0
    ensures Decode(Encode(n)) == n
    ensures forall i :: 0 <= i <= |Encode(n)| ==> 0 <= DecodeValue(Encode(n)[..i]) <= n as int
  {
    if n > 0 {
      DecodeEncodeValue(n as int);
    }
    forall i | 0 <= i <= |Encode(n)|
      ensures 0 <= DecodeValue(Encode(n)[..i]) <= n as int
    {
      PrefixValueBounded(Encode(n), i);
    }
  }

  /** The symbols of a canonical numeral: alphabet only, no leading zero symbol. */
  predicate Canonical(s: seq<byte>) {
    && (forall i :: 0 <= i < |s| ==> IsSymbol(s[i]))
    && (s == [] || s[0] != SymbolOf(0))
  }

  /** A non-empty canonical numeral denotes a positive number. */
  lemma {:induction false} CanonicalIsPositive(s: seq<byte>)
    requires Canonical(s) && s != []
    ensures DecodeValue(s) > 0
    decreases |s|
  {
    QuoteIsNotASymbol();
    var p := s[..|s| - 1];
    if p == [] {
      assert s == [s[0]];
    } else {
      assert p[0] == s[0];
      CanonicalIsPositive(p);
    }
  }

  /** The other direction of the round trip: every canonical numeral is the
      encoding of the number it denotes, so the shortest form is unique. */
  lemma {:induction false} EncodeDecodeCanonical(s: seq<byte>)
    requires Canonical(s)
    ensures EncodeDigits(DecodeValue(s)) == s
    decreases |s|
  {
    if s != [] {
      QuoteIsNotASymbol();
      var p, c := s[..|s| - 1], s[|s| - 1];
      assert c != Quote;
      var v := DecodeValue(s);
      assert v == DecodeValue(p) * 64 + DigitOf(c);
      CanonicalIsPositive(s);
      assert v / 64 == DecodeValue(p) && v % 64 == DigitOf(c);
      if p != [] {
        assert p[0] == s[0];
      }
      EncodeDecodeCanonical(p);
      assert s == p + [c];
    }
  }

  /** No byte string denotes a number with fewer bytes than its encoding. */
  lemma EncodeIsShortest(s: seq<byte>)
    ensures |EncodeDigits(DecodeValue(s))| <= |s|
  {
    EncodeLength(DecodeValue(s), |s|);
  }

  /** Worked values: 1 is the second symbol, 64 takes two symbols, and the
      empty string is 0. */
  lemma SmallValues()
    ensures Encode(1) == [Ascii('_')]
    ensures Encode(64) == [Ascii('_'), Ascii('-')]
    ensures Decode([]) == 0
  {
    assert EncodeDigits(1) == [SymbolOf(1)];
    assert EncodeDigits(64) == EncodeDigits(1) + [SymbolOf(0)];
  }

  /** Decoding a numeral of 11 symbols can overflow into a negative `int64`,
      which the encoder then writes as the empty string: `G----------`
      (digit 8 followed by ten zero digits) is 2^63, which wraps to the
      smallest `int64`. */
  lemma HighBitNotRestored()
    ensures var s := [Ascii('G')] + seq(10, _ => Ascii('-'));
            Decode(s) as int == Int64Min && Encode(Decode(s)) == []
  {
    var s := [Ascii('G')] + seq(10, _ => Ascii('-'));
    var v := 8;
    for i := 1 to 11
      invariant DecodeValue(s[..i]) == v == 8 * Pow64(i - 1)
    {
      assert s[..i + 1][..i] == s[..i];
      v := v * 64;
    }
    assert s[..11] == s;
  }
}
